# bundler-api ingestion and index core, in Dafny

This project models the part of bundler-api that writes gems into the
index database and reads the index back out:

- `BundlerApi::GemDBHelper` (`gem_db_helper.dfy`). Find-or-insert on the
  `rubygems` and `versions` tables. Compare-and-insert on `dependencies`.
  The change signals that clear a stored md5 so the index layer knows a
  list has gone stale.
- `Job` (`job.dfy`). Ingests one publish event: the `gem_exists?` check,
  the shared counter, the download name and address, and the one-transaction
  `insert_spec`.
- `BundlerApi::GemInfo` (`gem_info.dfy`). The grouping half of `deps_for`
  and of `versions`.
- `BundlerApi::AgentReporting` (`agent_reporting.dfy`). Turns a parsed
  user agent into metric names and marks them before handing the request on.

The shared parts:

- `store.dfy` is the database: one `Db` object whose fields are the tables
  and the id counters. It also holds the row lookups (`filter(...).first`)
  and the column updates (`where(...).update(...)`).
- `gems.dfy` holds the gem specification, its dependencies and the payload.
- `strings.dfy` holds the Ruby string operations the core relies on:
  `split` with trailing empty fields dropped, `chomp`, bytewise `<=>`, and
  `sort!` as an in-place sort on an array.
- `scenarios.dfy` runs whole sequences on a fresh store. These follow what
  the repository's tests exercise.

Each operation that changes the store is written as a method on the
objects. Each such method is proved equal to a pure `...Result` function of
the old state. The properties are then proved as lemmas about those
functions.

Some behaviours hold as the code is written and differ from what a reader
or the repository's tests might expect. The model keeps the code's
behaviour:

- `find_or_insert_version` stores `prerelease` as `!spec.version.prerelease?.nil?`.
  That is always true (`GemDbHelper.StoredPrerelease`).
- `insert_dependencies` compares only against the first edge stored for
  (target gem, version), and it only ever appends. An edge whose
  requirement changed is therefore inserted again on every call
  (`GemDbHelper.ChangedRequirementReinsertedEveryCall`,
  `GemDbHelper.StaleEdgeReinserted`).
- `Job#gem_exists?` and its cache key have no platform in them. A second
  platform of an already stored name and version is skipped
  (`Job.RunThenSameNameVersionSkipped`, `Scenarios.SecondPlatformSkipped`).
  `spec/update/job_spec.rb:101-110` expects the second platform to be
  stored. That test builds `BundlerApi::Job` (`spec/update/job_spec.rb:63`,
  `104`), while `lib/bundler_api/update/job.rb:4` defines a top-level
  `class Job`: the test names a class this file does not define.
- `Job#insert_spec` uses `spec.platform` and `@payload.prerelease`. It
  clears no md5, and it reads `dep.name` on every dependency. A legacy
  `[name, requirement]` pair therefore raises inside the transaction, and
  the store is rolled back (`Job.InsertSpecAtomic`).
- `exists?` has no retry. An absent or empty required version is stored as
  nil, not as a string.
- `spec/agent_reporting_spec.rb:34` stubs `Metriks.counter`, while the code
  marks `Metriks.meter`. The model follows the code: the meters marked, in
  order.

## Model

| member | source | states |
|---|---|---|
| Store.FirstWhere | lib/bundler_api/update/gem_db_helper.rb:44 | `.first` of a filter is the least index whose row matches; no earlier row matches; none means no row matches |
| Store.FindRubygem | lib/bundler_api/update/gem_db_helper.rb:44 | the first `rubygems` row with this name; None exactly when no row has it |
| Store.FindVersion | lib/bundler_api/update/gem_db_helper.rb:66-70 | the first `versions` row with this (rubygem id, number, platform); None exactly when there is none |
| Store.FindEdge | lib/bundler_api/update/gem_db_helper.rb:133-134 | the first `dependencies` row for (rubygem id, version id); None exactly when there is none |
| Store.FindIndexedVersion | lib/bundler_api/update/gem_db_helper.rb:20-30 | the first indexed version row with this number and platform that joins a rubygem of this name; None exactly when no row satisfies the join |
| Store.Db.constructor | lib/bundler_api/update/gem_db_helper.rb:5-9 | an empty store with the given checksum rows, all id counters at 1, and valid |
| Store.Db.Restore | lib/bundler_api/update/job.rb:81-122 | the rolled-back transaction: every table is back to the given snapshot |
| Store.Db.AppendVersion | lib/bundler_api/update/gem_db_helper.rb:90-102 | `versions.insert`: the row is appended, the version counter moves on by one, and no other table changes |
| Store.FindRubygemAppend | lib/bundler_api/update/gem_db_helper.rb:51 | after appending a row, the first match is the old one if there was one, else the new row if it matches |
| Store.FindVersionAppend | lib/bundler_api/update/gem_db_helper.rb:90-102 | the same for an appended version row |
| Store.FindEdgeAppend | lib/bundler_api/update/gem_db_helper.rb:137-142 | the same for an appended dependency row |
| Store.FindEdgeExtend | lib/bundler_api/update/gem_db_helper.rb:133-134 | appended rows never move an existing first edge |
| Store.FindVersionSameKeys | lib/bundler_api/update/gem_db_helper.rb:75 | changing a column other than the keys leaves every version lookup where it was |
| Store.FindRubygemSameNames | lib/bundler_api/update/gem_db_helper.rb:106 | changing `deps_md5` leaves every rubygem lookup where it was |
| Store.ClearMd5 | lib/bundler_api/update/gem_db_helper.rb:107 | definition: `checksums.filter(name: ...).update(md5: nil)`, the md5 of every row of that name becomes nil |
| Store.ClearDepsMd5 | lib/bundler_api/update/gem_db_helper.rb:106 | definition: `rubygems.filter(id: ...).update(deps_md5: nil)` |
| Store.SetIndexed | lib/bundler_api/update/gem_db_helper.rb:75 | definition: `versions.where(id: ...).update(indexed: ...)` |
| Store.SetInfoChecksum | lib/bundler_api/update/gem_db_helper.rb:60 | definition: `versions.where(id: ...).update(info_checksum: ...)` |
| Store.SameVersionIdsValid | lib/bundler_api/update/gem_db_helper.rb:75 | rewriting non-key version columns keeps every id below its counter and distinct |
| Store.AppendVersionValid | lib/bundler_api/update/gem_db_helper.rb:90-106 | appending a version under the next id, and rewriting non-key rubygem columns, keeps every id below its counter and distinct |
| Store.AppendRubygemValid | lib/bundler_api/update/job.rb:87-92 | appending a rubygem under the next id keeps every id below its counter and distinct |
| Store.AppendDependencyValid | lib/bundler_api/update/job.rb:112-119 | appending a dependency under the next id keeps every id below its counter and distinct |
| Strings.DropTrailingEmpty | lib/bundler_api/update/gem_db_helper.rb:152 | `split` drops exactly the trailing empty fields: a prefix of the fields, not ending in "", with only "" removed |
| Strings.Fields | lib/bundler_api/update/gem_db_helper.rb:152 | the fields between occurrences of the separator, empty ones included; there is always at least one |
| Strings.Split | lib/bundler_api/update/gem_db_helper.rb:152 | definition: Ruby's `split` on a literal separator, `Fields` with the trailing empty fields dropped |
| Strings.Join | lib/bundler_api/update/gem_db_helper.rb:152 | definition: the parts with the separator between them, the inverse `SplitOfJoin` and `JoinOfFields` are about |
| Strings.FieldsOfJoin | lib/bundler_api/update/gem_db_helper.rb:152 | cutting a join of separator-free parts at the separator gives back the parts |
| Strings.JoinOfFields | lib/bundler_api/update/gem_db_helper.rb:152 | joining the fields of a string with the separator gives back the string |
| Strings.SplitOfJoin | lib/bundler_api/update/gem_db_helper.rb:152 | `split` of the join of non-empty, separator-free parts is those parts |
| Strings.ChompAppended | lib/bundler_api/gem_info.rb:84 | `chomp(suffix)` removes an appended suffix: `(n + suffix).chomp(suffix) == n` |
| Strings.Chomp | lib/bundler_api/gem_info.rb:84 | definition: Ruby's `chomp(suffix)`, the string less the suffix when it ends with it, else the string; `ChompCases` is its partner |
| Strings.ChompCases | lib/bundler_api/gem_info.rb:84 | `chomp` keeps a string without the suffix and removes exactly the suffix otherwise |
| Strings.LexLeTotal | lib/bundler_api/gem_info.rb:88 | bytewise `<=>` orders any two strings |
| Strings.LexLe | lib/bundler_api/gem_info.rb:88 | definition: Ruby's `<=>` on strings as used by `sort!`, bytewise, a proper prefix first |
| Strings.LexLeTrans | lib/bundler_api/gem_info.rb:88 | bytewise `<=>` is transitive |
| Strings.LexLeAntisym | lib/bundler_api/gem_info.rb:88 | bytewise `<=>` is antisymmetric |
| Strings.InsertSorted | lib/bundler_api/gem_info.rb:88 | inserting into a sorted list keeps it sorted and adds exactly the element |
| Strings.Sort | lib/bundler_api/gem_info.rb:88 | the sorted list is sorted and a permutation of the input |
| Strings.HeadIsLeast | lib/bundler_api/gem_info.rb:88 | the head of a sorted list is at most each of its elements |
| Strings.SortedPermutationUnique | lib/bundler_api/gem_info.rb:88 | two sorted permutations of each other are equal, so `sort!`'s result is determined |
| Strings.SortInPlace | lib/bundler_api/gem_info.rb:88 | `sort!` on an array: afterwards sorted, a permutation of the old contents, and equal to `Sort` of them |
| Gems.VersionString | lib/bundler_api/gem_info.rb:82-83 | definition: the number, with `-platform` unless the platform is ruby |
| Gems.HasLegacy | lib/bundler_api/update/job.rb:109-110 | definition: some dependency is a legacy `[name, requirement]` pair, on which `dep.name` raises |
| GemDbHelper.GemDbHelper.constructor | lib/bundler_api/update/gem_db_helper.rb:5-9 | holds the given store, cache and mutex presence |
| GemDbHelper.ExistsResult | lib/bundler_api/update/gem_db_helper.rb:11-39 | with a mutex, a cached full name is answered from the cache; otherwise nil exactly when no indexed row of (name, number, platform) joins the gem, and a hit is the first indexed row of (name, number, platform) joined to a gem of the name, in insertion order; only a hit with a mutex is cached |
| GemDbHelper.ExistsAnswerIsCached | lib/bundler_api/update/gem_db_helper.rb:14-36 | after a hit with a mutex, asking again returns the same row from the cache |
| GemDbHelper.GemDbHelper.Exists | lib/bundler_api/update/gem_db_helper.rb:11-39 | the method's answer and new cache are those of `ExistsResult` |
| GemDbHelper.FindOrInsertRubygemResult | lib/bundler_api/update/gem_db_helper.rb:41-57 | inserted exactly when no row has the name; a found gem changes nothing; an insert appends one row with the next id and clears only the `names.list` md5; the returned id is the one the name now resolves to; validity is kept |
| GemDbHelper.FindOrInsertRubygemIdempotent | lib/bundler_api/update/gem_db_helper.rb:41-57 | a second call with the same name inserts nothing, changes nothing and returns the same id |
| GemDbHelper.GemDbHelper.FindOrInsertRubygem | lib/bundler_api/update/gem_db_helper.rb:41-57 | the new store and `[insert, id]` are those of `FindOrInsertRubygemResult` |
| GemDbHelper.UpdateInfoChecksumResult | lib/bundler_api/update/gem_db_helper.rb:59-61 | only `info_checksum` changes, only on rows with this id, and to the given value; other tables and rows are unchanged; validity is kept |
| GemDbHelper.GemDbHelper.UpdateInfoChecksum | lib/bundler_api/update/gem_db_helper.rb:59-61 | the new store is `UpdateInfoChecksumResult` of the old |
| GemDbHelper.PresentNonEmpty | lib/bundler_api/update/gem_db_helper.rb:80-88 | a required version is kept exactly when present and non-empty, else nil |
| GemDbHelper.StoredPrerelease | lib/bundler_api/update/gem_db_helper.rb:96 | the stored `prerelease` flag is true whatever the version says |
| GemDbHelper.NewVersionRow | lib/bundler_api/update/gem_db_helper.rb:77-102 | definition: the inserted row, `indexed` defaulting to true, the required versions through `PresentNonEmpty`, the prerelease flag through `StoredPrerelease` |
| GemDbHelper.FindOrInsertVersionResult | lib/bundler_api/update/gem_db_helper.rb:63-111 | inserted exactly when no row has (rubygem, number, platform); afterwards that key resolves to the returned id; validity is kept |
| GemDbHelper.FindOrInsertVersionFound | lib/bundler_api/update/gem_db_helper.rb:72-75 | on an existing key: no insert, the found id, only `indexed` of that row may change, to a given differing value; with no value or the same value nothing changes |
| GemDbHelper.FindOrInsertVersionInserted | lib/bundler_api/update/gem_db_helper.rb:76-108 | on a new key one row is appended with the next id, the given platform and checksum, `indexed` defaulting to true, each required Ruby and Rubygems version as given, or nil when absent or empty; the gem's `deps_md5` and the `versions.list` md5 are cleared; dependencies are untouched |
| GemDbHelper.FindOrInsertVersionTwice | lib/bundler_api/update/gem_db_helper.rb:63-111 | a second call for the same key and arguments inserts nothing, returns the same id and leaves the store exactly as the first call did |
| GemDbHelper.FindOrInsertVersionUnchanged | lib/bundler_api/update/gem_db_helper.rb:66-75 | a found row whose `indexed` is already the given value, or with no value given, leaves the store as it is and returns that row's id without inserting |
| GemDbHelper.MatchingRequirements | lib/bundler_api/update/gem_db_helper.rb:151-153 | definition: the `", "`-split clauses of both strings form the same set; `MatchingIffSameClauses` is its partner |
| GemDbHelper.GemDbHelper.FindOrInsertVersion | lib/bundler_api/update/gem_db_helper.rb:63-111 | the new store and `[insert, id]` are those of `FindOrInsertVersionResult` |
| GemDbHelper.SplitRequirements | lib/bundler_api/update/gem_db_helper.rb:152 | a requirement rendered from clauses splits back on `", "` into exactly those clauses |
| GemDbHelper.MatchingIffSameClauses | lib/bundler_api/update/gem_db_helper.rb:151-153 | `matching_requirements?` of two rendered requirements holds exactly when their clause sets are equal, in either order and with repeats |
| GemDbHelper.MatchingIsEquivalence | lib/bundler_api/update/gem_db_helper.rb:151-153 | `matching_requirements?` is reflexive, symmetric and transitive |
| GemDbHelper.NoCommaIsClause | lib/bundler_api/update/gem_db_helper.rb:152 | a non-empty string without a comma is one clause |
| GemDbHelper.DifferentClausesDoNotMatch | lib/bundler_api/update/gem_db_helper.rb:151-153 | two different single clauses never match |
| GemDbHelper.Scope | lib/bundler_api/update/gem_db_helper.rb:121-129 | a legacy pair has scope "runtime" |
| GemDbHelper.Describe | lib/bundler_api/update/gem_db_helper.rb:136 | definition: `"#{requirements} #{rubygem_name}"` |
| GemDbHelper.AppendsKeepsValid | lib/bundler_api/update/gem_db_helper.rb:137-142 | appending edges with consecutive fresh ids keeps the store's ids distinct and below the counter |
| GemDbHelper.InsertDependencyResult | lib/bundler_api/update/gem_db_helper.rb:116-145 | one dependency: at most one edge is appended, exactly when the target gem is stored and has no first edge on this version or that edge's clause set differs; the edge has the requirement, scope and target id, and its description is returned |
| GemDbHelper.InsertDependenciesResult | lib/bundler_api/update/gem_db_helper.rb:113-148 | the loop only appends edges with fresh consecutive ids on this version and changes no other table |
| GemDbHelper.InsertDependenciesStep | lib/bundler_api/update/gem_db_helper.rb:116-145 | one turn of the loop, then the rest of it |
| GemDbHelper.OtherEdgeUnmoved | lib/bundler_api/update/gem_db_helper.rb:131-143 | a turn for one target leaves the first edge of another target where it was |
| GemDbHelper.NoInsertWhenSettled | lib/bundler_api/update/gem_db_helper.rb:113-148 | when every dependency's first edge matches, the call changes nothing and returns [] |
| GemDbHelper.SettledAfterOwnTurn | lib/bundler_api/update/gem_db_helper.rb:133-142 | a dependency with no stale first edge has a matching first edge after its turn |
| GemDbHelper.SettledAfterAppends | lib/bundler_api/update/gem_db_helper.rb:137-142 | later appends keep a matching first edge matching |
| GemDbHelper.NotStaleAfterOtherTurn | lib/bundler_api/update/gem_db_helper.rb:131-143 | another target's turn does not make a dependency stale |
| GemDbHelper.SettledAfterInsert | lib/bundler_api/update/gem_db_helper.rb:113-148 | with distinct names and no stale first edge, every dependency has a matching first edge after the call |
| GemDbHelper.InsertDependenciesIdempotent | lib/bundler_api/update/gem_db_helper.rb:113-148 | under the same conditions, calling again with the same dependencies, or with requirements whose clause sets match, inserts nothing and returns [] |
| GemDbHelper.SettledForMatching | lib/bundler_api/update/gem_db_helper.rb:133-135 | a dependency whose edge is already stored stays settled for any dependency of the same name whose requirement has the same clause set |
| GemDbHelper.FirstFillInsertsResolved | lib/bundler_api/update/gem_db_helper.rb:113-148 | on a version without edges, the descriptions returned are those of the dependencies whose target is stored, in declaration order |
| GemDbHelper.StaleEdgeReinserted | lib/bundler_api/update/gem_db_helper.rb:133-142 | a stale first edge is never replaced: each call appends one more edge, reports the dependency again and leaves it stale |
| GemDbHelper.ChangedRequirementReinsertedEveryCall | lib/bundler_api/update/gem_db_helper.rb:133-142 | with `bar ~> 1.0` stored and `~> 2.0` asked, two calls each insert and report the dependency, leaving three edges |
| GemDbHelper.GemDbHelper.InsertDependency | lib/bundler_api/update/gem_db_helper.rb:116-145 | one turn on the store in place equals `InsertDependencyResult` |
| GemDbHelper.GemDbHelper.InsertDependencies | lib/bundler_api/update/gem_db_helper.rb:113-148 | the loop on the store in place equals `InsertDependenciesResult`; the returned descriptions are its list; validity is kept |
| Job.GemCache.constructor | lib/bundler_api/update/job.rb:6 | the shared gem cache starts empty |
| Job.Counter.constructor | lib/bundler_api/update/job.rb:12 | the gem counter starts at 0 |
| Job.Counter.Increment | lib/bundler_api/update/job.rb:18 | the count goes up by one |
| Job.CacheKey | lib/bundler_api/update/job.rb:29 | definition: `"#{name}-#{version}"`, with no platform |
| Job.NameVersionStored | lib/bundler_api/update/job.rb:36-44 | definition: some version row has this number and joins a rubygem of this name, on any platform and whether indexed or not |
| Job.Job.constructor | lib/bundler_api/update/job.rb:8-13 | holds the given store, payload, cache and counter |
| Job.FindNamedVersion | lib/bundler_api/update/job.rb:36-44 | found exactly when some version row has the number and joins a gem of the name, whatever its platform or `indexed` |
| Job.GemExistsResult | lib/bundler_api/update/job.rb:28-53 | true exactly when the cache holds `name-version` or such a row exists; only a positive answer is cached; cached entries are never lost |
| Job.GemExistsStaysTrue | lib/bundler_api/update/job.rb:31-48 | once true for a key, `gem_exists?` is true for it from then on, without reading the tables |
| Job.Job.GemExists | lib/bundler_api/update/job.rb:28-53 | the answer and the new cache are those of `GemExistsResult` |
| Job.DownloadName | lib/bundler_api/update/job.rb:57-58 | the download name is `name-version`, followed by `-platform` unless the platform is "ruby" |
| Job.SpecUrlParts | lib/bundler_api/update/job.rb:59 | the address is the quick Marshal.4.8 prefix, then the download name, then `.gemspec.rz` |
| Job.SpecUrl | lib/bundler_api/update/job.rb:59 | definition: the quick Marshal.4.8 address of the download name |
| Job.JobDependencyResult | lib/bundler_api/update/job.rb:110-120 | one dependency: an edge is appended, unconditionally, exactly when the target gem is stored; nothing else changes |
| Job.JobDependenciesResult | lib/bundler_api/update/job.rb:109-121 | the loop changes only the dependency table and its counter |
| Job.JobDependenciesCount | lib/bundler_api/update/job.rb:109-121 | the loop keeps the old edges, adds one per dependency whose target is stored, and moves the dependency counter by as many |
| Job.ResolvedEdges | lib/bundler_api/update/job.rb:109-121 | definition of the rows the loop should add, independent of the store: one per dependency whose target gem is stored, in spec order, numbered from the first id |
| Job.JobDependenciesEdges | lib/bundler_api/update/job.rb:109-121 | the loop appends exactly `ResolvedEdges`, numbered from the dependency counter, and moves the counter past them |
| Job.ResolvedEdgesCount | lib/bundler_api/update/job.rb:109-121 | there is one edge per dependency whose target gem is stored |
| Job.ResolvedEdgesIds | lib/bundler_api/update/job.rb:112-119 | every edge carries the version id, and edge k has the k-th next id |
| Job.ResolvedEdgeAt | lib/bundler_api/update/job.rb:110-119 | the dependency at position i, when its target gem is stored, has the edge after those of the resolved dependencies before it, holding its requirement, the target's id, the version id and its type |
| Job.ResolvedCountPrefix | lib/bundler_api/update/job.rb:109-121 | counting the resolved dependencies of a prefix: the first one, then the rest |
| Job.JobRubygem | lib/bundler_api/update/job.rb:82-93 | definition: the first rubygem of that name, or a new row under the next id, with no md5 cleared |
| Job.SpecRowsResult | lib/bundler_api/update/job.rb:82-108 | definition: the rubygem step, then one version row under the next version id |
| Job.InsertSpecResult | lib/bundler_api/update/job.rb:77-122 | definition: a nil spec raises "Failed to load spec"; a legacy dependency raises inside the transaction and nothing is kept; otherwise the rows, then the dependency loop |
| Job.JobDependenciesValid | lib/bundler_api/update/job.rb:109-121 | the dependency loop keeps every id below its counter and distinct |
| Job.SpecRowsValid | lib/bundler_api/update/job.rb:82-108 | the rubygem and version rows keep every id below its counter and distinct |
| Job.InsertSpecValid | lib/bundler_api/update/job.rb:77-122 | `insert_spec` keeps every id below its counter and distinct, whether it stores or raises |
| Job.InsertSpecAtomic | lib/bundler_api/update/job.rb:77-122 | the call raises exactly for a nil spec ("Failed to load spec") or a legacy dependency, and then no table changes |
| Job.InsertSpecStored | lib/bundler_api/update/job.rb:81-122 | a stored spec: the rubygem is reused by name or added once; one version row is appended with the spec's platform, `indexed` true, the payload's prerelease flag and no checksum, joined to that gem; the dependency rows added are exactly `ResolvedEdges` for that version id, numbered from the dependency counter; no md5 is cleared |
| Job.Job.InsertSpec | lib/bundler_api/update/job.rb:77-125 | on a valid store, the new store and the raised message are those of `InsertSpecResult`, and the store stays valid |
| Job.Job.InsertSpecRows | lib/bundler_api/update/job.rb:82-108 | the gem lookup or insert and the version insert on the store in place equal `SpecRowsResult`, with the new version id |
| Job.Job.InsertDependency | lib/bundler_api/update/job.rb:110-120 | one loop turn on the store in place equals `JobDependencyResult` |
| Job.RunResult | lib/bundler_api/update/job.rb:15-25 | a known gem is skipped with no change but the cache; an unknown one bumps the counter by one and takes the tables `insert_spec` leaves; the outcome is `Stored` exactly when `insert_spec` raised nothing, and `Raised` carries its message |
| Job.RunThenSameNameVersionSkipped | lib/bundler_api/update/job.rb:15-53 | after a run that stored its spec, a job for the same name and version on any platform is skipped and changes no table |
| Job.Job.Run | lib/bundler_api/update/job.rb:15-25 | on a valid store, the new store, cache, count and outcome are those of `RunResult`, and the store stays valid |
| GemInfo.DepsFor | lib/bundler_api/gem_info.rb:12-65 | one entry per distinct (name, number, platform, required versions) key, in order of first appearance, each with the `[dep_name, requirements]` pairs of its rows; with no gem names the required versions are all nil |
| GemInfo.RowKey | lib/bundler_api/gem_info.rb:50 | definition: the `DepKey` of a row; with no gem names the two required-version columns are nil |
| GemInfo.GroupKeys | lib/bundler_api/gem_info.rb:47-53 | definition: the distinct keys in order of first appearance, the key order of the `deps` hash |
| GemInfo.Pairs | lib/bundler_api/gem_info.rb:51-52 | definition: `deps[key]`, the `[dep_name, requirements]` pairs of the rows with that key and a target name, in row order |
| GemInfo.Entry | lib/bundler_api/gem_info.rb:55-64 | definition: the hash built for one key |
| GemInfo.GroupKeysComplete | lib/bundler_api/gem_info.rb:47-53 | a key is among the entries exactly when some row has it |
| GemInfo.GroupKeysDistinct | lib/bundler_api/gem_info.rb:47-53 | no key appears twice |
| GemInfo.PairsOfAbsentKey | lib/bundler_api/gem_info.rb:49-51 | a key no row has collects no pairs |
| GemInfo.TotalPairsAppendKey | lib/bundler_api/gem_info.rb:49-51 | counting pairs over one more key adds that key's pairs |
| GemInfo.TotalPairsAppendRow | lib/bundler_api/gem_info.rb:49-51 | one more row adds one pair exactly when it has a target name and its key is counted |
| GemInfo.PairsCountRows | lib/bundler_api/gem_info.rb:47-53 | across all entries the pairs number exactly the rows with a target name: none lost, none doubled |
| GemInfo.Versions | lib/bundler_api/gem_info.rb:73-89 | the gem names are exactly the names recovered from the rows, and each one's list is its version strings, sorted |
| GemInfo.CollectVersions | lib/bundler_api/gem_info.rb:80-86 | the row loop: the names recovered, each with its version strings in row order |
| GemInfo.RowVersion | lib/bundler_api/gem_info.rb:82-83 | definition: the number, with `-platform` unless the platform is ruby |
| GemInfo.RowName | lib/bundler_api/gem_info.rb:84 | definition: `full_name.chomp("-" + version)` |
| GemInfo.Collected | lib/bundler_api/gem_info.rb:80-86 | definition: the versions of the rows named `name`, in row order, `specs_hash[name]` before the sort |
| GemInfo.CollectedStep | lib/bundler_api/gem_info.rb:80-86 | one more row adds its version to its own name's list and leaves every other name's list unchanged |
| GemInfo.SortEach | lib/bundler_api/gem_info.rb:88 | the same names, each list replaced by its sorted permutation |
| GemInfo.CollectedOfAbsentName | lib/bundler_api/gem_info.rb:74 | a name no row recovers has no versions |
| GemInfo.RowNameRecovered | lib/bundler_api/gem_info.rb:82-84 | a full name `name-version` gives back `name`; one not ending in `-version` is kept whole |
| GemInfo.VersionsSortedPermutation | lib/bundler_api/gem_info.rb:88 | each returned list is sorted and a permutation of the versions collected for its name |
| AgentReporting.Sanitize | lib/bundler_api/agent_reporting.rb:48 | length is kept; allowed characters are kept; every other character becomes '.'; the result is all allowed |
| AgentReporting.SanitizeIdempotent | lib/bundler_api/agent_reporting.rb:48 | sanitizing twice is sanitizing once |
| AgentReporting.SanitizeKeepsAllowed | lib/bundler_api/agent_reporting.rb:48 | a key of allowed characters is unchanged |
| AgentReporting.MeterName | lib/bundler_api/agent_reporting.rb:48-49 | the meter name is the sanitized key cut to at most 255 characters, all allowed |
| AgentReporting.ReportedMeters | lib/bundler_api/agent_reporting.rb:27-51 | nothing is reported for an unmatched agent or a known id; otherwise one meter per key, in key order, each the key's meter name |
| AgentReporting.ReportedMetersAreMetricNames | lib/bundler_api/agent_reporting.rb:46-49 | every name marked is at most 255 characters long and uses only `.:_-`, digits and ASCII letters |
| AgentReporting.BaseKeys | lib/bundler_api/agent_reporting.rb:31-36 | definition: the five keys of bundler, rubygems and ruby version, arch and command |
| AgentReporting.ListKeys | lib/bundler_api/agent_reporting.rb:38-44 | definition: `list.split(",").map { |k| prefix + k }`, nothing when the group is absent |
| AgentReporting.GroupParts | lib/bundler_api/agent_reporting.rb:38-44 | definition: the comma-separated fields of an optional group, none when the group did not match |
| AgentReporting.Keys | lib/bundler_api/agent_reporting.rb:31-44 | definition: base keys, then option keys, then ci keys |
| AgentReporting.KeysInOrder | lib/bundler_api/agent_reporting.rb:31-44 | the keys are bundler, rubygems, ruby, arch and command, then `options.` per option field, then `cis.` per ci field |
| AgentReporting.SampleAgentReports | spec/agent_reporting_spec.rb:24-45 | the sample agent reports exactly its five base keys, unchanged |
| AgentReporting.SampleKeysSpelled | spec/agent_reporting_spec.rb:40-44 | those keys are the five names the test expects |
| AgentReporting.SamplePartsAllowed | spec/agent_reporting_spec.rb:24-31 | every field of the sample agent uses only allowed characters |
| AgentReporting.MeterLog.constructor | lib/bundler_api/agent_reporting.rb:49 | no meter marked yet |
| AgentReporting.MeterLog.Mark | lib/bundler_api/agent_reporting.rb:49 | the meter is appended to the marks |
| AgentReporting.ReportUserAgent | lib/bundler_api/agent_reporting.rb:27-51 | the meters marked are the old marks followed by `ReportedMeters` |
| AgentReporting.MetersOfKeys | lib/bundler_api/agent_reporting.rb:46-49 | one meter per key, and the meters for one more key are the earlier ones followed by that key's meter name |
| AgentReporting.Call | lib/bundler_api/agent_reporting.rb:20-23 | the response is the wrapped app's response, and the agent's meters are marked |
| Scenarios.FillOnceThenSettled | lib/bundler_api/update/gem_db_helper.rb:113-148 | on a store with no edges a resolvable dependency is inserted as exactly its edge, and filling again inserts nothing |
| Scenarios.FillMissingDependency | spec/update/fix_dep_job_spec.rb:25-43 | with `bar` and `foo 1.0` stored, filling `bar ~> 1.0` leaves exactly one such runtime edge, and a second fill adds nothing |
| Scenarios.ReindexRemovedVersion | lib/bundler_api/update/gem_db_helper.rb:63-75 | for any spec stored in an empty store, a version set to unindexed is no longer found by `exists?`, and `find_or_insert_version` with `indexed` true finds the same row, inserts nothing and marks it indexed again |
| Scenarios.SecondPlatformSkipped | lib/bundler_api/update/job.rb:15-53 | jobs for `foo 1.0` on ruby and then java: the first is stored, the second skipped, one version row, counter 1 |
| Scenarios.DownloadNameListsUnderGem | lib/bundler_api/gem_info.rb:80-84 | the full name a job downloads under gives back the gem name in `versions` |

## Left out

- I/O and the network: `download_spec` performs an HTTP fetch, `Gem.inflate` and `Marshal.load`. The specification it yields is a parameter of `Job.Job.Run` (None stands for nil).
- The retry loop of `download_spec` (lib/bundler_api/update/job.rb:63-72): `retry` comes before `count += 1`, so the loop never terminates while the fetch fails. It cannot be a terminating function, and the download is outside the model anyway.
- `puts` output and the `Metriks` timers: these are logging with no effect on state.
- Mutexes and threads: every operation is modelled as one atomic step. `Job` and `insert_spec` take the lock around their updates, and the model writes them as sequential updates. The `@mutex` of `GemDBHelper` is only the boolean `hasMutex`.
- `UA_REGEX` and `known_id?` (lib/bundler_api/agent_reporting.rb:4-13, 53-66): regular-expression matching against Rubygems' version pattern, and Redis. The match is a parameter (`Option<UaMatch>`) and so is the known-id answer. The Redis `setex` side effect is not modelled.
- `GemInfo#names` and both SQL queries: the SQL engine is not modelled. `deps_for` and `versions` take the rows their queries return, in query order.
- GemInfo.Versions: returns a map, so the key order of the Ruby Hash (first appearance) is not captured.
- Column values that are not part of the behaviour: timestamps, authors, description, summary, downloads, latest. Time is outside the model.
- `Gem::Version` and `Gem::Requirement`: versions and requirements are their strings (`version.version`, `requirement.to_s`). Requirement rendering, and whether a clause may contain `", "`, are not modelled.
- Store.Db.Restore: the rollback also puts back the three id counters, so after a raised `insert_spec` the model hands out again the ids the rolled-back inserts used; a database sequence is not rolled back with the transaction and would skip them. Ids are opaque keys here and no operation of the model depends on their values.
- `FindIndexedVersion`: an SQL `first` without `ORDER BY` is modelled as the first row in insertion order.
- `lib/bundler_api/web.rb`, `lib/bundler_api/storage.rb`, `FixDepJob` and `GemHelper` are not part of this model. The fix-dep test is restated with `GemDbHelper` directly in `Scenarios.FillMissingDependency`.
- GemDbHelper.GemDbHelper.FindOrInsertVersion: the Ruby defaults `platform = 'ruby'`, `checksum = nil` and `indexed = nil` (lib/bundler_api/update/gem_db_helper.rb:63) are not defaults here; Dafny methods have no default arguments, so every caller passes all three (`RubyPlatform`, `None`, `None` for the defaults).
- `metric.gsub!` mutates the key string in place. It is modelled as a value, because no other reference to the string is observed.
