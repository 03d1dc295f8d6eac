/**
 * `BundlerApi::GemDBHelper`: find-or-insert over the `rubygems` and
 * `versions` tables, compare-and-insert over `dependencies`, and the
 * change signals (clearing a stored md5) that tell the index layer a list
 * went stale.
 *
 * Each operation is a pure function of the store snapshot (the `...Result`
 * functions, whose properties are the lemmas of this module) and a method
 * of `GemDbHelper` that performs it on a `Db` in place.
 */
module GemDbHelper {
  import opened Wrappers
  import opened Strings
  import opened Store
  import opened Gems

  /** The row `exists?` returns: `{rubygem_id, version_id}`. */
  datatype ExistsRow = ExistsRow(rubygemId: int, versionId: int)

  /** The answer of `exists?` and the gem cache after it. */
  datatype ExistsOutcome = ExistsOutcome(result: Option<ExistsRow>, cache: map<string, ExistsRow>)

  /** The `[insert, id]` pair of a find-or-insert, with the store after it. */
  datatype Found = Found(tables: Tables, inserted: bool, id: int)

  /** The descriptions `insert_dependencies` returns, with the store after it. */
  datatype Inserted = Inserted(tables: Tables, added: seq<string>)

  const NamesList := "names.list"
  const VersionsList := "versions.list"
  const ClauseSeparator := ", "

  // ---- exists? ----

  /**
   * `exists?(payload)`: a truthy cache entry for the payload's full name is
   * returned as it is (only when there is a mutex); otherwise the first
   * indexed version row for (name, number, platform) is looked up, and a
   * hit, never a miss, is cached (again only when there is a mutex).
   */
  function ExistsResult(t: Tables, cache: map<string, ExistsRow>, hasMutex: bool, payload: Payload): (r: ExistsOutcome)
    ensures hasMutex && payload.fullName in cache ==> r == ExistsOutcome(Some(cache[payload.fullName]), cache)
    ensures !(hasMutex && payload.fullName in cache) ==>
      (r.result.None? <==> FindIndexedVersion(t, payload.name, payload.version, payload.platform).None?)
    ensures !(hasMutex && payload.fullName in cache) && r.result.Some? ==>
      exists i :: 0 <= i < |t.versions| && t.versions[i].id == r.result.value.versionId
        && t.versions[i].rubygemId == r.result.value.rubygemId && t.versions[i].indexed
        && t.versions[i].number == payload.version && t.versions[i].platform == payload.platform
        && HasRubygem(t.rubygems, t.versions[i].rubygemId, payload.name)
    ensures !(hasMutex && payload.fullName in cache) && r.result.Some? ==>
      FindIndexedVersion(t, payload.name, payload.version, payload.platform).Some?
      && r.result.value == ExistsRow(
        t.versions[FindIndexedVersion(t, payload.name, payload.version, payload.platform).value].rubygemId,
        t.versions[FindIndexedVersion(t, payload.name, payload.version, payload.platform).value].id)
    ensures r.result.None? || !hasMutex ==> r.cache == cache
    ensures hasMutex && r.result.Some? ==> r.cache == cache[payload.fullName := r.result.value]
  {
    var key := payload.fullName;
    if hasMutex && key in cache then ExistsOutcome(Some(cache[key]), cache)
    else
      var row := match FindIndexedVersion(t, payload.name, payload.version, payload.platform)
        case None => None
        case Some(i) => Some(ExistsRow(t.versions[i].rubygemId, t.versions[i].id));
      ExistsOutcome(row, if hasMutex && row.Some? then cache[key := row.value] else cache)
  }

  /** After a positive `exists?` with a mutex, asking again is answered from the cache with the same row. */
  lemma ExistsAnswerIsCached(t: Tables, cache: map<string, ExistsRow>, payload: Payload)
    requires ExistsResult(t, cache, true, payload).result.Some?
    ensures var r := ExistsResult(t, cache, true, payload);
      ExistsResult(t, r.cache, true, payload) == ExistsOutcome(r.result, r.cache)
  {
  }

  // ---- find_or_insert_rubygem ----

  /**
   * `find_or_insert_rubygem(spec)`: the first row named `name`, or a new
   * row; the `names.list` md5 is cleared exactly when a row was inserted.
   */
  function FindOrInsertRubygemResult(t: Tables, name: string): (r: Found)
    ensures TablesValid(t) ==> TablesValid(r.tables)
    ensures r.inserted <==> FindRubygem(t.rubygems, name).None?
    ensures !r.inserted ==> r.tables == t && r.id == t.rubygems[FindRubygem(t.rubygems, name).value].id
    ensures r.inserted ==> (r.id == t.nextRubygemId
      && r.tables == t.(rubygems := t.rubygems + [RubygemRow(r.id, name, None)],
                        nextRubygemId := t.nextRubygemId + 1,
                        checksums := ClearMd5(t.checksums, NamesList)))
    ensures var k := FindRubygem(r.tables.rubygems, name); k.Some? && r.tables.rubygems[k.value].id == r.id
  {
    match FindRubygem(t.rubygems, name)
    case Some(i) => Found(t, false, t.rubygems[i].id)
    case None =>
      var id := t.nextRubygemId;
      var rows := t.rubygems + [RubygemRow(id, name, None)];
      FindRubygemAppend(t.rubygems, RubygemRow(id, name, None), name);
      Found(t.(rubygems := rows, nextRubygemId := id + 1, checksums := ClearMd5(t.checksums, NamesList)), true, id)
  }

  /** A second `find_or_insert_rubygem` for the same name changes nothing and returns the same id. */
  lemma FindOrInsertRubygemIdempotent(t: Tables, name: string)
    ensures var r := FindOrInsertRubygemResult(t, name);
      FindOrInsertRubygemResult(r.tables, name) == Found(r.tables, false, r.id)
  {
  }

  // ---- update_info_checksum ----

  /** `update_info_checksum(version_id, info_checksum)`: that column of that row, nothing else. */
  function UpdateInfoChecksumResult(t: Tables, versionId: int, infoChecksum: Option<string>): (r: Tables)
    ensures r == t.(versions := r.versions)
    ensures |r.versions| == |t.versions|
    ensures forall i :: 0 <= i < |t.versions| ==> r.versions[i].(infoChecksum := t.versions[i].infoChecksum) == t.versions[i]
    ensures forall i :: 0 <= i < |t.versions| && t.versions[i].id == versionId ==> r.versions[i].infoChecksum == infoChecksum
    ensures forall i :: 0 <= i < |t.versions| && t.versions[i].id != versionId ==> r.versions[i] == t.versions[i]
    ensures TablesValid(t) ==> TablesValid(r)
  {
    t.(versions := SetInfoChecksum(t.versions, versionId, infoChecksum))
  }

  // ---- find_or_insert_version ----

  /** A required version is stored only when present and non-empty; otherwise the column is nil. */
  function PresentNonEmpty(o: Option<string>): (r: Option<string>)
    ensures r.Some? ==> r.value != "" && r == o
    ensures o.Some? && o.value != "" ==> r == o
  {
    if o.Some? && o.value != "" then o else None
  }

  /**
   * The stored prerelease flag, `!spec.version.prerelease?.nil?`:
   * `prerelease?` answers a boolean, which is never nil, so the flag is
   * true for every version.
   */
  function StoredPrerelease(prerelease: bool): (r: bool)
    ensures r
  {
    var answer: Option<bool> := Some(prerelease);
    !answer.None?
  }

  /** The row `find_or_insert_version` inserts. */
  function NewVersionRow(id: int, spec: Spec, rubygemId: int, platform: string, checksum: Option<string>, indexed: Option<bool>): VersionRow
  {
    VersionRow(
      id, rubygemId, spec.version, platform,
      indexed.GetOr(true),
      StoredPrerelease(spec.prerelease),
      spec.fullName,
      PresentNonEmpty(spec.requiredRubygemsVersion),
      PresentNonEmpty(spec.requiredRubyVersion),
      checksum,
      None)
  }

  /**
   * `find_or_insert_version(spec, rubygem_id, platform, checksum, indexed)`:
   * the first row for (rubygem, number, platform), whose `indexed` is set
   * to a given, differing value; or a new row, after which the gem's
   * `deps_md5` and the `versions.list` md5 are cleared.
   */
  function FindOrInsertVersionResult(t: Tables, spec: Spec, rubygemId: int, platform: string,
                                     checksum: Option<string>, indexed: Option<bool>): (r: Found)
    ensures TablesValid(t) ==> TablesValid(r.tables)
    ensures r.inserted <==> FindVersion(t.versions, rubygemId, spec.version, platform).None?
    ensures var k := FindVersion(r.tables.versions, rubygemId, spec.version, platform);
      k.Some? && r.tables.versions[k.value].id == r.id
  {
    match FindVersion(t.versions, rubygemId, spec.version, platform)
    case Some(i) =>
      var v := t.versions[i];
      var versions := if indexed.Some? && v.indexed != indexed.value then SetIndexed(t.versions, v.id, indexed.value) else t.versions;
      FindVersionSameKeys(versions, t.versions, rubygemId, spec.version, platform);
      SameVersionIdsValid(t, versions);
      Found(t.(versions := versions), false, v.id)
    case None =>
      var id := t.nextVersionId;
      var versions := t.versions + [NewVersionRow(id, spec, rubygemId, platform, checksum, indexed)];
      FindVersionAppend(t.versions, NewVersionRow(id, spec, rubygemId, platform, checksum, indexed), rubygemId, spec.version, platform);
      AppendVersionValid(t, NewVersionRow(id, spec, rubygemId, platform, checksum, indexed),
                         ClearDepsMd5(t.rubygems, rubygemId), ClearMd5(t.checksums, VersionsList));
      Found(t.(versions := versions,
               nextVersionId := id + 1,
               rubygems := ClearDepsMd5(t.rubygems, rubygemId),
               checksums := ClearMd5(t.checksums, VersionsList)),
            true, id)
  }

  /**
   * On an existing (rubygem, number, platform) no row is added and no
   * signal fires; only `indexed` may change, and only when a value is given
   * that differs from the stored one, and then it becomes that value.
   */
  lemma FindOrInsertVersionFound(t: Tables, spec: Spec, rubygemId: int, platform: string,
                                 checksum: Option<string>, indexed: Option<bool>)
    requires TablesValid(t)
    requires FindVersion(t.versions, rubygemId, spec.version, platform).Some?
    ensures var r := FindOrInsertVersionResult(t, spec, rubygemId, platform, checksum, indexed);
      var i := FindVersion(t.versions, rubygemId, spec.version, platform).value;
      && !r.inserted && r.id == t.versions[i].id
      && r.tables == t.(versions := r.tables.versions)
      && |r.tables.versions| == |t.versions|
      && (forall j :: 0 <= j < |t.versions| ==> r.tables.versions[j].(indexed := t.versions[j].indexed) == t.versions[j])
      && (indexed.None? || indexed.value == t.versions[i].indexed ==> r.tables == t)
      && (indexed.Some? ==> r.tables.versions[i].indexed == indexed.value)
      && (forall j :: 0 <= j < |t.versions| && j != i ==> r.tables.versions[j] == t.versions[j])
  {
    var i := FindVersion(t.versions, rubygemId, spec.version, platform).value;
    forall j | 0 <= j < |t.versions| && j != i
      ensures t.versions[j].id != t.versions[i].id
    {
      if j < i {} else {}
    }
  }

  /**
   * On a new (rubygem, number, platform) exactly one row is appended: with
   * the given platform, `indexed` defaulting to true, each required version
   * as given or nil when absent or empty, and the prerelease flag set; the gem's
   * `deps_md5` and the `versions.list` md5 are cleared.
   */
  lemma FindOrInsertVersionInserted(t: Tables, spec: Spec, rubygemId: int, platform: string,
                                    checksum: Option<string>, indexed: Option<bool>)
    requires FindVersion(t.versions, rubygemId, spec.version, platform).None?
    ensures var r := FindOrInsertVersionResult(t, spec, rubygemId, platform, checksum, indexed);
      && r.inserted && r.id == t.nextVersionId
      && |r.tables.versions| == |t.versions| + 1
      && r.tables.versions[..|t.versions|] == t.versions
      && var v := r.tables.versions[|t.versions|];
      && v.id == r.id && v.rubygemId == rubygemId && v.number == spec.version && v.platform == platform
      && v.indexed == (indexed.None? || indexed.value)
      && v.prerelease
      && v.fullName == spec.fullName && v.checksum == checksum && v.infoChecksum.None?
      && (spec.requiredRubyVersion.None? || spec.requiredRubyVersion == Some("") <==> v.requiredRubyVersion.None?)
      && (spec.requiredRubygemsVersion.None? || spec.requiredRubygemsVersion == Some("") <==> v.rubygemsVersion.None?)
      && v.requiredRubyVersion == PresentNonEmpty(spec.requiredRubyVersion)
      && v.rubygemsVersion == PresentNonEmpty(spec.requiredRubygemsVersion)
      && r.tables.rubygems == ClearDepsMd5(t.rubygems, rubygemId)
      && r.tables.checksums == ClearMd5(t.checksums, VersionsList)
      && r.tables.dependencies == t.dependencies
  {
    assert (t.versions + [NewVersionRow(t.nextVersionId, spec, rubygemId, platform, checksum, indexed)])[..|t.versions|] == t.versions;
  }

  /** Asking again for the same (rubygem, number, platform) finds the row: no second insert, same id, and no change. */
  lemma FindOrInsertVersionTwice(t: Tables, spec: Spec, rubygemId: int, platform: string,
                                 checksum: Option<string>, indexed: Option<bool>)
    ensures var r := FindOrInsertVersionResult(t, spec, rubygemId, platform, checksum, indexed);
      var r2 := FindOrInsertVersionResult(r.tables, spec, rubygemId, platform, checksum, indexed);
      !r2.inserted && r2.id == r.id && r2.tables == r.tables
  {
    var r := FindOrInsertVersionResult(t, spec, rubygemId, platform, checksum, indexed);
    var k: nat;
    match FindVersion(t.versions, rubygemId, spec.version, platform)
    case Some(i) =>
      var v := t.versions[i];
      var versions := if indexed.Some? && v.indexed != indexed.value then SetIndexed(t.versions, v.id, indexed.value) else t.versions;
      assert r.tables.versions == versions;
      FindVersionSameKeys(versions, t.versions, rubygemId, spec.version, platform);
      assert indexed.Some? ==> versions[i].indexed == indexed.value;
      k := i;
    case None =>
      var row := NewVersionRow(t.nextVersionId, spec, rubygemId, platform, checksum, indexed);
      assert r.tables.versions == t.versions + [row];
      FindVersionAppend(t.versions, row, rubygemId, spec.version, platform);
      assert (t.versions + [row])[|t.versions|] == row;
      k := |t.versions|;
    FindOrInsertVersionUnchanged(r.tables, spec, rubygemId, platform, checksum, indexed);
  }

  /** A found row whose `indexed` needs no change leaves the store as it is. */
  lemma FindOrInsertVersionUnchanged(t: Tables, spec: Spec, rubygemId: int, platform: string,
                                     checksum: Option<string>, indexed: Option<bool>)
    requires FindVersion(t.versions, rubygemId, spec.version, platform).Some?
    requires var k := FindVersion(t.versions, rubygemId, spec.version, platform).value;
      indexed.None? || t.versions[k].indexed == indexed.value
    ensures FindOrInsertVersionResult(t, spec, rubygemId, platform, checksum, indexed)
      == Found(t, false, t.versions[FindVersion(t.versions, rubygemId, spec.version, platform).value].id)
  {
  }

  // ---- matching_requirements? ----

  /** `matching_requirements?`: the `", "`-split clauses of both strings form the same set. */
  function MatchingRequirements(requirements1: string, requirements2: string): bool
  {
    ToSet(Split(requirements1, ClauseSeparator)) == ToSet(Split(requirements2, ClauseSeparator))
  }

  /** A version-constraint clause: non-empty, without the clause separator inside. */
  ghost predicate IsClause(c: string) {
    c != "" && Free(c, ClauseSeparator)
  }

  /** A requirement string rendered from clauses splits back into exactly those clauses. */
  lemma SplitRequirements(cs: seq<string>)
    requires forall k :: 0 <= k < |cs| ==> IsClause(cs[k])
    ensures Split(Join(cs, ClauseSeparator), ClauseSeparator) == cs
  {
    forall k | 0 <= k < |cs| ensures FreeBefore(cs[k], ClauseSeparator) {
      FreeBeforeOfFree(cs[k], ClauseSeparator);
    }
    SplitOfJoin(cs, ClauseSeparator);
  }

  /**
   * Two requirement strings rendered from clauses match exactly when they
   * hold the same set of clauses, whatever their order or repetition.
   */
  lemma MatchingIffSameClauses(cs1: seq<string>, cs2: seq<string>)
    requires forall k :: 0 <= k < |cs1| ==> IsClause(cs1[k])
    requires forall k :: 0 <= k < |cs2| ==> IsClause(cs2[k])
    ensures MatchingRequirements(Join(cs1, ClauseSeparator), Join(cs2, ClauseSeparator)) <==> ToSet(cs1) == ToSet(cs2)
  {
    SplitRequirements(cs1);
    SplitRequirements(cs2);
  }

  /** Matching is an equivalence: reflexive, symmetric and transitive. */
  lemma MatchingIsEquivalence(a: string, b: string, c: string)
    ensures MatchingRequirements(a, a)
    ensures MatchingRequirements(a, b) ==> MatchingRequirements(b, a)
    ensures MatchingRequirements(a, b) && MatchingRequirements(b, c) ==> MatchingRequirements(a, c)
  {
  }

  // ---- insert_dependencies ----

  /** The scope a dependency is recorded with: its type, or "runtime" for a legacy pair. */
  function Scope(dep: Dep): (s: string)
    ensures dep.Legacy? ==> s == "runtime"
  {
    match dep
    case GemDep(_, _, depType) => depType
    case Legacy(_, _) => "runtime"
  }

  /** `"#{requirements} #{rubygem_name}"`, the description of an inserted edge. */
  function Describe(dep: Dep): string {
    dep.requirement + " " + dep.name
  }

  /**
   * `r` only appended dependency rows to `t`, with consecutive fresh ids and
   * the given version id; nothing else in the store changed.
   */
  ghost predicate Appends(t: Tables, r: Inserted, versionId: int) {
    && r.tables == t.(dependencies := r.tables.dependencies, nextDependencyId := r.tables.nextDependencyId)
    && |r.tables.dependencies| == |t.dependencies| + |r.added|
    && r.tables.dependencies[..|t.dependencies|] == t.dependencies
    && r.tables.nextDependencyId == t.nextDependencyId + |r.added|
    && (forall k :: |t.dependencies| <= k < |r.tables.dependencies| ==>
          r.tables.dependencies[k].id == t.nextDependencyId + (k - |t.dependencies|)
          && r.tables.dependencies[k].versionId == versionId)
  }

  lemma AppendsKeepsValid(t: Tables, r: Inserted, versionId: int)
    requires TablesValid(t) && Appends(t, r, versionId)
    ensures TablesValid(r.tables)
  {
    var n := |t.dependencies|;
    var rows := r.tables.dependencies;
    forall i | 0 <= i < |rows| ensures rows[i].id < r.tables.nextDependencyId {
      if i < n { assert rows[i] == t.dependencies[i]; }
    }
    forall i, j | 0 <= i < j < |rows| ensures rows[i].id != rows[j].id {
      if j < n {
        assert rows[i] == t.dependencies[i] && rows[j] == t.dependencies[j];
      } else if i < n {
        assert rows[i] == t.dependencies[i];
      }
    }
  }

  /**
   * One turn of the `insert_dependencies` loop: skip a dependency whose
   * target gem is not stored; otherwise insert an edge when there is none
   * for (target, version) or the first one's clause set differs.
   */
  function InsertDependencyResult(t: Tables, dep: Dep, versionId: int): (r: Inserted)
    ensures Appends(t, r, versionId)
    ensures |r.added| <= 1
    ensures |r.added| == 1 <==>
      var g := FindRubygem(t.rubygems, dep.name);
      g.Some? &&
      var e := FindEdge(t.dependencies, t.rubygems[g.value].id, versionId);
      e.None? || !MatchingRequirements(dep.requirement, t.dependencies[e.value].requirements)
    ensures |r.added| == 1 ==> (r.added == [Describe(dep)] &&
      var row := r.tables.dependencies[|t.dependencies|];
      && row.requirements == dep.requirement && row.scope == Scope(dep)
      && row.rubygemId == t.rubygems[FindRubygem(t.rubygems, dep.name).value].id)
  {
    match FindRubygem(t.rubygems, dep.name)
    case None => Inserted(t, [])
    case Some(g) =>
      var target := t.rubygems[g].id;
      var edge := FindEdge(t.dependencies, target, versionId);
      if edge.None? || !MatchingRequirements(dep.requirement, t.dependencies[edge.value].requirements) then
        var row := DependencyRow(t.nextDependencyId, dep.requirement, target, versionId, Scope(dep));
        var rows := t.dependencies + [row];
        assert rows[..|t.dependencies|] == t.dependencies;
        Inserted(t.(dependencies := rows, nextDependencyId := t.nextDependencyId + 1), [Describe(dep)])
      else
        Inserted(t, [])
  }

  /** `insert_dependencies(spec, version_id)`: the loop over the declared dependencies in order. */
  function InsertDependenciesResult(t: Tables, deps: seq<Dep>, versionId: int): (r: Inserted)
    ensures Appends(t, r, versionId)
    decreases |deps|
  {
    if deps == [] then Inserted(t, [])
    else
      var first := InsertDependencyResult(t, deps[0], versionId);
      var rest := InsertDependenciesResult(first.tables, deps[1..], versionId);
      var r := Inserted(rest.tables, first.added + rest.added);
      assert rest.tables.dependencies[..|first.tables.dependencies|] == first.tables.dependencies;
      assert r.tables.dependencies[..|t.dependencies|] == first.tables.dependencies[..|t.dependencies|];
      r
  }

  /** Regrouping a concatenation, for the loop of `InsertDependencies`. */
  lemma SeqAssoc<T>(a: seq<T>, b: seq<T>, c: seq<T>)
    ensures (a + b) + c == a + (b + c)
  {
  }

  /** One turn of the loop, then the rest of it. */
  lemma InsertDependenciesStep(t: Tables, deps: seq<Dep>, i: nat, versionId: int)
    requires i < |deps|
    ensures var first := InsertDependencyResult(t, deps[i], versionId);
      var rest := InsertDependenciesResult(first.tables, deps[i + 1..], versionId);
      InsertDependenciesResult(t, deps[i..], versionId) == Inserted(rest.tables, first.added + rest.added)
  {
    assert deps[i..][0] == deps[i] && deps[i..][1..] == deps[i + 1..];
  }

  /** The dependency's target gem is stored. */
  ghost predicate Resolves(t: Tables, dep: Dep) {
    FindRubygem(t.rubygems, dep.name).Some?
  }

  /** The id of the dependency's target gem. */
  ghost function TargetId(t: Tables, dep: Dep): int
    requires Resolves(t, dep)
  {
    t.rubygems[FindRubygem(t.rubygems, dep.name).value].id
  }

  /** The first edge for the dependency's target on this version carries an equivalent requirement. */
  ghost predicate Settled(t: Tables, dep: Dep, versionId: int) {
    Resolves(t, dep) ==>
      var e := FindEdge(t.dependencies, TargetId(t, dep), versionId);
      e.Some? && MatchingRequirements(dep.requirement, t.dependencies[e.value].requirements)
  }

  /** There is no first edge for the dependency's target with a different requirement. */
  ghost predicate NotStale(t: Tables, dep: Dep, versionId: int) {
    Resolves(t, dep) ==>
      var e := FindEdge(t.dependencies, TargetId(t, dep), versionId);
      e.None? || MatchingRequirements(dep.requirement, t.dependencies[e.value].requirements)
  }

  ghost predicate DistinctNames(deps: seq<Dep>) {
    forall i, j :: 0 <= i < j < |deps| ==> deps[i].name != deps[j].name
  }

  /** `InsertDependency` for one target leaves the first edge of another stored target where it was. */
  lemma OtherEdgeUnmoved(t: Tables, dep: Dep, other: Dep, versionId: int)
    requires TablesValid(t) && dep.name != other.name && Resolves(t, other)
    ensures var r := InsertDependencyResult(t, dep, versionId);
      Resolves(r.tables, other) && TargetId(r.tables, other) == TargetId(t, other)
      && FindEdge(r.tables.dependencies, TargetId(t, other), versionId) == FindEdge(t.dependencies, TargetId(t, other), versionId)
  {
    var r := InsertDependencyResult(t, dep, versionId);
    if |r.added| == 1 {
      var g := FindRubygem(t.rubygems, dep.name).value;
      var h := FindRubygem(t.rubygems, other.name).value;
      assert g != h;
      if g < h { assert t.rubygems[g].id != t.rubygems[h].id; }
      else { assert t.rubygems[h].id != t.rubygems[g].id; }
      assert r.tables.dependencies == t.dependencies + [r.tables.dependencies[|t.dependencies|]];
      FindEdgeAppend(t.dependencies, r.tables.dependencies[|t.dependencies|], TargetId(t, other), versionId);
    }
  }

  /** With every dependency settled, `insert_dependencies` inserts nothing and returns []. */
  lemma {:induction false} NoInsertWhenSettled(t: Tables, deps: seq<Dep>, versionId: int)
    requires forall i :: 0 <= i < |deps| ==> Settled(t, deps[i], versionId)
    ensures InsertDependenciesResult(t, deps, versionId) == Inserted(t, [])
    decreases |deps|
  {
    if deps != [] {
      assert Settled(t, deps[0], versionId);
      assert InsertDependencyResult(t, deps[0], versionId) == Inserted(t, []);
      NoInsertWhenSettled(t, deps[1..], versionId);
    }
  }

  /** A dependency without a stale first edge is settled right after its own turn. */
  lemma SettledAfterOwnTurn(t: Tables, dep: Dep, versionId: int)
    requires NotStale(t, dep, versionId)
    ensures Settled(InsertDependencyResult(t, dep, versionId).tables, dep, versionId)
  {
    var r := InsertDependencyResult(t, dep, versionId);
    if Resolves(t, dep) && |r.added| == 1 {
      var row := r.tables.dependencies[|t.dependencies|];
      assert r.tables.dependencies == t.dependencies + [row];
      FindEdgeAppend(t.dependencies, row, TargetId(t, dep), versionId);
    }
  }

  /** A settled dependency stays settled when dependency rows are only appended. */
  lemma SettledAfterAppends(t: Tables, r: Inserted, dep: Dep, versionId: int)
    requires Settled(t, dep, versionId) && Appends(t, r, versionId)
    ensures Settled(r.tables, dep, versionId)
  {
    if Resolves(t, dep) {
      var more := r.tables.dependencies[|t.dependencies|..];
      assert r.tables.dependencies == t.dependencies + more;
      FindEdgeExtend(t.dependencies, more, TargetId(t, dep), versionId);
    }
  }

  /** Another dependency's turn does not make this one stale. */
  lemma NotStaleAfterOtherTurn(t: Tables, dep: Dep, other: Dep, versionId: int)
    requires TablesValid(t) && dep.name != other.name && NotStale(t, other, versionId)
    ensures NotStale(InsertDependencyResult(t, dep, versionId).tables, other, versionId)
  {
    if Resolves(t, other) {
      OtherEdgeUnmoved(t, dep, other, versionId);
    }
  }

  /**
   * After `insert_dependencies` over distinctly named dependencies none of
   * which has a stale first edge, every one of them is settled.
   */
  lemma {:induction false} SettledAfterInsert(t: Tables, deps: seq<Dep>, versionId: int)
    requires TablesValid(t) && DistinctNames(deps)
    requires forall i :: 0 <= i < |deps| ==> NotStale(t, deps[i], versionId)
    ensures var r := InsertDependenciesResult(t, deps, versionId);
      forall i :: 0 <= i < |deps| ==> Settled(r.tables, deps[i], versionId)
    decreases |deps|
  {
    if deps != [] {
      var first := InsertDependencyResult(t, deps[0], versionId);
      AppendsKeepsValid(t, first, versionId);
      var tail := deps[1..];
      forall i | 0 <= i < |tail| ensures NotStale(first.tables, tail[i], versionId) {
        assert tail[i] == deps[i + 1];
        NotStaleAfterOtherTurn(t, deps[0], tail[i], versionId);
      }
      assert DistinctNames(tail) by {
        forall i, j | 0 <= i < j < |tail| ensures tail[i].name != tail[j].name {
          assert tail[i] == deps[i + 1] && tail[j] == deps[j + 1];
        }
      }
      SettledAfterInsert(first.tables, tail, versionId);
      var rest := InsertDependenciesResult(first.tables, tail, versionId);
      SettledAfterOwnTurn(t, deps[0], versionId);
      SettledAfterAppends(first.tables, rest, deps[0], versionId);
      var r := InsertDependenciesResult(t, deps, versionId);
      assert r.tables == rest.tables;
      forall i | 0 <= i < |deps| ensures Settled(r.tables, deps[i], versionId) {
        if i > 0 { assert deps[i] == tail[i - 1]; }
      }
    }
  }

  /**
   * Idempotence, up to clause order: after `insert_dependencies` over
   * distinctly named dependencies without stale first edges, calling it
   * again with the same dependencies, or with requirements whose clause
   * sets are the same, inserts nothing and returns [].
   */
  lemma InsertDependenciesIdempotent(t: Tables, deps: seq<Dep>, again: seq<Dep>, versionId: int)
    requires TablesValid(t) && DistinctNames(deps)
    requires forall i :: 0 <= i < |deps| ==> NotStale(t, deps[i], versionId)
    requires |again| == |deps|
    requires forall i :: 0 <= i < |deps| ==>
      again[i].name == deps[i].name && MatchingRequirements(again[i].requirement, deps[i].requirement)
    ensures var r := InsertDependenciesResult(t, deps, versionId);
      InsertDependenciesResult(r.tables, again, versionId) == Inserted(r.tables, [])
  {
    SettledAfterInsert(t, deps, versionId);
    var r := InsertDependenciesResult(t, deps, versionId);
    forall i | 0 <= i < |again| ensures Settled(r.tables, again[i], versionId) {
      SettledForMatching(r.tables, deps[i], again[i], versionId);
    }
    NoInsertWhenSettled(r.tables, again, versionId);
  }

  /** A dependency that is settled stays settled when its requirement is restated with the same clauses. */
  lemma SettledForMatching(t: Tables, dep: Dep, other: Dep, versionId: int)
    requires Settled(t, dep, versionId)
    requires other.name == dep.name && MatchingRequirements(other.requirement, dep.requirement)
    ensures Settled(t, other, versionId)
  {
    if Resolves(t, other) {
      var e := FindEdge(t.dependencies, TargetId(t, dep), versionId);
      MatchingIsEquivalence(other.requirement, dep.requirement, t.dependencies[e.value].requirements);
    }
  }

  /** The descriptions of the dependencies whose target gem is stored, in declaration order. */
  function ResolvedDescriptions(gems: seq<RubygemRow>, deps: seq<Dep>): seq<string>
    decreases |deps|
  {
    if deps == [] then []
    else
      var head := if FindRubygem(gems, deps[0].name).Some? then [Describe(deps[0])] else [];
      head + ResolvedDescriptions(gems, deps[1..])
  }

  /**
   * The first fill of a version's edges: when no stored target has an edge
   * on this version yet and names are distinct, every dependency with a
   * stored target is inserted, in order, and the others are skipped.
   */
  lemma {:induction false} FirstFillInsertsResolved(t: Tables, deps: seq<Dep>, versionId: int)
    requires TablesValid(t) && DistinctNames(deps)
    requires forall i :: 0 <= i < |deps| && Resolves(t, deps[i]) ==>
      FindEdge(t.dependencies, TargetId(t, deps[i]), versionId).None?
    ensures InsertDependenciesResult(t, deps, versionId).added == ResolvedDescriptions(t.rubygems, deps)
    decreases |deps|
  {
    if deps != [] {
      var first := InsertDependencyResult(t, deps[0], versionId);
      AppendsKeepsValid(t, first, versionId);
      var tail := deps[1..];
      forall i | 0 <= i < |tail| && Resolves(first.tables, tail[i])
        ensures FindEdge(first.tables.dependencies, TargetId(first.tables, tail[i]), versionId).None?
      {
        assert tail[i] == deps[i + 1];
        OtherEdgeUnmoved(t, deps[0], tail[i], versionId);
      }
      FirstFillInsertsResolved(first.tables, tail, versionId);
    }
  }

  /**
   * As written, an edge whose requirement changed is inserted again on every
   * call: the comparison is against the first stored edge, which the
   * inserts never replace. Here the stored edge is `bar ~> 1.0` and the spec
   * now asks for `~> 2.0`.
   */
  lemma ChangedRequirementReinsertedEveryCall()
    ensures
      var t := Tables([RubygemRow(1, "bar", None)], [], [DependencyRow(1, "~> 1.0", 1, 7, "runtime")], [], 2, 8, 2);
      var deps := [GemDep("bar", "~> 2.0", "runtime")];
      var r1 := InsertDependenciesResult(t, deps, 7);
      var r2 := InsertDependenciesResult(r1.tables, deps, 7);
      r1.added == [Describe(deps[0])] && r2.added == [Describe(deps[0])] && |r2.tables.dependencies| == 3
  {
    var t := Tables([RubygemRow(1, "bar", None)], [], [DependencyRow(1, "~> 1.0", 1, 7, "runtime")], [], 2, 8, 2);
    var dep := GemDep("bar", "~> 2.0", "runtime");
    NoCommaIsClause("~> 2.0");
    NoCommaIsClause("~> 1.0");
    assert "~> 2.0"[3] != "~> 1.0"[3];
    DifferentClausesDoNotMatch("~> 2.0", "~> 1.0");
    assert FindRubygem(t.rubygems, "bar") == Some(0);
    StaleEdgeReinserted(t, dep, 7);
    var r1 := InsertDependenciesResult(t, [dep], 7);
    StaleEdgeReinserted(r1.tables, dep, 7);
  }

  /**
   * A first edge with a different requirement is never replaced: each
   * `insert_dependencies` call appends one more edge and reports the
   * dependency again, and the first edge stays stale.
   */
  lemma StaleEdgeReinserted(t: Tables, dep: Dep, versionId: int)
    requires Resolves(t, dep) && !NotStale(t, dep, versionId)
    ensures var r := InsertDependenciesResult(t, [dep], versionId);
      && r.added == [Describe(dep)]
      && |r.tables.dependencies| == |t.dependencies| + 1
      && Resolves(r.tables, dep) && !NotStale(r.tables, dep, versionId)
  {
    var first := InsertDependencyResult(t, dep, versionId);
    var row := first.tables.dependencies[|t.dependencies|];
    assert first.tables.dependencies == t.dependencies + [row];
    FindEdgeAppend(t.dependencies, row, TargetId(t, dep), versionId);
    assert [dep][1..] == [];
    assert InsertDependenciesResult(t, [dep], versionId) == Inserted(first.tables, first.added + []);
  }

  /** A string without a comma is a clause when non-empty. */
  lemma NoCommaIsClause(c: string)
    requires c != "" && forall k :: 0 <= k < |c| ==> c[k] != ','
    ensures IsClause(c)
  {
    forall i: nat | i < |c| ensures !OccursAt(c, i, ClauseSeparator) {
      assert i + 2 <= |c| ==> c[i..i + 2][0] == c[i];
    }
  }

  /** Two different single clauses never match. */
  lemma DifferentClausesDoNotMatch(a: string, b: string)
    requires IsClause(a) && IsClause(b) && a != b
    ensures !MatchingRequirements(a, b)
  {
    assert Join([a], ClauseSeparator) == a;
    assert Join([b], ClauseSeparator) == b;
    MatchingIffSameClauses([a], [b]);
    assert a in ToSet([a]);
  }

  // ---- the helper object ----

  /** `BundlerApi::GemDBHelper.new(db, gem_cache, mutex)`; `hasMutex` is `!mutex.nil?`. */
  class GemDbHelper {
    const db: Db
    var gemCache: map<string, ExistsRow>
    const hasMutex: bool

    constructor (db: Db, gemCache: map<string, ExistsRow>, hasMutex: bool)
      ensures this.db == db && this.gemCache == gemCache && this.hasMutex == hasMutex
    {
      this.db := db;
      this.gemCache := gemCache;
      this.hasMutex := hasMutex;
    }

    method Exists(payload: Payload) returns (result: Option<ExistsRow>)
      modifies this
      ensures var r := ExistsResult(db.Snapshot(), old(gemCache), hasMutex, payload);
        result == r.result && gemCache == r.cache
    {
      var key := payload.fullName;
      if hasMutex {
        if key in gemCache {
          return Some(gemCache[key]);
        }
      }
      var hit := FindIndexedVersion(db.Snapshot(), payload.name, payload.version, payload.platform);
      if hit.Some? {
        result := Some(ExistsRow(db.versions[hit.value].rubygemId, db.versions[hit.value].id));
      } else {
        result := None;
      }
      if hasMutex {
        if result.Some? {
          gemCache := gemCache[key := result.value];
        }
      }
    }

    method FindOrInsertRubygem(spec: Spec) returns (insert: bool, rubygemId: int)
      requires db.Valid()
      modifies db
      ensures db.Valid()
      ensures var r := FindOrInsertRubygemResult(old(db.Snapshot()), spec.name);
        db.Snapshot() == r.tables && insert == r.inserted && rubygemId == r.id
    {
      var rubygem := FindRubygem(db.rubygems, spec.name);
      if rubygem.Some? {
        insert := false;
        rubygemId := db.rubygems[rubygem.value].id;
      } else {
        insert := true;
        rubygemId := db.nextRubygemId;
        db.rubygems := db.rubygems + [RubygemRow(rubygemId, spec.name, None)];
        db.nextRubygemId := db.nextRubygemId + 1;
      }
      if insert {
        db.checksums := ClearMd5(db.checksums, NamesList);
      }
    }

    method UpdateInfoChecksum(versionId: int, infoChecksum: Option<string>)
      requires db.Valid()
      modifies db
      ensures db.Valid()
      ensures db.Snapshot() == UpdateInfoChecksumResult(old(db.Snapshot()), versionId, infoChecksum)
    {
      db.versions := SetInfoChecksum(db.versions, versionId, infoChecksum);
    }

    /** The Ruby defaults are `platform = 'ruby'`, `checksum = nil`, `indexed = nil`; here they are explicit. */
    method FindOrInsertVersion(spec: Spec, rubygemId: int, platform: string, checksum: Option<string>, indexed: Option<bool>)
      returns (insert: bool, versionId: int)
      requires db.Valid()
      modifies db
      ensures db.Valid()
      ensures var r := FindOrInsertVersionResult(old(db.Snapshot()), spec, rubygemId, platform, checksum, indexed);
        db.Snapshot() == r.tables && insert == r.inserted && versionId == r.id
    {
      ghost var r := FindOrInsertVersionResult(db.Snapshot(), spec, rubygemId, platform, checksum, indexed);
      assert TablesValid(r.tables);
      var version := FindVersion(db.versions, rubygemId, spec.version, platform);
      if version.Some? {
        insert := false;
        versionId := db.versions[version.value].id;
        if indexed.Some? && db.versions[version.value].indexed != indexed.value {
          db.versions := SetIndexed(db.versions, versionId, indexed.value);
        }
        assert db.Snapshot() == r.tables;
      } else {
        insert := true;
        var indexedValue := if indexed.None? then true else indexed.value;
        var rubygemsVersion: Option<string> := None;
        if spec.requiredRubygemsVersion.Some? && spec.requiredRubygemsVersion.value != "" {
          rubygemsVersion := spec.requiredRubygemsVersion;
        }
        var rubyVersion: Option<string> := None;
        if spec.requiredRubyVersion.Some? && spec.requiredRubyVersion.value != "" {
          rubyVersion := spec.requiredRubyVersion;
        }
        versionId := db.nextVersionId;
        var row := VersionRow(versionId, rubygemId, spec.version, platform, indexedValue,
                              StoredPrerelease(spec.prerelease), spec.fullName,
                              rubygemsVersion, rubyVersion, checksum, None);
        assert row == NewVersionRow(versionId, spec, rubygemId, platform, checksum, indexed);
        db.AppendVersion(row);
      }
      if insert {
        db.rubygems := ClearDepsMd5(db.rubygems, rubygemId);
        db.checksums := ClearMd5(db.checksums, VersionsList);
      }
      assert db.Snapshot() == r.tables;
    }

    /** One turn of the `insert_dependencies` loop, on the store in place. */
    method InsertDependency(dep: Dep, versionId: int) returns (added: seq<string>)
      modifies db
      ensures var r := InsertDependencyResult(old(db.Snapshot()), dep, versionId);
        db.Snapshot() == r.tables && added == r.added
    {
      added := [];
      var depRubygem := FindRubygem(db.rubygems, dep.name);
      if depRubygem.Some? {
        var target := db.rubygems[depRubygem.value].id;
        var edge := FindEdge(db.dependencies, target, versionId);
        if edge.None? || !MatchingRequirements(dep.requirement, db.dependencies[edge.value].requirements) {
          added := [Describe(dep)];
          db.dependencies := db.dependencies + [DependencyRow(db.nextDependencyId, dep.requirement, target, versionId, Scope(dep))];
          db.nextDependencyId := db.nextDependencyId + 1;
        }
      }
    }

    method InsertDependencies(spec: Spec, versionId: int) returns (depsAdded: seq<string>)
      requires db.Valid()
      modifies db
      ensures db.Valid()
      ensures var r := InsertDependenciesResult(old(db.Snapshot()), spec.dependencies, versionId);
        db.Snapshot() == r.tables && depsAdded == r.added
    {
      ghost var total := InsertDependenciesResult(db.Snapshot(), spec.dependencies, versionId);
      AppendsKeepsValid(db.Snapshot(), total, versionId);
      assert spec.dependencies[0..] == spec.dependencies;
      depsAdded := [];
      var i := 0;
      while i < |spec.dependencies|
        invariant 0 <= i <= |spec.dependencies|
        invariant InsertDependenciesResult(db.Snapshot(), spec.dependencies[i..], versionId).tables == total.tables
        invariant depsAdded + InsertDependenciesResult(db.Snapshot(), spec.dependencies[i..], versionId).added == total.added
      {
        ghost var before := db.Snapshot();
        InsertDependenciesStep(before, spec.dependencies, i, versionId);
        ghost var first := InsertDependencyResult(before, spec.dependencies[i], versionId);
        ghost var rest := InsertDependenciesResult(first.tables, spec.dependencies[i + 1..], versionId);
        var added := InsertDependency(spec.dependencies[i], versionId);
        SeqAssoc(depsAdded, added, rest.added);
        depsAdded := depsAdded + added;
        i := i + 1;
      }
    }
  }
}
