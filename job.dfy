/**
 * `Job` (lib/bundler_api/update/job.rb): the ingestion of one publish
 * event. `run` asks `gem_exists?` by name and version only; when the gem is
 * new it bumps the shared counter, downloads the specification and stores
 * it with `insert_spec` in one transaction.
 *
 * The download is not modelled: the specification it yields enters `Run`
 * as a value, `None` standing for a nil result.
 */
module Job {
  import opened Wrappers
  import opened Store
  import opened Gems

  const SpecUrlPrefix := "http://rubygems.org/quick/Marshal.4.8/"
  const SpecUrlSuffix := ".gemspec.rz"
  const FailedToLoadSpec := "Failed to load spec"
  /** What `dep.name` raises for a legacy `[name, requirement]` array. */
  const NoMethodName := "undefined method `name' for Array"

  /** `@@gem_cache`: one hash shared by every job of the process. */
  class GemCache {
    var entries: map<string, bool>

    constructor ()
      ensures entries == map[]
    {
      entries := map[];
    }
  }

  /** `@gem_count`, the counter of gems taken in. */
  class Counter {
    var count: int

    constructor ()
      ensures count == 0
    {
      count := 0;
    }

    method Increment()
      modifies this
      ensures count == old(count) + 1
    {
      count := count + 1;
    }
  }

  // ---- gem_exists? ----

  /** `"#{name}-#{version}"`: the cache key, which has no platform in it. */
  function CacheKey(name: string, version: string): string {
    name + "-" + version
  }

  /** Some version row has this number and belongs to a gem of this name, whatever its platform or `indexed`. */
  ghost predicate NameVersionStored(t: Tables, name: string, version: string) {
    exists i :: 0 <= i < |t.versions| && t.versions[i].number == version
      && HasRubygem(t.rubygems, t.versions[i].rubygemId, name)
  }

  /** A row of the `rubygems, versions` join of `gem_exists?`, found exactly when one exists (`count > 0`). */
  function FindNamedVersion(t: Tables, name: string, version: string): (r: Option<nat>)
    ensures r.Some? <==> NameVersionStored(t, name, version)
  {
    var r := FirstWhere(t.versions, (v: VersionRow) => v.number == version && HasRubygem(t.rubygems, v.rubygemId, name));
    assert r.Some? ==> t.versions[r.value].number == version && HasRubygem(t.rubygems, t.versions[r.value].rubygemId, name);
    r
  }

  /** Every true entry of `before` is still a true entry of `after`. */
  ghost predicate CacheGrows(before: map<string, bool>, after: map<string, bool>) {
    forall k :: k in before && before[k] ==> k in after && after[k]
  }

  datatype ExistsAnswer = ExistsAnswer(found: bool, cache: map<string, bool>)

  /**
   * `gem_exists?(name, version)`: true iff the cache holds the key or the
   * join finds a version row; a positive answer is cached, a negative one
   * is not.
   */
  function GemExistsResult(t: Tables, cache: map<string, bool>, name: string, version: string): (r: ExistsAnswer)
    ensures r.found <==> (CacheKey(name, version) in cache && cache[CacheKey(name, version)]) || NameVersionStored(t, name, version)
    ensures r.cache == if r.found then cache[CacheKey(name, version) := true] else cache
    ensures CacheGrows(cache, r.cache)
  {
    var key := CacheKey(name, version);
    if key in cache && cache[key] then ExistsAnswer(true, cache)
    else
      var found := FindNamedVersion(t, name, version).Some?;
      ExistsAnswer(found, if found then cache[key := true] else cache)
  }

  /** Once `gem_exists?` has said yes for a key, it says yes for that key from then on, whatever the tables. */
  lemma GemExistsStaysTrue(t: Tables, t': Tables, cache: map<string, bool>, name: string, version: string)
    requires GemExistsResult(t, cache, name, version).found
    ensures var c := GemExistsResult(t, cache, name, version).cache;
      GemExistsResult(t', c, name, version) == ExistsAnswer(true, c)
  {
  }

  // ---- download_spec: the name and the address ----

  /** `full_name` of `download_spec`: `name-version`, then `-platform` unless the platform is "ruby". */
  function DownloadName(name: string, version: string, platform: string): (r: string)
    ensures r == name + "-" + VersionString(version, platform)
  {
    var fullName := name + "-" + version;
    if platform != RubyPlatform then fullName + "-" + platform else fullName
  }

  /** The address `download_spec` fetches. */
  function SpecUrl(name: string, version: string, platform: string): string {
    SpecUrlPrefix + DownloadName(name, version, platform) + SpecUrlSuffix
  }

  /** The address is the quick-index prefix, the download name and the `.gemspec.rz` suffix, in that order. */
  lemma SpecUrlParts(name: string, version: string, platform: string)
    ensures var u := SpecUrl(name, version, platform);
      && |u| == |SpecUrlPrefix| + |DownloadName(name, version, platform)| + |SpecUrlSuffix|
      && u[..|SpecUrlPrefix|] == SpecUrlPrefix
      && u[|u| - |SpecUrlSuffix|..] == SpecUrlSuffix
      && u[|SpecUrlPrefix|..|u| - |SpecUrlSuffix|] == DownloadName(name, version, platform)
  {
    var d := DownloadName(name, version, platform);
    var u := SpecUrl(name, version, platform);
    assert u == SpecUrlPrefix + d + SpecUrlSuffix;
    assert u[..|SpecUrlPrefix|] == SpecUrlPrefix;
    assert u[|SpecUrlPrefix|..|u| - |SpecUrlSuffix|] == d;
  }

  // ---- insert_spec ----

  datatype InsertOutcome = InsertOutcome(tables: Tables, raised: Option<string>)

  /** The version row `insert_spec` adds. */
  function JobVersionRow(id: int, rubygemId: int, spec: Spec, prerelease: bool): VersionRow {
    VersionRow(id, rubygemId, spec.version, spec.platform, true, prerelease, spec.fullName, None, None, None, None)
  }

  /** One turn of `insert_spec`'s dependency loop, for a `Gem::Dependency`. */
  function JobDependencyResult(t: Tables, dep: Dep, versionId: int): (r: Tables)
    requires dep.GemDep?
    ensures r == t.(dependencies := r.dependencies, nextDependencyId := r.nextDependencyId)
    ensures FindRubygem(t.rubygems, dep.name).None? ==> r == t
    ensures FindRubygem(t.rubygems, dep.name).Some? ==>
      r.dependencies == t.dependencies + [DependencyRow(t.nextDependencyId, dep.requirement,
                                          t.rubygems[FindRubygem(t.rubygems, dep.name).value].id, versionId, dep.depType)]
      && r.nextDependencyId == t.nextDependencyId + 1
  {
    match FindRubygem(t.rubygems, dep.name)
    case None => t
    case Some(g) =>
      var row := DependencyRow(t.nextDependencyId, dep.requirement, t.rubygems[g].id, versionId, dep.depType);
      t.(dependencies := t.dependencies + [row], nextDependencyId := t.nextDependencyId + 1)
  }

  /** The dependency loop of `insert_spec` over dependencies none of which is a legacy pair. */
  function JobDependenciesResult(t: Tables, deps: seq<Dep>, versionId: int): (r: Tables)
    requires !HasLegacy(deps)
    ensures r == t.(dependencies := r.dependencies, nextDependencyId := r.nextDependencyId)
    decreases |deps|
  {
    if deps == [] then t
    else
      assert deps[0].GemDep?;
      assert forall i :: 0 <= i < |deps[1..]| ==> deps[1..][i] == deps[i + 1];
      JobDependenciesResult(JobDependencyResult(t, deps[0], versionId), deps[1..], versionId)
  }

  /** How many of the dependencies name a stored gem. */
  function ResolvedCount(gems: seq<RubygemRow>, deps: seq<Dep>): nat
    decreases |deps|
  {
    if deps == [] then 0
    else (if FindRubygem(gems, deps[0].name).Some? then 1 else 0) + ResolvedCount(gems, deps[1..])
  }

  /** The loop adds one dependency row per dependency that names a stored gem, and keeps the rows before. */
  lemma {:induction false} JobDependenciesCount(t: Tables, deps: seq<Dep>, versionId: int)
    requires !HasLegacy(deps)
    ensures var r := JobDependenciesResult(t, deps, versionId);
      && |r.dependencies| == |t.dependencies| + ResolvedCount(t.rubygems, deps)
      && r.dependencies[..|t.dependencies|] == t.dependencies
      && r.nextDependencyId == t.nextDependencyId + ResolvedCount(t.rubygems, deps)
    decreases |deps|
  {
    if deps != [] {
      assert forall i :: 0 <= i < |deps[1..]| ==> deps[1..][i] == deps[i + 1];
      var t1 := JobDependencyResult(t, deps[0], versionId);
      JobDependenciesCount(t1, deps[1..], versionId);
      var r := JobDependenciesResult(t, deps, versionId);
      assert r.dependencies[..|t1.dependencies|] == t1.dependencies;
      assert t1.dependencies[..|t.dependencies|] == t.dependencies;
      assert r.dependencies[..|t.dependencies|] == r.dependencies[..|t1.dependencies|][..|t.dependencies|];
    }
  }

  /** Counting over a prefix that starts at the first dependency. */
  lemma ResolvedCountPrefix(gems: seq<RubygemRow>, deps: seq<Dep>, i: nat)
    requires 0 < i <= |deps|
    ensures ResolvedCount(gems, deps[..i])
      == (if FindRubygem(gems, deps[0].name).Some? then 1 else 0) + ResolvedCount(gems, deps[1..][..i - 1])
  {
    assert deps[..i][0] == deps[0];
    assert deps[..i][1..] == deps[1..][..i - 1];
  }

  /**
   * The rows the loop is meant to add: one per dependency whose target gem
   * is stored, in spec order, numbered from `firstId`.
   */
  function ResolvedEdges(gems: seq<RubygemRow>, deps: seq<Dep>, firstId: int, versionId: int): seq<DependencyRow>
    requires !HasLegacy(deps)
    decreases |deps|
  {
    if deps == [] then []
    else
      assert forall i :: 0 <= i < |deps[1..]| ==> deps[1..][i] == deps[i + 1];
      assert deps[0].GemDep?;
      match FindRubygem(gems, deps[0].name)
      case None => ResolvedEdges(gems, deps[1..], firstId, versionId)
      case Some(g) =>
        [DependencyRow(firstId, deps[0].requirement, gems[g].id, versionId, deps[0].depType)]
          + ResolvedEdges(gems, deps[1..], firstId + 1, versionId)
  }

  /** The loop appends exactly `ResolvedEdges`, numbered from the counter, and moves the counter past them. */
  lemma {:induction false} JobDependenciesEdges(t: Tables, deps: seq<Dep>, versionId: int)
    requires !HasLegacy(deps)
    ensures var r := JobDependenciesResult(t, deps, versionId);
      var e := ResolvedEdges(t.rubygems, deps, t.nextDependencyId, versionId);
      r.dependencies == t.dependencies + e && r.nextDependencyId == t.nextDependencyId + |e|
    decreases |deps|
  {
    if deps != [] {
      assert forall i :: 0 <= i < |deps[1..]| ==> deps[1..][i] == deps[i + 1];
      var t1 := JobDependencyResult(t, deps[0], versionId);
      JobDependenciesEdges(t1, deps[1..], versionId);
      if FindRubygem(t.rubygems, deps[0].name).Some? {
        var row := t1.dependencies[|t.dependencies|];
        assert t1.dependencies == t.dependencies + [row];
        var e1 := ResolvedEdges(t.rubygems, deps[1..], t.nextDependencyId + 1, versionId);
        assert t.dependencies + [row] + e1 == t.dependencies + ([row] + e1);
      }
    }
  }

  /** One edge per dependency whose target gem is stored. */
  lemma {:induction false} ResolvedEdgesCount(gems: seq<RubygemRow>, deps: seq<Dep>, firstId: int, versionId: int)
    requires !HasLegacy(deps)
    ensures |ResolvedEdges(gems, deps, firstId, versionId)| == ResolvedCount(gems, deps)
    decreases |deps|
  {
    if deps != [] {
      assert forall i :: 0 <= i < |deps[1..]| ==> deps[1..][i] == deps[i + 1];
      ResolvedEdgesCount(gems, deps[1..], firstId, versionId);
      ResolvedEdgesCount(gems, deps[1..], firstId + 1, versionId);
    }
  }

  /** Every edge belongs to `versionId`, and edge `k` has id `firstId + k`. */
  lemma {:induction false} ResolvedEdgesIds(gems: seq<RubygemRow>, deps: seq<Dep>, firstId: int, versionId: int)
    requires !HasLegacy(deps)
    ensures forall k :: 0 <= k < |ResolvedEdges(gems, deps, firstId, versionId)| ==>
      ResolvedEdges(gems, deps, firstId, versionId)[k].versionId == versionId
      && ResolvedEdges(gems, deps, firstId, versionId)[k].id == firstId + k
    decreases |deps|
  {
    if deps != [] {
      assert forall i :: 0 <= i < |deps[1..]| ==> deps[1..][i] == deps[i + 1];
      ResolvedEdgesIds(gems, deps[1..], firstId, versionId);
      ResolvedEdgesIds(gems, deps[1..], firstId + 1, versionId);
      if FindRubygem(gems, deps[0].name).Some? {
        var g := FindRubygem(gems, deps[0].name).value;
        assert ResolvedEdges(gems, deps, firstId, versionId)
          == [DependencyRow(firstId, deps[0].requirement, gems[g].id, versionId, deps[0].depType)]
             + ResolvedEdges(gems, deps[1..], firstId + 1, versionId);
      } else {
        assert ResolvedEdges(gems, deps, firstId, versionId) == ResolvedEdges(gems, deps[1..], firstId, versionId);
      }
    }
  }

  /**
   * The dependency at position `i`, when its target gem is stored, has the
   * edge after those of the resolved dependencies before it, carrying its
   * requirement, the target's id and its type.
   */
  lemma {:induction false} ResolvedEdgeAt(gems: seq<RubygemRow>, deps: seq<Dep>, firstId: int, versionId: int, i: nat)
    requires !HasLegacy(deps)
    requires i < |deps| && FindRubygem(gems, deps[i].name).Some?
    ensures var e := ResolvedEdges(gems, deps, firstId, versionId);
      var c := ResolvedCount(gems, deps[..i]);
      && c < |e|
      && e[c] == DependencyRow(firstId + c, deps[i].requirement, gems[FindRubygem(gems, deps[i].name).value].id,
                               versionId, deps[i].depType)
    decreases |deps|
  {
    assert forall j :: 0 <= j < |deps[1..]| ==> deps[1..][j] == deps[j + 1];
    assert deps[i].GemDep?;
    if i == 0 {
      assert deps[..0] == [];
    } else {
      ResolvedCountPrefix(gems, deps, i);
      assert deps[1..][i - 1] == deps[i];
      if FindRubygem(gems, deps[0].name).Some? {
        ResolvedEdgeAt(gems, deps[1..], firstId + 1, versionId, i - 1);
      } else {
        ResolvedEdgeAt(gems, deps[1..], firstId, versionId, i - 1);
      }
    }
  }

  /** The rubygem `insert_spec` uses: the first one of that name, or a new row (no list signal is cleared). */
  function JobRubygem(t: Tables, name: string): (r: (Tables, int))
  {
    match FindRubygem(t.rubygems, name)
    case Some(g) => (t, t.rubygems[g].id)
    case None =>
      (t.(rubygems := t.rubygems + [RubygemRow(t.nextRubygemId, name, None)], nextRubygemId := t.nextRubygemId + 1),
       t.nextRubygemId)
  }

  /**
   * `insert_spec(spec)`: a nil spec raises before the transaction; a legacy
   * dependency raises inside it, so nothing is kept; otherwise the rubygem
   * is found or added, one version row is added, and the dependency loop
   * runs.
   */
  function InsertSpecResult(t: Tables, spec: Option<Spec>, prerelease: bool): (r: InsertOutcome)
  {
    if spec.None? then InsertOutcome(t, Some(FailedToLoadSpec))
    else if HasLegacy(spec.value.dependencies) then InsertOutcome(t, Some(NoMethodName))
    else
      var (t2, versionId) := SpecRowsResult(t, spec.value, prerelease);
      InsertOutcome(JobDependenciesResult(t2, spec.value.dependencies, versionId), None)
  }

  /** The rubygem and version rows of `insert_spec`, with the id of the new version. */
  function SpecRowsResult(t: Tables, spec: Spec, prerelease: bool): (Tables, int)
  {
    var (t1, rubygemId) := JobRubygem(t, spec.name);
    var versionId := t1.nextVersionId;
    (t1.(versions := t1.versions + [JobVersionRow(versionId, rubygemId, spec, prerelease)], nextVersionId := versionId + 1),
     versionId)
  }

  /** The dependency loop keeps every id below its counter and distinct. */
  lemma {:induction false} JobDependenciesValid(t: Tables, deps: seq<Dep>, versionId: int)
    requires !HasLegacy(deps)
    ensures TablesValid(t) ==> TablesValid(JobDependenciesResult(t, deps, versionId))
    decreases |deps|
  {
    if deps != [] {
      assert forall i :: 0 <= i < |deps[1..]| ==> deps[1..][i] == deps[i + 1];
      var t1 := JobDependencyResult(t, deps[0], versionId);
      if FindRubygem(t.rubygems, deps[0].name).Some? {
        AppendDependencyValid(t, t1.dependencies[|t.dependencies|]);
        assert t1 == t.(dependencies := t.dependencies + [t1.dependencies[|t.dependencies|]],
                        nextDependencyId := t.nextDependencyId + 1);
      }
      JobDependenciesValid(t1, deps[1..], versionId);
    }
  }

  /** The rubygem and version rows of `insert_spec` keep every id below its counter and distinct. */
  lemma SpecRowsValid(t: Tables, spec: Spec, prerelease: bool)
    ensures TablesValid(t) ==> TablesValid(SpecRowsResult(t, spec, prerelease).0)
  {
    var (t1, rubygemId) := JobRubygem(t, spec.name);
    if FindRubygem(t.rubygems, spec.name).None? {
      AppendRubygemValid(t, RubygemRow(t.nextRubygemId, spec.name, None));
    }
    AppendVersionValid(t1, JobVersionRow(t1.nextVersionId, rubygemId, spec, prerelease), t1.rubygems, t1.checksums);
  }

  /** `insert_spec` keeps every id below its counter and distinct, whether it stores or raises. */
  lemma InsertSpecValid(t: Tables, spec: Option<Spec>, prerelease: bool)
    ensures TablesValid(t) ==> TablesValid(InsertSpecResult(t, spec, prerelease).tables)
  {
    if spec.Some? && !HasLegacy(spec.value.dependencies) {
      var (t2, versionId) := SpecRowsResult(t, spec.value, prerelease);
      SpecRowsValid(t, spec.value, prerelease);
      JobDependenciesValid(t2, spec.value.dependencies, versionId);
    }
  }

  /** A spec that raises leaves every table as it was: the transaction is one step. */
  lemma InsertSpecAtomic(t: Tables, spec: Option<Spec>, prerelease: bool)
    ensures var r := InsertSpecResult(t, spec, prerelease);
      (r.raised.Some? <==> spec.None? || HasLegacy(spec.value.dependencies))
      && (r.raised.Some? ==> r.tables == t)
      && (spec.None? ==> r.raised == Some(FailedToLoadSpec))
  {
  }

  /**
   * A spec that is stored: the rubygem is reused by name or added once; one
   * version row is appended with `indexed` true, the spec's platform, the
   * payload's prerelease flag and no checksum; the dependency rows added are
   * `ResolvedEdges` for that version, one per dependency whose target gem is
   * then stored; no md5 is cleared.
   */
  lemma InsertSpecStored(t: Tables, spec: Spec, prerelease: bool)
    requires !HasLegacy(spec.dependencies)
    ensures var r := InsertSpecResult(t, Some(spec), prerelease);
      var gems := r.tables.rubygems;
      && r.raised.None?
      && r.tables.checksums == t.checksums
      && (FindRubygem(t.rubygems, spec.name).Some? ==> gems == t.rubygems)
      && (FindRubygem(t.rubygems, spec.name).None? ==> gems == t.rubygems + [RubygemRow(t.nextRubygemId, spec.name, None)])
      && |r.tables.versions| == |t.versions| + 1
      && r.tables.versions[..|t.versions|] == t.versions
      && var v := r.tables.versions[|t.versions|];
      && v.id == t.nextVersionId && v.number == spec.version && v.platform == spec.platform
      && v.indexed && v.prerelease == prerelease && v.checksum.None?
      && FindRubygem(gems, spec.name).Some?
      && v.rubygemId == gems[FindRubygem(gems, spec.name).value].id
      && |r.tables.dependencies| == |t.dependencies| + ResolvedCount(gems, spec.dependencies)
      && r.tables.dependencies[..|t.dependencies|] == t.dependencies
      && r.tables.dependencies == t.dependencies + ResolvedEdges(gems, spec.dependencies, t.nextDependencyId, v.id)
  {
    var (t1, rubygemId) := JobRubygem(t, spec.name);
    if FindRubygem(t.rubygems, spec.name).None? {
      FindRubygemAppend(t.rubygems, RubygemRow(t.nextRubygemId, spec.name, None), spec.name);
    }
    var versionId := t1.nextVersionId;
    var t2 := t1.(versions := t1.versions + [JobVersionRow(versionId, rubygemId, spec, prerelease)], nextVersionId := versionId + 1);
    assert t2.versions[..|t.versions|] == t.versions;
    JobDependenciesCount(t2, spec.dependencies, versionId);
    JobDependenciesEdges(t2, spec.dependencies, versionId);
  }

  // ---- run ----

  datatype Outcome = Skipped | Stored | Raised(message: string)

  datatype RunState = RunState(tables: Tables, cache: map<string, bool>, count: int, outcome: Outcome)

  /** `run`: skip a gem `gem_exists?` knows; otherwise bump the counter and insert the downloaded spec. */
  function RunResult(t: Tables, cache: map<string, bool>, count: int, payload: Payload, downloaded: Option<Spec>): (r: RunState)
    ensures r.cache == GemExistsResult(t, cache, payload.name, payload.version).cache
    ensures GemExistsResult(t, cache, payload.name, payload.version).found ==>
      r == RunState(t, r.cache, count, Skipped)
    ensures !GemExistsResult(t, cache, payload.name, payload.version).found ==>
      r.count == count + 1 && r.tables == InsertSpecResult(t, downloaded, payload.prerelease).tables
      && r.outcome != Skipped
      && (r.outcome == Stored <==> InsertSpecResult(t, downloaded, payload.prerelease).raised.None?)
      && (r.outcome.Raised? ==> InsertSpecResult(t, downloaded, payload.prerelease).raised == Some(r.outcome.message))
  {
    var e := GemExistsResult(t, cache, payload.name, payload.version);
    if e.found then RunState(t, e.cache, count, Skipped)
    else
      var i := InsertSpecResult(t, downloaded, payload.prerelease);
      RunState(i.tables, e.cache, count + 1, if i.raised.Some? then Raised(i.raised.value) else Stored)
  }

  /** The spec downloaded for this payload: same name and version, and no legacy dependency. */
  predicate Delivers(payload: Payload, spec: Spec) {
    spec.name == payload.name && spec.version == payload.version && !HasLegacy(spec.dependencies)
  }

  /**
   * After a run that stored the payload's spec, a job for the same name and
   * version, on any platform, is skipped and changes no table.
   */
  lemma RunThenSameNameVersionSkipped(t: Tables, cache: map<string, bool>, count: int, payload: Payload, spec: Spec, other: Payload)
    requires Delivers(payload, spec)
    requires other.name == payload.name && other.version == payload.version
    requires RunResult(t, cache, count, payload, Some(spec)).outcome == Stored
    ensures var r := RunResult(t, cache, count, payload, Some(spec));
      forall downloaded :: RunResult(r.tables, r.cache, r.count, other, downloaded)
        == RunState(r.tables, GemExistsResult(r.tables, r.cache, other.name, other.version).cache, r.count, Skipped)
  {
    var r := RunResult(t, cache, count, payload, Some(spec));
    InsertSpecStored(t, Some(spec).value, payload.prerelease);
    var gems := r.tables.rubygems;
    var g := FindRubygem(gems, spec.name).value;
    assert HasRubygem(gems, gems[g].id, spec.name);
    assert r.tables.versions[|t.versions|].number == spec.version;
    assert NameVersionStored(r.tables, other.name, other.version);
  }

  // ---- the job object ----

  class Job {
    const db: Db
    const payload: Payload
    const cache: GemCache
    const counter: Counter

    constructor (db: Db, payload: Payload, cache: GemCache, counter: Counter)
      ensures this.db == db && this.payload == payload && this.cache == cache && this.counter == counter
    {
      this.db := db;
      this.payload := payload;
      this.cache := cache;
      this.counter := counter;
    }

    method GemExists(name: string, version: string) returns (found: bool)
      modifies cache
      ensures var r := GemExistsResult(db.Snapshot(), old(cache.entries), name, version);
        found == r.found && cache.entries == r.cache
    {
      var key := CacheKey(name, version);
      if key in cache.entries && cache.entries[key] {
        return true;
      }
      found := FindNamedVersion(db.Snapshot(), name, version).Some?;
      if found {
        cache.entries := cache.entries[key := true];
      }
    }

    method InsertSpec(spec: Option<Spec>) returns (raised: Option<string>)
      requires db.Valid()
      modifies db
      ensures db.Valid()
      ensures var r := InsertSpecResult(old(db.Snapshot()), spec, payload.prerelease);
        db.Snapshot() == r.tables && raised == r.raised
    {
      InsertSpecValid(db.Snapshot(), spec, payload.prerelease);
      if spec.None? {
        return Some(FailedToLoadSpec);
      }
      var s := spec.value;
      var savepoint := db.Snapshot();
      var versionId := InsertSpecRows(s);
      ghost var withVersion := db.Snapshot();
      var i := 0;
      while i < |s.dependencies|
        invariant 0 <= i <= |s.dependencies|
        invariant forall k :: 0 <= k < i ==> s.dependencies[k].GemDep?
        invariant !HasLegacy(s.dependencies) ==>
          JobDependenciesResult(db.Snapshot(), s.dependencies[i..], versionId)
            == JobDependenciesResult(withVersion, s.dependencies, versionId)
      {
        var dep := s.dependencies[i];
        if dep.Legacy? {
          db.Restore(savepoint);
          return Some(NoMethodName);
        }
        assert s.dependencies[i..][0] == dep && s.dependencies[i..][1..] == s.dependencies[i + 1..];
        InsertDependency(dep, versionId);
        i := i + 1;
      }
      assert s.dependencies[0..] == s.dependencies;
      assert !HasLegacy(s.dependencies);
      assert db.Snapshot() == JobDependenciesResult(withVersion, s.dependencies, versionId);
      return None;
    }

    /** The rubygem and version rows of `insert_spec`, on the store in place. */
    method InsertSpecRows(s: Spec) returns (versionId: int)
      modifies db
      ensures (db.Snapshot(), versionId) == SpecRowsResult(old(db.Snapshot()), s, payload.prerelease)
    {
      var rubygem := FindRubygem(db.rubygems, s.name);
      var rubygemId;
      if rubygem.Some? {
        rubygemId := db.rubygems[rubygem.value].id;
      } else {
        rubygemId := db.nextRubygemId;
        db.rubygems := db.rubygems + [RubygemRow(rubygemId, s.name, None)];
        db.nextRubygemId := db.nextRubygemId + 1;
      }
      versionId := db.nextVersionId;
      db.versions := db.versions + [JobVersionRow(versionId, rubygemId, s, payload.prerelease)];
      db.nextVersionId := db.nextVersionId + 1;
    }

    /** One turn of `insert_spec`'s dependency loop, on the store in place. */
    method InsertDependency(dep: Dep, versionId: int)
      requires dep.GemDep?
      modifies db
      ensures db.Snapshot() == JobDependencyResult(old(db.Snapshot()), dep, versionId)
    {
      var depRubygem := FindRubygem(db.rubygems, dep.name);
      if depRubygem.Some? {
        db.dependencies := db.dependencies + [DependencyRow(db.nextDependencyId, dep.requirement, db.rubygems[depRubygem.value].id, versionId, dep.depType)];
        db.nextDependencyId := db.nextDependencyId + 1;
      }
    }

    /** `run`, with the spec `download_spec` yields given as `downloaded`. */
    method Run(downloaded: Option<Spec>) returns (outcome: Outcome)
      requires db.Valid()
      modifies db, cache, counter
      ensures db.Valid()
      ensures var r := RunResult(old(db.Snapshot()), old(cache.entries), old(counter.count), payload, downloaded);
        db.Snapshot() == r.tables && cache.entries == r.cache && counter.count == r.count && outcome == r.outcome
    {
      var known := GemExists(payload.name, payload.version);
      if known {
        return Skipped;
      }
      counter.Increment();
      var raised := InsertSpec(downloaded);
      outcome := if raised.Some? then Raised(raised.value) else Stored;
    }
  }
}
