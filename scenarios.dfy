/**
 * Whole runs on a fresh store: the behaviours the repository's tests
 * exercise, stated for this model's operations.
 */
module Scenarios {
  import opened Wrappers
  import opened Store
  import opened Gems
  import opened GemDbHelper
  import opened Job
  import GemInfo

  /** How many dependency rows join this gem to this version with this requirement and scope. */
  function CountEdges(rows: seq<DependencyRow>, rubygemId: int, versionId: int, requirements: string, scope: string): nat
    decreases |rows|
  {
    if rows == [] then 0
    else
      var last := rows[|rows| - 1];
      CountEdges(rows[..|rows| - 1], rubygemId, versionId, requirements, scope)
        + (if last.rubygemId == rubygemId && last.versionId == versionId && last.requirements == requirements && last.scope == scope then 1 else 0)
  }

  /**
   * With no dependency rows yet, filling a resolvable dependency inserts
   * exactly its edge, and filling it again inserts nothing.
   */
  lemma FillOnceThenSettled(t: Tables, dep: Dep, versionId: int)
    requires TablesValid(t) && t.dependencies == [] && Resolves(t, dep)
    ensures var r1 := InsertDependenciesResult(t, [dep], versionId);
      var r2 := InsertDependenciesResult(r1.tables, [dep], versionId);
      && r1.added == [Describe(dep)]
      && r1.tables.dependencies == [DependencyRow(t.nextDependencyId, dep.requirement, TargetId(t, dep), versionId, Scope(dep))]
      && r2 == Inserted(r1.tables, [])
  {
    var r1 := InsertDependenciesResult(t, [dep], versionId);
    var one := InsertDependencyResult(t, dep, versionId);
    assert [dep][0] == dep && [dep][1..] == [];
    assert InsertDependenciesResult(one.tables, [], versionId) == Inserted(one.tables, []);
    assert one.added + [] == one.added;
    assert r1 == one;
    assert FindEdge(t.dependencies, TargetId(t, dep), versionId).None?;
    MatchingIsEquivalence(dep.requirement, dep.requirement, dep.requirement);
    SettledAfterOwnTurn(t, dep, versionId);
    NoInsertWhenSettled(r1.tables, [dep], versionId);
  }

  /** A fresh store holding the gems `bar` and `foo` and the version `foo 1.0`, with no dependency rows. */
  method StoreFooAndBar(foo: Spec) returns (db: Db, helper: GemDbHelper, barId: int, versionId: int)
    requires foo.name == "foo"
    ensures fresh(db) && fresh(helper) && helper.db == db && db.Valid()
    ensures db.dependencies == [] && FindRubygem(db.rubygems, "bar") == Some(0) && db.rubygems[0].id == barId
  {
    db := new Db([]);
    helper := new GemDbHelper(db, map[], true);
    var bar := Spec("bar", "1.0", RubyPlatform, false, "bar-1.0", None, None, []);
    assert FindRubygem([], "bar").None? && FindRubygem([RubygemRow(1, "bar", None)], "foo").None?;
    var _, gemId := helper.FindOrInsertRubygem(bar);
    barId := gemId;
    ghost var t1 := db.Snapshot();
    assert t1.rubygems == [RubygemRow(1, "bar", None)] && t1.nextRubygemId == 2 && barId == 1;
    var _, fooId := helper.FindOrInsertRubygem(foo);
    assert db.rubygems == t1.rubygems + [RubygemRow(2, "foo", None)] && fooId == 2;
    var _, vid := helper.FindOrInsertVersion(foo, fooId, RubyPlatform, None, None);
    versionId := vid;
    assert db.rubygems[0] == RubygemRow(1, "bar", None);
  }

  /**
   * Filling in a missing dependency: with `bar` and `foo 1.0` stored, the
   * edge foo 1.0 to `bar ~> 1.0` is inserted once, and filling again adds
   * nothing.
   */
  method FillMissingDependency() returns (edges: nat, firstAdded: seq<string>, secondAdded: seq<string>)
    ensures edges == 1
    ensures firstAdded == [Describe(GemDep("bar", "~> 1.0", "runtime"))] && secondAdded == []
  {
    var dep := GemDep("bar", "~> 1.0", "runtime");
    var foo := Spec("foo", "1.0", RubyPlatform, false, "foo-1.0", None, None, [dep]);
    var db, helper, barId, versionId := StoreFooAndBar(foo);
    ghost var before := db.Snapshot();
    FillOnceThenSettled(before, dep, versionId);
    firstAdded := helper.InsertDependencies(foo, versionId);
    ghost var first := db.dependencies;
    assert first == [DependencyRow(before.nextDependencyId, "~> 1.0", barId, versionId, "runtime")];
    secondAdded := helper.InsertDependencies(foo, versionId);
    assert db.dependencies == first && first[..0] == [];
    assert CountEdges(first[..0], barId, versionId, "~> 1.0", "runtime") == 0;
    edges := CountEdges(db.dependencies, barId, versionId, "~> 1.0", "runtime");
  }

  /** On a store whose only version row has the key, `indexed` true returns that row and sets it indexed. */
  lemma ReindexOnlyVersion(t: Tables, spec: Spec, rubygemId: int, platform: string)
    requires TablesValid(t) && |t.versions| == 1
    requires FindVersion(t.versions, rubygemId, spec.version, platform) == Some(0)
    ensures var back := FindOrInsertVersionResult(t, spec, rubygemId, platform, None, Some(true));
      && !back.inserted && back.id == t.versions[0].id
      && |back.tables.versions| == 1 && back.tables.versions[0].indexed
  {
    FindOrInsertVersionFound(t, spec, rubygemId, platform, None, Some(true));
  }

  /** With an empty cache, `exists?` answers nil when no indexed row matches. */
  lemma UnindexedNotFound(t: Tables, payload: Payload)
    requires FindIndexedVersion(t, payload.name, payload.version, payload.platform).None?
    ensures ExistsResult(t, map[], true, payload).result.None?
  {
  }

  /**
   * A gem taken down from the index is found again, not duplicated: after
   * the version's `indexed` is set to false, `exists?` no longer finds it,
   * and `find_or_insert_version` with `indexed` true returns the same row,
   * indexed again, without inserting.
   */
  lemma ReindexRemovedVersion(spec: Spec)
    ensures var t0 := Tables([], [], [], [], 1, 1, 1);
      var g := FindOrInsertRubygemResult(t0, spec.name);
      var v := FindOrInsertVersionResult(g.tables, spec, g.id, RubyPlatform, None, None);
      var removed := v.tables.(versions := SetIndexed(v.tables.versions, v.id, false));
      var payload := Payload(spec.name, spec.version, RubyPlatform, spec.prerelease, spec.fullName);
      var back := FindOrInsertVersionResult(removed, spec, g.id, RubyPlatform, None, Some(true));
      && ExistsResult(removed, map[], true, payload).result.None?
      && !back.inserted && back.id == v.id
      && |back.tables.versions| == 1 && back.tables.versions[0].indexed
  {
    var t0 := Tables([], [], [], [], 1, 1, 1);
    var g := FindOrInsertRubygemResult(t0, spec.name);
    assert g.tables.versions == [] && g.tables.rubygems == [RubygemRow(1, spec.name, None)];
    var v := FindOrInsertVersionResult(g.tables, spec, g.id, RubyPlatform, None, None);
    FindOrInsertVersionInserted(g.tables, spec, g.id, RubyPlatform, None, None);
    var row := v.tables.versions[0];
    assert v.tables.versions == [row] && row.id == v.id;
    var removed := v.tables.(versions := SetIndexed(v.tables.versions, v.id, false));
    assert removed.versions == [row.(indexed := false)];
    assert FindIndexedVersion(removed, spec.name, spec.version, RubyPlatform).None?;
    assert FindVersion(removed.versions, g.id, spec.version, RubyPlatform) == Some(0);
    ReindexOnlyVersion(removed, spec, g.id, RubyPlatform);
    UnindexedNotFound(removed, Payload(spec.name, spec.version, RubyPlatform, spec.prerelease, spec.fullName));
  }

  /**
   * Two publish events for the same name and version on different
   * platforms: the job's existence check has no platform in it, so the
   * second is skipped and only the first platform is stored.
   */
  method SecondPlatformSkipped() returns (first: Outcome, second: Outcome, versionRows: nat, count: int)
    ensures first == Stored && second == Skipped && versionRows == 1 && count == 1
  {
    var db := new Db([]);
    var cache := new GemCache();
    var counter := new Counter();
    var ruby := Payload("foo", "1.0", RubyPlatform, false, "foo-1.0");
    var java := Payload("foo", "1.0", "java", false, "foo-1.0-java");
    var rubySpec := Spec("foo", "1.0", RubyPlatform, false, "foo-1.0", None, None, []);
    var javaSpec := Spec("foo", "1.0", "java", false, "foo-1.0-java", None, None, []);
    ghost var t := db.Snapshot();
    RunThenSameNameVersionSkipped(t, map[], 0, ruby, rubySpec, java);
    var job1 := new Job(db, ruby, cache, counter);
    first := job1.Run(Some(rubySpec));
    var job2 := new Job(db, java, cache, counter);
    second := job2.Run(Some(javaSpec));
    versionRows := |db.versions|;
    count := counter.count;
  }

  /**
   * The name a job downloads a spec under is a full name from which the
   * `versions` listing recovers the gem name.
   */
  lemma DownloadNameListsUnderGem(name: string, version: string, platform: string)
    ensures GemInfo.RowName(GemInfo.IndexedRow(DownloadName(name, version, platform), version, platform)) == name
  {
    GemInfo.RowNameRecovered(GemInfo.IndexedRow(DownloadName(name, version, platform), version, platform), name);
  }
}
