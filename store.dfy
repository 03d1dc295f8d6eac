/**
 * The relational store the ingestion code writes through: the `rubygems`,
 * `versions`, `dependencies` and `checksums` tables as sequences of rows in
 * insertion order, with a serial id per table. A query's `.first` without
 * ORDER BY is read as the first matching row in insertion order.
 */
module Store {
  import opened Wrappers

  datatype RubygemRow = RubygemRow(id: int, name: string, depsMd5: Option<string>)

  datatype VersionRow = VersionRow(
    id: int,
    rubygemId: int,
    number: string,
    platform: string,
    indexed: bool,
    prerelease: bool,
    fullName: string,
    rubygemsVersion: Option<string>,
    requiredRubyVersion: Option<string>,
    checksum: Option<string>,
    infoChecksum: Option<string>)

  datatype DependencyRow = DependencyRow(id: int, requirements: string, rubygemId: int, versionId: int, scope: string)

  datatype ChecksumRow = ChecksumRow(name: string, md5: Option<string>)

  /** A value snapshot of the whole store, serial counters included. */
  datatype Tables = Tables(
    rubygems: seq<RubygemRow>,
    versions: seq<VersionRow>,
    dependencies: seq<DependencyRow>,
    checksums: seq<ChecksumRow>,
    nextRubygemId: int,
    nextVersionId: int,
    nextDependencyId: int)

  /** Every id of every table is below its serial counter, and ids are unique per table. */
  ghost predicate TablesValid(t: Tables) {
    && (forall i :: 0 <= i < |t.rubygems| ==> t.rubygems[i].id < t.nextRubygemId)
    && (forall i, j :: 0 <= i < j < |t.rubygems| ==> t.rubygems[i].id != t.rubygems[j].id)
    && (forall i :: 0 <= i < |t.versions| ==> t.versions[i].id < t.nextVersionId)
    && (forall i, j :: 0 <= i < j < |t.versions| ==> t.versions[i].id != t.versions[j].id)
    && (forall i :: 0 <= i < |t.dependencies| ==> t.dependencies[i].id < t.nextDependencyId)
    && (forall i, j :: 0 <= i < j < |t.dependencies| ==> t.dependencies[i].id != t.dependencies[j].id)
  }

  /** The database connection's tables, updated in place. */
  class Db {
    var rubygems: seq<RubygemRow>
    var versions: seq<VersionRow>
    var dependencies: seq<DependencyRow>
    var checksums: seq<ChecksumRow>
    var nextRubygemId: int
    var nextVersionId: int
    var nextDependencyId: int

    function Snapshot(): Tables
      reads this
    {
      Tables(rubygems, versions, dependencies, checksums, nextRubygemId, nextVersionId, nextDependencyId)
    }

    ghost predicate Valid()
      reads this
    {
      TablesValid(Snapshot())
    }

    /** Empty data tables beside the given `checksums` rows. */
    constructor (checksums: seq<ChecksumRow>)
      ensures Valid()
      ensures Snapshot() == Tables([], [], [], checksums, 1, 1, 1)
    {
      rubygems, versions, dependencies := [], [], [];
      this.checksums := checksums;
      nextRubygemId, nextVersionId, nextDependencyId := 1, 1, 1;
    }

    /** `versions.insert(...)` of a row carrying the next version id. */
    method AppendVersion(row: VersionRow)
      modifies this
      ensures Snapshot() == old(Snapshot()).(versions := old(versions) + [row], nextVersionId := old(nextVersionId) + 1)
    {
      versions := versions + [row];
      nextVersionId := nextVersionId + 1;
    }

    /** Puts the whole store back to `t`: a rolled-back transaction. */
    method Restore(t: Tables)
      modifies this
      ensures Snapshot() == t
    {
      rubygems, versions, dependencies, checksums := t.rubygems, t.versions, t.dependencies, t.checksums;
      nextRubygemId, nextVersionId, nextDependencyId := t.nextRubygemId, t.nextVersionId, t.nextDependencyId;
    }
  }

  // ---- queries: the first matching row in insertion order ----

  /** The position of the first element satisfying `p`. */
  function FirstWhere<T>(s: seq<T>, p: T -> bool): (r: Option<nat>)
    ensures r.Some? ==> r.value < |s| && p(s[r.value])
    ensures r.Some? ==> forall j :: 0 <= j < r.value ==> !p(s[j])
    ensures r.None? ==> forall j :: 0 <= j < |s| ==> !p(s[j])
  {
    if s == [] then None
    else if p(s[0]) then Some(0)
    else match FirstWhere(s[1..], p)
      case None => None
      case Some(k) => Some(k + 1)
  }

  /** `rubygems.filter(name: name).first`. */
  function FindRubygem(gems: seq<RubygemRow>, name: string): (r: Option<nat>)
    ensures r.Some? ==> r.value < |gems| && gems[r.value].name == name
    ensures r.Some? ==> forall j :: 0 <= j < r.value ==> gems[j].name != name
    ensures r.None? <==> forall j :: 0 <= j < |gems| ==> gems[j].name != name
  {
    FirstWhere(gems, (g: RubygemRow) => g.name == name)
  }

  /** `versions.filter(rubygem_id:, number:, platform:).first`. */
  function FindVersion(versions: seq<VersionRow>, rubygemId: int, number: string, platform: string): (r: Option<nat>)
    ensures r.Some? ==> (r.value < |versions| && versions[r.value].rubygemId == rubygemId
      && versions[r.value].number == number && versions[r.value].platform == platform)
    ensures r.Some? ==> forall j :: 0 <= j < r.value ==>
      !(versions[j].rubygemId == rubygemId && versions[j].number == number && versions[j].platform == platform)
    ensures r.None? <==> forall j :: 0 <= j < |versions| ==>
      !(versions[j].rubygemId == rubygemId && versions[j].number == number && versions[j].platform == platform)
  {
    FirstWhere(versions, (v: VersionRow) => v.rubygemId == rubygemId && v.number == number && v.platform == platform)
  }

  /** `dependencies.filter(rubygem_id:, version_id:).first`. */
  function FindEdge(deps: seq<DependencyRow>, rubygemId: int, versionId: int): (r: Option<nat>)
    ensures r.Some? ==> r.value < |deps| && deps[r.value].rubygemId == rubygemId && deps[r.value].versionId == versionId
    ensures r.Some? ==> forall j :: 0 <= j < r.value ==> !(deps[j].rubygemId == rubygemId && deps[j].versionId == versionId)
    ensures r.None? <==> forall j :: 0 <= j < |deps| ==> !(deps[j].rubygemId == rubygemId && deps[j].versionId == versionId)
  {
    FirstWhere(deps, (d: DependencyRow) => d.rubygemId == rubygemId && d.versionId == versionId)
  }

  /** Some row of `gems` with this id carries this name: the join condition of the version queries. */
  predicate HasRubygem(gems: seq<RubygemRow>, id: int, name: string) {
    exists i :: 0 <= i < |gems| && gems[i].id == id && gems[i].name == name
  }

  /**
   * The first indexed version row of gem `name` with this number and
   * platform: the `rubygems, versions` join of `exists?`.
   */
  function FindIndexedVersion(t: Tables, name: string, number: string, platform: string): (r: Option<nat>)
    ensures r.Some? ==> r.value < |t.versions|
    ensures r.Some? ==> var v := t.versions[r.value];
      v.number == number && v.platform == platform && v.indexed && HasRubygem(t.rubygems, v.rubygemId, name)
    ensures r.None? <==> forall j :: 0 <= j < |t.versions| ==>
      !(t.versions[j].number == number && t.versions[j].platform == platform && t.versions[j].indexed
        && HasRubygem(t.rubygems, t.versions[j].rubygemId, name))
  {
    FirstWhere(t.versions, (v: VersionRow) =>
      v.number == number && v.platform == platform && v.indexed && HasRubygem(t.rubygems, v.rubygemId, name))
  }

  // ---- column updates (`where(...).update(...)`) ----

  /** `checksums.filter(name: name).update(md5: nil)`. */
  function ClearMd5(rows: seq<ChecksumRow>, name: string): (r: seq<ChecksumRow>)
  {
    seq(|rows|, i requires 0 <= i < |rows| => if rows[i].name == name then rows[i].(md5 := None) else rows[i])
  }

  /** `rubygems.filter(id: id).update(deps_md5: nil)`. */
  function ClearDepsMd5(rows: seq<RubygemRow>, id: int): (r: seq<RubygemRow>)
  {
    seq(|rows|, i requires 0 <= i < |rows| => if rows[i].id == id then rows[i].(depsMd5 := None) else rows[i])
  }

  /** `versions.where(id: id).update(indexed: indexed)`. */
  function SetIndexed(rows: seq<VersionRow>, id: int, indexed: bool): (r: seq<VersionRow>)
  {
    seq(|rows|, i requires 0 <= i < |rows| => if rows[i].id == id then rows[i].(indexed := indexed) else rows[i])
  }

  /** `versions.where(id: id).update(info_checksum: checksum)`. */
  function SetInfoChecksum(rows: seq<VersionRow>, id: int, checksum: Option<string>): (r: seq<VersionRow>)
  {
    seq(|rows|, i requires 0 <= i < |rows| => if rows[i].id == id then rows[i].(infoChecksum := checksum) else rows[i])
  }

  // ---- how the queries see appended and updated rows ----

  /** After appending a row of another name, the first row named `name` is where it was. */
  lemma FindRubygemAppend(gems: seq<RubygemRow>, row: RubygemRow, name: string)
    ensures FindRubygem(gems + [row], name) ==
      if FindRubygem(gems, name).Some? then FindRubygem(gems, name)
      else if row.name == name then Some(|gems|) else None
  {
    var r := FindRubygem(gems + [row], name);
    assert forall j :: 0 <= j < |gems| ==> (gems + [row])[j] == gems[j];
    assert (gems + [row])[|gems|] == row;
    if FindRubygem(gems, name).Some? {
      assert r.Some? && r.value <= FindRubygem(gems, name).value;
    }
  }

  /** After appending a row, the first version row for a key is where it was, or the new row. */
  lemma FindVersionAppend(versions: seq<VersionRow>, row: VersionRow, rubygemId: int, number: string, platform: string)
    ensures FindVersion(versions + [row], rubygemId, number, platform) ==
      if FindVersion(versions, rubygemId, number, platform).Some? then FindVersion(versions, rubygemId, number, platform)
      else if row.rubygemId == rubygemId && row.number == number && row.platform == platform then Some(|versions|) else None
  {
    var r := FindVersion(versions + [row], rubygemId, number, platform);
    assert forall j :: 0 <= j < |versions| ==> (versions + [row])[j] == versions[j];
    assert (versions + [row])[|versions|] == row;
    if FindVersion(versions, rubygemId, number, platform).Some? {
      assert r.Some? && r.value <= FindVersion(versions, rubygemId, number, platform).value;
    }
  }

  /** After appending a row, the first edge for (gem, version) is where it was, or the new row. */
  lemma FindEdgeAppend(deps: seq<DependencyRow>, row: DependencyRow, rubygemId: int, versionId: int)
    ensures FindEdge(deps + [row], rubygemId, versionId) ==
      if FindEdge(deps, rubygemId, versionId).Some? then FindEdge(deps, rubygemId, versionId)
      else if row.rubygemId == rubygemId && row.versionId == versionId then Some(|deps|) else None
  {
    var r := FindEdge(deps + [row], rubygemId, versionId);
    assert forall j :: 0 <= j < |deps| ==> (deps + [row])[j] == deps[j];
    assert (deps + [row])[|deps|] == row;
    if FindEdge(deps, rubygemId, versionId).Some? {
      assert r.Some? && r.value <= FindEdge(deps, rubygemId, versionId).value;
    }
  }

  /** Appending rows after an existing first edge does not move it. */
  lemma FindEdgeExtend(deps: seq<DependencyRow>, more: seq<DependencyRow>, rubygemId: int, versionId: int)
    requires FindEdge(deps, rubygemId, versionId).Some?
    ensures FindEdge(deps + more, rubygemId, versionId) == FindEdge(deps, rubygemId, versionId)
  {
    var e := FindEdge(deps, rubygemId, versionId).value;
    assert (deps + more)[e] == deps[e];
    assert forall j :: 0 <= j < |deps| ==> (deps + more)[j] == deps[j];
  }

  /** A column update that keeps the key columns keeps every version lookup. */
  lemma FindVersionSameKeys(a: seq<VersionRow>, b: seq<VersionRow>, rubygemId: int, number: string, platform: string)
    requires |a| == |b|
    requires forall i :: 0 <= i < |a| ==>
      a[i].rubygemId == b[i].rubygemId && a[i].number == b[i].number && a[i].platform == b[i].platform
    ensures FindVersion(a, rubygemId, number, platform) == FindVersion(b, rubygemId, number, platform)
  {
    var ra := FindVersion(a, rubygemId, number, platform);
    var rb := FindVersion(b, rubygemId, number, platform);
    if ra.Some? {
      assert b[ra.value].rubygemId == rubygemId && b[ra.value].number == number && b[ra.value].platform == platform;
    }
    if rb.Some? {
      assert a[rb.value].rubygemId == rubygemId && a[rb.value].number == number && a[rb.value].platform == platform;
    }
  }

  /** A column update that keeps the names keeps every gem lookup. */
  lemma FindRubygemSameNames(a: seq<RubygemRow>, b: seq<RubygemRow>, name: string)
    requires |a| == |b|
    requires forall i :: 0 <= i < |a| ==> a[i].name == b[i].name
    ensures FindRubygem(a, name) == FindRubygem(b, name)
  {
    var ra := FindRubygem(a, name);
    var rb := FindRubygem(b, name);
    if ra.Some? { assert b[ra.value].name == name; }
    if rb.Some? { assert a[rb.value].name == name; }
  }

  // ---- which updates keep the key invariant ----

  /** Rewriting columns of the versions table other than `id` keeps the tables valid. */
  lemma SameVersionIdsValid(t: Tables, versions: seq<VersionRow>)
    requires |versions| == |t.versions|
    requires forall i :: 0 <= i < |versions| ==> versions[i].id == t.versions[i].id
    ensures TablesValid(t) ==> TablesValid(t.(versions := versions))
  {
  }

  /** Appending a rubygem under the next rubygem id keeps the tables valid. */
  lemma AppendRubygemValid(t: Tables, row: RubygemRow)
    requires row.id == t.nextRubygemId
    ensures TablesValid(t) ==> TablesValid(t.(rubygems := t.rubygems + [row], nextRubygemId := t.nextRubygemId + 1))
  {
  }

  /** Appending a dependency under the next dependency id keeps the tables valid. */
  lemma AppendDependencyValid(t: Tables, row: DependencyRow)
    requires row.id == t.nextDependencyId
    ensures TablesValid(t) ==> TablesValid(t.(dependencies := t.dependencies + [row], nextDependencyId := t.nextDependencyId + 1))
  {
  }

  /** Appending a version under the next version id, and rewriting non-key columns of `rubygems`, keeps the tables valid. */
  lemma AppendVersionValid(t: Tables, row: VersionRow, rubygems: seq<RubygemRow>, checksums: seq<ChecksumRow>)
    requires row.id == t.nextVersionId
    requires |rubygems| == |t.rubygems|
    requires forall i :: 0 <= i < |rubygems| ==> rubygems[i].id == t.rubygems[i].id
    ensures TablesValid(t) ==> TablesValid(t.(versions := t.versions + [row], nextVersionId := t.nextVersionId + 1,
                                              rubygems := rubygems, checksums := checksums))
  {
  }
}
