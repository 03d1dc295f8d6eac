/**
 * `BundlerApi::GemInfo` (lib/bundler_api/gem_info.rb): the read side.
 * `deps_for` groups the rows of its dependency query by version key and
 * `versions` recovers each gem name from its versions' full names. The SQL
 * is not modelled: both take the rows the query would return.
 */
module GemInfo {
  import opened Wrappers
  import opened Strings
  import opened Gems

  // ---- deps_for ----

  /**
   * One row of the `deps_for` query: a version with its key columns, and
   * the requirement and target name of one of its dependencies, nil when
   * the `LEFT JOIN` found none (or the edge is not a runtime one).
   */
  datatype DepRow = DepRow(
    name: string,
    number: string,
    platform: string,
    requiredRubyVersion: Option<string>,
    rubygemsVersion: Option<string>,
    requirements: Option<string>,
    depName: Option<string>)

  /** `DepKey`: a value, compared field by field as a hash key. */
  datatype DepKey = DepKey(
    name: string,
    number: string,
    platform: string,
    requiredRubyVersion: Option<string>,
    rubygemsVersion: Option<string>)

  /** `[dep_name, requirements]`. */
  datatype DepPair = DepPair(depName: string, requirements: Option<string>)

  /** One hash of the answer of `deps_for`. */
  datatype DepsEntry = DepsEntry(
    name: string,
    number: string,
    platform: string,
    rubygemsVersion: Option<string>,
    requiredRubyVersion: Option<string>,
    dependencies: seq<DepPair>)

  /**
   * The key of a row. The unfiltered query (no gem names given) does not
   * select the required-version columns, so they read as nil.
   */
  function RowKey(row: DepRow, filtered: bool): DepKey {
    if filtered then DepKey(row.name, row.number, row.platform, row.requiredRubyVersion, row.rubygemsVersion)
    else DepKey(row.name, row.number, row.platform, None, None)
  }

  /** The distinct keys of the rows, in order of first appearance: the key order of the `deps` hash. */
  function GroupKeys(rows: seq<DepRow>, filtered: bool): seq<DepKey>
    decreases |rows|
  {
    if rows == [] then []
    else
      var keys := GroupKeys(rows[..|rows| - 1], filtered);
      var key := RowKey(rows[|rows| - 1], filtered);
      if key in keys then keys else keys + [key]
  }

  /** The pairs of the rows with this key and a target name, in row order: `deps[key]`. */
  function Pairs(rows: seq<DepRow>, filtered: bool, key: DepKey): seq<DepPair>
    decreases |rows|
  {
    if rows == [] then []
    else
      var last := rows[|rows| - 1];
      var pair := if RowKey(last, filtered) == key && last.depName.Some? then [DepPair(last.depName.value, last.requirements)] else [];
      Pairs(rows[..|rows| - 1], filtered, key) + pair
  }

  function Entry(key: DepKey, pairs: seq<DepPair>): DepsEntry {
    DepsEntry(key.name, key.number, key.platform, key.rubygemsVersion, key.requiredRubyVersion, pairs)
  }

  /**
   * `deps_for(gems)` over the rows its query returns: one entry per
   * distinct key in order of first appearance, each with the pairs of its
   * rows; without gem names every entry has nil required versions.
   */
  method DepsFor(gems: seq<string>, rows: seq<DepRow>) returns (entries: seq<DepsEntry>)
    ensures var keys := GroupKeys(rows, gems != []);
      |entries| == |keys|
      && forall j :: 0 <= j < |keys| ==> entries[j] == Entry(keys[j], Pairs(rows, gems != [], keys[j]))
    ensures gems == [] ==> forall j :: 0 <= j < |entries| ==>
      entries[j].requiredRubyVersion.None? && entries[j].rubygemsVersion.None?
  {
    var filtered := gems != [];
    var keys: seq<DepKey> := [];
    var deps: map<DepKey, seq<DepPair>> := map[];
    for i := 0 to |rows|
      invariant keys == GroupKeys(rows[..i], filtered)
      invariant deps.Keys == set k | k in keys
      invariant forall k :: k in deps ==> deps[k] == Pairs(rows[..i], filtered, k)
    {
      assert rows[..i + 1][..i] == rows[..i];
      var row := rows[i];
      var key := RowKey(row, filtered);
      if key !in deps {
        keys := keys + [key];
        deps := deps[key := []];
        assert key !in GroupKeys(rows[..i], filtered);
        GroupKeysComplete(rows[..i], filtered, key);
        PairsOfAbsentKey(rows[..i], filtered, key);
      }
      if row.depName.Some? {
        deps := deps[key := deps[key] + [DepPair(row.depName.value, row.requirements)]];
      }
    }
    assert rows[..|rows|] == rows;
    entries := seq(|keys|, j requires 0 <= j < |keys| => Entry(keys[j], deps[keys[j]]));
    forall j | 0 <= j < |keys| && !filtered
      ensures keys[j].requiredRubyVersion.None? && keys[j].rubygemsVersion.None?
    {
      GroupKeysComplete(rows, filtered, keys[j]);
    }
  }

  /** A key is a group key exactly when some row has it. */
  lemma {:induction false} GroupKeysComplete(rows: seq<DepRow>, filtered: bool, key: DepKey)
    ensures key in GroupKeys(rows, filtered) <==> exists i :: 0 <= i < |rows| && RowKey(rows[i], filtered) == key
    decreases |rows|
  {
    if rows != [] {
      var init := rows[..|rows| - 1];
      GroupKeysComplete(init, filtered, key);
      assert forall i :: 0 <= i < |init| ==> init[i] == rows[i];
      if key in GroupKeys(init, filtered) {
        var i :| 0 <= i < |init| && RowKey(init[i], filtered) == key;
        assert RowKey(rows[i], filtered) == key;
      }
    }
  }

  ghost predicate Distinct(keys: seq<DepKey>) {
    forall i, j :: 0 <= i < j < |keys| ==> keys[i] != keys[j]
  }

  /** No key appears twice: `deps_for` returns one entry per distinct key. */
  lemma {:induction false} GroupKeysDistinct(rows: seq<DepRow>, filtered: bool)
    ensures Distinct(GroupKeys(rows, filtered))
    decreases |rows|
  {
    if rows != [] {
      var keys := GroupKeys(rows[..|rows| - 1], filtered);
      GroupKeysDistinct(rows[..|rows| - 1], filtered);
      var key := RowKey(rows[|rows| - 1], filtered);
      if key !in keys {
        var all := keys + [key];
        forall i, j | 0 <= i < j < |all| ensures all[i] != all[j] {
          assert all[i] == keys[i];
          if j == |keys| {
            assert keys[i] in keys;
          } else {
            assert all[j] == keys[j];
          }
        }
      }
    }
  }

  /** A key no row has collects no pairs. */
  lemma {:induction false} PairsOfAbsentKey(rows: seq<DepRow>, filtered: bool, key: DepKey)
    requires forall i :: 0 <= i < |rows| ==> RowKey(rows[i], filtered) != key
    ensures Pairs(rows, filtered, key) == []
    decreases |rows|
  {
    if rows != [] {
      PairsOfAbsentKey(rows[..|rows| - 1], filtered, key);
    }
  }

  /** How many rows carry a target name. */
  function CountWithDep(rows: seq<DepRow>): nat
    decreases |rows|
  {
    if rows == [] then 0
    else CountWithDep(rows[..|rows| - 1]) + (if rows[|rows| - 1].depName.Some? then 1 else 0)
  }

  /** The number of pairs over the given keys. */
  function TotalPairs(rows: seq<DepRow>, filtered: bool, keys: seq<DepKey>): nat
    decreases |keys|
  {
    if keys == [] then 0
    else |Pairs(rows, filtered, keys[0])| + TotalPairs(rows, filtered, keys[1..])
  }

  lemma {:induction false} TotalPairsAppendKey(rows: seq<DepRow>, filtered: bool, keys: seq<DepKey>, key: DepKey)
    ensures TotalPairs(rows, filtered, keys + [key]) == TotalPairs(rows, filtered, keys) + |Pairs(rows, filtered, key)|
    decreases |keys|
  {
    if keys != [] {
      assert (keys + [key])[1..] == keys[1..] + [key];
      TotalPairsAppendKey(rows, filtered, keys[1..], key);
    }
  }

  /** One more row adds its pair to the total of its key, if that key is counted (once). */
  lemma {:induction false} TotalPairsAppendRow(rows: seq<DepRow>, filtered: bool, keys: seq<DepKey>)
    requires rows != []
    requires Distinct(keys)
    ensures var last := rows[|rows| - 1];
      TotalPairs(rows, filtered, keys) == TotalPairs(rows[..|rows| - 1], filtered, keys)
        + (if last.depName.Some? && RowKey(last, filtered) in keys then 1 else 0)
    decreases |keys|
  {
    if keys != [] {
      TotalPairsAppendRow(rows, filtered, keys[1..]);
      assert keys[0] !in keys[1..];
    }
  }

  /** Across all entries, the pairs number exactly the rows that carry a target name. */
  lemma {:induction false} PairsCountRows(rows: seq<DepRow>, filtered: bool)
    ensures TotalPairs(rows, filtered, GroupKeys(rows, filtered)) == CountWithDep(rows)
    decreases |rows|
  {
    if rows != [] {
      var init := rows[..|rows| - 1];
      var last := rows[|rows| - 1];
      var keys := GroupKeys(init, filtered);
      var key := RowKey(last, filtered);
      PairsCountRows(init, filtered);
      GroupKeysDistinct(init, filtered);
      GroupKeysDistinct(rows, filtered);
      if key in keys {
        TotalPairsAppendRow(rows, filtered, keys);
      } else {
        TotalPairsAppendKey(rows, filtered, keys, key);
        TotalPairsAppendRow(rows, filtered, keys);
        GroupKeysComplete(init, filtered, key);
        PairsOfAbsentKey(init, filtered, key);
      }
    }
  }

  // ---- versions ----

  /** One row of the `versions` query: an indexed version. */
  datatype IndexedRow = IndexedRow(fullName: string, number: string, platform: string)

  /** The version string of a row: the number, with `-platform` unless the platform is "ruby". */
  function RowVersion(row: IndexedRow): string {
    VersionString(row.number, row.platform)
  }

  /** The gem name: `full_name.chomp("-" + version)`. */
  function RowName(row: IndexedRow): string {
    Chomp(row.fullName, "-" + RowVersion(row))
  }

  /** The version strings of the rows named `name`, in row order: `specs_hash[name]` before the sort. */
  function Collected(rows: seq<IndexedRow>, name: string): seq<string>
    decreases |rows|
  {
    if rows == [] then []
    else
      var last := rows[|rows| - 1];
      Collected(rows[..|rows| - 1], name) + (if RowName(last) == name then [RowVersion(last)] else [])
  }

  /**
   * `versions` over the rows its query returns: the gem names are exactly
   * the recovered names, and each one's list is its versions sorted.
   */
  method Versions(rows: seq<IndexedRow>) returns (specs: map<string, seq<string>>)
    ensures specs.Keys == set i | 0 <= i < |rows| :: RowName(rows[i])
    ensures forall n :: n in specs ==> specs[n] == Sort(Collected(rows, n))
  {
    specs := CollectVersions(rows);
    specs := SortEach(specs);
  }

  /** The row loop of `versions`: `specs_hash[name] << version`. */
  method CollectVersions(rows: seq<IndexedRow>) returns (specs: map<string, seq<string>>)
    ensures specs.Keys == set i | 0 <= i < |rows| :: RowName(rows[i])
    ensures forall n :: n in specs ==> specs[n] == Collected(rows, n)
  {
    specs := map[];
    for i := 0 to |rows|
      invariant specs.Keys == set k | 0 <= k < i :: RowName(rows[k])
      invariant forall n :: n in specs ==> specs[n] == Collected(rows[..i], n)
    {
      var version := rows[i].number;
      if rows[i].platform != RubyPlatform {
        version := version + "-" + rows[i].platform;
      }
      var name := Chomp(rows[i].fullName, "-" + version);
      assert version == RowVersion(rows[i]) && name == RowName(rows[i]);
      if name !in specs {
        CollectedOfAbsentName(rows[..i], name);
        specs := specs[name := []];
      }
      specs := specs[name := specs[name] + [version]];
      forall n | n in specs
        ensures specs[n] == Collected(rows[..i + 1], n)
      {
        CollectedStep(rows, i, n);
      }
      assert (set k | 0 <= k < i + 1 :: RowName(rows[k])) == (set k | 0 <= k < i :: RowName(rows[k])) + {name};
    }
    assert rows[..|rows|] == rows;
  }

  /** One more row extends the list of its own name and no other. */
  lemma CollectedStep(rows: seq<IndexedRow>, i: nat, n: string)
    requires i < |rows|
    ensures Collected(rows[..i + 1], n) == Collected(rows[..i], n) + (if RowName(rows[i]) == n then [RowVersion(rows[i])] else [])
  {
    assert rows[..i + 1][..i] == rows[..i];
  }

  /** `specs_hash.each { |k, v| v.sort! }`: every list sorted in place. */
  method SortEach(lists: map<string, seq<string>>) returns (specs: map<string, seq<string>>)
    ensures specs.Keys == lists.Keys
    ensures forall n :: n in specs ==> specs[n] == Sort(lists[n])
  {
    specs := lists;
    var unsorted := specs.Keys;
    while unsorted != {}
      invariant unsorted <= specs.Keys == lists.Keys
      invariant forall n :: n in specs && n !in unsorted ==> specs[n] == Sort(lists[n])
      invariant forall n :: n in unsorted ==> specs[n] == lists[n]
      decreases |unsorted|
    {
      var n :| n in unsorted;
      var list := specs[n];
      var a := new string[|list|](k requires 0 <= k < |list| => list[k]);
      assert a[..] == list;
      SortInPlace(a);
      specs := specs[n := a[..]];
      unsorted := unsorted - {n};
    }
  }

  /** A name no row recovers collects nothing. */
  lemma {:induction false} CollectedOfAbsentName(rows: seq<IndexedRow>, name: string)
    requires forall i :: 0 <= i < |rows| ==> RowName(rows[i]) != name
    ensures Collected(rows, name) == []
    decreases |rows|
  {
    if rows != [] {
      CollectedOfAbsentName(rows[..|rows| - 1], name);
    }
  }

  /**
   * A full name that is the gem name, a dash and the version string gives
   * back the gem name; one that does not end that way is kept whole.
   */
  lemma RowNameRecovered(row: IndexedRow, name: string)
    ensures row.fullName == name + "-" + RowVersion(row) ==> RowName(row) == name
    ensures !EndsWith(row.fullName, "-" + RowVersion(row)) ==> RowName(row) == row.fullName
  {
    if row.fullName == name + "-" + RowVersion(row) {
      assert row.fullName == name + ("-" + RowVersion(row));
      ChompAppended(name, "-" + RowVersion(row));
    }
    ChompCases(row.fullName, "-" + RowVersion(row));
  }

  /** Each list `versions` returns is sorted ascending and a permutation of the versions collected for its name. */
  lemma VersionsSortedPermutation(rows: seq<IndexedRow>, name: string)
    ensures var l := Sort(Collected(rows, name));
      Sorted(l) && multiset(l) == multiset(Collected(rows, name))
  {
  }
}
