/**
 * The Ruby `String` operations the ingestion core relies on, with their
 * Ruby semantics written out: `split` with a literal separator (trailing
 * empty fields dropped), `chomp` with a suffix, `<=>` (bytewise, shorter
 * prefix first) and `sort`.
 */
module Strings {

  /** `sep` occurs in `s` starting at position `i`. */
  predicate OccursAt(s: string, i: nat, sep: string) {
    i + |sep| <= |s| && s[i..i + |sep|] == sep
  }

  /** `sep` does not occur anywhere in `s`. */
  ghost predicate Free(s: string, sep: string) {
    forall i: nat :: i < |s| ==> !OccursAt(s, i, sep)
  }

  /**
   * No occurrence of `sep` in `c + sep` starts before the appended `sep`:
   * scanning `c + sep + ...` left to right, the first separator found is
   * the one right after `c`.
   */
  ghost predicate FreeBefore(c: string, sep: string) {
    forall i: nat :: i < |c| ==> !OccursAt(c + sep, i, sep)
  }

  /**
   * The fields of `s` between the leftmost non-overlapping occurrences of
   * `sep`, empty fields included (at least one field).
   */
  function Fields(s: string, sep: string): (r: seq<string>)
    requires sep != ""
    ensures r != []
    decreases |s|
  {
    if |s| < |sep| then [s]
    else if s[..|sep|] == sep then [""] + Fields(s[|sep|..], sep)
    else
      var rest := Fields(s[1..], sep);
      [[s[0]] + rest[0]] + rest[1..]
  }

  /** Ruby drops the empty fields at the end of a `split` result. */
  function DropTrailingEmpty(fs: seq<string>): (r: seq<string>)
    ensures r <= fs
    ensures r == [] || r[|r| - 1] != ""
    ensures forall i :: |r| <= i < |fs| ==> fs[i] == ""
  {
    if fs == [] then []
    else if fs[|fs| - 1] == "" then DropTrailingEmpty(fs[..|fs| - 1])
    else fs
  }

  /** Ruby's `s.split(sep)` for a literal, non-blank separator string. */
  function Split(s: string, sep: string): seq<string>
    requires sep != ""
  {
    DropTrailingEmpty(Fields(s, sep))
  }

  /** Ruby's `cs.join(sep)`. */
  function Join(cs: seq<string>, sep: string): string
  {
    if cs == [] then ""
    else if |cs| == 1 then cs[0]
    else cs[0] + sep + Join(cs[1..], sep)
  }

  /** The elements of a sequence, as Ruby's `Set.new(array)` sees them. */
  function ToSet(cs: seq<string>): set<string>
  {
    set c | c in cs
  }

  lemma ShiftOccurrence(c: string, sep: string, tail: string, i: nat)
    requires c != ""
    ensures OccursAt(c[1..] + tail, i, sep) <==> OccursAt(c + tail, i + 1, sep)
  {
    assert c + tail == [c[0]] + (c[1..] + tail);
    if i + 1 + |sep| <= |c + tail| {
      assert (c[1..] + tail)[i..i + |sep|] == (c + tail)[i + 1..i + 1 + |sep|];
    }
  }

  /** A string free of `sep` is a single field. */
  lemma {:induction false} FieldsOfFree(c: string, sep: string)
    requires sep != "" && Free(c, sep)
    ensures Fields(c, sep) == [c]
    decreases |c|
  {
    if |c| >= |sep| {
      assert !OccursAt(c, 0, sep);
      forall i: nat | i < |c[1..]| ensures !OccursAt(c[1..], i, sep) {
        ShiftOccurrence(c, sep, "", i);
        assert c[1..] + "" == c[1..] && c + "" == c;
      }
      FieldsOfFree(c[1..], sep);
      assert [c[0]] + c[1..] == c;
    }
  }

  /** The first separator after a `FreeBefore` field ends that field. */
  lemma {:induction false} FieldsAfterField(c: string, sep: string, rest: string)
    requires sep != "" && FreeBefore(c, sep)
    ensures Fields(c + sep + rest, sep) == [c] + Fields(rest, sep)
    decreases |c|
  {
    var s := c + sep + rest;
    if c == "" {
      assert s == sep + rest;
      assert s[..|sep|] == sep;
      assert s[|sep|..] == rest;
    } else {
      assert !OccursAt(c + sep, 0, sep);
      assert s[..|sep|] == (c + sep)[0..|sep|];
      assert s[1..] == c[1..] + sep + rest;
      forall i: nat | i < |c[1..]| ensures !OccursAt(c[1..] + sep, i, sep) {
        ShiftOccurrence(c, sep, sep, i);
      }
      FieldsAfterField(c[1..], sep, rest);
      assert [c[0]] + c[1..] == c;
    }
  }

  /** Splitting a join of separator-free fields gives the fields back. */
  lemma {:induction false} FieldsOfJoin(cs: seq<string>, sep: string)
    requires sep != "" && cs != []
    requires forall k :: 0 <= k < |cs| - 1 ==> FreeBefore(cs[k], sep)
    requires Free(cs[|cs| - 1], sep)
    ensures Fields(Join(cs, sep), sep) == cs
    decreases |cs|
  {
    if |cs| == 1 {
      FieldsOfFree(cs[0], sep);
    } else {
      FieldsOfJoin(cs[1..], sep);
      FieldsAfterField(cs[0], sep, Join(cs[1..], sep));
      assert cs == [cs[0]] + cs[1..];
    }
  }

  /** Joining the fields of `s` with the separator rebuilds `s`. */
  lemma {:induction false} JoinOfFields(s: string, sep: string)
    requires sep != ""
    ensures Join(Fields(s, sep), sep) == s
    decreases |s|
  {
    if |s| < |sep| {
    } else if s[..|sep|] == sep {
      var rest := Fields(s[|sep|..], sep);
      JoinOfFields(s[|sep|..], sep);
      JoinEmptyHead(rest, sep);
      assert s == s[..|sep|] + s[|sep|..];
    } else {
      var rest := Fields(s[1..], sep);
      JoinOfFields(s[1..], sep);
      JoinConsChar(s[0], rest, sep);
      assert s == [s[0]] + s[1..];
    }
  }

  /** An empty first field contributes just the separator. */
  lemma JoinEmptyHead(cs: seq<string>, sep: string)
    requires cs != []
    ensures Join([""] + cs, sep) == sep + Join(cs, sep)
  {
    assert ([""] + cs)[1..] == cs;
  }

  /** A character put in front of the first field comes out in front of the join. */
  lemma JoinConsChar(c: char, cs: seq<string>, sep: string)
    requires cs != []
    ensures Join([[c] + cs[0]] + cs[1..], sep) == [c] + Join(cs, sep)
  {
    var r := [[c] + cs[0]] + cs[1..];
    if |cs| > 1 {
      assert r[1..] == cs[1..];
      assert Join(r, sep) == ([c] + cs[0]) + sep + Join(cs[1..], sep);
      assert Join(cs, sep) == cs[0] + sep + Join(cs[1..], sep);
    }
  }

  /** `Split` inverts `Join` on non-empty fields that do not straddle or hold the separator. */
  lemma SplitOfJoin(cs: seq<string>, sep: string)
    requires sep != ""
    requires forall k :: 0 <= k < |cs| ==> cs[k] != "" && FreeBefore(cs[k], sep) && Free(cs[k], sep)
    ensures Split(Join(cs, sep), sep) == cs
  {
    if cs != [] {
      FieldsOfJoin(cs, sep);
    }
  }

  /**
   * For a separator whose last character differs from its first, a string
   * that does not contain it cannot form it together with the separator.
   */
  lemma FreeBeforeOfFree(c: string, sep: string)
    requires |sep| == 2 && sep[0] != sep[1] && Free(c, sep)
    ensures FreeBefore(c, sep)
  {
    forall i: nat | i < |c| ensures !OccursAt(c + sep, i, sep) {
      if i + 2 <= |c| {
        assert (c + sep)[i..i + 2] == c[i..i + 2];
        assert !OccursAt(c, i, sep);
      } else {
        assert (c + sep)[i + 1] == sep[0];
      }
    }
  }

  // ---- chomp ----

  predicate EndsWith(s: string, suffix: string) {
    |suffix| <= |s| && s[|s| - |suffix|..] == suffix
  }

  /** Ruby's `s.chomp(suffix)` for a non-empty suffix. */
  function Chomp(s: string, suffix: string): (r: string)
    requires suffix != ""
  {
    if EndsWith(s, suffix) then s[..|s| - |suffix|] else s
  }

  /** Chomping what was appended gives the original string back. */
  lemma ChompAppended(n: string, suffix: string)
    requires suffix != ""
    ensures Chomp(n + suffix, suffix) == n
  {
    assert (n + suffix)[|n + suffix| - |suffix|..] == suffix;
    assert (n + suffix)[..|n|] == n;
  }

  /** Without the suffix, `chomp` returns its argument unchanged; with it, strips exactly it. */
  lemma ChompCases(s: string, suffix: string)
    requires suffix != ""
    ensures !EndsWith(s, suffix) ==> Chomp(s, suffix) == s
    ensures EndsWith(s, suffix) ==> Chomp(s, suffix) + suffix == s
  {
    if EndsWith(s, suffix) {
      assert s == s[..|s| - |suffix|] + s[|s| - |suffix|..];
    }
  }

  // ---- ordering and sorting ----

  /** Ruby's `a <=> b <= 0` on strings: lexicographic, a proper prefix first. */
  predicate LexLe(a: string, b: string)
    decreases |a|
  {
    a == [] || (b != [] && (a[0] < b[0] || (a[0] == b[0] && LexLe(a[1..], b[1..]))))
  }

  lemma {:induction false} LexLeTotal(a: string, b: string)
    ensures LexLe(a, b) || LexLe(b, a)
    decreases |a|
  {
    if a != [] && b != [] && a[0] == b[0] {
      LexLeTotal(a[1..], b[1..]);
    }
  }

  lemma {:induction false} LexLeTrans(a: string, b: string, c: string)
    requires LexLe(a, b) && LexLe(b, c)
    ensures LexLe(a, c)
    decreases |a|
  {
    if a != [] && a[0] == b[0] && b[0] == c[0] {
      LexLeTrans(a[1..], b[1..], c[1..]);
    }
  }

  lemma {:induction false} LexLeAntisym(a: string, b: string)
    requires LexLe(a, b) && LexLe(b, a)
    ensures a == b
    decreases |a|
  {
    if a != [] {
      LexLeAntisym(a[1..], b[1..]);
      assert a == [a[0]] + a[1..] && b == [b[0]] + b[1..];
    }
  }

  ghost predicate Sorted(s: seq<string>) {
    forall i, j :: 0 <= i < j < |s| ==> LexLe(s[i], s[j])
  }

  /** Inserting into a sorted sequence: the element goes before the first one it is below. */
  function InsertSorted(x: string, s: seq<string>): (r: seq<string>)
    requires Sorted(s)
    ensures Sorted(r) && multiset(r) == multiset(s) + multiset{x}
  {
    if s == [] then [x]
    else if LexLe(x, s[0]) then
      BelowHeadBelowAll(x, s);
      ConsSorted(x, s);
      [x] + s
    else
      SortedTail(s);
      var r' := InsertSorted(x, s[1..]);
      LexLeTotal(x, s[0]);
      HeadBelowTail(s);
      AllAbove(s[0], r', s[1..], x);
      ConsSorted(s[0], r');
      MultisetTail(s);
      [s[0]] + r'
  }

  /** Below the head of a sorted sequence is below all of it. */
  lemma BelowHeadBelowAll(x: string, s: seq<string>)
    requires Sorted(s) && s != [] && LexLe(x, s[0])
    ensures forall j :: 0 <= j < |s| ==> LexLe(x, s[j])
  {
    forall j | 0 <= j < |s| ensures LexLe(x, s[j]) {
      if j > 0 { LexLeTrans(x, s[0], s[j]); }
    }
  }

  /** The head of a sorted sequence is below every later element. */
  lemma HeadBelowTail(s: seq<string>)
    requires Sorted(s) && s != []
    ensures forall j :: 0 <= j < |s[1..]| ==> LexLe(s[0], s[1..][j])
  {
    forall j | 0 <= j < |s[1..]| ensures LexLe(s[0], s[1..][j]) {
      assert s[1..][j] == s[j + 1];
    }
  }

  /** A bound on the elements of `s` and on `x` bounds every element of a permutation of `s` plus `x`. */
  lemma AllAbove(h: string, r: seq<string>, s: seq<string>, x: string)
    requires multiset(r) == multiset(s) + multiset{x}
    requires forall j :: 0 <= j < |s| ==> LexLe(h, s[j])
    requires LexLe(h, x)
    ensures forall j :: 0 <= j < |r| ==> LexLe(h, r[j])
  {
    forall j | 0 <= j < |r| ensures LexLe(h, r[j]) {
      assert r[j] in multiset(r);
      if r[j] != x {
        assert r[j] in multiset(s);
        var k :| 0 <= k < |s| && s[k] == r[j];
      }
    }
  }

  /** An element below all of a sorted sequence can go in front of it. */
  lemma ConsSorted(h: string, r: seq<string>)
    requires Sorted(r) && forall j :: 0 <= j < |r| ==> LexLe(h, r[j])
    ensures Sorted([h] + r)
  {
    var hr := [h] + r;
    forall i, j | 0 <= i < j < |hr| ensures LexLe(hr[i], hr[j]) {
      assert hr[j] == r[j - 1];
      if i > 0 { assert hr[i] == r[i - 1]; }
    }
  }

  /** Ruby's `sort!` on an array of strings: the sorted permutation. */
  function Sort(s: seq<string>): (r: seq<string>)
    ensures Sorted(r) && multiset(r) == multiset(s)
  {
    if s == [] then []
    else
      assert s == [s[0]] + s[1..];
      InsertSorted(s[0], Sort(s[1..]))
  }

  /** The head of a sorted sequence is below each of its elements. */
  lemma HeadIsLeast(a: seq<string>, x: string)
    requires Sorted(a) && x in multiset(a)
    ensures LexLe(a[0], x)
  {
    var k :| 0 <= k < |a| && a[k] == x;
    if k == 0 { LexLeTotal(x, x); }
  }

  lemma SortedTail(a: seq<string>)
    requires Sorted(a) && a != []
    ensures Sorted(a[1..])
  {
    forall i, j | 0 <= i < j < |a[1..]| ensures LexLe(a[1..][i], a[1..][j]) {
      assert a[1..][i] == a[i + 1] && a[1..][j] == a[j + 1];
    }
  }

  /**
   * A sequence of strings has only one sorted permutation, so `Sort`
   * agrees with any correct sorting routine, Ruby's included.
   */
  lemma {:induction false} SortedPermutationUnique(a: seq<string>, b: seq<string>)
    requires Sorted(a) && Sorted(b) && multiset(a) == multiset(b)
    ensures a == b
    decreases |a|
  {
    if a == [] || b == [] {
      assert |multiset(a)| == |a| && |multiset(b)| == |b|;
    } else {
      SortedHeadsEqual(a, b);
      MultisetTail(a);
      MultisetTail(b);
      SortedTail(a);
      SortedTail(b);
      SortedPermutationUnique(a[1..], b[1..]);
      assert a == [a[0]] + a[1..] && b == [b[0]] + b[1..];
    }
  }

  /** Two sorted permutations of each other start with the same element. */
  lemma SortedHeadsEqual(a: seq<string>, b: seq<string>)
    requires Sorted(a) && Sorted(b) && multiset(a) == multiset(b) && a != [] && b != []
    ensures a[0] == b[0]
  {
    assert b[0] in multiset(b);
    assert a[0] in multiset(a);
    HeadIsLeast(a, b[0]);
    HeadIsLeast(b, a[0]);
    LexLeAntisym(a[0], b[0]);
  }

  lemma MultisetTail(a: seq<string>)
    requires a != []
    ensures multiset(a[1..]) == multiset(a) - multiset{a[0]}
  {
    assert a == [a[0]] + a[1..];
  }

  /**
   * Ruby's `sort!`, modelled as an in-place insertion sort by adjacent
   * swaps; the array ends as the sorted permutation `Sort` describes, and
   * `SortedPermutationUnique` makes that the result of any sort.
   */
  method SortInPlace(a: array<string>)
    modifies a
    ensures Sorted(a[..]) && multiset(a[..]) == multiset(old(a[..]))
    ensures a[..] == Sort(old(a[..]))
  {
    var i := 0;
    while i < a.Length
      invariant 0 <= i <= a.Length
      invariant forall p, q :: 0 <= p < q < i ==> LexLe(a[p], a[q])
      invariant multiset(a[..]) == multiset(old(a[..]))
    {
      var j := i;
      while j > 0 && !LexLe(a[j - 1], a[j])
        invariant 0 <= j <= i
        invariant forall p, q :: 0 <= p < q <= i && q != j ==> LexLe(a[p], a[q])
        invariant multiset(a[..]) == multiset(old(a[..]))
      {
        LexLeTotal(a[j - 1], a[j]);
        a[j - 1], a[j] := a[j], a[j - 1];
        j := j - 1;
      }
      forall p | 0 <= p < j ensures LexLe(a[p], a[j]) {
        if p < j - 1 { LexLeTrans(a[p], a[j - 1], a[j]); }
      }
      i := i + 1;
    }
    SortedPermutationUnique(a[..], Sort(old(a[..])));
  }
}
