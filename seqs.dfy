/** Sequence facts behind pandas' `drop_duplicates()`: keeping the first
    occurrence of every distinct value, in the order of first appearance. */
module Seqs {

  /** No value occurs twice in `s`. */
  predicate NoDup<T(==)>(s: seq<T>) {
    forall i, j :: 0 <= i < j < |s| ==> s[i] != s[j]
  }

  /** The set of values occurring in `s`. */
  function Elements<T>(s: seq<T>): set<T> {
    set x | x in s
  }

  /** `drop_duplicates()`: the values of `s`, each once, at the place where it
      first appears. Defined by growing the input at its end, the way a scan
      over the rows decides whether a row has been seen before. */
  function Distinct<T(==,!new)>(s: seq<T>): (d: seq<T>)
    ensures NoDup(d)
    ensures forall x :: x in d <==> x in s
    ensures |d| <= |s|
  {
    if s == [] then []
    else
      var init, last := s[..|s| - 1], s[|s| - 1];
      assert s == init + [last];
      var d' := Distinct(init);
      if last in d' then d' else d' + [last]
  }

  /** The position at which `x` first occurs in `s`. */
  function FirstIndex<T(==)>(s: seq<T>, x: T): (i: nat)
    requires x in s
    ensures i < |s| && s[i] == x && x !in s[..i]
  {
    if s[0] == x then 0
    else
      var j := FirstIndex(s[1..], x);
      assert s[..j + 1] == [s[0]] + s[1..][..j];
      j + 1
  }

  /** In a sequence without duplicates the first index is the only one. */
  lemma NoDupIndex<T>(s: seq<T>, i: nat)
    requires NoDup(s) && i < |s|
    ensures FirstIndex(s, s[i]) == i
  {
  }

  /** Deduplicating a prefix yields a prefix of the deduplicated whole. */
  lemma {:induction false} DistinctPrefix<T(!new)>(s: seq<T>, j: nat)
    requires j <= |s|
    ensures Distinct(s[..j]) <= Distinct(s)
    decreases |s|
  {
    if j < |s| {
      var init := s[..|s| - 1];
      assert init[..j] == s[..j];
      DistinctPrefix(init, j);
    } else {
      assert s[..j] == s;
    }
  }

  /** The place of `x` in `Distinct(s)` is the number of distinct values seen
      before `x` first appears: its first-appearance rank. */
  lemma DistinctRank<T(!new)>(s: seq<T>, x: T)
    requires x in s
    ensures var r := |Distinct(s[..FirstIndex(s, x)])|;
      r < |Distinct(s)| && Distinct(s)[r] == x
  {
    var f := FirstIndex(s, x);
    var p := s[..f + 1];
    assert p[..|p| - 1] == s[..f];
    assert p[|p| - 1] == x;
    assert Distinct(p) == Distinct(s[..f]) + [x];
    DistinctPrefix(s, f + 1);
  }

  /** Conversely, the value at position `i` of `Distinct(s)` has rank `i`. */
  lemma DistinctRankAt<T(!new)>(s: seq<T>, i: nat)
    requires i < |Distinct(s)|
    ensures Distinct(s)[i] in s
    ensures |Distinct(s[..FirstIndex(s, Distinct(s)[i])])| == i
  {
    var d := Distinct(s);
    var x := d[i];
    assert x in d;
    DistinctRank(s, x);
  }

  /** `Distinct(s)` lists the values in the order of their first appearance. */
  lemma DistinctOrder<T(!new)>(s: seq<T>, i: nat, j: nat)
    requires i < j < |Distinct(s)|
    ensures Distinct(s)[i] in s && Distinct(s)[j] in s
    ensures FirstIndex(s, Distinct(s)[i]) < FirstIndex(s, Distinct(s)[j])
  {
    var d := Distinct(s);
    DistinctRankAt(s, i);
    DistinctRankAt(s, j);
    var fi, fj := FirstIndex(s, d[i]), FirstIndex(s, d[j]);
    if fj <= fi {
      var p := s[..fi];
      assert p[..fj] == s[..fj];
      DistinctPrefix(p, fj);
    }
  }

  /** A sequence without duplicates has as many elements as values. */
  lemma {:induction false} NoDupCardinality<T>(s: seq<T>)
    requires NoDup(s)
    ensures |Elements(s)| == |s|
  {
    if s != [] {
      var t := s[1..];
      assert NoDup(t);
      NoDupCardinality(t);
      assert Elements(s) == Elements(t) + {s[0]};
      assert s[0] !in Elements(t);
    }
  }

  /** `Distinct(s)` has exactly one entry per distinct value of `s`. */
  lemma DistinctCardinality<T(!new)>(s: seq<T>)
    ensures |Distinct(s)| == |Elements(s)|
  {
    NoDupCardinality(Distinct(s));
    assert Elements(Distinct(s)) == Elements(s);
  }
}
