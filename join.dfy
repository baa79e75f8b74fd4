/** pandas' `merge(left, right, on=..., how='left')`: every left row is kept,
    in order; a left row is repeated once per right row with an equal key, in
    the order of the right frame, and appears once with a missing (NaN) right
    part when no right row matches. */
module Join {
  import opened Wrappers

  /** The rows of `right` whose key is `k`, in the order of `right`. */
  function Matches<R(==,!new), K(==)>(k: K, right: seq<R>, rkey: R -> K): (ms: seq<R>)
    ensures |ms| <= |right|
    ensures forall m :: m in ms <==> m in right && rkey(m) == k
  {
    if right == [] then []
    else
      var rest := Matches(k, right[1..], rkey);
      assert right == [right[0]] + right[1..];
      if rkey(right[0]) == k then [right[0]] + rest else rest
  }

  /** The positions of `right` whose key is `k`, in increasing order. */
  function Positions<R, K(==)>(k: K, right: seq<R>, rkey: R -> K): (idx: seq<nat>)
    ensures |idx| <= |right|
    ensures forall t :: 0 <= t < |idx| ==> idx[t] < |right|
  {
    if right == [] then []
    else (if rkey(right[0]) == k then [0] else []) + Shifted(Positions(k, right[1..], rkey))
  }

  function Shifted(s: seq<nat>): (r: seq<nat>)
    ensures |r| == |s| && forall t :: 0 <= t < |s| ==> r[t] == s[t] + 1
  {
    seq(|s|, t requires 0 <= t < |s| => s[t] + 1)
  }

  predicate Increasing(s: seq<nat>) {
    forall t, u :: 0 <= t < u < |s| ==> s[t] < s[u]
  }

  lemma ShiftedIncreasing(s: seq<nat>)
    requires Increasing(s)
    ensures Increasing(Shifted(s))
  {
  }

  lemma ConsZeroIncreasing(s: seq<nat>)
    requires Increasing(s) && forall t :: 0 <= t < |s| ==> s[t] >= 1
    ensures Increasing([0] + s)
  {
    var z := [0] + s;
    forall t, u | 0 <= t < u < |z| ensures z[t] < z[u] {
      assert z[u] == s[u - 1];
      if t > 0 {
        assert z[t] == s[t - 1];
      }
    }
  }

  /** The positions are strictly increasing. */
  lemma {:induction false} PositionsIncreasing<R, K>(k: K, right: seq<R>, rkey: R -> K)
    ensures Increasing(Positions(k, right, rkey))
  {
    if right != [] {
      var rest := Positions(k, right[1..], rkey);
      PositionsIncreasing(k, right[1..], rkey);
      ShiftedIncreasing(rest);
      var sh := Shifted(rest);
      if rkey(right[0]) == k {
        ConsZeroIncreasing(sh);
      } else {
        assert Positions(k, right, rkey) == sh;
      }
    }
  }

  /** A position is listed exactly when its row has key `k`. */
  lemma {:induction false} PositionsComplete<R, K>(k: K, right: seq<R>, rkey: R -> K, j: nat)
    requires j < |right|
    ensures j in Positions(k, right, rkey) <==> rkey(right[j]) == k
  {
    var rest := Positions(k, right[1..], rkey);
    if j == 0 {
      assert forall t :: 0 <= t < |rest| ==> Shifted(rest)[t] >= 1;
    } else {
      PositionsComplete(k, right[1..], rkey, j - 1);
      assert right[1..][j - 1] == right[j];
      ShiftedMember(rest, j - 1);
    }
  }

  lemma ShiftedMember(s: seq<nat>, x: nat)
    ensures x in s <==> x + 1 in Shifted(s)
  {
    if x + 1 in Shifted(s) {
      var t :| 0 <= t < |s| && Shifted(s)[t] == x + 1;
    }
    if x in s {
      var t :| 0 <= t < |s| && s[t] == x;
      assert Shifted(s)[t] == x + 1;
    }
  }

  /** `Matches` lists the rows at those positions, one for each. */
  lemma {:induction false} PositionsOfMatches<R(!new), K>(k: K, right: seq<R>, rkey: R -> K)
    ensures var idx := Positions(k, right, rkey);
      && |idx| == |Matches(k, right, rkey)|
      && forall t :: 0 <= t < |idx| ==> Matches(k, right, rkey)[t] == right[idx[t]]
  {
    if right != [] {
      PositionsOfMatches(k, right[1..], rkey);
      var ms, mr := Matches(k, right, rkey), Matches(k, right[1..], rkey);
      var rest := Positions(k, right[1..], rkey);
      var sh := Shifted(rest);
      forall t | 0 <= t < |rest| ensures mr[t] == right[sh[t]] {
        assert right[1..][rest[t]] == right[rest[t] + 1];
      }
      if rkey(right[0]) == k {
        var idx := [0] + sh;
        assert ms == [right[0]] + mr;
        assert Positions(k, right, rkey) == idx;
        forall t | 0 <= t < |idx| ensures ms[t] == right[idx[t]] {
          if t > 0 {
            assert ms[t] == mr[t - 1] && idx[t] == sh[t - 1];
          }
        }
      } else {
        assert ms == mr;
        assert Positions(k, right, rkey) == [] + sh;
      }
    }
  }

  /** `Matches` is the subsequence of `right` at exactly the positions whose
      key is `k`: strictly increasing positions of `right`, containing every
      position with key `k`, so the matches keep right order and repetitions. */
  lemma MatchesInOrder<R(!new), K>(k: K, right: seq<R>, rkey: R -> K) returns (idx: seq<nat>)
    ensures |idx| == |Matches(k, right, rkey)|
    ensures forall t :: 0 <= t < |idx| ==> idx[t] < |right| && Matches(k, right, rkey)[t] == right[idx[t]]
    ensures forall t, u :: 0 <= t < u < |idx| ==> idx[t] < idx[u]
    ensures forall j :: 0 <= j < |right| && rkey(right[j]) == k ==> j in idx
  {
    idx := Positions(k, right, rkey);
    PositionsIncreasing(k, right, rkey);
    PositionsOfMatches(k, right, rkey);
    forall j | 0 <= j < |right| && rkey(right[j]) == k ensures j in idx {
      PositionsComplete(k, right, rkey, j);
    }
  }

  /** The output rows contributed by one left row. */
  function JoinOne<L, R(==,!new), K(==)>(l: L, right: seq<R>, lkey: L -> K, rkey: R -> K): (rows: seq<(L, Option<R>)>)
    ensures 1 <= |rows| <= |right| + 1
  {
    var ms := Matches(lkey(l), right, rkey);
    if ms == [] then [(l, None)]
    else seq(|ms|, i requires 0 <= i < |ms| => (l, Some(ms[i])))
  }

  /** One left row's block pairs that row with every right row of its key
      and nothing else, or, when no right row has the key, is a single row
      with a missing right part. */
  lemma JoinOneBlock<L, R(!new), K>(l: L, right: seq<R>, lkey: L -> K, rkey: R -> K)
    ensures var rows := JoinOne(l, right, lkey, rkey);
      && (forall p :: p in rows ==> p.0 == l)
      && (forall r :: (l, Some(r)) in rows <==> r in right && rkey(r) == lkey(l))
      && ((l, None) in rows <==> forall r :: r in right ==> rkey(r) != lkey(l))
      && ((l, None) in rows ==> rows == [(l, None)])
  {
    var ms := Matches(lkey(l), right, rkey);
    var rows := JoinOne(l, right, lkey, rkey);
    if ms != [] {
      assert forall r :: (l, Some(r)) in rows ==> r in ms;
      assert forall r :: r in ms ==> rows[IndexIn(ms, r)] == (l, Some(r));
      assert rows[0] == (l, Some(ms[0]));
    }
  }

  /** One left row's block in order: when its key matches, the block is the
      left row paired with the right rows at strictly increasing positions,
      one per position with its key; otherwise it is the single row with a
      missing right part. */
  lemma JoinOneInOrder<L, R(!new), K>(l: L, right: seq<R>, lkey: L -> K, rkey: R -> K) returns (idx: seq<nat>)
    ensures forall t :: 0 <= t < |idx| ==> idx[t] < |right| && rkey(right[idx[t]]) == lkey(l)
    ensures forall t, u :: 0 <= t < u < |idx| ==> idx[t] < idx[u]
    ensures forall j :: 0 <= j < |right| && rkey(right[j]) == lkey(l) ==> j in idx
    ensures |idx| == |Matches(lkey(l), right, rkey)|
    ensures idx != [] ==> |JoinOne(l, right, lkey, rkey)| == |idx|
    ensures forall t :: 0 <= t < |idx| ==> JoinOne(l, right, lkey, rkey)[t] == (l, Some(right[idx[t]]))
    ensures idx == [] ==> JoinOne(l, right, lkey, rkey) == [(l, None)]
  {
    idx := MatchesInOrder(lkey(l), right, rkey);
    var ms := Matches(lkey(l), right, rkey);
    forall t | 0 <= t < |idx| ensures rkey(right[idx[t]]) == lkey(l) {
      assert ms[t] in ms;
    }
  }

  /** Some position of `x` in `s`. */
  function IndexIn<T(==)>(s: seq<T>, x: T): (i: nat)
    requires x in s
    ensures i < |s| && s[i] == x
  {
    if s[0] == x then 0 else 1 + IndexIn(s[1..], x)
  }

  /** The left merge: the blocks of all left rows, concatenated in left order. */
  function LeftJoin<L, R(==,!new), K(==)>(left: seq<L>, right: seq<R>, lkey: L -> K, rkey: R -> K): (rows: seq<(L, Option<R>)>)
    ensures |rows| >= |left|
  {
    if left == [] then []
    else JoinOne(left[0], right, lkey, rkey) + LeftJoin(left[1..], right, lkey, rkey)
  }

  /** Every output row comes from a left row; a present right part has that
      row's key, and a missing one means no right row has it. */
  lemma {:induction false} LeftJoinSound<L, R(!new), K>(left: seq<L>, right: seq<R>, lkey: L -> K, rkey: R -> K, k: nat)
    requires k < |LeftJoin(left, right, lkey, rkey)|
    ensures var row := LeftJoin(left, right, lkey, rkey)[k];
      && row.0 in left
      && (row.1.Some? ==> row.1.value in right && rkey(row.1.value) == lkey(row.0))
      && (row.1.None? ==> forall j :: 0 <= j < |right| ==> rkey(right[j]) != lkey(row.0))
  {
    var first := JoinOne(left[0], right, lkey, rkey);
    var rest := LeftJoin(left[1..], right, lkey, rkey);
    if k >= |first| {
      LeftJoinSound(left[1..], right, lkey, rkey, k - |first|);
      assert LeftJoin(left, right, lkey, rkey)[k] == rest[k - |first|];
    }
  }

  /** Every pair of a left row and a right row with equal keys is in the
      output. */
  lemma {:induction false} LeftJoinComplete<L, R(!new), K>(left: seq<L>, right: seq<R>, lkey: L -> K, rkey: R -> K, i: nat, j: nat)
    requires i < |left| && j < |right| && rkey(right[j]) == lkey(left[i])
    ensures (left[i], Some(right[j])) in LeftJoin(left, right, lkey, rkey)
  {
    var first := JoinOne(left[0], right, lkey, rkey);
    var rest := LeftJoin(left[1..], right, lkey, rkey);
    assert LeftJoin(left, right, lkey, rkey) == first + rest;
    if i == 0 {
      var ms := Matches(lkey(left[0]), right, rkey);
      assert right[j] in ms;
      var k :| 0 <= k < |ms| && ms[k] == right[j];
      assert first[k] == (left[0], Some(right[j]));
    } else {
      assert left[i] == left[1..][i - 1];
      LeftJoinComplete(left[1..], right, lkey, rkey, i - 1, j);
    }
  }

  /** Every left row appears in the output at least once. */
  lemma {:induction false} LeftJoinKeepsLeft<L, R(!new), K>(left: seq<L>, right: seq<R>, lkey: L -> K, rkey: R -> K, i: nat)
    requires i < |left|
    ensures exists k :: 0 <= k < |LeftJoin(left, right, lkey, rkey)| && LeftJoin(left, right, lkey, rkey)[k].0 == left[i]
  {
    var first := JoinOne(left[0], right, lkey, rkey);
    var rest := LeftJoin(left[1..], right, lkey, rkey);
    var rows := LeftJoin(left, right, lkey, rkey);
    assert rows == first + rest;
    if i == 0 {
      assert rows[0] == first[0];
    } else {
      assert left[i] == left[1..][i - 1];
      LeftJoinKeepsLeft(left[1..], right, lkey, rkey, i - 1);
      var k :| 0 <= k < |rest| && rest[k].0 == left[i];
      assert rows[|first| + k] == rest[k];
    }
  }

  /** Merging a concatenation merges the parts: output order follows left order. */
  lemma {:induction false} LeftJoinAppend<L, R(!new), K>(a: seq<L>, b: seq<L>, right: seq<R>, lkey: L -> K, rkey: R -> K)
    ensures LeftJoin(a + b, right, lkey, rkey) == LeftJoin(a, right, lkey, rkey) + LeftJoin(b, right, lkey, rkey)
  {
    if a == [] {
      assert a + b == b;
    } else {
      assert (a + b)[1..] == a[1..] + b;
      LeftJoinAppend(a[1..], b, right, lkey, rkey);
    }
  }

  /** The number of rows one left row contributes: one per match, or one
      for a row nothing matches. */
  function BlockSize<L, R(==,!new), K(==)>(l: L, right: seq<R>, lkey: L -> K, rkey: R -> K): (n: nat)
    ensures n >= 1
  {
    var m := |Matches(lkey(l), right, rkey)|;
    if m == 0 then 1 else m
  }

  /** The sum of the block sizes of the left rows. */
  function BlocksLength<L, R(==,!new), K(==)>(left: seq<L>, right: seq<R>, lkey: L -> K, rkey: R -> K): (n: nat)
    ensures n >= |left|
  {
    if left == [] then 0
    else BlocksLength(left[..|left| - 1], right, lkey, rkey) + BlockSize(left[|left| - 1], right, lkey, rkey)
  }

  /** The merge has exactly one row per match of each left row, plus one for
      each left row nothing matches. */
  lemma {:induction false} LeftJoinCount<L, R(!new), K>(left: seq<L>, right: seq<R>, lkey: L -> K, rkey: R -> K)
    ensures |LeftJoin(left, right, lkey, rkey)| == BlocksLength(left, right, lkey, rkey)
  {
    if left != [] {
      var a, x := left[..|left| - 1], left[|left| - 1];
      assert left == a + [x];
      LeftJoinAppend(a, [x], right, lkey, rkey);
      LeftJoinCount(a, right, lkey, rkey);
      assert [x][1..] == [];
      assert LeftJoin([x], right, lkey, rkey) == JoinOne(x, right, lkey, rkey);
      JoinOneLength(x, right, lkey, rkey);
    }
  }

  /** Left row `i`'s block sits in the merge right after the blocks of the
      rows before it. */
  lemma LeftJoinBlockAt<L, R(!new), K>(left: seq<L>, right: seq<R>, lkey: L -> K, rkey: R -> K, i: nat)
    requires i < |left|
    ensures var o, b := BlocksLength(left[..i], right, lkey, rkey), JoinOne(left[i], right, lkey, rkey);
      && BlocksLength(left[..i + 1], right, lkey, rkey) == o + |b|
      && o + |b| <= |LeftJoin(left, right, lkey, rkey)|
      && LeftJoin(left, right, lkey, rkey)[o..o + |b|] == b
  {
    var a, x, c := left[..i], left[i], left[i + 1..];
    var pa, b, pc := LeftJoin(a, right, lkey, rkey), JoinOne(x, right, lkey, rkey), LeftJoin(c, right, lkey, rkey);
    LeftJoinSplit(left, right, lkey, rkey, i);
    LeftJoinCount(a, right, lkey, rkey);
    SliceOfMiddle(pa, b, pc);
    BlocksLengthStep(left, right, lkey, rkey, i);
  }

  /** Left row `i`'s block, row by row: it starts at `o`, the total size
      of the blocks before it. */
  lemma LeftJoinRowsOfBlock<L, R(!new), K>(left: seq<L>, right: seq<R>, lkey: L -> K, rkey: R -> K, i: nat) returns (o: nat)
    requires i < |left|
    ensures o == BlocksLength(left[..i], right, lkey, rkey)
    ensures BlocksLength(left[..i + 1], right, lkey, rkey) == o + |JoinOne(left[i], right, lkey, rkey)|
    ensures o + |JoinOne(left[i], right, lkey, rkey)| <= |LeftJoin(left, right, lkey, rkey)|
    ensures forall t :: 0 <= t < |JoinOne(left[i], right, lkey, rkey)| ==>
      LeftJoin(left, right, lkey, rkey)[o + t] == JoinOne(left[i], right, lkey, rkey)[t]
  {
    o := BlocksLength(left[..i], right, lkey, rkey);
    LeftJoinBlockAt(left, right, lkey, rkey, i);
    SliceAt(LeftJoin(left, right, lkey, rkey), o, JoinOne(left[i], right, lkey, rkey));
  }

  /** The merge splits around left row `i`. */
  lemma LeftJoinSplit<L, R(!new), K>(left: seq<L>, right: seq<R>, lkey: L -> K, rkey: R -> K, i: nat)
    requires i < |left|
    ensures LeftJoin(left, right, lkey, rkey) ==
      LeftJoin(left[..i], right, lkey, rkey) + (JoinOne(left[i], right, lkey, rkey) + LeftJoin(left[i + 1..], right, lkey, rkey))
  {
    var a, x, c := left[..i], left[i], left[i + 1..];
    assert left == a + ([x] + c);
    LeftJoinAppend(a, [x] + c, right, lkey, rkey);
    assert ([x] + c)[1..] == c;
  }

  lemma BlocksLengthStep<L, R(!new), K>(left: seq<L>, right: seq<R>, lkey: L -> K, rkey: R -> K, i: nat)
    requires i < |left|
    ensures BlocksLength(left[..i + 1], right, lkey, rkey) ==
      BlocksLength(left[..i], right, lkey, rkey) + |JoinOne(left[i], right, lkey, rkey)|
  {
    assert left[..i + 1][..i] == left[..i] && left[..i + 1][i] == left[i];
    JoinOneLength(left[i], right, lkey, rkey);
  }

  lemma SliceAt<T>(s: seq<T>, o: nat, b: seq<T>)
    requires o + |b| <= |s| && s[o..o + |b|] == b
    ensures forall t :: 0 <= t < |b| ==> s[o + t] == b[t]
  {
    forall t | 0 <= t < |b| ensures s[o + t] == b[t] {
      assert s[o..o + |b|][t] == s[o + t];
    }
  }

  lemma SliceOfMiddle<T>(p: seq<T>, q: seq<T>, r: seq<T>)
    ensures (p + (q + r))[|p|..|p| + |q|] == q
  {
    assert (p + (q + r))[|p|..] == q + r;
  }

  /** The merge keeps the number of rows exactly when no left key matches two
      right rows. */
  lemma {:induction false} LeftJoinSameLength<L, R(!new), K>(left: seq<L>, right: seq<R>, lkey: L -> K, rkey: R -> K)
    ensures |LeftJoin(left, right, lkey, rkey)| == |left| <==>
      forall i :: 0 <= i < |left| ==> |Matches(lkey(left[i]), right, rkey)| <= 1
  {
    if left != [] {
      LeftJoinSameLength(left[1..], right, lkey, rkey);
      JoinOneLength(left[0], right, lkey, rkey);
      assert forall i :: 1 <= i < |left| ==> left[i] == left[1..][i - 1];
    }
  }

  /** A block has one row per match, and one row when nothing matches. */
  lemma JoinOneLength<L, R(!new), K>(l: L, right: seq<R>, lkey: L -> K, rkey: R -> K)
    ensures var n := |Matches(lkey(l), right, rkey)|;
      |JoinOne(l, right, lkey, rkey)| == if n == 0 then 1 else n
  {
  }

  /** When every left key matches exactly one right row, output row `i` is
      left row `i` joined with its match. */
  lemma {:induction false} LeftJoinOneToOne<L, R(!new), K>(left: seq<L>, right: seq<R>, lkey: L -> K, rkey: R -> K)
    requires forall i :: 0 <= i < |left| ==> |Matches(lkey(left[i]), right, rkey)| == 1
    ensures |LeftJoin(left, right, lkey, rkey)| == |left|
    ensures forall i :: 0 <= i < |left| ==>
      LeftJoin(left, right, lkey, rkey)[i] == (left[i], Some(Matches(lkey(left[i]), right, rkey)[0]))
  {
    if left != [] {
      assert forall i :: 1 <= i < |left| ==> left[i] == left[1..][i - 1];
      LeftJoinOneToOne(left[1..], right, lkey, rkey);
    }
  }

  /** The only row with key `k` is the whole of `Matches`. */
  lemma {:induction false} MatchesSingle<R(!new), K>(k: K, right: seq<R>, rkey: R -> K, j: nat)
    requires j < |right| && rkey(right[j]) == k
    requires forall i :: 0 <= i < |right| && i != j ==> rkey(right[i]) != k
    ensures Matches(k, right, rkey) == [right[j]]
  {
    if j == 0 {
      MatchesNone(k, right[1..], rkey);
    } else {
      assert rkey(right[0]) != k;
      MatchesSingle(k, right[1..], rkey, j - 1);
    }
  }

  /** No row with key `k`, no matches. */
  lemma MatchesNone<R(!new), K>(k: K, right: seq<R>, rkey: R -> K)
    requires forall i :: 0 <= i < |right| ==> rkey(right[i]) != k
    ensures Matches(k, right, rkey) == []
  {
  }

  /** Two rows with key `k` make at least two matches. */
  lemma {:induction false} MatchesTwo<R(!new), K>(k: K, right: seq<R>, rkey: R -> K, i: nat, j: nat)
    requires i < j < |right| && rkey(right[i]) == k && rkey(right[j]) == k
    ensures |Matches(k, right, rkey)| >= 2
  {
    if i == 0 {
      assert right[j] == right[1..][j - 1];
      assert right[1..][j - 1] in Matches(k, right[1..], rkey);
    } else {
      MatchesTwo(k, right[1..], rkey, i - 1, j - 1);
    }
  }

  /** When at most one row has key `k`, there is at most one match. */
  lemma {:induction false} MatchesAtMostOne<R(!new), K>(k: K, right: seq<R>, rkey: R -> K)
    requires forall i, j :: 0 <= i < |right| && 0 <= j < |right| && rkey(right[i]) == k && rkey(right[j]) == k ==> i == j
    ensures |Matches(k, right, rkey)| <= 1
  {
    if exists j :: 0 <= j < |right| && rkey(right[j]) == k {
      var j :| 0 <= j < |right| && rkey(right[j]) == k;
      MatchesSingle(k, right, rkey, j);
    } else {
      MatchesNone(k, right, rkey);
    }
  }
}
