/**
 * itertools.product(*pools) as an explicit odometer over index vectors.
 * Product gives the whole sequence of combinations in the order the
 * library yields them (first pool slowest, last pool fastest); Rank is the
 * position of an index vector in that order; Advance is one odometer step.
 */
module Odometer {

  /** Number of combinations: the product of the pool sizes (1 for no pools). */
  function Size<T>(pools: seq<seq<T>>): nat
  {
    if pools == [] then 1 else Size(pools[..|pools| - 1]) * |pools[|pools| - 1]|
  }

  /** idx picks one existing element of every pool. */
  predicate InRange<T>(pools: seq<seq<T>>, idx: seq<nat>)
  {
    |idx| == |pools| && forall i :: 0 <= i < |pools| ==> idx[i] < |pools[i]|
  }

  /** The combination an index vector selects. */
  function Combo<T>(pools: seq<seq<T>>, idx: seq<nat>): (c: seq<T>)
    requires InRange(pools, idx)
    ensures |c| == |pools| && forall i :: 0 <= i < |pools| ==> c[i] == pools[i][idx[i]]
  {
    seq(|pools|, i requires 0 <= i < |pools| => pools[i][idx[i]])
  }

  function Zeros(n: nat): (z: seq<nat>)
    ensures |z| == n && forall i :: 0 <= i < n ==> z[i] == 0
  {
    seq(n, _ => 0)
  }

  /** Mixed-radix value of idx, last position least significant. */
  function Rank<T>(pools: seq<seq<T>>, idx: seq<nat>): nat
    requires |idx| == |pools|
  {
    if pools == [] then 0
    else Rank(pools[..|pools| - 1], idx[..|idx| - 1]) * |pools[|pools| - 1]| + idx[|idx| - 1]
  }

  /** c extended by each element of last, in order. */
  function Appended<T>(c: seq<T>, last: seq<T>): seq<seq<T>>
  {
    seq(|last|, j requires 0 <= j < |last| => c + [last[j]])
  }

  /** Every combination of cs extended by every element of last; cs varies slowest. */
  function Extend<T>(cs: seq<seq<T>>, last: seq<T>): seq<seq<T>>
  {
    if cs == [] then [] else Appended(cs[0], last) + Extend(cs[1..], last)
  }

  /** All combinations, in the order itertools.product yields them. */
  function Product<T>(pools: seq<seq<T>>): seq<seq<T>>
  {
    if pools == [] then [[]] else Extend(Product(pools[..|pools| - 1]), pools[|pools| - 1])
  }

  lemma {:induction false} ExtendAt<T>(cs: seq<seq<T>>, last: seq<T>, a: nat, b: nat)
    requires a < |cs| && b < |last|
    ensures |Extend(cs, last)| == |cs| * |last|
    ensures a * |last| + b < |Extend(cs, last)|
    ensures Extend(cs, last)[a * |last| + b] == cs[a] + [last[b]]
  {
    var rest := Extend(cs[1..], last);
    if |cs| == 1 {
      assert rest == [];
    } else if a == 0 {
      ExtendAt(cs[1..], last, 0, b);
    } else {
      ExtendAt(cs[1..], last, a - 1, b);
      assert a * |last| + b == |last| + ((a - 1) * |last| + b);
      assert |cs| * |last| == |last| + (|cs| - 1) * |last|;
    }
  }

  lemma {:induction false} ExtendLength<T>(cs: seq<seq<T>>, last: seq<T>)
    ensures |Extend(cs, last)| == |cs| * |last|
  {
    if cs != [] {
      ExtendLength(cs[1..], last);
      assert |cs| * |last| == |last| + (|cs| - 1) * |last|;
    }
  }

  /** The product holds exactly Size(pools) combinations. */
  lemma {:induction false} ProductSize<T>(pools: seq<seq<T>>)
    ensures |Product(pools)| == Size(pools)
  {
    if pools != [] {
      ProductSize(pools[..|pools| - 1]);
      ExtendLength(Product(pools[..|pools| - 1]), pools[|pools| - 1]);
    }
  }

  /** The product is empty exactly when some pool is empty. */
  lemma {:induction false} SizeZero<T>(pools: seq<seq<T>>)
    ensures Size(pools) == 0 <==> exists i :: 0 <= i < |pools| && |pools[i]| == 0
  {
    if pools != [] {
      var init := pools[..|pools| - 1];
      SizeZero(init);
      assert forall i :: 0 <= i < |init| ==> init[i] == pools[i];
      if Size(pools) == 0 {
        if |pools[|pools| - 1]| != 0 {
          var i :| 0 <= i < |init| && |init[i]| == 0;
          assert |pools[i]| == 0;
        }
      }
    }
  }

  /** A rank in range is below the number of combinations. */
  lemma {:induction false} RankBelowSize<T>(pools: seq<seq<T>>, idx: seq<nat>)
    requires InRange(pools, idx)
    ensures Rank(pools, idx) < Size(pools)
  {
    if pools != [] {
      var n := |pools|;
      var init, idxInit := pools[..n - 1], idx[..n - 1];
      assert InRange(init, idxInit);
      RankBelowSize(init, idxInit);
      var r, s, l := Rank(init, idxInit), Size(init), |pools[n - 1]|;
      assert r * l + idx[n - 1] < r * l + l == (r + 1) * l;
      assert (r + 1) * l <= s * l;
    }
  }

  /** The combination at position Rank(pools, idx) of the product is the one idx selects. */
  lemma {:induction false} ProductAt<T>(pools: seq<seq<T>>, idx: seq<nat>)
    requires InRange(pools, idx)
    ensures Rank(pools, idx) < |Product(pools)| == Size(pools)
    ensures Product(pools)[Rank(pools, idx)] == Combo(pools, idx)
  {
    ProductSize(pools);
    RankBelowSize(pools, idx);
    if pools != [] {
      var n := |pools|;
      var init, idxInit := pools[..n - 1], idx[..n - 1];
      assert InRange(init, idxInit);
      assert Rank(pools, idx) == Rank(init, idxInit) * |pools[n - 1]| + idx[n - 1];
      assert Product(pools) == Extend(Product(init), pools[n - 1]);
      ProductAt(init, idxInit);
      ExtendAt(Product(init), pools[n - 1], Rank(init, idxInit), idx[n - 1]);
      assert Combo(pools, idx) == Combo(init, idxInit) + [pools[n - 1][idx[n - 1]]];
    }
  }

  lemma {:induction false} AppendedMembers<T>(c: seq<T>, last: seq<T>, d: seq<T>)
    ensures d in Appended(c, last) <==> |d| == |c| + 1 && d[..|c|] == c && d[|c|] in last
  {
    var app := Appended(c, last);
    if d in app {
      var j :| 0 <= j < |last| && app[j] == d;
      assert d[..|c|] == c;
    }
    if |d| == |c| + 1 && d[..|c|] == c && d[|c|] in last {
      var j :| 0 <= j < |last| && last[j] == d[|c|];
      assert app[j] == d;
    }
  }

  lemma {:induction false} ExtendMembers<T>(cs: seq<seq<T>>, last: seq<T>, d: seq<T>)
    ensures d in Extend(cs, last) <==> |d| >= 1 && d[..|d| - 1] in cs && d[|d| - 1] in last
  {
    if cs != [] {
      ExtendMembers(cs[1..], last, d);
      AppendedMembers(cs[0], last, d);
      assert d in Extend(cs, last) <==> d in Appended(cs[0], last) || d in Extend(cs[1..], last);
      assert cs == [cs[0]] + cs[1..];
      if |d| >= 1 && d[..|d| - 1] in cs && d[|d| - 1] in last && d[..|d| - 1] == cs[0] {
        assert |d| == |cs[0]| + 1;
      }
    }
  }

  /** The product holds exactly the sequences that take their i-th element from pool i. */
  lemma ProductMembers<T>(pools: seq<seq<T>>, c: seq<T>)
    ensures c in Product(pools) <==> |c| == |pools| && forall i :: 0 <= i < |pools| ==> c[i] in pools[i]
  {
    if c in Product(pools) {
      ProductSound(pools, c);
    }
    if |c| == |pools| && forall i :: 0 <= i < |pools| ==> c[i] in pools[i] {
      ProductComplete(pools, c);
    }
  }

  lemma {:induction false} ProductSound<T>(pools: seq<seq<T>>, c: seq<T>)
    requires c in Product(pools)
    ensures |c| == |pools| && forall i :: 0 <= i < |pools| ==> c[i] in pools[i]
  {
    if pools == [] {
      assert Product(pools) == [[]];
    } else {
      var n := |pools|;
      var init := pools[..n - 1];
      ExtendMembers(Product(init), pools[n - 1], c);
      var prefix := c[..|c| - 1];
      ProductSound(init, prefix);
      forall i | 0 <= i < n
        ensures c[i] in pools[i]
      {
        if i < n - 1 {
          assert prefix[i] == c[i] && init[i] == pools[i];
        }
      }
    }
  }

  lemma {:induction false} ProductComplete<T>(pools: seq<seq<T>>, c: seq<T>)
    requires |c| == |pools| && forall i :: 0 <= i < |pools| ==> c[i] in pools[i]
    ensures c in Product(pools)
  {
    if pools == [] {
      assert c == [] && Product(pools) == [[]];
    } else {
      var n := |pools|;
      var init, prefix := pools[..n - 1], c[..n - 1];
      assert forall i :: 0 <= i < n - 1 ==> prefix[i] == c[i] && init[i] == pools[i];
      ProductComplete(init, prefix);
      ExtendMembers(Product(init), pools[n - 1], c);
    }
  }

  /** Index vectors that agree before position i and are smaller at i come first: lexicographic order. */
  lemma {:induction false} RankLexOrder<T>(pools: seq<seq<T>>, a: seq<nat>, b: seq<nat>, i: nat)
    requires InRange(pools, a) && InRange(pools, b)
    requires i < |pools|
    requires a[..i] == b[..i] && a[i] < b[i]
    ensures Rank(pools, a) < Rank(pools, b)
  {
    var n := |pools|;
    var init, aInit, bInit := pools[..n - 1], a[..n - 1], b[..n - 1];
    var l := |pools[n - 1]|;
    assert Rank(pools, a) == Rank(init, aInit) * l + a[n - 1];
    assert Rank(pools, b) == Rank(init, bInit) * l + b[n - 1];
    if i == n - 1 {
      assert aInit == a[..i] && bInit == b[..i];
    } else {
      assert InRange(init, aInit) && InRange(init, bInit);
      assert aInit[..i] == a[..i] && bInit[..i] == b[..i];
      RankLexOrder(init, aInit, bInit, i);
      var ra, rb := Rank(init, aInit), Rank(init, bInit);
      MulSucc(ra, l);
      MulMono(ra + 1, rb, l);
    }
  }

  /** The first odometer position has rank 0. */
  lemma {:induction false} RankZeros<T>(pools: seq<seq<T>>)
    ensures Rank(pools, Zeros(|pools|)) == 0
  {
    if pools != [] {
      var n := |pools|;
      assert Zeros(n)[..n - 1] == Zeros(n - 1);
      RankZeros(pools[..n - 1]);
    }
  }

  /** The last odometer position, every index at its maximum, has the last rank. */
  lemma {:induction false} RankAllMax<T>(pools: seq<seq<T>>, idx: seq<nat>)
    requires |idx| == |pools|
    requires forall j :: 0 <= j < |pools| ==> idx[j] + 1 == |pools[j]|
    ensures Rank(pools, idx) + 1 == Size(pools)
  {
    if pools != [] {
      var n := |pools|;
      var init, idxInit := pools[..n - 1], idx[..n - 1];
      RankAllMax(init, idxInit);
      var r, l := Rank(init, idxInit), |pools[n - 1]|;
      assert r * l + (l - 1) + 1 == (r + 1) * l;
    }
  }

  /** Incrementing position i and resetting every later (maximal) position adds one to the rank. */
  lemma {:induction false} RankCarry<T>(pools: seq<seq<T>>, idx: seq<nat>, next: seq<nat>, i: nat)
    requires InRange(pools, idx) && i < |pools| && |next| == |pools|
    requires idx[i] + 1 < |pools[i]|
    requires forall j :: i < j < |pools| ==> idx[j] + 1 == |pools[j]|
    requires next[..i] == idx[..i] && next[i] == idx[i] + 1
    requires forall j :: i < j < |pools| ==> next[j] == 0
    ensures Rank(pools, next) == Rank(pools, idx) + 1
  {
    var n := |pools|;
    var init, idxInit, nextInit := pools[..n - 1], idx[..n - 1], next[..n - 1];
    var l := |pools[n - 1]|;
    assert Rank(pools, idx) == Rank(init, idxInit) * l + idx[n - 1];
    assert Rank(pools, next) == Rank(init, nextInit) * l + next[n - 1];
    if i == n - 1 {
      assert nextInit == next[..i] && idxInit == idx[..i];
    } else {
      assert InRange(init, idxInit);
      assert nextInit[..i] == next[..i] && idxInit[..i] == idx[..i];
      assert forall j :: i < j < n - 1 ==> idxInit[j] + 1 == |init[j]| && nextInit[j] == 0;
      RankCarry(init, idxInit, nextInit, i);
      MulSucc(Rank(init, idxInit), l);
    }
  }

  lemma MulSucc(r: nat, l: nat)
    ensures (r + 1) * l == r * l + l
  {
  }

  lemma MulMono(a: nat, b: nat, l: nat)
    requires a <= b
    ensures a * l <= b * l
  {
  }

  /**
   * One step of the odometer: increment the last index that is not yet at
   * its maximum and reset every index after it; with no such index the
   * product is exhausted.
   */
  method Advance<T>(pools: seq<seq<T>>, idx: seq<nat>) returns (next: seq<nat>, more: bool)
    requires InRange(pools, idx)
    ensures more <==> Rank(pools, idx) + 1 < Size(pools)
    ensures more ==> InRange(pools, next) && Rank(pools, next) == Rank(pools, idx) + 1
  {
    next := idx;
    var i := |idx|;
    while i > 0
      invariant 0 <= i <= |idx| && |next| == |idx|
      invariant next[..i] == idx[..i]
      invariant forall j :: i <= j < |idx| ==> next[j] == 0 && idx[j] + 1 == |pools[j]|
    {
      i := i - 1;
      if idx[i] + 1 < |pools[i]| {
        next := next[i := idx[i] + 1];
        assert next[..i] == idx[..i];
        RankCarry(pools, idx, next, i);
        assert InRange(pools, next);
        RankBelowSize(pools, next);
        more := true;
        return;
      }
      next := next[i := 0];
    }
    RankAllMax(pools, idx);
    more := false;
  }
}
