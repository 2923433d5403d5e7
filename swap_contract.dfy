/** The strided swap of two vectors, as its unit test observes it: element
    `j` of each view lives at physical index `j * strd`, and the first
    `count` elements are exchanged between the two buffers. */
module Blas1Swap {
  import opened CeilDivision

  /** Physical index `i` is reached by one of the first `count` logical
      indices of a view with stride `strd`. */
  predicate Touched(i: nat, count: nat, strd: nat)
    requires strd > 0
  {
    i % strd == 0 && i / strd < count
  }

  /** Extending the logical range by one index touches exactly one more
      physical position, `count * strd`. */
  lemma TouchedStep(i: nat, count: nat, strd: nat)
    requires strd > 0
    ensures Touched(i, count + 1, strd) <==> Touched(i, count, strd) || i == count * strd
  {
    if i == count * strd {
      assert (count * strd) / strd == count && (count * strd) % strd == 0 by {
        DivMulExact(count, strd);
      }
    }
  }

  lemma DivMulExact(q: nat, d: nat)
    requires d > 0
    ensures (q * d) / d == q && (q * d) % d == 0
  {
    var q', r' := (q * d) / d, (q * d) % d;
    assert q * d == q' * d + r' && 0 <= r' < d;
    if q' < q {
      MulMonotone(q' + 1, q, d);
    } else if q' > q {
      MulMonotone(q + 1, q', d);
    }
  }

  /** Advancing the loop of `StridedSwap` from `j` to `j + 1` touches one
      new position, `j * strd`, which lies inside the buffers. */
  lemma TouchedAdvance(j: nat, count: nat, strd: nat, n: nat)
    requires strd > 0 && j < count && (count - 1) * strd < n
    ensures j * strd < n && !Touched(j * strd, j, strd)
    ensures forall i :: Touched(i, j + 1, strd) <==> Touched(i, j, strd) || i == j * strd
  {
    MulMonotone(j, count - 1, strd);
    DivMulExact(j, strd);
    forall i: nat
      ensures Touched(i, j + 1, strd) <==> Touched(i, j, strd) || i == j * strd
    {
      TouchedStep(i, j, strd);
    }
  }

  /** Exchanging one position between two sequences keeps their combined
      multiset of values. */
  lemma ExchangeKeepsValues<T>(xs: seq<T>, ys: seq<T>, p: nat)
    requires p < |xs| && p < |ys|
    ensures multiset(xs[p := ys[p]]) + multiset(ys[p := xs[p]]) == multiset(xs) + multiset(ys)
  {
  }

  /** The exchange: for `j < count`, `x[j*strd]` and `y[j*strd]` trade
      values; every other position keeps its value, and no value is lost
      or invented across the two buffers. */
  method StridedSwap<T>(x: array<T>, y: array<T>, count: nat, strd: nat)
    requires x != y && x.Length == y.Length
    requires strd > 0
    requires count > 0 ==> (count - 1) * strd < x.Length
    modifies x, y
    ensures forall i :: 0 <= i < x.Length ==>
              x[i] == (if Touched(i, count, strd) then old(y[i]) else old(x[i]))
    ensures forall i :: 0 <= i < y.Length ==>
              y[i] == (if Touched(i, count, strd) then old(x[i]) else old(y[i]))
    ensures multiset(x[..]) + multiset(y[..]) == old(multiset(x[..]) + multiset(y[..]))
  {
    var j := 0;
    while j < count
      invariant 0 <= j <= count
      invariant forall i :: 0 <= i < x.Length ==>
                  x[i] == (if Touched(i, j, strd) then old(y[i]) else old(x[i]))
      invariant forall i :: 0 <= i < y.Length ==>
                  y[i] == (if Touched(i, j, strd) then old(x[i]) else old(y[i]))
      invariant multiset(x[..]) + multiset(y[..]) == old(multiset(x[..]) + multiset(y[..]))
    {
      var p := j * strd;
      TouchedAdvance(j, count, strd, x.Length);
      ghost var xs, ys := x[..], y[..];
      x[p], y[p] := y[p], x[p];
      assert x[..] == xs[p := ys[p]] && y[..] == ys[p := xs[p]];
      ExchangeKeepsValues(xs, ys, p);
      j := j + 1;
    }
  }

  /** With `count = (size + strd - 1) / strd`, as the test passes it, the
      touched positions below `size` are exactly the multiples of `strd`. */
  lemma TestCountTouchesMultiples(i: nat, size: nat, strd: nat)
    requires strd > 0 && i < size
    ensures Touched(i, CeilDiv(size, strd), strd) <==> i % strd == 0
  {
    if i % strd == 0 {
      var q := i / strd;
      assert q * strd == i;
      CeilDivCounts(q, size, strd);
    }
  }

  /** That count never reaches past the end of a vector of `size` elements. */
  lemma TestCountInBounds(size: nat, strd: nat)
    requires strd > 0
    ensures CeilDiv(size, strd) > 0 ==> (CeilDiv(size, strd) - 1) * strd < size
  {
    CeilDivZero(size, strd);
    if size > 0 {
      CeilDivNoSurplus(size, strd);
    }
  }

  /** The call and the checks of the swap unit test: two vectors of the same
      size, one stride for both. Positions that are multiples of `strd` are
      exchanged, all others are untouched; with `strd == 1` the vectors are
      exchanged completely. */
  method SwapAsTested<T>(x: array<T>, y: array<T>, strd: nat)
    requires x != y && x.Length == y.Length
    requires strd > 0
    modifies x, y
    ensures forall i :: 0 <= i < x.Length && i % strd == 0 ==> x[i] == old(y[i]) && y[i] == old(x[i])
    ensures forall i :: 0 <= i < x.Length && i % strd != 0 ==> x[i] == old(x[i]) && y[i] == old(y[i])
    ensures strd == 1 ==> x[..] == old(y[..]) && y[..] == old(x[..])
    ensures multiset(x[..]) + multiset(y[..]) == old(multiset(x[..]) + multiset(y[..]))
  {
    var size := x.Length;
    var count := (size + strd - 1) / strd;
    TestCountInBounds(size, strd);
    StridedSwap(x, y, count, strd);
    forall i | 0 <= i < size
      ensures Touched(i, count, strd) <==> i % strd == 0
    {
      TestCountTouchesMultiples(i, size, strd);
    }
  }
}
