/** Ceiling division on unbounded naturals, the arithmetic behind both the
    work-group count of the launch geometry and the element count the swap
    test passes. */
module CeilDivision {

  /** Ceiling of `n / d` on unbounded naturals: the reference definition of
      "enough groups of `d` to hold `n` items". */
  function CeilDiv(n: nat, d: nat): nat
    requires d > 0
  {
    (n + d - 1) / d
  }

  /** The groups cover every item: `CeilDiv(n, d) * d >= n`. */
  lemma CeilDivCovers(n: nat, d: nat)
    requires d > 0
    ensures CeilDiv(n, d) * d >= n
  {
    var c := CeilDiv(n, d);
    assert n + d - 1 == c * d + (n + d - 1) % d;
  }

  /** There is no surplus group: the last group starts below `n`. */
  lemma CeilDivNoSurplus(n: nat, d: nat)
    requires d > 0 && n > 0
    ensures CeilDiv(n, d) > 0 && (CeilDiv(n, d) - 1) * d < n
  {
    var c := CeilDiv(n, d);
    assert n + d - 1 == c * d + (n + d - 1) % d;
    assert (c - 1) * d == c * d - d;
  }

  /** No group at all exactly when there is nothing to do. */
  lemma CeilDivZero(n: nat, d: nat)
    requires d > 0
    ensures CeilDiv(n, d) == 0 <==> n == 0
  {
    if n > 0 {
      CeilDivNoSurplus(n, d);
    }
  }

  /** A group index `q` starts below `n` exactly when `q < CeilDiv(n, d)`. */
  lemma CeilDivCounts(q: nat, n: nat, d: nat)
    requires d > 0
    ensures q * d < n <==> q < CeilDiv(n, d)
  {
    var c := CeilDiv(n, d);
    if q * d < n {
      if q >= c {
        MulMonotone(c, q, d);
        CeilDivCovers(n, d);
      }
    } else if q < c {
      MulMonotone(q, c - 1, d);
      CeilDivNoSurplus(n, d);
    }
  }

  /** More items never need fewer groups. */
  lemma CeilDivMonotone(n1: nat, n2: nat, d: nat)
    requires d > 0 && n1 <= n2
    ensures CeilDiv(n1, d) <= CeilDiv(n2, d)
  {
    var c1 := CeilDiv(n1, d);
    if c1 > 0 {
      CeilDivNoSurplus(n1, d);
      CeilDivCounts(c1 - 1, n2, d);
    }
  }

  lemma MulMonotone(a: nat, b: nat, d: nat)
    requires a <= b
    ensures a * d <= b * d
  {
    assert b * d == a * d + (b - a) * d;
  }
}
