/** The few non-linear facts that the ring buffers and envelopes of this project rest on. */
module Arithmetic {

  /** Two to the power k. */
  function Power2(k: nat): (p: nat)
    ensures p > 0
  {
    if k == 0 then 1 else 2 * Power2(k - 1)
  }

  lemma {:induction false} PowerSum(a: nat, b: nat)
    ensures Power2(a + b) == Power2(a) * Power2(b)
    decreases b
  {
    if b > 0 {
      PowerSum(a, b - 1);
      assert Power2(a) * (2 * Power2(b - 1)) == 2 * (Power2(a) * Power2(b - 1));
    }
  }

  lemma {:induction false} ProductOfNaturals(a: nat, b: nat)
    ensures a * b >= 0
  {
    if a > 0 {
      ProductOfNaturals(a - 1, b);
      assert a * b == (a - 1) * b + b;
    }
  }

  lemma ProductMonotone(a: int, b: int, c: nat)
    requires a <= b
    ensures a * c <= b * c
  {
    ProductOfNaturals(b - a, c);
    assert b * c - a * c == (b - a) * c;
  }

  /** Quotient and remainder are determined by their defining equation. */
  lemma DivModUnique(x: int, n: int, q: int, r: int)
    requires n > 0 && 0 <= r < n && x == q * n + r
    ensures x / n == q && x % n == r
  {
    assert x == (x / n) * n + x % n;
    var d := q - x / n;
    assert d * n == x % n - r;
    if d > 0 {
      ProductMonotone(1, d, n);
    } else if d < 0 {
      ProductMonotone(d, -1, n);
    }
  }

  lemma QuotientBelow(x: nat, n: nat, bound: nat)
    requires n > 0 && x < bound * n
    ensures 0 <= x / n < bound
  {
    assert x == (x / n) * n + x % n;
    if x / n >= bound {
      ProductMonotone(bound, x / n, n);
    }
  }

  /** Moving one place forward on a ring of n places. */
  lemma NextOnRing(k: nat, n: nat)
    requires k < n
    ensures (k + 1) % n == if k + 1 == n then 0 else k + 1
  {
    if k + 1 == n {
      DivModUnique(k + 1, n, 1, 0);
    } else {
      DivModUnique(k + 1, n, 0, k + 1);
    }
  }

  /** Moving one place backward on a ring of n places. */
  lemma PreviousOnRing(k: nat, n: nat)
    requires k < n
    ensures (k + n - 1) % n == if k == 0 then n - 1 else k - 1
  {
    if k == 0 {
      DivModUnique(n - 1, n, 0, n - 1);
    } else {
      DivModUnique(k + n - 1, n, 1, k - 1);
    }
  }

  /** Places less than a whole turn apart on a ring of n places are different. */
  lemma RingApart(start: nat, i: nat, j: nat, n: nat)
    requires i < j < i + n
    ensures (start + i) % n != (start + j) % n
  {
    var q, r := (start + i) / n, (start + i) % n;
    assert start + i == q * n + r;
    if r + (j - i) < n {
      DivModUnique(start + j, n, q, r + (j - i));
    } else {
      assert start + j == (q + 1) * n + (r + (j - i) - n);
      DivModUnique(start + j, n, q + 1, r + (j - i) - n);
    }
  }

  lemma RealProduct(a: real, b: real)
    requires a >= 0.0 && b >= 0.0
    ensures a * b >= 0.0
  {
  }

  lemma RealProductMonotone(a: real, b: real, c: real)
    requires a <= b && c >= 0.0
    ensures a * c <= b * c
  {
    RealProduct(b - a, c);
    assert b * c - a * c == (b - a) * c;
  }

  lemma RealProductStrict(a: real, b: real, c: real)
    requires a > b && c > 0.0
    ensures a * c > b * c
  {
    assert (a - b) * c > 0.0;
  }

  lemma RealCancel(a: real, b: real, c: real)
    requires a * c <= b * c && c > 0.0
    ensures a <= b
  {
    if a > b {
      RealProductStrict(a, b, c);
    }
  }
}
