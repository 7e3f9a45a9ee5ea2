/** Integer facts that the fixed-point proofs share: rounding, cancellation and powers of two. */
module Arithmetic {

  /** The least integer not below a / d. */
  function CeilDiv(a: nat, d: nat): (c: nat)
    requires d > 0
    ensures c * d >= a
    ensures a > 0 ==> c > 0 && (c - 1) * d < a
    ensures a == 0 ==> c == 0
  {
    CeilBounds(a, d);
    if a % d == 0 then a / d else a / d + 1
  }

  lemma CeilBounds(a: nat, d: nat)
    requires d > 0
    ensures a / d >= 0
    ensures a == 0 ==> a / d == 0 && a % d == 0
    ensures (a / d - 1) * d < (a / d) * d <= a < (a / d + 1) * d
    ensures a == (a / d) * d + a % d
    ensures a > 0 && a % d == 0 ==> a / d > 0
  {
    var q := a / d;
    assert (q + 1) * d == q * d + d && (q - 1) * d == q * d - d;
  }

  lemma DivBounds(a: int, d: int)
    requires d > 0
    ensures (a / d) * d <= a < (a / d) * d + d
    ensures a == (a / d) * d + a % d
  {
  }

  lemma MulLe(x: int, y: int, k: int)
    requires x <= y && k >= 0
    ensures x * k <= y * k
    ensures k * x <= k * y
  {
  }

  lemma MulLt(x: int, y: int, k: int)
    requires x < y && k > 0
    ensures x * k < y * k
    ensures k * x < k * y
  {
  }

  /** Products of ordered non-negative factors are ordered. */
  lemma MulLeMul(a: int, b: int, c: int, d: int)
    requires 0 <= a <= b && 0 <= c <= d
    ensures a * c <= b * d
  {
    MulLe(a, b, c);
    MulLe(c, d, b);
  }

  lemma CancelLe(x: int, y: int, k: int)
    requires k > 0 && x * k <= y * k
    ensures x <= y
  {
    if x > y { MulLt(y, x, k); }
  }

  lemma CancelLt(x: int, y: int, k: int)
    requires k > 0 && x * k < y * k
    ensures x < y
  {
    if x >= y { MulLe(y, x, k); }
  }

  /** Floor division is the greatest q with q * d <= a. */
  lemma DivIs(a: int, d: int, q: int)
    requires d > 0 && q * d <= a < q * d + d
    ensures a / d == q
  {
    DivBounds(a, d);
    var k := a / d;
    if k < q { MulLe(k + 1, q, d); }
    if k > q { MulLe(q + 1, k, d); }
  }

  /** a / d <= q exactly when a < (q + 1) * d. */
  lemma DivLe(a: int, d: int, q: int)
    requires d > 0
    ensures a / d <= q <==> a < q * d + d
    ensures q <= a / d <==> q * d <= a
  {
    DivBounds(a, d);
    var k := a / d;
    if k <= q { MulLe(k, q, d); }
    if k > q { MulLe(q + 1, k, d); }
    if q <= k { MulLe(q, k, d); }
    if q > k { MulLe(k + 1, q, d); }
  }

  lemma DivMono(a: int, b: int, d: int)
    requires d > 0 && a <= b
    ensures a / d <= b / d
  {
    DivBounds(a, d);
    DivLe(b, d, a / d);
  }

  /** CeilDiv(a, d) <= q exactly when a <= q * d. */
  lemma CeilLe(a: nat, d: nat, q: nat)
    requires d > 0
    ensures CeilDiv(a, d) <= q <==> a <= q * d
  {
    var c := CeilDiv(a, d);
    if c <= q { MulLe(c, q, d); }
    if c > q && a > 0 { MulLe(q, c - 1, d); }
  }

  lemma QuotientAtMost(n: nat, d: nat)
    requires d > 0
    ensures 0 <= n / d <= n
  {
    CeilBounds(n, d);
    MulLe(1, d, n / d);
  }

  lemma Regroup(l: int, e: int, d: int)
    ensures (l * e) * d == l * (d * e) == (l * d) * e
  {
  }

  lemma MulPositive(d: int, e: int)
    requires d > 0 && e > 0
    ensures d * e > 0
  {
  }

  /** Rounding up twice is rounding up once by the product. */
  lemma CeilCeil(x: nat, d: nat, e: nat)
    requires d > 0 && e > 0
    ensures d * e > 0
    ensures CeilDiv(CeilDiv(x, d), e) == CeilDiv(x, d * e)
  {
    MulPositive(d, e);
    var de := d * e;
    var inner := CeilDiv(x, d);
    var l := CeilDiv(inner, e);
    var r := CeilDiv(x, de);
    assert r <= l by {
      MulLe(inner, l * e, d);
      Regroup(l, e, d);
      CeilLe(x, de, l);
    }
    assert l <= r by {
      Regroup(r, e, d);
      CeilLe(x, d, r * e);
      CeilLe(inner, e, r);
    }
  }

  /** Rounding down twice is rounding down once by the product. */
  lemma FloorFloor(x: nat, d: nat, e: nat)
    requires d > 0 && e > 0
    ensures d * e > 0
    ensures (x / d) / e == x / (d * e)
  {
    MulPositive(d, e);
    var de := d * e;
    var l := (x / d) / e;
    var r := x / de;
    assert l <= r by {
      Regroup(l, e, d);
      DivLe(x / d, e, l);
      DivLe(x, d, l * e);
      DivLe(x, de, l);
    }
    assert r <= l by {
      Regroup(r, e, d);
      DivLe(x, de, r);
      DivLe(x, d, r * e);
      DivLe(x / d, e, r);
    }
  }

  /** 2 to the n. */
  function Pow2(n: nat): (p: nat)
    ensures p > 0
  {
    if n == 0 then 1 else 2 * Pow2(n - 1)
  }

  lemma {:induction false} Pow2Add(m: nat, n: nat)
    ensures Pow2(m + n) == Pow2(m) * Pow2(n)
  {
    if m == 0 {
    } else {
      Pow2Add(m - 1, n);
    }
  }

  lemma {:induction false} Pow2Mono(m: nat, n: nat)
    requires m <= n
    ensures Pow2(m) <= Pow2(n)
  {
    if m == n {
    } else {
      Pow2Mono(m, n - 1);
    }
  }

  lemma ShiftBound(x: nat, a: nat, b: nat)
    requires x < Pow2(a)
    ensures 0 <= x * Pow2(b) < Pow2(a + b)
    ensures x > 0 ==> x * Pow2(b) > 0
  {
    Pow2Add(a, b);
    MulLt(x, Pow2(a), Pow2(b));
    MulLe(0, x, Pow2(b));
  }

  /** A multiple of m stays one when multiplied, and remainders ignore it. */
  lemma ModAddMultiple(x: int, k: int, m: int)
    requires m > 0
    ensures (x + k * m) % m == x % m
  {
    DivBounds(x, m);
    DivIs(x + k * m, m, x / m + k);
    DivBounds(x + k * m, m);
  }

  lemma ModSmall(x: int, m: int)
    requires 0 <= x < m
    ensures x % m == x && x / m == 0
  {
    DivIs(x, m, 0);
    DivBounds(x, m);
  }

  /** x and x % m differ by a multiple of m. */
  lemma ModIs(x: int, m: int, r: int, k: int)
    requires m > 0 && 0 <= r < m && x == r + k * m
    ensures x % m == r
  {
    ModAddMultiple(r, k, m);
    ModSmall(r, m);
  }
}
