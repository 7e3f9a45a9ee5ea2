/** Integer powers of positive reals: the yardstick for the tick and logarithm proofs. */
module RealPowers {

  function RPow(b: real, n: nat): real
  {
    if n == 0 then 1.0 else b * RPow(b, n - 1)
  }

  /** b to any integer power. */
  function ZPow(b: real, z: int): real
    requires b > 0.0
  {
    RPowPositive(b, if z >= 0 then z else -z);
    if z >= 0 then RPow(b, z) else 1.0 / RPow(b, -z)
  }

  lemma {:induction false} RPowPositive(b: real, n: nat)
    requires b > 0.0
    ensures RPow(b, n) > 0.0
  {
    if n == 0 {
    } else {
      RPowPositive(b, n - 1);
    }
  }

  lemma {:induction false} RPowAdd(b: real, m: nat, n: nat)
    ensures RPow(b, m + n) == RPow(b, m) * RPow(b, n)
  {
    if m == 0 {
    } else {
      RPowAdd(b, m - 1, n);
      Assoc(b, RPow(b, m - 1), RPow(b, n));
    }
  }

  lemma Assoc(x: real, y: real, z: real)
    ensures x * (y * z) == (x * y) * z
  {
  }

  lemma RMulLe(x: real, y: real, k: real)
    requires x <= y && k >= 0.0
    ensures x * k <= y * k && k * x <= k * y
  {
  }

  lemma RMulLt(x: real, y: real, k: real)
    requires x < y && k > 0.0
    ensures x * k < y * k && k * x < k * y
  {
  }

  lemma RMulLeMul(a: real, b: real, c: real, d: real)
    requires 0.0 <= a <= b && 0.0 <= c <= d
    ensures 0.0 <= a * c <= b * d
  {
    RMulLe(a, b, c);
    RMulLe(c, d, b);
  }

  lemma Cancel(x: real, y: real, k: real)
    requires k > 0.0 && x * k <= y * k
    ensures x <= y
  {
    if x > y { RMulLt(y, x, k); }
  }

  lemma RQuotient(x: real, y: real)
    requires y > 0.0
    ensures x / y * y == x
  {
  }

  /** A product, by bounds on one factor. */
  lemma Bracket(lo: real, a: real, hi: real, b: real, ab: real)
    requires lo <= a <= hi && b >= 0.0 && ab == a * b
    ensures lo * b <= ab <= hi * b
  {
    RMulLe(lo, a, b);
    RMulLe(a, hi, b);
  }

  lemma {:induction false} RPowMono(b: real, c: real, n: nat)
    requires 0.0 <= b <= c
    ensures 0.0 <= RPow(b, n) <= RPow(c, n)
  {
    if n == 0 {
    } else {
      RPowMono(b, c, n - 1);
      RMulLeMul(b, c, RPow(b, n - 1), RPow(c, n - 1));
    }
  }

  lemma Inverse(x: real)
    requires x > 0.0
    ensures 1.0 / x > 0.0 && (1.0 / x) * x == 1.0
  {
  }

  lemma ZPowPositive(b: real, z: int)
    requires b > 0.0
    ensures ZPow(b, z) > 0.0
  {
    RPowPositive(b, if z >= 0 then z else -z);
    Inverse(RPow(b, if z >= 0 then z else -z));
  }

  lemma ZPowNext(b: real, z: int)
    requires b > 0.0
    ensures ZPow(b, z + 1) == b * ZPow(b, z)
  {
    if z < 0 {
      var p := RPow(b, -z - 1);
      RPowPositive(b, -z - 1);
      RPowPositive(b, -z);
      CancelInverse(b, p);
    }
  }

  lemma CancelInverse(b: real, p: real)
    requires b > 0.0 && p > 0.0 && b * p > 0.0
    ensures 1.0 / p == b * (1.0 / (b * p))
  {
    Inverse(p);
    Inverse(b * p);
    Unique(p, 1.0 / p, b * (1.0 / (b * p)));
  }

  lemma Unique(p: real, x: real, y: real)
    requires p > 0.0 && x * p == 1.0 && y * p == 1.0
    ensures x == y
  {
    if x < y { RMulLt(x, y, p); }
    if x > y { RMulLt(y, x, p); }
  }

  lemma {:induction false} ZPowAddNat(b: real, z: int, n: nat)
    requires b > 0.0
    ensures ZPow(b, z + n) == ZPow(b, z) * ZPow(b, n)
  {
    hide ZPow;
    ZPowZero(b);
    if n == 0 {
    } else {
      ZPowAddNat(b, z, n - 1);
      ZPowNext(b, z + n - 1);
      ZPowNext(b, n - 1);
      AddStep(b, ZPow(b, z + n), ZPow(b, z + n - 1), ZPow(b, z), ZPow(b, n), ZPow(b, n - 1));
    }
  }

  lemma ZPowZero(b: real)
    requires b > 0.0
    ensures ZPow(b, 0) == 1.0
  {
  }

  lemma AddStep(b: real, whole: real, before: real, x: real, y: real, z: real)
    requires whole == b * before && y == b * z && before == x * z
    ensures whole == x * y
  {
    Rotate(b, x, z);
  }

  lemma Rotate(x: real, y: real, z: real)
    ensures x * (y * z) == y * (x * z)
  {
  }

  /** Exponents add, whatever their signs. */
  lemma ZPowAdd(b: real, y: int, z: int)
    requires b > 0.0
    ensures ZPow(b, y + z) == ZPow(b, y) * ZPow(b, z)
  {
    if z >= 0 {
      ZPowAddNat(b, y, z);
    } else {
      ZPowAddNat(b, y + z, -z);
      ZPowAddNat(b, z, -z);
      ZPowPositive(b, -z);
      DivideOut(ZPow(b, y + z), ZPow(b, y), ZPow(b, z), ZPow(b, -z));
    }
  }

  lemma DivideOut(whole: real, x: real, y: real, k: real)
    requires k > 0.0 && x == whole * k && y * k == 1.0
    ensures whole == x * y
  {
    Assoc(whole, k, y);
  }

  /** A power of a power multiplies the exponents. */
  lemma {:induction false} ZPowMul(b: real, z: int, n: nat)
    requires b > 0.0
    ensures ZPow(b, z * n) == RPow(ZPow(b, z), n)
  {
    hide ZPow;
    if n == 0 {
      assert z * n == 0;
      ZPowZero(b);
    } else {
      ZPowPositive(b, z);
      ZPowMul(b, z, n - 1);
      assert z * n == z * (n - 1) + z;
      ZPowAdd(b, z * (n - 1), z);
    }
  }

  lemma {:induction false} RPowGrows(b: real, n: nat)
    requires b > 1.0 && n > 0
    ensures RPow(b, n) > 1.0
  {
    if n <= 1 {
    } else {
      RPowGrows(b, n - 1);
      RMulLt(1.0, RPow(b, n - 1), b);
    }
  }

  /** Powers of a base above one are strictly increasing in the exponent. */
  lemma ZPowStrict(b: real, y: int, z: int)
    requires b > 1.0 && y < z
    ensures ZPow(b, y) < ZPow(b, z)
  {
    ZPowAdd(b, y, z - y);
    ZPowPositive(b, y);
    RPowGrows(b, z - y);
    RMulLt(1.0, ZPow(b, z - y), ZPow(b, y));
  }

  lemma ZPowMono(b: real, y: int, z: int)
    requires b > 1.0 && y <= z
    ensures ZPow(b, y) <= ZPow(b, z)
  {
    if y < z { ZPowStrict(b, y, z); }
  }

  /** The order of powers is the order of exponents. */
  lemma ZPowReflects(b: real, y: int, z: int)
    requires b > 1.0 && ZPow(b, y) <= ZPow(b, z)
    ensures y <= z
  {
    if y > z { ZPowStrict(b, z, y); }
  }

  // ------------------------------------------------------- close to one

  /** x is within e of one. */
  predicate Near(x: real, e: real) { 1.0 - e <= x <= 1.0 + e }

  lemma SmallProduct(d: real, e: real)
    requires 0.0 <= d <= 0.001 && 0.0 <= e
    ensures 0.0 <= d * e && 1000.0 * (d * e) <= e
  {
    assert (1.0 - 1000.0 * d) * e >= 0.0;
  }

  lemma Expand(d: real, e: real)
    ensures (1.0 + d) * (1.0 + e) == 1.0 + d + e + d * e
    ensures (1.0 - d) * (1.0 - e) == 1.0 - d - e + d * e
  {
  }

  lemma AddErrors(xy: real, d: real, e: real, de: real)
    requires 0.0 <= d && 0.0 <= e && 0.0 <= de && 1000.0 * de <= e
    requires 1.0 - d - e + de <= xy <= 1.0 + d + e + de
    ensures Near(xy, (d + e) * 1.001)
  {
  }

  /** Relative errors add, up to one part in a thousand of themselves. */
  lemma NearMul(x: real, y: real, d: real, e: real)
    requires Near(x, d) && Near(y, e) && 0.0 <= d <= 0.001 && 0.0 <= e <= 0.001
    ensures Near(x * y, (d + e) * 1.001)
  {
    RMulLeMul(1.0 - d, x, 1.0 - e, y);
    RMulLeMul(x, 1.0 + d, y, 1.0 + e);
    Expand(d, e);
    SmallProduct(d, e);
    AddErrors(x * y, d, e, d * e);
  }

  lemma NearSquare(x: real, d: real)
    requires Near(x, d) && 0.0 <= d <= 0.001
    ensures Near(x * x, d * 2.002)
  {
    NearMul(x, x, d, d);
  }

  // --------------------------------------------------------------- products

  lemma {:induction false} RPowProduct(a: real, b: real, n: nat)
    ensures RPow(a * b, n) == RPow(a, n) * RPow(b, n)
  {
    if n == 0 {
    } else {
      RPowProduct(a, b, n - 1);
      assert RPow(a * b, n) == (a * b) * RPow(a * b, n - 1);
      Shuffle(a, b, RPow(a, n - 1), RPow(b, n - 1));
    }
  }

  lemma Shuffle(a: real, b: real, x: real, y: real)
    ensures (a * b) * (x * y) == (a * x) * (b * y)
  {
    Assoc(a * b, x, y);
    Assoc(a, b, x);
    Assoc(a, x, b);
    Assoc(a * x, b, y);
  }

  /** An even power is a power of the square. */
  lemma {:induction false} RPowSquare(x: real, n: nat)
    ensures RPow(x, 2 * n) == RPow(x * x, n)
  {
    if n == 0 {
    } else {
      RPowSquare(x, n - 1);
      assert RPow(x, 2 * n) == x * RPow(x, 2 * n - 1);
      assert RPow(x, 2 * n - 1) == x * RPow(x, 2 * n - 2);
      Assoc(x, x, RPow(x, 2 * n - 2));
    }
  }

  /** (1 + d)^n is at most 1 + 2nd while nd is at most a half. */
  lemma {:induction false} PowerAbove(d: real, n: nat)
    requires d >= 0.0 && n as real * d <= 0.5
    ensures RPow(1.0 + d, n) <= 1.0 + 2.0 * (n as real * d)
  {
    if n == 0 {
    } else {
      var nd := (n - 1) as real * d;
      OneMoreTimes(n, d);
      PowerAbove(d, n - 1);
      GrowAbove(RPow(1.0 + d, n - 1), nd, d);
    }
  }

  lemma OneMoreTimes(n: nat, d: real)
    requires n > 0 && d >= 0.0
    ensures n as real * d == (n - 1) as real * d + d && (n - 1) as real * d >= 0.0
  {
    var m := (n - 1) as real;
    assert (m + 1.0) * d == m * d + d;
    RMulLe(0.0, m, d);
  }

  lemma GrowAbove(p: real, nd: real, d: real)
    requires p <= 1.0 + 2.0 * nd && 0.0 <= nd <= 0.5 && d >= 0.0
    ensures (1.0 + d) * p <= 1.0 + 2.0 * (nd + d)
  {
    RMulLe(p, 1.0 + 2.0 * nd, 1.0 + d);
    Expand(d, 2.0 * nd);
    RMulLe(2.0 * nd, 1.0, d);
  }

  /** Bernoulli: (1 - d)^n is at least 1 - nd. */
  lemma {:induction false} PowerBelow(d: real, n: nat)
    requires 0.0 <= d <= 1.0
    ensures RPow(1.0 - d, n) >= 1.0 - n as real * d
  {
    if n == 0 {
    } else {
      OneMoreTimes(n, d);
      PowerBelow(d, n - 1);
      ShrinkBelow(RPow(1.0 - d, n - 1), (n - 1) as real * d, d);
    }
  }

  lemma ShrinkBelow(p: real, nd: real, d: real)
    requires 1.0 - nd <= p && nd >= 0.0 && 0.0 <= d <= 1.0
    ensures (1.0 - d) * p >= 1.0 - (nd + d)
  {
    RMulLe(1.0 - nd, p, 1.0 - d);
    Expand(-d, -nd);
    RMulLeMul(0.0, nd, 0.0, d);
  }

  /** Inequalities between powers survive raising both sides. */
  lemma Raise(b: real, y: int, c: real, z: int, n: nat)
    requires b > 0.0 && c > 0.0 && ZPow(b, y) <= ZPow(c, z)
    ensures ZPow(b, y * n) <= ZPow(c, z * n)
  {
    ZPowMul(b, y, n);
    ZPowMul(c, z, n);
    ZPowPositive(b, y);
    RPowMono(ZPow(b, y), ZPow(c, z), n);
  }

  lemma NegatePowers(b: real, y: int, c: real, z: int)
    requires b > 0.0 && c > 0.0 && ZPow(b, y) <= ZPow(c, z)
    ensures ZPow(c, -z) <= ZPow(b, -y)
  {
    ZPowNegate(b, y);
    ZPowNegate(c, z);
    ReciprocalOrder(ZPow(b, y), ZPow(c, z), ZPow(b, -y), ZPow(c, -z));
  }

  lemma ZPowNegate(b: real, y: int)
    requires b > 0.0
    ensures ZPow(b, y) * ZPow(b, -y) == 1.0 && ZPow(b, y) > 0.0 && ZPow(b, -y) > 0.0
  {
    ZPowAdd(b, y, -y);
    ZPowPositive(b, y);
    ZPowPositive(b, -y);
  }

  lemma ReciprocalOrder(x: real, y: real, ix: real, iy: real)
    requires 0.0 < x <= y && x * ix == 1.0 && y * iy == 1.0 && iy > 0.0
    ensures iy <= ix
  {
    if ix < iy {
      RMulLt(ix, iy, x);
      RMulLe(x, y, iy);
    }
  }
}
