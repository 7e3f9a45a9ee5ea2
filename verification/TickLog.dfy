/** `tick_math.rs`, prices to ticks: a binary logarithm by repeated squaring, then a change of base. */
module TickLog {
  import opened Arithmetic
  import opened Words
  import opened RealPowers
  import opened TickMath

  // ------------------------------------------- logarithms by repeated squaring

  /** w exceeds one by at most e. */
  predicate Over(w: real, e: real) { 1.0 <= w <= 1.0 + e }

  lemma OverMul(x: real, y: real, d: real, e: real)
    requires Over(x, d) && Over(y, e) && 0.0 <= d <= 0.001 && 0.0 <= e <= 0.01
    ensures Over(x * y, d + 1.001 * e)
  {
    RMulLeMul(1.0, x, 1.0, y);
    RMulLeMul(x, 1.0 + d, y, 1.0 + e);
    Expand(d, e);
    SmallProduct(d, e);
    OverSum(x * y, d, e, d * e);
  }

  lemma OverSum(xy: real, d: real, e: real, de: real)
    requires 1.0 <= xy <= 1.0 + d + e + de && 1000.0 * de <= e
    ensures Over(xy, d + 1.001 * e)
  {
  }

  /** x is between k and (1 + e) * k. */
  predicate Tracks(x: real, k: real, e: real) { k <= x <= k * (1.0 + e) }

  /** x is rho * p, to within a factor 1 + e. */
  predicate Logs(x: real, p: real, rho: real, e: real) { Tracks(x, rho * p, e) }

  /** rho2 is the square of rho divided by two, truncated. */
  predicate Halves(rho: real, two: real, rho2: real, d: real) { Tracks(rho * rho, rho2 * two, d) }

  predicate Doubles(p: real, two: real, p2: real) { p2 == (p * p) * two }

  lemma TracksBy(x: real, k: real, w: real, e: real)
    requires x == k * w && k >= 0.0 && Over(w, e)
    ensures Tracks(x, k, e)
  {
    RMulLe(1.0, w, k);
    RMulLe(w, 1.0 + e, k);
  }

  lemma TracksRatio(x: real, k: real, e: real) returns (w: real)
    requires Tracks(x, k, e) && k > 0.0
    ensures x == k * w && Over(w, e)
  {
    w := x / k;
    assert x == k * w;
    if w < 1.0 { RMulLt(w, 1.0, k); }
    if w > 1.0 + e { RMulLt(1.0 + e, w, k); }
  }

  /** A number and its mantissa are squared, and the mantissa divided by `two` and truncated: it
      still never overestimates, and the error at most triples, roughly. */
  lemma Advance(x: real, p: real, rho: real, e: real, two: real, rho2: real, d: real, x2: real, p2: real)
    requires Logs(x, p, rho, e) && p > 0.0 && rho >= 1.0 && rho2 >= 1.0 && two >= 1.0
    requires 0.0 <= d <= e <= 0.001
    requires Halves(rho, two, rho2, d)
    requires IsProduct(x2, x, x) && Doubles(p, two, p2)
    ensures Logs(x2, p2, rho2, 3.1 * e)
  {
    hide Over, Tracks, IsProduct, Doubles;
    RMulLt(0.0, rho, p);
    var w := TracksRatio(x, rho * p, e);
    RMulLeMul(1.0, rho2, 1.0, two);
    var v := TracksRatio(rho * rho, rho2 * two, d);
    var u := OverCube(w, v, d, e);
    Rearrange(x, p, rho, two, rho2, w, v, x2, p2, u);
    TracksBy(x2, rho2 * p2, u, 3.1 * e);
  }

  lemma OverCube(w: real, v: real, d: real, e: real) returns (u: real)
    requires Over(w, e) && Over(v, d) && 0.0 <= d <= e <= 0.001
    ensures u == v * (w * w) && Over(u, 3.1 * e)
  {
    var ww := w * w;
    OverMul(w, w, e, e);
    OverMul(v, ww, d, e + 1.001 * e);
    u := v * ww;
    OverWeaken(u, d, e);
  }

  lemma OverWeaken(u: real, d: real, e: real)
    requires Over(u, d + 1.001 * (e + 1.001 * e)) && 0.0 <= d <= e
    ensures Over(u, 3.1 * e)
  {
  }

  lemma Rearrange(x: real, p: real, rho: real, two: real, rho2: real, w: real, v: real, x2: real, p2: real, u: real)
    requires x == (rho * p) * w && rho * rho == (rho2 * two) * v && u == v * (w * w)
    requires IsProduct(x2, x, x) && Doubles(p, two, p2) && rho2 >= 0.0 && two >= 0.0
    ensures x2 == (rho2 * p2) * u && rho2 * p2 >= 0.0
  {
    var pp := p * p;
    calc {
      x * x;
      { SquareProduct(rho * p, w); SquareProduct(rho, p); }
      (((rho2 * two) * v) * pp) * (w * w);
      { Swap(rho2 * two, v, pp); }
      (((rho2 * two) * pp) * v) * (w * w);
      { Assoc((rho2 * two) * pp, v, w * w); Swap(rho2, two, pp); Assoc(rho2, pp, two); }
      (rho2 * (pp * two)) * (v * (w * w));
    }
    RMulLeMul(0.0, two, 0.0, pp);
    RMulLeMul(0.0, rho2, 0.0, pp * two);
  }

  lemma Swap(a: real, b: real, c: real)
    ensures (a * b) * c == (a * c) * b
  {
  }

  // ------------------------------------------------ the logarithm of the base

  /** rho * 2^b */
  datatype Mantissa = Mantissa(b: nat, rho: real)

  /** Entry k is 1.0001^(2^(19 + k)), truncated to 17 decimals of the mantissa. */
  const WEIGHTS: seq<Mantissa> := [
    Mantissa(75, 1.5529249120711035),
    Mantissa(151, 1.20578789126552226),
    Mantissa(302, 1.45392443872255493),
    Mantissa(605, 1.05694813675734819),
    Mantissa(1210, 1.11713936379483001),
    Mantissa(2420, 1.24800035813991755),
    Mantissa(4840, 1.55750489391736246),
    Mantissa(9681, 1.21291074728826724),
    Mantissa(19362, 1.47115248088738287),
    Mantissa(38725, 1.08214481101055071),
    Mantissa(77450, 1.17103739199706051),
    Mantissa(154900, 1.37132857345527715),
    Mantissa(309800, 1.88054205637488545),
    Mantissa(619601, 1.76821921289734142),
    Mantissa(1239203, 1.56329959242964681),
    Mantissa(2478407, 1.22195280784534991),
    Mantissa(4956814, 1.49316866460113464),
    Mantissa(9913629, 1.11477633047336785),
    Mantissa(19827258, 1.24272626698366744),
    Mantissa(39654516, 1.54436857465116148),
    Mantissa(79309033, 1.19253714718503006)
  ]

  /** The second is the truncated square of the first. */
  predicate Squares(m: Mantissa, n: Mantissa)
  {
    && m.rho >= 1.0 && n.rho >= 1.0
    && (n.b == 2 * m.b || n.b == 2 * m.b + 1)
    && Halves(m.rho, if n.b == 2 * m.b then 1.0 else 2.0, n.rho, 0.000000000000001)
  }

  predicate SquareTable(table: seq<Mantissa>)
  {
    && |table| == 21
    && forall k :: 0 <= k < 20 ==> Squares(table[k], table[k + 1])
  }

  lemma WeightSquares(k: nat)
    requires k < 20
    ensures Squares(WEIGHTS[k], WEIGHTS[k + 1])
  {
    if k == 0 {} else if k == 1 {} else if k == 2 {} else if k == 3 {} else if k == 4 {}
    else if k == 5 {} else if k == 6 {} else if k == 7 {} else if k == 8 {} else if k == 9 {}
    else if k == 10 {} else if k == 11 {} else if k == 12 {} else if k == 13 {} else if k == 14 {}
    else if k == 15 {} else if k == 16 {} else if k == 17 {} else if k == 18 {} else {}
  }

  /** 1.0001^(2^(19 + k)) is the mantissa, to within 3.1^k * 10^-15. */
  predicate Weighs(k: nat, m: Mantissa)
  {
    Logs(RPow(BASE, Pow2(19 + k)), RPow(2.0, m.b), m.rho, WeightError(k))
  }

  function WeightError(k: nat): real { RPow(3.1, k) * 0.000000000000001 }

  lemma WeightErrorSmall(k: nat)
    requires k <= 20
    ensures 0.000000000000001 <= WeightError(k) <= 0.0001
    ensures WeightError(k + 1) == 3.1 * WeightError(k)
  {
    RPowRises(3.1, 0, k);
    RPowRises(3.1, k, 20);
    assert RPow(3.1, 4) == 92.3521;
    RPowAdd(3.1, 4, 4);
    RPowAdd(3.1, 8, 8);
    RPowAdd(3.1, 16, 4);
  }

  lemma {:induction false} WeightsHold(table: seq<Mantissa>, k: nat)
    requires SquareTable(table) && k <= 20 && Weighs(0, table[0])
    ensures Weighs(k, table[k])
  {
    if k == 0 {
    } else {
      WeightsHold(table, k - 1);
      assert Squares(table[k - 1], table[k - 1 + 1]);
      WeightStep(k - 1, table[k - 1], table[k]);
    }
  }

  lemma WeightStep(k: nat, m: Mantissa, n: Mantissa)
    requires k < 20 && Squares(m, n) && Weighs(k, m)
    ensures Weighs(k + 1, n)
  {
    WeightErrorSmall(k);
    PowerSquares(BASE, 19 + k);
    TwoPowers(m.b, n.b);
    Advance(RPow(BASE, Pow2(19 + k)), RPow(2.0, m.b), m.rho, WeightError(k), if n.b == 2 * m.b then 1.0 else 2.0, n.rho,
            0.000000000000001, RPow(BASE, Pow2(20 + k)), RPow(2.0, n.b));
  }

  lemma PowerSquares(x: real, j: nat)
    ensures IsProduct(RPow(x, Pow2(j + 1)), RPow(x, Pow2(j)), RPow(x, Pow2(j)))
  {
    RPowAdd(x, Pow2(j), Pow2(j));
  }

  lemma TwoPowers(b: nat, c: nat)
    requires c == 2 * b || c == 2 * b + 1
    ensures RPow(2.0, b) > 0.0
    ensures Doubles(RPow(2.0, b), if c == 2 * b then 1.0 else 2.0, RPow(2.0, c))
  {
    RPowAdd(2.0, b, b);
    RPowPositive(2.0, b);
  }

  lemma FirstWeight()
    ensures Weighs(0, WEIGHTS[0])
  {
    MagicIsAccurate();
    MagicNear(MAGIC, 19);
    MagicErrorSmall(19);
    RPowPositive(BASE, Pow2(19));
    Seventyfive();
    assert WeightError(0) == 0.000000000000001;
    FirstWeightReals(Fix(MAGIC[19]), RPow(BASE, Pow2(19)), MagicError(19), RPow(2.0, 75));
  }

  lemma Seventyfive()
    ensures RPow(2.0, 75) == 37778931862957161709568.0
  {
    assert RPow(2.0, 5) == 32.0;
    RPowAdd(2.0, 5, 5);
    RPowAdd(2.0, 10, 10);
    RPowAdd(2.0, 20, 5);
    RPowAdd(2.0, 25, 25);
    RPowAdd(2.0, 50, 25);
  }

  lemma FirstWeightReals(a: real, g: real, e: real, p: real)
    requires a == Fix(0x48a_1703_91f7_dc42_444e_8fa2) && Inverts(a, g, e) && 0.0 <= e <= 0.0000000000000001 && g > 0.0
    requires p == 37778931862957161709568.0
    ensures Logs(g, p, 1.5529249120711035, 0.000000000000001)
  {
    var aa := a * a;
    var k := 1.5529249120711035 * p;
    assert aa * k <= 1.0 - 0.0000000000000001;
    assert aa * (k * (1.0 + 0.000000000000001)) >= 1.0 + 0.0000000000000001;
    assert aa > 0.0;
    assert 1.0 - e <= aa * g <= 1.0 + e;
    if g < k { RMulLt(g, k, aa); }
    if g > k * (1.0 + 0.000000000000001) { RMulLt(k * (1.0 + 0.000000000000001), g, aa); }
  }

  const LOG_UNITS: nat := 549755813888 // 2^39
  const LOG_SCALE: nat := 79309033

  /** 2^s <= 1.0001^u <= 2^(s + 1), for a u large enough to fix the ratio of the logarithms. */
  predicate Brackets(u: nat, s: nat)
  {
    ZPow(2.0, s) <= ZPow(BASE, u) <= ZPow(2.0, s + 1)
  }

  lemma BaseLog()
    ensures Brackets(LOG_UNITS, LOG_SCALE)
  {
    TopWeight();
    SmallPowers20();
    Pow2Product(20, 19, 1048576, 524288);
    FromWeight(WEIGHTS[20], LOG_UNITS, LOG_SCALE);
  }

  lemma TopWeight()
    ensures Weighs(20, WEIGHTS[20])
  {
    forall k | 0 <= k < 20 ensures Squares(WEIGHTS[k], WEIGHTS[k + 1]) { WeightSquares(k); }
    FirstWeight();
    WeightsHold(WEIGHTS, 20);
  }

  lemma FromWeight(m: Mantissa, u: nat, s: nat)
    requires Weighs(20, m) && 1.0 <= m.rho <= 1.9 && u == Pow2(39) && s == m.b
    ensures Brackets(u, s)
  {
    WeightErrorSmall(20);
    RPowPositive(2.0, s);
    LastWeight(RPow(BASE, u), RPow(2.0, s), m.rho, WeightError(20));
  }

  lemma LastWeight(x: real, p: real, rho: real, e: real)
    requires Logs(x, p, rho, e) && p > 0.0 && 1.0 <= rho <= 1.9 && e <= 0.0001
    ensures p <= x <= 2.0 * p
  {
    ScaledBetween(rho, p);
    UpToTwice(x, p, rho * p, e);
  }

  lemma UpToTwice(x: real, p: real, k: real, e: real)
    requires Tracks(x, k, e) && 0.0 < p <= k && k * (1.0 + 0.0001) <= 2.0 * p && e <= 0.0001
    ensures p <= x <= 2.0 * p
  {
    TracksUpTo(x, k, e, 0.0001);
  }

  lemma ScaledBetween(rho: real, p: real)
    requires p > 0.0 && 1.0 <= rho <= 1.9
    ensures p <= rho * p && (rho * p) * (1.0 + 0.0001) <= 2.0 * p
  {
  }

  lemma TracksUpTo(x: real, k: real, e: real, d: real)
    requires Tracks(x, k, e) && k >= 0.0 && e <= d
    ensures k <= x <= k * (1.0 + d)
  {
    RMulLe(1.0 + e, 1.0 + d, k);
  }
}
