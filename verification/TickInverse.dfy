/** `tick_math.rs`: `get_tick_at_sqrt_ratio` inverts `get_sqrt_ratio_at_tick` on every valid price. */
module TickInverse {
  import opened Arithmetic
  import opened Words
  import opened FullMath
  import opened RealPowers
  import opened TickMath
  import opened TickLog
  import opened BinaryLog

  /** 2^64 / log2(sqrt(1.0001)), and the bounds on the error of the logarithm in ticks, by 2^128. */
  const SQRT_10001: int := 255738958999603826347141
  const TICK_LOW: int := 3402992956809132418596140100660247210
  const TICK_HIGH: int := 291339464771989622907027621153398088495

  /** A logarithm in units of 2^-14 becomes 128-bit fixed-point ticks by this factor. */
  const TICKS_PER_UNIT: int := 287936470113683586709568549840679337984 // 2^50 * SQRT_10001

  // ---------------------------------------------------------- change of base

  /** From an order between a power of two and a power of 1.0001 to one between exponents. */
  lemma TwoBelowBase(l: int, n: int, u: nat, s: nat)
    requires Brackets(u, s) && ZPow(2.0, l) <= ZPow(BASE, n)
    ensures u * l <= n * (if l >= 0 then s + 1 else s)
  {
    if l >= 0 {
      Compare(u, s + 1, l, l, n, s + 1);
    } else {
      NegatePowers(2.0, s, BASE, u);
      Compare(0 - u, 0 - s, -l, l, n, s);
    }
  }

  lemma BaseBelowTwo(l: int, n: int, u: nat, s: nat)
    requires Brackets(u, s) && ZPow(BASE, n) <= ZPow(2.0, l)
    ensures n * (if l >= 0 then s else s + 1) <= u * l
  {
    NegatePowers(BASE, n, 2.0, l);
    if l >= 0 {
      NegatePowers(2.0, s, BASE, u);
      Compare(0 - u, 0 - s, l, -l, -n, s);
    } else {
      Compare(u, s + 1, -l, -l, -n, s + 1);
    }
  }

  /** 1.0001^(z * j) <= 2^(w * j) = 2^(l * k) <= 1.0001^(n * k). */
  lemma Compare(z: int, w: int, j: nat, l: int, n: int, k: nat)
    requires ZPow(BASE, z) <= ZPow(2.0, w) && ZPow(2.0, l) <= ZPow(BASE, n) && w * j == l * k
    ensures z * j <= n * k
  {
    Raise(BASE, z, 2.0, w, j);
    Raise(2.0, l, BASE, n, k);
    ZPowReflects(BASE, z * j, n * k);
  }

  // --------------------------------------------------- logarithms and prices

  /** A price below that of tick m has a power below 1.0001^(8192 m + 1). */
  lemma PowerBelowTick(p: nat, m: int)
    requires MIN_TICK <= m <= MAX_TICK && p < PriceAtTick(m)
    ensures RPow(p as real / Q96, 16384) <= ZPow(BASE, 8192 * m + 1)
  {
    PriceIsPriced(m);
    var x, h := p as real / Q96, ZPow(BASE, m);
    ZPowPositive(BASE, m);
    SquareBelow(x, PriceAtTick(m) as real / Q96, h);
    PowersBelow(x, h);
    ZPowMul(BASE, m, 8192);
    ZPowNext(BASE, 8192 * m);
  }

  lemma SquareBelow(x: real, y: real, h: real)
    requires 0.0 <= x <= y && Close(y, h, 0.000000002)
    ensures 0.0 <= x * x <= (1.0 + 0.000000002) * h
  {
    RMulLeMul(x, y, x, y);
  }

  lemma PowersBelow(x: real, h: real)
    requires 0.0 <= x * x <= (1.0 + 0.000000002) * h && h > 0.0
    ensures RPow(x, 16384) <= BASE * RPow(h, 8192)
  {
    var n, d := 8192, 0.000000002;
    PowerAbove(d, n);
    ScaledPower(x, 1.0 + d, h, n, BASE);
  }

  lemma ScaledPower(x: real, c: real, h: real, n: nat, b: real)
    requires 0.0 <= x * x <= c * h && h > 0.0 && RPow(c, n) <= b
    ensures RPow(x, 2 * n) <= b * RPow(h, n)
  {
    RPowSquare(x, n);
    RPowMono(x * x, c * h, n);
    RPowProduct(c, h, n);
    RPowPositive(h, n);
    ScaleUp(RPow(x, 2 * n), RPow(c, n), RPow(h, n), b);
  }

  lemma ScaleUp(a: real, c: real, p: real, b: real)
    requires a <= c * p && c <= b && p > 0.0
    ensures a <= b * p
  {
    RMulLe(c, b, p);
  }

  /** A price not below that of tick m has a power not below 1.0001^(8192 m - 1). */
  lemma PowerAboveTick(p: nat, m: int)
    requires MIN_TICK <= m <= MAX_TICK && PriceAtTick(m) <= p
    ensures ZPow(BASE, 8192 * m - 1) <= RPow(p as real / Q96, 16384)
  {
    PriceIsPriced(m);
    var x, h := p as real / Q96, ZPow(BASE, m);
    ZPowPositive(BASE, m);
    SquareAbove(x, PriceAtTick(m) as real / Q96, h);
    PowersAbove(x, h);
    ZPowMul(BASE, m, 8192);
    ZPowNext(BASE, 8192 * m - 1);
    ZPowPositive(BASE, 8192 * m - 1);
    BackOne(ZPow(BASE, 8192 * m), ZPow(BASE, 8192 * m - 1), RPow(x, 16384));
  }

  lemma BackOne(g: real, before: real, v: real)
    requires g == BASE * before && before > 0.0 && 0.99998 * g <= v
    ensures before <= v
  {
  }

  lemma SquareAbove(x: real, y: real, h: real)
    requires 0.0 <= y <= x && Close(y, h, 0.000000002)
    ensures (1.0 - 0.000000002) * h <= x * x
  {
    RMulLeMul(y, x, y, x);
  }

  predicate ScaledBelow(b: real, p: real, a: real) { b * p <= a }

  lemma PowersAbove(x: real, h: real)
    requires (1.0 - 0.000000002) * h <= x * x && h > 0.0
    ensures ScaledBelow(0.99998, RPow(h, 8192), RPow(x, 16384))
  {
    var n, d := 8192, 0.000000002;
    PowerBelow(d, n);
    ScaledPowerDown(x, 1.0 - d, h, n, 0.99998);
  }

  lemma ScaledPowerDown(x: real, c: real, h: real, n: nat, b: real)
    requires 0.0 <= c && c * h <= x * x && h > 0.0 && b <= RPow(c, n)
    ensures ScaledBelow(b, RPow(h, n), RPow(x, 2 * n))
  {
    RPowSquare(x, n);
    RMulLeMul(0.0, c, 0.0, h);
    RPowMono(c * h, x * x, n);
    RPowProduct(c, h, n);
    RPowPositive(h, n);
    ScaleDown(RPow(x, 2 * n), RPow(c * h, n), RPow(c, n), RPow(h, n), b);
  }

  lemma ScaleDown(a: real, cp: real, c: real, p: real, b: real)
    requires cp <= a && cp == c * p && b <= c && p > 0.0
    ensures ScaledBelow(b, p, a)
  {
    RMulLe(b, c, p);
  }

  // ------------------------------------------------------- the two candidates

  const TWO20: int := 0x10_0000

  /** The low candidate does not exceed the tick of the price... */
  lemma LowSide(p: nat, l: int, m: int)
    requires MIN_TICK <= m <= MAX_TICK && Logged(p as real / Q96, l) && -TWO20 <= l <= TWO20 && p < PriceAtTick(m)
    ensures l * TICKS_PER_UNIT - TICK_LOW < m * TWO128
  {
    PowerBelowTick(p, m);
    BaseLog();
    TwoBelowBase(l, 8192 * m + 1, LOG_UNITS, LOG_SCALE);
    LowExponents(l, m);
  }

  lemma LowExponents(l: int, m: int)
    requires -TWO20 <= l <= TWO20
    requires LOG_UNITS * l <= (8192 * m + 1) * (if l >= 0 then LOG_SCALE + 1 else LOG_SCALE)
    ensures l * TICKS_PER_UNIT - TICK_LOW < m * TWO128
  {
  }

  /** ...and the high candidate is not below it. */
  lemma HighSide(p: nat, l: int, m: int)
    requires MIN_TICK <= m <= MAX_TICK && Logged(p as real / Q96, l) && -TWO20 <= l < TWO20 && PriceAtTick(m) <= p
    ensures m * TWO128 <= l * TICKS_PER_UNIT + TICK_HIGH
  {
    PowerAboveTick(p, m);
    ZPowNext(BASE, 8192 * m - 2);
    BaseLog();
    BaseBelowTwo(l + 1, 8192 * m - 2, LOG_UNITS, LOG_SCALE);
    HighExponents(l, m);
  }

  lemma HighExponents(l: int, m: int)
    requires -TWO20 <= l < TWO20
    requires (8192 * m - 2) * (if l + 1 >= 0 then LOG_SCALE else LOG_SCALE + 1) <= LOG_UNITS * (l + 1)
    ensures m * TWO128 <= l * TICKS_PER_UNIT + TICK_HIGH
  {
  }

  /** The tick whose price interval holds p. */
  predicate TickHolds(p: nat, t: int)
  {
    MIN_TICK <= t < MAX_TICK && PriceAtTick(t) <= p < PriceAtTick(t + 1)
  }

  lemma {:induction false} FindTick(p: nat, t: int) returns (r: int)
    requires MIN_TICK <= t < MAX_TICK && MIN_SQRT_RATIO <= p < PriceAtTick(t + 1)
    ensures TickHolds(p, r)
    decreases t - MIN_TICK
  {
    PriceEndpoints();
    if PriceAtTick(t) <= p { r := t; } else { r := FindTick(p, t - 1); }
  }

  lemma TickUnique(p: nat, s: int, t: int)
    requires TickHolds(p, s) && TickHolds(p, t)
    ensures s == t
  {
    if s < t { if s + 1 < t { PriceStrict(s + 1, t); } }
    if t < s { if t + 1 < s { PriceStrict(t + 1, s); } }
  }

  /** The two candidates are neighbours, or the same, and the tick of the price is one of them. */
  lemma Candidates(p: nat, l: int, low: int, high: int, t: int)
    requires TickHolds(p, t) && Logged(p as real / Q96, l) && -TWO20 <= l < TWO20
    requires low == (l * TICKS_PER_UNIT - TICK_LOW) / TWO128
    requires high == (l * TICKS_PER_UNIT + TICK_HIGH) / TWO128
    ensures low <= t <= high <= low + 1
  {
    LowSide(p, l, t + 1);
    HighSide(p, l, t);
  }

  // ------------------------------------------------------------ the computation

  /** The low 32 bits of a word as a signed integer. */
  function LowI32(w: nat): int
  {
    var u := w % 0x1_0000_0000;
    if u < 0x8000_0000 then u else u - 0x1_0000_0000
  }

  lemma WrapMulWrap(a: int, c: int)
    ensures WrapMul(Wrap(a), c) == Wrap(a * c)
  {
    WrapCongruent(a);
    CongruentMul(Wrap(a), a, c, TWO256);
  }

  lemma WrapAddWrap(a: int, b: int)
    ensures WrapAdd(Wrap(a), b) == Wrap(a + b)
  {
    DivBounds(a, TWO256);
    var k := a / TWO256;
    assert a + b == Wrap(a) + b + k * TWO256;
    ModAddMultiple(Wrap(a) + b, k, TWO256);
  }

  /** Shifting the two's complement word right by 128 and keeping 32 bits is floor division. */
  lemma ShiftSigned(v: int)
    requires -0x8000_0000 * TWO128 <= v < 0x8000_0000 * TWO128
    ensures LowI32(Wrap(v) / TWO128) == v / TWO128
  {
    SignedFits(v);
    WrapNear(v);
    var q := v / TWO128;
    DivBounds(v, TWO128);
    if v < 0 {
      WrapDown(v, TWO128);
      NegativeLow(q);
    }
  }

  lemma SignedFits(v: int)
    requires -0x8000_0000 * TWO128 <= v < 0x8000_0000 * TWO128
    ensures -TWO256 <= v < TWO256 && TWO256 == TWO128 * TWO128
  {
    SmallPowers();
    Pow2Product(128, 31, TWO128, 0x8000_0000);
    Pow2Strict(159, 256);
    Pow2Add(128, 128);
  }

  lemma NegativeLow(q: int)
    requires -0x8000_0000 <= q < 0
    ensures LowI32(q + TWO128) == q
  {
    assert (q + TWO128) % 0x1_0000_0000 == q + 0x1_0000_0000;
  }

  lemma WrapDown(v: int, t: int)
    requires t > 0
    ensures (v + t * t) / t == v / t + t
  {
    DivBounds(v, t);
    var q := v / t;
    assert (q + t) * t == q * t + t * t;
    DivIs(v + t * t, t, q + t);
  }

  lemma FixedTicks(log: u256, l: int, offset: int)
    requires log == Wrap(l * Pow2(50)) && -TWO20 <= l < TWO20 && -TWO128 < offset < TWO128
    ensures LowI32(WrapAdd(WrapMul(log, SQRT_10001), offset) / TWO128) == (l * TICKS_PER_UNIT + offset) / TWO128
  {
    Fifty();
    WrapMulWrap(l * Pow2(50), SQRT_10001);
    WrapAddWrap(l * TICKS_PER_UNIT, offset);
    ShiftSigned(l * TICKS_PER_UNIT + offset);
  }

  lemma Fifty()
    ensures Pow2(50) == 0x4_0000_0000_0000
  {
    assert Pow2(10) == 1024;
    Pow2Product(10, 10, 1024, 1024);
    Pow2Product(20, 20, 1048576, 1048576);
    Pow2Product(40, 10, 1099511627776, 1024);
  }

  lemma RatioFits(p: u256)
    requires MIN_SQRT_RATIO <= p < MAX_SQRT_RATIO
    ensures Wrap(p * TWO32) == p * TWO32 && Pow2(64) <= p * TWO32 < Pow2(192)
    ensures (p * TWO32) as real / Q128 == p as real / Q96
  {
    SmallPowers();
    Pow2Product(160, 32, TWO160, TWO32);
    Pow2Strict(192, 256);
    WrapNear(p * TWO32);
  }

  /** `get_tick_at_sqrt_ratio`: the greatest tick whose price does not exceed p. */
  method GetTickAtSqrtRatio(p: u256) returns (tick: Result<int>)
    ensures MIN_SQRT_RATIO <= p < MAX_SQRT_RATIO ==> tick.Ok? && TickHolds(p, tick.value)
    ensures !(MIN_SQRT_RATIO <= p < MAX_SQRT_RATIO) ==> tick == Err(PriceOutOfRange)
  {
    if !(p >= MIN_SQRT_RATIO && p < MAX_SQRT_RATIO) {
      return Err(PriceOutOfRange);
    }
    var low, high;
    ghost var t;
    low, high, t := BothCandidates(p);
    tick := Choose(p, low, high, t);
  }

  method Choose(p: u256, low: int, high: int, ghost t: int) returns (tick: Result<int>)
    requires TickHolds(p, t) && low <= t <= high <= low + 1
    ensures tick == Ok(t)
  {
    hide PriceAtTick;
    if low == high {
      return Ok(low);
    }
    var price := GetSqrtRatioAtTick(high);
    if price.Err? {
      return Err(TickOutOfRange);
    }
    return Ok(if price.value <= p then high else low);
  }

  method BothCandidates(p: u256) returns (low: int, high: int, ghost t: int)
    requires MIN_SQRT_RATIO <= p < MAX_SQRT_RATIO
    ensures TickHolds(p, t) && low <= t <= high <= low + 1
  {
    RatioFits(p);
    var log := Logarithm(Wrap(p * TWO32));
    ghost var l := LogarithmOf(p, log);
    low, high, t := FromLogarithm(p, log, l);
  }

  lemma LogarithmOf(p: u256, log: u256) returns (l: int)
    requires p * TWO32 >= 0 && HoldsLogarithm(p * TWO32, log) && (p * TWO32) as real / Q128 == p as real / Q96
    ensures log == Wrap(l * Pow2(50)) && -TWO20 <= l < TWO20 && Logged(p as real / Q96, l)
  {
    hide Logged, RPow, Pow2;
    var msb: nat, b: nat :| IsLogarithm(p * TWO32, log, msb, b);
    var whole: int := msb;
    l := (whole - 128) * 16384 + b;
  }

  /** The two candidates from the logarithm. */
  method FromLogarithm(p: u256, log: u256, ghost l: int) returns (low: int, high: int, ghost t: int)
    requires MIN_SQRT_RATIO <= p < MAX_SQRT_RATIO
    requires log == Wrap(l * Pow2(50)) && -TWO20 <= l < TWO20 && Logged(p as real / Q96, l)
    ensures TickHolds(p, t) && low <= t <= high <= low + 1
  {
    FixedTicks(log, l, -TICK_LOW);
    FixedTicks(log, l, TICK_HIGH);
    var scaled := WrapMul(log, SQRT_10001);
    low := LowI32(WrapAdd(scaled, -TICK_LOW) / TWO128);
    high := LowI32(WrapAdd(scaled, TICK_HIGH) / TWO128);
    PriceEndpoints();
    t := FindTick(p, MAX_TICK - 1);
    Candidates(p, l, low, high, t);
  }

  /** Going to the price and back is the identity. */
  lemma RoundTrip(t: int, r: int)
    requires MIN_TICK <= t < MAX_TICK
    ensures TickHolds(PriceAtTick(t), r) <==> r == t
  {
    PriceStrict(t, t + 1);
    if TickHolds(PriceAtTick(t), r) { TickUnique(PriceAtTick(t), t, r); }
  }
}
