/** `tick_math.rs`: the bit search and the squaring rounds that take the logarithm of a price. */
module BinaryLog {
  import opened Arithmetic
  import opened Words
  import opened RealPowers
  import opened TickMath
  import opened TickLog

  const TWO127: int := 0x8000_0000_0000_0000_0000_0000_0000_0000
  const Q127: real := 170141183460469231731687303715884105728.0

  // ------------------------------------------------- the most significant bit

  /** The search has fixed the bits of msb from k up: what is left of the ratio fits 2^k bits. */
  predicate Searching(ratio: nat, r: nat, msb: nat, k: nat)
  {
    0 < r == ratio / Pow2(msb) && r < Pow2(Pow2(k)) && msb % Pow2(k) == 0
  }

  /** One stage of the search. */
  method Stage(ghost ratio: nat, r: nat, msb: nat, k: nat) returns (r2: nat, msb2: nat)
    requires Searching(ratio, r, msb, k + 1)
    ensures Searching(ratio, r2, msb2, k) && msb2 <= msb + Pow2(k)
  {
    var f := if r > Pow2(Pow2(k)) - 1 then Pow2(k) else 0;
    msb2 := BitOr(msb, f);
    r2 := r / Pow2(f);
    OrZero(msb);
    MultipleHalves(msb, k);
    if f > 0 {
      OrNewBit(msb, k);
      ShiftMore(ratio, msb, f);
      TopHalf(r, k);
    }
  }

  lemma MultipleHalves(msb: nat, k: nat)
    requires msb % Pow2(k + 1) == 0
    ensures msb % Pow2(k) == 0 && (msb + Pow2(k)) % Pow2(k) == 0
  {
    var q := msb / Pow2(k + 1);
    DivBounds(msb, Pow2(k + 1));
    Double(q, Pow2(k));
    ModIs(msb, Pow2(k), 0, 2 * q);
    ModIs(msb + Pow2(k), Pow2(k), 0, 2 * q + 1);
  }

  lemma OrNewBit(msb: nat, k: nat)
    requires msb % Pow2(k + 1) == 0
    ensures BitOr(msb, Pow2(k)) == msb + Pow2(k)
  {
    var q := msb / Pow2(k + 1);
    DivBounds(msb, Pow2(k + 1));
    OrDisjoint(k + 1, Pow2(k), q);
    OrCommutes(msb, Pow2(k));
  }

  lemma ShiftMore(ratio: nat, msb: nat, f: nat)
    ensures (ratio / Pow2(msb)) / Pow2(f) == ratio / Pow2(msb + f)
  {
    FloorFloor(ratio, Pow2(msb), Pow2(f));
    Pow2Add(msb, f);
  }

  lemma TopHalf(r: nat, k: nat)
    requires Pow2(Pow2(k)) <= r < Pow2(Pow2(k + 1))
    ensures 0 < r / Pow2(Pow2(k)) < Pow2(Pow2(k))
  {
    var p := Pow2(Pow2(k));
    Pow2Add(Pow2(k), Pow2(k));
    DivLe(r, p, p - 1);
    DivLe(r, p, 1);
  }

  method UpperStages(ghost ratio: nat, r0: nat, msb0: nat) returns (r: nat, msb: nat)
    requires Searching(ratio, r0, msb0, 8)
    ensures Searching(ratio, r, msb, 4)
  {
    r, msb := Stage(ratio, r0, msb0, 7);
    r, msb := Stage(ratio, r, msb, 6);
    r, msb := Stage(ratio, r, msb, 5);
    r, msb := Stage(ratio, r, msb, 4);
  }

  method LowerStages(ghost ratio: nat, r0: nat, msb0: nat) returns (r: nat, msb: nat)
    requires Searching(ratio, r0, msb0, 4)
    ensures Searching(ratio, r, msb, 0)
  {
    r, msb := Stage(ratio, r0, msb0, 3);
    r, msb := Stage(ratio, r, msb, 2);
    r, msb := Stage(ratio, r, msb, 1);
    r, msb := Stage(ratio, r, msb, 0);
  }

  /** The eight stages find the position of the most significant bit. */
  method MostSignificantBit(ratio: u256) returns (msb: nat)
    requires ratio > 0
    ensures Pow2(msb) <= ratio < 2 * Pow2(msb)
  {
    StartSearch(ratio);
    var r;
    r, msb := UpperStages(ratio, ratio, 0);
    r, msb := LowerStages(ratio, r, msb);
    EndSearch(ratio, r, msb);
  }

  lemma StartSearch(ratio: u256)
    requires ratio > 0
    ensures Searching(ratio, ratio, 0, 8)
  {
    DivBounds(ratio, 1);
    DivBounds(0, Pow2(8));
    assert Pow2(8) == 256;
  }

  lemma EndSearch(ratio: nat, r: nat, msb: nat)
    requires Searching(ratio, r, msb, 0)
    ensures Pow2(msb) <= ratio < 2 * Pow2(msb)
  {
    assert Pow2(Pow2(0)) == 2;
    DivBounds(ratio, Pow2(msb));
  }

  // ------------------------------------------------------------ normalisation

  /** Shift the top bit of the ratio to position 127. */
  method Normalise(ratio: u256, msb: nat) returns (r: u256)
    requires Pow2(msb) <= ratio < 2 * Pow2(msb)
    ensures TWO127 <= r < TWO128
    ensures Mantissas(ratio, msb - 127, r)
  {
    SmallPowers();
    HalfWord();
    if msb >= 128 {
      TopBits(ratio, msb - 127);
      r := ratio / Pow2(msb - 127);
    } else {
      RaisedBits(ratio, msb, 127 - msb);
      r := Wrap(ratio * Pow2(127 - msb));
    }
  }

  lemma HalfWord()
    ensures Pow2(127) == TWO127 && TWO128 < TWO256
  {
    SmallPowers();
    Pow2Strict(128, 256);
  }

  /** r holds the bits of the ratio from position d up (or all of them, shifted left, if d < 0). */
  predicate Mantissas(ratio: nat, d: int, r: nat)
  {
    if d >= 0 then r * Pow2(d) <= ratio < (r + 1) * Pow2(d) else r == ratio * Pow2(-d)
  }

  lemma TopBits(ratio: nat, d: nat)
    requires Pow2(d + 127) <= ratio < 2 * Pow2(d + 127)
    ensures TWO127 <= ratio / Pow2(d) < TWO128 && Mantissas(ratio, d, ratio / Pow2(d))
  {
    HalfWord();
    Pow2Add(127, d);
    CeilBounds(ratio, Pow2(d));
    DivLe(ratio, Pow2(d), TWO127);
    DivLe(ratio, Pow2(d), TWO128 - 1);
  }

  lemma RaisedBits(ratio: nat, msb: nat, k: nat)
    requires Pow2(msb) <= ratio < 2 * Pow2(msb) && msb + k == 127
    ensures TWO127 <= ratio * Pow2(k) < TWO128 && Wrap(ratio * Pow2(k)) == ratio * Pow2(k)
  {
    HalfWord();
    Pow2Add(msb, k);
    BetweenDoubles(ratio, Pow2(msb), Pow2(k));
    WrapNear(ratio * Pow2(k));
  }

  lemma BetweenDoubles(x: nat, p: nat, q: nat)
    requires p <= x < 2 * p && q > 0
    ensures p * q <= x * q < 2 * (p * q)
  {
    MulLe(p, x, q);
    MulLt(x, 2 * p, q);
  }

  lemma {:induction false} Pow2AsReal(k: nat)
    ensures Pow2(k) as real == RPow(2.0, k)
  {
    if k == 0 {
    } else {
      Pow2AsReal(k - 1);
    }
  }

  /** Normalising keeps the ratio, to 37 digits. */
  lemma StartLog(ratio: nat, d: int, r: nat)
    requires Mantissas(ratio, d, r) && r >= TWO127
    ensures Logs(ratio as real / Q128, ZPow(2.0, d - 1), r as real / Q127, 0.0000000000000000000000000000000000001)
  {
    var z := ZPow(2.0, d);
    ZPowPositive(2.0, d);
    ZPowNext(2.0, d - 1);
    MantissaReals(ratio, d, r);
    StartReals(ratio as real, z, ZPow(2.0, d - 1), r as real);
  }

  lemma MantissaReals(ratio: nat, d: int, r: nat)
    requires Mantissas(ratio, d, r)
    ensures r as real * ZPow(2.0, d) <= ratio as real <= (r as real + 1.0) * ZPow(2.0, d)
  {
    hide RPow, Pow2;
    if d >= 0 {
      Pow2AsReal(d);
      ScaledReals(ratio, r, Pow2(d), ZPow(2.0, d));
    } else {
      Pow2AsReal(-d);
      ProductAsReal(ratio, Pow2(-d));
      ZPowNegate(2.0, -d);
      Undo(ratio as real, RPow(2.0, -d), ZPow(2.0, d), r as real);
    }
  }

  lemma ScaledReals(ratio: nat, r: nat, p: nat, z: real)
    requires r * p <= ratio < (r + 1) * p && z == p as real
    ensures r as real * z <= ratio as real <= (r as real + 1.0) * z
  {
    ProductAsReal(r, p);
    ProductAsReal(r + 1, p);
  }

  lemma ProductAsReal(x: int, y: int)
    ensures (x * y) as real == x as real * y as real
  {
  }

  lemma Undo(x: real, p: real, ip: real, r: real)
    requires r == x * p && p * ip == 1.0 && ip > 0.0
    ensures r * ip == x && r * ip <= (r + 1.0) * ip
  {
    Assoc(x, p, ip);
    RMulLe(r, r + 1.0, ip);
  }

  lemma StartReals(x: real, z: real, half: real, r: real)
    requires r * z <= x <= (r + 1.0) * z && z == 2.0 * half && half > 0.0 && r >= Q127
    ensures Logs(x / Q128, half, r / Q127, 0.0000000000000000000000000000000000001)
  {
    var k := (r / Q127) * half;
    var e := 0.0000000000000000000000000000000000001;
    assert k == (r * z) / Q128;
    assert r + 1.0 <= r * (1.0 + e);
    RMulLe(r + 1.0, r * (1.0 + e), z);
    assert (r * (1.0 + e)) * z == (r * z) * (1.0 + e);
    assert x / Q128 <= k * (1.0 + e);
  }

  // ------------------------------------------------------------- one more bit

  /** r2 is r^2 / 2^127, halved if f is one, and truncated to the same 128 bits. */
  predicate Halved(r: nat, f: int, r2: nat)
  {
    && 0 <= f <= 1 && TWO127 <= r2 < TWO128
    && (r2 * (f + 1)) * TWO127 <= r * r < (r2 * (f + 1)) * TWO127 + 2 * TWO127
  }

  lemma SquareFits(r: nat)
    requires TWO127 <= r < TWO128
    ensures WrapMul(r, r) == r * r && TWO127 <= r * r / TWO127 < 2 * TWO128
  {
    SmallPowers();
    Pow2Add(128, 128);
    MulLeMul(r, TWO128, r, TWO128);
    MulLt(r, TWO128, r);
    MulLt(r, TWO128, TWO128);
    MulLe(TWO127, r, r);
    MulLe(TWO127, r, TWO127);
    WrapNear(r * r);
    DivLe(r * r, TWO127, TWO127);
    DivLe(r * r, TWO127, 2 * TWO128 - 1);
  }

  /** The next bit of the logarithm is whether the square reaches two. */
  lemma HalveSquare(r: nat, sq: nat)
    requires TWO127 <= sq < 2 * TWO128 && sq * TWO127 <= r * r < sq * TWO127 + TWO127
    ensures Halved(r, sq / TWO128, Shr(sq, sq / TWO128))
  {
    var f := sq / TWO128;
    assert f == 0 || f == 1;
    assert Pow2(0) == 1 && Pow2(1) == 2;
  }

  lemma HalvedReals(r: nat, f: int, r2: nat)
    requires Halved(r, f, r2) && TWO127 <= r < TWO128
    ensures Halves(r as real / Q127, (f + 1) as real, r2 as real / Q127, 0.0000000000000000000000000000000000001)
  {
    ProductAsReal(r, r);
    ProductAsReal(r2, f + 1);
    ProductAsReal(r2 * (f + 1), TWO127);
    HalvesReals(r as real, (f + 1) as real, r2 as real);
  }

  lemma HalvesReals(r: real, two: real, r2: real)
    requires r2 >= Q127 && two >= 1.0
    requires (r2 * two) * Q127 <= r * r <= (r2 * two) * Q127 + 2.0 * Q127
    ensures Halves(r / Q127, two, r2 / Q127, 0.0000000000000000000000000000000000001)
  {
    var k, e := r2 * two, 0.0000000000000000000000000000000000001;
    RMulLe(1.0, two, r2);
    assert (r / Q127) * (r / Q127) == (r * r) / (Q127 * Q127);
    assert (r2 / Q127) * two == (k * Q127) / (Q127 * Q127);
    assert k * Q127 + 2.0 * Q127 <= (k * Q127) * (1.0 + e);
  }

  /** Or-ing the new bit into the word appends it to the logarithm, in two's complement. */
  lemma AppendBit(c: int, i: nat, f: nat)
    requires f <= 1 && i < 256
    ensures BitOr(Wrap(c * Pow2(i + 1)), f * Pow2(i)) == Wrap((2 * c + f) * Pow2(i))
  {
    var p, n := Pow2(i), Pow2(255 - i);
    var z := c % n;
    DivBounds(c, n);
    Pow2Add(i + 1, 255 - i);
    WrapShifted(c, 2 * p, n, z);
    OrDisjoint(i + 1, f * p, z);
    OrCommutes(z * (2 * p), f * p);
    MulLe(f, 1, p);
    JoinedFits(z, n, p, f);
    ModIs((2 * c + f) * p, TWO256, z * (2 * p) + f * p, c / n) by {
      assert c == (c / n) * n + z;
      Distribute(c / n, n, z, f, p);
    }
  }

  lemma WrapShifted(c: int, q: nat, n: nat, z: nat)
    requires q > 0 && n > 0 && TWO256 == q * n && z == c % n
    ensures Wrap(c * q) == z * q
  {
    DivBounds(c, n);
    var k := c / n;
    assert c * q == z * q + k * (q * n) by { assert c == k * n + z; }
    MulLt(z, n, q);
    MulLe(0, z, q);
    ModIs(c * q, TWO256, z * q, k);
  }

  lemma JoinedFits(z: nat, n: nat, p: nat, f: nat)
    requires z < n && f <= 1
    ensures 0 <= z * (2 * p) + f * p && (p > 0 ==> z * (2 * p) + f * p < n * (2 * p))
  {
    MulLe(z + 1, n, 2 * p);
    assert (z + 1) * (2 * p) == z * (2 * p) + 2 * p;
  }

  lemma Distribute(k: int, n: int, z: int, f: int, p: int)
    ensures (2 * (k * n + z) + f) * p == z * (2 * p) + f * p + k * ((2 * p) * n)
  {
  }

  // ----------------------------------------------------------------- the loop

  function LogError(j: nat): real { RPow(3.1, j) * 0.0000000000000000000000000000000000001 }

  lemma LogErrorSmall(j: nat)
    requires j <= 14
    ensures 0.0000000000000000000000000000000000001 <= LogError(j) <= 0.0000000000000000000000000001
    ensures LogError(j + 1) == 3.1 * LogError(j)
  {
    RPowRises(3.1, 0, j);
    RPowRises(3.1, j, 14);
    assert RPow(3.1, 4) == 92.3521;
    RPowAdd(3.1, 4, 4);
    RPowAdd(3.1, 8, 4);
    RPowAdd(3.1, 12, 2);
  }

  /** After j rounds: x^(2^j) is 2^c times the mantissa, which never overestimates it. */
  predicate LogState(x: real, j: nat, c: int, r: nat)
  {
    Logs(RPow(x, Pow2(j)), ZPow(2.0, c), r as real / Q127, LogError(j))
  }

  lemma LogStep(x: real, j: nat, c: int, r: nat, f: nat, r2: nat)
    requires j < 14 && LogState(x, j, c, r) && TWO127 <= r < TWO128 && Halved(r, f, r2)
    ensures LogState(x, j + 1, 2 * c + f, r2)
  {
    LogErrorSmall(j);
    HalvedReals(r, f, r2);
    PowerSquares(x, j);
    DoubleExponent(c, f);
    Advance(RPow(x, Pow2(j)), ZPow(2.0, c), r as real / Q127, LogError(j), (f + 1) as real, r2 as real / Q127,
            0.0000000000000000000000000000000000001, RPow(x, Pow2(j + 1)), ZPow(2.0, 2 * c + f));
  }

  lemma DoubleExponent(c: int, f: nat)
    requires f <= 1
    ensures ZPow(2.0, c) > 0.0 && Doubles(ZPow(2.0, c), (f + 1) as real, ZPow(2.0, 2 * c + f))
  {
    ZPowAdd(2.0, c, c);
    ZPowNext(2.0, 2 * c);
    ZPowPositive(2.0, c);
  }

  /** The wrapping square shifted back to 128 fractional bits: it never wraps. */
  method SquareMantissa(r: u256) returns (sq: u256)
    requires TWO127 <= r < TWO128
    ensures Halved(r, sq / TWO128, Shr(sq, sq / TWO128))
  {
    SquareFits(r);
    HalfWord();
    sq := WrapMul(r, r) / TWO127;
    DivBounds(r * r, TWO127);
    HalveSquare(r, sq);
  }

  /** Square the mantissa and append its top bit to the logarithm. */
  method NextBit(r: u256, log: u256, i: nat, ghost c: int) returns (sq: u256, f: nat, log2: u256)
    requires TWO127 <= r < TWO128 && i < 255 && log == Wrap(c * Pow2(i + 1))
    ensures Halved(r, f, Shr(sq, f)) && log2 == Wrap((2 * c + f) * Pow2(i))
  {
    sq := SquareMantissa(r);
    f := sq / TWO128;
    AppendBit(c, i, f);
    log2 := BitOr(log, f * Pow2(i));
  }

  /** The whole part and j bits after the point, in units of 2^-j. */
  function Joined(whole: int, j: nat, b: nat): int { whole * Pow2(j) + b }

  /** After round i: the bits b found so far, the word of the logarithm, and the mantissa. */
  predicate RoundState(x: real, i: nat, whole: int, b: nat, log: u256, r: nat)
  {
    && i <= 64 && b < Pow2(64 - i) && TWO127 <= r < TWO128
    && log == Wrap(Joined(whole, 64 - i, b) * Pow2(i)) && LogState(x, 64 - i, Joined(whole, 64 - i, b), r)
  }

  lemma JoinedNext(whole: int, j: nat, b: nat, f: nat)
    ensures 2 * Joined(whole, j, b) + f == Joined(whole, j + 1, 2 * b + f)
  {
    assert whole * (2 * Pow2(j)) == 2 * (whole * Pow2(j));
  }

  method Round(ghost x: real, i: nat, ghost whole: int, ghost b: nat, log: u256, r: u256)
    returns (ghost b2: nat, log2: u256, r2: u256)
    requires 50 <= i < 64 && RoundState(x, i + 1, whole, b, log, r)
    ensures RoundState(x, i, whole, b2, log2, r2)
  {
    ghost var c := Joined(whole, 63 - i, b);
    var sq, f;
    sq, f, log2 := NextBit(r, log, i, c);
    r2 := Shr(sq, f);
    LogStep(x, 63 - i, c, r, f, r2);
    JoinedNext(whole, 63 - i, b, f);
    b2 := 2 * b + f;
  }

  /** The thirteen rounds of the loop. */
  method Rounds(ghost x: real, ghost whole: int, log0: u256, r0: u256) returns (ghost b: nat, log: u256, r: u256)
    requires RoundState(x, 64, whole, 0, log0, r0)
    ensures RoundState(x, 51, whole, b, log, r)
  {
    b, log, r := 0, log0, r0;
    for i := 64 downto 51
      invariant RoundState(x, i, whole, b, log, r)
    {
      b, log, r := Round(x, i, whole, b, log, r);
    }
  }

  /** 2^l <= x^(2^14) <= 2^(l + 1), the latter up to one part in 10^4: l is the logarithm of x in
      units of 2^-14, rounded down. */
  predicate Logged(x: real, l: int)
  {
    ZPow(2.0, l) <= RPow(x, 16384) <= ZPow(2.0, l + 1) * 1.0001
  }

  lemma LastState(x: real, l: int, r: nat)
    requires TWO127 <= r < TWO128 && LogState(x, 14, l, r)
    ensures Logged(x, l)
  {
    LogErrorSmall(14);
    ZPowPositive(2.0, l);
    ZPowNext(2.0, l);
    SixteenK();
    LastReals(RPow(x, Pow2(14)), ZPow(2.0, l), r as real / Q127, LogError(14));
  }

  lemma SixteenK()
    ensures Pow2(14) == 16384 && Pow2(13) == 8192
  {
  }

  lemma LastReals(x: real, p: real, rho: real, e: real)
    requires Logs(x, p, rho, e) && p > 0.0 && 1.0 <= rho <= 2.0 && e <= 0.0001
    ensures p <= x <= (2.0 * p) * 1.0001
  {
    BetweenScaled(rho, p);
    Sandwich(x, p, rho * p, e, 2.0 * p);
  }

  predicate Spans(p: real, k: real, q: real) { p <= k <= q }

  lemma BetweenScaled(rho: real, p: real)
    requires p > 0.0 && 1.0 <= rho <= 2.0
    ensures Spans(p, rho * p, 2.0 * p)
  {
  }

  lemma Sandwich(x: real, p: real, k: real, e: real, q: real)
    requires Tracks(x, k, e) && 0.0 <= p && Spans(p, k, q) && e <= 0.0001
    ensures p <= x <= q * 1.0001
  {
    RMulLe(1.0 + e, 1.0001, k);
  }

  /** A valid price shifted left by 32. */
  predicate ValidRatio(ratio: nat) { Pow2(64) <= ratio < Pow2(192) }

  /** The logarithm of ratio / 2^128 to base two, in units of 2^-14: thirteen rounds and a last bit. */
  method Logarithm(ratio: u256) returns (log: u256)
    requires ValidRatio(ratio)
    ensures HoldsLogarithm(ratio, log)
  {
    hide RoundState, Logged, ValidRatio;
    ghost var b: nat, msb: int;
    var r;
    msb, log, r := WholePart(ratio);
    log, b := Fraction(ratio as real / Q128, msb - 128, log, r);
    NeverOverestimates(ratio, msb, b);
    assert IsLogarithm(ratio, log, msb, b);
  }

  /** The word holds (msb - 128) * 2^14 + b, shifted by 50 bits, in two's complement, where msb is the
      top bit of the ratio and b the next fourteen bits of its logarithm, rounded down. */
  predicate IsLogarithm(ratio: nat, log: u256, msb: nat, b: nat)
  {
    && 64 <= msb < 192 && Pow2(msb) <= ratio < 2 * Pow2(msb) && b < 16384
    && log == Wrap(((msb - 128) * 16384 + b) * Pow2(50)) && Logged(ratio as real / Q128, (msb - 128) * 16384 + b)
    && RPow(2.0, msb * 16384 + b) <= RPow(ratio as real, 16384)
  }

  ghost predicate HoldsLogarithm(ratio: nat, log: u256) { exists msb, b :: IsLogarithm(ratio, log, msb, b) }

  /** 2^(msb * 2^14 + b) <= ratio^(2^14): the logarithm of the integer ratio is not overestimated. */
  lemma NeverOverestimates(ratio: nat, msb: nat, b: nat)
    requires Logged(ratio as real / Q128, (msb - 128) * 16384 + b)
    ensures RPow(2.0, msb * 16384 + b) <= RPow(ratio as real, 16384)
  {
    hide RPow;
    var x, n, l := ratio as real / Q128, 16384, (msb - 128) * 16384 + b;
    assert ratio as real == x * Q128;
    RPowProduct(x, Q128, n);
    Q128IsPower();
    ZPowMul(2.0, 128, n);
    ZPowAdd(2.0, l, 128 * n);
    RPowPositive(Q128, n);
    RMulLe(ZPow(2.0, l), RPow(x, n), RPow(Q128, n));
  }

  lemma Q128IsPower()
    ensures ZPow(2.0, 128) == Q128
  {
    SmallPowers();
    Pow2AsReal(128);
  }

  /** The fourteen bits after the point. */
  method Fraction(ghost x: real, ghost whole: int, log0: u256, r0: u256) returns (log: u256, ghost b: nat)
    requires RoundState(x, 64, whole, 0, log0, r0)
    ensures b < 16384 && log == Wrap((whole * 16384 + b) * Pow2(50)) && Logged(x, whole * 16384 + b)
  {
    var r;
    b, log, r := Rounds(x, whole, log0, r0);
    log, b := LastBit(x, whole, b, log, r);
  }

  /** The whole part of the logarithm, and the mantissa. */
  method WholePart(ratio: u256) returns (ghost msb: nat, log: u256, r: u256)
    requires ValidRatio(ratio)
    ensures 64 <= msb < 192 && Pow2(msb) <= ratio < 2 * Pow2(msb)
    ensures RoundState(ratio as real / Q128, 64, msb - 128, 0, log, r)
  {
    var top := MostSignificantBit(ratio);
    BitRange(ratio, top, 64, 192);
    r := Normalise(ratio, top);
    msb := top;
    log := Wrap((top - 128) * Pow2(64));
    FirstState(ratio, top, log, r);
  }

  /** The fourteenth round, which has no use for the mantissa afterwards. */
  method LastBit(ghost x: real, ghost whole: int, ghost b0: nat, log0: u256, r: u256) returns (log: u256, ghost b: nat)
    requires RoundState(x, 51, whole, b0, log0, r)
    ensures b < 16384 && log == Wrap((whole * 16384 + b) * Pow2(50)) && Logged(x, whole * 16384 + b)
  {
    ghost var r2;
    b, log, r2 := Round(x, 50, whole, b0, log0, r);
    SixteenK();
    LastState(x, whole * 16384 + b, r2);
  }

  lemma BitRange(ratio: nat, msb: nat, lo: nat, hi: nat)
    requires Pow2(lo) <= ratio < Pow2(hi) && Pow2(msb) <= ratio < 2 * Pow2(msb)
    ensures lo <= msb < hi
  {
    if msb < lo { Pow2Mono(msb + 1, lo); }
    if msb >= hi { Pow2Mono(hi, msb); }
  }

  lemma FirstState(ratio: nat, msb: nat, log: u256, r: nat)
    requires Mantissas(ratio, msb - 127, r) && TWO127 <= r < TWO128
    requires log == Wrap((msb - 128) * Pow2(64))
    ensures RoundState(ratio as real / Q128, 64, msb - 128, 0, log, r)
  {
    var x := ratio as real / Q128;
    StartLog(ratio, msb - 127, r);
    assert RPow(x, Pow2(0)) == x;
    assert LogError(0) == 0.0000000000000000000000000000000000001;
    assert Joined(msb - 128, 0, 0) == msb - 128;
  }
}
