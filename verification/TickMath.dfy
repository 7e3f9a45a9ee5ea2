/** `tick_math.rs`, ticks to prices: price(t) approximates 2^96 * 1.0001^(t / 2). */
module TickMath {
  import opened Arithmetic
  import opened Words
  import opened FullMath
  import opened RealPowers

  const MAX_TICK: int := 887272
  const MIN_TICK: int := -887272
  const MIN_SQRT_RATIO: int := 4295128739
  const MAX_SQRT_RATIO: int := 1461446703485210103287273052203988822378723970342
  const TWO32: int := 0x1_0000_0000

  /** The ratio of neighbouring prices, before the square root. */
  const BASE: real := 1.0001

  /** The multiplier of bit k: 2^128 / sqrt(1.0001)^(2^k), rounded to the nearest integer. */
  const MAGIC: seq<int> := [
    0xfffc_b933_bd6f_ad37_aa2d_162d_1a59_4001,
    0xfff9_7272_373d_4132_59a4_6990_580e_213a,
    0xfff2_e50f_5f65_6932_ef12_357c_f3c7_fdcc,
    0xffe5_caca_7e10_e4e6_1c36_24ea_a094_1cd0,
    0xffcb_9843_d60f_6159_c9db_5883_5c92_6644,
    0xff97_3b41_fa98_c081_472e_6896_dfb2_54c0,
    0xff2e_a164_66c9_6a38_43ec_78b3_26b5_2861,
    0xfe5d_ee04_6a99_a2a8_11c4_61f1_969c_3053,
    0xfcbe_86c7_900a_88ae_dcff_c83b_479a_a3a4,
    0xf987_a725_3ac4_1317_6f2b_074c_f781_5e54,
    0xf339_2b08_22b7_0005_940c_7a39_8e4b_70f3,
    0xe715_9475_a2c2_9b74_43b2_9c7f_a6e8_89d9,
    0xd097_f3bd_fd20_22b8_845a_d8f7_92aa_5825,
    0xa9f7_4646_2d87_0fdf_8a65_dc1f_90e0_61e5,
    0x70d8_69a1_56d2_a1b8_90bb_3df6_2baf_32f7,
    0x31be_135f_97d0_8fd9_8123_1505_542f_cfa6,
    0x9aa_508b_5b7a_84e1_c677_de54_f3e9_9bc9,
    0x5d_6af8_dedb_8119_6699_c329_225e_e604,
    0x2216_e584_f5fa_1ea9_2604_1bed_fe98,
    0x48a_1703_91f7_dc42_444e_8fa2
  ]

  /** The ratio after the k lowest bits of n have been multiplied in, for a table of multipliers. */
  function Ladder(table: seq<int>, n: nat, k: nat): (a: nat)
    requires k <= |table| && Multipliers(table)
    ensures a <= TWO128
  {
    if k == 0 then TWO128
    else if Bit(n, k - 1) then
      ShrinkBound(Ladder(table, n, k - 1), table[k - 1]);
      Ladder(table, n, k - 1) * table[k - 1] / TWO128
    else Ladder(table, n, k - 1)
  }

  predicate Multipliers(table: seq<int>)
  {
    forall k :: 0 <= k < |table| ==> 0 < table[k] < TWO128
  }

  lemma ShrinkBound(a: nat, c: nat)
    requires a <= TWO128 && c < TWO128
    ensures 0 <= a * c <= TWO128 * c
    ensures 0 <= a * c / TWO128 <= a
  {
    MulLe(0, a, c);
    MulLe(a, TWO128, c);
    MulLe(c, TWO128, a);
  }

  // ------------------------------------------------- the multipliers are accurate

  const Q128: real := 340282366920938463463374607431768211456.0

  /** An integer in Q128.128 as the real number it stands for. */
  function Fix(x: int): real { x as real / Q128 }

  /** The first multiplier is 1.0001^(-1/2), and each next one the square of the one before, to
      27 digits. */
  predicate Accurate(table: seq<int>)
  {
    && |table| == 20 && Multipliers(table) && table[19] >= 0x400_0000_0000_0000_0000_0000
    && Inverts(Fix(table[0]), BASE, 0.00000000000000000000000001)
    && forall k :: 0 <= k < 19 ==> NextIsSquare(table[k], table[k + 1])
  }

  predicate NextIsSquare(c: int, c2: int)
  {
    -(c * c) <= (c2 * TWO128 - c * c) * 1000000000000000000000000000 <= c * c
  }

  lemma MagicSquares(k: nat)
    requires k < 19
    ensures NextIsSquare(MAGIC[k], MAGIC[k + 1])
  {
    if k == 0 {} else if k == 1 {} else if k == 2 {} else if k == 3 {} else if k == 4 {}
    else if k == 5 {} else if k == 6 {} else if k == 7 {} else if k == 8 {} else if k == 9 {}
    else if k == 10 {} else if k == 11 {} else if k == 12 {} else if k == 13 {} else if k == 14 {}
    else if k == 15 {} else if k == 16 {} else if k == 17 {} else {}
  }

  lemma MagicIsAccurate()
    ensures Accurate(MAGIC)
  {
    forall k | 0 <= k < 19 ensures NextIsSquare(MAGIC[k], MAGIC[k + 1]) { MagicSquares(k); }
    FirstMagic();
  }

  lemma FirstMagic()
    ensures Inverts(Fix(MAGIC[0]), BASE, 0.00000000000000000000000001)
  {
  }

  /** Bound on the relative error of multiplier k: 10^-26 * 3^k. */
  function MagicError(k: nat): (e: real)
    ensures e > 0.0
  {
    if k == 0 then 0.00000000000000000000000001 else 3.0 * MagicError(k - 1)
  }

  lemma MagicErrorSmall(k: nat)
    requires k <= 19
    ensures 0.00000000000000000000000001 <= MagicError(k) <= 0.0000000000000001
  {
    MagicErrorMono(0, k);
    MagicErrorMono(k, 19);
    assert MagicError(4) == 81.0 * MagicError(0);
    assert MagicError(8) == 81.0 * MagicError(4);
    assert MagicError(12) == 81.0 * MagicError(8);
    assert MagicError(16) == 81.0 * MagicError(12);
    assert MagicError(19) == 27.0 * MagicError(16);
  }

  lemma {:induction false} MagicErrorMono(j: nat, k: nat)
    requires j <= k
    ensures MagicError(j) <= MagicError(k)
  {
    if j == k {
    } else {
      MagicErrorMono(j, k - 1);
    }
  }

  /** The square of c is the inverse of g, to a relative error of e. */
  predicate Inverts(c: real, g: real, e: real) { Near((c * c) * g, e) }

  /** The square of multiplier k is 1.0001^-(2^k), to within MagicError(k). */
  lemma {:induction false} MagicNear(table: seq<int>, k: nat)
    requires Accurate(table) && k <= 19
    ensures Inverts(Fix(table[k]), RPow(BASE, Pow2(k)), MagicError(k))
  {
    hide Inverts, NextIsSquare, Fix;
    if k == 0 {
      assert RPow(BASE, 0) == 1.0 && RPow(BASE, 1) == BASE;
    } else {
      var c, c2, g := table[k - 1], table[k], RPow(BASE, Pow2(k - 1));
      MagicNear(table, k - 1);
      RPowAdd(BASE, Pow2(k - 1), Pow2(k - 1));
      MagicErrorSmall(k - 1);
      assert NextIsSquare(table[k - 1], table[k - 1 + 1]);
      var y := FixRatio(c, c2);
      SquareStep(Fix(c), Fix(c2), g, RPow(BASE, Pow2(k)), y, MagicError(k - 1));
    }
  }

  lemma SquareStep(c: real, c2: real, g: real, g2: real, y: real, d: real)
    requires g2 == g * g && c2 == y * (c * c) && Near(y, 0.000000000000000000000000001)
    requires Inverts(c, g, d) && 0.00000000000000000000000001 <= d <= 0.0000000000000001
    ensures Inverts(c2, g2, 3.0 * d)
  {
    var x := (c * c) * g;
    NearMul(y, x, 0.000000000000000000000000001, d);
    var e := (0.000000000000000000000000001 + d) * 1.001;
    NearSquare(y * x, e);
    SquareOut(y, c, g, c2);
    NearWeaken((y * x) * (y * x), e * 2.002, 3.0 * d);
  }

  lemma NearWeaken(x: real, d: real, e: real)
    requires Near(x, d) && d <= e
    ensures Near(x, e)
  {
  }

  lemma SquareOut(y: real, c: real, g: real, c2: real)
    requires c2 == y * (c * c)
    ensures (y * ((c * c) * g)) * (y * ((c * c) * g)) == (c2 * c2) * (g * g)
  {
    Assoc(y, c * c, g);
    SquareProduct(c2, g);
  }

  lemma SquareProduct(a: real, b: real)
    ensures (a * b) * (a * b) == (a * a) * (b * b)
  {
  }

  /** How far a multiplier is from the square of the one before. */
  lemma FixRatio(c: int, c2: int) returns (y: real)
    requires c > 0 && NextIsSquare(c, c2)
    ensures Fix(c2) == y * (Fix(c) * Fix(c)) && Near(y, 0.000000000000000000000000001)
  {
    var a, b := c as real, c2 as real;
    SquareReal(c, c2);
    y := b * Q128 / (a * a);
    RQuotient(b * Q128, a * a);
    RatioNear(b * Q128, a * a, y);
    FixSquare(c, y, b);
  }

  lemma SquareReal(c: int, c2: int)
    requires c > 0 && NextIsSquare(c, c2)
    ensures var s := c as real * c as real;
            s > 0.0 && -s <= (c2 as real * Q128 - s) * 1000000000000000000000000000.0 <= s
  {
    RMulLt(0.0, c as real, c as real);
    assert (c * c) as real == c as real * c as real;
  }

  lemma RatioNear(b: real, s: real, y: real)
    requires s > 0.0 && y * s == b
    requires -s <= (b - s) * 1000000000000000000000000000.0 <= s
    ensures Near(y, 0.000000000000000000000000001)
  {
    var r := 0.000000000000000000000000001;
    if y > 1.0 + r { RMulLt(1.0 + r, y, s); }
    if y < 1.0 - r { RMulLt(y, 1.0 - r, s); }
  }

  lemma FixSquare(c: int, y: real, b: real)
    requires y * (c as real * c as real) == b * Q128
    ensures b / Q128 == y * (Fix(c) * Fix(c))
  {
    var a := c as real;
    assert Fix(c) * Fix(c) == (a * a) / (Q128 * Q128);
    assert y * ((a * a) / (Q128 * Q128)) == (y * (a * a)) / (Q128 * Q128);
  }

  // ------------------------------------------------------ the ladder is accurate

  const HUGE: real := 11417981541647679048466287755595961091061972992.0 // 2^153
  const TINY: real := 0.000000000000000000000006617444900424221355 // below 2^-77

  lemma {:induction false} RPowRises(b: real, m: nat, n: nat)
    requires b >= 1.0 && m <= n
    ensures RPow(b, m) <= RPow(b, n)
  {
    if m == n {
    } else {
      RPowRises(b, m, n - 1);
      RPowPositive(b, n - 1);
      RMulLe(1.0, b, RPow(b, n - 1));
    }
  }

  /** 1.0001^(2^20) is below 2^153. */
  lemma PowerBelowHuge(table: seq<int>, m: nat)
    requires Accurate(table) && m <= Pow2(20)
    ensures 0.0 < RPow(BASE, m) <= HUGE
  {
    PowerHalf(table);
    PowerWhole(19);
    RPowRises(BASE, m, Pow2(20));
    RPowPositive(BASE, m);
  }

  lemma PowerHalf(table: seq<int>)
    requires Accurate(table)
    ensures 0.0 < RPow(BASE, Pow2(19)) <= 80000000000000000000000.0
  {
    MagicNear(table, 19);
    MagicErrorSmall(19);
    RPowPositive(BASE, Pow2(19));
    HalfHuge(Fix(table[19]), RPow(BASE, Pow2(19)), MagicError(19));
  }

  lemma PowerWhole(j: nat)
    requires 0.0 < RPow(BASE, Pow2(j)) <= 80000000000000000000000.0
    ensures RPow(BASE, Pow2(j + 1)) <= HUGE
  {
    var g := RPow(BASE, Pow2(j));
    RPowAdd(BASE, Pow2(j), Pow2(j));
    RMulLeMul(g, 80000000000000000000000.0, g, 80000000000000000000000.0);
  }

  lemma HalfHuge(c: real, g: real, e: real)
    requires c >= 0.00000000000363 && g > 0.0 && Inverts(c, g, e) && e <= 0.001
    ensures g <= 80000000000000000000000.0
  {
    RMulLeMul(0.00000000000363, c, 0.00000000000363, c);
    if g > 80000000000000000000000.0 {
      RMulLeMul(0.000000000000000000000013, c * c, 80000000000000000000000.0, g);
    }
  }

  /** The relative error after k bits: k * 10^-14. */
  function LadderError(k: nat): real { k as real * 0.00000000000001 }

  /** A number whose square inverts a power below 2^153 is not tiny. */
  lemma NotTiny(p: real, g: real, e: real)
    requires p >= 0.0 && Inverts(p, g, e) && e <= 0.001 && 0.0 < g <= HUGE
    ensures p >= TINY
  {
    if p < TINY {
      RMulLeMul(p, TINY, p, TINY);
      RMulLeMul(p * p, TINY * TINY, g, HUGE);
    }
  }

  /** Multiplying two inverses inverts the product. */
  lemma InvertsMul(a: real, c: real, g: real, h: real, gh: real, d: real, e: real)
    requires Inverts(a, g, d) && Inverts(c, h, e) && gh == g * h
    requires 0.0 <= d <= 0.001 && 0.0 <= e <= 0.001
    ensures Inverts(a * c, gh, (d + e) * 1.001)
  {
    NearMul((a * a) * g, (c * c) * h, d, e);
    Interleave(a, c, g, h);
  }

  lemma Interleave(a: real, c: real, g: real, h: real)
    ensures ((a * a) * g) * ((c * c) * h) == ((a * c) * (a * c)) * (g * h)
  {
    SquareProduct(a, c);
    Assoc(a * a, g, (c * c) * h);
    Rotate(g, c * c, h);
    Assoc(a * a, c * c, g * h);
  }

  /** Truncating to a 2^-128 grid costs a number that is not tiny at most 10^-14 of its inverse. */
  lemma InvertsTruncated(p: real, q: real, g: real, d: real)
    requires Inverts(p, g, d) && 0.0 <= d <= 0.000001 && p >= TINY
    requires p - 1.0 / Q128 < q <= p
    ensures Inverts(q, g, d * 1.001 + 0.000000000000002)
  {
    var w := q / p;
    RQuotient(q, p);
    TruncationRatio(p, q, w);
    NearSquare(w, TRUNCATION);
    SquareProduct(w, p);
    Assoc(w * w, p * p, g);
    NearBoth(w * w, (p * p) * g, d);
  }

  /** What truncation costs a number that is not tiny, relatively. */
  const TRUNCATION: real := 0.00000000000000045

  lemma NearBoth(x: real, y: real, d: real)
    requires Near(x, TRUNCATION * 2.002) && Near(y, d) && 0.0 <= d <= 0.000001
    ensures Near(x * y, d * 1.001 + 0.000000000000002)
  {
    NearMul(x, y, TRUNCATION * 2.002, d);
    NearWeaken(x * y, (TRUNCATION * 2.002 + d) * 1.001, d * 1.001 + 0.000000000000002);
  }

  lemma TruncationRatio(p: real, q: real, w: real)
    requires p >= TINY && w * p == q && p - 1.0 / Q128 < q <= p
    ensures Near(w, TRUNCATION)
  {
    if w > 1.0 { RMulLt(1.0, w, p); }
    if w < 1.0 - TRUNCATION { RMulLt(w, 1.0 - TRUNCATION, p); }
  }

  /** q is the product of a and c, truncated to the 2^-128 grid. */
  predicate Truncates(a: real, c: real, q: real) { a >= 0.0 && c >= 0.0 && a * c - 1.0 / Q128 < q <= a * c }

  predicate IsProduct(gh: real, g: real, h: real) { gh == g * h }

  lemma FixFloor(a: nat, c: nat, q: nat)
    requires q * TWO128 <= a * c < q * TWO128 + TWO128
    ensures Truncates(Fix(a), Fix(c), Fix(q))
  {
    assert (a * c) as real == a as real * c as real;
    assert Fix(a) * Fix(c) == (a as real * c as real) / (Q128 * Q128);
  }

  /** The low k + 1 bits are the low k bits and bit k. */
  lemma LowBits(n: nat, k: nat)
    ensures n % Pow2(k + 1) == n % Pow2(k) + (if Bit(n, k) then Pow2(k) else 0)
    ensures 0 <= n % Pow2(k) < Pow2(k)
  {
    var p := Pow2(k);
    DivBounds(n, p);
    DivBounds(n / p, 2);
    LowBitsSplit(n, p, n / p, (n / p) / 2, n % p, (n / p) % 2);
  }

  lemma LowBitsSplit(n: nat, p: nat, q: int, h: int, r: int, b: int)
    requires p > 0 && n == q * p + r && 0 <= r < p && q == h * 2 + b && 0 <= b < 2
    ensures n % (2 * p) == r + b * p
  {
    assert q * p == h * (2 * p) + b * p;
    ModIs(n, 2 * p, r + b * p, h);
  }

  /** Up to a relative error of k * 10^-14, the ladder's square is 2^256 / 1.0001^(n mod 2^k). */
  lemma {:induction false} LadderNear(table: seq<int>, n: nat, k: nat)
    requires Accurate(table) && k <= 20
    ensures Inverts(Fix(Ladder(table, n, k)), RPow(BASE, n % Pow2(k)), LadderError(k))
  {
    hide Inverts, Fix, NextIsSquare, RPow, LadderError, MagicError, Truncates, IsProduct;
    if k == 0 {
      NoRung(table, n);
    } else {
      var j, a, m := k - 1, Ladder(table, n, k - 1), n % Pow2(k - 1);
      LadderNear(table, n, j);
      LowBits(n, j);
      LadderErrorGrows(j);
      if Bit(n, j) {
        DivBounds(a * table[j], TWO128);
        FixFloor(a, table[j], Ladder(table, n, k));
        MagicNear(table, j);
        MagicErrorSmall(j);
        var gh := RungPower(table, j, m);
        RungReals(Fix(a), Fix(table[j]), Fix(Ladder(table, n, k)), RPow(BASE, m), RPow(BASE, Pow2(j)), gh,
                  LadderError(j), MagicError(j));
      } else {
        InvertsWeaken(Fix(Ladder(table, n, k)), RPow(BASE, n % Pow2(k)), LadderError(k - 1), LadderError(k));
      }
    }
  }

  lemma InvertsWeaken(c: real, g: real, d: real, e: real)
    requires Inverts(c, g, d) && d <= e
    ensures Inverts(c, g, e)
  {
  }

  lemma LadderErrorGrows(k: nat)
    requires k < 20
    ensures 0.0 <= LadderError(k) <= 0.0000000000002 && LadderError(k + 1) == LadderError(k) + 0.00000000000001
  {
  }

  lemma NoRung(table: seq<int>, n: nat)
    requires Accurate(table)
    ensures Inverts(Fix(Ladder(table, n, 0)), RPow(BASE, n % Pow2(0)), LadderError(0))
  {
    DivBounds(n, 1);
    assert RPow(BASE, n % Pow2(0)) == 1.0;
  }

  lemma RungPower(table: seq<int>, k: nat, m: nat) returns (gh: real)
    requires Accurate(table) && k < 20 && m < Pow2(k)
    ensures gh == RPow(BASE, m + Pow2(k)) && IsProduct(gh, RPow(BASE, m), RPow(BASE, Pow2(k)))
    ensures 0.0 < gh <= HUGE
  {
    hide RPow, Pow2, Accurate;
    RPowAdd(BASE, m, Pow2(k));
    BelowPow2(m, k, 20);
    PowerBelowHuge(table, m + Pow2(k));
    gh := RPow(BASE, m + Pow2(k));
  }

  lemma BelowPow2(m: nat, k: nat, n: nat)
    requires m < Pow2(k) && k < n
    ensures m + Pow2(k) <= Pow2(n)
  {
    Pow2Mono(k + 1, n);
  }

  lemma RungReals(a: real, c: real, q: real, g: real, h: real, gh: real, d: real, e: real)
    requires Inverts(a, g, d) && Inverts(c, h, e) && IsProduct(gh, g, h) && 0.0 < gh <= HUGE
    requires 0.0 <= d <= 0.0000000000002 && 0.0 < e <= 0.0000000000000001
    requires Truncates(a, c, q)
    ensures Inverts(q, gh, d + 0.00000000000001)
  {
    InvertsMul(a, c, g, h, gh, d, e);
    var f := (d + e) * 1.001;
    RMulLeMul(0.0, a, 0.0, c);
    NotTiny(a * c, gh, f);
    InvertsTruncated(a * c, q, gh, f);
    NearWeaken((q * q) * gh, f * 1.001 + 0.000000000000002, d + 0.00000000000001);
  }

  // ------------------------------------------------------------ the last tick

  lemma ClimbSet(k: nat, rest: nat, before: nat, after: nat)
    requires k < 20 && MAX_TICK / Pow2(k) == rest && rest % 2 == 1
    requires Multipliers(MAGIC) && Ladder(MAGIC, MAX_TICK, k) == before
    requires before * MAGIC[k] >= 0 && after == before * MAGIC[k] / TWO128
    ensures Ladder(MAGIC, MAX_TICK, k + 1) == after && MAX_TICK / Pow2(k + 1) == rest / 2
  {
    FloorFloor(MAX_TICK, Pow2(k), 2);
  }

  lemma ClimbClear(k: nat, rest: nat)
    requires k < 20 && MAX_TICK / Pow2(k) == rest && rest % 2 == 0
    requires Multipliers(MAGIC)
    ensures Ladder(MAGIC, MAX_TICK, k + 1) == Ladder(MAGIC, MAX_TICK, k) && MAX_TICK / Pow2(k + 1) == rest / 2
  {
    FloorFloor(MAX_TICK, Pow2(k), 2);
  }

  lemma LowestRung()
    requires Multipliers(MAGIC)
    ensures Ladder(MAGIC, MAX_TICK, 0) == TWO128 && MAX_TICK / Pow2(0) == MAX_TICK
  {
    DivBounds(MAX_TICK, 1);
  }

  lemma LowerRungs()
    requires Multipliers(MAGIC)
    ensures Ladder(MAGIC, MAX_TICK, 8) == 0xfd0c_3654_da9e_0337_41d1_a9f9_3707_f6f6
    ensures MAX_TICK / Pow2(8) == 3465
  {
    hide Multipliers, Ladder;
    LowestRung();
    ClimbClear(0, 887272);
    ClimbClear(1, 443636);
    ClimbClear(2, 221818);
    ClimbSet(3, 110909, TWO128, 0xffe5_caca_7e10_e4e6_1c36_24ea_a094_1cd0);
    ClimbClear(4, 55454);
    ClimbSet(5, 27727, 0xffe5_caca_7e10_e4e6_1c36_24ea_a094_1cd0, 0xff7d_10c6_3a97_7157_da41_40de_b6f3_1a7b);
    ClimbSet(6, 13863, 0xff7d_10c6_3a97_7157_da41_40de_b6f3_1a7b, 0xfeac_1d40_52f7_7148_18b4_90c1_138e_a058);
    ClimbSet(7, 6931, 0xfeac_1d40_52f7_7148_18b4_90c1_138e_a058, 0xfd0c_3654_da9e_0337_41d1_a9f9_3707_f6f6);
  }

  lemma MiddleRungs()
    requires Multipliers(MAGIC)
    requires Ladder(MAGIC, MAX_TICK, 8) == 0xfd0c_3654_da9e_0337_41d1_a9f9_3707_f6f6
    requires MAX_TICK / Pow2(8) == 3465
    ensures Ladder(MAGIC, MAX_TICK, 15) == 0xe183_ac4e_25d5_9499_6624_2a64_e9c8_0e2f
    ensures MAX_TICK / Pow2(15) == 27
  {
    hide Ladder, Multipliers;
    ClimbSet(8, 3465, 0xfd0c_3654_da9e_0337_41d1_a9f9_3707_f6f6, 0xf9d4_59c5_817d_bafa_9e37_6ae8_4dcf_eb8b);
    ClimbClear(9, 1732);
    ClimbClear(10, 866);
    ClimbSet(11, 433, 0xf9d4_59c5_817d_bafa_9e37_6ae8_4dcf_eb8b, 0xe183_ac4e_25d5_9499_6624_2a64_e9c8_0e2f);
    ClimbClear(12, 216);
    ClimbClear(13, 108);
    ClimbClear(14, 54);
  }

  /** The ratio at the last tick, digit for digit. */
  lemma LastRung()
    requires Multipliers(MAGIC)
    ensures Ladder(MAGIC, MAX_TICK, 20) == 0x1_0002_76a2_21a1_7501
  {
    LowerRungs();
    MiddleRungs();
    ClimbSet(15, 27, 0xe183_ac4e_25d5_9499_6624_2a64_e9c8_0e2f, 0x2bd1_a4c5_d2a1_181a_ca1e_f15e_64c2_e3cf);
    ClimbSet(16, 13, 0x2bd1_a4c5_d2a1_181a_ca1e_f15e_64c2_e3cf, 0x1a7_85cb_bdc0_5048_3e3b_e581_2760_be73);
    ClimbClear(17, 6);
    ClimbSet(18, 3, 0x1a7_85cb_bdc0_5048_3e3b_e581_2760_be73, 0x38_65a6_455d_07d2_bc87_c595_6d2e);
    ClimbSet(19, 1, 0x38_65a6_455d_07d2_bc87_c595_6d2e, 0x1_0002_76a2_21a1_7501);
  }

  // ------------------------------------------------------- the price at a tick

  const Q96: real := 79228162514264337593543950336.0

  lemma MaxPower()
    ensures 0.0 < RPow(BASE, MAX_TICK) <= 341000000000000000000000000000000000000.0
  {
    MagicIsAccurate();
    LastRung();
    LadderNear(MAGIC, MAX_TICK, 20);
    FewBits(MAX_TICK);
    RPowPositive(BASE, MAX_TICK);
    MaxPowerReals(Fix(0x1_0002_76a2_21a1_7501), RPow(BASE, MAX_TICK), LadderError(20));
  }

  lemma FewBits(n: nat)
    requires n <= MAX_TICK
    ensures n % Pow2(20) == n
  {
    SmallPowers20();
    ModSmall(n, Pow2(20));
  }

  lemma SmallPowers20()
    ensures Pow2(20) == 1048576
  {
    assert Pow2(5) == 32;
    Pow2Product(5, 5, 32, 32);
    Pow2Product(10, 10, 1024, 1024);
  }

  lemma MaxPowerReals(a: real, g: real, e: real)
    requires a >= 0.00000000000000000005421 && g > 0.0 && Inverts(a, g, e) && e <= 0.000001
    ensures g <= 341000000000000000000000000000000000000.0
  {
    RMulLeMul(0.00000000000000000005421, a, 0.00000000000000000005421, a);
    if g > 341000000000000000000000000000000000000.0 {
      RMulLeMul(0.000000000000000000000000000000000000002938, a * a, 341000000000000000000000000000000000000.0, g);
    }
  }

  const SMALLEST: real := 0.000000000000000000054 // just below 2^-64

  /** For every valid |tick| the ladder ends accurate, and not below 2^63. */
  lemma TickLadder(n: nat)
    requires n <= MAX_TICK
    ensures Multipliers(MAGIC)
    ensures Inverts(Fix(Ladder(MAGIC, n, 20)), RPow(BASE, n), 0.0000000000002)
    ensures Fix(Ladder(MAGIC, n, 20)) >= SMALLEST && Ladder(MAGIC, n, 20) >= 0x8000_0000_0000_0000
  {
    MagicIsAccurate();
    LadderNear(MAGIC, n, 20);
    FewBits(n);
    MaxPower();
    RPowRises(BASE, n, MAX_TICK);
    RPowPositive(BASE, n);
    AtLeastSmallest(Fix(Ladder(MAGIC, n, 20)), RPow(BASE, n));
  }

  lemma AtLeastSmallest(a: real, g: real)
    requires a >= 0.0 && Inverts(a, g, 0.0000000000002) && 0.0 < g <= 341000000000000000000000000000000000000.0
    ensures a >= SMALLEST
  {
    assert (a * a) * g >= 0.996;
    if a < SMALLEST {
      RMulLeMul(a, SMALLEST, a, SMALLEST);
      SquareTooSmall(a * a, g);
    }
  }

  lemma SquareTooSmall(aa: real, g: real)
    requires 0.0 <= aa <= SMALLEST * SMALLEST && 0.0 <= g <= 341000000000000000000000000000000000000.0
    ensures aa * g <= 0.995
  {
    var s := 0.000000000000000000000000000000000000002916;
    assert SMALLEST * SMALLEST == s;
    RMulLeMul(aa, s, g, 341000000000000000000000000000000000000.0);
  }

  /** The ladder's end, inverted for positive ticks, shifted to 96 fractional bits, rounded up. */
  function Rounded(a: nat, invert: bool): (p: nat)
    requires a > 0
  {
    CeilBounds(MAX256, a);
    CeilDiv(if invert then MAX256 / a else a, TWO32)
  }

  /** `get_sqrt_ratio_at_tick` for a tick in range. */
  function PriceAtTick(tick: int): (p: nat)
    requires MIN_TICK <= tick <= MAX_TICK
  {
    TickLadder(if tick < 0 then -tick else tick);
    Rounded(Ladder(MAGIC, if tick < 0 then -tick else tick, 20), tick > 0)
  }

  /** p * 2^-96 is the square root of 1.0001^t, to two parts in a billion of the square. */
  predicate Priced(p: nat, t: int)
  {
    Close(p as real / Q96, ZPow(BASE, t), 0.000000002)
  }

  predicate Close(x: real, h: real, e: real) { (1.0 - e) * h <= x * x <= (1.0 + e) * h }

  lemma CloseAfterRounding(u: real, x: real, h: real)
    requires Close(u, h, 0.000000000001) && h > 0.0 && u >= SMALLEST && u <= x < u + 1.0 / Q96
    ensures Close(x, h, 0.000000002)
  {
    RMulLeMul(u, x, u, x);
    var r := 0.0000000003;
    assert x <= (1.0 + r) * u;
    RMulLeMul(x, (1.0 + r) * u, x, (1.0 + r) * u);
    assert ((1.0 + r) * u) * ((1.0 + r) * u) == ((1.0 + r) * (1.0 + r)) * (u * u);
  }

  lemma InvertsClose(a: real, g: real, h: real, e: real)
    requires Inverts(a, g, e) && h > 0.0 && h * g == 1.0
    ensures Close(a, h, e)
  {
    var s := (a * a) * g;
    RMulLe(1.0 - e, s, h);
    RMulLe(s, 1.0 + e, h);
    assert s * h == a * a by { Assoc(a * a, g, h); }
  }

  /** Dividing one by a number whose square inverts g gives a square root of g. */
  lemma ReciprocalClose(a: real, u: real, g: real)
    requires Inverts(a, g, 0.0000000000002) && g > 0.0
    requires 0.999999999999999 <= a * u <= 1.0
    ensures Close(u, g, 0.000000000001)
  {
    var w, s, v := a * u, (a * a) * g, u * u;
    assert v * s == (w * w) * g by { Interleaved(a, u, g); }
    RMulLeMul(0.999999999999999, w, 0.999999999999999, w);
    RMulLeMul(w, 1.0, w, 1.0);
    SquareBetween(v, s, w * w, g);
  }

  lemma Interleaved(a: real, u: real, g: real)
    ensures (u * u) * ((a * a) * g) == ((a * u) * (a * u)) * g
  {
    SquareProduct(a, u);
    Assoc(u * u, a * a, g);
  }

  lemma SquareBetween(v: real, s: real, ww: real, g: real)
    requires v >= 0.0 && g > 0.0 && Near(s, 0.0000000000002) && 0.999999999999997 <= ww <= 1.0
    requires v * s == ww * g
    ensures (1.0 - 0.000000000001) * g <= v <= (1.0 + 0.000000000001) * g
  {
    Bracket(0.999999999999997, ww, 1.0, g, ww * g);
    Bracket(0.9999999999998, s, 1.0000000000002, v, s * v);
    BothNear(v, v * s, g);
  }

  lemma BothNear(v: real, x: real, g: real)
    requires v >= 0.0 && g > 0.0
    requires 0.999999999999997 * g <= x <= g && 0.9999999999998 * v <= x <= 1.0000000000002 * v
    ensures (1.0 - 0.000000000001) * g <= v <= (1.0 + 0.000000000001) * g
  {
  }

  /** The integer quotient of 2^256 - 1 by a is the reciprocal of a, to 15 digits. */
  lemma ReciprocalReals(a: nat, r: nat)
    requires 0 < a <= TWO128 && a * r <= MAX256 < a * r + a
    ensures 0.999999999999999 <= Fix(a) * Fix(r) <= 1.0 && Fix(r) >= 0.9
  {
    SmallPowers();
    Pow2Add(128, 128);
    ReciprocalScaled(a, r, TWO128);
  }

  lemma ReciprocalScaled(a: nat, r: nat, t: nat)
    requires 0 < a <= t && t == TWO128 && a * r <= t * t - 1 < a * r + a
    ensures 0.999999999999999 <= Fix(a) * Fix(r) <= 1.0 && Fix(r) >= 0.9
  {
    var x, y, s := a as real, r as real, t as real;
    assert (a * r) as real == x * y && (t * t) as real == s * s;
    ReciprocalBounds(Fix(a), Fix(r), x, y, s);
  }

  lemma ReciprocalBounds(u: real, v: real, x: real, y: real, s: real)
    requires x == u * s && y == v * s && 0.0 < u <= 1.0 && v >= 0.0 && 0.0 < x <= s && s >= 1000000000000000000.0
    requires x * y <= s * s <= x * y + x
    ensures 0.999999999999999 <= u * v <= 1.0 && v >= 0.9
  {
    Shuffle(u, s, v, s);
    RMulLe(1000000000000000000.0, s, s);
    RatioBounds(u * v, s * s, x);
    RMulLe(u, 1.0, v);
  }

  lemma RatioBounds(w: real, ss: real, x: real)
    requires ss > 0.0 && w * ss <= ss <= w * ss + x && 1000000000000000000.0 * x <= ss
    ensures 0.999999999999999 <= w <= 1.0
  {
    if w > 1.0 { RMulLt(1.0, w, ss); }
    if w < 0.999999999999999 { RMulLt(w, 0.999999999999999, ss); }
  }

  lemma RoundUpReals(r: nat, p: nat)
    requires p == CeilDiv(r, TWO32)
    ensures Fix(r) <= p as real / Q96 < Fix(r) + 1.0 / Q96
  {
    assert p * TWO32 >= r && p * TWO32 < r + TWO32;
    assert (p * TWO32) as real == p as real * 4294967296.0;
  }

  /** Every price is the square root of 1.0001^tick, to two parts in a billion of its square. */
  lemma PriceIsPriced(tick: int)
    requires MIN_TICK <= tick <= MAX_TICK
    ensures Priced(PriceAtTick(tick), tick)
  {
    if tick > 0 { PriceAbove(tick); } else { PriceBelow(-tick); }
  }

  lemma PriceAbove(n: int)
    requires 0 < n <= MAX_TICK
    ensures Close(PriceAtTick(n) as real / Q96, ZPow(BASE, n), 0.000000002)
  {
    TickLadder(n);
    RPowPositive(BASE, n);
    PositivePriced(Ladder(MAGIC, n, 20), RPow(BASE, n));
  }

  lemma PriceBelow(n: int)
    requires 0 <= n <= MAX_TICK
    ensures Close(PriceAtTick(-n) as real / Q96, ZPow(BASE, -n), 0.000000002)
  {
    TickLadder(n);
    ReciprocalPower(n);
    NegativePriced(Ladder(MAGIC, n, 20), RPow(BASE, n), ZPow(BASE, -n));
  }

  lemma ReciprocalPower(n: int)
    requires n >= 0
    ensures ZPow(BASE, -n) > 0.0 && ZPow(BASE, -n) * RPow(BASE, n) == 1.0
  {
    RPowPositive(BASE, n);
    Inverse(RPow(BASE, n));
  }

  lemma PositivePriced(a: nat, g: real)
    requires 0 < a <= TWO128 && Inverts(Fix(a), g, 0.0000000000002) && g > 0.0
    ensures Close(Rounded(a, true) as real / Q96, g, 0.000000002)
  {
    hide Inverts, Close, Rounded;
    var r := RoundedReciprocal(a);
    ReciprocalReals(a, r);
    ReciprocalPriced(Fix(a), Fix(r), Rounded(a, true) as real / Q96, g);
  }

  lemma RoundedReciprocal(a: nat) returns (r: nat)
    requires a > 0
    ensures a * r <= MAX256 < a * r + a
    ensures Fix(r) <= Rounded(a, true) as real / Q96 < Fix(r) + 1.0 / Q96
  {
    CeilBounds(MAX256, a);
    r := MAX256 / a;
    RoundUpReals(r, Rounded(a, true));
  }

  lemma ReciprocalPriced(a: real, u: real, x: real, g: real)
    requires Inverts(a, g, 0.0000000000002) && g > 0.0 && u >= 0.9
    requires 0.999999999999999 <= a * u <= 1.0 && u <= x < u + 1.0 / Q96
    ensures Close(x, g, 0.000000002)
  {
    hide Inverts, Close;
    ReciprocalClose(a, u, g);
    CloseAfterRounding(u, x, g);
  }

  lemma NegativePriced(a: nat, g: real, h: real)
    requires Inverts(Fix(a), g, 0.0000000000002) && Fix(a) >= SMALLEST && h > 0.0 && h * g == 1.0
    requires a > 0
    ensures Close(Rounded(a, false) as real / Q96, h, 0.000000002)
  {
    var p := Rounded(a, false);
    InvertsClose(Fix(a), g, h, 0.0000000000002);
    RoundUpReals(a, p);
    CloseWeaken(Fix(a), h);
    CloseAfterRounding(Fix(a), p as real / Q96, h);
  }

  lemma CloseWeaken(x: real, h: real)
    requires Close(x, h, 0.0000000000002) && h > 0.0
    ensures Close(x, h, 0.000000000001)
  {
  }

  // ---------------------------------------------------------- order and range

  lemma CloseOrders(x: real, y: real, h: real, k: real)
    requires Close(x, h, 0.000000002) && Close(y, k, 0.000000002)
    requires x >= 0.0 && y >= 0.0 && h > 0.0 && k >= BASE * h
    ensures x < y
  {
    if x >= y { RMulLeMul(y, x, y, x); }
  }

  /** `get_sqrt_ratio_at_tick` is strictly increasing: a higher tick has a higher price. */
  lemma PriceStrict(s: int, t: int)
    requires MIN_TICK <= s < t <= MAX_TICK
    ensures PriceAtTick(s) < PriceAtTick(t)
  {
    PriceIsPriced(s);
    PriceIsPriced(t);
    ZPowNext(BASE, s);
    ZPowMono(BASE, s + 1, t);
    ZPowPositive(BASE, s);
    CloseOrders(PriceAtTick(s) as real / Q96, PriceAtTick(t) as real / Q96, ZPow(BASE, s), ZPow(BASE, t));
  }

  /** The extreme ticks have exactly the advertised extreme prices. */
  lemma PriceEndpoints()
    ensures PriceAtTick(MIN_TICK) == MIN_SQRT_RATIO && PriceAtTick(MAX_TICK) == MAX_SQRT_RATIO
  {
    TickLadder(MAX_TICK);
    LastRung();
    LastReciprocal(0x1_0002_76a2_21a1_7501);
  }

  lemma LastReciprocal(a: nat)
    requires a == 0x1_0002_76a2_21a1_7501
    ensures CeilDiv(a, TWO32) == MIN_SQRT_RATIO
    ensures CeilDiv(MAX256 / a, TWO32) == MAX_SQRT_RATIO
  {
    SmallPowers();
    Pow2Add(128, 128);
    LongDivision(TWO256, TWO128, a, 18446050711097703530, 5793122617009869206,
                 106860233568971087092577245213033506202, 948092953518045286);
  }

  lemma LongDivision(square: int, t: int, a: int, q: int, r: int, q2: int, r2: int)
    requires a > 0 && square == t * t && t == q * a + r && r * t == q2 * a + r2 && 1 <= r2 <= a
    ensures (square - 1) / a == q * t + q2
  {
    assert t * t == (q * t + q2) * a + r2;
    DivIs(square - 1, a, q * t + q2);
  }

  /** Every price lies between the advertised bounds. */
  lemma PriceInRange(tick: int)
    requires MIN_TICK <= tick <= MAX_TICK
    ensures MIN_SQRT_RATIO <= PriceAtTick(tick) <= MAX_SQRT_RATIO
  {
    PriceEndpoints();
    if MIN_TICK < tick { PriceStrict(MIN_TICK, tick); }
    if tick < MAX_TICK { PriceStrict(tick, MAX_TICK); }
  }

  // ------------------------------------------------------------ the computation

  function PriceResult(tick: int): (r: Result<u256>)
    ensures r.Ok? ==> MIN_SQRT_RATIO <= r.value <= MAX_SQRT_RATIO
  {
    if MIN_TICK <= tick <= MAX_TICK then
      PriceInRange(tick);
      MaxPriceFits();
      Ok(PriceAtTick(tick))
    else if tick == -0x8000_0000 then Err(NegationOverflow)
    else Err(TickOutOfRange)
  }

  lemma MaxPriceFits()
    ensures MAX_SQRT_RATIO < TWO160 < TWO256
  {
    SmallPowers();
    Pow2Strict(160, 256);
  }

  lemma FirstRung(n: nat)
    requires Multipliers(MAGIC)
    ensures BitAnd(n, 1) != 0 <==> Bit(n, 0)
    ensures Ladder(MAGIC, n, 1) == if Bit(n, 0) then MAGIC[0] else TWO128
    ensures 0 <= MAGIC[0] < TWO256 && TWO128 < TWO256
  {
    AndPow2(n, 0);
    SmallPowers();
    Pow2Strict(128, 256);
    assert Ladder(MAGIC, n, 0) == TWO128;
    assert TWO128 * MAGIC[0] / TWO128 == MAGIC[0];
  }

  /** Masking with a power of two tests one bit. */
  lemma {:induction false} AndPow2(n: nat, k: nat)
    ensures BitAnd(n, Pow2(k)) == if Bit(n, k) then Pow2(k) else 0
  {
    if k == 0 {
      AndZero(n / 2);
    } else {
      AndPow2(n / 2, k - 1);
      FloorFloor(n, 2, Pow2(k - 1));
    }
  }

  /** One conditional multiply of the chain. */
  method Rise(absTick: nat, k: nat, ratio: u256) returns (r: u256)
    requires k < 20 && Multipliers(MAGIC) && ratio == Ladder(MAGIC, absTick, k)
    ensures r == Ladder(MAGIC, absTick, k + 1)
  {
    r := ratio;
    AndPow2(absTick, k);
    if BitAnd(absTick, Pow2(k)) != 0 {
      NoWrap(ratio, MAGIC[k]);
      r := WrapMul(ratio, MAGIC[k]) / TWO128;
    }
  }

  lemma NoWrap(a: nat, c: nat)
    requires a <= TWO128 && c < TWO128
    ensures WrapMul(a, c) == a * c
    ensures 0 <= a * c / TWO128 < TWO256
  {
    SmallPowers();
    Pow2Add(128, 128);
    ShrinkBound(a, c);
    MulLt(c, TWO128, TWO128);
    WrapNear(a * c);
  }

  /** The twenty conditional multiplies in order. */
  method Climb(absTick: nat) returns (ratio: u256)
    requires Multipliers(MAGIC)
    ensures ratio == Ladder(MAGIC, absTick, 20)
  {
    FirstRung(absTick);
    ratio := if BitAnd(absTick, 1) != 0 then MAGIC[0] else TWO128;
    ratio := Rise(absTick, 1, ratio);
    ratio := Rise(absTick, 2, ratio);
    ratio := Rise(absTick, 3, ratio);
    ratio := Rise(absTick, 4, ratio);
    ratio := Rise(absTick, 5, ratio);
    ratio := Rise(absTick, 6, ratio);
    ratio := Rise(absTick, 7, ratio);
    ratio := Rise(absTick, 8, ratio);
    ratio := Rise(absTick, 9, ratio);
    ratio := Rise(absTick, 10, ratio);
    ratio := Rise(absTick, 11, ratio);
    ratio := Rise(absTick, 12, ratio);
    ratio := Rise(absTick, 13, ratio);
    ratio := Rise(absTick, 14, ratio);
    ratio := Rise(absTick, 15, ratio);
    ratio := Rise(absTick, 16, ratio);
    ratio := Rise(absTick, 17, ratio);
    ratio := Rise(absTick, 18, ratio);
    ratio := Rise(absTick, 19, ratio);
  }

  /** `get_sqrt_ratio_at_tick`, for every i32. */
  method GetSqrtRatioAtTick(tick: int) returns (price: Result<u256>)
    requires -0x8000_0000 <= tick < 0x8000_0000
    ensures price == PriceResult(tick)
  {
    if tick == -0x8000_0000 {
      return Err(NegationOverflow);
    }
    var absTick: nat := if tick < 0 then -tick else tick;
    if absTick > MAX_TICK {
      return Err(TickOutOfRange);
    }
    TickLadder(absTick);
    var ratio := Climb(absTick);
    var p := Finish(ratio, tick > 0);
    return Ok(p);
  }

  /** Inverting, shifting and rounding. */
  method Finish(start: u256, invert: bool) returns (p: u256)
    requires start > 0
    ensures p == Rounded(start, invert)
  {
    var ratio := start;
    if invert {
      QuotientAtMost(MAX256, start);
      ratio := MAX256 / start;
    }
    p := ratio / TWO32 + (if ratio % TWO32 == 0 then 0 else 1);
  }
}
