/** The multipliers of `tick_math.rs` are exact: each is the integer nearest to 2^128 / sqrt(1.0001)^(2^k).
    A finer table, with 32 more bits, encloses the true values from squaring to squaring. */
module NearestMultipliers {
  import opened Arithmetic
  import opened Words
  import opened RealPowers
  import opened TickMath

  /** Entry k is 2^160 / sqrt(1.0001)^(2^k), to within SLACK[k]. */
  const FINE: seq<int> := [
    0xfffc_b933_bd6f_ad37_aa2d_162d_1a59_4001_7330_71ca,
    0xfff9_7272_373d_4132_59a4_6990_580e_2139_b8e3_eb6b,
    0xfff2_e50f_5f65_6932_ef12_357c_f3c7_fdcb_98a5_078e,
    0xffe5_caca_7e10_e4e6_1c36_24ea_a094_1ccf_f04a_8a21,
    0xffcb_9843_d60f_6159_c9db_5883_5c92_6643_ad7c_09ee,
    0xff97_3b41_fa98_c081_472e_6896_dfb2_54bf_81ef_047c,
    0xff2e_a164_66c9_6a38_43ec_78b3_26b5_2860_97e9_315c,
    0xfe5d_ee04_6a99_a2a8_11c4_61f1_969c_3052_f544_235f,
    0xfcbe_86c7_900a_88ae_dcff_c83b_479a_a3a3_dc26_8667,
    0xf987_a725_3ac4_1317_6f2b_074c_f781_5e53_facb_f190,
    0xf339_2b08_22b7_0005_940c_7a39_8e4b_70f2_ca02_c579,
    0xe715_9475_a2c2_9b74_43b2_9c7f_a6e8_89d8_9a78_8532,
    0xd097_f3bd_fd20_22b8_845a_d8f7_92aa_5825_6a3d_f3fc,
    0xa9f7_4646_2d87_0fdf_8a65_dc1f_90e0_61e4_fa16_0425,
    0x70d8_69a1_56d2_a1b8_90bb_3df6_2baf_32f6_c497_44d5,
    0x31be_135f_97d0_8fd9_8123_1505_542f_cfa5_86c1_e84d,
    0x9aa_508b_5b7a_84e1_c677_de54_f3e9_9bc8_fdac_1d58,
    0x5d_6af8_dedb_8119_6699_c329_225e_e604_4e0e_6dc9,
    0x2216_e584_f5fa_1ea9_2604_1bed_fe97_b74d_cb50,
    0x48a_1703_91f7_dc42_444e_8fa2_3b8a_d7d6
  ]

  /** The uncertainty of an entry, which doubles with every squaring. */
  const SLACK: seq<int> := [
    1, 4, 10, 22, 46, 94, 190, 382, 766, 1534, 3070, 6142,
    12286, 24574, 49150, 98302, 196606, 393214, 786430, 1572862
  ]

  // ------------------------------------------------------------ enclosing a value

  /** The number whose square inverts g lies between u and v. */
  predicate Encloses(u: real, v: real, g: real) { 0.0 <= u && 0.0 <= v && Weighed(u, g) <= 1.0 <= Weighed(v, g) }

  function Weighed(u: real, g: real): real { (u * u) * g }

  /** Enclosures survive squaring. */
  lemma SquareEncloses(u: real, v: real, g: real, u2: real, v2: real)
    requires Encloses(u, v, g) && g > 0.0 && 0.0 <= u2 <= u * u && v * v <= v2
    ensures Encloses(u2, v2, g * g)
  {
    RMulLeMul(0.0, v, 0.0, v);
    RMulLeMul(0.0, u, 0.0, u);
    SquareBelow(u2, u * u, g);
    SquareAbove(v * v, v2, g);
  }

  lemma SquareBelow(x: real, y: real, g: real)
    requires 0.0 <= x <= y && g > 0.0 && y * g <= 1.0
    ensures (x * x) * (g * g) <= 1.0
  {
    SquareProduct(x, g);
    RMulLe(x, y, g);
    RMulLeMul(0.0, x, 0.0, g);
    RMulLeMul(x * g, 1.0, x * g, 1.0);
  }

  lemma SquareAbove(y: real, x: real, g: real)
    requires 0.0 <= y <= x && g > 0.0 && 1.0 <= y * g
    ensures 1.0 <= (x * x) * (g * g)
  {
    SquareProduct(x, g);
    RMulLe(y, x, g);
    RMulLeMul(1.0, x * g, 1.0, x * g);
  }

  // ------------------------------------------------------------- the finer table

  /** c and d are the entry and the slack before a squaring, c2 and d2 after it, in units of 1 / t. */
  predicate Squares(c: int, d: int, c2: int, d2: int, t: int)
  {
    0 <= c2 - d2 && (c2 - d2) * t <= (c - d) * (c - d) && (c + d) * (c + d) <= (c2 + d2) * t
  }

  lemma FineSquares(k: nat)
    requires k < 19
    ensures Squares(FINE[k], SLACK[k], FINE[k + 1], SLACK[k + 1], TWO160)
  {
    if k == 0 {} else if k == 1 {} else if k == 2 {} else if k == 3 {} else if k == 4 {}
    else if k == 5 {} else if k == 6 {} else if k == 7 {} else if k == 8 {} else if k == 9 {}
    else if k == 10 {} else if k == 11 {} else if k == 12 {} else if k == 13 {} else if k == 14 {}
    else if k == 15 {} else if k == 16 {} else if k == 17 {} else {}
  }

  /** An integer in units of 1 / t. */
  function Per(x: int, t: int): real
    requires t > 0
  {
    x as real / t as real
  }

  /** An integer in units of 2^-160. */
  function Unit(x: int): real { Per(x, TWO160) }

  lemma UnitSquares(x: int, y: int, t: int)
    requires t > 0
    ensures y * t <= x * x ==> Per(y, t) <= Per(x, t) * Per(x, t)
    ensures x * x <= y * t ==> Per(x, t) * Per(x, t) <= Per(y, t)
    ensures y >= 0 ==> Per(y, t) >= 0.0
  {
    var r, u, v := t as real, Per(x, t), Per(y, t);
    RQuotient(x as real, r);
    RQuotient(y as real, r);
    SquareProduct(u, r);
    Assoc(v, r, r);
    RMulLt(0.0, r, r);
    assert (x * x) as real == (u * u) * (r * r);
    assert (y * t) as real == v * (r * r);
    if y * t <= x * x { Cancel(v, u * u, r * r); }
    if x * x <= y * t { Cancel(u * u, v, r * r); }
    if y >= 0 && v < 0.0 { RMulLt(v, 0.0, r); }
  }

  lemma SquaringEncloses(c: int, d: int, c2: int, d2: int, t: int, g: real)
    requires t > 0 && Squares(c, d, c2, d2, t) && g > 0.0 && Encloses(Per(c - d, t), Per(c + d, t), g)
    ensures Encloses(Per(c2 - d2, t), Per(c2 + d2, t), g * g)
  {
    hide Per, Encloses;
    UnitSquares(c - d, c2 - d2, t);
    UnitSquares(c + d, c2 + d2, t);
    SquareEncloses(Per(c - d, t), Per(c + d, t), g, Per(c2 - d2, t), Per(c2 + d2, t));
  }

  predicate FineHolds(k: nat, g: real)
    requires k < 20
  {
    Encloses(Unit(FINE[k] - SLACK[k]), Unit(FINE[k] + SLACK[k]), g)
  }

  lemma FineStart()
    ensures FineHolds(0, BASE)
  {
  }

  lemma FineStep(k: nat, g: real)
    requires k < 19 && g > 0.0 && FineHolds(k, g)
    ensures FineHolds(k + 1, g * g)
  {
    hide Encloses, Per, Squares;
    var c, d, c2, d2 := FINE[k], SLACK[k], FINE[k + 1], SLACK[k + 1];
    FineSquares(k);
    SquaringEncloses(c, d, c2, d2, TWO160, g);
  }

  lemma {:induction false} FineEncloses(k: nat)
    requires k < 20
    ensures FineHolds(k, RPow(BASE, Pow2(k)))
  {
    hide FineHolds, RPow;
    if k == 0 {
      assert Pow2(0) == 1;
      RPowOne(BASE);
      FineStart();
    } else {
      var g := RPow(BASE, Pow2(k - 1));
      FineEncloses(k - 1);
      RPowAdd(BASE, Pow2(k - 1), Pow2(k - 1));
      RPowPositive(BASE, Pow2(k - 1));
      FineStep(k - 1, g);
      assert RPow(BASE, Pow2(k)) == g * g;
    }
  }

  lemma RPowOne(b: real)
    ensures RPow(b, 1) == b
  {
    assert RPow(b, 0) == 1.0;
  }

  // --------------------------------------------------------------- the multipliers

  /** Half a unit of the multiplier on either side of it is outside the enclosure. */
  lemma MultiplierInside(k: nat)
    requires k < 20
    ensures 0 < (2 * MAGIC[k] - 1) * 0x8000_0000 < FINE[k] - SLACK[k]
    ensures FINE[k] + SLACK[k] < (2 * MAGIC[k] + 1) * 0x8000_0000
  {
    if k == 0 {} else if k == 1 {} else if k == 2 {} else if k == 3 {} else if k == 4 {}
    else if k == 5 {} else if k == 6 {} else if k == 7 {} else if k == 8 {} else if k == 9 {}
    else if k == 10 {} else if k == 11 {} else if k == 12 {} else if k == 13 {} else if k == 14 {}
    else if k == 15 {} else if k == 16 {} else if k == 17 {} else if k == 18 {} else {}
  }

  /** 2^129 */
  const DOUBLED: real := 680564733841876926926749214863536422912.0

  /** An integer in units of 2^-129, half the unit of a multiplier. */
  function Half(x: int): real { x as real / DOUBLED }

  lemma Outside(m: int, f: int)
    requires 0 < m
    ensures Half(m) >= 0.0
    ensures m * 0x8000_0000 < f ==> Half(m) < Unit(f)
    ensures f < m * 0x8000_0000 ==> Unit(f) < Half(m)
  {
    assert Half(m) == Unit(m * 0x8000_0000);
  }

  lemma Strictly(y: real, x: real, g: real)
    requires 0.0 <= y < x && g > 0.0
    ensures Weighed(y, g) < Weighed(x, g)
  {
    SquareLt(y, x);
    RMulLt(y * y, x * x, g);
  }

  lemma SquareLt(y: real, x: real)
    requires 0.0 <= y < x
    ensures y * y < x * x
  {
    assert x * x - y * y == (x - y) * (x + y);
    RMulLt(0.0, x - y, x + y);
  }

  /** m is the integer nearest to 2^128 / sqrt(g): with half a unit less it is too small to invert g
      when squared, and with half a unit more too large. */
  predicate Nearest(m: int, g: real)
  {
    Weighed(Half(2 * m - 1), g) < 1.0 < Weighed(Half(2 * m + 1), g)
  }

  lemma NearestBy(m: int, f: int, d: int, g: real)
    requires 0 < (2 * m - 1) * 0x8000_0000 < f - d && f + d < (2 * m + 1) * 0x8000_0000
    requires Encloses(Unit(f - d), Unit(f + d), g) && g > 0.0
    ensures Nearest(m, g)
  {
    hide Unit, Half, Weighed;
    var a, b := 2 * m - 1, 2 * m + 1;
    Outside(a, f - d);
    Outside(b, f + d);
    Strictly(Half(a), Unit(f - d), g);
    Strictly(Unit(f + d), Half(b), g);
  }

  /** Every multiplier is the integer nearest to 2^128 / sqrt(1.0001)^(2^k). */
  lemma MultiplierIsNearest(k: nat)
    requires k < 20
    ensures Nearest(MAGIC[k], RPow(1.0001, Pow2(k)))
  {
    hide Nearest, Encloses, Unit, RPow;
    MultiplierInside(k);
    FineEncloses(k);
    RPowPositive(BASE, Pow2(k));
    NearestBy(MAGIC[k], FINE[k], SLACK[k], RPow(BASE, Pow2(k)));
  }

  /** No other integer has that property. */
  lemma NearestIsUnique(m: nat, n: nat, g: real)
    requires g > 0.0 && Nearest(m, g) && Nearest(n, g)
    ensures m == n
  {
    if m < n { Apart(m, n, g); }
    if n < m { Apart(n, m, g); }
  }

  lemma Apart(m: nat, n: nat, g: real)
    requires m < n && g > 0.0
    ensures Nearest(m, g) ==> !Nearest(n, g)
  {
    var x, y := Half(2 * m + 1), Half(2 * n - 1);
    HalfMono(2 * m + 1, 2 * n - 1);
    hide Half, Weighed;
    if x < y { Strictly(x, y, g); }
  }

  lemma HalfMono(a: nat, b: nat)
    requires a <= b
    ensures 0.0 <= Half(a) <= Half(b)
  {
  }

  // ------------------------------------------------------------ what a price is made of

  /** The ratio starts at 2^128. A set bit multiplies it by its multiplier and drops 128 bits; a clear
      bit leaves it alone. */
  lemma RungsOfLadder(n: nat, k: nat)
    requires k < 20 && Multipliers(MAGIC)
    ensures Ladder(MAGIC, n, 0) == 0x1_0000_0000_0000_0000_0000_0000_0000_0000
    ensures var a, b := Ladder(MAGIC, n, k), Ladder(MAGIC, n, k + 1);
            if n / Pow2(k) % 2 == 1 then
              b * 0x1_0000_0000_0000_0000_0000_0000_0000_0000 <= a * MAGIC[k]
              < (b + 1) * 0x1_0000_0000_0000_0000_0000_0000_0000_0000
            else b == a
  {
    DivBounds(Ladder(MAGIC, n, k) * MAGIC[k], TWO128);
  }

  /** The price of a tick is the least one that, with 32 more bits, is not below the ratio of all
      twenty bits, or below its reciprocal for a positive tick. */
  lemma PriceIsLeast(tick: int, y: nat)
    requires -887272 <= tick <= 887272 && Multipliers(MAGIC)
    ensures var a := Ladder(MAGIC, if tick < 0 then -tick else tick, 20);
            PriceAtTick(tick) <= y <==>
            if tick <= 0 then a <= y * 0x1_0000_0000 else TWO256 - 1 < a * (y * 0x1_0000_0000 + 1)
  {
    hide Ladder, CeilDiv;
    TickLadder(if tick < 0 then -tick else tick);
    var a := Ladder(MAGIC, if tick < 0 then -tick else tick, 20);
    if tick > 0 {
      CeilBounds(MAX256, a);
      CeilLe(MAX256 / a, TWO32, y);
      ReciprocalAtMost(MAX256, a, y * 0x1_0000_0000);
    } else {
      CeilLe(a, TWO32, y);
    }
  }

  lemma ReciprocalAtMost(x: nat, a: nat, z: nat)
    requires a > 0
    ensures x / a <= z <==> x < a * (z + 1)
  {
    DivLe(x, a, z);
    assert (z + 1) * a == z * a + a;
  }
}
