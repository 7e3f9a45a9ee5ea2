/** `full_math.rs`: a * b / denominator through a 512-bit intermediate product. */
module FullMath {
  import opened Arithmetic
  import opened Words

  datatype MathError =
    | DenominatorIsZero
    | DenominatorIsLteProdOne
    | ResultIsU256Max
    | SqrtPriceIsZero
    | SqrtPriceIsLteQuotient
    | LiquidityIsZero
    | ProductDivAmount
    | SafeCastToU160Overflow
    | DivisionByZero // stands for the panic of a word division by zero
    | ZeroValue
    | TickOutOfRange
    | NegationOverflow // stands for the stop when the least i32 is negated
    | PriceOutOfRange
    | TickSpacingError
    | LiquidityOverflown
    | LiquidityUnderflow
    | NotEnoughLiquidity

  datatype Result<+T> = Ok(value: T) | Err(error: MathError) {
    predicate IsFailure() { Err? }

    function PropagateFailure<U>(): Result<U>
      requires Err?
    {
      Err(error)
    }

    function Extract(): T
      requires Ok?
    {
      value
    }
  }

  /** The floor of p / d when that fits a word; otherwise an error that tells apart whether
      the dividend itself fits. */
  function FloorWord(p: nat, d: u256): (r: Result<u256>)
    ensures r.Ok? <==> d > 0 && p / d < TWO256
    ensures r.Ok? ==> r.value == p / d
    ensures r.Err? ==> r.error == if p < TWO256 then DenominatorIsZero else DenominatorIsLteProdOne
  {
    QuotientFits(p, d);
    if p < TWO256 && d == 0 then Err(DenominatorIsZero)
    else if p >= TWO256 && d <= p / TWO256 then Err(DenominatorIsLteProdOne)
    else Ok(p / d)
  }

  /** A 512-by-256-bit quotient fits a word exactly when the high word is below the divisor. */
  lemma QuotientFits(p: nat, d: nat)
    ensures d > 0 ==> p / d >= 0 && (p / d < TWO256 <==> p / TWO256 < d)
    ensures p < TWO256 <==> p / TWO256 == 0
    ensures p < TWO256 ==> p % TWO256 == p
  {
    if d > 0 { QuotientsAgree(p, d, TWO256); }
    DivLe(p, TWO256, 0);
    if p < TWO256 { ModSmall(p, TWO256); }
  }

  /** A quotient is below m exactly when the quotient by m is below the divisor. */
  lemma QuotientsAgree(p: nat, d: nat, m: nat)
    requires d > 0 && m > 0
    ensures p / d >= 0 && (p / d < m <==> p / m < d)
  {
    CeilBounds(p, d);
    DivLe(p, d, m - 1);
    DivLe(p, m, d - 1);
    assert (m - 1) * d + d == (d - 1) * m + m;
  }

  /** The ceiling of p / d when that fits a word. */
  function CeilWord(p: nat, d: u256): (r: Result<u256>)
    ensures r.Ok? <==> d > 0 && CeilDiv(p, d) < TWO256
    ensures r.Ok? ==> r.value == CeilDiv(p, d)
    ensures r.Err? && d > 0 && p / d < TWO256 ==> r.error == ResultIsU256Max
    ensures r.Err? && !(d > 0 && p / d < TWO256) ==>
              r.error == if p < TWO256 then DenominatorIsZero else DenominatorIsLteProdOne
  {
    var floor := FloorWord(p, d);
    if floor.Err? then floor
    else if p % d == 0 then floor
    else if floor.value == MAX256 then Err(ResultIsU256Max)
    else Ok(floor.value + 1)
  }

  function Product(a: nat, b: nat): nat
  {
    MulLe(0, a, b);
    a * b
  }

  /** What `mul_div` means. */
  function FloorMulDiv(a: u256, b: u256, d: u256): Result<u256> { FloorWord(Product(a, b), d) }

  /** What `mul_div_rounding_up` means. */
  function CeilMulDiv(a: u256, b: u256, d: u256): Result<u256> { CeilWord(Product(a, b), d) }

  // -------------------------------------------------------------- the parts

  /** For a radix w, the high digit of a two-digit product leaves room for a carry. */
  lemma HighDigitBound(a: nat, b: nat, w: nat)
    requires a < w && b < w && w > 1
    ensures a * b / w <= w - 2
  {
    MulLeMul(a, w - 1, b, w - 1);
    assert (w - 1) * (w - 1) == (w - 2) * w + 1;
    DivLe(a * b, w, w - 2);
  }

  /** Casting out w - 1 adds the digits. */
  lemma CastOut(p: nat, hi: nat, lo: nat, w: nat)
    requires p == hi * w + lo && lo < w && hi < w - 1
    ensures p % (w - 1) == if hi + lo < w - 1 then hi + lo else hi + lo - (w - 1)
  {
    var m := w - 1;
    assert hi * w == hi * m + hi;
    if hi + lo < m {
      ModIs(p, m, hi + lo, hi);
    } else {
      assert (hi + 1) * m == hi * m + m;
      ModIs(p, m, hi + lo - m, hi + 1);
    }
  }

  /** The product modulo 2^256 and modulo 2^256 - 1 determine its high word. */
  lemma HighWord(a: u256, b: u256)
    ensures var lo := WrapMul(a, b);
            var mm := MulMod(a, b, MAX256);
            WrapSub(WrapSub(mm, lo), if mm < lo then 1 else 0) == a * b / TWO256
  {
    var p := a * b;
    var hi, lo, mm := p / TWO256, WrapMul(a, b), MulMod(a, b, MAX256);
    HighDigitBound(a, b, TWO256);
    DivBounds(p, TWO256);
    assert hi >= 0 by { CeilBounds(p, TWO256); }
    CastOut(p, hi, lo, TWO256);
    CarryOut(hi, lo, mm);
  }

  lemma CarryOut(hi: u256, lo: u256, mm: u256)
    requires hi < MAX256
    requires mm == if hi + lo < MAX256 then hi + lo else hi + lo - MAX256
    ensures WrapSub(WrapSub(mm, lo), if mm < lo then 1 else 0) == hi
  {
    WrapNear(mm - lo);
    WrapNear(WrapSub(mm, lo) - 1);
    WrapNear(WrapSub(mm, lo));
  }

  /** Subtracting the remainder leaves an exact multiple of the divisor across both words. */
  lemma ExactProduct(hi: u256, lo: u256, d: u256, q: nat, rem: u256)
    requires hi * TWO256 + lo == q * d + rem && rem < d && hi < d
    ensures q < TWO256
    ensures WrapSub(hi, if rem > lo then 1 else 0) * TWO256 + WrapSub(lo, rem) == q * d
  {
    assert q < TWO256 by { BelowRadix(hi, lo, d, q, TWO256); }
    MulLe(0, q, d);
    Borrow(hi, lo, rem, q * d);
  }

  lemma BelowRadix(hi: nat, lo: nat, d: nat, q: nat, w: nat)
    requires q * d <= hi * w + lo && lo < w && hi < d
    ensures q < w
  {
    MulLe(hi + 1, d, w);
    CancelLt(q, w, d);
  }

  lemma Borrow(hi: u256, lo: u256, rem: u256, n: nat)
    requires hi * TWO256 + lo == n + rem
    ensures WrapSub(hi, if rem > lo then 1 else 0) * TWO256 + WrapSub(lo, rem) == n
  {
    WrapNear(lo - rem);
    WrapNear(hi);
    WrapNear(hi - 1);
    assert (hi - 1) * TWO256 == hi * TWO256 - TWO256;
    if rem > lo { HighPositive(hi, lo, rem, n, TWO256); }
  }

  lemma HighPositive(hi: nat, lo: nat, rem: nat, n: nat, w: nat)
    requires hi * w + lo == n + rem && rem > lo
    ensures hi > 0
  {
  }

  /** `(0 - twos) / twos + 1` is 2^256 / twos, which is zero as a word when twos is one. */
  lemma FlipTwos(k: nat, t: u256)
    requires k < 256 && t == Pow2(k)
    ensures Pow2(256 - k) * t == TWO256
    ensures (TWO256 - t) / t == Pow2(256 - k) - 1
  {
    Pow2Add(256 - k, k);
    FlipExact(Pow2(256 - k), t, TWO256);
  }

  lemma FlipExact(w: nat, t: nat, total: nat)
    requires w > 0 && t > 0 && w * t == total
    ensures (total - t) / t == w - 1
  {
    assert (w - 1) * t == total - t;
    DivIs(total - t, t, w - 1);
  }

  /** The low word of an exact multiple of t = total / w is itself one, with a quotient below w. */
  lemma LowDigit(hi: nat, lo: nat, w: nat, t: nat, n: nat, total: nat)
    requires t > 0 && w * t == total && lo < total
    requires hi * total + lo == n * t
    ensures lo / t == n - hi * w && 0 <= lo / t < w
  {
    var low := n - hi * w;
    Regroup(hi, w, t);
    assert low * t == n * t - (hi * w) * t;
    DivIs(lo, t, low);
    CancelLt(low, w, t);
    CancelLe(0, low, t);
  }

  /** Modulo total = t * w, the multiple hi * w keeps the remainder of hi by t. */
  lemma TopDigit(hi: nat, w: nat, t: nat, total: nat)
    requires t > 0 && w > 0 && w * t == total > 0
    ensures hi * w == (hi % t) * w + (hi / t) * total
    ensures (hi * w) % total == (hi % t) * w
  {
    var top := hi % t;
    DivBounds(hi, t);
    Regroup(hi / t, t, w);
    assert (top + (hi / t) * t) * w == top * w + ((hi / t) * t) * w;
    MulLe(top, t - 1, w);
    assert (t - 1) * w == total - w;
    MulLe(0, top, w);
    ModIs(hi * w, total, top * w, hi / t);
  }

  /** Shifting the high word into the freed low bits gives the exact product over the power
      of two, modulo 2^256. */
  lemma JoinWords(hi: u256, lo: u256, low: nat, k: nat, t: u256, n: nat)
    requires k < 256 && t == Pow2(k) && low == lo / t
    requires hi * TWO256 + lo == n * t
    ensures BitOr(low, WrapMul(hi, Wrap(Pow2(256 - k)))) < TWO256
    ensures Congruent(BitOr(low, WrapMul(hi, Wrap(Pow2(256 - k)))), n, TWO256)
  {
    FlipTwos(k, t);
    LowDigit(hi, lo, Pow2(256 - k), t, n, TWO256);
    if k == 0 {
      JoinUnshifted(hi, low, n);
    } else {
      JoinShifted(hi, low, k, t, n);
    }
  }

  lemma JoinShifted(hi: u256, low: nat, k: nat, t: u256, n: nat)
    requires 0 < k < 256 && t == Pow2(k)
    requires Pow2(256 - k) * t == TWO256 && low < Pow2(256 - k)
    requires low == n - hi * Pow2(256 - k)
    ensures BitOr(low, WrapMul(hi, Wrap(Pow2(256 - k)))) < TWO256
    ensures Congruent(BitOr(low, WrapMul(hi, Wrap(Pow2(256 - k)))), n, TWO256)
  {
    var w := Pow2(256 - k);
    HalfTotal(w, t, TWO256);
    WrapNear(w);
    TopDigit(hi, w, t, TWO256);
    OrDisjoint(256 - k, low, hi % t);
    CongruentBy(n, low + (hi % t) * w, hi / t, TWO256);
    BelowTotal(low, hi % t, w, t, TWO256);
  }

  lemma HalfTotal(w: nat, t: nat, total: nat)
    requires w > 0 && t > 1 && w * t == total
    ensures w < total
  {
    MulLe(2, t, w);
  }

  lemma BelowTotal(low: nat, top: nat, w: nat, t: nat, total: nat)
    requires low < w && top < t && w * t == total
    ensures low + top * w < total
  {
    MulLe(top + 1, t, w);
  }

  lemma JoinUnshifted(hi: u256, low: u256, n: nat)
    requires hi * TWO256 + low == n
    ensures BitOr(low, WrapMul(hi, Wrap(Pow2(256)))) == low
    ensures Congruent(low, n, TWO256)
  {
    WrapNear(TWO256);
    WrapNear(0);
    assert hi * 0 == 0;
    OrZero(low);
    CongruentBy(n, low, hi, TWO256);
  }

  /** `(3 * denominator) ^ 2` on words. */
  function Seed(d: u256): nat
  {
    BitXor(WrapMul(3, d), 2)
  }

  /** The seed of the inverse is right in its four lowest bits. */
  lemma SeedInverse(d: u256)
    requires d % 2 == 1
    ensures Seed(d) < TWO256
    ensures Congruent(d * Seed(d), 1, 16)
  {
    var x := WrapMul(3, d);
    var c := (3 * d) / TWO256;
    DivBounds(3 * d, TWO256);
    assert Pow2(4) == 16;
    Pow2Add(4, 252);
    Regroup(c, Pow2(252), 16);
    SeedExact(d, c * Pow2(252), x);
    SeedBelow(x);
  }

  lemma SeedBelow(x: u256)
    ensures BitXor(x, 2) < TWO256
  {
    hide BitXor;
    XorTwo(x);
    Pow2Add(2, 254);
    FourDivides(x, Pow2(254));
  }

  lemma FourDivides(x: nat, k: nat)
    requires x < 4 * k
    ensures (x / 2) % 2 == 0 ==> x + 2 < 4 * k
  {
  }

  lemma SeedExact(d: nat, z: int, x: nat)
    requires d % 2 == 1 && x == 3 * d - 16 * z
    ensures Congruent(d * BitXor(x, 2), 1, 16)
  {
    hide BitXor, Congruent;
    var j := d / 4;
    if d % 4 == 1 {
      XorTwoBits(x, 3 * j - 4 * z, 3);
      SeedOne(j);
      SeedStep(4 * j + 1, 12 * j + 1, z, 3 * (j * j) + j);
    } else {
      XorTwoBits(x, 3 * j + 2 - 4 * z, 1);
      SeedThree(j);
      SeedStep(4 * j + 3, 12 * j + 11, z, 3 * (j * j) + 5 * j + 2);
    }
  }

  lemma XorTwoBits(x: nat, y: int, low: nat)
    requires x == 4 * y + low && (low == 1 || low == 3)
    ensures BitXor(x, 2) == 4 * y + (4 - low)
  {
    hide BitXor;
    XorTwo(x);
  }

  lemma SeedOne(j: int)
    ensures (4 * j + 1) * (12 * j + 1) == 1 + 16 * (3 * (j * j) + j)
  {
  }

  lemma SeedThree(j: int)
    ensures (4 * j + 3) * (12 * j + 11) == 1 + 16 * (3 * (j * j) + 5 * j + 2)
  {
  }

  lemma SeedStep(d: int, s: int, z: int, k: int)
    requires d * s == 1 + 16 * k
    ensures Congruent(d * (s - 16 * z), 1, 16)
  {
    assert d * (s - 16 * z) == d * s - 16 * (d * z);
    CongruentBy(d * (s - 16 * z), 1, k - d * z, 16);
  }

  /** `inv *= 2 - denominator * inv` on words. */
  function NewtonStep(d: u256, x: u256): u256
  {
    WrapMul(x, WrapSub(2, WrapMul(d, x)))
  }

  /** Reducing at every step only drops multiples of 2^256. */
  lemma NewtonStepExact(d: u256, x: u256)
    ensures Congruent(NewtonStep(d, x), x * (2 - d * x), TWO256)
  {
    var p := WrapMul(d, x);
    var s := WrapSub(2, p);
    var kp := WrapWitness(d * x);
    var ks := WrapWitness(2 - (p as int));
    Unwrapped(x, d * x, p, s, kp, ks, TWO256);
    WrapCongruent(x * s);
    CongruentBy(x * s, x * (2 - d * x), x * (ks - kp), TWO256);
  }

  lemma Unwrapped(x: int, dx: int, p: int, s: int, kp: int, ks: int, w: int)
    requires p == dx + kp * w && s == 2 - p + ks * w
    ensures x * s == x * (2 - dx) + (x * (ks - kp)) * w
  {
    assert s == 2 - dx + (ks - kp) * w;
    Spread(x, 2 - dx, ks - kp, w);
  }

  lemma Spread(x: int, e: int, k: int, m: int)
    ensures x * (e + k * m) == x * e + (x * k) * m
  {
  }

  /** Hensel's lifting lemma: each step doubles the number of correct low bits. */
  lemma NewtonDoubles(d: u256, x: u256, m: nat, m2: nat, c: nat)
    requires m > 0 && c > 0 && m2 == m * m > 0 && m2 * c == TWO256
    requires Congruent(d * x, 1, m)
    ensures Congruent(d * NewtonStep(d, x), 1, m2)
  {
    var x' := NewtonStep(d, x);
    var target := x * (2 - d * x);
    NewtonStepExact(d, x);
    CongruentMul(x', target, d, TWO256);
    CongruentCoarser(d * x', d * target, m2, c);
    var k := CongruenceWitness(d * x, 1, m);
    NewtonIdentity(d, x, k, m);
    CongruentBy(d * target, 1, -k * k, m2);
  }

  lemma NewtonIdentity(d: int, x: int, k: int, m: int)
    requires d * x == 1 + k * m
    ensures d * (x * (2 - d * x)) == 1 + (-k * k) * (m * m)
  {
    var y := k * m;
    assert d * (x * (2 - d * x)) == (d * x) * (2 - d * x);
    assert (1 + y) * (1 - y) == 1 - y * y;
    assert y * y == (k * k) * (m * m);
  }

  lemma WrapWitness(x: int) returns (k: int)
    ensures Wrap(x) == x + k * TWO256
  {
    DivBounds(x, TWO256);
    k := -(x / TWO256);
  }

  /** The largest power of two dividing d, and the odd cofactor. */
  lemma SplitDenominator(d: u256) returns (k: nat, odd: u256)
    requires d > 0
    ensures k < 256 && BitAnd(WrapSub(0, d), d) == Pow2(k) < TWO256
    ensures odd % 2 == 1 && d == odd * Pow2(k) && d / Pow2(k) == odd
  {
    hide BitAnd, Pow2;
    NegAndIsLowBit(256, d);
    WrapNear(0 - d);
    var o;
    k, o := LowBitSplits(256, d);
    MulLe(1, o, Pow2(k));
    MulLe(1, Pow2(k), o);
    odd := o;
    DivIs(d, Pow2(k), odd);
  }

  /** Dividing exactly is multiplying by the inverse, when the quotient fits a word. */
  lemma DivideByInverse(n: u256, q: u256, d: int, inv: u256)
    requires Congruent(n, q * d, TWO256) && Congruent(d * inv, 1, TWO256)
    ensures WrapMul(n, inv) == q
  {
    CongruentMul(n, q * d, inv, TWO256);
    CongruentMul(d * inv, 1, q, TWO256);
    assert (q * d) * inv == q * (d * inv);
    ModSmall(q, TWO256);
  }

  // ------------------------------------------------------------ the methods

  /** Both words of a * b, by the Chinese Remainder Theorem. */
  method FullProduct(a: u256, b: u256) returns (prod0: u256, prod1: u256)
    ensures prod0 == Product(a, b) % TWO256 && prod1 == Product(a, b) / TWO256
  {
    var mm := MulMod(a, b, MAX256);
    prod0 := WrapMul(a, b);
    prod1 := WrapSub(WrapSub(mm, prod0), if mm < prod0 then 1 else 0);
    HighWord(a, b);
  }

  /** One Newton-Raphson refinement of an inverse that is right in its n low bits. */
  method Refine(d: u256, x: u256, ghost n: nat) returns (x': u256)
    requires n <= 128 && Congruent(d * x, 1, Pow2(n))
    ensures Congruent(d * x', 1, Pow2(2 * n))
  {
    Pow2Add(n, n);
    Pow2Add(2 * n, 256 - 2 * n);
    NewtonDoubles(d, x, Pow2(n), Pow2(2 * n), Pow2(256 - 2 * n));
    x' := WrapMul(x, WrapSub(2, WrapMul(d, x)));
  }

  /** The inverse of an odd word modulo 2^256: a seed right in four bits, doubled six times. */
  method InvertOdd(d: u256) returns (inv: u256)
    requires d % 2 == 1
    ensures Congruent(d * inv, 1, TWO256)
  {
    SeedInverse(d);
    inv := BitXor(WrapMul(3, d), 2);
    assert Pow2(4) == 16;
    inv := Refine(d, inv, 4);
    inv := Refine(d, inv, 8);
    inv := Refine(d, inv, 16);
    inv := Refine(d, inv, 32);
    inv := Refine(d, inv, 64);
    inv := Refine(d, inv, 128);
  }

  /** The odd part of d and the power of two it was divided by. */
  method OddPart(d: u256) returns (denominator: u256, twos: u256, ghost k: nat)
    requires d > 0
    ensures k < 256 && twos == Pow2(k)
    ensures denominator % 2 == 1 && d == denominator * twos
  {
    ghost var odd;
    k, odd := SplitDenominator(d);
    twos := BitAnd(WrapSub(0, d), d);
    denominator := d / twos;
  }

  /** 2^256 / twos as a word. */
  method Flip(ghost k: nat, twos: u256) returns (flipped: u256)
    requires k < 256 && twos == Pow2(k)
    ensures flipped == Wrap(Pow2(256 - k))
  {
    FlipTwos(k, twos);
    WrapNear(0 - twos);
    var low := Quotient(WrapSub(0, twos), twos);
    flipped := WrapAdd(low, 1);
  }

  method Quotient(a: u256, b: u256) returns (q: u256)
    requires b > 0
    ensures q == a / b
  {
    CeilBounds(a, b);
    MulLe(1, b, a / b);
    q := a / b;
  }

  /** Both words of the exact multiple n * twos, shifted right into one word. */
  method ShiftRight(prod0: u256, prod1: u256, ghost k: nat, twos: u256, ghost n: nat) returns (joined: u256)
    requires k < 256 && twos == Pow2(k)
    requires prod1 * TWO256 + prod0 == n * twos
    ensures Congruent(joined, n, TWO256)
  {
    var low := Quotient(prod0, twos);
    JoinWords(prod1, prod0, low, k, twos, n);
    var flipped := Flip(k, twos);
    joined := BitOr(low, WrapMul(prod1, flipped));
  }

  /** Divide by an odd word: multiply by its inverse. */
  method DivideOdd(n: u256, d: u256, ghost q: u256) returns (r: u256)
    requires d % 2 == 1 && Congruent(n, q * d, TWO256)
    ensures r == q
  {
    var inv := InvertOdd(d);
    DivideByInverse(n, q, d, inv);
    r := WrapMul(n, inv);
  }

  /** Divide the two-word multiple q * d of d by d: drop the power of two from both sides,
      then divide by the odd part. */
  method DivideExact(prod0: u256, prod1: u256, d: u256, ghost q: u256) returns (r: u256)
    requires d > 0 && prod1 * TWO256 + prod0 == q * d
    ensures r == q
  {
    hide Pow2;
    var denominator, twos, k := OddPart(d);
    Regroup(q, denominator, twos);
    var joined := ShiftRight(prod0, prod1, k, twos, q * denominator);
    r := DivideOdd(joined, denominator, q);
  }

  /** Divide a two-word dividend, known to be at least one word long. */
  method DivideWide(prod0: u256, prod1: u256, remainder: u256, d: u256, ghost p: nat) returns (r: u256)
    requires prod0 == p % TWO256 && prod1 == p / TWO256 < d && remainder == p % d
    ensures r == p / d
  {
    DivBounds(p, TWO256);
    DivBounds(p, d);
    CeilBounds(p, d);
    ExactProduct(prod1, prod0, d, p / d, remainder);
    var hi := WrapSub(prod1, if remainder > prod0 then 1 else 0);
    var lo := WrapSub(prod0, remainder);
    r := DivideExact(lo, hi, d, p / d);
  }

  /** `mul_div`: whatever the three words, the returned value is the exact floored quotient,
      and the error cases are exactly those where there is none. */
  method MulDiv(a: u256, b: u256, d: u256) returns (r: Result<u256>)
    ensures r == FloorMulDiv(a, b, d)
  {
    var prod0, prod1 := FullProduct(a, b);
    QuotientFits(Product(a, b), d);
    if prod1 == 0 {
      if d == 0 {
        return Err(DenominatorIsZero);
      }
      var short := Quotient(prod0, d);
      return Ok(short);
    }
    if d <= prod1 {
      return Err(DenominatorIsLteProdOne);
    }
    var remainder := MulMod(a, b, d);
    var quotient := DivideWide(prod0, prod1, remainder, d, Product(a, b));
    return Ok(quotient);
  }

  /** `mul_div_rounding_up`: the exact ceiling, or an error when it does not fit a word. */
  method MulDivRoundingUp(a: u256, b: u256, d: u256) returns (r: Result<u256>)
    ensures r == CeilMulDiv(a, b, d)
  {
    var result := MulDiv(a, b, d);
    if result.Err? {
      return result;
    }
    if MulMod(a, b, d) > 0 {
      if result.value == MAX256 {
        return Err(ResultIsU256Max);
      } else {
        return Ok(result.value + 1);
      }
    } else {
      return result;
    }
  }

  /** `div_rounding_up` of `unsafe_math.rs`; a zero divisor stops the source. */
  function DivRoundingUp(a: u256, b: u256): (r: Result<u256>)
    ensures r.Ok? <==> b > 0
    ensures b > 0 ==> r.value == CeilDiv(a, b)
    ensures b == 0 ==> r == Err(DivisionByZero)
  {
    if b == 0 then Err(DivisionByZero)
    else
      CeilLe(a, b, a);
      MulLe(1, b, a);
      Ok(if a % b == 0 then a / b else a / b + 1)
  }
}
