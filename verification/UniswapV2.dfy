/** `uniswapv2pool.rs`: constant-product quotes over checked 256-bit arithmetic. */
module UniswapV2 {
  import opened Arithmetic
  import opened Words

  datatype QuoteError =
    | AmountInWithFeeOverflow | NumeratorOverflow | NumeratorOverflowFee | DenominatorOverflow | DenominatorOverflowFee
    | DenominatorUnderflow | CannotCalculateZeroReserve | ReserveExceeded | ReserveOutExceeded
    | OutAmountIsZero | InAmountIsZero | InAmountOverflow

  datatype Quote = Amount(value: u256) | Refused(error: QuoteError)

  /** The reserves a trade sees, and the share of the input, in ten-thousandths, that is traded. */
  datatype Pair = Pair(reserveIn: u256, reserveOut: u256, fee: u256)

  const SCALE: int := 10000

  /** A checked operation. */
  predicate Fits(x: int) { 0 <= x < TWO256 }

  /** `calculate_out_amount` */
  function OutAmount(p: Pair, amountIn: u256): Quote
  {
    var withFee := amountIn * p.fee;
    if !Fits(withFee) then Refused(AmountInWithFeeOverflow)
    else if !Fits(withFee * p.reserveOut) then Refused(NumeratorOverflow)
    else if !Fits(p.reserveIn * SCALE) then Refused(DenominatorOverflow)
    else if !Fits(p.reserveIn * SCALE + withFee) then Refused(DenominatorOverflowFee)
    else if p.reserveIn * SCALE + withFee == 0 then Refused(CannotCalculateZeroReserve)
    else
      QuotientAtMost(withFee * p.reserveOut, p.reserveIn * SCALE + withFee);
      var out := withFee * p.reserveOut / (p.reserveIn * SCALE + withFee);
      if out > p.reserveOut then Refused(ReserveExceeded)
      else if out == 0 then Refused(OutAmountIsZero)
      else Amount(out)
  }

  /** `calculate_in_amount` */
  function InAmount(p: Pair, amountOut: u256): Quote
  {
    if amountOut > p.reserveOut then Refused(ReserveOutExceeded)
    else if !Fits(p.reserveIn * amountOut) then Refused(NumeratorOverflow)
    else if !Fits(p.reserveIn * amountOut * SCALE) then Refused(NumeratorOverflowFee)
    else if !Fits((p.reserveOut - amountOut) * p.fee) then Refused(DenominatorOverflowFee)
    else if (p.reserveOut - amountOut) * p.fee == 0 then Refused(CannotCalculateZeroReserve)
    else
      QuotientAtMost(p.reserveIn * amountOut * SCALE, (p.reserveOut - amountOut) * p.fee);
      var q := p.reserveIn * amountOut * SCALE / ((p.reserveOut - amountOut) * p.fee);
      if q == 0 then Refused(InAmountIsZero)
      else if !Fits(q + 1) then Refused(InAmountOverflow)
      else Amount(q + 1)
  }

  // ------------------------------------------------------------- when, and what

  /** An output is quoted exactly when both terms of the quotient fit a word and it is at least one. */
  lemma OutAmountIff(p: Pair, x: u256)
    ensures var n, d := (x * p.fee) * p.reserveOut, p.reserveIn * 10000 + x * p.fee;
            && (OutAmount(p, x).Amount? <==> n < TWO256 && d < TWO256 && 0 < d <= n)
            && (OutAmount(p, x).Amount? ==> OutAmount(p, x).value == n / d)
  {
    var xf := x * p.fee;
    var n, d := xf * p.reserveOut, p.reserveIn * 10000 + xf;
    MulLe(0, x, p.fee);
    MulLe(0, xf, p.reserveOut);
    if d > 0 {
      QuotientAtMost(n, d);
      DivLe(n, d, 0);
      MulLe(xf, d, p.reserveOut);
      DivLe(n, d, p.reserveOut);
      assert p.reserveOut * d == d * p.reserveOut;
    }
  }

  /** The reason of a refusal is the first of these that applies; the source's other one never does. */
  lemma OutRefusal(p: Pair, x: u256)
    requires OutAmount(p, x).Refused?
    ensures var n, d := (x * p.fee) * p.reserveOut, p.reserveIn * 10000 + x * p.fee;
            OutAmount(p, x).error
            == if x * p.fee >= TWO256 then AmountInWithFeeOverflow
               else if n >= TWO256 then NumeratorOverflow
               else if p.reserveIn * 10000 >= TWO256 then DenominatorOverflow
               else if d >= TWO256 then DenominatorOverflowFee
               else if d == 0 then CannotCalculateZeroReserve
               else OutAmountIsZero
  {
    OutAmountIff(p, x);
    MulLe(0, x, p.fee);
    MulLe(0, x * p.fee, p.reserveOut);
    var n, d := (x * p.fee) * p.reserveOut, p.reserveIn * 10000 + x * p.fee;
    if 0 < d && n < d { DivLe(n, d, 0); }
  }

  lemma InRefusal(p: Pair, y: u256)
    requires InAmount(p, y).Refused?
    ensures var n, d := (p.reserveIn * y) * 10000, (p.reserveOut - y) * p.fee;
            InAmount(p, y).error
            == if y > p.reserveOut then ReserveOutExceeded
               else if p.reserveIn * y >= TWO256 then NumeratorOverflow
               else if n >= TWO256 then NumeratorOverflowFee
               else if d >= TWO256 then DenominatorOverflowFee
               else if d == 0 then CannotCalculateZeroReserve
               else InAmountIsZero
  {
    InAmountIff(p, y);
    MulLe(0, p.reserveIn, y);
    var m, d := p.reserveIn * y, (p.reserveOut - y) * p.fee;
    if y <= p.reserveOut {
      MulLe(0, p.reserveOut - y, p.fee);
      if 0 < d && m * 10000 < TWO256 { QuoteParts(m, d); }
    }
  }

  /** An input is quoted exactly when the output is below the reserve, both terms of the quotient fit a
      word, and it is at least one; it is then one more than the quotient. */
  lemma InAmountIff(p: Pair, y: u256)
    ensures var n, d := (p.reserveIn * y) * 10000, (p.reserveOut - y) * p.fee;
            && (InAmount(p, y).Amount? <==> y < p.reserveOut && n < TWO256 && d < TWO256 && 0 < d <= n)
            && (InAmount(p, y).Amount? ==> InAmount(p, y).value == n / d + 1)
  {
    var m, d := p.reserveIn * y, (p.reserveOut - y) * p.fee;
    MulLe(0, p.reserveIn, y);
    if y <= p.reserveOut {
      MulLe(0, p.reserveOut - y, p.fee);
      if d > 0 && m * 10000 < TWO256 { QuoteParts(m, d); }
    }
  }

  /** A quotient is zero exactly when the divisor is larger; that of an even number is never the
      greatest word. */
  lemma QuoteParts(m: nat, d: nat)
    requires d > 0 && m * 10000 < TWO256
    ensures 0 <= m * 10000 / d && m * 10000 / d + 1 < TWO256 && (m * 10000 / d == 0 <==> m * 10000 < d)
  {
    EvenWord(m);
    QuotientAtMost(m * 10000, d);
    DivLe(m * 10000, d, 0);
  }

  lemma EvenWord(m: nat)
    requires m * 10000 < TWO256
    ensures m * 10000 + 1 < TWO256
  {
    WordsAreLarge();
  }

  // ------------------------------------------------------ the traded invariant

  /** Paying y for x keeps the product of the reserves, counting only the traded share of x. */
  predicate KeepsProduct(p: Pair, x: int, y: int)
  {
    y * (p.reserveIn * SCALE + x * p.fee) <= (x * p.fee) * p.reserveOut
  }

  /** A quote is the greatest payment that keeps the product. */
  lemma OutAmountIsGreatest(p: Pair, x: u256, y: nat)
    requires OutAmount(p, x).Amount?
    ensures y <= OutAmount(p, x).value <==> KeepsProduct(p, x, y)
  {
    DivLe((x * p.fee) * p.reserveOut, p.reserveIn * SCALE + x * p.fee, y);
  }

  /** An input quote is enough for the output, and two less never is. */
  lemma InAmountIsEnough(p: Pair, y: u256)
    requires InAmount(p, y).Amount?
    ensures var x := InAmount(p, y).value;
            x >= 2 && KeepsProduct(p, x, y) && !KeepsProduct(p, x - 2, y)
    ensures KeepsProduct(p, InAmount(p, y).value - 1, y)
            <==> (p.reserveIn * y * SCALE) % ((p.reserveOut - y) * p.fee) == 0
  {
    hide KeepsProduct, InAmount;
    InAmountIs(p, y);
    Enough(p, y, p.reserveIn * y * SCALE, (p.reserveOut - y) * p.fee, InAmount(p, y).value - 1);
  }

  lemma InAmountIs(p: Pair, y: u256)
    requires InAmount(p, y).Amount?
    ensures (p.reserveOut - y) * p.fee > 0 && InAmount(p, y).value >= 2
    ensures InAmount(p, y).value - 1 == p.reserveIn * y * SCALE / ((p.reserveOut - y) * p.fee)
  {
  }

  lemma Enough(p: Pair, y: int, n: int, d: int, q: int)
    requires n == p.reserveIn * y * SCALE && d == (p.reserveOut - y) * p.fee && d > 0 && q == n / d
    ensures KeepsProduct(p, q + 1, y) && !KeepsProduct(p, q - 1, y) && (KeepsProduct(p, q, y) <==> n % d == 0)
  {
    hide KeepsProduct;
    Rearranged(p, q + 1, y);
    Rearranged(p, q, y);
    Rearranged(p, q - 1, y);
    Around(n, d);
  }

  lemma Around(n: int, d: int)
    requires d > 0
    ensures var q := n / d;
            n <= (q + 1) * d && !(n <= (q - 1) * d) && (n <= q * d <==> n % d == 0)
  {
    DivBounds(n, d);
    var q := n / d;
    assert (q + 1) * d == q * d + d && (q - 1) * d == q * d - d;
  }

  /** Keeping the product, solved for the input. */
  lemma Rearranged(p: Pair, x: int, y: int)
    ensures KeepsProduct(p, x, y) <==> p.reserveIn * y * SCALE <= x * ((p.reserveOut - y) * p.fee)
  {
    var f, ri, ro := p.fee, p.reserveIn, p.reserveOut;
    var xf := x * f;
    Distribute(y, ri * SCALE, xf);
    Regroup(x, f, ro - y);
    assert xf * (ro - y) == xf * ro - xf * y;
    assert y * (ri * SCALE) == ri * y * SCALE;
  }

  lemma Distribute(y: int, a: int, b: int)
    ensures y * (a + b) == y * a + y * b
  {
  }

  // ------------------------------------------------------------------- the laws

  lemma QuoteIsPositive(p: Pair, x: u256)
    requires OutAmount(p, x).Amount?
    ensures x > 0 && p.fee > 0 && p.reserveOut > 0 && 0 < OutAmount(p, x).value <= p.reserveOut
    ensures KeepsProduct(p, x, OutAmount(p, x).value)
  {
    OutAmountIsGreatest(p, x, OutAmount(p, x).value);
    var n, d := (x * p.fee) * p.reserveOut, p.reserveIn * SCALE + x * p.fee;
    if n == 0 { DivIs(0, d, 0); }
  }

  /** A quote leaves some of the reserve exactly when there is a reserve on the other side. */
  lemma QuoteLeavesReserve(p: Pair, x: u256)
    requires OutAmount(p, x).Amount?
    ensures OutAmount(p, x).value < p.reserveOut <==> p.reserveIn > 0
  {
    QuoteIsPositive(p, x);
    OutAmountIsGreatest(p, x, p.reserveOut);
    var xf := x * p.fee;
    Distribute(p.reserveOut, p.reserveIn * SCALE, xf);
    if p.reserveIn > 0 { MulPositive(p.reserveOut, p.reserveIn * SCALE); }
  }

  /** No quote shrinks the constant product, as long as no more than the whole input is traded. */
  lemma ConstantProduct(p: Pair, x: u256)
    requires OutAmount(p, x).Amount? && p.fee <= SCALE
    ensures (p.reserveIn + x) * (p.reserveOut - OutAmount(p, x).value) >= p.reserveIn * p.reserveOut
  {
    QuoteIsPositive(p, x);
    ProductGrows(p.reserveIn, p.reserveOut, p.fee, x, OutAmount(p, x).value);
  }

  /** A quote after which the reserves have a smaller product. */
  predicate Shrinks(p: Pair, x: u256)
  {
    OutAmount(p, x).Amount? && (p.reserveIn + x) * (p.reserveOut - OutAmount(p, x).value) < p.reserveIn * p.reserveOut
  }

  /** There is a quote that shrinks the product exactly for the fees above the whole input and
      below 2^255. */
  lemma SomeQuoteShrinksIff(fee: u256)
    ensures (exists p: Pair, x: u256 :: p.fee == fee && Shrinks(p, x)) <==> SCALE < fee < Pow2(255)
  {
    hide Shrinks, Pow2;
    if SCALE < fee < Pow2(255) {
      var p := LargerFeeShrinks(fee);
    }
    if exists p: Pair, x: u256 :: p.fee == fee && Shrinks(p, x) {
      var p: Pair, x: u256 :| p.fee == fee && Shrinks(p, x);
      ShrinksOnlyThen(p, x);
    }
  }

  lemma ShrinksOnlyThen(p: Pair, x: u256)
    requires Shrinks(p, x)
    ensures SCALE < p.fee < Pow2(255)
  {
    hide OutAmount;
    QuoteIsPositive(p, x);
    if p.fee <= SCALE { ConstantProduct(p, x); }
    if p.fee >= Pow2(255) { HugeFeeKeeps(p, x); }
  }

  lemma LargerFeeShrinks(fee: u256) returns (p: Pair)
    requires SCALE < fee < Pow2(255)
    ensures p.fee == fee && Shrinks(p, 1)
  {
    WordsAreLarge();
    if fee < 2 * SCALE {
      p := Pair(1, SCALE + fee, fee);
      MulLe(fee, 2 * SCALE, SCALE + fee);
      DivIs(fee * (SCALE + fee), SCALE + fee, fee);
      assert OutAmount(p, 1) == Amount(fee);
    } else {
      p := Pair(2, 2, fee);
      DivIs(fee * 2, 2 * SCALE + fee, 1);
      assert OutAmount(p, 1) == Amount(1);
    }
  }

  lemma WordsAreLarge()
    ensures TWO256 == 2 * Pow2(255) && Pow2(255) > 0x1_0000_0000_0000
  {
    SmallPowers();
    Pow2Strict(64, 255);
  }

  /** A larger fee leaves room for no trade but that of a single unit for a single unit. */
  lemma HugeFeeKeeps(p: Pair, x: u256)
    requires OutAmount(p, x).Amount? && p.fee >= Pow2(255)
    ensures x == 1 && p.reserveIn == 0 && p.reserveOut == 1
  {
    WordsAreLarge();
    QuoteIsPositive(p, x);
    if x >= 2 { MulLe(2, x, p.fee); }
    if p.reserveOut >= 2 { MulLe(2, p.reserveOut, p.fee); }
    QuoteLeavesReserve(p, x);
  }

  lemma ProductGrows(ri: nat, ro: nat, f: nat, x: nat, y: nat)
    requires 0 < f <= SCALE && y * (ri * SCALE + x * f) <= (x * f) * ro
    ensures (ri + x) * (ro - y) >= ri * ro
  {
    MulLe(f, SCALE, ri);
    MulLe(ri * f, ri * SCALE, y);
    Distribute(y, ri * SCALE, x * f);
    assert (y * (ri + x)) * f == y * (ri * f) + y * (x * f) by {
      assert (ri + x) * f == ri * f + x * f;
      Regroup(y, ri + x, f);
    }
    assert (x * f) * ro == (x * ro) * f;
    CancelLe(y * (ri + x), x * ro, f);
    assert (ri + x) * (ro - y) == ri * ro + (x * ro - y * (ri + x));
  }

  /** Quoting the output of an input quote gives at least the output asked for. */
  lemma OutOfInAmount(p: Pair, y: u256)
    requires InAmount(p, y).Amount? && OutAmount(p, InAmount(p, y).value).Amount?
    ensures OutAmount(p, InAmount(p, y).value).value >= y
  {
    InAmountIsEnough(p, y);
    OutAmountIsGreatest(p, InAmount(p, y).value, y);
  }

  /** Two less than an input quote never buys the output. */
  lemma TwoLessIsTooLittle(p: Pair, y: u256)
    requires InAmount(p, y).Amount? && InAmount(p, y).value >= 2
    requires OutAmount(p, InAmount(p, y).value - 2).Amount?
    ensures OutAmount(p, InAmount(p, y).value - 2).value < y
  {
    InAmountIsEnough(p, y);
    OutAmountIsGreatest(p, InAmount(p, y).value - 2, y);
  }

  /** Quoting the input of an output quote gives at most one more than the input it was for. */
  lemma InOfOutAmount(p: Pair, x: u256)
    requires OutAmount(p, x).Amount? && InAmount(p, OutAmount(p, x).value).Amount?
    ensures InAmount(p, OutAmount(p, x).value).value <= x + 1
  {
    QuoteIsPositive(p, x);
    var y := OutAmount(p, x).value;
    Rearranged(p, x, y);
    DivLe(p.reserveIn * y * SCALE, (p.reserveOut - y) * p.fee, x);
  }

  /** A larger input never buys less. */
  lemma OutAmountMono(p: Pair, x: u256, z: u256)
    requires x <= z && OutAmount(p, x).Amount? && OutAmount(p, z).Amount?
    ensures OutAmount(p, x).value <= OutAmount(p, z).value
  {
    QuoteIsPositive(p, x);
    var y := OutAmount(p, x).value;
    OutAmountIsGreatest(p, z, y);
    Rearranged(p, x, y);
    Rearranged(p, z, y);
    MulLe(0, p.reserveOut - y, p.fee);
    MulLe(x, z, (p.reserveOut - y) * p.fee);
  }
}
