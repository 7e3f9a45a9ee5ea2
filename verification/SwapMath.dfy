/** `swap_math.rs`: one swap step inside a single tick range. */
module SwapMath {
  import opened Arithmetic
  import opened Words
  import opened FullMath
  import opened SqrtPriceMath

  const TWO255: int := Pow2(255)
  const MILLION: u128 := (ShiftsFit(); 1000000)

  datatype Step = Step(next: u256, amountIn: u256, amountOut: u256, fee: u256)

  // ------------------------------------------------------------- the model

  /** What the trader pays for a move, rounded up: token0 when the price falls, token1 when it rises. */
  function DeltaIn(zeroForOne: bool, cur: u256, next: u256, liquidity: u128): Result<u256>
  {
    if zeroForOne then Amount0Delta(next, cur, liquidity, true) else Amount1Delta(cur, next, liquidity, true)
  }

  /** What the trader receives for a move, rounded down. */
  function DeltaOut(zeroForOne: bool, cur: u256, next: u256, liquidity: u128): Result<u256>
  {
    if zeroForOne then Amount1Delta(next, cur, liquidity, false) else Amount0Delta(cur, next, liquidity, false)
  }

  /** The price a step stops at: the target if the amount reaches it, otherwise where the amount runs out. */
  function NextPrice(cur: u256, target: u256, liquidity: u128, remaining: int, feePips: nat): Result<u256>
    requires feePips <= MILLION && -TWO255 < remaining < TWO255
  {
    var zeroForOne := cur >= target;
    assert TWO256 == 2 * TWO255;
    if remaining >= 0 then
      var lessFee :- FloorMulDiv(remaining, MILLION - feePips, MILLION);
      var needed :- DeltaIn(zeroForOne, cur, target, liquidity);
      if lessFee >= needed then Ok(target)
      else NextPriceFromInput(cur, liquidity, lessFee, zeroForOne)
    else
      var available :- DeltaOut(zeroForOne, cur, target, liquidity);
      if -remaining >= available then Ok(target)
      else NextPriceFromOutput(cur, liquidity, -remaining, zeroForOne)
  }

  /** The amounts of a step are those of the move it makes, the output capped at the request;
      a partial exact-input step takes what is left of the input as its fee. */
  function Settle(cur: u256, target: u256, next: u256, liquidity: u128, remaining: int, feePips: nat): Result<Step>
    requires feePips <= MILLION && -TWO255 < remaining < TWO255
  {
    var zeroForOne := cur >= target;
    assert TWO256 == 2 * TWO255;
    var amountIn :- DeltaIn(zeroForOne, cur, next, liquidity);
    var moved :- DeltaOut(zeroForOne, cur, next, liquidity);
    var amountOut := if remaining < 0 && moved > -remaining then -remaining else moved;
    if remaining >= 0 && next != target then
      Ok(Step(next, amountIn, amountOut, WrapSub(remaining, amountIn)))
    else
      var fee :- CeilMulDiv(amountIn, feePips, MILLION - feePips);
      Ok(Step(next, amountIn, amountOut, fee))
  }

  /** A step: find the price it stops at, then settle the amounts of the move. */
  function SwapStep(cur: u256, target: u256, liquidity: u128, remaining: int, feePips: nat): Result<Step>
    requires feePips <= MILLION && -TWO255 < remaining < TWO255
  {
    var next :- NextPrice(cur, target, liquidity, remaining, feePips);
    Settle(cur, target, next, liquidity, remaining, feePips)
  }

  /** The first half of `compute_swap_step`: the price reached, and the amount of the whole move
      to the target, which the second half reuses when the target is reached. */
  method ReachedPrice(cur: u256, target: u256, liquidity: u128, remaining: int, feePips: nat)
    returns (next: Result<u256>, whole: u256)
    requires feePips <= MILLION && -TWO255 < remaining < TWO255
    ensures next == NextPrice(cur, target, liquidity, remaining, feePips)
    ensures next.Ok? && remaining >= 0 ==> DeltaIn(cur >= target, cur, target, liquidity) == Ok(whole)
    ensures next.Ok? && remaining < 0 ==> DeltaOut(cur >= target, cur, target, liquidity) == Ok(whole)
  {
    assert TWO256 == 2 * TWO255;
    var zeroForOne := cur >= target;
    whole := 0;
    if remaining >= 0 {
      var lessFee := MulDiv(remaining, MILLION - feePips, MILLION);
      if lessFee.Err? { return lessFee, 0; }
      var needed := if zeroForOne then Amount0Delta(target, cur, liquidity, true)
                    else Amount1Delta(cur, target, liquidity, true);
      if needed.Err? { return needed, 0; }
      whole := needed.value;
      if lessFee.value >= whole {
        next := Ok(target);
      } else {
        next := NextPriceFromInput(cur, liquidity, lessFee.value, zeroForOne);
      }
    } else {
      var available := if zeroForOne then Amount1Delta(target, cur, liquidity, false)
                       else Amount0Delta(cur, target, liquidity, false);
      if available.Err? { return available, 0; }
      whole := available.value;
      if -remaining >= whole {
        next := Ok(target);
      } else {
        next := NextPriceFromOutput(cur, liquidity, -remaining, zeroForOne);
      }
    }
  }

  /** `compute_swap_step`, which recomputes only the amounts it does not already hold. */
  method ComputeSwapStep(cur: u256, target: u256, liquidity: u128, remaining: int, feePips: nat)
    returns (r: Result<Step>)
    requires feePips <= MILLION && -TWO255 < remaining < TWO255
    ensures r == SwapStep(cur, target, liquidity, remaining, feePips)
  {
    assert TWO256 == 2 * TWO255;
    var zeroForOne := cur >= target;
    var exactIn := remaining >= 0;
    var reached, whole := ReachedPrice(cur, target, liquidity, remaining, feePips);
    if reached.Err? { return Err(reached.error); }
    var next := reached.value;
    var amountIn: Result<u256>, amountOut: Result<u256> := Ok(whole), Ok(whole);
    var max := target == next;

    if zeroForOne {
      if !max || !exactIn {
        amountIn := Amount0Delta(next, cur, liquidity, true);
      }
      if !max || exactIn {
        amountOut := Amount1Delta(next, cur, liquidity, false);
      }
    } else {
      if !max || !exactIn {
        amountIn := Amount1Delta(cur, next, liquidity, true);
      }
      if !max || exactIn {
        amountOut := Amount0Delta(cur, next, liquidity, false);
      }
    }
    assert amountIn == DeltaIn(zeroForOne, cur, next, liquidity);
    assert amountOut == DeltaOut(zeroForOne, cur, next, liquidity);
    if amountIn.Err? { return Err(amountIn.error); }
    if amountOut.Err? { return Err(amountOut.error); }

    var out := amountOut.value;
    if !exactIn && out > -remaining {
      out := -remaining;
    }

    if exactIn && next != target {
      return Ok(Step(next, amountIn.value, out, WrapSub(remaining, amountIn.value)));
    } else {
      var fee := MulDivRoundingUp(amountIn.value, feePips, MILLION - feePips);
      if fee.Err? { return Err(fee.error); }
      return Ok(Step(next, amountIn.value, out, fee.value));
    }
  }

  // --------------------------------------------------------- exact amounts

  /** The price moves the way the trade pushes it, and stays a price. */
  predicate Toward(zeroForOne: bool, cur: nat, next: nat)
  {
    cur < TWO160 && next < TWO160 && if zeroForOne then 0 < next <= cur else 0 < cur <= next
  }

  function MoveIn(zeroForOne: bool, cur: nat, next: nat, liquidity: u128): nat
    requires Toward(zeroForOne, cur, next)
  {
    if zeroForOne then Exact0(next, cur, Shift96(liquidity), true) else Exact1(cur, next, liquidity, true)
  }

  function MoveOut(zeroForOne: bool, cur: nat, next: nat, liquidity: u128): nat
    requires Toward(zeroForOne, cur, next)
  {
    if zeroForOne then Exact1(next, cur, liquidity, false) else Exact0(cur, next, Shift96(liquidity), false)
  }

  lemma DeltasAreExact(zeroForOne: bool, cur: u256, next: u256, liquidity: u128)
    requires Toward(zeroForOne, cur, next)
    ensures MoveIn(zeroForOne, cur, next, liquidity) < TWO256
    ensures MoveOut(zeroForOne, cur, next, liquidity) < TWO256
    ensures DeltaIn(zeroForOne, cur, next, liquidity) == Ok(MoveIn(zeroForOne, cur, next, liquidity))
    ensures DeltaOut(zeroForOne, cur, next, liquidity) == Ok(MoveOut(zeroForOne, cur, next, liquidity))
  {
    if zeroForOne {
      Amount0IsExact(next, cur, liquidity, true);
      Amount1IsExact(next, cur, liquidity, false);
    } else {
      Amount1IsExact(cur, next, liquidity, true);
      Amount0IsExact(cur, next, liquidity, false);
    }
  }

  /** Next price lies between the current price and the target. */
  predicate Between(zeroForOne: bool, cur: nat, next: nat, target: nat)
  {
    if zeroForOne then target <= next <= cur else cur <= next <= target
  }

  // ------------------------------------------- an input too small for the target

  lemma Below255(x: nat, liquidity: u128, price: nat)
    requires x < TWO255 && price > 0
    ensures 0 <= Shift96(liquidity) / price
    ensures Shift96(liquidity) / price + x < TWO256
  {
    ShiftBelow255(liquidity);
    CeilBounds(Shift96(liquidity), price);
    MulLe(1, price, Shift96(liquidity) / price);
    assert TWO256 == 2 * TWO255;
  }

  lemma ShiftBelow255(liquidity: u128)
    ensures Shift96(liquidity) < TWO255
  {
    SmallPowers();
    ShiftBound(liquidity, 128, 96);
    Pow2Strict(224, 255);
  }

  /** An input that does not cover the whole move stops strictly short of the target, at a price
      it does cover. */
  lemma PartialInput(zeroForOne: bool, cur: u256, target: u256, liquidity: u128, amount: u256) returns (q: u256)
    requires Toward(zeroForOne, cur, target)
    requires amount < MoveIn(zeroForOne, cur, target, liquidity) && amount < TWO255
    ensures liquidity > 0
    ensures NextPriceFromInput(cur, liquidity, amount, zeroForOne) == Ok(q)
    ensures Between(zeroForOne, cur, q, target) && q != target
    ensures Toward(zeroForOne, cur, q) && MoveIn(zeroForOne, cur, q, liquidity) <= amount
    ensures q == Partial(zeroForOne, cur, liquidity, amount)
  {
    NeedsLiquidity(zeroForOne, cur, target, liquidity);
    if zeroForOne {
      var n := Shift96(liquidity);
      Below255(amount, liquidity, cur);
      NextPriceAdd0(cur, liquidity, amount);
      LoweredBounds(cur, n, amount);
      q := Lowered(cur, n, amount);
      Exact0Bounds(target, cur, n, amount);
      Exact0Bounds(q, cur, n, amount);
      if q <= target { CoversBelow(n, amount, cur, q, target); }
    } else {
      NextPriceAdd1(cur, liquidity, amount);
      q := Partial1(zeroForOne, cur, target, liquidity, amount);
    }
  }

  /** Where an input that is used up stops. */
  function Partial(zeroForOne: bool, cur: nat, liquidity: u128, amount: nat): nat
    requires cur > 0 && liquidity > 0
  {
    CeilBounds(amount * TWO96, liquidity);
    if zeroForOne then Lowered(cur, Shift96(liquidity), amount) else cur + amount * TWO96 / liquidity
  }

  lemma NeedsLiquidity(zeroForOne: bool, cur: u256, target: u256, liquidity: u128)
    requires Toward(zeroForOne, cur, target)
    requires MoveIn(zeroForOne, cur, target, liquidity) > 0 || MoveOut(zeroForOne, cur, target, liquidity) > 0
    ensures liquidity > 0
  {
  }

  /** A price at or below one the amount covers is covered by no less. */
  lemma CoversBelow(n: nat, amount: nat, cur: nat, q: nat, t: nat)
    requires q <= t && n * cur <= n * q + amount * (cur * q)
    ensures n * cur <= n * t + amount * (cur * t)
  {
    MulLe(q, t, n);
    MulLe(q, t, cur);
    MulLe(cur * q, cur * t, amount);
  }

  lemma QuotientBelow(a: nat, d: nat, q: nat)
    requires d > 0 && a < d * q
    ensures a / d < q
  {
    DivLe(a, d, q - 1);
    assert (q - 1) * d + d == d * q;
  }

  lemma Partial1(zeroForOne: bool, cur: u256, target: u256, liquidity: u128, amount: u256) returns (q: u256)
    requires !zeroForOne && Toward(zeroForOne, cur, target) && liquidity > 0
    requires amount < MoveIn(zeroForOne, cur, target, liquidity)
    ensures amount * TWO96 / liquidity >= 0
    ensures q == cur + amount * TWO96 / liquidity && cur <= q < target
    ensures MoveIn(zeroForOne, cur, q, liquidity) <= amount
  {
    var move := amount * TWO96 / liquidity;
    CeilBounds(amount * TWO96, liquidity);
    Exact1Bounds(cur, target, liquidity, amount);
    QuotientBelow(amount * TWO96, liquidity, target - cur);
    q := cur + move;
    MoveCosts1(liquidity, amount, move);
    Exact1Bounds(cur, q, liquidity, amount);
  }

  // ------------------------------------------- an output smaller than the whole move

  /** An output below what the whole move pays stops at or before the target, at a price that
      pays it. */
  lemma PartialOutput(zeroForOne: bool, cur: u256, target: u256, liquidity: u128, amount: u256) returns (q: u256)
    requires Toward(zeroForOne, cur, target) && 0 < amount < MoveOut(zeroForOne, cur, target, liquidity)
    ensures NextPriceFromOutput(cur, liquidity, amount, zeroForOne) == Ok(q)
    ensures Between(zeroForOne, cur, q, target) && Toward(zeroForOne, cur, q)
    ensures MoveOut(zeroForOne, cur, q, liquidity) >= amount
  {
    NeedsLiquidity(zeroForOne, cur, target, liquidity);
    if zeroForOne {
      q := PartialOut1(cur, target, liquidity, amount);
    } else {
      q := PartialOut0(cur, target, liquidity, amount);
    }
  }

  /** q is the price computed for an output. */
  predicate PricedOutput(zeroForOne: bool, cur: u256, liquidity: u128, amount: nat, q: u256)
  {
    amount < TWO256 && NextPriceFromOutput(cur, liquidity, amount, zeroForOne) == Ok(q)
  }

  /** It is the nearest price that pays the output. */
  lemma OutputIsNearest(zeroForOne: bool, cur: u256, target: u256, liquidity: u128, amount: nat, q: u256, y: u256)
    requires Toward(zeroForOne, cur, target) && 0 < amount < MoveOut(zeroForOne, cur, target, liquidity)
    requires PricedOutput(zeroForOne, cur, liquidity, amount, q)
    requires Toward(zeroForOne, cur, y) && amount <= MoveOut(zeroForOne, cur, y, liquidity)
    ensures Between(zeroForOne, cur, q, y)
  {
    NeedsLiquidity(zeroForOne, cur, target, liquidity);
    if zeroForOne {
      var r := PartialOut1(cur, target, liquidity, amount);
      Exact1Bounds(y, cur, liquidity, amount);
      CeilLe(amount * TWO96, liquidity, cur - y);
      Commute(liquidity, cur - y);
    } else {
      var n := Shift96(liquidity);
      var r := PartialOut0(cur, target, liquidity, amount);
      Exact0Bounds(cur, target, n, amount);
      BelowReserve(n, amount, cur, target);
      Exact0Bounds(cur, y, n, amount);
      RaisedBounds(cur, n, amount, y);
    }
  }

  lemma PartialOut1(cur: u256, target: u256, liquidity: u128, amount: u256) returns (q: u256)
    requires Toward(true, cur, target) && liquidity > 0 && amount < MoveOut(true, cur, target, liquidity)
    ensures NextPriceFromOutput(cur, liquidity, amount, true) == Ok(q)
    ensures target <= q <= cur && MoveOut(true, cur, q, liquidity) >= amount
    ensures amount * TWO96 >= 0 && q == cur - CeilDiv(amount * TWO96, liquidity)
  {
    Exact1Bounds(target, cur, liquidity, amount);
    var move := CeilDiv(amount * TWO96, liquidity);
    CeilLe(amount * TWO96, liquidity, cur - target);
    Commute(liquidity, cur - target);
    NextPriceSub1(cur, liquidity, amount);
    q := cur - move;
    MovePays1(liquidity, amount, move);
    Exact1Bounds(q, cur, liquidity, amount);
  }

  lemma Commute(x: int, y: int)
    ensures x * y == y * x
  {
  }

  lemma PartialOut0(cur: u256, target: u256, liquidity: u128, amount: u256) returns (q: u256)
    requires Toward(false, cur, target) && liquidity > 0 && amount < MoveOut(false, cur, target, liquidity)
    ensures NextPriceFromOutput(cur, liquidity, amount, false) == Ok(q)
    ensures cur <= q <= target && MoveOut(false, cur, q, liquidity) >= amount
    ensures amount * cur < Shift96(liquidity) && q == Raised(cur, Shift96(liquidity), amount)
  {
    var n := Shift96(liquidity);
    Exact0Bounds(cur, target, n, amount);
    BelowReserve(n, amount, cur, target);
    RaisedBounds(cur, n, amount, target);
    q := Raised(cur, n, amount);
    NextPriceSub0(cur, liquidity, amount);
    RaisedBounds(cur, n, amount, q);
    Exact0Bounds(cur, q, n, amount);
  }

  /** An amount the move pays is below the whole reserve n / cur. */
  lemma BelowReserve(n: nat, amount: nat, cur: nat, target: nat)
    requires 0 < cur && target > 0 && n > 0
    requires n * cur + amount * (target * cur) <= n * target
    ensures 0 <= amount * cur < n
  {
    MulLe(0, amount, cur);
    MulPositive(n, cur);
    assert amount * (target * cur) == (amount * cur) * target by { Regroup(amount, cur, target); }
    CancelLt(amount * cur, n, target);
  }

  // ---------------------------------------------------------------- the step

  predicate ValidStep(cur: u256, target: u256, remaining: int, feePips: nat)
  {
    0 < cur < TWO160 && 0 < target < TWO160 && feePips < MILLION && -TWO255 < remaining < TWO255
  }

  /** An input less the fee. */
  function LessFee(remaining: nat, feePips: nat): nat
    requires feePips < MILLION
  {
    MulLe(0, remaining, MILLION - feePips);
    remaining * (MILLION - feePips) / MILLION
  }

  lemma LessFeeFits(remaining: nat, feePips: nat)
    requires feePips < MILLION && remaining < TWO256
    ensures LessFee(remaining, feePips) <= remaining
    ensures FloorMulDiv(remaining, MILLION - feePips, MILLION) == Ok(LessFee(remaining, feePips))
  {
    MulLe(MILLION - feePips, MILLION, remaining);
    DivLe(remaining * (MILLION - feePips), MILLION, remaining);
  }

  lemma MoveInBound(zeroForOne: bool, cur: nat, next: nat, liquidity: u128)
    requires Toward(zeroForOne, cur, next)
    ensures MoveIn(zeroForOne, cur, next, liquidity) <= TWO160 * 0x1_0000_0000_0000_0000
  {
    if zeroForOne {
      AtMostReserve(next, cur, Shift96(liquidity));
    } else {
      Move1Fits(liquidity, next - cur);
      Exact1Bounds(cur, next, liquidity, TWO160 * 0x1_0000_0000);
    }
  }

  /** The fee on a step that reaches its target, or that asks for an output. */
  lemma FeeFits(amountIn: u256, feePips: nat)
    requires feePips < MILLION && amountIn <= TWO160 * 0x1_0000_0000_0000_0000
    ensures amountIn * feePips >= 0
    ensures CeilMulDiv(amountIn, feePips, MILLION - feePips).Ok?
    ensures CeilMulDiv(amountIn, feePips, MILLION - feePips).value == CeilDiv(amountIn * feePips, MILLION - feePips)
  {
    var p := Product(amountIn, feePips);
    var d := MILLION - feePips;
    assert p < TWO256 by {
      MulLe(feePips, MILLION, amountIn);
      MillionFits();
    }
    CeilLe(p, d, p);
    MulLe(1, d, p);
  }

  lemma MillionFits()
    ensures TWO160 * 0x1_0000_0000_0000_0000 * MILLION < TWO256
  {
    SmallPowers();
    Pow2Product(160, 64, TWO160, 0x1_0000_0000_0000_0000);
    Pow2Product(224, 32, TWO160 * 0x1_0000_0000_0000_0000, 0x1_0000_0000);
  }

  /** An input that covers the move also covers its fee. */
  lemma FeeWithinBudget(amountIn: nat, remaining: nat, feePips: nat)
    requires feePips < MILLION && amountIn <= LessFee(remaining, feePips)
    ensures amountIn * feePips >= 0
    ensures amountIn + CeilDiv(amountIn * feePips, MILLION - feePips) <= remaining
  {
    var d := MILLION - feePips;
    MulLe(0, amountIn, feePips);
    DivLe(remaining * d, MILLION, amountIn);
    LessFeeLe(remaining, feePips);
    assert amountIn * feePips <= (remaining - amountIn) * d;
    CeilLe(amountIn * feePips, d, remaining - amountIn);
  }

  lemma LessFeeLe(remaining: nat, feePips: nat)
    requires feePips < MILLION
    ensures LessFee(remaining, feePips) <= remaining
  {
    MulLe(MILLION - feePips, MILLION, remaining);
    DivLe(remaining * (MILLION - feePips), MILLION, remaining);
  }

  /** An exact-input step: it succeeds without wrapping, stops between the start and the target,
      never spends more than the input, spends all of it when it stops short, and stops short
      exactly when the input less the fee does not cover the whole move. */
  lemma ExactInputStep(cur: u256, target: u256, liquidity: u128, remaining: nat, feePips: nat) returns (s: Step)
    requires ValidStep(cur, target, remaining, feePips)
    ensures SwapStep(cur, target, liquidity, remaining, feePips) == Ok(s)
    ensures var zf1 := cur >= target; var lessFee := LessFee(remaining, feePips);
            && Toward(zf1, cur, target) && Toward(zf1, cur, s.next) && Between(zf1, cur, s.next, target)
            && s.amountIn == MoveIn(zf1, cur, s.next, liquidity) <= lessFee
            && s.amountOut == MoveOut(zf1, cur, s.next, liquidity)
            && (s.next == target <==> MoveIn(zf1, cur, target, liquidity) <= lessFee)
            && (s.next != target ==> liquidity > 0 && s.next == Partial(zf1, cur, liquidity, lessFee))
    ensures s.amountIn + s.fee <= remaining
    ensures s.next != target ==> s.amountIn + s.fee == remaining
    ensures s.next == target ==> s.amountIn * feePips >= 0 && s.fee == CeilDiv(s.amountIn * feePips, MILLION - feePips)
  {
    if LessFee(remaining, feePips) < MoveIn(cur >= target, cur, target, liquidity) {
      s := PartialInputStep(cur, target, liquidity, remaining, feePips);
    } else {
      s := WholeInputStep(cur, target, liquidity, remaining, feePips);
    }
  }

  lemma WholeInputStep(cur: u256, target: u256, liquidity: u128, remaining: nat, feePips: nat) returns (s: Step)
    requires ValidStep(cur, target, remaining, feePips)
    requires MoveIn(cur >= target, cur, target, liquidity) <= LessFee(remaining, feePips)
    ensures SwapStep(cur, target, liquidity, remaining, feePips) == Ok(s) && s.next == target
    ensures s.amountIn == MoveIn(cur >= target, cur, target, liquidity)
    ensures s.amountOut == MoveOut(cur >= target, cur, target, liquidity)
    ensures s.amountIn * feePips >= 0 && s.fee == CeilDiv(s.amountIn * feePips, MILLION - feePips)
    ensures s.amountIn + s.fee <= remaining
  {
    assert TWO256 == 2 * TWO255;
    var zf1 := cur >= target;
    LessFeeFits(remaining, feePips);
    DeltasAreExact(zf1, cur, target, liquidity);
    MoveInBound(zf1, cur, target, liquidity);
    var whole := MoveIn(zf1, cur, target, liquidity);
    FeeFits(whole, feePips);
    FeeWithinBudget(whole, remaining, feePips);
    s := Step(target, whole, MoveOut(zf1, cur, target, liquidity),
              CeilMulDiv(whole, feePips, MILLION - feePips).value);
  }

  lemma PartialInputStep(cur: u256, target: u256, liquidity: u128, remaining: nat, feePips: nat) returns (s: Step)
    requires ValidStep(cur, target, remaining, feePips)
    requires LessFee(remaining, feePips) < MoveIn(cur >= target, cur, target, liquidity)
    ensures SwapStep(cur, target, liquidity, remaining, feePips) == Ok(s) && s.next != target
    ensures liquidity > 0 && s.next == Partial(cur >= target, cur, liquidity, LessFee(remaining, feePips))
    ensures Toward(cur >= target, cur, s.next) && Between(cur >= target, cur, s.next, target)
    ensures s.amountIn == MoveIn(cur >= target, cur, s.next, liquidity) <= LessFee(remaining, feePips)
    ensures s.amountOut == MoveOut(cur >= target, cur, s.next, liquidity)
    ensures s.amountIn + s.fee == remaining
  {
    hide MoveIn, MoveOut, LessFee, Partial, Wrap;
    var zf1 := cur >= target;
    var next := PartialInputPrice(cur, target, liquidity, remaining, feePips);
    DeltasAreExact(zf1, cur, next, liquidity);
    var paid := MoveIn(zf1, cur, next, liquidity);
    LessFeeLe(remaining, feePips);
    assert TWO256 == 2 * TWO255;
    WrapNear(remaining - paid);
    s := Step(next, paid, MoveOut(zf1, cur, next, liquidity), remaining - paid);
  }

  lemma PartialInputPrice(cur: u256, target: u256, liquidity: u128, remaining: nat, feePips: nat) returns (next: u256)
    requires ValidStep(cur, target, remaining, feePips)
    requires LessFee(remaining, feePips) < MoveIn(cur >= target, cur, target, liquidity)
    ensures NextPrice(cur, target, liquidity, remaining, feePips) == Ok(next) && next != target
    ensures liquidity > 0 && next == Partial(cur >= target, cur, liquidity, LessFee(remaining, feePips))
    ensures Toward(cur >= target, cur, next) && Between(cur >= target, cur, next, target)
    ensures MoveIn(cur >= target, cur, next, liquidity) <= LessFee(remaining, feePips)
  {
    assert TWO256 == 2 * TWO255;
    LessFeeFits(remaining, feePips);
    DeltasAreExact(cur >= target, cur, target, liquidity);
    next := PartialInput(cur >= target, cur, target, liquidity, LessFee(remaining, feePips));
  }

  /** An exact-output step: it succeeds without wrapping, stops between the start and the target,
      never pays more than the request, and pays exactly the request when it stops short. */
  lemma ExactOutputStep(cur: u256, target: u256, liquidity: u128, remaining: int, feePips: nat) returns (s: Step)
    requires ValidStep(cur, target, remaining, feePips) && remaining < 0
    ensures SwapStep(cur, target, liquidity, remaining, feePips) == Ok(s)
    ensures var zf1 := cur >= target;
            && Toward(zf1, cur, target) && Toward(zf1, cur, s.next) && Between(zf1, cur, s.next, target)
            && s.amountIn == MoveIn(zf1, cur, s.next, liquidity)
            && s.amountOut <= MoveOut(zf1, cur, s.next, liquidity)
            && (MoveOut(zf1, cur, target, liquidity) <= -remaining ==>
                  s.next == target && s.amountOut == MoveOut(zf1, cur, target, liquidity))
            && (MoveOut(zf1, cur, target, liquidity) > -remaining ==> s.amountOut == -remaining)
    ensures MoveOut(cur >= target, cur, target, liquidity) > -remaining ==>
              PricedOutput(cur >= target, cur, liquidity, -remaining, s.next)
    ensures s.amountOut <= -remaining
    ensures s.next != target ==> s.amountOut == -remaining
    ensures s.amountIn * feePips >= 0 && s.fee == CeilDiv(s.amountIn * feePips, MILLION - feePips)
  {
    var zf1 := cur >= target;
    var next := OutputPrice(cur, target, liquidity, remaining, feePips);
    DeltasAreExact(zf1, cur, next, liquidity);
    MoveInBound(zf1, cur, next, liquidity);
    FeeFits(MoveIn(zf1, cur, next, liquidity), feePips);
    s := SwapStep(cur, target, liquidity, remaining, feePips).value;
  }

  lemma OutputPrice(cur: u256, target: u256, liquidity: u128, remaining: int, feePips: nat) returns (next: u256)
    requires ValidStep(cur, target, remaining, feePips) && remaining < 0
    ensures NextPrice(cur, target, liquidity, remaining, feePips) == Ok(next)
    ensures Toward(cur >= target, cur, next) && Between(cur >= target, cur, next, target)
    ensures MoveOut(cur >= target, cur, target, liquidity) <= -remaining ==> next == target
    ensures MoveOut(cur >= target, cur, target, liquidity) > -remaining ==>
              && MoveOut(cur >= target, cur, next, liquidity) >= -remaining
              && PricedOutput(cur >= target, cur, liquidity, -remaining, next)
  {
    assert TWO256 == 2 * TWO255;
    DeltasAreExact(cur >= target, cur, target, liquidity);
    next := target;
    if MoveOut(cur >= target, cur, target, liquidity) > -remaining {
      next := PartialOutput(cur >= target, cur, target, liquidity, -remaining);
    }
  }

  // ------------------------------------------------------- the fee, in millionths

  /** The fee is the least that is at least its share: feePips millionths of input and fee together. */
  predicate LeastShare(amountIn: nat, fee: nat, feePips: nat)
  {
    (fee - 1) * (1000000 - feePips) < amountIn * feePips <= fee * (1000000 - feePips)
  }

  /** What is left of an amount after the fee covers another one. */
  predicate Covers(amount: nat, feePips: nat, x: nat) { 1000000 * x <= amount * (1000000 - feePips) }

  /** A step that reaches its target, or asks for an output, takes the least fee that is its share. An
      input that stops short is all taken; it does so exactly when, less the fee, it does not cover the
      whole move. In any case what a step takes covers its move. */
  lemma FeeInMillionths(cur: u256, target: u256, liquidity: u128, remaining: int, feePips: nat)
    requires ValidStep(cur, target, remaining, feePips)
    ensures SwapStep(cur, target, liquidity, remaining, feePips).Ok? && Toward(cur >= target, cur, target)
    ensures var s := SwapStep(cur, target, liquidity, remaining, feePips).value;
            && (remaining >= 0 ==>
                  && (s.next == target <==> Covers(remaining, feePips, MoveIn(cur >= target, cur, target, liquidity)))
                  && (s.next != target ==> s.amountIn + s.fee == remaining))
            && (remaining < 0 || s.next == target ==> LeastShare(s.amountIn, s.fee, feePips))
            && Covers(s.amountIn + s.fee, feePips, s.amountIn)
  {
    hide MoveIn, MoveOut, SwapStep, Partial, PricedOutput, CeilDiv, LessFee, LeastShare, Covers;
    if remaining >= 0 {
      var s := ExactInputStep(cur, target, liquidity, remaining, feePips);
      LessFeeCovers(remaining, feePips, MoveIn(cur >= target, cur, target, liquidity));
      LessFeeCovers(remaining, feePips, s.amountIn);
      if s.next == target { LeastFee(s.amountIn, feePips, s.fee); }
    } else {
      var s := ExactOutputStep(cur, target, liquidity, remaining, feePips);
      LeastFee(s.amountIn, feePips, s.fee);
    }
  }

  lemma LessFeeCovers(remaining: nat, feePips: nat, x: nat)
    requires feePips < MILLION
    ensures x <= LessFee(remaining, feePips) <==> Covers(remaining, feePips, x)
  {
    DivLe(remaining * (MILLION - feePips), MILLION, x - 1);
  }

  lemma LeastFee(amountIn: nat, feePips: nat, fee: nat)
    requires feePips < MILLION && amountIn * feePips >= 0 && fee == CeilDiv(amountIn * feePips, MILLION - feePips)
    ensures LeastShare(amountIn, fee, feePips) && Covers(amountIn + fee, feePips, amountIn)
  {
    LeastMultiple(amountIn * feePips, 1000000 - feePips, fee);
    FeeCovers(amountIn, feePips, fee, 1000000 - feePips);
  }

  lemma LeastMultiple(x: nat, d: nat, c: nat)
    requires d > 0 && c == CeilDiv(x, d)
    ensures (c - 1) * d < x <= c * d
  {
    hide CeilDiv;
    CeilLe(x, d, c);
    if c > 0 { CeilLe(x, d, c - 1); } else { assert (c - 1) * d == 0 - d; }
  }

  lemma FeeCovers(amountIn: nat, feePips: nat, fee: nat, d: nat)
    requires d == 1000000 - feePips && amountIn * feePips <= fee * d
    ensures Covers(amountIn + fee, feePips, amountIn)
  {
    assert (amountIn + fee) * d == amountIn * d + fee * d && amountIn * d == 1000000 * amountIn - amountIn * feePips;
  }
}
