/** Downward swaps that start at the minimum price. Their limit is one unit above it, so the only step
    such a swap takes goes up: it takes token1 amounts and pays token0 amounts. */
module PoolFloor {
  import opened Arithmetic
  import opened Words
  import opened FullMath
  import opened SqrtPriceMath
  import opened SwapMath
  import opened SwapLaws
  import opened RealPowers
  import opened TickMath
  import opened TickInverse
  import opened Options
  import opened PoolSwap
  import TickBitmap

  // --------------------------------------------------------------- the first tick

  lemma CloseGap(x: real, y: real, h: real, k: real)
    requires Close(x, h, 0.000000002) && Close(y, k, 0.000000002)
    requires x >= 0.0 && y >= 0.0 && h > 0.0 && k >= BASE * h
    ensures 1.00004 * x < y
  {
    if 1.00004 * x >= y {
      RMulLeMul(y, 1.00004 * x, y, 1.00004 * x);
      assert (1.00004 * x) * (1.00004 * x) == 1.0000800016 * (x * x);
      TooClose(x * x, y * y, h, k);
    }
  }

  lemma TooClose(xx: real, yy: real, h: real, k: real)
    requires xx <= 1.000000002 * h && 0.999999998 * k <= yy && h > 0.0 && k >= BASE * h
    ensures 1.0000800016 * xx < yy
  {
  }

  /** The first tick is many prices wide. */
  lemma FirstTick()
    ensures MIN_SQRT_RATIO == PriceAtTick(MIN_TICK) && MIN_SQRT_RATIO + 3 < PriceAtTick(MIN_TICK + 1)
  {
    hide PriceAtTick, Close;
    var s, t := MIN_TICK, MIN_TICK + 1;
    PriceIsPriced(s);
    PriceIsPriced(t);
    ZPowNext(BASE, s);
    ZPowPositive(BASE, s);
    PriceEndpoints();
    CloseGap(PriceAtTick(s) as real / Q96, PriceAtTick(t) as real / Q96, ZPow(BASE, s), ZPow(BASE, t));
  }

  // ------------------------------------------------------------------- the outcome

  /** The price above the minimum. */
  const LIFTED: int := MIN_SQRT_RATIO + 1

  /** What the step up takes in before the fee. */
  function LiftIn(liquidity: u128): nat { MoveIn(false, MIN_SQRT_RATIO, LIFTED, liquidity) }

  /** What it can pay. */
  function LiftOut(liquidity: u128): nat { MoveOut(false, MIN_SQRT_RATIO, LIFTED, liquidity) }

  /** What it takes in with the fee. */
  function LiftCost(liquidity: u128, fee: nat): nat
    requires fee < MILLION
  {
    WithFee(LiftIn(liquidity), fee)
  }

  /** Whether the request is enough for the step. */
  predicate Lifts(pool: Pool, s: State)
    requires ValidPool(pool)
  {
    s.remaining < 0 || (s.remaining > 0 && LiftIn(s.place.liquidity) <= LessFee(s.remaining, pool.fee))
  }

  function LiftPaid(s: State): nat
  {
    var most := LiftOut(s.place.liquidity);
    if s.remaining < 0 && -s.remaining < most then -s.remaining else most
  }

  ghost function FloorStep(pool: Pool, s: State): Result<Step>
    requires AtFloor(pool, true, s)
  {
    SwapStep(s.price, LIFTED, s.place.liquidity, s.remaining, pool.fee)
  }

  /** The step goes up, or nowhere. */
  lemma FloorStepIs(pool: Pool, s: State)
    requires AtFloor(pool, true, s) && s.remaining != 0
    ensures FloorStep(pool, s).Ok?
    ensures var step := FloorStep(pool, s).value;
            if Lifts(pool, s) then
              && step.next == LIFTED && step.amountIn + step.fee == LiftCost(s.place.liquidity, pool.fee)
              && step.amountOut == LiftPaid(s)
            else step.next == MIN_SQRT_RATIO && step.amountIn + step.fee == s.remaining && step.amountOut == 0
  {
    hide MoveIn, MoveOut, SwapStep, LessFee, Partial;
    MaxPriceFits();
    StandingStill(MIN_SQRT_RATIO, s.place.liquidity);
    if s.remaining > 0 {
      var step := ExactInputStep(s.price, LIFTED, s.place.liquidity, s.remaining, pool.fee);
    } else {
      var step := ExactOutputStep(s.price, LIFTED, s.place.liquidity, s.remaining, pool.fee);
    }
  }

  lemma StandingStill(p: nat, liquidity: u128)
    requires 0 < p < TWO160
    ensures MoveOut(false, p, p, liquidity) == 0
  {
    Exact0Bounds(p, p, Shift96(liquidity), 1);
    MulPositive(p, p);
  }

  /** The range ahead is clamped to the first tick, whose price is the start. */
  lemma FloorRange(pool: Pool)
    requires ValidPool(pool)
    ensures var g := RangeOf(pool, MIN_TICK, true);
            g.next == MIN_TICK && g.price == MIN_SQRT_RATIO && g.target == LIFTED
  {
    hide PriceAtTick, NetFrom;
    TickBitmap.TicksAgree(pool.words);
    RangeMeans(pool, Ticks(pool), MIN_TICK, true);
    FirstTick();
    MaxPriceFits();
  }

  /** The crossing of the first tick that a request too small for the step runs into. */
  ghost function FloorPlace(pool: Pool, s: State): Result<Place>
    requires AtFloor(pool, true, s)
  {
    if !RangeOf(pool, MIN_TICK, true).found then Ok(Place(MIN_TICK - 1, s.place.liquidity))
    else
      match Crossed(s.place.liquidity, Net(pool, MIN_TICK), true)
      case Ok(liquidity) => Ok(Place(MIN_TICK - 1, liquidity))
      case Err(e) => Err(e)
  }

  /** The outcome of every swap from the minimum price. */
  ghost function FloorOutcome(pool: Pool, s: State): Outcome
    requires AtFloor(pool, true, s)
  {
    if s.remaining == 0 then Outcome(s, None, 0, 0)
    else if Lifts(pool, s) then
      var cost, paid := LiftCost(s.place.liquidity, pool.fee), LiftPaid(s);
      var left := if s.remaining > 0 then s.remaining - cost else s.remaining + paid;
      MaxPriceFits();
      Outcome(State(left, LIFTED, s.place), None, cost, paid)
    else
      match FloorPlace(pool, s)
      case Ok(place) => Outcome(State(0, s.price, place), None, s.remaining, 0)
      case Err(e) => Outcome(s, Some(e), 0, 0)
  }

  lemma FloorSwap(pool: Pool, s: State)
    requires AtFloor(pool, true, s)
    ensures Swap(pool, true, s) == FloorOutcome(pool, s)
  {
    hide PriceAtTick, SwapStep, RangeOf, LessFee, LiftCost, LiftPaid, Net;
    if s.remaining != 0 {
      MaxPriceFits();
      FloorRange(pool);
      FloorStepIs(pool, s);
      LiftedTick();
      if Iteration(pool, true, s).Ok? { FloorIteration(pool, s); }
    }
  }

  lemma LiftedTick()
    ensures MIN_SQRT_RATIO <= LIFTED < MAX_SQRT_RATIO && TickOf(LIFTED) == MIN_TICK
  {
    hide PriceAtTick;
    FirstTick();
    TickUnique(LIFTED, MIN_TICK, TickOf(LIFTED));
  }

  // -------------------------------------------------------------------- the price

  /** A swap that goes the other way: it starts at the minimum price, where there is liquidity, with a
      request that is enough for a step up. */
  predicate TurnsAround(pool: Pool, zeroForOne: bool, s: State)
  {
    AtFloor(pool, zeroForOne, s) && s.place.liquidity > 0 && Lifts(pool, s)
  }

  /** Something is paid exactly when there is liquidity. */
  lemma LiftOutPositive(liquidity: u128)
    ensures LiftOut(liquidity) == 0 <==> liquidity == 0
  {
    hide Exact0;
    Exact0Bounds(MIN_SQRT_RATIO, LIFTED, Shift96(liquidity), 1);
  }

  lemma LiftInBounds(liquidity: u128)
    ensures LiftIn(liquidity) == 0 <==> liquidity == 0
    ensures LiftIn(liquidity) <= 0x1_0000_0000 && LiftIn(liquidity) <= liquidity
  {
    hide Exact1;
    Exact1Bounds(MIN_SQRT_RATIO, LIFTED, liquidity, 0);
    Exact1Bounds(MIN_SQRT_RATIO, LIFTED, liquidity, 0x1_0000_0000);
    Exact1Bounds(MIN_SQRT_RATIO, LIFTED, liquidity, liquidity);
  }

  lemma CostBound(amountIn: nat, fee: nat)
    requires fee < MILLION
    ensures WithFee(amountIn, fee) <= amountIn * MILLION
  {
    var x := amountIn * fee;
    MulLe(0, amountIn, fee);
    MulLe(1, MILLION - fee, x);
    CeilLe(x, MILLION - fee, x);
    MulLe(fee, MILLION - 1, amountIn);
  }

  lemma LiftCostBound(liquidity: u128, fee: nat)
    requires fee < MILLION
    ensures LiftCost(liquidity, fee) <= LiftIn(liquidity) * MILLION <= 0x1_0000_0000 * MILLION
  {
    hide MoveIn, CeilDiv;
    CostBound(LiftIn(liquidity), fee);
    LiftInBounds(liquidity);
  }

  /** At the minimum price a payment of any size is worth more than 2^128 times the cost. */
  lemma FloorUnfair(liquidity: u128, fee: nat, out: nat)
    requires fee < MILLION && out > 0
    ensures !Fair(true, MIN_SQRT_RATIO, LiftCost(liquidity, fee), out)
  {
    hide LiftCost;
    LiftCostBound(liquidity, fee);
  }

  /** What every swap keeps, wherever it starts: each unit of the request is accounted for, only a
      crossing fails, and otherwise it ends filled or at the limit. It goes from its start towards the
      limit exactly when it starts on the right side of it, and is no better than its start price
      exactly when it does not turn around. */
  ghost predicate SwapLaw(pool: Pool, zeroForOne: bool, s: State, o: Outcome)
    requires pool.spacing > 0
  {
    && (if s.remaining >= 0 then o.spent == s.remaining - o.end.remaining else o.out == o.end.remaining - s.remaining)
    && (if s.remaining >= 0 then 0 <= o.end.remaining else o.end.remaining <= 0)
    && (o.error.Some? ==> CrossingError(o.error.value))
    && (o.error.None? && o.end.remaining != 0 ==>
          o.end.price == if zeroForOne then 4295128740 else 1461446703485210103287273052203988822378723970341)
    && (Travelled(pool, zeroForOne, s, o.end) <==> Inside(s.price, zeroForOne))
    && (Fair(zeroForOne, s.price, o.spent, o.out) <==> !TurnsAround(pool, zeroForOne, s))
  }

  lemma SwapMeans(pool: Pool, zeroForOne: bool, s: State)
    requires Startable(pool, zeroForOne, s)
    ensures SwapLaw(pool, zeroForOne, s, Swap(pool, zeroForOne, s))
  {
    hide PriceAtTick, NetFrom, Swap, Fair;
    if ValidState(pool, zeroForOne, s) {
      SwapInside(pool, zeroForOne, s);
    } else {
      FloorSwap(pool, s);
      FloorLaw(pool, s);
    }
  }

  lemma FloorLaw(pool: Pool, s: State)
    requires AtFloor(pool, true, s)
    ensures SwapLaw(pool, true, s, FloorOutcome(pool, s))
  {
    hide Consistent, NetFrom, Fair, LiftOut, LiftIn, LessFee, RangeOf, LiftCost;
    MaxPriceFits();
    if s.remaining == 0 {
      NothingPaid(true, s.price, 0);
    } else if Lifts(pool, s) {
      LiftWithinBudget(pool, s);
      LiftIsFairIff(pool, s);
    } else {
      NothingPaid(true, s.price, 0);
      NothingPaid(true, s.price, s.remaining);
    }
  }

  lemma LiftWithinBudget(pool: Pool, s: State)
    requires AtFloor(pool, true, s) && Lifts(pool, s)
    ensures s.remaining > 0 ==> LiftCost(s.place.liquidity, pool.fee) <= s.remaining
  {
    hide LiftIn, LessFee, CeilDiv;
    if s.remaining > 0 { FeeWithinBudget(LiftIn(s.place.liquidity), s.remaining, pool.fee); }
  }

  lemma LiftIsFairIff(pool: Pool, s: State)
    requires AtFloor(pool, true, s) && s.remaining != 0
    ensures Fair(true, s.price, LiftCost(s.place.liquidity, pool.fee), LiftPaid(s)) <==> s.place.liquidity == 0
  {
    hide LiftOut, LiftCost, Fair;
    LiftOutPositive(s.place.liquidity);
    if s.place.liquidity == 0 {
      NothingPaid(true, s.price, LiftCost(s.place.liquidity, pool.fee));
    } else {
      FloorUnfair(s.place.liquidity, pool.fee, LiftPaid(s));
    }
  }

  // ------------------------------------------------------------------- the way back

  /** Upwards from the first tick the target is at least two prices away. */
  lemma UpRange(pool: Pool)
    requires ValidPool(pool)
    ensures var g := RangeOf(pool, MIN_TICK, false);
            && RangeFrom(pool, Ticks(pool), MIN_TICK, false, g)
            && LIFTED + 1 < g.target <= g.price && Inside(g.target, false) && g.target < TWO160
            && Consistent(LIFTED, MIN_TICK) && Inside(LIFTED, false)
  {
    hide PriceAtTick, NetFrom, RangeOf;
    var g := RangeOf(pool, MIN_TICK, false);
    TickBitmap.TicksAgree(pool.words);
    RangeMeans(pool, Ticks(pool), MIN_TICK, false);
    FirstTick();
    MaxPriceFits();
    TargetAhead(pool, Ticks(pool), LIFTED, MIN_TICK, false, g);
    PriceMono(MIN_TICK + 1, g.next);
  }

  /** What the first step of the way back would have to take to reach its target. */
  ghost function UpIn(pool: Pool, liquidity: u128): nat
    requires ValidPool(pool)
  {
    UpRange(pool);
    MoveIn(false, LIFTED, RangeOf(pool, MIN_TICK, false).target, liquidity)
  }

  /** Whether the tick at the target can be crossed. */
  ghost predicate CrossesUp(pool: Pool, liquidity: u128)
    requires ValidPool(pool)
  {
    var g := RangeOf(pool, MIN_TICK, false);
    g.target == g.price && g.found ==> Crossed(liquidity, Net(pool, g.next), false).Ok?
  }

  /** An amount that gains on the way back: enough for a move by one price, and short of the target
      or able to cross it. */
  ghost predicate GainsBack(pool: Pool, liquidity: u128, amount: nat)
    requires ValidPool(pool)
  {
    var lessFee := LessFee(amount, pool.fee);
    LiftIn(liquidity) <= lessFee && (lessFee < UpIn(pool, liquidity) || CrossesUp(pool, liquidity))
  }

  /** A move by one price pays more there than the step up cost. */
  lemma OnePricePays(liquidity: u128, fee: nat)
    requires fee < MILLION && liquidity > 0
    ensures LiftCost(liquidity, fee) < MoveOut(false, LIFTED, LIFTED + 1, liquidity)
  {
    hide LiftCost, LiftIn, Exact0;
    LiftCostBound(liquidity, fee);
    LiftInBounds(liquidity);
    var x, n := LiftCost(liquidity, fee) + 1, Shift96(liquidity);
    Exact0Bounds(LIFTED, LIFTED + 1, n, x);
    SmallSpread(n, x, liquidity, LIFTED, (LIFTED + 1) * LIFTED);
  }

  lemma SmallSpread(n: nat, x: nat, liquidity: nat, lo: nat, k: nat)
    requires x <= liquidity * 0x10_0000 && n == liquidity * TWO96 && k <= 0x4_0000_0000_0000_0000
    ensures n * lo + x * k <= n * (lo + 1)
  {
    MulLe(x, liquidity * 0x10_0000, k);
    MulLe(k, 0x4_0000_0000_0000_0000, liquidity * 0x10_0000);
    assert n * (lo + 1) == n * lo + n;
  }

  ghost function UpStep(pool: Pool, liquidity: u128, amount: nat): Result<Step>
    requires ValidPool(pool) && amount < TWO255
  {
    UpRange(pool);
    SwapStep(LIFTED, RangeOf(pool, MIN_TICK, false).target, liquidity, amount, pool.fee)
  }

  /** The first step back stays put, moves by some prices, or reaches its target. */
  lemma UpStepIs(pool: Pool, liquidity: u128, amount: nat)
    requires ValidPool(pool) && liquidity > 0 && amount < TWO255
    ensures UpStep(pool, liquidity, amount).Ok?
    ensures var step, g := UpStep(pool, liquidity, amount).value, RangeOf(pool, MIN_TICK, false);
            var lessFee := LessFee(amount, pool.fee);
            && Reaches(false, LIFTED, step.next, g.target)
            && (lessFee < LiftIn(liquidity) ==> step.next == LIFTED && step.amountOut == 0)
            && (lessFee < UpIn(pool, liquidity) <==> step.next != g.target)
            && (step.next != g.target ==> step.amountIn + step.fee == amount)
            && (LiftIn(liquidity) <= lessFee ==> LiftCost(liquidity, pool.fee) < step.amountOut)
  {
    hide MoveIn, MoveOut, SwapStep, LessFee, Partial, LiftCost, LiftIn;
    UpRange(pool);
    var g, lessFee := RangeOf(pool, MIN_TICK, false), LessFee(amount, pool.fee);
    MaxPriceFits();
    var step := ExactInputStep(LIFTED, g.target, liquidity, amount, pool.fee);
    LiftIsLess(liquidity, g.target);
    if step.next != g.target { UpPartial(liquidity, lessFee); }
    if lessFee < LiftIn(liquidity) {
      StandingStill(LIFTED, liquidity);
    } else {
      OnePricePays(liquidity, pool.fee);
      MoveOutMono(false, LIFTED, LIFTED + 1, step.next, liquidity);
    }
  }

  /** A longer move costs no less. */
  lemma LiftIsLess(liquidity: u128, target: nat)
    requires LIFTED < target < TWO160
    ensures LiftIn(liquidity) <= MoveIn(false, LIFTED, target, liquidity)
  {
    hide Exact1;
    var x := MoveIn(false, LIFTED, target, liquidity);
    Exact1Bounds(LIFTED, target, liquidity, x);
    Exact1Bounds(MIN_SQRT_RATIO, LIFTED, liquidity, x);
    MulLe(1, target - LIFTED, liquidity);
  }

  /** An input moves the price exactly when it covers a move by one. */
  lemma UpPartial(liquidity: u128, lessFee: nat)
    requires liquidity > 0
    ensures var next := Partial(false, LIFTED, liquidity, lessFee);
            if lessFee < LiftIn(liquidity) then next == LIFTED else LIFTED < next
  {
    hide Exact1;
    Exact1Bounds(MIN_SQRT_RATIO, LIFTED, liquidity, lessFee);
    MulLe(0, lessFee, TWO96);
    DivLe(lessFee * TWO96, liquidity, 0);
    CeilBounds(lessFee * TWO96, liquidity);
  }

  /** Where a swap that turned around ends, and the way back starts. */
  function Lifted(place: Place, amount: nat): State
    requires place.tick == MIN_TICK
  {
    MaxPriceFits();
    State(amount, LIFTED, place)
  }

  /** The way back pays more than the step up cost exactly when the amount gains. */
  lemma BackGainsIff(pool: Pool, place: Place, amount: nat)
    requires ValidPool(pool) && place.tick == MIN_TICK && place.liquidity > 0 && amount < TWO255
    ensures ValidState(pool, false, Lifted(place, amount))
    ensures Swap(pool, false, Lifted(place, amount)).out > LiftCost(place.liquidity, pool.fee) <==>
            GainsBack(pool, place.liquidity, amount)
  {
    hide PriceAtTick, NetFrom, Iteration, LessFee, LiftCost, LiftIn, RangeOf, UpIn, CrossesUp;
    UpRange(pool);
    var b := Lifted(place, amount);
    if amount == 0 {
      NoGain(pool, place.liquidity);
    } else {
      LimitIsFar();
      BackIteration(pool, place, amount);
      var i := Iteration(pool, false, b);
      if i.Ok? { NextStep(pool, false, b); }
    }
  }

  lemma LimitIsFar()
    ensures LIFTED != Limit(false)
  {
  }

  lemma NoGain(pool: Pool, liquidity: u128)
    requires ValidPool(pool) && liquidity > 0
    ensures !GainsBack(pool, liquidity, 0)
  {
    hide LiftIn, UpIn, CrossesUp;
    LessFeeLe(0, pool.fee);
    LiftInBounds(liquidity);
  }

  lemma BackIteration(pool: Pool, place: Place, amount: nat)
    requires ValidPool(pool) && place.tick == MIN_TICK && place.liquidity > 0 && 0 < amount < TWO255
    ensures var i := Iteration(pool, false, Lifted(place, amount));
            && (i.Err? ==> !GainsBack(pool, place.liquidity, amount))
            && (i.Ok? && GainsBack(pool, place.liquidity, amount) ==>
                  LiftCost(place.liquidity, pool.fee) < i.value.0.amountOut)
            && (i.Ok? && !GainsBack(pool, place.liquidity, amount) ==>
                  i.value.0.amountOut == 0 && i.value.1.remaining == 0)
  {
    hide PriceAtTick, NetFrom, Quiet, SwapStep, LessFee, LiftCost, LiftIn, RangeOf, UpIn, Arrived, Crossed, Net;
    UpRange(pool);
    var g, b := RangeOf(pool, MIN_TICK, false), Lifted(place, amount);
    UpStepIs(pool, place.liquidity, amount);
    var step := UpStep(pool, place.liquidity, amount).value;
    ArrivedMeans(pool, Ticks(pool), b.price, place, false, g, step.next);
  }

  // -------------------------------------------------------------------- an example

  /** A pool without fee and initialized ticks, at the minimum price with liquidity 2^96. */
  const EXAMPLE_POOL: Pool := Pool(60, 0, map[], map[])

  function ExampleStart(): State
  {
    MaxPriceFits();
    State(1, MIN_SQRT_RATIO, Place(MIN_TICK, TWO96))
  }

  lemma ExampleAmounts(liquidity: u128)
    requires liquidity == TWO96
    ensures LiftIn(liquidity) == 1 && LiftCost(liquidity, 0) == 1 && LessFee(1, 0) == 1
    ensures LiftOut(liquidity) > 0x1_0000_0000_0000_0000 && UpIn(EXAMPLE_POOL, liquidity) > 1
  {
    hide RangeOf, Exact0, Exact1, CeilDiv;
    Exact1Bounds(MIN_SQRT_RATIO, LIFTED, liquidity, 0);
    Exact1Bounds(MIN_SQRT_RATIO, LIFTED, liquidity, 1);
    CeilLe(0, MILLION, 0);
    DivIs(1 * MILLION, MILLION, 1);
    Exact0Bounds(MIN_SQRT_RATIO, LIFTED, Shift96(liquidity), 0x1_0000_0000_0000_0001);
    UpRange(EXAMPLE_POOL);
    Exact1Bounds(LIFTED, RangeOf(EXAMPLE_POOL, MIN_TICK, false).target, liquidity, 1);
  }

  /** One unit buys more than 2^64, far above the price, and one unit of that buys back more than one. */
  lemma FloorLoss()
    ensures var s := ExampleStart(); AtFloor(EXAMPLE_POOL, true, s) && TurnsAround(EXAMPLE_POOL, true, s)
    ensures var s := ExampleStart(); var o := Swap(EXAMPLE_POOL, true, s); var b := Lifted(s.place, 1);
            && o == Outcome(b.(remaining := 0), None, 1, o.out) && o.out > 0x1_0000_0000_0000_0000
            && !Fair(true, s.price, o.spent, o.out)
            && ValidState(EXAMPLE_POOL, false, b) && Swap(EXAMPLE_POOL, false, b).out > o.spent
  {
    hide PriceAtTick, Swap, LiftIn, LiftOut, LiftCost, LessFee, UpIn, Fair;
    var s := ExampleStart();
    MaxPriceFits();
    BelowTwo255();
    ExampleAmounts(s.place.liquidity);
    FloorSwap(EXAMPLE_POOL, s);
    SwapMeans(EXAMPLE_POOL, true, s);
    BackGainsIff(EXAMPLE_POOL, s.place, 1);
  }

  lemma BelowTwo255()
    ensures 1 < TWO255
  {
    SmallPowers();
    Pow2Strict(1, 255);
  }
}
