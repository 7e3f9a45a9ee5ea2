/** Laws of two whole swaps from one place: more input never pays less, more output never costs less. */
module PoolLaws {
  import opened Arithmetic
  import opened Words
  import opened RealPowers
  import opened SqrtPriceMath
  import opened SwapMath
  import opened SwapLaws
  import opened TickMath
  import opened PoolSwap
  import opened PoolFloor
  import TickBitmap

  // ------------------------------------------------------------- monotonicity

  /** With more input a step is the same, or the smaller one was the last of its swap. */
  lemma StepMono(pool: Pool, zeroForOne: bool, s: State, t: State, target: u256)
    requires ValidPool(pool) && Inside(s.price, zeroForOne) && Inside(target, zeroForOne)
    requires Reaches(zeroForOne, s.price, target, target)
    requires s.price == t.price && s.place == t.place && 0 <= s.remaining <= t.remaining < TWO255
    ensures SwapStep(s.price, target, s.place.liquidity, s.remaining, pool.fee).Ok?
    ensures SwapStep(t.price, target, t.place.liquidity, t.remaining, pool.fee).Ok?
    ensures var a := SwapStep(s.price, target, s.place.liquidity, s.remaining, pool.fee).value;
            var b := SwapStep(t.price, target, t.place.liquidity, t.remaining, pool.fee).value;
            || a == b
            || (a.next != target && Left(s.remaining, a) == 0 && a.amountOut <= b.amountOut
                && Reaches(zeroForOne, a.next, b.next, target))
  {
    hide MoveIn, MoveOut, SwapStep;
    MaxPriceFits();
    var a := ExactInputStep(s.price, target, s.place.liquidity, s.remaining, pool.fee);
    var b := ExactInputStep(t.price, target, t.place.liquidity, t.remaining, pool.fee);
    ExactInputMono(s.price, target, s.place.liquidity, s.remaining, t.remaining, pool.fee);
  }

  /** The smaller swap fails and stops no later than the larger one, and pays no more. */
  ghost predicate NoBetter(zeroForOne: bool, small: Outcome, large: Outcome)
  {
    large.error.None? ==>
      && small.error.None? && small.out <= large.out
      && Reaches(zeroForOne, small.end.price, large.end.price, Limit(zeroForOne))
      && (large.end.remaining == 0 ==> small.end.remaining == 0)
  }

  lemma {:induction false} SwapMono(pool: Pool, zeroForOne: bool, s: State, t: State)
    requires ValidState(pool, zeroForOne, s) && ValidState(pool, zeroForOne, t)
    requires s.price == t.price && s.place == t.place && 0 <= s.remaining <= t.remaining
    ensures NoBetter(zeroForOne, Swap(pool, zeroForOne, s), Swap(pool, zeroForOne, t))
    decreases Ahead(zeroForOne, t)
  {
    hide Consistent, Fair, NetFrom, Iteration;
    SwapInside(pool, zeroForOne, t);
    if Finished(zeroForOne, s) {
    } else {
      IterationMono(pool, zeroForOne, s, t);
      if Iteration(pool, zeroForOne, t).Ok? {
        NextStep(pool, zeroForOne, s);
        NextStep(pool, zeroForOne, t);
        Progress(pool, zeroForOne, s);
        Progress(pool, zeroForOne, t);
        var (a, s') := Iteration(pool, zeroForOne, s).value;
        var (b, t') := Iteration(pool, zeroForOne, t).value;
        SwapInside(pool, zeroForOne, t');
        if s'.remaining != 0 { SwapMono(pool, zeroForOne, s', t'); }
      }
    }
  }

  lemma IterationMono(pool: Pool, zeroForOne: bool, s: State, t: State)
    requires ValidState(pool, zeroForOne, s) && ValidState(pool, zeroForOne, t) && !Finished(zeroForOne, s)
    requires s.price == t.price && s.place == t.place && 0 <= s.remaining <= t.remaining
    ensures var i := Iteration(pool, zeroForOne, s); var j := Iteration(pool, zeroForOne, t);
            j.Ok? ==>
              && i.Ok?
              && (|| (i.value.0 == j.value.0 && i.value.1 == j.value.1.(remaining := i.value.1.remaining)
                      && 0 <= i.value.1.remaining <= j.value.1.remaining)
                  || (i.value.1.remaining == 0 && i.value.0.amountOut <= j.value.0.amountOut
                      && Reaches(zeroForOne, i.value.1.price, j.value.1.price, Limit(zeroForOne))))
  {
    hide PriceAtTick, SwapStep, RangeOf, Arrived, Quiet, Fair, NetFrom;
    var ticks, g := Ticks(pool), RangeOf(pool, s.place.tick, zeroForOne);
    TickBitmap.TicksAgree(pool.words);
    RangeMeans(pool, ticks, s.place.tick, zeroForOne);
    TargetAhead(pool, ticks, s.price, s.place.tick, zeroForOne, g);
    StepMono(pool, zeroForOne, s, t, g.target);
    var a := StepTowards(pool, zeroForOne, s, g.target);
    var b := StepTowards(pool, zeroForOne, t, g.target);
    ArrivedMeans(pool, ticks, s.price, s.place, zeroForOne, g, a.next);
    ArrivedMeans(pool, ticks, s.price, s.place, zeroForOne, g, b.next);
  }

  /** The request that a downward swap from the minimum price cannot fill, although it fills a larger
      one: too small for the step up, so that it runs into a crossing that fails. */
  ghost predicate StuckBelow(pool: Pool, zeroForOne: bool, price: u256, place: Place, small: nat, large: nat)
  {
    && small > 0 && AtFloor(pool, zeroForOne, State(small, price, place)) && !Lifts(pool, State(small, price, place))
    && FloorPlace(pool, State(small, price, place)).Err?
    && large == LiftCost(place.liquidity, pool.fee) && LiftIn(place.liquidity) <= LessFee(large, pool.fee)
  }

  /** If the larger input is swapped in full so is the smaller, for no more output, unless that is stuck. */
  lemma QuoteMono(pool: Pool, zeroForOne: bool, price: u256, place: Place, small: nat, large: nat)
    requires small <= large && Startable(pool, zeroForOne, State(small, price, place))
    requires Startable(pool, zeroForOne, State(large, price, place))
    ensures var s := Swap(pool, zeroForOne, State(small, price, place));
            var t := Swap(pool, zeroForOne, State(large, price, place));
            && s.out < TWO256 && t.out < TWO256
            && ((Quoted(t, t.out).Ok? ==> Quoted(s, s.out).Ok? && Quoted(s, s.out).value <= Quoted(t, t.out).value) <==>
                !StuckBelow(pool, zeroForOne, price, place, small, large))
  {
    hide Consistent, Swap;
    SwapFits(pool, zeroForOne, State(small, price, place));
    SwapFits(pool, zeroForOne, State(large, price, place));
    assert TWO256 == 2 * TWO255;
    if ValidState(pool, zeroForOne, State(small, price, place)) {
      SwapMono(pool, zeroForOne, State(small, price, place), State(large, price, place));
    } else {
      FloorMono(pool, State(small, price, place), State(large, price, place));
    }
  }

  lemma FloorMono(pool: Pool, s: State, t: State)
    requires AtFloor(pool, true, s) && AtFloor(pool, true, t)
    requires s.price == t.price && s.place == t.place && 0 <= s.remaining <= t.remaining
    ensures var a, b := Swap(pool, true, s), Swap(pool, true, t);
            (b.error.None? && b.end.remaining == 0 ==> a.error.None? && a.end.remaining == 0 && a.out <= b.out) <==>
            !StuckBelow(pool, true, s.price, s.place, s.remaining, t.remaining)
  {
    hide Swap, LiftIn, LiftOut, LiftCost, LessFee, RangeOf, Crossed;
    FloorSwap(pool, s);
    FloorSwap(pool, t);
    LessFeeMono(s.remaining, t.remaining, pool.fee);
    if s.remaining > 0 && Lifts(pool, s) { LiftWithinBudget(pool, s); }
    if t.remaining > 0 && Lifts(pool, t) { LiftWithinBudget(pool, t); }
  }

  /** The first tick is initialized, with more net liquidity than there is to take away. */
  function StuckPool(): Pool { Pool(1, 0, TickBitmap.Flipped(map[], MIN_TICK), map[MIN_TICK := 2 * TWO96 + 1]) }

  function StuckPlace(): Place
  {
    MaxPriceFits();
    Place(MIN_TICK, 2 * TWO96)
  }

  /** Two units make the step up; one is too little, and fails at the first tick. */
  lemma OneIsStuck(price: u256)
    requires price == MIN_SQRT_RATIO
    ensures StuckBelow(StuckPool(), true, price, StuckPlace(), 1, 2)
  {
    hide PriceAtTick, Exact1, CeilDiv;
    var l := StuckPlace().liquidity;
    BelowTwo255();
    FirstTickFound();
    Exact1Bounds(MIN_SQRT_RATIO, LIFTED, l, 1);
    Exact1Bounds(MIN_SQRT_RATIO, LIFTED, l, 2);
    CeilLe(0, MILLION, 0);
    DivIs(1 * MILLION, MILLION, 1);
    DivIs(2 * MILLION, MILLION, 2);
  }

  lemma FirstTickFound()
    ensures RangeOf(StuckPool(), MIN_TICK, true).found
  {
    hide PriceAtTick, TickBitmap.Flipped, TickBitmap.Agrees, TickBitmap.NextWithinWord, TickBitmap.AgreesAround;
    var words := TickBitmap.Flipped(map[], MIN_TICK);
    TickBitmap.EmptyAgrees();
    TickBitmap.FlipToggles(map[], {}, MIN_TICK);
    assert TickBitmap.Toggled({}, MIN_TICK) == {MIN_TICK};
    DivIs(MIN_TICK, 1, MIN_TICK);
    TickBitmap.AgreesInIndex(words, {MIN_TICK}, MIN_TICK);
    TickBitmap.NextIsPlain(words, {MIN_TICK}, MIN_TICK, 1, true);
  }

  // -------------------------------------------------------------- larger outputs

  /** The smaller request fails and stops no later than the larger one, and costs no more. */
  ghost predicate NoDearer(zeroForOne: bool, small: Outcome, large: Outcome)
  {
    large.error.None? ==>
      && small.error.None? && small.spent <= large.spent
      && Reaches(zeroForOne, small.end.price, large.end.price, Limit(zeroForOne))
      && (large.end.remaining == 0 ==> small.end.remaining == 0)
  }

  lemma {:induction false} SwapOutMono(pool: Pool, zeroForOne: bool, s: State, t: State)
    requires ValidState(pool, zeroForOne, s) && ValidState(pool, zeroForOne, t)
    requires s.price == t.price && s.place == t.place && t.remaining <= s.remaining <= 0
    ensures NoDearer(zeroForOne, Swap(pool, zeroForOne, s), Swap(pool, zeroForOne, t))
    decreases Ahead(zeroForOne, t)
  {
    hide Consistent, Fair, NetFrom, Iteration;
    SwapInside(pool, zeroForOne, t);
    if Finished(zeroForOne, s) {
    } else {
      OutputIterations(pool, zeroForOne, s, t);
      if Iteration(pool, zeroForOne, t).Ok? {
        NextStep(pool, zeroForOne, s);
        NextStep(pool, zeroForOne, t);
        Progress(pool, zeroForOne, s);
        Progress(pool, zeroForOne, t);
        var (a, s') := Iteration(pool, zeroForOne, s).value;
        var (b, t') := Iteration(pool, zeroForOne, t).value;
        SwapInside(pool, zeroForOne, t');
        if s'.remaining != 0 { SwapOutMono(pool, zeroForOne, s', t'); }
      }
    }
  }

  lemma OutputIterations(pool: Pool, zeroForOne: bool, s: State, t: State)
    requires ValidState(pool, zeroForOne, s) && ValidState(pool, zeroForOne, t) && !Finished(zeroForOne, s)
    requires s.price == t.price && s.place == t.place && t.remaining <= s.remaining < 0
    ensures var i := Iteration(pool, zeroForOne, s); var j := Iteration(pool, zeroForOne, t);
            j.Ok? ==>
              && i.Ok?
              && (|| (i.value.0 == j.value.0 && i.value.1 == j.value.1.(remaining := i.value.1.remaining)
                      && j.value.1.remaining <= i.value.1.remaining <= 0)
                  || (i.value.1.remaining == 0 && Taken(i.value.0) <= Taken(j.value.0)
                      && Reaches(zeroForOne, i.value.1.price, j.value.1.price, Limit(zeroForOne))))
  {
    hide PriceAtTick, SwapStep, RangeOf, Arrived, RangeFrom, Fair;
    var g := OutputSteps(pool, zeroForOne, s, t);
    var a := SwapStep(s.price, g.target, s.place.liquidity, s.remaining, pool.fee).value;
    var b := SwapStep(t.price, g.target, t.place.liquidity, t.remaining, pool.fee).value;
    ArrivesToo(pool, Ticks(pool), s.price, s.place, zeroForOne, g, a.next, b.next);
  }

  /** The two steps towards the common target. */
  lemma OutputSteps(pool: Pool, zeroForOne: bool, s: State, t: State) returns (g: Range)
    requires ValidState(pool, zeroForOne, s) && ValidState(pool, zeroForOne, t) && !Finished(zeroForOne, s)
    requires s.price == t.price && s.place == t.place && t.remaining <= s.remaining < 0
    ensures g == RangeOf(pool, s.place.tick, zeroForOne) && RangeFrom(pool, Ticks(pool), s.place.tick, zeroForOne, g)
    ensures SwapStep(s.price, g.target, s.place.liquidity, s.remaining, pool.fee).Ok?
    ensures SwapStep(t.price, g.target, t.place.liquidity, t.remaining, pool.fee).Ok?
    ensures var a := SwapStep(s.price, g.target, s.place.liquidity, s.remaining, pool.fee).value;
            var b := SwapStep(t.price, g.target, t.place.liquidity, t.remaining, pool.fee).value;
            && Reaches(zeroForOne, s.price, b.next, g.target) && Reaches(zeroForOne, a.next, b.next, g.target)
            && Reaches(zeroForOne, s.price, a.next, g.target) && Taken(a) <= Taken(b)
            && (a == b || a.amountOut == 0 - s.remaining) && b.amountOut <= 0 - t.remaining && a.amountOut <= 0 - s.remaining
            && Reaches(zeroForOne, a.next, b.next, Limit(zeroForOne))
  {
    hide PriceAtTick, SwapStep, RangeOf, Quiet, Fair, NetFrom;
    g := RangeOf(pool, s.place.tick, zeroForOne);
    TickBitmap.TicksAgree(pool.words);
    RangeMeans(pool, Ticks(pool), s.place.tick, zeroForOne);
    TargetAhead(pool, Ticks(pool), s.price, s.place.tick, zeroForOne, g);
    MaxPriceFits();
    ExactOutputMono(s.price, g.target, s.place.liquidity, s.remaining, t.remaining, pool.fee);
    var a := StepTowards(pool, zeroForOne, s, g.target);
    var b := StepTowards(pool, zeroForOne, t, g.target);
  }

  /** A step that goes no further than another meets no crossing that the other does not. */
  lemma ArrivesToo(pool: Pool, ticks: set<int>, start: nat, at: Place, zeroForOne: bool, g: Range, near: nat, far: nat)
    requires pool.spacing > 0 && RangeFrom(pool, ticks, at.tick, zeroForOne, g)
    requires Consistent(start, at.tick) && Inside(start, zeroForOne)
    requires Reaches(zeroForOne, start, near, g.target) && Reaches(zeroForOne, near, far, g.target)
    ensures Arrived(pool, start, at, zeroForOne, g, far).Ok? ==> Arrived(pool, start, at, zeroForOne, g, near).Ok?
  {
    hide PriceAtTick, Arrived, NetFrom, Quiet;
    TargetAhead(pool, ticks, start, at.tick, zeroForOne, g);
    ArrivedMeans(pool, ticks, start, at, zeroForOne, g, near);
  }

  /** What a step takes in, with the fee. */
  function Taken(step: Step): nat { step.amountIn + step.fee }

  /** If the larger output can be had so can the smaller, for no more input; from every start. */
  lemma QuoteOutMono(pool: Pool, zeroForOne: bool, price: u256, place: Place, small: nat, large: nat)
    requires small <= large && Startable(pool, zeroForOne, State(0 - small, price, place))
    requires Startable(pool, zeroForOne, State(0 - large, price, place))
    ensures var s := Swap(pool, zeroForOne, State(0 - small, price, place));
            var t := Swap(pool, zeroForOne, State(0 - large, price, place));
            && s.spent < TWO256 && t.spent < TWO256
            && (Quoted(t, t.spent).Ok? ==>
                  Quoted(s, s.spent).Ok? && Quoted(s, s.spent).value <= Quoted(t, t.spent).value)
  {
    hide Consistent, Swap, LiftOut, LiftCost;
    var s, t := State(0 - small, price, place), State(0 - large, price, place);
    SwapFits(pool, zeroForOne, s);
    SwapFits(pool, zeroForOne, t);
    assert TWO256 == 2 * TWO255;
    if ValidState(pool, zeroForOne, s) {
      SwapOutMono(pool, zeroForOne, s, t);
    } else {
      FloorSwap(pool, s);
      FloorSwap(pool, t);
    }
  }

  // -------------------------------------------------- swapping in what an output costs

  /** A range of at most 256 ticks of a known spacing spans prices within a factor of 64. */
  lemma PricesNear(s: int, t: int)
    requires MIN_TICK <= s <= t <= MAX_TICK && t <= s + 55000
    ensures PriceAtTick(t) <= 64 * PriceAtTick(s)
  {
    hide PriceAtTick, Close, ZPow, RPow;
    var n: nat := t - s;
    PriceIsPriced(s);
    PriceIsPriced(t);
    ZPowAdd(BASE, s, n);
    ZPowPositive(BASE, s);
    PowerSmall(n);
    var x, y := PriceAtTick(s) as real / Q96, PriceAtTick(t) as real / Q96;
    RMulLe(ZPow(BASE, n), 2048.0, ZPow(BASE, s));
    CloseRatio(x, y, ZPow(BASE, s), ZPow(BASE, t));
  }

  lemma PowerSmall(n: nat)
    requires n <= 55000
    ensures ZPow(BASE, n) <= 2048.0
  {
    hide RPow;
    var m, k := 5000, 11;
    PowerAbove(0.0001, m);
    ZPowMono(BASE, n, m * k);
    ZPowMul(BASE, m, k);
    ZPowPositive(BASE, m);
    RPowMono(ZPow(BASE, m), 2.0, k);
    TwoToEleven();
  }

  lemma TwoToEleven()
    ensures RPow(2.0, 11) == 2048.0
  {
    assert RPow(2.0, 4) == 16.0;
    assert RPow(2.0, 8) == 256.0;
  }

  lemma CloseRatio(x: real, y: real, h: real, k: real)
    requires Close(x, h, 0.000000002) && Close(y, k, 0.000000002) && x >= 0.0 && h > 0.0 && k <= 2048.0 * h
    ensures y <= 64.0 * x
  {
    if y > 64.0 * x {
      RMulLeMul(64.0 * x, y, 64.0 * x, y);
      assert (64.0 * x) * (64.0 * x) == 4096.0 * (x * x);
      NotThatFar(x * x, y * y, h, k);
    }
  }

  lemma NotThatFar(xx: real, yy: real, h: real, k: real)
    requires 0.999999998 * h <= xx && yy <= 1.000000002 * k && h > 0.0 && k <= 2048.0 * h
    ensures yy < 4096.0 * xx
  {
  }

  /** So no target is further away than that. */
  lemma TargetNear(pool: Pool, price: nat, tick: int, zeroForOne: bool)
    requires ValidPool(pool) && pool.spacing <= 200 && Consistent(price, tick) && Inside(price, zeroForOne)
    ensures price <= 64 * RangeOf(pool, tick, zeroForOne).target
  {
    hide PriceAtTick, NetFrom;
    var g := RangeOf(pool, tick, zeroForOne);
    TickBitmap.TicksAgree(pool.words);
    RangeMeans(pool, Ticks(pool), tick, zeroForOne);
    TargetAhead(pool, Ticks(pool), price, tick, zeroForOne, g);
    if zeroForOne {
      SmallQuotient(tick, pool.spacing);
      TickBitmap.DownWidth(pool.words, pool.spacing, tick);
      PricesNear(g.next, tick + 1);
    }
  }

  lemma CostIterations(pool: Pool, zeroForOne: bool, s: State, t: State)
    requires ValidState(pool, zeroForOne, s) && ValidState(pool, zeroForOne, t) && !Finished(zeroForOne, s)
    requires s.price == t.price && s.place == t.place && s.remaining < 0 <= t.remaining
    requires pool.spacing <= 200
    requires Iteration(pool, zeroForOne, s).Ok? && Taken(Iteration(pool, zeroForOne, s).value.0) <= t.remaining
    requires Iteration(pool, zeroForOne, t).Ok?
    ensures var (a, s') := Iteration(pool, zeroForOne, s).value; var (b, t') := Iteration(pool, zeroForOne, t).value;
            || (a == b && s'.price == t'.price && s'.place == t'.place && t'.remaining == t.remaining - Taken(a))
            || (s'.remaining == 0 && a.amountOut <= b.amountOut)
  {
    hide PriceAtTick, SwapStep, RangeOf, Arrived, Quiet, Fair, NetFrom;
    var ticks, g := Ticks(pool), RangeOf(pool, s.place.tick, zeroForOne);
    TickBitmap.TicksAgree(pool.words);
    RangeMeans(pool, ticks, s.place.tick, zeroForOne);
    TargetAhead(pool, ticks, s.price, s.place.tick, zeroForOne, g);
    MaxPriceFits();
    TargetNear(pool, s.price, s.place.tick, zeroForOne);
    CostBuysOutput(s.price, g.target, s.place.liquidity, s.remaining, t.remaining, pool.fee);
  }

  /** An input that covers the cost of an output buys at least that output, if no crossing fails. */
  lemma {:induction false} CostSwaps(pool: Pool, zeroForOne: bool, s: State, t: State)
    requires ValidState(pool, zeroForOne, s) && ValidState(pool, zeroForOne, t)
    requires s.price == t.price && s.place == t.place && s.remaining <= 0 <= t.remaining
    requires pool.spacing <= 200
    requires Swap(pool, zeroForOne, s).spent <= t.remaining && Swap(pool, zeroForOne, t).error.None?
    ensures Swap(pool, zeroForOne, s).out <= Swap(pool, zeroForOne, t).out
    decreases Ahead(zeroForOne, s)
  {
    hide Consistent, Fair, NetFrom, Iteration;
    if Finished(zeroForOne, s) || Iteration(pool, zeroForOne, s).Err? {
    } else if t.remaining == 0 {
      NothingForNothing(pool, zeroForOne, s);
    } else {
      NextStep(pool, zeroForOne, s);
      Progress(pool, zeroForOne, s);
      NextStep(pool, zeroForOne, t);
      Progress(pool, zeroForOne, t);
      CostIterations(pool, zeroForOne, s, t);
      var (a, s') := Iteration(pool, zeroForOne, s).value;
      var (b, t') := Iteration(pool, zeroForOne, t).value;
      if s'.remaining != 0 {
        IterationMeans(pool, zeroForOne, s);
        IterationMeans(pool, zeroForOne, t);
        CostSwaps(pool, zeroForOne, s', t');
      }
    }
  }

  /** A swap that costs nothing pays nothing. */
  lemma NothingForNothing(pool: Pool, zeroForOne: bool, s: State)
    requires ValidState(pool, zeroForOne, s) && Swap(pool, zeroForOne, s).spent == 0
    ensures Swap(pool, zeroForOne, s).out == 0
  {
    hide PriceAtTick, NetFrom, Swap;
    SwapInside(pool, zeroForOne, s);
    FreeIsNothing(zeroForOne, s.price, Swap(pool, zeroForOne, s).out);
  }

  lemma FreeIsNothing(zeroForOne: bool, p: nat, out: nat)
    requires Fair(zeroForOne, p, 0, out) && p > 0
    ensures out == 0
  {
    if out > 0 {
      MulPositive(p, p);
      MulPositive(out, p * p);
    }
  }

  /** Swapping in what an output was quoted at pays at least that output, if it is quoted at all: from
      every start, for the spacings that pools have. */
  lemma QuoteBack(pool: Pool, zeroForOne: bool, price: u256, place: Place, request: nat)
    requires Startable(pool, zeroForOne, State(0 - request, price, place)) && pool.spacing <= 200
    ensures var o := Swap(pool, zeroForOne, State(0 - request, price, place));
            && o.spent < TWO255 && Startable(pool, zeroForOne, State(o.spent, price, place))
            && var back := Swap(pool, zeroForOne, State(o.spent, price, place));
               && o.spent < TWO256 && back.out < TWO256
               && (Quoted(o, o.spent).Ok? && Quoted(back, back.out).Ok? ==> request <= Quoted(back, back.out).value)
  {
    hide Consistent, Swap, Fair, LiftIn, LiftOut, LessFee, WithFee;
    var s := State(0 - request, price, place);
    var o := Swap(pool, zeroForOne, s);
    assert TWO256 == 2 * TWO255;
    SwapFits(pool, zeroForOne, s);
    var t := State(o.spent, price, place);
    SwapFits(pool, zeroForOne, t);
    if ValidState(pool, zeroForOne, s) {
      SwapInside(pool, zeroForOne, s);
      if Swap(pool, zeroForOne, t).error.None? { CostSwaps(pool, zeroForOne, s, t); }
    } else {
      FloorSwap(pool, s);
      FloorSwap(pool, t);
      FeeLeaves(LiftIn(place.liquidity), LiftCost(place.liquidity, pool.fee), pool.fee);
      LiftOutPositive(place.liquidity);
      LiftInBounds(place.liquidity);
      CostPositive(LiftIn(place.liquidity), pool.fee);
    }
  }

  lemma CostPositive(amountIn: nat, feePips: nat)
    requires feePips < MILLION
    ensures amountIn <= WithFee(amountIn, feePips)
  {
    MulLe(0, amountIn, feePips);
    CeilBounds(amountIn * feePips, MILLION - feePips);
  }
}
