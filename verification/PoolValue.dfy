/** What a whole swap takes and pays is the worth of the liquidity between its two prices, with the fee,
    to one or two units for every step. */
module PoolValue {
  import opened Arithmetic
  import opened Words
  import opened SqrtPriceMath
  import opened SwapMath
  import opened TickMath
  import opened PoolSwap
  import opened PoolReturn
  import TickBitmap

  // ------------------------------------------------------------------- one move

  /** What a change of the potentials asks of the trader, and what it is worth to them. */
  function Asked(zeroForOne: bool, d0: real, d1: real): real { if zeroForOne then -d0 else d1 }

  function Worth(zeroForOne: bool, d0: real, d1: real): real { if zeroForOne then -d1 else d0 }

  /** Rounding up and down are at most one apart. */
  lemma OneApart0(lo: nat, hi: nat, n: nat)
    requires 0 < lo <= hi
    ensures Exact0(lo, hi, n, true) <= Exact0(lo, hi, n, false) + 1
  {
    Spread0(lo, hi, n);
    CeilNextFloor(n * (hi - lo), hi * lo);
  }

  lemma OneApart1(lo: nat, hi: nat, liquidity: nat)
    requires lo <= hi
    ensures Exact1(lo, hi, liquidity, true) <= Exact1(lo, hi, liquidity, false) + 1
  {
    MulLe(0, liquidity, hi - lo);
    CeilNextFloor(liquidity * (hi - lo), TWO96);
  }

  lemma CeilNextFloor(p: nat, d: nat)
    requires d > 0
    ensures p / d >= 0 && CeilDiv(p, d) <= p / d + 1
  {
    hide CeilDiv;
    CeilBounds(p, d);
    DivBounds(p, d);
    CeilLe(p, d, p / d + 1);
    assert (p / d + 1) * d == (p / d) * d + d;
  }

  lemma MoveIsWorth(zeroForOne: bool, cur: nat, next: nat, liquidity: u128)
    requires Toward(zeroForOne, cur, next) && Price(cur) && Price(next)
    ensures var d0, d1 := Traded(false, cur, next, liquidity), Traded(true, cur, next, liquidity);
            && Asked(zeroForOne, d0, d1) <= MoveIn(zeroForOne, cur, next, liquidity) as real
               <= Asked(zeroForOne, d0, d1) + 1.0
            && Worth(zeroForOne, d0, d1) - 1.0 <= MoveOut(zeroForOne, cur, next, liquidity) as real
               <= Worth(zeroForOne, d0, d1)
  {
    hide Traded, Exact0, Exact1;
    var lo, hi := if zeroForOne then next else cur, if zeroForOne then cur else next;
    Flow0(lo, hi, liquidity);
    Flow1(lo, hi, liquidity);
    OneApart0(lo, hi, Shift96(liquidity));
    OneApart1(lo, hi, liquidity);
    Reverse(false, lo, hi, liquidity);
    Reverse(true, lo, hi, liquidity);
  }

  // ------------------------------------------------------------------- n steps

  /** What the trader keeps of an amount, in millionths. */
  function Kept(fee: nat, amount: nat): real { (1000000 - fee) as real * amount as real }

  /** What n steps take and pay. The input less the fee is at least what is asked; for an exact input the
      output is at most n short of its worth; for an exact output the input less the fee is at most 2n
      more than what is asked. */
  predicate Exactly(fee: nat, zeroForOne: bool, exactIn: bool, d0: real, d1: real, spent: nat, out: nat, n: nat)
  {
    && 1000000.0 * Asked(zeroForOne, d0, d1) <= Kept(fee, spent) && out as real <= Worth(zeroForOne, d0, d1)
    && (exactIn ==> Worth(zeroForOne, d0, d1) - n as real <= out as real)
    && (!exactIn ==> Kept(fee, spent) <= 1000000.0 * (Asked(zeroForOne, d0, d1) + 2.0 * n as real))
  }

  lemma ExactlyAdds(fee: nat, zf: bool, exactIn: bool, a0: real, a1: real, b0: real, b1: real,
                    spent: nat, out: nat, n: nat, spent2: nat, out2: nat, m: nat)
    requires Exactly(fee, zf, exactIn, a0, a1, spent, out, n) && Exactly(fee, zf, exactIn, b0, b1, spent2, out2, m)
    ensures Exactly(fee, zf, exactIn, a0 + b0, a1 + b1, spent + spent2, out + out2, n + m)
  {
    assert Kept(fee, spent + spent2) == Kept(fee, spent) + Kept(fee, spent2);
  }

  lemma FeeOnTop(amountIn: nat, fee: nat, feePips: nat)
    requires feePips < 1000000 && Covers(amountIn + fee, feePips, amountIn)
    ensures 1000000.0 * amountIn as real <= Kept(feePips, amountIn + fee)
    ensures LeastShare(amountIn, fee, feePips) ==>
              Kept(feePips, amountIn + fee) <= 1000000.0 * (amountIn as real + 1.0)
  {
    var d, total := 1000000 - feePips, amountIn + fee;
    assert Kept(feePips, total) == (d * total) as real;
    if LeastShare(amountIn, fee, feePips) {
      assert (fee - 1) * d == fee * d - d;
      assert d * total == amountIn * d + fee * d && amountIn * d == 1000000 * amountIn - amountIn * feePips;
    }
  }

  lemma StepExactly(pool: Pool, zeroForOne: bool, s: State, target: u256)
    requires ValidPool(pool) && Inside(s.price, zeroForOne) && Inside(target, zeroForOne)
    requires Reaches(zeroForOne, s.price, target, target) && -TWO255 < s.remaining < TWO255
    ensures var r := SwapStep(s.price, target, s.place.liquidity, s.remaining, pool.fee);
            && r.Ok? && Price(s.price) && Price(r.value.next)
            && Exactly(pool.fee, zeroForOne, s.remaining >= 0, Traded(false, s.price, r.value.next, s.place.liquidity),
                       Traded(true, s.price, r.value.next, s.place.liquidity), r.value.amountIn + r.value.fee,
                       r.value.amountOut, 1)
  {
    hide Traded, MoveIn, MoveOut, SwapStep, Kept, LeastShare, Covers;
    StepFlows(pool, zeroForOne, s, target);
    MaxPriceFits();
    var l, zf1 := s.place.liquidity, s.price >= target;
    FeeInMillionths(s.price, target, l, s.remaining, pool.fee);
    var step := SwapStep(s.price, target, l, s.remaining, pool.fee).value;
    FeeOnTop(step.amountIn, step.fee, pool.fee);
    if s.remaining >= 0 {
      step := ExactInputStep(s.price, target, l, s.remaining, pool.fee);
    } else {
      step := ExactOutputStep(s.price, target, l, s.remaining, pool.fee);
    }
    if zf1 == zeroForOne {
      MoveIsWorth(zf1, s.price, step.next, l);
    } else {
      NoMove(s.price, l);
      NoTrade(false, s.price, l);
      NoTrade(true, s.price, l);
    }
  }

  // ------------------------------------------------------------------ whole swaps

  /** How many steps a swap takes. */
  ghost function Steps(pool: Pool, zeroForOne: bool, s: State): nat
    requires Finished(zeroForOne, s) || ValidState(pool, zeroForOne, s)
    decreases Ahead(zeroForOne, s)
  {
    if Finished(zeroForOne, s) then 0
    else
      match Iteration(pool, zeroForOne, s)
      case Err(_) => 0
      case Ok((_, t)) =>
        Progress(pool, zeroForOne, s);
        1 + Steps(pool, zeroForOne, t)
  }

  /** The liquidity f of every tick, the two prices and the fee say what a swap took and paid. */
  ghost predicate Accounted(pool: Pool, f: int -> int, zeroForOne: bool, exactIn: bool, s: State, e: State,
                            spent: nat, out: nat, n: nat)
  {
    && Price(s.price) && Price(e.price) && Consistent(s.price, s.place.tick) && Consistent(e.price, e.place.tick)
    && Exactly(pool.fee, zeroForOne, exactIn, Gain(f, false, s.price, s.place.tick, e.price, e.place.tick),
               Gain(f, true, s.price, s.place.tick, e.price, e.place.tick), spent, out, n)
  }

  lemma IterationAccounted(pool: Pool, f: int -> int, zeroForOne: bool, s: State)
    requires ValidState(pool, zeroForOne, s) && !Finished(zeroForOne, s) && Matches(pool, f, s.place)
    requires Iteration(pool, zeroForOne, s).Ok?
    ensures var (step, t) := Iteration(pool, zeroForOne, s).value;
            && Accounted(pool, f, zeroForOne, s.remaining >= 0, s, t, step.amountIn + step.fee, step.amountOut, 1)
            && Matches(pool, f, t.place)
  {
    hide PriceAtTick, SwapStep, RangeOf, Arrived, Quiet, NetFrom, Gain, Traded, Exactly;
    var ticks, g := Ticks(pool), RangeOf(pool, s.place.tick, zeroForOne);
    TickBitmap.TicksAgree(pool.words);
    RangeMeans(pool, ticks, s.place.tick, zeroForOne);
    TargetAhead(pool, ticks, s.price, s.place.tick, zeroForOne, g);
    StepFlows(pool, zeroForOne, s, g.target);
    StepExactly(pool, zeroForOne, s, g.target);
    var (step, t) := Iteration(pool, zeroForOne, s).value;
    ArrivedMoved(pool, f, zeroForOne, s.price, s.place, g, step.next);
  }

  lemma AccountedOn(pool: Pool, f: int -> int, zeroForOne: bool, exactIn: bool, s: State, t: State, e: State,
                    spent: nat, out: nat, n: nat, rest: Outcome, m: nat)
    requires Accounted(pool, f, zeroForOne, exactIn, s, t, spent, out, n)
    requires Accounted(pool, f, zeroForOne, exactIn, t, e, rest.spent, rest.out, m)
    ensures Accounted(pool, f, zeroForOne, exactIn, s, e, spent + rest.spent, out + rest.out, n + m)
  {
    hide PriceAtTick, Potential, Exactly;
    ExactlyAdds(pool.fee, zeroForOne, exactIn,
                Gain(f, false, s.price, s.place.tick, t.price, t.place.tick),
                Gain(f, true, s.price, s.place.tick, t.price, t.place.tick),
                Gain(f, false, t.price, t.place.tick, e.price, e.place.tick),
                Gain(f, true, t.price, t.place.tick, e.price, e.place.tick), spent, out, n, rest.spent, rest.out, m);
  }

  lemma NothingAccounted(pool: Pool, f: int -> int, zeroForOne: bool, exactIn: bool, s: State)
    requires Price(s.price) && Consistent(s.price, s.place.tick)
    ensures Accounted(pool, f, zeroForOne, exactIn, s, s, 0, 0, 0)
  {
    hide PriceAtTick, Potential;
  }

  /** A whole swap from a start inside the limit is accounted for, step by step; its end lies where its
      steps lead. */
  lemma {:induction false} SwapAccounted(pool: Pool, f: int -> int, zeroForOne: bool, exactIn: bool, s: State)
    requires ValidState(pool, zeroForOne, s) && Matches(pool, f, s.place)
    requires if exactIn then s.remaining >= 0 else s.remaining <= 0
    ensures var o := Swap(pool, zeroForOne, s);
            && Accounted(pool, f, zeroForOne, exactIn, s, o.end, o.spent, o.out, Steps(pool, zeroForOne, s))
            && Steps(pool, zeroForOne, s) <= Ahead(zeroForOne, s)
    decreases Ahead(zeroForOne, s)
  {
    hide PriceAtTick, Iteration, Accounted, NetFrom, Fair;
    MaxPriceFits();
    if Finished(zeroForOne, s) || Iteration(pool, zeroForOne, s).Err? {
      NothingAccounted(pool, f, zeroForOne, exactIn, s);
    } else {
      var (step, t) := Iteration(pool, zeroForOne, s).value;
      NextStep(pool, zeroForOne, s);
      Progress(pool, zeroForOne, s);
      IterationMeans(pool, zeroForOne, s);
      IterationAccounted(pool, f, zeroForOne, s);
      SwapAccounted(pool, f, zeroForOne, exactIn, t);
      var rest := Swap(pool, zeroForOne, t);
      AccountedOn(pool, f, zeroForOne, exactIn, s, t, rest.end, step.amountIn + step.fee, step.amountOut, 1,
                  rest, Steps(pool, zeroForOne, t));
    }
  }

  /** Whatever liquidity the pool has in each tick: the output of an exact input, and the input of an exact
      output, are what that liquidity is worth between the start and the end of the swap. */
  lemma SwapIsWorth(pool: Pool, zeroForOne: bool, s: State)
    requires ValidState(pool, zeroForOne, s)
    ensures var o := Swap(pool, zeroForOne, s);
            Accounted(pool, Liquidity(pool, s.place), zeroForOne, s.remaining >= 0, s, o.end, o.spent, o.out,
                      Steps(pool, zeroForOne, s))
  {
    hide Consistent, Swap, Steps, Accounted, NetFrom;
    SwapAccounted(pool, Liquidity(pool, s.place), zeroForOne, s.remaining >= 0, s);
  }
}
