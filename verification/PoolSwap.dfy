/** `virtual_impl/uniswapv3.rs`: a swap across any number of ticks, simulated against a pool's storage. */
module PoolSwap {
  import opened Arithmetic
  import opened Words
  import opened FullMath
  import opened SwapMath
  import opened SqrtPriceMath
  import opened SwapLaws
  import opened TickMath
  import opened TickInverse
  import opened Options
  import TickBitmap

  /** What the simulation reads of a pool: spacing, fee, the tick bitmap and the liquidity nets. */
  datatype Pool = Pool(spacing: int, fee: nat, words: map<int, u256>, nets: map<int, i128>)

  const LEAST_NET: int := -0x8000_0000_0000_0000_0000_0000_0000_0000

  type i128 = x: int | LEAST_NET <= x < -LEAST_NET witness 0

  predicate ValidPool(pool: Pool) { pool.spacing > 0 && pool.fee < MILLION }

  /** `ticks_liquidity_net`, zero when it cannot be read. */
  function Net(pool: Pool, tick: int): i128 { if tick in pool.nets then pool.nets[tick] else 0 }

  // --------------------------------------------------- liquidity between ticks

  /** The net liquidity of the initialized ticks above lo, up to hi. */
  function NetBetween(pool: Pool, ticks: set<int>, lo: int, hi: int): int
    requires pool.spacing > 0
    decreases hi - lo
  {
    if hi <= lo then 0
    else
      NetBetween(pool, ticks, lo, hi - 1)
      + (if TickBitmap.Initialized(ticks, pool.spacing, hi) && hi in pool.nets then pool.nets[hi] else 0)
  }

  /** What moving from one tick to another adds to the liquidity. */
  function NetFrom(pool: Pool, ticks: set<int>, start: int, end: int): int
    requires pool.spacing > 0
  {
    if start <= end then NetBetween(pool, ticks, start, end) else -NetBetween(pool, ticks, end, start)
  }

  /** Crossing one tick upwards counts its entry in the nets exactly when it is a multiple of the spacing
      whose bit is set. */
  lemma NetOfTick(pool: Pool, t: int)
    requires pool.spacing > 0 && TickBitmap.InIndex(t / pool.spacing)
    ensures var c := t / pool.spacing; var word := if c / 256 in pool.words then pool.words[c / 256] else 0;
            NetFrom(pool, Ticks(pool), t - 1, t)
            == if t % pool.spacing == 0 && word / Pow2(c % 256) % 2 == 1 && t in pool.nets then pool.nets[t] else 0
    ensures NetFrom(pool, Ticks(pool), t, t - 1) == 0 - NetFrom(pool, Ticks(pool), t - 1, t)
  {
    hide TickBitmap.TicksOf;
    var c := t / pool.spacing;
    TickBitmap.StoredTick(pool.words, c);
    assert NetBetween(pool, Ticks(pool), t - 1, t - 1) == 0;
  }

  lemma {:induction false} NetSplits(pool: Pool, ticks: set<int>, lo: int, mid: int, hi: int)
    requires pool.spacing > 0 && lo <= mid <= hi
    ensures NetBetween(pool, ticks, lo, hi) == NetBetween(pool, ticks, lo, mid) + NetBetween(pool, ticks, mid, hi)
    decreases hi - mid
  {
    if mid == hi {
    } else {
      NetSplits(pool, ticks, lo, mid, hi - 1);
    }
  }

  /** Moves compose. */
  lemma NetChains(pool: Pool, ticks: set<int>, a: int, b: int, c: int)
    requires pool.spacing > 0
    ensures NetFrom(pool, ticks, a, c) == NetFrom(pool, ticks, a, b) + NetFrom(pool, ticks, b, c)
  {
    if a <= b <= c { NetSplits(pool, ticks, a, b, c); }
    else if a <= c <= b { NetSplits(pool, ticks, a, c, b); }
    else if b <= a <= c { NetSplits(pool, ticks, b, a, c); }
    else if b <= c <= a { NetSplits(pool, ticks, b, c, a); }
    else if c <= a <= b { NetSplits(pool, ticks, c, a, b); }
    else { NetSplits(pool, ticks, c, b, a); }
  }

  /** Between neighbouring answers of the index nothing but the answer counts. */
  lemma {:induction false} NetAlone(pool: Pool, ticks: set<int>, lo: int, hi: int, found: bool, at: int)
    requires pool.spacing > 0 && TickBitmap.OnlyAt(TickBitmap.Membership(ticks, pool.spacing), lo, hi, found, at)
    ensures NetBetween(pool, ticks, lo, hi) == if found && lo < at <= hi then Net(pool, at) else 0
    decreases hi - lo
  {
    if lo >= hi {
    } else {
      NetAlone(pool, ticks, lo, hi - 1, found, at);
      assert TickBitmap.Membership(ticks, pool.spacing)(hi) <==> found && hi == at;
    }
  }

  /** The sum that crossing a tick makes: its net liquidity is added going up, taken away going down. */
  function CrossedSum(liquidity: int, net: int, zeroForOne: bool): int
  {
    if zeroForOne then liquidity - net else liquidity + net
  }

  /** With overflow checks: the least net cannot be negated, and the sum has to fit. */
  function Crossed(liquidity: u128, net: i128, zeroForOne: bool): (r: Result<u128>)
    ensures var sum := CrossedSum(liquidity, net, zeroForOne);
            r == if net == LEAST_NET then Err(NegationOverflow)
                 else if sum < 0 then Err(LiquidityUnderflow)
                 else if sum >= TWO128 then Err(LiquidityOverflown) else Ok(sum)
  {
    Fits128();
    if net == LEAST_NET then Err(NegationOverflow)
    else
      var signed := if zeroForOne then Negated(net) else net;
      if signed < 0 then
        var magnitude := Negated(signed);
        if liquidity < magnitude then Err(LiquidityUnderflow) else Ok(liquidity - magnitude)
      else if liquidity + signed >= TWO128 then Err(LiquidityOverflown)
      else Ok(liquidity + signed)
  }

  predicate CrossingError(e: MathError) { e in {NegationOverflow, LiquidityUnderflow, LiquidityOverflown} }

  /** The wrapping negation of an i128. */
  function Negated(x: i128): i128 { if x == LEAST_NET then x else 0 - x }

  /** The same crossing without overflow checks, as the release profile builds it. */
  function CrossedUnchecked(liquidity: u128, net: i128, zeroForOne: bool): Result<u128>
  {
    Fits128();
    var signed := if zeroForOne then Negated(net) else net;
    if signed < 0 then
      var magnitude := if signed == LEAST_NET then 0 - LEAST_NET else Negated(signed);
      if liquidity < magnitude then Err(LiquidityUnderflow) else Ok(liquidity - magnitude)
    else
      var sum := liquidity + signed;
      Ok(if sum >= TWO128 then sum - TWO128 else sum)
  }

  /** Both builds agree exactly when no check fires: on every sum that fits, and on every shortage. */
  lemma UncheckedAgreesIff(liquidity: u128, net: i128, zeroForOne: bool)
    ensures CrossedUnchecked(liquidity, net, zeroForOne) == Crossed(liquidity, net, zeroForOne) <==>
            net != LEAST_NET && CrossedSum(liquidity, net, zeroForOne) < TWO128
  {
  }

  lemma Fits128()
    ensures TWO128 < TWO256
  {
    SmallPowers();
    Pow2Strict(128, 256);
  }

  // ----------------------------------------------------------- ticks and prices

  /** The tick of a price; a price on the boundary may carry the tick below it, as it does after a
      downward crossing. */
  predicate Consistent(price: nat, tick: int)
  {
    MIN_TICK <= tick < MAX_TICK && PriceAtTick(tick) <= price <= PriceAtTick(tick + 1)
  }

  /** The swap has not gone beyond its limit. */
  predicate Inside(price: nat, zeroForOne: bool)
  {
    if zeroForOne then MIN_SQRT_RATIO + 1 <= price < MAX_SQRT_RATIO else MIN_SQRT_RATIO <= price <= MAX_SQRT_RATIO - 1
  }

  function Limit(zeroForOne: bool): u256
  {
    MaxPriceFits();
    if zeroForOne then MIN_SQRT_RATIO + 1 else MAX_SQRT_RATIO - 1
  }

  /** A range of ticks: where the search stopped, clamped, and the price to swap towards. */
  datatype Range = Range(next: int, found: bool, price: u256, target: u256)

  ghost predicate RangeFrom(pool: Pool, ticks: set<int>, tick: int, zeroForOne: bool, g: Range)
    requires pool.spacing > 0
  {
    && MIN_TICK <= g.next <= MAX_TICK && g.price == PriceAtTick(g.next)
    && g.target == Target(zeroForOne, g.price)
    && (if zeroForOne then g.next <= tick else tick < g.next)
    && (MIN_TICK < g.next < MAX_TICK ==> AtEdge(pool, ticks, tick, zeroForOne, g.next, g.found))
    && Quiet(pool, ticks, tick, zeroForOne, g.next)
  }

  /** Short of the edge of the range there is no liquidity to pick up. */
  ghost predicate Quiet(pool: Pool, ticks: set<int>, tick: int, zeroForOne: bool, next: int)
    requires pool.spacing > 0
  {
    forall t :: (if zeroForOne then next <= t <= tick else tick <= t < next) ==> NetFrom(pool, ticks, tick, t) == 0
  }

  /** Crossing the edge of the range is worth the net of its tick, if that is initialized. */
  predicate AtEdge(pool: Pool, ticks: set<int>, tick: int, zeroForOne: bool, next: int, found: bool)
    requires pool.spacing > 0
  {
    (if zeroForOne then NetBetween(pool, ticks, next - 1, tick) else NetBetween(pool, ticks, tick, next))
    == if found then Net(pool, next) else 0
  }

  function Clamp(tick: int): int
  {
    if tick < MIN_TICK then MIN_TICK else if tick > MAX_TICK then MAX_TICK else tick
  }

  lemma {:induction false} NoneBetween(pool: Pool, ticks: set<int>, lo: int, hi: int, found: bool, at: int, a: int, b: int)
    requires pool.spacing > 0 && TickBitmap.OnlyAt(TickBitmap.Membership(ticks, pool.spacing), lo, hi, found, at)
    requires lo <= a && b <= hi
    ensures NetBetween(pool, ticks, a, b) == if found && a < at <= b then Net(pool, at) else 0
  {
    NetAlone(pool, ticks, a, b, found, at);
  }

  lemma SmallQuotient(tick: int, spacing: int)
    requires spacing > 0 && MIN_TICK - 1 <= tick <= MAX_TICK
    ensures TickBitmap.InIndex(tick / spacing) && TickBitmap.InIndex(tick / spacing + 1)
  {
    DivLe(tick, spacing, MAX_TICK);
    DivLe(tick, spacing, MIN_TICK - 1);
    MulLe(1, spacing, MAX_TICK);
    MulLe(1, spacing, 1 - MIN_TICK);
  }

  lemma RangeBelow(pool: Pool, ticks: set<int>, tick: int) returns (raw: int, found: bool)
    requires pool.spacing > 0 && TickBitmap.Agrees(pool.words, ticks) && MIN_TICK <= tick < MAX_TICK
    ensures TickBitmap.NextWithinWord(pool.words, tick, pool.spacing, true) == Ok((raw, found)) && raw <= tick
    ensures MIN_TICK < Clamp(raw) < MAX_TICK ==> AtEdge(pool, ticks, tick, true, Clamp(raw), found)
    ensures Quiet(pool, ticks, tick, true, Clamp(raw))
  {
    SmallQuotient(tick, pool.spacing);
    raw, found := TickBitmap.DownStep(pool.words, ticks, pool.spacing, tick);
    forall t | Clamp(raw) <= t <= tick ensures NetFrom(pool, ticks, tick, t) == 0 {
      NoneBetween(pool, ticks, raw - 1, tick, found, raw, t, tick);
    }
    NoneBetween(pool, ticks, raw - 1, tick, found, raw, raw - 1, tick);
  }

  lemma RangeAbove(pool: Pool, ticks: set<int>, tick: int) returns (raw: int, found: bool)
    requires pool.spacing > 0 && TickBitmap.Agrees(pool.words, ticks) && MIN_TICK <= tick < MAX_TICK
    ensures TickBitmap.NextWithinWord(pool.words, tick, pool.spacing, false) == Ok((raw, found)) && tick < raw
    ensures MIN_TICK < Clamp(raw) < MAX_TICK ==> AtEdge(pool, ticks, tick, false, Clamp(raw), found)
    ensures Quiet(pool, ticks, tick, false, Clamp(raw))
  {
    SmallQuotient(tick, pool.spacing);
    raw, found := TickBitmap.UpStep(pool.words, ticks, pool.spacing, tick);
    forall t | tick <= t < Clamp(raw) ensures NetFrom(pool, ticks, tick, t) == 0 {
      NoneBetween(pool, ticks, tick, raw, found, raw, tick, t);
    }
    NoneBetween(pool, ticks, tick, raw, found, raw, tick, raw);
  }

  /** The price to swap towards: the next tick's, but not beyond the limit. */
  function Target(zeroForOne: bool, price: u256): u256
  {
    if zeroForOne then if price < Limit(true) then Limit(true) else price
    else if price > Limit(false) then Limit(false) else price
  }

  /** The range ahead of a tick, as the index answers. */
  function RangeOf(pool: Pool, tick: int, zeroForOne: bool): Range
    requires pool.spacing > 0
  {
    var answer := TickBitmap.NextWithinWord(pool.words, tick, pool.spacing, zeroForOne);
    var next := Clamp(if answer.Ok? then answer.value.0 else tick);
    PriceInRange(next);
    MaxPriceFits();
    Range(next, answer.Ok? && answer.value.1, PriceAtTick(next), Target(zeroForOne, PriceAtTick(next)))
  }

  lemma RangeMeans(pool: Pool, ticks: set<int>, tick: int, zeroForOne: bool)
    requires pool.spacing > 0 && TickBitmap.Agrees(pool.words, ticks) && MIN_TICK <= tick < MAX_TICK
    ensures TickBitmap.NextWithinWord(pool.words, tick, pool.spacing, zeroForOne).Ok?
    ensures RangeFrom(pool, ticks, tick, zeroForOne, RangeOf(pool, tick, zeroForOne))
    ensures var g, plain := RangeOf(pool, tick, zeroForOne), TickBitmap.PlainNext(ticks, tick, pool.spacing, zeroForOne);
            && g.found == plain.1
            && g.next == if plain.0 < -887272 then -887272 else if plain.0 > 887272 then 887272 else plain.0
  {
    SmallQuotient(tick, pool.spacing);
    TickBitmap.AgreesInIndex(pool.words, ticks, if zeroForOne then tick / pool.spacing else tick / pool.spacing + 1);
    TickBitmap.NextIsPlain(pool.words, ticks, tick, pool.spacing, zeroForOne);
    if zeroForOne {
      var raw, found := RangeBelow(pool, ticks, tick);
    } else {
      var raw, found := RangeAbove(pool, ticks, tick);
    }
  }

  /** Find the next tick and the target price of a step. */
  method NextRange(pool: Pool, tick: int, zeroForOne: bool) returns (g: Result<Range>)
    requires pool.spacing > 0 && MIN_TICK <= tick < MAX_TICK
    ensures g == Ok(RangeOf(pool, tick, zeroForOne))
  {
    TickBitmap.TicksAgree(pool.words);
    RangeMeans(pool, TickBitmap.TicksOf(pool.words), tick, zeroForOne);
    var answer := TickBitmap.NextWithinWord(pool.words, tick, pool.spacing, zeroForOne);
    if answer.Err? { return Err(ZeroValue); }
    var next, found := Clamp(answer.value.0), answer.value.1;
    var price := GetSqrtRatioAtTick(next);
    if price.Err? { return Err(TickOutOfRange); }
    var limit := Limit(zeroForOne);
    var target := if zeroForOne then if price.value < limit then limit else price.value
                  else if price.value > limit then limit else price.value;
    return Ok(Range(next, found, price.value, target));
  }

  lemma PriceMono(a: int, b: int)
    requires MIN_TICK <= a <= b <= MAX_TICK
    ensures PriceAtTick(a) <= PriceAtTick(b)
  {
    if a < b { PriceStrict(a, b); }
  }

  /** The target lies ahead of the price, and not beyond the limit. */
  lemma TargetAhead(pool: Pool, ticks: set<int>, price: nat, tick: int, zeroForOne: bool, g: Range)
    requires pool.spacing > 0 && RangeFrom(pool, ticks, tick, zeroForOne, g)
    requires Consistent(price, tick) && Inside(price, zeroForOne)
    ensures if zeroForOne then g.price <= g.target <= price else price <= g.target <= g.price
    ensures Inside(g.target, zeroForOne) && (g.target != g.price ==> g.target == Limit(zeroForOne))
  {
    if zeroForOne { PriceMono(g.next, tick); } else { PriceMono(tick + 1, g.next); }
  }

  /** A step may move the price anywhere up to the target. */
  predicate Reaches(zeroForOne: bool, start: nat, price: nat, target: nat)
  {
    if zeroForOne then target <= price <= start else start <= price <= target
  }

  /** Inside the range, the new tick is still on this side of the edge. */
  lemma InsideRange(pool: Pool, ticks: set<int>, start: nat, tick: int, zeroForOne: bool, g: Range, price: nat, t: int)
    requires pool.spacing > 0 && RangeFrom(pool, ticks, tick, zeroForOne, g) && Consistent(start, tick)
    requires Reaches(zeroForOne, start, price, g.price) && price != g.price && price != start && TickHolds(price, t)
    ensures if zeroForOne then g.next <= t <= tick else tick <= t < g.next
    ensures NetFrom(pool, ticks, tick, t) == 0
  {
    hide PriceAtTick;
    if zeroForOne {
      if t > tick { PriceMono(tick + 1, t); }
      if t < g.next { PriceMono(t + 1, g.next); }
    } else {
      if t < tick { PriceMono(t + 1, tick); }
      if t >= g.next { PriceMono(g.next, t); }
    }
  }

  /** Where a step leaves the tick and the liquidity. */
  datatype Place = Place(tick: int, liquidity: u128)

  ghost function TickOf(price: nat): (t: int)
    requires MIN_SQRT_RATIO <= price < MAX_SQRT_RATIO
    ensures TickHolds(price, t)
  {
    TickExists(price);
    var t :| TickHolds(price, t);
    t
  }

  lemma TickExists(price: nat)
    requires MIN_SQRT_RATIO <= price < MAX_SQRT_RATIO
    ensures exists t :: TickHolds(price, t)
  {
    PriceEndpoints();
    var t := FindTick(price, MAX_TICK - 1);
  }

  /** The edge of the range is crossed if the price reached it; otherwise the tick is looked up again. */
  ghost function Arrived(pool: Pool, start: nat, at: Place, zeroForOne: bool, g: Range, price: nat): Result<Place>
  {
    var edge := if zeroForOne then g.next - 1 else g.next;
    if price == g.price then
      if !g.found then Ok(Place(edge, at.liquidity))
      else
        match Crossed(at.liquidity, Net(pool, g.next), zeroForOne)
        case Ok(liquidity) => Ok(Place(edge, liquidity))
        case Err(e) => Err(e)
    else if price == start then Ok(at)
    else if MIN_SQRT_RATIO <= price < MAX_SQRT_RATIO then Ok(Place(TickOf(price), at.liquidity))
    else Err(PriceOutOfRange)
  }

  method Arrive(pool: Pool, start: u256, at: Place, zeroForOne: bool, g: Range, price: u256) returns (r: Result<Place>)
    ensures r == Arrived(pool, start, at, zeroForOne, g, price)
  {
    hide PriceAtTick;
    if price == g.price {
      var liquidity := at.liquidity;
      if g.found {
        var crossed := Crossed(at.liquidity, Net(pool, g.next), zeroForOne);
        if crossed.Err? { return Err(crossed.error); }
        liquidity := crossed.value;
      }
      return Ok(Place(if zeroForOne then g.next - 1 else g.next, liquidity));
    } else if price != start {
      var tick := GetTickAtSqrtRatio(price);
      if tick.Err? { return Err(PriceOutOfRange); }
      TickUnique(price, tick.value, TickOf(price));
      return Ok(Place(tick.value, at.liquidity));
    } else {
      return Ok(at);
    }
  }

  /** After a step tick and price agree again, and the liquidity has changed by the initialized ticks
      between the old tick and the new one; only a crossing can fail. */
  lemma ArrivedMeans(pool: Pool, ticks: set<int>, start: nat, at: Place, zeroForOne: bool, g: Range, price: nat)
    requires pool.spacing > 0 && RangeFrom(pool, ticks, at.tick, zeroForOne, g)
    requires Consistent(start, at.tick) && Inside(start, zeroForOne) && Reaches(zeroForOne, start, price, g.target)
    ensures var r := Arrived(pool, start, at, zeroForOne, g, price);
            && (r.Ok? ==> Consistent(price, r.value.tick))
            && (r.Ok? ==> r.value.liquidity == at.liquidity + NetFrom(pool, ticks, at.tick, r.value.tick))
            && (r.Ok? && price == g.price ==> if zeroForOne then r.value.tick < at.tick else at.tick < r.value.tick)
            && (r.Err? ==> CrossingError(r.error) && price == g.price && g.found)
            && (r.Err? <==> price == g.price && g.found && Crossed(at.liquidity, Net(pool, g.next), zeroForOne).Err?)
  {
    hide PriceAtTick;
    TargetAhead(pool, ticks, start, at.tick, zeroForOne, g);
    if price == g.price {
      EdgeInside(zeroForOne, g, start, price);
      ConsistentEdge(g.next);
    } else if price != start {
      InsideRange(pool, ticks, start, at.tick, zeroForOne, g, price, TickOf(price));
    }
  }

  /** The extreme ticks are out of reach: their prices are beyond the limits. */
  lemma EdgeInside(zeroForOne: bool, g: Range, start: nat, price: nat)
    requires MIN_TICK <= g.next <= MAX_TICK && price == g.price == PriceAtTick(g.next)
    requires Inside(start, zeroForOne) && Inside(g.target, zeroForOne) && Reaches(zeroForOne, start, price, g.target)
    ensures MIN_TICK < g.next < MAX_TICK || (if zeroForOne then g.next == MAX_TICK else g.next == MIN_TICK)
  {
    PriceEndpoints();
  }

  lemma ConsistentEdge(next: int)
    requires MIN_TICK < next < MAX_TICK
    ensures Consistent(PriceAtTick(next), next) && Consistent(PriceAtTick(next), next - 1)
  {
    PriceMono(next - 1, next);
    PriceMono(next, next + 1);
  }

  // ------------------------------------------------------------- one iteration

  /** Paying `spent` for `out` is no better than the price p in both directions. */
  predicate Fair(zeroForOne: bool, p: nat, spent: nat, out: nat)
  {
    if zeroForOne then out * TWO192 <= spent * (p * p) else out * (p * p) <= spent * TWO192
  }

  lemma FairFrom(zeroForOne: bool, p: nat, cur: nat, next: nat, amountIn: nat, out: nat)
    requires if zeroForOne then next <= cur <= p else p <= cur <= next
    requires if zeroForOne then out * TWO192 <= amountIn * (cur * next) else out * (next * cur) <= amountIn * TWO192
    ensures Fair(zeroForOne, p, amountIn, out)
  {
    if zeroForOne {
      MulLeMul(cur, p, next, p);
      MulLe(cur * next, p * p, amountIn);
    } else {
      MulLeMul(p, next, p, cur);
      MulLe(p * p, next * cur, out);
    }
  }

  lemma FairAdds(zeroForOne: bool, p: nat, spent: nat, out: nat, amountIn: nat, fee: nat, amountOut: nat)
    requires Fair(zeroForOne, p, spent, out) && Fair(zeroForOne, p, amountIn, amountOut)
    ensures Fair(zeroForOne, p, spent + (amountIn + fee), out + amountOut)
  {
    var pp := p * p;
    MulLe(0, fee, pp);
    assert (spent + (amountIn + fee)) * pp == spent * pp + amountIn * pp + fee * pp;
    assert (out + amountOut) * pp == out * pp + amountOut * pp;
  }

  /** A step towards a target at the current price moves and costs nothing. */
  lemma NoMove(cur: nat, liquidity: u128)
    requires Toward(true, cur, cur)
    ensures MoveIn(true, cur, cur, liquidity) == 0 == MoveOut(true, cur, cur, liquidity)
  {
    Exact0Bounds(cur, cur, Shift96(liquidity), 0);
    Exact1Bounds(cur, cur, liquidity, 1);
  }

  /** The source's CurrentState, but for the amount calculated so far. */
  datatype State = State(remaining: int, price: u256, place: Place)

  predicate ValidState(pool: Pool, zeroForOne: bool, s: State)
  {
    && ValidPool(pool) && Consistent(s.price, s.place.tick) && Inside(s.price, zeroForOne)
    && -TWO255 < s.remaining < TWO255
  }

  predicate Finished(zeroForOne: bool, s: State) { s.remaining == 0 || s.price == Limit(zeroForOne) }

  ghost function Ticks(pool: Pool): set<int> { TickBitmap.TicksOf(pool.words) }

  /** The most any step takes in before the fee, or pays out: 2^192. */
  const MOVE_MAX: nat := 0x1_0000_0000_0000_0000_0000_0000_0000_0000_0000_0000_0000_0000

  /** The most any step takes in with the fee: 2^212. */
  const SPENT_MAX: nat := 0x10_0000_0000_0000_0000_0000_0000_0000_0000_0000_0000_0000_0000_0000

  /** The amounts of a step: an input is spent without running over, an output filled likewise. */
  predicate Paid(before: int, after: int, step: Step)
  {
    if before >= 0 then after == before - (step.amountIn + step.fee) && after >= 0
    else after == before + step.amountOut && after <= 0
  }

  /** What one iteration of the loop does. */
  ghost predicate Iterated(pool: Pool, zeroForOne: bool, s: State, step: Step, t: State)
    requires pool.spacing > 0
  {
    && Consistent(t.price, t.place.tick) && Reaches(zeroForOne, s.price, t.price, Limit(zeroForOne))
    && t.place.liquidity == s.place.liquidity + NetFrom(pool, Ticks(pool), s.place.tick, t.place.tick)
    && Paid(s.remaining, t.remaining, step)
    && Fair(zeroForOne, s.price, step.amountIn, step.amountOut)
    && step.amountOut <= MOVE_MAX && (s.remaining < 0 ==> step.amountIn + step.fee <= SPENT_MAX)
    && (!Finished(zeroForOne, t) ==>
          if zeroForOne then t.place.tick < s.place.tick else s.place.tick < t.place.tick)
  }

  /** What the step computation guarantees towards a target ahead. */
  predicate Stepped(zeroForOne: bool, s: State, target: nat, step: Step)
  {
    && Reaches(zeroForOne, s.price, step.next, target)
    && Fair(zeroForOne, s.price, step.amountIn, step.amountOut)
    && step.amountOut <= MOVE_MAX && (s.remaining < 0 ==> step.amountIn + step.fee <= SPENT_MAX)
    && (if s.remaining >= 0 then step.amountIn + step.fee <= s.remaining else step.amountOut <= -s.remaining)
    && (step.next != target ==>
          if s.remaining >= 0 then step.amountIn + step.fee == s.remaining else step.amountOut == -s.remaining)
  }

  /** Prices are at least 2^32, so no move takes or pays more than 2^192. */
  lemma MoveBounds(zeroForOne: bool, cur: nat, next: nat, liquidity: u128)
    requires Toward(zeroForOne, cur, next) && cur >= MIN_SQRT_RATIO && next >= MIN_SQRT_RATIO
    ensures MoveIn(zeroForOne, cur, next, liquidity) <= MOVE_MAX
    ensures MoveOut(zeroForOne, cur, next, liquidity) <= MOVE_MAX
  {
    var lo, hi := if zeroForOne then next else cur, if zeroForOne then cur else next;
    Bound0(lo, hi, liquidity);
    Bound1(lo, hi, liquidity);
  }

  lemma Bound0(lo: nat, hi: nat, liquidity: u128)
    requires MIN_SQRT_RATIO <= lo <= hi
    ensures Exact0(lo, hi, Shift96(liquidity), false) <= Exact0(lo, hi, Shift96(liquidity), true) <= MOVE_MAX
  {
    var n := Shift96(liquidity);
    Spread0(lo, hi, n);
    CeilNotBelowFloor(n * (hi - lo), hi * lo);
    Exact0Bounds(lo, hi, n, MOVE_MAX);
    MulLe(0, n, lo);
    BelowProduct(n, lo, hi);
  }

  lemma BelowProduct(n: nat, lo: nat, hi: nat)
    requires n <= TWO128 * TWO96 && lo >= 0x1_0000_0000
    ensures n * hi <= MOVE_MAX * (hi * lo)
  {
    MulLe(0x1_0000_0000, lo, MOVE_MAX);
    MulLe(n, MOVE_MAX * lo, hi);
    assert (MOVE_MAX * lo) * hi == MOVE_MAX * (hi * lo);
  }

  lemma Bound1(lo: nat, hi: nat, liquidity: u128)
    requires lo <= hi < TWO160
    ensures Exact1(lo, hi, liquidity, false) <= Exact1(lo, hi, liquidity, true) <= MOVE_MAX
  {
    Move1Fits(liquidity, hi - lo);
    CeilNotBelowFloor(liquidity * (hi - lo), TWO96);
    Exact1Bounds(lo, hi, liquidity, MOVE_MAX);
  }

  /** The fee multiplies an input by less than a million. */
  lemma FeeBound(amountIn: nat, fee: nat)
    requires amountIn <= MOVE_MAX && fee < MILLION
    ensures amountIn * fee >= 0 && amountIn + CeilDiv(amountIn * fee, MILLION - fee) <= SPENT_MAX
  {
    var d := MILLION - fee;
    MulLe(0, amountIn, fee);
    MulLe(fee, MILLION - 1, amountIn);
    MulLe(1, d, amountIn * fee);
    CeilLe(amountIn * fee, d, amountIn * fee);
  }

  lemma CappedFair(zeroForOne: bool, cur: nat, next: nat, amountIn: nat, most: nat, out: nat)
    requires out <= most && if zeroForOne then next <= cur else cur <= next
    requires if zeroForOne then most * TWO192 <= amountIn * (cur * next) else most * (next * cur) <= amountIn * TWO192
    ensures Fair(zeroForOne, cur, amountIn, out)
  {
    hide Fair;
    Capped(zeroForOne, cur, next, amountIn, most, out);
    FairFrom(zeroForOne, cur, cur, next, amountIn, out);
  }

  lemma NothingPaid(zeroForOne: bool, p: nat, amountIn: nat)
    ensures Fair(zeroForOne, p, amountIn, 0)
  {
    MulLe(0, p, p);
    MulLe(0, amountIn, p * p);
  }

  lemma StepTowards(pool: Pool, zeroForOne: bool, s: State, target: u256) returns (step: Step)
    requires ValidPool(pool) && Inside(s.price, zeroForOne) && Inside(target, zeroForOne)
    requires Reaches(zeroForOne, s.price, target, target) && -TWO255 < s.remaining < TWO255
    ensures SwapStep(s.price, target, s.place.liquidity, s.remaining, pool.fee) == Ok(step)
    ensures Stepped(zeroForOne, s, target, step)
  {
    hide Fair, MoveIn, MoveOut, SwapStep, LessFee, Partial;
    MaxPriceFits();
    var cur, l, zf1 := s.price, s.place.liquidity, s.price >= target;
    if s.remaining >= 0 {
      step := ExactInputStep(cur, target, l, s.remaining, pool.fee);
    } else {
      step := ExactOutputStep(cur, target, l, s.remaining, pool.fee);
    }
    MoveBounds(zf1, cur, step.next, l);
    FeeBound(step.amountIn, pool.fee);
    if zf1 == zeroForOne {
      MoveNeverBeatsPrice(zf1, cur, step.next, l);
      CappedFair(zf1, cur, step.next, step.amountIn, MoveOut(zf1, cur, step.next, l), step.amountOut);
    } else {
      NoMove(cur, l);
      NothingPaid(zeroForOne, cur, step.amountIn);
    }
  }

  /** What is left of the request after a step. */
  function Left(remaining: int, step: Step): int
  {
    if remaining >= 0 then remaining - (step.amountIn + step.fee) else remaining + step.amountOut
  }

  /** One iteration: the range ahead, a step towards its target, and where that arrives. */
  ghost function Iteration(pool: Pool, zeroForOne: bool, s: State): Result<(Step, State)>
    requires ValidPool(pool) && -TWO255 < s.remaining < TWO255
  {
    var g := RangeOf(pool, s.place.tick, zeroForOne);
    var step :- SwapStep(s.price, g.target, s.place.liquidity, s.remaining, pool.fee);
    var place :- Arrived(pool, s.price, s.place, zeroForOne, g, step.next);
    Ok((step, State(Left(s.remaining, step), step.next, place)))
  }

  /** Every iteration keeps the state valid: it never passes the limit, never overruns the request, is
      fair at its start price, and ends the loop or moves the tick on. Only a crossing can fail. */
  lemma IterationMeans(pool: Pool, zeroForOne: bool, s: State)
    requires ValidState(pool, zeroForOne, s) && !Finished(zeroForOne, s)
    ensures var r := Iteration(pool, zeroForOne, s);
            && (r.Ok? ==> Iterated(pool, zeroForOne, s, r.value.0, r.value.1))
            && (r.Err? ==> CrossingError(r.error))
  {
    hide PriceAtTick, Fair, NetFrom, SwapStep, RangeOf, Arrived;
    var ticks, g := Ticks(pool), RangeOf(pool, s.place.tick, zeroForOne);
    TickBitmap.TicksAgree(pool.words);
    RangeMeans(pool, ticks, s.place.tick, zeroForOne);
    TargetAhead(pool, ticks, s.price, s.place.tick, zeroForOne, g);
    var step := StepTowards(pool, zeroForOne, s, g.target);
    ArrivedMeans(pool, ticks, s.price, s.place, zeroForOne, g, step.next);
  }

  /** One iteration of either loop. */
  method Iterate(pool: Pool, zeroForOne: bool, s: State) returns (r: Result<(Step, State)>)
    requires ValidPool(pool) && -TWO255 < s.remaining < TWO255 && MIN_TICK <= s.place.tick < MAX_TICK
    ensures r == Iteration(pool, zeroForOne, s)
  {
    hide SwapStep, RangeOf, Arrived;
    var g := NextRange(pool, s.place.tick, zeroForOne);
    if g.Err? { return Err(TickOutOfRange); }
    var step := ComputeSwapStep(s.price, g.value.target, s.place.liquidity, s.remaining, pool.fee);
    if step.Err? { return Err(step.error); }
    var place := Arrive(pool, s.price, s.place, zeroForOne, g.value, step.value.next);
    if place.Err? { return Err(place.error); }
    return Ok((step.value, State(Left(s.remaining, step.value), step.value.next, place.value)));
  }

  // -------------------------------------------------------------- the whole swap

  /** A downward swap that starts at the minimum price, one unit beyond its own limit. */
  predicate AtFloor(pool: Pool, zeroForOne: bool, s: State)
  {
    && ValidPool(pool) && zeroForOne && s.price == MIN_SQRT_RATIO && s.place.tick == MIN_TICK
    && -TWO255 < s.remaining < TWO255
  }

  /** Such a swap ends after one iteration: the step goes up to the limit, or uses up the request. */
  lemma FloorIteration(pool: Pool, s: State)
    requires AtFloor(pool, true, s) && s.remaining != 0 && Iteration(pool, true, s).Ok?
    ensures var (step, t) := Iteration(pool, true, s).value;
            && Finished(true, t) && MIN_SQRT_RATIO <= t.price <= MIN_SQRT_RATIO + 1
            && Paid(s.remaining, t.remaining, step)
            && step.amountOut <= MOVE_MAX && (s.remaining < 0 ==> step.amountIn + step.fee <= SPENT_MAX)
  {
    hide PriceAtTick, NetFrom, SwapStep, MoveIn, MoveOut, Arrived;
    var g := RangeOf(pool, MIN_TICK, true);
    TickBitmap.TicksAgree(pool.words);
    RangeMeans(pool, Ticks(pool), MIN_TICK, true);
    PriceEndpoints();
    MaxPriceFits();
    var step;
    if s.remaining >= 0 {
      step := ExactInputStep(s.price, g.target, s.place.liquidity, s.remaining, pool.fee);
    } else {
      step := ExactOutputStep(s.price, g.target, s.place.liquidity, s.remaining, pool.fee);
    }
    MoveBounds(false, s.price, step.next, s.place.liquidity);
    FeeBound(step.amountIn, pool.fee);
  }

  /** Where any number of iterations can lead: the price between the start and the limit, the tick
      in step with it, the liquidity changed by exactly the initialized ticks crossed, and the
      request never overrun. */
  ghost predicate Travelled(pool: Pool, zeroForOne: bool, s: State, t: State)
    requires pool.spacing > 0
  {
    && Consistent(t.price, t.place.tick) && Reaches(zeroForOne, s.price, t.price, Limit(zeroForOne))
    && t.place.liquidity == s.place.liquidity + NetFrom(pool, Ticks(pool), s.place.tick, t.place.tick)
    && if s.remaining >= 0 then 0 <= t.remaining <= s.remaining else s.remaining <= t.remaining <= 0
  }

  /** How many more ticks there are to cross. */
  function Ahead(zeroForOne: bool, s: State): nat
  {
    if Finished(zeroForOne, s) then 0
    else if zeroForOne then if s.place.tick < MIN_TICK then 1 else s.place.tick - MIN_TICK + 1
    else if s.place.tick > MAX_TICK then 1 else MAX_TICK - s.place.tick + 1
  }

  predicate Startable(pool: Pool, zeroForOne: bool, s: State)
  {
    ValidState(pool, zeroForOne, s) || AtFloor(pool, zeroForOne, s)
  }

  lemma Progress(pool: Pool, zeroForOne: bool, s: State)
    requires Startable(pool, zeroForOne, s) && !Finished(zeroForOne, s) && Iteration(pool, zeroForOne, s).Ok?
    ensures var t := Iteration(pool, zeroForOne, s).value.1;
            && (ValidState(pool, zeroForOne, s) ==> ValidState(pool, zeroForOne, t))
            && (Finished(zeroForOne, t) || ValidState(pool, zeroForOne, t))
            && Ahead(zeroForOne, t) < Ahead(zeroForOne, s)
  {
    hide Iteration, PriceAtTick, Fair, NetFrom;
    if ValidState(pool, zeroForOne, s) {
      IterationMeans(pool, zeroForOne, s);
    } else {
      FloorIteration(pool, s);
    }
  }

  /** Where a swap ends, whether a crossing failed, and what was spent and paid out on the way. */
  datatype Outcome = Outcome(end: State, error: Option<MathError>, spent: nat, out: nat)

  function Added(spent: nat, out: nat, o: Outcome): Outcome { o.(spent := spent + o.spent, out := out + o.out) }

  /** The swap as a function: iterations until the request is filled or the limit reached. */
  ghost function Swap(pool: Pool, zeroForOne: bool, s: State): Outcome
    requires Finished(zeroForOne, s) || Startable(pool, zeroForOne, s)
    decreases Ahead(zeroForOne, s)
  {
    if Finished(zeroForOne, s) then Outcome(s, None, 0, 0)
    else
      match Iteration(pool, zeroForOne, s)
      case Err(e) => Outcome(s, Some(e), 0, 0)
      case Ok((step, t)) =>
        Progress(pool, zeroForOne, s);
        Added(step.amountIn + step.fee, step.amountOut, Swap(pool, zeroForOne, t))
  }

  /** What a swap returns: the total, if the request was filled. */
  function Quoted(o: Outcome, total: u256): (r: Result<u256>)
    ensures o.error.Some? ==> r == Err(o.error.value)
    ensures o.error.None? && o.end.remaining == 0 ==> r == Ok(total)
    ensures o.error.None? && o.end.remaining != 0 ==> r == Err(NotEnoughLiquidity)
  {
    if o.error.Some? then Err(o.error.value) else if o.end.remaining == 0 then Ok(total) else Err(NotEnoughLiquidity)
  }

  // ---------------------------------------------------------- laws of every swap

  /** A valid swap travels as every iteration does, is fair at its start price, accounts for every
      unit of the request, fails only at a crossing, and otherwise stops at the limit or filled. */
  ghost predicate SwapHolds(pool: Pool, zeroForOne: bool, s: State, o: Outcome)
    requires pool.spacing > 0
  {
    && Travelled(pool, zeroForOne, s, o.end) && Fair(zeroForOne, s.price, o.spent, o.out)
    && (if s.remaining >= 0 then o.spent == s.remaining - o.end.remaining else o.out == o.end.remaining - s.remaining)
    && (o.error.Some? ==> CrossingError(o.error.value))
    && (o.error.None? ==> Finished(zeroForOne, o.end))
    && o.out <= Ahead(zeroForOne, s) * MOVE_MAX
    && (s.remaining < 0 ==> o.spent <= Ahead(zeroForOne, s) * SPENT_MAX)
  }

  lemma {:induction false} SwapInside(pool: Pool, zeroForOne: bool, s: State)
    requires ValidState(pool, zeroForOne, s)
    ensures SwapHolds(pool, zeroForOne, s, Swap(pool, zeroForOne, s))
    decreases Ahead(zeroForOne, s)
  {
    hide Consistent, Fair, NetFrom, Iteration;
    if Finished(zeroForOne, s) {
      Standing(pool, zeroForOne, s);
    } else {
      IterationMeans(pool, zeroForOne, s);
      if Iteration(pool, zeroForOne, s).Err? {
        Standing(pool, zeroForOne, s);
      } else {
        var (step, t) := Iteration(pool, zeroForOne, s).value;
        Progress(pool, zeroForOne, s);
        SwapInside(pool, zeroForOne, t);
        Onward(pool, zeroForOne, s, step, t, Swap(pool, zeroForOne, t));
      }
    }
  }

  lemma Standing(pool: Pool, zeroForOne: bool, s: State)
    requires ValidState(pool, zeroForOne, s)
    ensures Travelled(pool, zeroForOne, s, s) && Fair(zeroForOne, s.price, 0, 0)
  {
    assert NetFrom(pool, Ticks(pool), s.place.tick, s.place.tick) == 0;
  }

  lemma Onward(pool: Pool, zeroForOne: bool, s: State, step: Step, t: State, o: Outcome)
    requires ValidState(pool, zeroForOne, s) && !Finished(zeroForOne, s)
    requires Iterated(pool, zeroForOne, s, step, t) && SwapHolds(pool, zeroForOne, t, o)
    requires Ahead(zeroForOne, t) < Ahead(zeroForOne, s)
    ensures SwapHolds(pool, zeroForOne, s, Added(step.amountIn + step.fee, step.amountOut, o))
  {
    hide Consistent, Fair, NetFrom;
    var n, m := Ahead(zeroForOne, t), Ahead(zeroForOne, s);
    OneStepMore(n, m, o.out, step.amountOut, MOVE_MAX);
    MulLe(0, n, SPENT_MAX);
    if s.remaining < 0 { OneStepMore(n, m, o.spent, step.amountIn + step.fee, SPENT_MAX); }
    NetChains(pool, Ticks(pool), s.place.tick, t.place.tick, o.end.place.tick);
    FairDrop(zeroForOne, s.price, t.price, o.spent, o.out);
    FairAdds(zeroForOne, s.price, o.spent, o.out, step.amountIn, step.fee, step.amountOut);
  }

  lemma OneStepMore(n: nat, m: nat, total: nat, x: nat, max: nat)
    requires n < m && total <= n * max && x <= max
    ensures x + total <= m * max
  {
    MulLe(n + 1, m, max);
  }

  /** Fair at a price further along is fair at the start. */
  lemma FairDrop(zeroForOne: bool, p: nat, q: nat, spent: nat, out: nat)
    requires Fair(zeroForOne, q, spent, out) && if zeroForOne then q <= p else p <= q
    ensures Fair(zeroForOne, p, spent, out)
  {
    if zeroForOne {
      MulLeMul(q, p, q, p);
      MulLe(q * q, p * p, spent);
    } else {
      MulLeMul(p, q, p, q);
      MulLe(p * p, q * q, out);
    }
  }

  /** The running totals fit: at most 2^21 steps of at most 2^212 each. */
  lemma TotalFits(total: nat, n: nat, max: nat)
    requires total <= n * max && n <= 0x20_0000 && max <= SPENT_MAX
    ensures total < TWO255
  {
    MulLe(max, SPENT_MAX, n);
    SmallPowers20();
    PowersOfTotals();
    ProductBound(total, n, SPENT_MAX, 21, 212);
  }

  lemma PowersOfTotals()
    ensures Pow2(212) == SPENT_MAX
  {
    SmallPowers();
    SmallPowers20();
    Pow2Product(160, 32, TWO160, 0x1_0000_0000);
    Pow2Product(192, 20, MOVE_MAX, 0x10_0000);
  }

  lemma ProductBound(total: nat, n: nat, b: nat, i: nat, j: nat)
    requires total <= n * b && n <= Pow2(i) && b == Pow2(j) && i + j < 255
    ensures total < TWO255
  {
    MulLe(n, Pow2(i), b);
    Pow2Add(i, j);
    Pow2Strict(i + j, 255);
  }

  /** Neither total of a swap reaches 2^255, so no sum of the loops wraps. */
  lemma SwapFits(pool: Pool, zeroForOne: bool, s: State)
    requires Startable(pool, zeroForOne, s)
    ensures Swap(pool, zeroForOne, s).spent < TWO255 && Swap(pool, zeroForOne, s).out < TWO255
  {
    hide PriceAtTick, Fair, NetFrom, Iteration;
    var o := Swap(pool, zeroForOne, s);
    if ValidState(pool, zeroForOne, s) {
      SwapInside(pool, zeroForOne, s);
      TotalFits(o.out, Ahead(zeroForOne, s), MOVE_MAX);
      if s.remaining < 0 { TotalFits(o.spent, Ahead(zeroForOne, s), SPENT_MAX); }
    } else {
      PowersOfTotals();
      Pow2Strict(212, 255);
      if !Finished(zeroForOne, s) && Iteration(pool, zeroForOne, s).Ok? { FloorIteration(pool, s); }
    }
  }

  /** Adding up one more step of a swap does not wrap, and leaves the rest to add. */
  lemma AddStep(pool: Pool, zeroForOne: bool, start: State, s: State, spent: nat, out: nat)
    requires Startable(pool, zeroForOne, start) && Startable(pool, zeroForOne, s) && !Finished(zeroForOne, s)
    requires Swap(pool, zeroForOne, start) == Added(spent, out, Swap(pool, zeroForOne, s))
    requires Iteration(pool, zeroForOne, s).Ok?
    ensures var (step, t) := Iteration(pool, zeroForOne, s).value;
            && (Finished(zeroForOne, t) || Startable(pool, zeroForOne, t))
            && Ahead(zeroForOne, t) < Ahead(zeroForOne, s)
            && WrapAdd(spent, WrapAdd(step.amountIn, step.fee)) == spent + (step.amountIn + step.fee)
            && WrapAdd(out, step.amountOut) == out + step.amountOut
            && Swap(pool, zeroForOne, start)
               == Added(spent + (step.amountIn + step.fee), out + step.amountOut, Swap(pool, zeroForOne, t))
  {
    hide Consistent, Iteration, Swap, Wrap;
    Progress(pool, zeroForOne, s);
    NextStep(pool, zeroForOne, s);
    SwapFits(pool, zeroForOne, start);
    var (step, t) := Iteration(pool, zeroForOne, s).value;
    WrapSmall(step.amountIn + step.fee);
    WrapSmall(spent + (step.amountIn + step.fee));
    WrapSmall(out + step.amountOut);
  }

  lemma NextStep(pool: Pool, zeroForOne: bool, s: State)
    requires Startable(pool, zeroForOne, s) && !Finished(zeroForOne, s) && Iteration(pool, zeroForOne, s).Ok?
    ensures var (step, t) := Iteration(pool, zeroForOne, s).value;
            && (Finished(zeroForOne, t) || Startable(pool, zeroForOne, t))
            && Swap(pool, zeroForOne, s)
               == Added(step.amountIn + step.fee, step.amountOut, Swap(pool, zeroForOne, t))
  {
    hide Consistent, Iteration;
    Progress(pool, zeroForOne, s);
  }

  lemma WrapSmall(x: nat)
    requires x < TWO255
    ensures Wrap(x) == x
  {
    assert TWO256 == 2 * TWO255;
    ModSmall(x, TWO256);
  }

  // ------------------------------------------------------------------- the loops

  /** `simulate_swap_in_amount_provider`, from the price, tick and liquidity read of the pool. */
  method SimulateSwapIn(pool: Pool, zeroForOne: bool, price: u256, place: Place, amount: nat) returns (r: Result<u256>)
    requires Startable(pool, zeroForOne, State(amount, price, place))
    ensures var o := Swap(pool, zeroForOne, State(amount, price, place));
            o.out < TWO255 && r == Quoted(o, o.out)
  {
    hide PriceAtTick, Iteration, Wrap;
    ghost var start := State(amount, price, place);
    SwapFits(pool, zeroForOne, start);
    if amount == 0 { return Ok(0); }
    var s, calculated: u256 := State(amount, price, place), 0;
    ghost var spent: nat := 0;
    while s.remaining != 0 && s.price != Limit(zeroForOne)
      invariant Finished(zeroForOne, s) || Startable(pool, zeroForOne, s)
      invariant Swap(pool, zeroForOne, start) == Added(spent, calculated, Swap(pool, zeroForOne, s))
      decreases Ahead(zeroForOne, s)
    {
      var next := Iterate(pool, zeroForOne, s);
      if next.Err? { return Err(next.error); }
      var (step, t) := next.value;
      AddStep(pool, zeroForOne, start, s, spent, calculated);
      spent := spent + (step.amountIn + step.fee);
      calculated := WrapAdd(calculated, step.amountOut);
      s := t;
    }
    return if s.remaining == 0 then Ok(calculated) else Err(NotEnoughLiquidity);
  }

  /** `simulate_swap_out_amount_provided`. */
  method SimulateSwapOut(pool: Pool, zeroForOne: bool, price: u256, place: Place, amount: nat) returns (r: Result<u256>)
    requires Startable(pool, zeroForOne, State(0 - amount, price, place))
    ensures var o := Swap(pool, zeroForOne, State(0 - amount, price, place));
            o.spent < TWO255 && r == Quoted(o, o.spent)
  {
    hide PriceAtTick, Iteration, Wrap;
    ghost var start := State(0 - amount, price, place);
    SwapFits(pool, zeroForOne, start);
    if amount == 0 { return Ok(0); }
    var s, calculated: u256 := State(0 - amount, price, place), 0;
    ghost var out: nat := 0;
    while s.remaining != 0 && s.price != Limit(zeroForOne)
      invariant Finished(zeroForOne, s) || Startable(pool, zeroForOne, s)
      invariant Swap(pool, zeroForOne, start) == Added(calculated, out, Swap(pool, zeroForOne, s))
      decreases Ahead(zeroForOne, s)
    {
      var next := Iterate(pool, zeroForOne, s);
      if next.Err? { return Err(next.error); }
      var (step, t) := next.value;
      AddStep(pool, zeroForOne, start, s, calculated, out);
      out := out + step.amountOut;
      calculated := WrapAdd(calculated, WrapAdd(step.amountIn, step.fee));
      s := t;
    }
    return if s.remaining == 0 then Ok(calculated) else Err(NotEnoughLiquidity);
  }
}
