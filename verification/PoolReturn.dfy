/** No swap across ticks can be undone at a profit: the value of the pool's liquidity as a potential. */
module PoolReturn {
  import opened Words
  import opened SqrtPriceMath
  import opened SwapMath
  import opened TickMath
  import opened RealPowers
  import opened PoolSwap
  import opened PoolFloor
  import TickBitmap

  // ------------------------------------------------- what one unit of liquidity is worth

  /** 2^128: prices lie between 2^32 and 2^160. */
  const SPREAD: real := 340282366920938463463374607431768211456.0

  predicate Price(p: nat) { TWO32 <= p < TWO160 }

  /** How much token1, or how much token0, one unit of liquidity has traded away below the price p. */
  function Value(token1: bool, p: nat): real
    requires Price(p)
  {
    if token1 then p as real / Q96 else -(Q96 / p as real)
  }

  /** Two amounts of which neither is negative, or zero without the other. */
  predicate Tied(d0: real, d1: real) { 0.0 <= d0 <= SPREAD * d1 && 0.0 <= d1 <= SPREAD * d0 }

  /** The token1 between two prices. */
  lemma Spread1Is(lo: real, hi: real)
    ensures (hi / Q96 - lo / Q96) * Q96 == hi - lo
  {
    RQuotient(lo, Q96);
    RQuotient(hi, Q96);
  }

  /** The token0 between two prices. */
  lemma Spread0Is(lo: real, hi: real)
    requires lo > 0.0 && hi > 0.0
    ensures (Q96 / lo - Q96 / hi) * (hi * lo) == Q96 * (hi - lo)
  {
    var x, y := Q96 / lo, Q96 / hi;
    RQuotient(Q96, lo);
    RQuotient(Q96, hi);
    Regroup(x, y, lo, hi);
  }

  lemma Regroup(x: real, y: real, lo: real, hi: real)
    ensures (x - y) * (hi * lo) == (x * lo) * hi - (y * hi) * lo
  {
  }

  lemma Tie(d0: real, d1: real, k: real, c: real)
    requires d1 >= 0.0 && 0.0 < c <= k <= (c * SPREAD) * SPREAD
    requires d0 * k == (c * SPREAD) * d1
    ensures Tied(d0, d1)
  {
    var b := c * SPREAD;
    RMulLe(0.0, d1, b);
    if d0 < 0.0 { RMulLt(d0, 0.0, k); }
    Assoc(c, SPREAD, d1);
    AtMost(d0, SPREAD * d1, k, c);
    AtLeast(d0, d1, k, b, SPREAD);
  }

  lemma AtMost(x: real, y: real, k: real, c: real)
    requires x >= 0.0 && 0.0 < c <= k && x * k == c * y
    ensures x <= y
  {
    RMulLe(c, k, x);
    Cancel(x, y, c);
  }

  lemma AtLeast(x: real, y: real, k: real, b: real, m: real)
    requires x >= 0.0 && b > 0.0 && k <= b * m && x * k == b * y
    ensures y <= m * x
  {
    RMulLe(k, b * m, x);
    Assoc(b, m, x);
    Cancel(y, m * x, b);
  }

  const TWO64: real := 18446744073709551616.0

  lemma ProductRange(x: real, y: real)
    requires 4294967296.0 <= x <= TWO160 as real && 4294967296.0 <= y <= TWO160 as real
    ensures TWO64 <= y * x <= TWO64 * SPREAD * SPREAD
  {
    RMulLeMul(4294967296.0, y, 4294967296.0, x);
    RMulLeMul(y, TWO160 as real, x, TWO160 as real);
  }

  lemma Difference(d: real, z: real)
    requires d * Q96 == z && z >= 0.0
    ensures d >= 0.0 && Q96 * z == TWO64 * SPREAD * d
  {
  }

  /** Along the prices both tokens move, in opposite directions and tied to each other. */
  lemma ValuesTied(a: nat, b: nat)
    requires Price(a) && Price(b) && a <= b
    ensures Tied(Value(false, b) - Value(false, a), Value(true, b) - Value(true, a))
  {
    hide Tied;
    var x, y := a as real, b as real;
    Spread0Is(x, y);
    Spread1Is(x, y);
    ProductRange(x, y);
    Difference(y / Q96 - x / Q96, y - x);
    Tie(Q96 / x - Q96 / y, y / Q96 - x / Q96, y * x, TWO64);
  }

  /** A move down takes token0 and pays token1, a move up the other way around; rounding favours the pool. */
  predicate Flows(zeroForOne: bool, d0: real, d1: real, amountIn: nat, amountOut: nat)
  {
    if zeroForOne then -d0 <= amountIn as real && amountOut as real <= -d1
    else d1 <= amountIn as real && amountOut as real <= d0
  }

  /** What liquidity trades when the price moves from p to q. */
  function Traded(token1: bool, p: nat, q: nat, liquidity: int): real
    requires Price(p) && Price(q)
  {
    liquidity as real * (Value(token1, q) - Value(token1, p))
  }

  lemma MoveFlows(zeroForOne: bool, cur: nat, next: nat, liquidity: u128, amountOut: nat)
    requires Toward(zeroForOne, cur, next) && Price(cur) && Price(next)
    requires amountOut <= MoveOut(zeroForOne, cur, next, liquidity)
    ensures Flows(zeroForOne, Traded(false, cur, next, liquidity), Traded(true, cur, next, liquidity),
                  MoveIn(zeroForOne, cur, next, liquidity), amountOut)
  {
    hide Traded, Exact0, Exact1;
    var lo, hi := if zeroForOne then next else cur, if zeroForOne then cur else next;
    Flow0(lo, hi, liquidity);
    Flow1(lo, hi, liquidity);
    Reverse(false, lo, hi, liquidity);
    Reverse(true, lo, hi, liquidity);
  }

  lemma Reverse(token1: bool, p: nat, q: nat, liquidity: int)
    requires Price(p) && Price(q)
    ensures Traded(token1, q, p, liquidity) == -Traded(token1, p, q, liquidity)
  {
    hide Value;
  }

  lemma Sandwich(l: real, d: real, k: real, z: real, floor: real, ceil: real)
    requires k > 0.0 && d * k == z && floor * k <= l * z <= ceil * k
    ensures floor <= l * d <= ceil
  {
    Scale(l, d, k, z);
    Enclosed(l * d, k, l * z, floor, ceil);
  }

  lemma Enclosed(x: real, k: real, m: real, floor: real, ceil: real)
    requires k > 0.0 && x * k == m && floor * k <= m <= ceil * k
    ensures floor <= x <= ceil
  {
    Cancel(floor, x, k);
    Cancel(x, ceil, k);
  }

  lemma Scale(l: real, d: real, k: real, z: real)
    requires d * k == z
    ensures (l * d) * k == l * z
  {
    Assoc(l, d, k);
  }

  lemma Flow0(lo: nat, hi: nat, liquidity: u128)
    requires Price(lo) && Price(hi) && lo <= hi
    ensures Exact0(lo, hi, Shift96(liquidity), false) as real
            <= Traded(false, lo, hi, liquidity)
            <= Exact0(lo, hi, Shift96(liquidity), true) as real
  {
    hide Exact0;
    var floor, ceil := Exact0(lo, hi, Shift96(liquidity), false), Exact0(lo, hi, Shift96(liquidity), true);
    Cleared0(lo, hi, liquidity, floor, ceil);
    var x, y, l := lo as real, hi as real, liquidity as real;
    Spread0Is(x, y);
    RMulLt(0.0, x, y);
    Sandwich(l, Q96 / x - Q96 / y, y * x, Q96 * (y - x), floor as real, ceil as real);
  }

  lemma Cleared0(lo: nat, hi: nat, liquidity: u128, floor: nat, ceil: nat)
    requires 0 < lo <= hi
    requires floor <= Exact0(lo, hi, Shift96(liquidity), false) && Exact0(lo, hi, Shift96(liquidity), true) <= ceil
    ensures floor as real * (hi as real * lo as real) <= liquidity as real * (Q96 * (hi as real - lo as real))
    ensures liquidity as real * (Q96 * (hi as real - lo as real)) <= ceil as real * (hi as real * lo as real)
  {
    hide Exact0;
    var n := Shift96(liquidity);
    Exact0Bounds(lo, hi, n, floor);
    Exact0Bounds(lo, hi, n, ceil);
    assert n * hi - n * lo == liquidity * (TWO96 * (hi - lo));
    assert (floor * (hi * lo)) as real == floor as real * (hi as real * lo as real);
    assert (ceil * (hi * lo)) as real == ceil as real * (hi as real * lo as real);
    assert (liquidity * (TWO96 * (hi - lo))) as real == liquidity as real * (Q96 * (hi as real - lo as real));
  }

  lemma Flow1(lo: nat, hi: nat, liquidity: u128)
    requires Price(lo) && Price(hi) && lo <= hi
    ensures Exact1(lo, hi, liquidity, false) as real
            <= Traded(true, lo, hi, liquidity)
            <= Exact1(lo, hi, liquidity, true) as real
  {
    hide Exact1;
    var floor, ceil := Exact1(lo, hi, liquidity, false), Exact1(lo, hi, liquidity, true);
    Cleared1(lo, hi, liquidity, floor, ceil);
    Between1(liquidity as real, lo as real, hi as real, floor as real, ceil as real);
  }

  lemma Between1(l: real, x: real, y: real, floor: real, ceil: real)
    requires floor * Q96 <= l * (y - x) <= ceil * Q96
    ensures floor <= l * (y / Q96 - x / Q96) <= ceil
  {
    Spread1Is(x, y);
    Sandwich(l, y / Q96 - x / Q96, Q96, y - x, floor, ceil);
  }

  lemma Cleared1(lo: nat, hi: nat, liquidity: u128, floor: nat, ceil: nat)
    requires lo <= hi
    requires floor <= Exact1(lo, hi, liquidity, false) && Exact1(lo, hi, liquidity, true) <= ceil
    ensures floor as real * Q96 <= liquidity as real * (hi as real - lo as real) <= ceil as real * Q96
  {
    hide Exact1;
    Exact1Bounds(lo, hi, liquidity, floor);
    Exact1Bounds(lo, hi, liquidity, ceil);
    assert (liquidity * (hi - lo)) as real == liquidity as real * (hi as real - lo as real);
  }

  // --------------------------------------------------------------- the potential

  /** The price at the lower edge of a tick. */
  function Edge(tick: int): (p: nat)
    requires MIN_TICK <= tick <= MAX_TICK
    ensures Price(p)
  {
    PriceInRange(tick);
    MaxPriceFits();
    PriceAtTick(tick)
  }

  /** What the liquidity f has traded in the ticks below. */
  ghost function Below(f: int -> int, token1: bool, tick: int): real
    requires MIN_TICK <= tick <= MAX_TICK
    decreases tick - MIN_TICK
  {
    if tick == MIN_TICK then 0.0
    else Below(f, token1, tick - 1) + Traded(token1, Edge(tick - 1), Edge(tick), f(tick - 1))
  }

  /** What the liquidity f has traded up to a price in a tick. */
  ghost function Potential(f: int -> int, token1: bool, p: nat, tick: int): real
    requires Price(p) && MIN_TICK <= tick <= MAX_TICK
  {
    Below(f, token1, tick) + Traded(token1, Edge(tick), p, f(tick))
  }

  lemma Chain(token1: bool, a: nat, b: nat, c: nat, liquidity: int)
    requires Price(a) && Price(b) && Price(c)
    ensures Traded(token1, a, b, liquidity) + Traded(token1, b, c, liquidity) == Traded(token1, a, c, liquidity)
  {
    hide Value;
    Distribute(liquidity as real, Value(token1, b) - Value(token1, a), Value(token1, c) - Value(token1, b));
  }

  lemma Distribute(l: real, x: real, y: real)
    ensures l * x + l * y == l * (x + y)
  {
  }

  /** At the edge of a tick it does not matter which side the price is taken to be on. */
  lemma SameAtEdge(f: int -> int, token1: bool, tick: int)
    requires MIN_TICK < tick <= MAX_TICK
    ensures Potential(f, token1, Edge(tick), tick) == Potential(f, token1, Edge(tick), tick - 1)
  {
    hide Edge, Value;
  }

  predicate Constant(f: int -> int, lo: int, hi: int, liquidity: int)
  {
    forall i :: lo <= i <= hi ==> f(i) == liquidity
  }

  lemma {:induction false} FlatBelow(f: int -> int, token1: bool, lo: int, hi: int, liquidity: int)
    requires MIN_TICK <= lo <= hi <= MAX_TICK && Constant(f, lo, hi - 1, liquidity)
    ensures Below(f, token1, hi) - Below(f, token1, lo) == Traded(token1, Edge(lo), Edge(hi), liquidity)
    decreases hi - lo
  {
    hide Edge, Value;
    if lo == hi {
    } else {
      FlatBelow(f, token1, lo, hi - 1, liquidity);
      Chain(token1, Edge(lo), Edge(hi - 1), Edge(hi), liquidity);
    }
  }

  /** Where the liquidity is constant the potential changes by what it trades. */
  lemma Flat(f: int -> int, token1: bool, p: nat, t: int, q: nat, u: int, liquidity: int)
    requires Price(p) && Price(q) && MIN_TICK <= t <= MAX_TICK && MIN_TICK <= u <= MAX_TICK
    requires Constant(f, if t < u then t else u, if t < u then u else t, liquidity)
    ensures Potential(f, token1, q, u) - Potential(f, token1, p, t) == Traded(token1, p, q, liquidity)
  {
    hide Edge, Traded;
    if t <= u {
      FlatBelow(f, token1, t, u, liquidity);
    } else {
      FlatBelow(f, token1, u, t, liquidity);
      Chain(token1, Edge(t), Edge(u), Edge(t), liquidity);
      NoTrade(token1, Edge(t), liquidity);
    }
    Chain(token1, Edge(t), p, q, liquidity);
    Chain(token1, Edge(t), Edge(u), q, liquidity);
  }

  lemma NoTrade(token1: bool, p: nat, liquidity: int)
    requires Price(p)
    ensures Traded(token1, p, p, liquidity) == 0.0
  {
    hide Value;
  }

  ghost predicate Nonnegative(f: int -> int, a: int, b: int)
  {
    forall i :: a <= i <= b || b <= i <= a ==> f(i) >= 0
  }

  lemma TiedTrade(p: nat, q: nat, liquidity: int)
    requires Price(p) && Price(q) && p <= q && liquidity >= 0
    ensures Tied(Traded(false, p, q, liquidity), Traded(true, p, q, liquidity))
  {
    hide Value;
    ValuesTied(p, q);
    TiedScale(liquidity as real, Value(false, q) - Value(false, p), Value(true, q) - Value(true, p));
  }

  lemma TiedScale(l: real, d0: real, d1: real)
    requires l >= 0.0 && Tied(d0, d1)
    ensures Tied(l * d0, l * d1)
  {
    RMulLe(0.0, d0, l);
    RMulLe(0.0, d1, l);
    RMulLe(d0, SPREAD * d1, l);
    RMulLe(d1, SPREAD * d0, l);
  }

  lemma TiedSum(a0: real, a1: real, b0: real, b1: real)
    requires Tied(a0, a1) && Tied(b0, b1)
    ensures Tied(a0 + b0, a1 + b1)
  {
  }

  lemma {:induction false} BelowTied(f: int -> int, lo: int, hi: int)
    requires MIN_TICK <= lo <= hi <= MAX_TICK && forall i :: lo <= i < hi ==> f(i) >= 0
    ensures Tied(Below(f, false, hi) - Below(f, false, lo), Below(f, true, hi) - Below(f, true, lo))
    decreases hi - lo
  {
    hide PriceAtTick, Traded, Tied;
    if lo == hi {
      TiedTrade(Edge(lo), Edge(lo), 0);
      NoTrade(false, Edge(lo), 0);
      NoTrade(true, Edge(lo), 0);
    } else {
      BelowTied(f, lo, hi - 1);
      PriceMono(hi - 1, hi);
      var a, b, l := Edge(hi - 1), Edge(hi), f(hi - 1);
      TiedTrade(a, b, l);
      TiedSum(Below(f, false, hi - 1) - Below(f, false, lo), Below(f, true, hi - 1) - Below(f, true, lo),
              Traded(false, a, b, l), Traded(true, a, b, l));
    }
  }

  /** The change of the potential from one place of the pool to another. */
  ghost function Gain(f: int -> int, token1: bool, p: nat, t: int, q: nat, u: int): real
    requires Price(p) && Price(q) && MIN_TICK <= t <= MAX_TICK && MIN_TICK <= u <= MAX_TICK
  {
    Potential(f, token1, q, u) - Potential(f, token1, p, t)
  }

  /** Upwards neither potential falls, and neither rises without the other. */
  lemma GainTied(f: int -> int, p: nat, t: int, q: nat, u: int)
    requires Price(p) && Price(q) && Consistent(p, t) && Consistent(q, u) && p <= q && Nonnegative(f, t, u)
    ensures Tied(Gain(f, false, p, t, q, u), Gain(f, true, p, t, q, u))
  {
    hide PriceAtTick, Traded, Tied, Below;
    if t == u {
      Chain(false, Edge(t), p, q, f(t));
      Chain(true, Edge(t), p, q, f(t));
      TiedTrade(p, q, f(t));
    } else if t < u {
      SplitGain(f, false, p, t, q, u);
      SplitGain(f, true, p, t, q, u);
      TiedTrade(p, Edge(t + 1), f(t));
      BelowTied(f, t + 1, u);
      TiedTrade(Edge(u), q, f(u));
      TiedSum(Traded(false, p, Edge(t + 1), f(t)), Traded(true, p, Edge(t + 1), f(t)),
              Below(f, false, u) - Below(f, false, t + 1), Below(f, true, u) - Below(f, true, t + 1));
      TiedSum(Traded(false, p, Edge(t + 1), f(t)) + (Below(f, false, u) - Below(f, false, t + 1)),
              Traded(true, p, Edge(t + 1), f(t)) + (Below(f, true, u) - Below(f, true, t + 1)),
              Traded(false, Edge(u), q, f(u)), Traded(true, Edge(u), q, f(u)));
    } else {
      OnTheEdge(p, t, q, u);
      SameAtEdge(f, false, t);
      SameAtEdge(f, true, t);
      TiedTrade(p, p, 0);
      NoTrade(false, p, 0);
      NoTrade(true, p, 0);
    }
  }

  lemma SplitGain(f: int -> int, token1: bool, p: nat, t: int, q: nat, u: int)
    requires Price(p) && Price(q) && MIN_TICK <= t < u <= MAX_TICK
    ensures Gain(f, token1, p, t, q, u)
            == Traded(token1, p, Edge(t + 1), f(t)) + (Below(f, token1, u) - Below(f, token1, t + 1))
               + Traded(token1, Edge(u), q, f(u))
  {
    hide Edge, Traded;
    Chain(token1, Edge(t), p, Edge(t + 1), f(t));
  }

  lemma OnTheEdge(p: nat, t: int, q: nat, u: int)
    requires Consistent(p, t) && Consistent(q, u) && p <= q && u < t
    ensures t == u + 1 && p == q == PriceAtTick(t)
  {
    hide PriceAtTick;
    if u + 1 < t { PriceStrict(u + 1, t); }
  }

  // ------------------------------------------------------------ the pool's liquidity

  /** f is the liquidity of the pool in every tick, seen from one of them. */
  ghost predicate Matches(pool: Pool, f: int -> int, place: Place)
    requires pool.spacing > 0
  {
    forall i :: f(i) == place.liquidity + NetFrom(pool, Ticks(pool), place.tick, i)
  }

  /** It is the same from wherever a swap leads. */
  lemma MatchesOn(pool: Pool, f: int -> int, a: Place, b: Place)
    requires pool.spacing > 0 && Matches(pool, f, a)
    requires b.liquidity == a.liquidity + NetFrom(pool, Ticks(pool), a.tick, b.tick)
    ensures Matches(pool, f, b) && f(b.tick) == b.liquidity
  {
    forall i ensures f(i) == b.liquidity + NetFrom(pool, Ticks(pool), b.tick, i) {
      NetChains(pool, Ticks(pool), a.tick, b.tick, i);
    }
    assert NetFrom(pool, Ticks(pool), b.tick, b.tick) == 0;
  }

  ghost predicate Moved(f: int -> int, p: nat, t: int, q: nat, u: int, liquidity: int)
    requires Price(p) && Price(q) && MIN_TICK <= t <= MAX_TICK && MIN_TICK <= u <= MAX_TICK
  {
    && Gain(f, false, p, t, q, u) == Traded(false, p, q, liquidity)
    && Gain(f, true, p, t, q, u) == Traded(true, p, q, liquidity)
    && Nonnegative(f, t, u)
  }

  /** A price on this side of the edge: the liquidity was the same all the way. */
  lemma MovedInside(pool: Pool, f: int -> int, zeroForOne: bool, p: nat, at: Place, next: int, q: nat, u: int)
    requires pool.spacing > 0 && Matches(pool, f, at) && Quiet(pool, Ticks(pool), at.tick, zeroForOne, next)
    requires Price(p) && Price(q) && MIN_TICK <= at.tick <= MAX_TICK && MIN_TICK <= u <= MAX_TICK
    requires if zeroForOne then next <= u <= at.tick else at.tick <= u < next
    ensures Moved(f, p, at.tick, q, u, at.liquidity)
  {
    hide Potential, NetFrom, Traded;
    assert Constant(f, if at.tick < u then at.tick else u, if at.tick < u then u else at.tick, at.liquidity);
    Flat(f, false, p, at.tick, q, u, at.liquidity);
    Flat(f, true, p, at.tick, q, u, at.liquidity);
  }

  /** The edge itself, taken to be on the far side. */
  lemma MovedToEdge(pool: Pool, f: int -> int, zeroForOne: bool, p: nat, at: Place, next: int, u: int)
    requires pool.spacing > 0 && Matches(pool, f, at) && Quiet(pool, Ticks(pool), at.tick, zeroForOne, next)
    requires Price(p) && MIN_TICK <= at.tick <= MAX_TICK && MIN_TICK < next <= MAX_TICK && f(u) >= 0
    requires if zeroForOne then next <= at.tick && u == next - 1 else at.tick < next && u == next
    ensures Moved(f, p, at.tick, Edge(next), u, at.liquidity)
  {
    hide Edge, Potential, NetFrom, Traded;
    MovedInside(pool, f, zeroForOne, p, at, next, Edge(next), if zeroForOne then next else next - 1);
    SameAtEdge(f, false, next);
    SameAtEdge(f, true, next);
  }

  /** Wherever a step arrives, the potentials have changed by what its liquidity traded. */
  lemma ArrivedMoved(pool: Pool, f: int -> int, zeroForOne: bool, start: nat, at: Place, g: Range, price: nat)
    requires pool.spacing > 0 && RangeFrom(pool, Ticks(pool), at.tick, zeroForOne, g) && Matches(pool, f, at)
    requires Consistent(start, at.tick) && Inside(start, zeroForOne) && Reaches(zeroForOne, start, price, g.target)
    requires Price(start) && Price(price) && Arrived(pool, start, at, zeroForOne, g, price).Ok?
    ensures var place := Arrived(pool, start, at, zeroForOne, g, price).value;
            && Consistent(price, place.tick) && Moved(f, start, at.tick, price, place.tick, at.liquidity)
            && Matches(pool, f, place)
  {
    hide PriceAtTick, Gain, NetFrom, Traded, Quiet, Crossed;
    var place := Arrived(pool, start, at, zeroForOne, g, price).value;
    TargetAhead(pool, Ticks(pool), start, at.tick, zeroForOne, g);
    ArrivedMeans(pool, Ticks(pool), start, at, zeroForOne, g, price);
    MatchesOn(pool, f, at, place);
    if price == g.price {
      EdgeInside(zeroForOne, g, start, price);
      MovedToEdge(pool, f, zeroForOne, start, at, g.next, place.tick);
    } else if price == start {
      StayedPut(f, start, at);
    } else {
      InsideRange(pool, Ticks(pool), start, at.tick, zeroForOne, g, price, place.tick);
      MovedInside(pool, f, zeroForOne, start, at, g.next, price, place.tick);
    }
  }

  lemma StayedPut(f: int -> int, p: nat, at: Place)
    requires Price(p) && MIN_TICK <= at.tick <= MAX_TICK && f(at.tick) == at.liquidity
    ensures Moved(f, p, at.tick, p, at.tick, at.liquidity)
  {
    hide Potential, Traded;
    NoTrade(false, p, at.liquidity);
    NoTrade(true, p, at.liquidity);
  }

  // ------------------------------------------------------------------ whole swaps

  /** From one place to another: what was taken and paid, in terms of the potentials. */
  ghost predicate Flowed(f: int -> int, zeroForOne: bool, s: State, t: State, spent: nat, out: nat)
  {
    && Price(s.price) && Price(t.price) && Consistent(s.price, s.place.tick) && Consistent(t.price, t.place.tick)
    && Flows(zeroForOne, Gain(f, false, s.price, s.place.tick, t.price, t.place.tick),
             Gain(f, true, s.price, s.place.tick, t.price, t.place.tick), spent, out)
    && Nonnegative(f, s.place.tick, t.place.tick)
  }

  lemma StepFlows(pool: Pool, zeroForOne: bool, s: State, target: u256)
    requires ValidPool(pool) && Inside(s.price, zeroForOne) && Inside(target, zeroForOne)
    requires Reaches(zeroForOne, s.price, target, target) && -TWO255 < s.remaining < TWO255
    ensures var r := SwapStep(s.price, target, s.place.liquidity, s.remaining, pool.fee);
            && r.Ok? && Price(s.price) && Price(r.value.next) && Reaches(zeroForOne, s.price, r.value.next, target)
            && Flows(zeroForOne, Traded(false, s.price, r.value.next, s.place.liquidity),
                     Traded(true, s.price, r.value.next, s.place.liquidity), r.value.amountIn, r.value.amountOut)
  {
    hide Traded, MoveIn, MoveOut;
    MaxPriceFits();
    var step := StepTowards(pool, zeroForOne, s, target);
    var l, zf1 := s.place.liquidity, s.price >= target;
    if s.remaining >= 0 {
      step := ExactInputStep(s.price, target, l, s.remaining, pool.fee);
    } else {
      step := ExactOutputStep(s.price, target, l, s.remaining, pool.fee);
    }
    if zf1 == zeroForOne {
      MoveFlows(zf1, s.price, step.next, l, step.amountOut);
    } else {
      NoMove(s.price, l);
      NoTrade(false, s.price, l);
      NoTrade(true, s.price, l);
    }
  }

  lemma IterationFlows(pool: Pool, f: int -> int, zeroForOne: bool, s: State)
    requires ValidState(pool, zeroForOne, s) && !Finished(zeroForOne, s) && Matches(pool, f, s.place)
    requires Iteration(pool, zeroForOne, s).Ok?
    ensures var (step, t) := Iteration(pool, zeroForOne, s).value;
            Flowed(f, zeroForOne, s, t, step.amountIn + step.fee, step.amountOut) && Matches(pool, f, t.place)
  {
    hide PriceAtTick, SwapStep, RangeOf, Arrived, Quiet, NetFrom, Gain, Traded;
    var ticks, g := Ticks(pool), RangeOf(pool, s.place.tick, zeroForOne);
    TickBitmap.TicksAgree(pool.words);
    RangeMeans(pool, ticks, s.place.tick, zeroForOne);
    TargetAhead(pool, ticks, s.price, s.place.tick, zeroForOne, g);
    StepFlows(pool, zeroForOne, s, g.target);
    var (step, t) := Iteration(pool, zeroForOne, s).value;
    ArrivedMoved(pool, f, zeroForOne, s.price, s.place, g, step.next);
  }

  lemma FlowedOn(f: int -> int, zeroForOne: bool, s: State, t: State, e: State, spent: nat, out: nat, rest: Outcome)
    requires Flowed(f, zeroForOne, s, t, spent, out) && Flowed(f, zeroForOne, t, e, rest.spent, rest.out)
    ensures Flowed(f, zeroForOne, s, e, spent + rest.spent, out + rest.out)
  {
    hide PriceAtTick, Potential;
  }

  lemma NotFlowed(f: int -> int, zeroForOne: bool, s: State)
    requires Price(s.price) && Consistent(s.price, s.place.tick) && f(s.place.tick) >= 0
    ensures Flowed(f, zeroForOne, s, s, 0, 0)
  {
    hide PriceAtTick, Potential;
  }

  /** A whole swap takes at least, and pays at most, what the potentials change by. */
  lemma {:induction false} SwapFlows(pool: Pool, f: int -> int, zeroForOne: bool, s: State)
    requires ValidState(pool, zeroForOne, s) && Matches(pool, f, s.place)
    ensures var o := Swap(pool, zeroForOne, s);
            Flowed(f, zeroForOne, s, o.end, o.spent, o.out) && Matches(pool, f, o.end.place)
    decreases Ahead(zeroForOne, s)
  {
    hide PriceAtTick, Iteration, Flowed, NetFrom;
    MaxPriceFits();
    if Finished(zeroForOne, s) || Iteration(pool, zeroForOne, s).Err? {
      assert f(s.place.tick) == s.place.liquidity by { MatchesHere(pool, f, s.place); }
      NotFlowed(f, zeroForOne, s);
    } else {
      var (step, t) := Iteration(pool, zeroForOne, s).value;
      NextStep(pool, zeroForOne, s);
      Progress(pool, zeroForOne, s);
      IterationFlows(pool, f, zeroForOne, s);
      SwapFlows(pool, f, zeroForOne, t);
      var rest := Swap(pool, zeroForOne, t);
      FlowedOn(f, zeroForOne, s, t, rest.end, step.amountIn + step.fee, step.amountOut, rest);
    }
  }

  lemma MatchesHere(pool: Pool, f: int -> int, place: Place)
    requires pool.spacing > 0 && Matches(pool, f, place)
    ensures f(place.tick) == place.liquidity
  {
    assert NetFrom(pool, Ticks(pool), place.tick, place.tick) == 0;
  }

  // ------------------------------------------------------------------- the return

  /** There and back on no more than was paid out: what comes back is no more than was spent. */
  lemma ThereAndBack(f: int -> int, zeroForOne: bool, s: State, there: Outcome, b: State, back: Outcome)
    requires Flowed(f, zeroForOne, s, there.end, there.spent, there.out)
    requires Flowed(f, !zeroForOne, b, back.end, back.spent, back.out)
    requires b.price == there.end.price && b.place == there.end.place && back.spent <= there.out
    ensures back.out <= there.spent
  {
    hide PriceAtTick, Potential;
    var r := back.end;
    if s.price <= r.price {
      GainTied(f, s.price, s.place.tick, r.price, r.place.tick);
    } else {
      GainTied(f, r.price, r.place.tick, s.price, s.place.tick);
    }
  }

  ghost function Liquidity(pool: Pool, place: Place): int -> int
  {
    i => if pool.spacing > 0 then place.liquidity + NetFrom(pool, Ticks(pool), place.tick, i) else 0
  }

  lemma ReturnInside(pool: Pool, zeroForOne: bool, s: State, amount: nat)
    requires ValidState(pool, zeroForOne, s) && amount <= Swap(pool, zeroForOne, s).out
    ensures var o := Swap(pool, zeroForOne, s); var b := State(amount, o.end.price, o.end.place);
            && (Finished(!zeroForOne, b) || ValidState(pool, !zeroForOne, b))
            && Swap(pool, !zeroForOne, b).out <= o.spent
  {
    hide PriceAtTick, Iteration, Flowed, NetFrom, Fair, Swap;
    var f, o := Liquidity(pool, s.place), Swap(pool, zeroForOne, s);
    var b := State(amount, o.end.price, o.end.place);
    SwapInside(pool, zeroForOne, s);
    SwapFits(pool, zeroForOne, s);
    SwapFlows(pool, f, zeroForOne, s);
    if Inside(b.price, !zeroForOne) {
      SwapInside(pool, !zeroForOne, b);
      SwapFlows(pool, f, !zeroForOne, b);
      ThereAndBack(f, zeroForOne, s, o, b, Swap(pool, !zeroForOne, b));
    } else {
      AtTheBottom(f, s, o.end, o.spent, o.out);
      NoSwap(pool, !zeroForOne, b);
    }
  }

  /** An upward swap that got nowhere pays nothing. */
  lemma AtTheBottom(f: int -> int, s: State, e: State, spent: nat, out: nat)
    requires Flowed(f, false, s, e, spent, out) && s.price == e.price == MIN_SQRT_RATIO
    ensures out == 0
  {
    hide Potential;
    PriceEndpoints();
    if s.place.tick > MIN_TICK { PriceStrict(MIN_TICK, s.place.tick); }
    if e.place.tick > MIN_TICK { PriceStrict(MIN_TICK, e.place.tick); }
  }

  lemma NoSwap(pool: Pool, zeroForOne: bool, s: State)
    requires Finished(zeroForOne, s)
    ensures Swap(pool, zeroForOne, s).out == 0
  {
  }

  /** The swaps that return more: those that turn around at the minimum price, with an amount that
      gains on the way back. */
  ghost predicate ReturnsMore(pool: Pool, zeroForOne: bool, s: State, amount: nat)
    requires ValidPool(pool)
  {
    TurnsAround(pool, zeroForOne, s) && GainsBack(pool, s.place.liquidity, amount)
  }

  /** Swap, then swap back any part of what was paid out, from where the first swap ended: however
      many ticks either crosses, it returns at most what the first one took, but for those. */
  lemma NoFreeReturn(pool: Pool, zeroForOne: bool, s: State, amount: nat)
    requires Startable(pool, zeroForOne, s) && amount <= Swap(pool, zeroForOne, s).out
    ensures var o := Swap(pool, zeroForOne, s); var b := State(amount, o.end.price, o.end.place);
            && (Finished(!zeroForOne, b) || ValidState(pool, !zeroForOne, b))
            && (Swap(pool, !zeroForOne, b).out <= o.spent <==> !ReturnsMore(pool, zeroForOne, s, amount))
  {
    hide PriceAtTick, Swap, NetFrom, GainsBack, LiftOut, LiftCost, LessFee;
    if ValidState(pool, zeroForOne, s) {
      ReturnInside(pool, zeroForOne, s, amount);
    } else {
      FloorSwap(pool, s);
      if TurnsAround(pool, zeroForOne, s) {
        SwapFits(pool, zeroForOne, s);
        BackGainsIff(pool, s.place, amount);
      } else {
        LiftOutPositive(s.place.liquidity);
        NoSwap(pool, !zeroForOne, State(amount, Swap(pool, zeroForOne, s).end.price, Swap(pool, zeroForOne, s).end.place));
      }
    }
  }
}
