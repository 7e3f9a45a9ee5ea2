/** What holds across swap steps: a step never beats the price, larger inputs go further, and
    swapping back never gains. */
module SwapLaws {
  import opened Arithmetic
  import opened Words
  import opened SqrtPriceMath
  import opened SwapMath

  const TWO192: nat := TWO96 * TWO96

  // ------------------------------------------------------------- price bound

  /** The exchange rate of a move lies on the trader's losing side of the geometric mean price
      cur * next / 2^192. */
  lemma MoveNeverBeatsPrice(zeroForOne: bool, cur: nat, next: nat, liquidity: u128)
    requires Toward(zeroForOne, cur, next)
    ensures var amountIn, amountOut := MoveIn(zeroForOne, cur, next, liquidity), MoveOut(zeroForOne, cur, next, liquidity);
            if zeroForOne then amountOut * TWO192 <= amountIn * (cur * next)
            else amountOut * (next * cur) <= amountIn * TWO192
  {
    var amountIn, amountOut := MoveIn(zeroForOne, cur, next, liquidity), MoveOut(zeroForOne, cur, next, liquidity);
    var n := Shift96(liquidity);
    if zeroForOne {
      Exact0Bounds(next, cur, n, amountIn);
      Exact1Bounds(next, cur, liquidity, amountOut);
      Lift(liquidity, n, cur, next);
    } else {
      Exact1Bounds(cur, next, liquidity, amountIn);
      Exact0Bounds(cur, next, n, amountOut);
      Lift(liquidity, n, next, cur);
    }
  }

  lemma Lift(liquidity: nat, n: nat, hi: nat, lo: nat)
    requires n == liquidity * TWO96
    ensures n * hi - n * lo == (liquidity * (hi - lo)) * TWO96
  {
    assert n * hi == (liquidity * hi) * TWO96 && n * lo == (liquidity * lo) * TWO96;
  }

  /** Every valid step, in both directions and for both kinds of request, is at or below the price
      in the trader's favour. */
  lemma StepNeverBeatsPrice(cur: u256, target: u256, liquidity: u128, remaining: int, feePips: nat)
    requires ValidStep(cur, target, remaining, feePips)
    ensures SwapStep(cur, target, liquidity, remaining, feePips).Ok?
    ensures var s := SwapStep(cur, target, liquidity, remaining, feePips).value;
            if cur >= target then s.amountOut * TWO192 <= s.amountIn * (cur * s.next)
            else s.amountOut * (s.next * cur) <= s.amountIn * TWO192
  {
    hide MoveIn, MoveOut, SwapStep;
    var s;
    if remaining >= 0 {
      s := ExactInputStep(cur, target, liquidity, remaining, feePips);
    } else {
      s := ExactOutputStep(cur, target, liquidity, remaining, feePips);
    }
    var zf1 := cur >= target;
    MoveNeverBeatsPrice(zf1, cur, s.next, liquidity);
    Capped(zf1, cur, s.next, s.amountIn, MoveOut(zf1, cur, s.next, liquidity), s.amountOut);
  }

  /** Paying out less than the whole move keeps the bound. */
  lemma Capped(zeroForOne: bool, cur: nat, next: nat, amountIn: nat, most: nat, out: nat)
    requires out <= most
    requires if zeroForOne then most * TWO192 <= amountIn * (cur * next) else most * (next * cur) <= amountIn * TWO192
    ensures if zeroForOne then out * TWO192 <= amountIn * (cur * next) else out * (next * cur) <= amountIn * TWO192
  {
    MulLe(0, next, cur);
    MulLe(out, most, next * cur);
  }

  // ------------------------------------------------------------- monotonicity

  lemma LessFeeMono(a: nat, b: nat, feePips: nat)
    requires a <= b && feePips < MILLION
    ensures LessFee(a, feePips) <= LessFee(b, feePips)
  {
    MulLe(a, b, MILLION - feePips);
    DivMono(a * (MILLION - feePips), b * (MILLION - feePips), MILLION);
  }

  /** More token0 lowers the price at least as far, also across the switch to the coarser quotient. */
  lemma LoweredAntitone(price: nat, n: nat, x: nat, y: nat)
    requires price > 0 && n > 0 && x <= y
    ensures Lowered(price, n, y) <= Lowered(price, n, x)
  {
    LoweredBounds(price, n, y);
    if 0 < x < y {
      MulLe(x, y, price);
      MulPositive(x, price);
      MulPositive(n, price);
      CeilBounds(n, price);
      if n + y * price < TWO256 {
        CeilAntitone(n * price, n + x * price, n + y * price);
      } else if n + x * price >= TWO256 {
        CeilAntitone(n, n / price + x, n / price + y);
      } else {
        AcrossTheSwitch(price, n, x, y, n / price, Lowered(price, n, x), n + x * price);
      }
    }
  }

  lemma CeilAntitone(a: nat, d: nat, e: nat)
    requires 0 < d <= e
    ensures CeilDiv(a, e) <= CeilDiv(a, d)
  {
    MulLe(d, e, CeilDiv(a, d));
    CeilLe(a, e, CeilDiv(a, d));
  }

  lemma AcrossTheSwitch(price: nat, n: nat, x: nat, y: nat, f: nat, q: nat, d: nat)
    requires price > 0 && x < y && f == n / price && d == n + x * price && n * price <= q * d
    ensures CeilDiv(n, f + y) <= q
  {
    DivBounds(n, price);
    OneMoreUnit(price, n, x, y, f);
    MulLe(d, (f + y) * price, q);
    Regroup(q, f + y, price);
    CancelLe(n, q * (f + y), price);
    CeilLe(n, f + y, q);
  }

  lemma OneMoreUnit(price: nat, n: nat, x: nat, y: nat, f: nat)
    requires x < y && n < f * price + price
    ensures n + x * price <= (f + y) * price
  {
    MulLe(x + 1, y, price);
    assert (x + 1) * price == x * price + price && (f + y) * price == f * price + y * price;
  }

  lemma PartialMono(zeroForOne: bool, cur: nat, liquidity: u128, x: nat, y: nat)
    requires cur > 0 && liquidity > 0 && x <= y
    ensures if zeroForOne then Partial(zeroForOne, cur, liquidity, y) <= Partial(zeroForOne, cur, liquidity, x)
            else Partial(zeroForOne, cur, liquidity, x) <= Partial(zeroForOne, cur, liquidity, y)
  {
    if zeroForOne {
      LoweredAntitone(cur, Shift96(liquidity), x, y);
    } else {
      DivMono(x * TWO96, y * TWO96, liquidity);
    }
  }

  /** A longer move pays at least as much. */
  lemma MoveOutMono(zeroForOne: bool, cur: nat, near: nat, far: nat, liquidity: u128)
    requires Toward(zeroForOne, cur, near) && Toward(zeroForOne, cur, far) && Between(zeroForOne, cur, near, far)
    ensures MoveOut(zeroForOne, cur, near, liquidity) <= MoveOut(zeroForOne, cur, far, liquidity)
  {
    if zeroForOne {
      MulLe(cur - near, cur - far, liquidity);
      DivMono(liquidity * (cur - near), liquidity * (cur - far), TWO96);
    } else {
      Exact0Mono(cur, near, far, Shift96(liquidity));
    }
  }

  lemma Exact0Mono(lo: nat, hi: nat, far: nat, n: nat)
    requires 0 < lo <= hi <= far
    ensures Exact0(lo, hi, n, false) <= Exact0(lo, far, n, false)
  {
    var x := Exact0(lo, hi, n, false);
    Exact0Bounds(lo, hi, n, x);
    Exact0Bounds(lo, far, n, x);
    StillPaid(lo, hi, far, n, x);
  }

  lemma StillPaid(lo: nat, hi: nat, far: nat, n: nat, x: nat)
    requires 0 < lo <= hi <= far && n * lo + x * (hi * lo) <= n * hi
    ensures n * lo + x * (far * lo) <= n * far
  {
    var c := x * lo;
    assert x * (hi * lo) == c * hi && x * (far * lo) == c * far;
    assert c <= n by {
      MulLe(0, n, lo);
      CancelLe(c, n, hi);
    }
    MulLe(hi, far, n - c);
    assert (n - c) * hi == n * hi - c * hi && (n - c) * far == n * far - c * far;
  }

  /** A larger input moves the price at least as far towards the target and pays at least as much. */
  lemma ExactInputMono(cur: u256, target: u256, liquidity: u128, small: nat, large: nat, feePips: nat)
    requires ValidStep(cur, target, small, feePips) && ValidStep(cur, target, large, feePips) && small <= large
    ensures SwapStep(cur, target, liquidity, small, feePips).Ok?
    ensures SwapStep(cur, target, liquidity, large, feePips).Ok?
    ensures var s := SwapStep(cur, target, liquidity, small, feePips).value;
            var t := SwapStep(cur, target, liquidity, large, feePips).value;
            Between(cur >= target, cur, s.next, t.next) && s.amountOut <= t.amountOut
  {
    var s := ExactInputStep(cur, target, liquidity, small, feePips);
    var t := ExactInputStep(cur, target, liquidity, large, feePips);
    LessFeeMono(small, large, feePips);
    if t.next != target {
      PartialMono(cur >= target, cur, liquidity, LessFee(small, feePips), LessFee(large, feePips));
    }
    MoveOutMono(cur >= target, cur, s.next, t.next, liquidity);
  }

  /** A longer move costs at least as much. */
  lemma MoveInMono(zeroForOne: bool, cur: nat, near: nat, far: nat, liquidity: u128)
    requires Toward(zeroForOne, cur, near) && Toward(zeroForOne, cur, far) && Between(zeroForOne, cur, near, far)
    ensures MoveIn(zeroForOne, cur, near, liquidity) <= MoveIn(zeroForOne, cur, far, liquidity)
  {
    var x := MoveIn(zeroForOne, cur, far, liquidity);
    if zeroForOne {
      var n := Shift96(liquidity);
      Exact0Bounds(far, cur, n, x);
      Exact0Bounds(near, cur, n, x);
      CoversBelow(n, x, cur, far, near);
    } else {
      Exact1Bounds(cur, far, liquidity, x);
      Exact1Bounds(cur, near, liquidity, x);
      MulLe(near - cur, far - cur, liquidity);
    }
  }

  /** An amount with the fee on top of it. */
  function WithFee(amountIn: nat, feePips: nat): nat
    requires feePips < MILLION
  {
    MulLe(0, amountIn, feePips);
    CeilBounds(amountIn * feePips, MILLION - feePips);
    amountIn + CeilDiv(amountIn * feePips, MILLION - feePips)
  }

  lemma WithFeeMono(a: nat, b: nat, feePips: nat)
    requires a <= b && feePips < MILLION
    ensures WithFee(a, feePips) <= WithFee(b, feePips)
  {
    hide CeilDiv;
    MulLe(0, a, feePips);
    MulLe(a, b, feePips);
    CeilMono(a * feePips, b * feePips, MILLION - feePips);
  }

  lemma CeilMono(x: nat, y: nat, d: nat)
    requires x <= y && d > 0
    ensures CeilDiv(x, d) <= CeilDiv(y, d)
  {
    hide CeilDiv;
    CeilLe(y, d, CeilDiv(y, d));
    CeilLe(x, d, CeilDiv(y, d));
  }

  /** A larger output moves the price at least as far towards the target and costs at least as much. */
  lemma ExactOutputMono(cur: u256, target: u256, liquidity: u128, small: int, large: int, feePips: nat)
    requires ValidStep(cur, target, small, feePips) && ValidStep(cur, target, large, feePips) && large <= small < 0
    ensures SwapStep(cur, target, liquidity, small, feePips).Ok?
    ensures SwapStep(cur, target, liquidity, large, feePips).Ok?
    ensures var s := SwapStep(cur, target, liquidity, small, feePips).value;
            var t := SwapStep(cur, target, liquidity, large, feePips).value;
            && Between(cur >= target, cur, s.next, t.next) && s.amountIn + s.fee <= t.amountIn + t.fee
            && (s == t || s.amountOut == 0 - small)
  {
    hide MoveIn, MoveOut, SwapStep, CeilDiv, PricedOutput;
    var zf1 := cur >= target;
    var s := ExactOutputStep(cur, target, liquidity, small, feePips);
    var t := ExactOutputStep(cur, target, liquidity, large, feePips);
    if t.next != target {
      OutputIsNearest(zf1, cur, target, liquidity, 0 - small, s.next, t.next);
    }
    MoveInMono(zf1, cur, s.next, t.next, liquidity);
    WithFeeMono(s.amountIn, t.amountIn, feePips);
  }

  // ------------------------------------------------------- the input an output costs

  /** Adding token0 is priced by the exact quotient, not the coarse one. */
  predicate ExactPath(zeroForOne: bool, cur: nat, liquidity: u128, amount: nat)
  {
    zeroForOne ==> Shift96(liquidity) + amount * cur < TWO256
  }

  /** An input that covers a move with the fee covers it less the fee. */
  lemma FeeLeaves(amountIn: nat, remaining: nat, feePips: nat)
    requires feePips < MILLION && WithFee(amountIn, feePips) <= remaining
    ensures amountIn <= LessFee(remaining, feePips)
  {
    hide LessFee, CeilDiv;
    MulLe(0, amountIn, feePips);
    CeilBounds(amountIn * feePips, MILLION - feePips);
    CeilLe(amountIn * feePips, MILLION - feePips, remaining - amountIn);
    Leftover(amountIn, remaining, feePips, MILLION - feePips);
    LessFeeAtLeast(remaining, feePips, amountIn);
  }

  lemma LessFeeAtLeast(remaining: nat, feePips: nat, x: nat)
    requires feePips < MILLION && x * MILLION <= remaining * (MILLION - feePips)
    ensures x <= LessFee(remaining, feePips)
  {
    FloorAtLeast(remaining * (MILLION - feePips), MILLION, x);
  }

  lemma FloorAtLeast(a: int, d: int, q: int)
    requires d > 0 && q * d <= a
    ensures q <= a / d
  {
    DivLe(a, d, q - 1);
    assert (q - 1) * d + d == q * d;
  }

  lemma Leftover(amountIn: nat, remaining: nat, fee: nat, d: nat)
    requires d == MILLION - fee && amountIn * fee <= (remaining - amountIn) * d
    ensures amountIn * MILLION <= remaining * d
  {
    assert (remaining - amountIn) * d == remaining * d - amountIn * d;
    assert amountIn * d == amountIn * MILLION - amountIn * fee;
  }

  /** An input that covers a move goes at least as far. */
  lemma PartialReaches(zeroForOne: bool, cur: nat, liquidity: u128, amount: nat, y: nat)
    requires Toward(zeroForOne, cur, y) && liquidity > 0 && MoveIn(zeroForOne, cur, y, liquidity) <= amount
    requires ExactPath(zeroForOne, cur, liquidity, amount)
    ensures Between(zeroForOne, cur, y, Partial(zeroForOne, cur, liquidity, amount))
  {
    if zeroForOne {
      MulLe(0, amount, cur);
      LoweredIsLeast(cur, Shift96(liquidity), amount, y);
    } else {
      Exact1Bounds(cur, y, liquidity, amount);
      DivLe(amount * TWO96, liquidity, y - cur - 1);
      Commute(liquidity, y - cur);
    }
  }

  /** Putting in what an output costs pays at least that output: the same step if it reached its
      target, and one that goes at least as far if it did not. */
  lemma CostBuysOutput(cur: u256, target: u256, liquidity: u128, request: int, remaining: nat, feePips: nat)
    requires ValidStep(cur, target, request, feePips) && request < 0 && ValidStep(cur, target, remaining, feePips)
    requires SwapStep(cur, target, liquidity, request, feePips).Ok? ==>
               var s := SwapStep(cur, target, liquidity, request, feePips).value; s.amountIn + s.fee <= remaining
    requires cur <= 64 * target
    ensures SwapStep(cur, target, liquidity, request, feePips).Ok?
    ensures SwapStep(cur, target, liquidity, remaining, feePips).Ok?
    ensures var s := SwapStep(cur, target, liquidity, request, feePips).value;
            var t := SwapStep(cur, target, liquidity, remaining, feePips).value;
            && Between(cur >= target, cur, s.next, t.next) && s.amountOut <= t.amountOut
            && (s == t || s.amountOut == 0 - request)
  {
    hide MoveIn, MoveOut, SwapStep, CeilDiv, PricedOutput, LessFee, Partial, ExactPath;
    var zf1 := cur >= target;
    var s := ExactOutputStep(cur, target, liquidity, request, feePips);
    var t := ExactInputStep(cur, target, liquidity, remaining, feePips);
    FeeLeaves(s.amountIn, remaining, feePips);
    if t.next != target {
      ShortIsExact(zf1, cur, target, liquidity, LessFee(remaining, feePips));
      PartialReaches(zf1, cur, liquidity, LessFee(remaining, feePips), s.next);
    }
    MoveOutMono(zf1, cur, s.next, t.next, liquidity);
  }

  /** An input that stops short of a target not far below is on the exact path. */
  lemma ShortIsExact(zeroForOne: bool, cur: nat, target: nat, liquidity: u128, amount: nat)
    requires Toward(zeroForOne, cur, target) && amount < MoveIn(zeroForOne, cur, target, liquidity)
    requires cur <= 64 * target
    ensures ExactPath(zeroForOne, cur, liquidity, amount)
  {
    if zeroForOne {
      var n := Shift96(liquidity);
      Exact0Bounds(target, cur, n, amount);
      ShortProduct(n, amount, cur, target);
      SmallShift(liquidity);
    }
  }

  lemma ShortProduct(n: nat, x: nat, cur: nat, target: nat)
    requires target > 0 && n * target + x * (cur * target) < n * cur && cur <= 64 * target
    ensures x * cur < 64 * n
  {
    Regroup(x, cur, target);
    MulLe(0, n, target);
    MulLe(cur, 64 * target, n);
    assert n * (64 * target) == (64 * n) * target;
    CancelLt(x * cur, 64 * n, target);
  }

  lemma SmallShift(liquidity: u128)
    ensures 65 * Shift96(liquidity) < TWO256
  {
    hide Pow2;
    SmallPowers();
    ShiftBound(liquidity, 128, 96);
    Pow2Add(32, 224);
  }

  // ----------------------------------------------------------- no free round trip

  lemma MoveOutBelow255(zeroForOne: bool, cur: nat, next: nat, liquidity: u128)
    requires Toward(zeroForOne, cur, next)
    ensures MoveOut(zeroForOne, cur, next, liquidity) < TWO255
  {
    if zeroForOne {
      Move1Fits(liquidity, cur - next);
      DivLe(liquidity * (cur - next), TWO96, TWO160 * 0x1_0000_0000);
      Small255();
    } else {
      FloorBelowCeil0(cur, next, Shift96(liquidity));
      AtMostReserve(cur, next, Shift96(liquidity));
      ShiftBelow255(liquidity);
    }
  }

  lemma Small255()
    ensures TWO160 * 0x1_0000_0000 < TWO255
  {
    SmallPowers();
    Pow2Product(160, 32, TWO160, 0x1_0000_0000);
    Pow2Strict(192, 255);
  }

  lemma FloorBelowCeil0(lo: nat, hi: nat, n: nat)
    requires 0 < lo <= hi
    ensures Exact0(lo, hi, n, false) <= Exact0(lo, hi, n, true)
  {
    Spread0(lo, hi, n);
    CeilNotBelowFloor(n * (hi - lo), hi * lo);
  }

  lemma FloorBelowCeil1(lo: nat, hi: nat, liquidity: nat)
    requires lo <= hi
    ensures Exact1(lo, hi, liquidity, false) <= Exact1(lo, hi, liquidity, true)
  {
    MulLe(0, liquidity, hi - lo);
    CeilNotBelowFloor(liquidity * (hi - lo), TWO96);
  }

  /** A move back that costs no more than the first move paid cannot pass the first start. */
  lemma ReturnStops(zeroForOne: bool, cur: nat, q: nat, r: nat, liquidity: u128)
    requires liquidity > 0 && Toward(zeroForOne, cur, q) && Toward(!zeroForOne, q, r)
    requires MoveIn(!zeroForOne, q, r, liquidity) <= MoveOut(zeroForOne, cur, q, liquidity)
    ensures Between(!zeroForOne, q, r, cur)
  {
    var x := MoveOut(zeroForOne, cur, q, liquidity);
    if zeroForOne {
      Exact1Bounds(q, r, liquidity, x);
      Exact1Bounds(q, cur, liquidity, x);
      Commute(liquidity, r - q);
      Commute(liquidity, cur - q);
      CancelLe(r - q, cur - q, liquidity);
    } else {
      var n := Shift96(liquidity);
      Exact0Bounds(r, q, n, x);
      Exact0Bounds(cur, q, n, x);
      if r < cur { StrictlyCheaper(n, x, q, r, cur); }
    }
  }

  lemma StrictlyCheaper(n: nat, x: nat, q: nat, r: nat, cur: nat)
    requires n > 0 && r < cur
    ensures n * r + x * (q * r) < n * cur + x * (q * cur)
  {
    MulLt(r, cur, n);
    MulLe(r, cur, q);
    MulLe(q * r, q * cur, x);
  }

  /** What a move back within the first move pays is at most what the first move cost. */
  lemma ReturnPaysLess(zeroForOne: bool, cur: nat, q: nat, r: nat, liquidity: u128)
    requires Toward(zeroForOne, cur, q) && Toward(!zeroForOne, q, r)
    requires liquidity > 0 ==> Between(!zeroForOne, q, r, cur)
    ensures MoveOut(!zeroForOne, q, r, liquidity) <= MoveIn(zeroForOne, cur, q, liquidity)
  {
    if liquidity > 0 {
      MoveOutMono(!zeroForOne, q, r, cur, liquidity);
      if zeroForOne { FloorBelowCeil0(q, cur, Shift96(liquidity)); } else { FloorBelowCeil1(cur, q, liquidity); }
    } else {
      NoLiquidityNoOutput(!zeroForOne, q, r, liquidity);
    }
  }

  lemma NoLiquidityNoOutput(zeroForOne: bool, cur: nat, next: nat, liquidity: u128)
    requires Toward(zeroForOne, cur, next) && liquidity == 0
    ensures MoveOut(zeroForOne, cur, next, liquidity) == 0
  {
    if zeroForOne {
      assert liquidity * (cur - next) == 0;
    } else {
      FloorBelowCeil0(cur, next, 0);
      AtMostReserve(cur, next, 0);
    }
  }

  /** No free round trip. After any step from `cur`, feed the whole output back as the input of a
      step in the other direction, at any fee and any target: it returns at most what the first
      step took in. Its price does not pass `cur` exactly when there is liquidity, or the second
      target itself does not. */
  lemma NoFreeRoundTrip(cur: u256, target: u256, liquidity: u128, remaining: int, feePips: nat,
                        back: u256, backFee: nat)
    requires ValidStep(cur, target, remaining, feePips)
    requires 0 < back < TWO160 && backFee < MILLION
    requires SwapStep(cur, target, liquidity, remaining, feePips).Ok?
    requires var q := SwapStep(cur, target, liquidity, remaining, feePips).value.next;
             if cur >= target then q < back else back <= q
    ensures var s := SwapStep(cur, target, liquidity, remaining, feePips).value;
            && s.amountOut < TWO255
            && SwapStep(s.next, back, liquidity, s.amountOut, backFee).Ok?
            && var t := SwapStep(s.next, back, liquidity, s.amountOut, backFee).value;
               && t.amountOut <= s.amountIn
               && (Between(cur < target, s.next, t.next, cur) <==>
                   liquidity > 0 || Between(cur < target, s.next, back, cur))
  {
    var zf1 := cur >= target;
    var s;
    if remaining >= 0 {
      s := ExactInputStep(cur, target, liquidity, remaining, feePips);
    } else {
      s := ExactOutputStep(cur, target, liquidity, remaining, feePips);
    }
    MoveOutBelow255(zf1, cur, s.next, liquidity);
    var t := ExactInputStep(s.next, back, liquidity, s.amountOut, backFee);
    LessFeeLe(s.amountOut, backFee);
    if liquidity > 0 {
      ReturnStops(zf1, cur, s.next, t.next, liquidity);
    }
    ReturnPaysLess(zf1, cur, s.next, t.next, liquidity);
  }

  /** Without liquidity a step back for nothing goes all the way to its target, past the start. */
  lemma EmptyRangePasses()
    ensures SwapStep(2, 1, 0, 1, 0).Ok? && SwapStep(2, 1, 0, 1, 0).value.next == 1
    ensures SwapStep(2, 1, 0, 1, 0).value.amountOut == 0
    ensures SwapStep(1, 3, 0, 0, 0).Ok? && SwapStep(1, 3, 0, 0, 0).value.next == 3
  {
    hide SwapStep;
    SmallPowers();
    Pow2Strict(1, 255);
    NothingMoves(2, 1);
    NothingMoves(1, 3);
    var s := ExactInputStep(2, 1, 0, 1, 0);
    var t := ExactInputStep(1, 3, 0, 0, 0);
  }

  lemma NothingMoves(cur: u256, next: u256)
    requires 0 < cur < TWO160 && 0 < next < TWO160
    ensures MoveIn(cur >= next, cur, next, 0) == 0 == MoveOut(cur >= next, cur, next, 0)
  {
    var lo, hi := if cur >= next then next else cur, if cur >= next then cur else next;
    Exact0Bounds(lo, hi, 0, 0);
    Exact1Bounds(lo, hi, 0, 0);
    FloorBelowCeil0(lo, hi, 0);
    FloorBelowCeil1(lo, hi, 0);
  }
}
