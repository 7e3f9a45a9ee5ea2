/** `sqrt_price_math.rs`: token amounts between two prices, and the price reached by an amount.
    Prices are square roots in Q64.96 fixed point. */
module SqrtPriceMath {
  import opened Arithmetic
  import opened Words
  import opened FullMath

  // ------------------------------------------------------- exact amounts

  /** Token0 between two prices, before any word is involved: n * (hi - lo) / (hi * lo), where
      n is the liquidity shifted left by 96. */
  function Exact0(lo: nat, hi: nat, n: nat, up: bool): nat
    requires 0 < lo <= hi
  {
    Spread0(lo, hi, n);
    if up then CeilDiv(n * (hi - lo), hi * lo) else n * (hi - lo) / (hi * lo)
  }

  /** Token1 between two prices: liquidity * (hi - lo) / 2^96. */
  function Exact1(lo: nat, hi: nat, liquidity: nat, up: bool): nat
    requires lo <= hi
  {
    MulLe(0, liquidity, hi - lo);
    CeilBounds(liquidity * (hi - lo), TWO96);
    if up then CeilDiv(liquidity * (hi - lo), TWO96) else liquidity * (hi - lo) / TWO96
  }

  lemma Spread0(lo: nat, hi: nat, n: nat)
    requires 0 < lo <= hi
    ensures hi * lo > 0 && n * (hi - lo) >= 0
    ensures n * (hi - lo) / (hi * lo) >= 0
    ensures n * (hi - lo) == n * hi - n * lo
  {
    MulPositive(hi, lo);
    MulLe(0, n, hi - lo);
    CeilBounds(n * (hi - lo), hi * lo);
  }

  /** How much token0 covers the move, and how much the move pays out, as cross products. */
  lemma Exact0Bounds(lo: nat, hi: nat, n: nat, x: nat)
    requires 0 < lo <= hi
    ensures Exact0(lo, hi, n, true) <= x <==> n * hi <= n * lo + x * (hi * lo)
    ensures x <= Exact0(lo, hi, n, false) <==> n * lo + x * (hi * lo) <= n * hi
  {
    Spread0(lo, hi, n);
    CeilLe(n * (hi - lo), hi * lo, x);
    DivLe(n * (hi - lo), hi * lo, x);
  }

  lemma Exact1Bounds(lo: nat, hi: nat, liquidity: nat, x: nat)
    requires lo <= hi
    ensures Exact1(lo, hi, liquidity, true) <= x <==> liquidity * (hi - lo) <= x * TWO96
    ensures x <= Exact1(lo, hi, liquidity, false) <==> x * TWO96 <= liquidity * (hi - lo)
  {
    MulLe(0, liquidity, hi - lo);
    CeilLe(liquidity * (hi - lo), TWO96, x);
    DivLe(liquidity * (hi - lo), TWO96, x);
  }

  // ---------------------------------------------------- the word functions

  /** `U256::from(liquidity) << 96`. */
  function Shift96(liquidity: u128): (n: u256)
    ensures n == liquidity * TWO96
  {
    ShiftFits(liquidity);
    liquidity * TWO96
  }

  lemma ShiftFits(liquidity: u128)
    ensures 0 <= liquidity * TWO96 < TWO256
  {
    ShiftsFit();
  }

  /** `_get_amount_0_delta`. */
  function Amount0Delta(a: u256, b: u256, liquidity: u128, up: bool): Result<u256>
  {
    var lo, hi := if a > b then b else a, if a > b then a else b;
    var n1 := Shift96(liquidity);
    if lo == 0 then Err(SqrtPriceIsZero)
    else DivideTwice(Product(n1, hi - lo), hi, lo, up)
  }

  /** Divide by the higher price, then by the lower one, rounding the same way both times. */
  function DivideTwice(p: nat, hi: u256, lo: u256, up: bool): Result<u256>
    requires lo > 0
  {
    if up then
      var partial :- CeilWord(p, hi);
      DivRoundingUp(partial, lo)
    else
      var partial :- FloorWord(p, hi);
      WordQuotient(partial, lo);
      Ok(partial / lo)
  }

  lemma WordQuotient(a: u256, b: u256)
    requires b > 0
    ensures 0 <= a / b < TWO256
  {
    CeilBounds(a, b);
    MulLe(1, b, a / b);
  }

  /** `_get_amount_1_delta`. */
  function Amount1Delta(a: u256, b: u256, liquidity: u128, up: bool): Result<u256>
  {
    ShiftsFit();
    var lo, hi := if a > b then b else a, if a > b then a else b;
    if up then CeilMulDiv(liquidity, hi - lo, TWO96) else FloorMulDiv(liquidity, hi - lo, TWO96)
  }

  /** `get_next_sqrt_price_from_amount_0_rounding_up`. */
  function NextPriceAmount0(price: u256, liquidity: u128, amount: u256, add: bool): Result<u256>
  {
    if amount == 0 then Ok(price)
    else
      var n1 := Shift96(liquidity);
      var product := WrapMul(amount, price);
      if add then
        if product / amount == price && WrapAdd(n1, product) >= n1 then
          CeilMulDiv(n1, price, WrapAdd(n1, product))
        else if price == 0 then
          Err(DivisionByZero)
        else
          DivRoundingUp(n1, WrapAdd(n1 / price, amount))
      else if product / amount == price && n1 > product then
        CeilMulDiv(n1, price, WrapSub(n1, product))
      else
        Err(ProductDivAmount)
  }

  /** `get_next_sqrt_price_from_amount_1_rounding_down`. */
  function NextPriceAmount1(price: u256, liquidity: u128, amount: u256, add: bool): Result<u256>
  {
    ShiftsFit();
    if add then
      var quotient :- Quotient1(liquidity, amount, false);
      var next := WrapAdd(price, quotient);
      if next >= TWO160 then Err(SafeCastToU160Overflow) else Ok(next)
    else
      var quotient :- Quotient1(liquidity, amount, true);
      if price <= quotient then Err(SqrtPriceIsLteQuotient) else Ok(price - quotient)
  }

  /** The price move of an amount of token1: a plain shift and division while the shift fits a
      word, the 512-bit division beyond. */
  function Quotient1(liquidity: u128, amount: u256, up: bool): Result<u256>
  {
    ShiftsFit();
    if amount < TWO160 then
      if up then DivRoundingUp(amount * TWO96, liquidity)
      else if liquidity == 0 then Err(DivisionByZero)
      else
        WordQuotient(amount * TWO96, liquidity);
        Ok(amount * TWO96 / liquidity)
    else if up then CeilMulDiv(amount, TWO96, liquidity)
    else FloorMulDiv(amount, TWO96, liquidity)
  }

  /** `get_next_sqrt_price_from_input`. */
  function NextPriceFromInput(price: u256, liquidity: u128, amountIn: u256, zeroForOne: bool): Result<u256>
  {
    if price == 0 then Err(SqrtPriceIsZero)
    else if liquidity == 0 then Err(LiquidityIsZero)
    else if zeroForOne then NextPriceAmount0(price, liquidity, amountIn, true)
    else NextPriceAmount1(price, liquidity, amountIn, true)
  }

  /** `get_next_sqrt_price_from_output`. */
  function NextPriceFromOutput(price: u256, liquidity: u128, amountOut: u256, zeroForOne: bool): Result<u256>
  {
    if price == 0 then Err(SqrtPriceIsZero)
    else if liquidity == 0 then Err(LiquidityIsZero)
    else if zeroForOne then NextPriceAmount1(price, liquidity, amountOut, false)
    else NextPriceAmount0(price, liquidity, amountOut, false)
  }

  /** The source refuses a zero price before a zero liquidity; a token0 amount needs both prices. */
  lemma Refusals(price: u256, liquidity: u128, amount: u256, zeroForOne: bool, up: bool)
    ensures price == 0 ==>
              && NextPriceFromInput(price, liquidity, amount, zeroForOne) == Err(SqrtPriceIsZero)
              && NextPriceFromOutput(price, liquidity, amount, zeroForOne) == Err(SqrtPriceIsZero)
              && Amount0Delta(price, amount, liquidity, up) == Err(SqrtPriceIsZero)
              && Amount0Delta(amount, price, liquidity, up) == Err(SqrtPriceIsZero)
    ensures price > 0 && liquidity == 0 ==>
              && NextPriceFromInput(price, liquidity, amount, zeroForOne) == Err(LiquidityIsZero)
              && NextPriceFromOutput(price, liquidity, amount, zeroForOne) == Err(LiquidityIsZero)
  {
  }

  // ------------------------------------------- the words compute the exact amounts

  /** `_get_amount_0_delta` is the exact amount with a single rounding, although it rounds twice. */
  lemma Amount0IsExact(a: u256, b: u256, liquidity: u128, up: bool)
    requires 0 < a <= b
    ensures Exact0(a, b, Shift96(liquidity), up) < TWO256
    ensures Amount0Delta(a, b, liquidity, up) == Ok(Exact0(a, b, Shift96(liquidity), up))
    ensures Amount0Delta(b, a, liquidity, up) == Amount0Delta(a, b, liquidity, up)
  {
    var n := Shift96(liquidity);
    MulLe(b - a, b, n);
    MulPositive(b, a);
    TwiceIsOnce(Product(n, b - a), b, a, b * a, n, up);
  }

  lemma TwiceIsOnce(p: nat, hi: u256, lo: u256, both: nat, n: u256, up: bool)
    requires 0 < lo <= hi && both == hi * lo > 0 && p <= n * hi
    ensures DivideTwice(p, hi, lo, up).Ok?
    ensures DivideTwice(p, hi, lo, up).value == if up then CeilDiv(p, both) else p / both
  {
    CeilNotBelowFloor(p, hi);
    CeilLe(p, hi, n);
    CeilCeil(p, hi, lo);
    FloorFloor(p, hi, lo);
  }

  /** `_get_amount_1_delta` is the exact amount, or an error if that does not fit a word, which
      prices below 2^160 cannot bring about. */
  lemma Amount1IsExact(a: u256, b: u256, liquidity: u128, up: bool)
    requires a <= b
    ensures Amount1Delta(a, b, liquidity, up).Ok? <==> Exact1(a, b, liquidity, up) < TWO256
    ensures Amount1Delta(a, b, liquidity, up).Ok? ==>
              Amount1Delta(a, b, liquidity, up).value == Exact1(a, b, liquidity, up)
    ensures Amount1Delta(b, a, liquidity, up) == Amount1Delta(a, b, liquidity, up)
    ensures b < TWO160 ==> Amount1Delta(a, b, liquidity, up).Ok?
  {
    ShiftsFit();
    var p := Product(liquidity, b - a);
    CeilNotBelowFloor(p, TWO96);
    if b < TWO160 {
      Move1Fits(liquidity, b - a);
      RoundingFits(p, TWO96, TWO160 * 0x1_0000_0000);
    }
  }

  lemma RoundingFits(p: nat, d: u256, q: u256)
    requires d > 0 && p <= q * d
    ensures FloorWord(p, d).Ok? && FloorWord(p, d).value == p / d
    ensures CeilWord(p, d).Ok? && CeilWord(p, d).value == CeilDiv(p, d)
  {
    CeilNotBelowFloor(p, d);
    CeilLe(p, d, q);
  }

  lemma CeilNotBelowFloor(p: nat, d: nat)
    requires d > 0
    ensures 0 <= p / d <= CeilDiv(p, d)
  {
    CeilBounds(p, d);
  }

  lemma Move1Fits(liquidity: u128, move: nat)
    requires move < TWO160
    ensures 0 <= liquidity * move <= TWO160 * TWO128
  {
    MulLeMul(liquidity, TWO128, move, TWO160);
    MulLe(0, liquidity, move);
  }

  // ----------------------------------------------- the next price from token0

  lemma ProductCheck(amount: u256, price: u256)
    requires amount > 0
    ensures WrapMul(amount, price) / amount == price <==> amount * price < TWO256
    ensures amount * price < TWO256 ==> WrapMul(amount, price) == amount * price
  {
    MulLe(0, price, amount);
    if amount * price < TWO256 {
      ModSmall(amount * price, TWO256);
      DivIs(amount * price, amount, price);
    } else {
      DivLe(WrapMul(amount, price), amount, price);
    }
  }

  lemma SumCheck(n: u256, x: u256)
    ensures WrapAdd(n, x) >= n <==> n + x < TWO256
    ensures n + x < TWO256 ==> WrapAdd(n, x) == n + x
  {
    WrapNear(n + x);
  }

  /** The price after adding `amount` of token0, as integers: one exact rounding when the
      denominator fits a word, a coarser quotient beyond. */
  function Lowered(price: nat, n: nat, amount: nat): nat
    requires price > 0 && n > 0
  {
    MulLe(0, amount, price);
    MulLe(0, n, price);
    CeilBounds(n, price);
    if amount == 0 then price
    else if n + amount * price < TWO256 then CeilDiv(n * price, n + amount * price)
    else CeilDiv(n, n / price + amount)
  }

  predicate Lowers(price: nat, n: nat, amount: nat, q: nat)
  {
    0 < q <= price && n * price <= n * q + amount * (price * q)
  }

  /** The amount is enough for the move, and the price never rises or reaches zero. */
  lemma LoweredBounds(price: nat, n: nat, amount: nat)
    requires price > 0 && n > 0
    ensures Lowers(price, n, amount, Lowered(price, n, amount))
  {
    hide Lowers;
    if amount == 0 {
      StandsStill(price, n);
    } else if n + amount * price < TWO256 {
      FittingLowers(price, n, amount);
    } else {
      UnfittingLowers(price, n, amount);
    }
  }

  lemma FittingLowers(price: nat, n: nat, amount: nat)
    requires price > 0 && n > 0 && amount > 0 && n + amount * price < TWO256
    ensures Lowers(price, n, amount, Lowered(price, n, amount))
  {
    hide Lowers;
    MulPositive(amount, price);
    MulPositive(n, price);
    LoweredExact(price, n, amount, Lowered(price, n, amount));
  }

  lemma UnfittingLowers(price: nat, n: nat, amount: nat)
    requires price > 0 && n > 0 && amount > 0 && n + amount * price >= TWO256
    ensures Lowers(price, n, amount, Lowered(price, n, amount))
  {
    hide Lowers;
    CeilBounds(n, price);
    LoweredFallback(price, n, amount, n / price, Lowered(price, n, amount));
  }

  lemma StandsStill(price: nat, n: nat)
    requires price > 0
    ensures Lowers(price, n, 0, price)
  {
  }

  lemma LoweredExact(price: nat, n: nat, amount: nat, q: nat)
    requires price > 0 && n > 0 && n * price > 0 && n + amount * price > 0
    requires q == CeilDiv(n * price, n + amount * price)
    ensures Lowers(price, n, amount, q)
  {
    var d := n + amount * price;
    assert q * d == n * q + amount * (price * q);
    assert n * price <= price * d by { MulLe(n, d, price); }
    CeilLe(n * price, d, price);
  }

  lemma LoweredFallback(price: nat, n: nat, amount: nat, f: nat, q: nat)
    requires price > 0 && n > 0 && amount > 0 && f == n / price
    requires q == CeilDiv(n, f + amount)
    ensures Lowers(price, n, amount, q)
  {
    hide CeilDiv;
    CeilBounds(n, price);
    ReserveCovers(price, n, f + amount, f);
    CeilLe(n, f + amount, price);
    Scaled(price, n, amount, f, q);
  }

  lemma ReserveCovers(price: nat, n: nat, d: nat, f: nat)
    requires price > 0 && f == n / price && f < d
    ensures n <= price * d
  {
    DivBounds(n, price);
    MulLe(f + 1, d, price);
    assert (f + 1) * price == f * price + price;
  }

  lemma Scaled(price: nat, n: nat, amount: nat, f: nat, q: nat)
    requires n <= q * (f + amount) && f * price <= n
    ensures n * price <= n * q + amount * (price * q)
  {
    MulLe(n, q * (f + amount), price);
    assert (q * (f + amount)) * price == q * (f * price) + amount * (price * q);
    MulLe(f * price, n, q);
  }

  /** The word function computes `Lowered` unless its fallback denominator wraps. */
  lemma NextPriceAdd0(price: u256, liquidity: u128, amount: u256)
    requires price > 0 && liquidity > 0
    ensures Shift96(liquidity) > 0
    ensures Shift96(liquidity) / price + amount < TWO256 ==>
              NextPriceAmount0(price, liquidity, amount, true) == Ok(Lowered(price, Shift96(liquidity), amount))
    ensures Shift96(liquidity) / price + amount >= TWO256 ==>
              NextPriceAmount0(price, liquidity, amount, true)
              == DivRoundingUp(Shift96(liquidity), Wrap(Shift96(liquidity) / price + amount))
  {
    if Shift96(liquidity) / price + amount < TWO256 {
      FittingAdd0(price, liquidity, amount);
    } else {
      WrappedAdd0(price, liquidity, amount);
    }
  }

  /** When even the fallback denominator passes the end of a word, neither test keeps the source
      from using it. */
  lemma WrappedAdd0(price: u256, liquidity: u128, amount: u256)
    requires price > 0 && liquidity > 0
    requires Shift96(liquidity) / price + amount >= TWO256
    ensures NextPriceAmount0(price, liquidity, amount, true)
            == DivRoundingUp(Shift96(liquidity), Wrap(Shift96(liquidity) / price + amount))
  {
    var n := Shift96(liquidity);
    WordQuotient(n, price);
    ProductCheck(amount, price);
    SumPasses(n, price, amount, n / price);
    if amount * price < TWO256 { SumCheck(n, WrapMul(amount, price)); }
  }

  lemma SumPasses(n: nat, price: nat, amount: nat, f: nat)
    requires price > 0 && f == n / price && f + amount >= TWO256
    ensures n + amount * price >= TWO256
  {
    DivBounds(n, price);
    MulLe(1, price, f + amount);
    assert (f + amount) * price == f * price + amount * price;
  }

  lemma FittingAdd0(price: u256, liquidity: u128, amount: u256)
    requires price > 0 && liquidity > 0
    requires Shift96(liquidity) / price + amount < TWO256
    ensures Shift96(liquidity) > 0
    ensures NextPriceAmount0(price, liquidity, amount, true) == Ok(Lowered(price, Shift96(liquidity), amount))
  {
    var n := Shift96(liquidity);
    ShiftFits(liquidity);
    if amount > 0 {
      LoweredBounds(price, n, amount);
      ProductCheck(amount, price);
      MulLe(0, amount, price);
      WordQuotient(n, price);
      if amount * price < TWO256 {
        SumCheck(n, WrapMul(amount, price));
      }
      if n + amount * price >= TWO256 {
        ModSmall(n / price + amount, TWO256);
      }
    }
  }

  /** The price after removing `amount` of token0. */
  function Raised(price: nat, n: nat, amount: nat): nat
    requires amount * price < n
  {
    if amount == 0 then price else MulLe(0, n, price); CeilDiv(n * price, n - amount * price)
  }

  /** The least price whose move pays out the amount. */
  lemma RaisedBounds(price: nat, n: nat, amount: nat, y: nat)
    requires price > 0 && 0 <= amount * price < n
    ensures Raised(price, n, amount) <= y <==> n * price + amount * (y * price) <= n * y
    ensures price <= Raised(price, n, amount)
  {
    if amount > 0 {
      var d := n - amount * price;
      MulLe(0, n, price);
      CeilLe(n * price, d, y);
      assert y * d == n * y - amount * (y * price);
      var q := Raised(price, n, amount);
      assert price <= q by {
        MulLe(d, n, q);
        CancelLe(price, q, n);
      }
    } else {
      assert n * price <= n * y <==> price <= y by {
        if price <= y { MulLe(price, y, n); } else { MulLt(y, price, n); }
      }
    }
  }

  /** Removing token0 works exactly for amounts below the whole reserve whose price fits a word. */
  lemma NextPriceSub0(price: u256, liquidity: u128, amount: u256)
    requires price > 0
    ensures amount * price >= 0
    ensures amount == 0 ==> NextPriceAmount0(price, liquidity, amount, false) == Ok(price)
    ensures amount > 0 ==>
              NextPriceAmount0(price, liquidity, amount, false)
              == if amount * price >= Shift96(liquidity) then Err(ProductDivAmount)
                 else if Raised(price, Shift96(liquidity), amount) < TWO256 then
                   Ok(Raised(price, Shift96(liquidity), amount))
                 else CeilWord(Product(Shift96(liquidity), price), Shift96(liquidity) - amount * price)
  {
    hide Wrap, CeilWord;
    MulLe(0, amount, price);
    if amount > 0 { Removed0(price, Shift96(liquidity), amount); }
  }

  lemma Removed0(price: u256, n: u256, amount: u256)
    requires price > 0 && amount > 0
    ensures WrapMul(amount, price) / amount == price && n > WrapMul(amount, price) <==> amount * price < n
    ensures 0 <= amount * price < n ==>
              && WrapSub(n, WrapMul(amount, price)) == n - amount * price
              && (Raised(price, n, amount) < TWO256 ==>
                    CeilWord(Product(n, price), n - amount * price) == Ok(Raised(price, n, amount)))
  {
    hide Wrap;
    ProductCheck(amount, price);
    if 0 <= amount * price < n { WrapNear(n - amount * price); }
  }

  // ----------------------------------------------- the next price from token1

  /** Both branches of the quotient are the same rounding of amount * 2^96 / liquidity. */
  lemma Quotient1IsExact(liquidity: u128, amount: u256, up: bool)
    requires liquidity > 0
    ensures amount * TWO96 >= 0
    ensures Quotient1(liquidity, amount, up) ==
            if up then CeilWord(amount * TWO96, liquidity) else FloorWord(amount * TWO96, liquidity)
  {
    ShiftsFit();
    MulLe(0, amount, TWO96);
    if amount < TWO160 {
      WordQuotient(amount * TWO96, liquidity);
    }
  }

  /** Adding token1 moves the price by the floored quotient, unless that wraps or overflows. */
  lemma NextPriceAdd1(price: u256, liquidity: u128, amount: u256)
    requires price < TWO160 && liquidity > 0
    ensures amount * TWO96 / liquidity >= 0
    ensures var q, r := amount * TWO96 / liquidity, NextPriceAmount1(price, liquidity, amount, true);
            && (price + q < TWO160 ==> r == Ok(price + q))
            && (TWO160 <= price + q < TWO256 ==> r == Err(SafeCastToU160Overflow))
            && (q < TWO256 <= price + q ==> r == Ok(price + q - TWO256))
            && (q >= TWO256 ==> r.Err?)
  {
    hide Wrap;
    ShiftsFit();
    Quotient1IsExact(liquidity, amount, false);
    CeilBounds(amount * TWO96, liquidity);
    var quotient := amount * TWO96 / liquidity;
    if quotient < TWO256 {
      WrapNear(price + quotient);
    }
  }

  /** Removing token1 moves the price by the quotient rounded up, if the price stays positive. */
  lemma NextPriceSub1(price: u256, liquidity: u128, amount: u256)
    requires price < TWO160 && liquidity > 0 && amount * TWO96 >= 0
    ensures CeilDiv(amount * TWO96, liquidity) < price ==>
              NextPriceAmount1(price, liquidity, amount, false) == Ok(price - CeilDiv(amount * TWO96, liquidity))
    ensures NextPriceAmount1(price, liquidity, amount, false).Ok? ==>
              CeilDiv(amount * TWO96, liquidity) < price
  {
    ShiftsFit();
    Quotient1IsExact(liquidity, amount, true);
  }

  // ----------------------------------------------------- prices and amounts invert

  /** No addition inside the next-price functions passes the end of a word. */
  predicate InputFits(price: u256, liquidity: u128, amount: u256, zeroForOne: bool)
    requires price > 0 && liquidity > 0
  {
    if zeroForOne then Shift96(liquidity) / price + amount < TWO256
    else price + amount * TWO96 / liquidity < TWO256
  }

  /** The price reached by an input never costs more than that input, in either direction and on
      every internal path, whether or not a sum wraps. */
  lemma InputCoversMove(price: u256, liquidity: u128, amount: u256, zeroForOne: bool, q: u256)
    requires 0 < price < TWO160 && NextPriceFromInput(price, liquidity, amount, zeroForOne) == Ok(q)
    ensures zeroForOne ==>
              && q > 0
              && Amount0Delta(q, price, liquidity, true).Ok?
              && Amount0Delta(q, price, liquidity, true).value <= amount
    ensures !zeroForOne ==>
              && q < TWO160
              && Amount1Delta(price, q, liquidity, true).Ok?
              && Amount1Delta(price, q, liquidity, true).value <= amount
  {
    if zeroForOne {
      InputCoversMove0(price, liquidity, amount, q);
    } else {
      InputCoversMove1(price, liquidity, amount, q);
    }
  }

  lemma InputCoversMove0(price: u256, liquidity: u128, amount: u256, q: u256)
    requires price > 0 && liquidity > 0 && NextPriceAmount0(price, liquidity, amount, true) == Ok(q)
    ensures q > 0 && Amount0Delta(q, price, liquidity, true).Ok?
    ensures Amount0Delta(q, price, liquidity, true).value <= amount
  {
    var n := Shift96(liquidity);
    NextPriceAdd0(price, liquidity, amount);
    if n / price + amount < TWO256 {
      LoweredBounds(price, n, amount);
      Exact0Bounds(q, price, n, amount);
      Amount0IsExact(q, price, liquidity, true);
    } else {
      WrappedRaises(price, liquidity, amount, q);
      AtMostReserve(price, q, n);
      Amount0IsExact(price, q, liquidity, true);
    }
  }

  /** A wrapped token0 input is larger than the whole reserve, and lands above the start. */
  lemma WrappedRaises(price: u256, liquidity: u128, amount: u256, q: u256)
    requires price > 0 && liquidity > 0 && Shift96(liquidity) / price + amount >= TWO256
    requires NextPriceAmount0(price, liquidity, amount, true) == Ok(q)
    ensures price < q && Shift96(liquidity) <= amount
  {
    var n := Shift96(liquidity);
    var f := n / price;
    NextPriceAdd0(price, liquidity, amount);
    WordQuotient(n, price);
    WrapNear(f + amount);
    SmallerQuotient(n, price, f, f + amount - TWO256, q);
    QuotientAtMost(n, price);
    SmallPowers();
    ShiftBound(liquidity, 128, 96);
    Pow2Mono(225, 256);
  }

  lemma SmallerQuotient(n: nat, price: nat, f: nat, d: nat, q: nat)
    requires price > 0 && n > 0 && f == n / price && 0 < d < f && q == CeilDiv(n, d)
    ensures price < q
  {
    DivBounds(n, price);
    MulLe(d + 1, f, price);
    assert (d + 1) * price == d * price + price;
    CeilLe(n, d, price);
  }

  lemma AtMostReserve(lo: nat, hi: nat, n: nat)
    requires 0 < lo <= hi
    ensures Exact0(lo, hi, n, true) <= n
  {
    Exact0Bounds(lo, hi, n, n);
    MulLe(1, lo, hi);
    MulLe(hi, hi * lo, n);
    MulLe(0, n, lo);
  }

  lemma InputCoversMove1(price: u256, liquidity: u128, amount: u256, q: u256)
    requires price < TWO160 && liquidity > 0 && NextPriceAmount1(price, liquidity, amount, true) == Ok(q)
    ensures q < TWO160 && Amount1Delta(price, q, liquidity, true).Ok?
    ensures Amount1Delta(price, q, liquidity, true).value <= amount
  {
    var move := Landing1(price, liquidity, amount, q);
    var lo, hi := if price <= q then price else q, if price <= q then q else price;
    Amount1IsExact(lo, hi, liquidity, true);
    MoveCosts1(liquidity, amount, move);
    MulLe(hi - lo, move, liquidity);
    Exact1Bounds(lo, hi, liquidity, amount);
  }

  /** The quotient covers the distance to where the price lands. */
  lemma Landing1(price: u256, liquidity: u128, amount: u256, q: u256) returns (move: nat)
    requires price < TWO160 && liquidity > 0 && NextPriceAmount1(price, liquidity, amount, true) == Ok(q)
    ensures q < TWO160 && amount * TWO96 >= 0 && move == amount * TWO96 / liquidity
    ensures if price <= q then q - price <= move else price - q <= move
    ensures q >= price <==> price + move < TWO256
  {
    hide Pow2, Wrap;
    ShiftsFit();
    MulLe(0, amount, TWO96);
    CeilBounds(amount * TWO96, liquidity);
    move := amount * TWO96 / liquidity;
    Quotient1IsExact(liquidity, amount, false);
    WrapNear(price + move);
    SmallPowers();
    Pow2Mono(161, 256);
  }

  lemma MoveCosts1(liquidity: nat, amount: nat, move: nat)
    requires liquidity > 0 && move == amount * TWO96 / liquidity
    ensures liquidity * move <= amount * TWO96
  {
    DivBounds(amount * TWO96, liquidity);
  }

  /** The price reached by an output always pays at least that output. */
  lemma OutputPaidByMove(price: u256, liquidity: u128, amount: u256, zeroForOne: bool, q: u256)
    requires 0 < price < TWO160
    requires NextPriceFromOutput(price, liquidity, amount, zeroForOne) == Ok(q)
    ensures zeroForOne ==>
              && 0 < q <= price
              && Amount1Delta(q, price, liquidity, false).Ok?
              && Amount1Delta(q, price, liquidity, false).value >= amount
    ensures !zeroForOne ==>
              && price <= q
              && Amount0Delta(price, q, liquidity, false).Ok?
              && Amount0Delta(price, q, liquidity, false).value >= amount
  {
    if zeroForOne {
      PaidIn1(price, liquidity, amount, q);
    } else {
      PaidIn0(price, liquidity, amount, q);
    }
  }

  lemma PaidIn1(price: u256, liquidity: u128, amount: u256, q: u256)
    requires 0 < price < TWO160 && liquidity > 0
    requires NextPriceAmount1(price, liquidity, amount, false) == Ok(q)
    ensures 0 < q <= price && Amount1Delta(q, price, liquidity, false).Ok?
    ensures Amount1Delta(q, price, liquidity, false).value >= amount
  {
    NextPriceSub1(price, liquidity, amount);
    Amount1IsExact(q, price, liquidity, false);
    Exact1Bounds(q, price, liquidity, amount);
    MovePays1(liquidity, amount, price - q);
  }

  lemma MovePays1(liquidity: nat, amount: nat, move: nat)
    requires liquidity > 0 && move == CeilDiv(amount * TWO96, liquidity)
    ensures amount * TWO96 <= liquidity * move
  {
  }

  lemma PaidIn0(price: u256, liquidity: u128, amount: u256, q: u256)
    requires 0 < price < TWO160 && liquidity > 0
    requires NextPriceAmount0(price, liquidity, amount, false) == Ok(q)
    ensures price <= q && Amount0Delta(price, q, liquidity, false).Ok?
    ensures Amount0Delta(price, q, liquidity, false).value >= amount
  {
    Removable0(price, liquidity, amount);
    var n := Shift96(liquidity);
    RaisedBounds(price, n, amount, q);
    Exact0Bounds(price, q, n, amount);
    Amount0IsExact(price, q, liquidity, false);
  }

  /** Token0 can be removed only below the whole virtual reserve, and then by the exact price. */
  lemma Removable0(price: u256, liquidity: u128, amount: u256)
    requires price > 0 && liquidity > 0
    requires NextPriceAmount0(price, liquidity, amount, false).Ok?
    ensures 0 <= amount * price < Shift96(liquidity)
    ensures NextPriceAmount0(price, liquidity, amount, false).value ==
            Raised(price, Shift96(liquidity), amount)
  {
    MulLe(0, amount, price);
    if amount > 0 {
      ProductCheck(amount, price);
      WrapNear(Shift96(liquidity) - amount * price);
    }
  }

  /** On the exact path the price after an input of token0 is the least one the input covers. */
  lemma LoweredIsLeast(price: nat, n: nat, amount: nat, y: nat)
    requires 0 < y <= price && n > 0 && amount * price >= 0 && n + amount * price < TWO256
    ensures Lowered(price, n, amount) <= y <==> Exact0(y, price, n, true) <= amount
  {
    Exact0Bounds(y, price, n, amount);
    if amount > 0 {
      LeastByProducts(price, n, amount, n + amount * price, y);
    } else if price > y {
      MulLt(y, price, n);
    }
  }

  /** On the coarse path it is the least price at which the reserve, rounded down, and the amount cover
      the whole. */
  lemma CoarseIsLeast(price: nat, n: nat, amount: nat, y: nat)
    requires price > 0 && n > 0 && amount > 0 && amount * price >= 0 && n + amount * price >= TWO256
    ensures n / price >= 0
    ensures Lowered(price, n, amount) <= y <==> n <= y * (n / price + amount)
  {
    CeilBounds(n, price);
    CeilLe(n, n / price + amount, y);
  }

  lemma LeastByProducts(price: nat, n: nat, amount: nat, d: nat, y: nat)
    requires n > 0 && d == n + amount * price > 0 && n * price >= 0
    ensures CeilDiv(n * price, d) <= y <==> n * price <= n * y + amount * (price * y)
  {
    CeilLe(n * price, d, y);
    assert y * d == n * y + amount * (price * y);
  }

  /** Adding token1 can wrap past the end of a word, and the result then lies below the start:
      one unit of liquidity at price one, pushed by 2^160 - 1 of token1, lands on price zero. */
  lemma WrappedInput()
    ensures TWO160 - 1 < TWO256
    ensures NextPriceFromInput(TWO96, 1, TWO160 - 1, false) == Ok(0)
    ensures !InputFits(TWO96, 1, TWO160 - 1, false)
  {
    ShiftsFit();
    SmallPowers();
    Pow2Add(160, 96);
    var quotient := (TWO160 - 1) * TWO96;
    assert quotient / 1 == quotient;
    assert TWO96 + quotient == TWO256;
    Quotient1IsExact(1, TWO160 - 1, false);
    WrapNear(TWO256);
  }

  /** Adding token0 can wrap too: the largest amount moves one unit of liquidity from price
      2^-96 up to twice that. */
  lemma WrappedInput0()
    ensures NextPriceFromInput(1, 1, MAX256, true) == Ok(2) && !InputFits(1, 1, MAX256, true)
  {
    hide Pow2, Wrap, CeilDiv;
    ShiftsFit();
    SmallPowers();
    Pow2Strict(96, 256);
    assert Shift96(1) == TWO96 && TWO96 / 1 == TWO96;
    WrappedAdd0(1, 1, MAX256);
    WrapNear(TWO96 + MAX256);
    CeilLe(TWO96, TWO96 - 1, 1);
    CeilLe(TWO96, TWO96 - 1, 2);
  }

  /** An accepted input moves the price the right way exactly when its sum does not wrap. */
  lemma InputMovesRightIff(price: u256, liquidity: u128, amount: u256, zeroForOne: bool, q: u256)
    requires 0 < price < TWO160 && NextPriceFromInput(price, liquidity, amount, zeroForOne) == Ok(q)
    ensures (if zeroForOne then q <= price else price <= q) <==> InputFits(price, liquidity, amount, zeroForOne)
  {
    if !zeroForOne {
      var move := Landing1(price, liquidity, amount, q);
    } else if InputFits(price, liquidity, amount, true) {
      NextPriceAdd0(price, liquidity, amount);
      LoweredBounds(price, Shift96(liquidity), amount);
    } else {
      WrappedRaises(price, liquidity, amount, q);
    }
  }
}
