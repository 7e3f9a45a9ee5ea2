/** `liquidity_math.rs`: the liquidity that given token amounts can back over a price range. */
module LiquidityMath {
  import opened Arithmetic
  import opened Words
  import opened FullMath
  import opened SqrtPriceMath

  function Cast128(x: u256): Result<u128>
  {
    if x >= TWO128 then Err(LiquidityOverflown) else Ok(x)
  }

  /** `get_liquidity_for_amount0`. */
  function LiquidityForAmount0(a: u256, b: u256, amount0: u256): Result<u128>
  {
    ShiftsFit();
    var lo, hi := if a > b then b else a, if a > b then a else b;
    var intermediate :- FloorMulDiv(lo, hi, TWO96);
    var liquidity :- FloorMulDiv(amount0, intermediate, hi - lo);
    Cast128(liquidity)
  }

  /** `get_liquidity_for_amount1`. */
  function LiquidityForAmount1(a: u256, b: u256, amount1: u256): Result<u128>
  {
    ShiftsFit();
    var lo, hi := if a > b then b else a, if a > b then a else b;
    var liquidity :- FloorMulDiv(amount1, TWO96, hi - lo);
    Cast128(liquidity)
  }

  /** `get_liquidity_for_amounts`. */
  function LiquidityForAmounts(price: u256, a: u256, b: u256, amount0: u256, amount1: u256): Result<u128>
  {
    var lo, hi := if a > b then b else a, if a > b then a else b;
    if price <= lo then LiquidityForAmount0(lo, hi, amount0)
    else if price < hi then
      var liquidity0 :- LiquidityForAmount0(price, hi, amount0);
      var liquidity1 :- LiquidityForAmount1(lo, price, amount1);
      Ok(if liquidity0 < liquidity1 then liquidity0 else liquidity1)
    else LiquidityForAmount1(lo, hi, amount1)
  }

  /** No liquidity up to the one computed from an amount of token0 costs more than that amount. */
  lemma Amount0Affordable(lo: u256, hi: u256, amount0: u256, liquidity: u128)
    requires 0 < lo <= hi && LiquidityForAmount0(lo, hi, amount0).Ok?
    requires liquidity <= LiquidityForAmount0(lo, hi, amount0).value
    ensures Amount0Delta(lo, hi, liquidity, true).Ok?
    ensures Amount0Delta(lo, hi, liquidity, true).value <= amount0
  {
    ShiftsFit();
    var intermediate := FloorMulDiv(lo, hi, TWO96).value;
    var l := LiquidityForAmount0(lo, hi, amount0).value;
    assert liquidity * (hi - lo) <= amount0 * intermediate by {
      DivBounds(Product(amount0, intermediate), hi - lo);
      MulLe(liquidity, l, hi - lo);
    }
    assert intermediate * TWO96 <= hi * lo by { DivBounds(Product(lo, hi), TWO96); }
    WithinAmount0(lo, hi, amount0, liquidity, intermediate);
    Exact0Bounds(lo, hi, Shift96(liquidity), amount0);
    Amount0IsExact(lo, hi, liquidity, true);
  }

  lemma WithinAmount0(lo: nat, hi: nat, amount0: nat, liquidity: nat, i: nat)
    requires lo <= hi && liquidity * (hi - lo) <= amount0 * i && i * TWO96 <= hi * lo
    ensures (liquidity * TWO96) * hi <= (liquidity * TWO96) * lo + amount0 * (hi * lo)
  {
    MulLe(i * TWO96, hi * lo, amount0);
    assert amount0 * (i * TWO96) == (amount0 * i) * TWO96;
    assert (liquidity * TWO96) * hi - (liquidity * TWO96) * lo == (liquidity * (hi - lo)) * TWO96;
  }

  /** The same for token1, where the computed liquidity is moreover the largest affordable one. */
  lemma Amount1Affordable(lo: u256, hi: u256, amount1: u256, liquidity: u128)
    requires lo <= hi && LiquidityForAmount1(lo, hi, amount1).Ok?
    ensures liquidity * (hi - lo) >= 0
    ensures liquidity <= LiquidityForAmount1(lo, hi, amount1).value <==>
            Amount1Delta(lo, hi, liquidity, true).Ok? && Amount1Delta(lo, hi, liquidity, true).value <= amount1
  {
    ShiftsFit();
    MulLe(0, liquidity, hi - lo);
    MulLe(0, amount1, TWO96);
    DivLe(amount1 * TWO96, hi - lo, liquidity);
    CeilLe(liquidity * (hi - lo), TWO96, amount1);
  }

  /** Whenever a liquidity is computed for two amounts, what the position holds at that price is
      within both of them; only at a lower price of zero is there no token0 amount to speak of. */
  lemma AmountsAffordable(price: u256, a: u256, b: u256, amount0: u256, amount1: u256)
    requires LiquidityForAmounts(price, a, b, amount0, amount1).Ok?
    ensures var l := LiquidityForAmounts(price, a, b, amount0, amount1).value;
            var lo, hi := if a > b then b else a, if a > b then a else b;
            && (price <= lo ==> (Amount0Delta(lo, hi, l, true).Ok? <==> lo > 0))
            && (price <= lo && lo > 0 ==> Amount0Delta(lo, hi, l, true).value <= amount0)
            && (lo < price < hi ==>
                  && Amount0Delta(price, hi, l, true).Ok? && Amount0Delta(price, hi, l, true).value <= amount0
                  && Amount1Delta(lo, price, l, true).Ok? && Amount1Delta(lo, price, l, true).value <= amount1)
            && (hi <= price && lo < price ==>
                  Amount1Delta(lo, hi, l, true).Ok? && Amount1Delta(lo, hi, l, true).value <= amount1)
  {
    var l := LiquidityForAmounts(price, a, b, amount0, amount1).value;
    var lo, hi := if a > b then b else a, if a > b then a else b;
    if price <= lo {
      if lo > 0 { Amount0Affordable(lo, hi, amount0, l); }
    } else if price < hi {
      Amount0Affordable(price, hi, amount0, l);
      Amount1Affordable(lo, price, amount1, l);
    } else {
      Amount1Affordable(lo, hi, amount1, l);
    }
  }

  // ------------------------------------------------------------------ lower bounds

  /** When a liquidity is found for an amount of token0, and how close it comes. The product of the prices
      is first rounded down to 96 bits; any more liquidity would cost more than the amount, less the share
      that this drops. */
  lemma Amount0Tight(lo: u256, hi: u256, amount0: u256, liquidity: nat)
    requires lo <= hi
    ensures LiquidityForAmount0(lo, hi, amount0).Ok? <==>
            lo < hi && lo * hi / TWO96 < TWO256 && amount0 * (lo * hi / TWO96) / (hi - lo) < TWO128
    ensures LiquidityForAmount0(lo, hi, amount0).Ok? && liquidity > LiquidityForAmount0(lo, hi, amount0).value ==>
              TooMuch0(lo, hi, amount0, liquidity)
    ensures LiquidityForAmount0(hi, lo, amount0) == LiquidityForAmount0(lo, hi, amount0)
  {
    hide FloorWord;
    ShiftsFit();
    Pow2Strict(128, 256);
    SmallPowers();
    var p := Product(lo, hi);
    CeilBounds(p, TWO96);
    if lo < hi && p / TWO96 < TWO256 {
      var i := p / TWO96;
      if liquidity > Product(amount0, i) / (hi - lo) { Unused0(p, hi - lo, amount0, liquidity, i); }
    }
  }

  /** The liquidity costs more than the amount, but for what is dropped of the product of the prices. */
  predicate TooMuch0(lo: nat, hi: nat, amount0: nat, liquidity: nat)
  {
    amount0 * (lo * hi) < (liquidity * (hi - lo)) * TWO96 + amount0 * TWO96
  }

  lemma Unused0(p: nat, d: nat, amount0: nat, liquidity: nat, i: nat)
    requires d > 0 && i == p / TWO96 && amount0 * i >= 0 && liquidity > amount0 * i / d
    ensures amount0 * p < (liquidity * d) * TWO96 + amount0 * TWO96
  {
    DivBounds(p, TWO96);
    DivLe(amount0 * i, d, liquidity - 1);
    assert amount0 * i < liquidity * d by { assert (liquidity - 1) * d + d == liquidity * d; }
    MulLe(p, i * TWO96 + TWO96, amount0);
    assert amount0 * (i * TWO96 + TWO96) == (amount0 * i) * TWO96 + amount0 * TWO96;
  }

  /** When one is found for an amount of token1; that it is the greatest is stated above. */
  lemma Amount1Iff(lo: u256, hi: u256, amount1: u256)
    requires lo <= hi
    ensures LiquidityForAmount1(lo, hi, amount1).Ok? <==> lo < hi && amount1 * TWO96 / (hi - lo) < TWO128
    ensures LiquidityForAmount1(hi, lo, amount1) == LiquidityForAmount1(lo, hi, amount1)
  {
    hide FloorWord;
    ShiftsFit();
    Pow2Strict(128, 256);
    SmallPowers();
    MulLe(0, amount1, TWO96);
  }

  /** No larger liquidity fits both amounts: below the range it would take too much token0, above it too
      much token1, and inside it too much of one of them. */
  lemma AmountsTight(price: u256, a: u256, b: u256, amount0: u256, amount1: u256, liquidity: u128)
    requires LiquidityForAmounts(price, a, b, amount0, amount1).Ok?
    requires liquidity > LiquidityForAmounts(price, a, b, amount0, amount1).value
    ensures var lo, hi := if a > b then b else a, if a > b then a else b;
            if price <= lo then TooMuch0(lo, hi, amount0, liquidity)
            else if price < hi then
              TooMuch0(price, hi, amount0, liquidity)
              || !(Amount1Delta(lo, price, liquidity, true).Ok? && Amount1Delta(lo, price, liquidity, true).value <= amount1)
            else !(Amount1Delta(lo, hi, liquidity, true).Ok? && Amount1Delta(lo, hi, liquidity, true).value <= amount1)
  {
    hide LiquidityForAmount0, LiquidityForAmount1, TooMuch0;
    var lo, hi := if a > b then b else a, if a > b then a else b;
    if price <= lo {
      Amount0Tight(lo, hi, amount0, liquidity);
    } else if price < hi {
      Amount0Tight(price, hi, amount0, liquidity);
      Amount1Affordable(lo, price, amount1, liquidity);
    } else {
      Amount1Affordable(lo, hi, amount1, liquidity);
    }
  }
}
