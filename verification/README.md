# Kabu: swap arithmetic, layered state and call packing

Kabu searches for arbitrage by simulating trades. This project models the parts of it on which
every simulation rests, and proves what they promise.

* **Uniswap V3 arithmetic** (`crates/defi/uniswap-v3-math`). 512-by-256-bit division, prices and
  amounts with directed rounding, one swap step, ticks and prices in both directions, the bitmap of
  initialized ticks, liquidity for amounts; and the swap across ticks that is built on all of these
  (`crates/defi/pools/src/virtual_impl/uniswapv3.rs`).
* **Layered state** (`crates/evm/db`). A mutable overlay over an optional read-only layer over an
  external database, against a flat map from addresses and slots to values.
* **Uniswap V2 quotes** and the **multicaller's packed call lists**.

The main results:

* `mul_div` is the exact floor of the full 512-bit quotient for every input, or the right error.
* The price of a tick is strictly increasing over all 1774545 ticks, with the advertised end points,
  and `get_tick_at_sqrt_ratio` is its exact inverse on every valid price. The proof measures both
  directions against real powers of 1.0001 and of 2; it bounds the error of the chain of multiplies
  and of the fourteen squaring rounds, and shows that the two candidate ticks always hold the answer.
  Each of the twenty multipliers is the integer nearest to its real value.
* A swap step always succeeds, stays between its start and its target, never overspends an input or
  overpays an output, never beats the price, is monotone in its input, and cannot be reversed at a
  profit. Over any number of ticks the swap loop ends, accounts for every unit of the request with
  exact totals, keeps tick and price in step and changes the liquidity by exactly the initialized
  ticks it crosses. What it takes and pays is what that liquidity is worth between its two prices, with
  the fee, to a unit or two for each step. It is no better than the price it started from, and swapping any of its output
  back from where it ended returns at most what was spent. One start is different: a downward swap
  from the minimum price itself goes up, and the exact conditions under which the two laws fail
  there are proved, with an example. More input never gives less output, but for an exactly described
  case at that start; more output never costs less input; and what an output was quoted at, if it is
  quoted in turn, pays at least that output.
* The tick bitmap answers like a linear scan of a plain set, also after any run of flips, and chained
  searches meet every initialized tick of an interval once, in order.
* A read of the layered database is answered by the first level that holds it, or by the lowest
  external database. Over every interleaving of caching reads and commits it answers like the flat
  state; a block loop of state diffs and merges is the fold of the diffs. Where an operation can
  lose information, the exact condition under which it does not is proved, with a concrete loss.
* Packed call lists are uniquely decodable, and every byte of a packed call is given.

## How the model is set up

* A 256-bit word is an `int` below `TWO256`; operators that wrap in the source are `WrapAdd`,
  `WrapSub` and `WrapMul`. `TWO256` is kept symbolic. Bitwise operators are defined bit by bit.
* A `Result` or `Quote` carries the source's error. Where the program would stop it is an error value
  too: `DivisionByZero`, and `LiquidityOverflown` and `NegationOverflow` for machine integers, which
  stop a build with overflow checks.
* Imperative code is a method, and each method is tied to a function or states its result outright.
  Long methods of the source are split where a proof needs a boundary: `mul_div` into the steps of
  its algorithm, the chain of conditional multiplies into `Rise`, the search for the top bit into
  `Stage`, the squaring rounds into `Round`.
* The database is a class with mutable fields, `KabuDb.Database`; its value is a `Layer`, and every
  method is tied to a function on layers. A hash map that the source iterates in no fixed order is a
  sequence in any order, or is taken apart in any order.
* The external database is a total function. The hash function and the two special code hashes are
  parameters. The zero address is left out of statements about account infos, because reading its
  info is a special case in the source.
* `hide` statements keep definitions that a proof does not need away from it.

| file | module | subject |
|---|---|---|
| Arithmetic.dfy | Arithmetic | rounding division, powers of two |
| Words.dfy | Words | machine words and bits |
| Options.dfy | Options | a value that may be missing |
| RealPowers.dfy | RealPowers | integer powers of reals |
| FullMath.dfy | FullMath | multiplication and division in 512 bits |
| SqrtPriceMath.dfy | SqrtPriceMath | amounts of a price move, and prices from amounts |
| SwapMath.dfy | SwapMath | one swap step |
| SwapLaws.dfy | SwapLaws | laws over steps |
| LiquidityMath.dfy | LiquidityMath | liquidity for amounts |
| TickMath.dfy | TickMath | tick to price |
| NearestMultipliers.dfy | NearestMultipliers | the multipliers are the nearest integers, and prices the least ones |
| TickLog.dfy | TickLog | logarithms by squaring, and the logarithm of 1.0001 |
| BinaryLog.dfy | BinaryLog | top bit and binary logarithm of a price |
| TickInverse.dfy | TickInverse | price to tick |
| BitMath.dfy | BitMath | first and last set bit, operators bit by bit |
| TickBitmap.dfy | TickBitmap | the index of initialized ticks |
| PoolSwap.dfy | PoolSwap | swaps across ticks |
| PoolFloor.dfy | PoolFloor | swaps down from the minimum price, and fairness from every start |
| PoolLaws.dfy | PoolLaws | whole swaps with more and less input or output |
| PoolReturn.dfy | PoolReturn | whole swaps there and back |
| PoolValue.dfy | PoolValue | what whole swaps take and pay |
| LayeredState.dfy | LayeredState | layers, flat state, reads and commits |
| BlockUpdates.dfy | BlockUpdates | state diffs, merging, the block loop |
| KabuDb.dfy | KabuDb | the database object |
| UniswapV2.dfy | UniswapV2 | constant-product quotes |
| OpcodesEncoder.dfy | OpcodesEncoder | packed call lists |

`dafny verify dfyconfig.toml` checks everything.

## Model

| member | source | states |
|---|---|---|
| FullMath.HighWord | crates/defi/uniswap-v3-math/src/full_math.rs:14-22 | the residue modulo 2^256 - 1 less the low word, less the borrow, is the high word of the product |
| FullMath.FullProduct | crates/defi/uniswap-v3-math/src/full_math.rs:19-22 | the two words computed from the residues are the exact 512-bit product |
| FullMath.JoinWords | crates/defi/uniswap-v3-math/src/full_math.rs:54-69 | shifting the high word's bits into the low word divides the 512-bit number by the power of two |
| FullMath.SeedInverse | crates/defi/uniswap-v3-math/src/full_math.rs:71-77 | three times an odd number, with bit one flipped, inverts it modulo 16 |
| FullMath.NewtonDoubles | crates/defi/uniswap-v3-math/src/full_math.rs:79-88 | one Newton step on wrapped words doubles the number of correct bits of the inverse |
| FullMath.InvertOdd | crates/defi/uniswap-v3-math/src/full_math.rs:71-88 | the seed and six steps invert every odd word modulo 2^256 |
| FullMath.DivideByInverse | crates/defi/uniswap-v3-math/src/full_math.rs:90-97 | multiplying by the inverse divides exactly, although only the low word is kept |
| FullMath.DivideWide | crates/defi/uniswap-v3-math/src/full_math.rs:38-97 | the wide branch gives the exact floor whenever the denominator exceeds the high word |
| FullMath.MulDiv | crates/defi/uniswap-v3-math/src/full_math.rs:13-98 | for all words the result is floor(a*b/d) of the unbounded product, or an error: one when the divisor is zero and the product fits a word, another when the quotient does not fit |
| FullMath.MulDivRoundingUp | crates/defi/uniswap-v3-math/src/full_math.rs:100-112 | the exact ceiling, with an error if it does not fit a word |
| FullMath.DivRoundingUp | crates/defi/uniswap-v3-math/src/unsafe_math.rs:5-13 | for all words the ceiling of the quotient; dividing by zero is the only error |
| SqrtPriceMath.Amount0IsExact | crates/defi/uniswap-v3-math/src/sqrt_price_math.rs:127-150 | two successive roundings are one rounding of liquidity * 2^96 * (b - a) / (a * b), for either order of the prices, without overflow |
| SqrtPriceMath.Amount1IsExact | crates/defi/uniswap-v3-math/src/sqrt_price_math.rs:153-170 | for all prices in either order the token1 amount is liquidity * (b - a) / 2^96, rounded as asked, and an error exactly when that does not fit a word, which prices below 2^160 rule out |
| SqrtPriceMath.LoweredBounds | crates/defi/uniswap-v3-math/src/sqrt_price_math.rs:66-78 | on both internal paths the new price is positive, not above the old one, and paid for by the amount |
| SqrtPriceMath.NextPriceAdd0 | crates/defi/uniswap-v3-math/src/sqrt_price_math.rs:54-78 | for all amounts: while the coarse sum fits a word, the wrapping overflow tests choose the exact quotient exactly when it fits; beyond, the new price is what the wrapped sum gives |
| SqrtPriceMath.NextPriceSub0 | crates/defi/uniswap-v3-math/src/sqrt_price_math.rs:79-88 | for all amounts: one below the whole reserve gives the least price that pays it, if that fits a word; a larger one is refused |
| SqrtPriceMath.NextPriceAdd1 | crates/defi/uniswap-v3-math/src/sqrt_price_math.rs:91-112 | for all amounts: the sum of price and quotient, both ways of computing the quotient agreeing; refused above 2^160, and wrapped beyond a word |
| SqrtPriceMath.NextPriceSub1 | crates/defi/uniswap-v3-math/src/sqrt_price_math.rs:113-124 | the price less the rounded-up quotient |
| SqrtPriceMath.InputCoversMove | crates/defi/uniswap-v3-math/src/sqrt_price_math.rs:14-31 | the rounded-up delta back to the start of any price reached by an input is at most the input, also when a sum wraps |
| SqrtPriceMath.OutputPaidByMove | crates/defi/uniswap-v3-math/src/sqrt_price_math.rs:34-51 | the rounded-down delta back to the start of any price reached by an output is at least the output |
| SqrtPriceMath.LoweredIsLeast | crates/defi/uniswap-v3-math/src/sqrt_price_math.rs:69-75 | on the exact path the new price is the least one that the amount can pay for |
| SqrtPriceMath.CoarseIsLeast | crates/defi/uniswap-v3-math/src/sqrt_price_math.rs:76-77 | on the coarse path it is the least one at which the reserve, rounded down, and the amount cover the whole |
| SqrtPriceMath.Refusals | crates/defi/uniswap-v3-math/src/sqrt_price_math.rs:14-51 | a zero price is refused first, then a zero liquidity; a token0 amount needs two positive prices |
| SqrtPriceMath.WrappedInput | crates/defi/uniswap-v3-math/src/sqrt_price_math.rs:99-110 | an input whose price overflows the word is accepted and lowers the price |
| SqrtPriceMath.WrappedInput0 | crates/defi/uniswap-v3-math/src/sqrt_price_math.rs:66-78 | an input of token0 whose sum overflows the word is accepted and raises the price |
| SqrtPriceMath.InputMovesRightIff | crates/defi/uniswap-v3-math/src/sqrt_price_math.rs:14-31 | an accepted input of either token moves the price the right way, or leaves it, exactly when its sum does not overflow |
| SwapMath.ReachedPrice | crates/defi/uniswap-v3-math/src/swap_math.rs:22-60 | the price of the first half, and the amount of the whole move that the second half reuses |
| SwapMath.ComputeSwapStep | crates/defi/uniswap-v3-math/src/swap_math.rs:15-94 | recomputing only some amounts gives the settled amounts of the move in every branch |
| SwapMath.PartialInput | crates/defi/uniswap-v3-math/src/swap_math.rs:29-47 | an input too small for the target stops strictly short of it at a price it covers |
| SwapMath.PartialOutput | crates/defi/uniswap-v3-math/src/swap_math.rs:48-60 | an output below the whole move stops at or before the target at a price that pays it |
| SwapMath.FeeWithinBudget | crates/defi/uniswap-v3-math/src/swap_math.rs:86-93 | an input that covers a move less the fee also covers the rounded-up fee |
| SwapMath.ExactInputStep | crates/defi/uniswap-v3-math/src/swap_math.rs:22-94 | every valid exact-input step succeeds, lies between start and target, spends at most the input, and all of it exactly when it stops short, which it does exactly when the input does not cover the move |
| SwapMath.ExactOutputStep | crates/defi/uniswap-v3-math/src/swap_math.rs:22-94 | every valid exact-output step succeeds, lies between start and target, pays at most the request, and exactly it when it stops short |
| SwapMath.FeeInMillionths | crates/defi/uniswap-v3-math/src/swap_math.rs:29-93 | the fee is the least that is feePips millionths of input and fee together, when a step reaches its target or asks for an output; an exact input stops short exactly when its other millionths do not cover the whole move, and is then all taken |
| SwapLaws.StepNeverBeatsPrice | crates/defi/uniswap-v3-math/src/swap_math.rs:62-84 | out * 2^192 <= in * p * q going down, out * p * q <= in * 2^192 going up |
| SwapLaws.LoweredAntitone | crates/defi/uniswap-v3-math/src/sqrt_price_math.rs:66-78 | more token0 gives no higher price, across the switch between the two formulas |
| SwapLaws.ExactInputMono | crates/defi/uniswap-v3-math/src/swap_math.rs:22-94 | a larger input moves the price at least as far and pays at least as much |
| SwapMath.OutputIsNearest | crates/defi/uniswap-v3-math/src/sqrt_price_math.rs:34-51 | the price computed for an output is the nearest one that pays it |
| SwapLaws.ExactOutputMono | crates/defi/uniswap-v3-math/src/swap_math.rs:22-94 | a larger output moves the price at least as far and costs at least as much |
| SwapLaws.CostBuysOutput | crates/defi/uniswap-v3-math/src/swap_math.rs:22-94 | putting in what an output costs, with its fee, pays at least that output, if the target is within a factor of 64; in the same step if that reached its target |
| SwapLaws.EmptyRangePasses | crates/defi/uniswap-v3-math/src/swap_math.rs:22-94 | without liquidity a step back passes the start |
| SwapLaws.NoFreeRoundTrip | crates/defi/uniswap-v3-math/src/swap_math.rs:62-84 | feeding a step's output back never passes the start and never returns more than was paid, exactly when there is liquidity or the way back does not aim past the start |
| LiquidityMath.Amount0Affordable | crates/defi/uniswap-v3-math/src/liquidity_math.rs:27-39 | the liquidity found for an amount of token0 costs at most that amount |
| LiquidityMath.Amount1Affordable | crates/defi/uniswap-v3-math/src/liquidity_math.rs:41-50 | the liquidity found for an amount of token1 costs at most that amount, and is the greatest that does |
| LiquidityMath.AmountsAffordable | crates/defi/uniswap-v3-math/src/liquidity_math.rs:52-75 | for all prices and amounts, the rounded-up amounts charged for the liquidity found are within both amounts, below, inside and above the range; a token0 amount exists below the range exactly when its lower price is not zero |
| LiquidityMath.Amount0Tight | crates/defi/uniswap-v3-math/src/liquidity_math.rs:27-39 | exactly when a liquidity is found for an amount of token0; any more costs more than the amount, but for the share dropped by rounding the product of the prices to 96 bits |
| LiquidityMath.Amount1Iff | crates/defi/uniswap-v3-math/src/liquidity_math.rs:41-50 | exactly when one is found for an amount of token1 |
| LiquidityMath.AmountsTight | crates/defi/uniswap-v3-math/src/liquidity_math.rs:52-75 | below, inside and above the range, no larger liquidity fits both amounts in that sense |
| TickMath.MagicNear | crates/defi/uniswap-v3-math/src/tick_math.rs:27-88 | every multiplier is 1.0001^(-2^k / 2), to 17 digits |
| NearestMultipliers.MultiplierIsNearest | crates/defi/uniswap-v3-math/src/tick_math.rs:27-88 | every multiplier is the integer nearest to 2^128 / sqrt(1.0001)^(2^k) |
| NearestMultipliers.NearestIsUnique | crates/defi/uniswap-v3-math/src/tick_math.rs:27-88 | no other integer is |
| TickMath.LadderNear | crates/defi/uniswap-v3-math/src/tick_math.rs:27-88 | after k conditional multiplies the squared ratio inverts 1.0001 to the low k bits, with error at most k * 10^-14 |
| TickMath.TickLadder | crates/defi/uniswap-v3-math/src/tick_math.rs:27-88 | for every valid tick the ratio stays accurate and at least 2^63 |
| TickMath.PriceIsPriced | crates/defi/uniswap-v3-math/src/tick_math.rs:20-96 | every price squared is 2^192 * 1.0001^tick to two parts in a billion |
| TickMath.PriceStrict | crates/defi/uniswap-v3-math/src/tick_math.rs:20-96 | a higher tick has a strictly higher price |
| TickMath.PriceEndpoints | crates/defi/uniswap-v3-math/src/tick_math.rs:10-14 | the extreme ticks have exactly the minimum and maximum price |
| TickMath.PriceInRange | crates/defi/uniswap-v3-math/src/tick_math.rs:20-96 | every price lies between those two |
| TickMath.AndPow2 | crates/defi/uniswap-v3-math/src/tick_math.rs:27-88 | masking with a power of two tests one bit |
| TickMath.Rise | crates/defi/uniswap-v3-math/src/tick_math.rs:33-88 | one conditional multiply, which never wraps, is one rung of the ladder |
| TickMath.Climb | crates/defi/uniswap-v3-math/src/tick_math.rs:27-88 | the whole chain is the ladder of all twenty bits |
| TickMath.Finish | crates/defi/uniswap-v3-math/src/tick_math.rs:90-95 | inverting for positive ticks, then shifting and rounding up |
| NearestMultipliers.RungsOfLadder | crates/defi/uniswap-v3-math/src/tick_math.rs:27-88 | the ratio starts at 2^128; a set bit multiplies it by its multiplier and drops 128 bits, a clear bit leaves it |
| NearestMultipliers.PriceIsLeast | crates/defi/uniswap-v3-math/src/tick_math.rs:90-95 | the price is the least one that, with 32 more bits, is not below the ratio, or its reciprocal for a positive tick |
| TickMath.GetSqrtRatioAtTick | crates/defi/uniswap-v3-math/src/tick_math.rs:20-96 | for every i32 the price of the tick, the range error, or the overflow of negating the least one |
| TickLog.Advance | crates/defi/uniswap-v3-math/src/tick_math.rs:142-149 | squaring and truncating a mantissa never overestimates, and triples the error at most, roughly |
| TickLog.BaseLog | crates/defi/uniswap-v3-math/src/tick_math.rs:16 | 2^79309033 <= 1.0001^(2^39) <= 2^79309034, which pins down the ratio of the logarithms |
| BinaryLog.Stage | crates/defi/uniswap-v3-math/src/tick_math.rs:107-135 | one stage of the search fixes one bit of the position and keeps the shifted ratio |
| BinaryLog.MostSignificantBit | crates/defi/uniswap-v3-math/src/tick_math.rs:103-137 | the eight stages give floor(log2(ratio)) for every positive word |
| BinaryLog.Normalise | crates/defi/uniswap-v3-math/src/tick_math.rs:139 | the mantissa lies in [2^127, 2^128) and holds the top bits of the ratio |
| BinaryLog.SquareMantissa | crates/defi/uniswap-v3-math/src/tick_math.rs:144-145 | the wrapping square does not wrap; its top bit is zero or one, and the halved square is a mantissa again |
| BinaryLog.AppendBit | crates/defi/uniswap-v3-math/src/tick_math.rs:146 | or-ing the bit into the two's complement word appends it to the signed logarithm |
| BinaryLog.LogStep | crates/defi/uniswap-v3-math/src/tick_math.rs:143-149 | every round keeps x^(2^j) between 2^c times the mantissa and that times one plus a tiny error |
| BinaryLog.Logarithm | crates/defi/uniswap-v3-math/src/tick_math.rs:103-153 | the word holds l = (msb - 128) * 2^14 + b, with msb the top bit of the ratio and b the fourteen bits that follow: 2^l <= (ratio / 2^128)^(2^14), never overestimating, and 2^(l+1) is not undershot by more than a part in 10^4 |
| BinaryLog.NeverOverestimates | crates/defi/uniswap-v3-math/src/tick_math.rs:103-153 | the same bound for the integer ratio: 2^(msb * 2^14 + b) <= ratio^(2^14), for the msb and b that the word holds |
| TickInverse.LowSide | crates/defi/uniswap-v3-math/src/tick_math.rs:157 | the low candidate never exceeds the tick of the price |
| TickInverse.HighSide | crates/defi/uniswap-v3-math/src/tick_math.rs:159 | the high candidate is never below the tick of the price |
| TickInverse.Candidates | crates/defi/uniswap-v3-math/src/tick_math.rs:155-159 | the tick of the price is one of the two candidates, which are equal or neighbours |
| TickInverse.FixedTicks | crates/defi/uniswap-v3-math/src/tick_math.rs:155-159 | the wrapped product, shifted and cut to 32 bits, is the signed floor division |
| TickInverse.GetTickAtSqrtRatio | crates/defi/uniswap-v3-math/src/tick_math.rs:98-170 | for every valid price the result is the tick with price(t) <= p < price(t + 1); every other price is refused |
| TickInverse.TickUnique | crates/defi/uniswap-v3-math/src/tick_math.rs:98-170 | no other tick has that property |
| TickInverse.RoundTrip | crates/defi/uniswap-v3-math/src/tick_math.rs:98-170 | going from a tick to its price and back is the identity |
| BitMath.TopBitIsGreatest | crates/defi/uniswap-v3-math/src/bit_math.rs:4-9 | the most significant bit is set and no higher one is |
| BitMath.LastBitIsLeast | crates/defi/uniswap-v3-math/src/bit_math.rs:11-16 | the least significant bit is set and no lower one is |
| TickBitmap.SharedSlot | crates/defi/uniswap-v3-math/src/tick_bitmap.rs:144-146 | two ticks share a word and a bit exactly when they differ by a multiple of 2^24 |
| TickBitmap.PositionIs | crates/defi/uniswap-v3-math/src/tick_bitmap.rs:144-146 | bit b of word w is the compressed tick 256 * w + b, or one a multiple of 2^24 away |
| TickBitmap.CompressedIsFloor | crates/defi/uniswap-v3-math/src/tick_bitmap.rs:37 | the adjustment for negative ticks turns truncation into floor division |
| TickBitmap.FlipChanges | crates/defi/uniswap-v3-math/src/tick_bitmap.rs:22-25 | a flip changes exactly the ticks that share the slot, for all ticks |
| TickBitmap.FlipToggles | crates/defi/uniswap-v3-math/src/tick_bitmap.rs:17-27 | inside the index a flip toggles one element of the plain set |
| TickBitmap.FlipAgreesIff | crates/defi/uniswap-v3-math/src/tick_bitmap.rs:17-27 | for all ticks: flipping is toggling exactly inside the index; outside it changes a second tick |
| TickBitmap.Bitmap.constructor | crates/defi/uniswap-v3-math/src/tick_bitmap.rs:17 | an empty bitmap agrees with the empty set |
| TickBitmap.Bitmap.FlipTick | crates/defi/uniswap-v3-math/src/tick_bitmap.rs:17-27 | flips the bit of a multiple of the spacing, refuses any other tick and changes nothing |
| TickBitmap.FlipsCount | crates/defi/uniswap-v3-math/src/tick_bitmap.rs:17-27 | after any run of flips, inside the index or not, a tick is set exactly when its slot was flipped an odd number of times |
| TickBitmap.FlipsAgree | crates/defi/uniswap-v3-math/src/tick_bitmap.rs:17-27 | after any run of flips inside the index the bitmap is the set of ticks flipped an odd number of times |
| TickBitmap.StepDownScans | crates/defi/uniswap-v3-math/src/tick_bitmap.rs:39-55 | mask and most significant bit answer like a linear scan downwards to the end of the word |
| TickBitmap.StepUpScans | crates/defi/uniswap-v3-math/src/tick_bitmap.rs:56-70 | mask and least significant bit answer like a linear scan upwards to the end of the word |
| TickBitmap.NextIsPlain | crates/defi/uniswap-v3-math/src/tick_bitmap.rs:31-72 | for every bitmap, tick, spacing and direction the search equals the scan of any set that agrees with the bitmap around the tick |
| TickBitmap.SearchIsScan | crates/defi/uniswap-v3-math/src/tick_bitmap.rs:31-72 | on the words of any pool a search in the index is a linear scan of the ticks 256 * w + b whose bits are set |
| TickBitmap.ThirdBitFound | crates/defi/uniswap-v3-math/src/tick_bitmap.rs:31-72 | with bit three of word zero set, a search down from tick five finds tick three |
| TickBitmap.SearchAfterFlips | crates/defi/uniswap-v3-math/src/tick_bitmap.rs:17-72 | after any run of flips inside the index a search answers as a linear scan of the ticks flipped an odd number of times |
| TickBitmap.WalkUpVisits | crates/defi/uniswap-v3-math/src/tick_bitmap.rs:31-72 | chained upward searches list exactly the initialized ticks of the interval, strictly increasing |
| TickBitmap.WalkDownVisits | crates/defi/uniswap-v3-math/src/tick_bitmap.rs:31-72 | chained downward searches list exactly the initialized ticks of the interval, strictly decreasing |
| PoolSwap.NetChains | crates/defi/pools/src/virtual_impl/uniswapv3.rs:174-194 | what two moves in a row add to the liquidity is what the whole move adds |
| PoolSwap.NetOfTick | crates/defi/pools/src/virtual_impl/uniswapv3.rs:174-194 | crossing one tick counts its entry in the nets, with the sign of the direction, exactly when it is a multiple of the spacing whose bit is set |
| PoolSwap.Crossed | crates/defi/pools/src/virtual_impl/uniswapv3.rs:176-194 | crossing a tick adds its net going up and subtracts it going down; it fails when the sum is out of range, and for the least i128, which cannot be negated |
| PoolSwap.UncheckedAgreesIff | crates/defi/pools/src/virtual_impl/uniswapv3.rs:176-194 | without overflow checks a crossing does the same exactly when the sum is below 2^128 and the net is not the least i128 |
| PoolSwap.RangeMeans | crates/defi/pools/src/virtual_impl/uniswapv3.rs:128-154 | the next tick is that of a linear scan, clamped to the extreme ticks; it lies ahead, short of it nothing is initialized, and at it only its own tick |
| PoolSwap.NextRange | crates/defi/pools/src/virtual_impl/uniswapv3.rs:128-154 | search, clamp, price and target never fail on a valid tick and give that range |
| PoolSwap.ArrivedMeans | crates/defi/pools/src/virtual_impl/uniswapv3.rs:174-201 | after a step tick and price agree again, and the liquidity has changed by the initialized ticks between the old and the new tick; the only failure is a crossing whose sum is out of range |
| PoolSwap.Arrive | crates/defi/pools/src/virtual_impl/uniswapv3.rs:174-201 | the branches compute that place, the tick by the logarithm |
| PoolSwap.IterationMeans | crates/defi/pools/src/virtual_impl/uniswapv3.rs:120-202 | one iteration from a price inside its limit never passes the limit, never overruns the request, is fair at its start price, and ends the loop or moves the tick on |
| PoolSwap.Iterate | crates/defi/pools/src/virtual_impl/uniswapv3.rs:120-202 | one iteration of the loop, with every error it can meet |
| PoolSwap.FloorIteration | crates/defi/pools/src/virtual_impl/uniswapv3.rs:120-202 | a downward swap that starts at the minimum price, beyond its own limit, ends after one iteration that does not overrun the request |
| PoolSwap.SwapFits | crates/defi/pools/src/virtual_impl/uniswapv3.rs:166-172 | neither total reaches 2^255, for any fee, so no sum of the loops wraps |
| PoolSwap.SimulateSwapIn | crates/defi/pools/src/virtual_impl/uniswapv3.rs:84-211 | the output of the whole swap, exactly, if the input was spent; the crossing's error; or a shortage |
| PoolSwap.SimulateSwapOut | crates/defi/pools/src/virtual_impl/uniswapv3.rs:213-341 | the input of the whole swap with its fees, exactly, for every fee, if the output was paid; the crossing's error; or a shortage |
| PoolFloor.FloorSwap | crates/defi/pools/src/virtual_impl/uniswapv3.rs:84-341 | the whole outcome of a downward swap from the minimum price: one step up for a request that is enough for it, otherwise a crossing of the first tick that may fail |
| PoolFloor.SwapMeans | crates/defi/pools/src/virtual_impl/uniswapv3.rs:84-341 | from every start every unit of the request is accounted for, only a crossing fails, and otherwise the swap ends filled or at the limit; the price goes from the start towards the limit, with tick and liquidity in step, exactly when it starts inside the limit; and the swap is no better than its start price exactly unless it turns around at the minimum price |
| PoolFloor.BackGainsIff | crates/defi/pools/src/virtual_impl/uniswapv3.rs:84-341 | which amounts gain on the way back from a swap that turned around |
| PoolFloor.FloorLoss | crates/defi/pools/src/virtual_impl/uniswapv3.rs:96-154 | at the minimum price with liquidity 2^96 and no fee, one unit buys more than 2^64, and one unit of that buys back more than one |
| PoolLaws.SwapMono | crates/defi/pools/src/virtual_impl/uniswapv3.rs:84-211 | from a start inside the limit, a swap with less input fails only if the larger one does, stops no further along, and pays no more; it is filled if the larger one is |
| PoolLaws.QuoteMono | crates/defi/pools/src/virtual_impl/uniswapv3.rs:84-211 | if the larger input is quoted so is the smaller, for no more; from every start, and exactly unless the smaller one is too small to leave the minimum price and fails to cross the first tick |
| PoolLaws.OneIsStuck | crates/defi/pools/src/virtual_impl/uniswapv3.rs:84-211 | a pool where two units are quoted and one is not |
| PoolLaws.SwapOutMono | crates/defi/pools/src/virtual_impl/uniswapv3.rs:213-341 | from a start inside the limit, a request for less output fails only if the larger one does, stops no further along, and costs no more; it is filled if the larger one is |
| PoolLaws.QuoteOutMono | crates/defi/pools/src/virtual_impl/uniswapv3.rs:213-341 | from every start, if the larger output is quoted so is the smaller, for no more |
| PoolLaws.QuoteBack | crates/defi/pools/src/virtual_impl/uniswapv3.rs:84-341 | from every start, if an output is quoted at some input and that input is quoted in turn, it pays at least that output; for spacings up to 200, which are all that pools have |
| PoolReturn.GainTied | crates/defi/pools/src/virtual_impl/uniswapv3.rs:174-194 | over any stretch of prices, whatever the liquidity of its ticks, neither token moves without the other |
| PoolReturn.SwapFlows | crates/defi/pools/src/virtual_impl/uniswapv3.rs:120-202 | from a start inside the limit, a whole swap takes at least, and pays at most, what the liquidity of the ticks it crosses is worth between its two prices |
| PoolValue.SwapIsWorth | crates/defi/pools/src/virtual_impl/uniswapv3.rs:84-341 | from a start inside the limit, what a swap takes, less the fee in millionths, and what it pays are the worth of the liquidity of every tick between its two prices: an exact input pays at most one unit less for each step, an exact output costs at most two units more for each step |
| PoolReturn.NoFreeReturn | crates/defi/pools/src/virtual_impl/uniswapv3.rs:84-341 | after a swap from any start, swapping back any part of its output from where it ended returns at most what was spent, however many ticks either crosses; exactly unless it turned around at the minimum price and the amount gains on the way back |
| LayeredState.ShowsItself | crates/evm/db/src/kabu_db.rs:515-558 | with an external database every read has an answer: the layers show a flat state, which is what their levels hold |
| LayeredState.SlotOfLevels | crates/evm/db/src/kabu_db.rs:536-558 | the first level that holds a slot, or hides it, answers for it with its value or zero; otherwise the lowest external database answers for that slot; without one there is no answer |
| LayeredState.InfoOfLevels | crates/evm/db/src/kabu_db.rs:515-529 | the first level that holds an account shows it; one held as not existing, or nowhere, is left to the lowest external database above that knows it; the zero address is an empty account |
| LayeredState.Normalised | crates/evm/db/src/kabu_db.rs:193-205 | given code with the empty hash is hashed, a zero hash becomes the empty one, any other stays |
| LayeredState.CachedAccount | crates/evm/db/src/kabu_db.rs:571-584 | `basic` puts a missing account into the overlay, with the info it has below and no slots, or as one that does not exist |
| LayeredState.CachedSlot | crates/evm/db/src/kabu_db.rs:599-632 | `storage` leaves the slot it read in the overlay unless the account hides it, and changes nothing else |
| LayeredState.SameBelow | crates/evm/db/src/kabu_db_helper.rs:41-100 | what the fall-through reads give does not depend on the overlay, and a changed overlay account changes no other address |
| LayeredState.LoadedShows | crates/evm/db/src/fast_cache_db.rs:271-295 | an account loaded from below shows what was below exactly when no slot is stored under a missing account |
| LayeredState.CacheAccountKeeps | crates/evm/db/src/kabu_db.rs:571-584 | `basic` answers like `basic_ref`; it keeps the view exactly when no slot is stored below under an account that is missing |
| LayeredState.CachingHides | crates/evm/db/src/kabu_db.rs:571-632 | a slot stored under a missing account is lost by reading the account or the slot |
| LayeredState.CacheSlotKeeps | crates/evm/db/src/kabu_db.rs:599-632 | `storage` keeps the view under the same exact condition; it answers like `storage_ref` exactly when the account is in the overlay or exists below, or this slot is zero below |
| LayeredState.ReplacedShows | crates/evm/db/src/kabu_db.rs:515-558 | a change of one overlay account is a given flat change exactly when that account shows it |
| LayeredState.CommitShows | crates/evm/db/src/kabu_db.rs:648-675 | a committed entry is the flat update (destroying removes, creating clears, touching overwrites) exactly when it uncovers no slot that a destroyed account was hiding |
| LayeredState.UnmarkedUncovers | crates/evm/db/src/kabu_db.rs:659-674 | a destroyed account touched without the created mark gets its old slots back |
| LayeredState.CommitAllShows | crates/evm/db/src/kabu_db.rs:647-676 | a whole commit, in any order, is the flat update if self-destructed accounts come back as created |
| LayeredState.RunRefinesFlat | crates/evm/db/src/kabu_db.rs:513-677 | over every lawful run of reads and commits all answers and the final view are those of the flat state |
| BlockUpdates.DiffShows | crates/evm/db/src/kabu_db.rs:316-347 | on any database, applying a diff overwrites exactly the fields and slots it mentions, a missing account starting from zero and the empty code, if and only if it uncovers nothing that a destroyed or cleared account was hiding |
| BlockUpdates.DiffFields | crates/evm/db/src/kabu_db.rs:325-338 | field by field, an account shows after a diff the balance, nonce, code and code hash given, and the old ones where not |
| BlockUpdates.DiffCreates | crates/evm/db/src/kabu_db.rs:325-338 | an account nowhere to be found starts with balance 0, nonce 0 and the empty code |
| BlockUpdates.DiffUncovers | crates/evm/db/src/kabu_db.rs:338 | an empty diff on a cleared account brings its old slots back |
| BlockUpdates.UpdateShows | crates/evm/db/src/kabu_db.rs:316-347 | on any database, an update is the fold of its diffs if and only if none of them uncovers anything, told from the database before the update |
| BlockUpdates.MergedInfo | crates/evm/db/src/kabu_db.rs:228-254 | which info each address shows after a merge, code hash included |
| BlockUpdates.MergedSlot | crates/evm/db/src/kabu_db.rs:228-254 | which value each slot shows after a merge |
| BlockUpdates.MergeResembles | crates/evm/db/src/kabu_db.rs:228-254 | a merge keeps every balance, nonce, code and slot exactly when overlay accounts exist (or are denied alike below) and hide no slots; without a read-only layer, exactly when overlay accounts exist and every slot that is not in the overlay is zero |
| BlockUpdates.MergeForgetsClearing | crates/evm/db/src/kabu_db.rs:776-799 | a slot cleared in the overlay comes back after a merge |
| BlockUpdates.DestroyedComesBack | crates/evm/db/src/kabu_db.rs:228-254 | an account destroyed by a commit comes back with the next merge, as an empty one |
| BlockUpdates.MergeWithoutBase | crates/evm/db/src/kabu_db.rs:229 | without a read-only layer a slot of the external database is lost |
| BlockUpdates.BlockShows | crates/evm/db/src/kabu_db.rs:316-347 | one block applies its diffs to the view and leaves an empty overlay over a layer that denies no account |
| BlockUpdates.BlocksFold | crates/evm/db/src/kabu_db.rs:508-510 | any number of blocks is the fold of all diffs over the initial view, up to code hashes |
| KabuDb.Database.constructor | crates/evm/db/src/kabu_db.rs:136-142 | an empty overlay over the given layers |
| KabuDb.Database.LoadAccount | crates/evm/db/src/kabu_db.rs:147-157 | copies an account into the overlay if it is not there |
| KabuDb.Database.Basic | crates/evm/db/src/kabu_db.rs:571-584 | new state and answer of the caching account read |
| KabuDb.Database.Storage | crates/evm/db/src/kabu_db.rs:599-632 | new state and answer of the caching slot read, errors included |
| KabuDb.Database.Commit | crates/evm/db/src/kabu_db.rs:647-676 | the in-place loop over the changes is the fold of the entries |
| KabuDb.Database.InsertAccountStorage | crates/evm/db/src/kabu_db.rs:214-218 | one slot written, the account loaded first |
| KabuDb.Database.ApplyGethUpdate | crates/evm/db/src/kabu_db.rs:316-341 | the in-place nested loops are the fold of the diffs |
| KabuDb.Database.MergeAll | crates/evm/db/src/kabu_db.rs:228-254 | the merge, whatever order the overlay is iterated in |
| UniswapV2.OutAmountIff | crates/defi/pools/src/uniswapv2pool.rs:243-255 | exactly when an output is quoted; it is the floor of x * fee * out / (in * 10000 + x * fee) |
| UniswapV2.InAmountIff | crates/defi/pools/src/uniswapv2pool.rs:272-290 | exactly when an input is quoted; it is one more than the floor of in * y * 10000 / ((out - y) * fee) |
| UniswapV2.OutRefusal | crates/defi/pools/src/uniswapv2pool.rs:243-255 | why an output is refused, in the order of the tests; that it exceeds the reserve is never the reason |
| UniswapV2.InRefusal | crates/defi/pools/src/uniswapv2pool.rs:272-290 | why an input is refused; that it overflows is never the reason |
| UniswapV2.OutAmountIsGreatest | crates/defi/pools/src/uniswapv2pool.rs:243-255 | a quote is the greatest payment that keeps the fee-adjusted product |
| UniswapV2.InAmountIsEnough | crates/defi/pools/src/uniswapv2pool.rs:272-290 | an input quote suffices, two less never does, and one less exactly when the division is exact |
| UniswapV2.QuoteLeavesReserve | crates/defi/pools/src/uniswapv2pool.rs:243-255 | a quote is below the reserve exactly when the other reserve is not empty |
| UniswapV2.ConstantProduct | crates/defi/pools/src/uniswapv2pool.rs:243-255 | no quote shrinks the product of the reserves when at most the whole input is traded |
| UniswapV2.SomeQuoteShrinksIff | crates/defi/pools/src/uniswapv2pool.rs:243-255 | some quote shrinks the product exactly for the fees above the whole input and below 2^255 |
| UniswapV2.HugeFeeKeeps | crates/defi/pools/src/uniswapv2pool.rs:243-255 | a fee of 2^255 or more leaves only the trade of one unit for one unit against an empty reserve |
| UniswapV2.OutOfInAmount | crates/defi/pools/src/uniswapv2pool.rs:243-290 | quoting out for the input quoted for y gives at least y |
| UniswapV2.TwoLessIsTooLittle | crates/defi/pools/src/uniswapv2pool.rs:243-290 | two less than that input gives less than y |
| UniswapV2.InOfOutAmount | crates/defi/pools/src/uniswapv2pool.rs:243-290 | quoting in for the output quoted for x gives at most x + 1 |
| UniswapV2.OutAmountMono | crates/defi/pools/src/uniswapv2pool.rs:243-255 | a larger input is never quoted less |
| OpcodesEncoder.EncodeDataOffset | crates/execution/multicaller/src/opcodes_encoder.rs:28-34 | masks, shifts and ors place the four fields side by side in 24 bits |
| OpcodesEncoder.PackOpcode | crates/execution/multicaller/src/opcodes_encoder.rs:65-117 | twelve header bytes, the address unless the call is internal, the data; unknown and custom calls are refused |
| OpcodesEncoder.PackDoCallsData | crates/execution/multicaller/src/opcodes_encoder.rs:128-134 | the packed calls one after the other, or the first error |
| OpcodesEncoder.HeaderSum | crates/execution/multicaller/src/opcodes_encoder.rs:97-100 | with fields that fit, or-ing them adds them |
| OpcodesEncoder.StackBack | crates/execution/multicaller/src/opcodes_encoder.rs:36-63 | a stack reference, shifted by the size of the header, reads back |
| OpcodesEncoder.HeaderBack | crates/execution/multicaller/src/opcodes_encoder.rs:92-104 | the header reads back as type, value, stack references and length |
| OpcodesEncoder.OneBack | crates/execution/multicaller/src/opcodes_encoder.rs:65-117 | whatever bytes follow, the first call decodes to the call that was packed, and they remain |
| OpcodesEncoder.ListBack | crates/execution/multicaller/src/opcodes_encoder.rs:128-134 | every list of encodable calls packs and decodes to itself, as far as the contract sees it |
| OpcodesEncoder.PackingInjective | crates/execution/multicaller/src/opcodes_encoder.rs:128-134 | lists with the same bytes are the same to the contract |
| OpcodesEncoder.PacksWhenKnown | crates/execution/multicaller/src/opcodes_encoder.rs:69-90 | a list packs exactly when no call is of unknown or custom type |
| OpcodesEncoder.ValuesCollide | crates/execution/multicaller/src/opcodes_encoder.rs:92-95 | the bound of 2^79 on values is tight: a value 2^79 larger has the same bytes |
| OpcodesEncoder.CallBytes | crates/execution/multicaller/src/opcodes_encoder.rs:65-117 | every byte of a packed call: 0x7F and the byte of its type, two zeros, three bytes each of where to store the result and where to patch the data, 12 or 32 bytes in, two of length, the address unless internal, the data |
| OpcodesEncoder.ValueBytes | crates/execution/multicaller/src/opcodes_encoder.rs:92-117 | a value is packed with the top bit of ten bytes set, before the length |
| OpcodesEncoder.BigEndianAt | crates/execution/multicaller/src/opcodes_encoder.rs:102-104 | which byte of a number stands where |

## Left out

- The signed wrappers `get_amount_0_delta`, `get_amount_1_delta` and `add_delta`: they only choose a rounding and a sign.
- i32 overflow of a tick times its spacing: ticks are unbounded integers. Pools have spacings of 1, 10, 60 and 200, for which no search leaves i32; for spacings of about 2^23 and more it can.
- A spacing of zero, which a pool with any other fee has, and by which the search divides.
- The bitmap search behind RPC calls: the same arithmetic.
- PoolSwap.Crossed: overflows are errors, as in a build with overflow checks; the release profile leaves them off. PoolSwap.UncheckedAgreesIff states exactly when that makes no difference.
- PoolSwap.SimulateSwapIn: does not cover amounts of 2^255 and more, which the source reinterprets as negative.
- PoolSwap.SimulateSwapOut: does not cover the same amounts.
- PoolSwap.IterationMeans: does not cover a downward iteration from the minimum price, which PoolSwap.FloorIteration does.
- PoolValue.SwapIsWorth: does not cover a downward swap from the minimum price, whose outcome is given by PoolFloor.FloorSwap.
- PoolLaws.SwapMono: does not cover a downward swap from the minimum price, whose outcome is PoolFloor.FloorSwap; PoolLaws.QuoteMono covers it.
- PoolLaws.SwapOutMono: the same; PoolLaws.QuoteOutMono covers it.
- PoolReturn.SwapFlows: the same; PoolReturn.NoFreeReturn covers it.
- LiquidityMath.Amount0Affordable: does not state that the liquidity is the greatest affordable one, which is false because the product of the prices is rounded down first; LiquidityMath.Amount0Tight bounds what that costs.
- The maps of contracts, logs and block hashes of the database, and reading code by its hash: separate maps without interplay with accounts and slots.
- Databases without an external database: reads that end in an error are modelled, but the refinement theorems assume one.
- `apply_geth_state_update`, `merge_accounts`, `merge_cells`, `replace_account_storage`: variants of what is modelled.
- The choice of reserves by token order, reading reserves and pool state out of the database, and gas figures of quotes.
- ABI encoding around the packed calls, keccak, bytecode, RPC, actors, the swap search and other pools.
