/** Liquidity estimation from token amounts for a Whirlpool position, after
    the Whirlpools SDK's `estimateLiquidityFromTokenAmounts`. Sqrt prices are
    Q64.64 fixed-point u128 values; the tick-to-sqrt-price table of the
    Whirlpool library is a function parameter. */
module WhirlpoolPosition {
  import opened Errors
  import opened SafeArithmetics

  /** Bounds of the pool's sqrt price (Whirlpool `MIN/MAX_SQRT_PRICE_X64`). */
  const MIN_SQRT_PRICE_X64: nat := 4295048016
  const MAX_SQRT_PRICE_X64: nat := 79226673515401279992447579055

  function MinNat(a: nat, b: nat): nat { if a <= b then a else b }
  function MaxNat(a: nat, b: nat): nat { if a <= b then b else a }

  /** `liquidity` is covered by `amount` of token A over the sqrt-price range
      between `p1` and `p2`: token A needed is L·(hi − lo)/(hi·lo) in Q64.64,
      i.e. L·(hi − lo)·2^64 <= amount·hi·lo. */
  predicate CoversTokenA(liquidity: nat, amount: nat, p1: nat, p2: nat)
  {
    var lo, hi := MinNat(p1, p2), MaxNat(p1, p2);
    liquidity * (hi - lo) * TWO_64 <= amount * hi * lo
  }

  /** `liquidity` is covered by `amount` of token B over the sqrt-price range
      between `p1` and `p2`: token B needed is L·(hi − lo) in Q64.64,
      i.e. L·(hi − lo) <= amount·2^64. */
  predicate CoversTokenB(liquidity: nat, amount: nat, p1: nat, p2: nat)
  {
    var lo, hi := MinNat(p1, p2), MaxNat(p1, p2);
    liquidity * (hi - lo) <= amount * TWO_64
  }

  /** The error `est_liquidity_for_token_a` reports when it fails. */
  function TokenAFailure(amount: nat, lo: nat, hi: nat): ErrorCode
  {
    if amount * hi * lo > U256_MAX then MathOverflowMul
    else if lo == hi then MathZeroDivision
    else MathOverflowConversion
  }

  /** `est_liquidity_for_token_a`: floor(floor(amount·hi·lo / 2^64) / (hi − lo))
      computed in 256 bits; it is the largest liquidity that `amount` of
      token A covers over the range. */
  function EstLiquidityForTokenA(sqrtPrice1: nat, sqrtPrice2: nat, amount: nat): (r: Result<nat>)
    requires Fits(U128, sqrtPrice1) && Fits(U128, sqrtPrice2) && Fits(U64, amount)
    ensures var lo, hi := MinNat(sqrtPrice1, sqrtPrice2), MaxNat(sqrtPrice1, sqrtPrice2);
      r.Ok? <==> amount * hi * lo <= U256_MAX && lo < hi && !CoversTokenA(TWO_128, amount, lo, hi)
    ensures r.Ok? ==> Fits(U128, r.value)
    ensures r.Ok? ==> CoversTokenA(r.value, amount, sqrtPrice1, sqrtPrice2)
    ensures r.Ok? ==> !CoversTokenA(r.value + 1, amount, sqrtPrice1, sqrtPrice2)
    ensures r.Err? ==>
      r.error == TokenAFailure(amount, MinNat(sqrtPrice1, sqrtPrice2), MaxNat(sqrtPrice1, sqrtPrice2))
  {
    var lo, hi := MinNat(sqrtPrice1, sqrtPrice2), MaxNat(sqrtPrice1, sqrtPrice2);
    // amount < 2^64 and hi < 2^128: the first product fits 256 bits
    MulMono(amount, hi, U64_MAX, U128_MAX);
    var first := SafeMul(U256, amount, hi).value;
    var product :- SafeMul(U256, first, lo);
    var num := product / TWO_64;
    var den := SafeSub(U256, hi, lo).value;
    var q :- SafeDiv(U256, num, den);
    TokenAQuotientIsLargestCovered(amount, lo, hi, product, q);
    TryInto(U128, q)
  }

  /** `est_liquidity_for_token_b`: floor(amount·2^64 / (hi − lo)); it is the
      largest liquidity that `amount` of token B covers over the range. */
  function EstLiquidityForTokenB(sqrtPrice1: nat, sqrtPrice2: nat, amount: nat): (r: Result<nat>)
    requires Fits(U128, sqrtPrice1) && Fits(U128, sqrtPrice2) && Fits(U64, amount)
    ensures r.Ok? <==> sqrtPrice1 != sqrtPrice2
    ensures r.Ok? ==> Fits(U128, r.value)
    ensures r.Ok? ==> CoversTokenB(r.value, amount, sqrtPrice1, sqrtPrice2)
    ensures r.Ok? ==> !CoversTokenB(r.value + 1, amount, sqrtPrice1, sqrtPrice2)
    ensures r.Err? ==> r.error == MathZeroDivision
  {
    var lo, hi := MinNat(sqrtPrice1, sqrtPrice2), MaxNat(sqrtPrice1, sqrtPrice2);
    var delta := SafeSub(U128, hi, lo).value;
    var amountX64 := ShiftLeft(U128, amount, TWO_64);
    // a u64 shifted by 64 loses no bit of a u128
    MulMono(amount, TWO_64, U64_MAX, TWO_64);
    ModOfSmall(amount * TWO_64, TWO_128);
    var r := SafeDiv(U128, amountX64, delta);
    if r.Ok? then
      assert r.value * (hi - lo) <= amount * TWO_64;
      r
    else r
  }

  /** `<<` by the exponent of `factor`: the bits shifted out of the width are dropped. */
  function ShiftLeft(w: Width, x: nat, factor: nat): nat
  {
    (x * factor) % Modulus(w)
  }

  /** `est_liquidity_from_token_amounts`: only token B counts at or above the
      range, only token A below it, and inside it the smaller of the A
      estimate over [current, upper] and the B estimate over [lower, current]. */
  function EstLiquidityFromTokenAmounts(currSqrtPrice: nat, currTick: int, lowerTick: int, upperTick: int,
                                        amountA: nat, amountB: nat, sqrtPriceAt: int -> nat): (r: Result<nat>)
    requires Fits(U128, currSqrtPrice) && Fits(U64, amountA) && Fits(U64, amountB)
    requires Fits(U128, sqrtPriceAt(lowerTick)) && Fits(U128, sqrtPriceAt(upperTick))
    ensures r.Ok? ==> Fits(U128, r.value)
  {
    var lowerSqrtPrice := sqrtPriceAt(lowerTick);
    var upperSqrtPrice := sqrtPriceAt(upperTick);
    if currTick >= upperTick then
      EstLiquidityForTokenB(upperSqrtPrice, lowerSqrtPrice, amountB)
    else if currTick < lowerTick then
      EstLiquidityForTokenA(lowerSqrtPrice, upperSqrtPrice, amountA)
    else
      var fromA :- EstLiquidityForTokenA(currSqrtPrice, upperSqrtPrice, amountA);
      var fromB :- EstLiquidityForTokenB(currSqrtPrice, lowerSqrtPrice, amountB);
      Ok(MinNat(fromA, fromB))
  }

  /** The fields of a Whirlpool pool account the vault reads. */
  datatype WhirlpoolAccount = WhirlpoolAccount(
    key: nat,
    sqrtPrice: nat,
    tickCurrentIndex: int,
    tokenMintA: nat,
    tokenMintB: nat,
    /** the mints of the pool's reward slots */
    rewardMints: seq<nat>)

  /** The fields of a Whirlpool position account the vault reads. */
  datatype PositionAccount = PositionAccount(key: nat, liquidity: nat, tickLowerIndex: int, tickUpperIndex: int)

  /** `PositionAccounts`: a position together with the pool it belongs to. */
  datatype PositionAccounts = PositionAccounts(whirlpool: WhirlpoolAccount, position: PositionAccount)

  /** The arguments of a Whirlpool `swap` CPI. */
  datatype SwapParams = SwapParams(
    amount: nat,
    otherAmountThreshold: nat,
    sqrtPriceLimit: nat,
    amountSpecifiedIsInput: bool,
    aToB: bool)

  /** The arguments of an `increase_liquidity` or `decrease_liquidity` CPI:
      the liquidity and the token cap (increase) or minimum (decrease) per side. */
  datatype ModifyLiquidity = ModifyLiquidity(liquidity: nat, tokenA: nat, tokenB: nat)

  /** The account fields fit their on-chain types. */
  predicate AccountsFit(accounts: PositionAccounts, sqrtPriceAt: int -> nat)
  {
    && Fits(U128, accounts.whirlpool.sqrtPrice)
    && Fits(U128, accounts.position.liquidity)
    && Fits(U128, sqrtPriceAt(accounts.position.tickLowerIndex))
    && Fits(U128, sqrtPriceAt(accounts.position.tickUpperIndex))
  }

  /** `liquidity_from_token_amounts`: the estimate for the position's tick
      range at the pool's current sqrt price and tick. */
  function LiquidityFromTokenAmounts(accounts: PositionAccounts, amountA: nat, amountB: nat,
                                     sqrtPriceAt: int -> nat): (r: Result<nat>)
    requires AccountsFit(accounts, sqrtPriceAt) && Fits(U64, amountA) && Fits(U64, amountB)
    ensures r.Ok? ==> Fits(U128, r.value)
    ensures r.Ok? ==> forall l: nat ::
      Fundable(l, accounts.whirlpool.sqrtPrice, accounts.whirlpool.tickCurrentIndex,
               accounts.position.tickLowerIndex, accounts.position.tickUpperIndex, amountA, amountB, sqrtPriceAt)
      <==> l <= r.value
  {
    var pool, position := accounts.whirlpool, accounts.position;
    var r := EstLiquidityFromTokenAmounts(pool.sqrtPrice, pool.tickCurrentIndex, position.tickLowerIndex,
                                          position.tickUpperIndex, amountA, amountB, sqrtPriceAt);
    if r.Ok? then
      assert forall l: nat :: Fundable(l, pool.sqrtPrice, pool.tickCurrentIndex, position.tickLowerIndex, position.tickUpperIndex, amountA, amountB, sqrtPriceAt) <==> l <= r.value by {
        forall l: nat
          ensures Fundable(l, pool.sqrtPrice, pool.tickCurrentIndex, position.tickLowerIndex, position.tickUpperIndex, amountA, amountB, sqrtPriceAt) <==> l <= r.value
        {
          EstimateIsLargestFundable(pool.sqrtPrice, pool.tickCurrentIndex, position.tickLowerIndex,
                                    position.tickUpperIndex, amountA, amountB, sqrtPriceAt, l);
        }
      }
      r
    else r
  }

  /** The token amounts cover `liquidity` in the position's range at the
      pool's current price: token B alone above the range, token A alone
      below it, both sides of the current price inside it. */
  predicate Fundable(liquidity: nat, currSqrtPrice: nat, currTick: int, lowerTick: int, upperTick: int,
                     amountA: nat, amountB: nat, sqrtPriceAt: int -> nat)
  {
    var lowerSqrtPrice, upperSqrtPrice := sqrtPriceAt(lowerTick), sqrtPriceAt(upperTick);
    if currTick >= upperTick then CoversTokenB(liquidity, amountB, upperSqrtPrice, lowerSqrtPrice)
    else if currTick < lowerTick then CoversTokenA(liquidity, amountA, lowerSqrtPrice, upperSqrtPrice)
    else
      CoversTokenA(liquidity, amountA, currSqrtPrice, upperSqrtPrice)
      && CoversTokenB(liquidity, amountB, currSqrtPrice, lowerSqrtPrice)
  }

  // ---------------------------------------------------------------------
  // Properties

  /** The estimate is exactly the largest liquidity the token amounts fund:
      every liquidity up to it is fundable and none above it is. */
  lemma EstimateIsLargestFundable(currSqrtPrice: nat, currTick: int, lowerTick: int, upperTick: int,
                                  amountA: nat, amountB: nat, sqrtPriceAt: int -> nat, liquidity: nat)
    requires Fits(U128, currSqrtPrice) && Fits(U64, amountA) && Fits(U64, amountB)
    requires Fits(U128, sqrtPriceAt(lowerTick)) && Fits(U128, sqrtPriceAt(upperTick))
    requires EstLiquidityFromTokenAmounts(currSqrtPrice, currTick, lowerTick, upperTick, amountA, amountB, sqrtPriceAt).Ok?
    ensures var est := EstLiquidityFromTokenAmounts(currSqrtPrice, currTick, lowerTick, upperTick, amountA, amountB, sqrtPriceAt).value;
      Fundable(liquidity, currSqrtPrice, currTick, lowerTick, upperTick, amountA, amountB, sqrtPriceAt) <==> liquidity <= est
  {
    var lower, upper := sqrtPriceAt(lowerTick), sqrtPriceAt(upperTick);
    if currTick >= upperTick {
      TokenBIsThreshold(upper, lower, amountB, liquidity);
    } else if currTick < lowerTick {
      TokenAIsThreshold(lower, upper, amountA, liquidity);
    } else {
      TokenAIsThreshold(currSqrtPrice, upper, amountA, liquidity);
      TokenBIsThreshold(currSqrtPrice, lower, amountB, liquidity);
    }
  }

  lemma TokenAIsThreshold(p1: nat, p2: nat, amount: nat, liquidity: nat)
    requires Fits(U128, p1) && Fits(U128, p2) && Fits(U64, amount)
    requires EstLiquidityForTokenA(p1, p2, amount).Ok?
    ensures CoversTokenA(liquidity, amount, p1, p2) <==> liquidity <= EstLiquidityForTokenA(p1, p2, amount).value
  {
    var est := EstLiquidityForTokenA(p1, p2, amount).value;
    var lo, hi := MinNat(p1, p2), MaxNat(p1, p2);
    if liquidity <= est {
      CoverageDownwardClosed3(liquidity, est, hi - lo, TWO_64, amount * hi * lo);
    } else {
      CoverageDownwardClosed3(est + 1, liquidity, hi - lo, TWO_64, amount * hi * lo);
    }
  }

  lemma TokenBIsThreshold(p1: nat, p2: nat, amount: nat, liquidity: nat)
    requires Fits(U128, p1) && Fits(U128, p2) && Fits(U64, amount)
    requires EstLiquidityForTokenB(p1, p2, amount).Ok?
    ensures CoversTokenB(liquidity, amount, p1, p2) <==> liquidity <= EstLiquidityForTokenB(p1, p2, amount).value
  {
    var est := EstLiquidityForTokenB(p1, p2, amount).value;
    var lo, hi := MinNat(p1, p2), MaxNat(p1, p2);
    if liquidity <= est {
      CoverageDownwardClosed(liquidity, est, hi - lo, amount * TWO_64);
    } else {
      CoverageDownwardClosed(est + 1, liquidity, hi - lo, amount * TWO_64);
    }
  }

  /** Inside the range the estimate is no larger than either one-sided estimate. */
  lemma InRangeIsBelowEachSide(currSqrtPrice: nat, currTick: int, lowerTick: int, upperTick: int,
                               amountA: nat, amountB: nat, sqrtPriceAt: int -> nat)
    requires Fits(U128, currSqrtPrice) && Fits(U64, amountA) && Fits(U64, amountB)
    requires Fits(U128, sqrtPriceAt(lowerTick)) && Fits(U128, sqrtPriceAt(upperTick))
    requires lowerTick <= currTick < upperTick
    requires EstLiquidityFromTokenAmounts(currSqrtPrice, currTick, lowerTick, upperTick, amountA, amountB, sqrtPriceAt).Ok?
    ensures var est := EstLiquidityFromTokenAmounts(currSqrtPrice, currTick, lowerTick, upperTick, amountA, amountB, sqrtPriceAt).value;
      && EstLiquidityForTokenA(currSqrtPrice, sqrtPriceAt(upperTick), amountA).Ok?
      && EstLiquidityForTokenB(currSqrtPrice, sqrtPriceAt(lowerTick), amountB).Ok?
      && est <= EstLiquidityForTokenA(currSqrtPrice, sqrtPriceAt(upperTick), amountA).value
      && est <= EstLiquidityForTokenB(currSqrtPrice, sqrtPriceAt(lowerTick), amountB).value
  {
  }

  /** At or above the range only token B and the range's prices matter. */
  lemma AboveRangeUsesOnlyTokenB(currSqrtPrice: nat, currSqrtPrice': nat, currTick: int, lowerTick: int, upperTick: int,
                                 amountA: nat, amountA': nat, amountB: nat, sqrtPriceAt: int -> nat)
    requires Fits(U128, currSqrtPrice) && Fits(U128, currSqrtPrice') && Fits(U64, amountA) && Fits(U64, amountA') && Fits(U64, amountB)
    requires Fits(U128, sqrtPriceAt(lowerTick)) && Fits(U128, sqrtPriceAt(upperTick))
    requires currTick >= upperTick
    ensures EstLiquidityFromTokenAmounts(currSqrtPrice, currTick, lowerTick, upperTick, amountA, amountB, sqrtPriceAt)
         == EstLiquidityFromTokenAmounts(currSqrtPrice', currTick, lowerTick, upperTick, amountA', amountB, sqrtPriceAt)
  {
  }

  /** Below the range only token A and the range's prices matter. */
  lemma BelowRangeUsesOnlyTokenA(currSqrtPrice: nat, currSqrtPrice': nat, currTick: int, lowerTick: int, upperTick: int,
                                 amountA: nat, amountB: nat, amountB': nat, sqrtPriceAt: int -> nat)
    requires Fits(U128, currSqrtPrice) && Fits(U128, currSqrtPrice') && Fits(U64, amountA) && Fits(U64, amountB) && Fits(U64, amountB')
    requires Fits(U128, sqrtPriceAt(lowerTick)) && Fits(U128, sqrtPriceAt(upperTick))
    requires currTick < lowerTick <= upperTick
    ensures EstLiquidityFromTokenAmounts(currSqrtPrice, currTick, lowerTick, upperTick, amountA, amountB, sqrtPriceAt)
         == EstLiquidityFromTokenAmounts(currSqrtPrice', currTick, lowerTick, upperTick, amountA, amountB', sqrtPriceAt)
  {
  }

  /** The order of the two sqrt prices given to an estimator is irrelevant. */
  lemma EstimatorsIgnoreArgumentOrder(p1: nat, p2: nat, amount: nat)
    requires Fits(U128, p1) && Fits(U128, p2) && Fits(U64, amount)
    ensures EstLiquidityForTokenA(p1, p2, amount) == EstLiquidityForTokenA(p2, p1, amount)
    ensures EstLiquidityForTokenB(p1, p2, amount) == EstLiquidityForTokenB(p2, p1, amount)
  {
  }

  /** For sqrt prices inside the pool's bounds the 256-bit product
      amount·hi·lo never overflows, so the token A estimator can only fail on
      equal prices or a result above u128. */
  lemma NoProductOverflowWithinPoolBounds(p1: nat, p2: nat, amount: nat)
    requires p1 <= MAX_SQRT_PRICE_X64 && p2 <= MAX_SQRT_PRICE_X64 && Fits(U64, amount)
    ensures amount * MaxNat(p1, p2) * MinNat(p1, p2) <= U256_MAX
    ensures EstLiquidityForTokenA(p1, p2, amount).Err? ==>
      EstLiquidityForTokenA(p1, p2, amount).error != MathOverflowMul
  {
    var lo, hi := MinNat(p1, p2), MaxNat(p1, p2);
    MulMono(amount, hi, U64_MAX, MAX_SQRT_PRICE_X64);
    MulMono(amount * hi, lo, U64_MAX * MAX_SQRT_PRICE_X64, MAX_SQRT_PRICE_X64);
    assert U64_MAX * MAX_SQRT_PRICE_X64 * MAX_SQRT_PRICE_X64 <= U256_MAX;
  }

  /** The Orca SDK test cases, with the Whirlpool table's sqrt prices at the
      ticks they use. */
  lemma EstimateExamples(sqrtPriceAt: int -> nat)
    requires sqrtPriceAt(0) == 18446744073709551616
    requires sqrtPriceAt(-1280) == 17303193532643067811
    requires sqrtPriceAt(1280) == 19665870712188713155
    requires sqrtPriceAt(7168) == 26397517275578219019
    requires sqrtPriceAt(8960) == 28871804135799952265
    requires Fits(U128, sqrtPriceAt(500)) && Fits(U128, sqrtPriceAt(1300))
    ensures EstLiquidityFromTokenAmounts(sqrtPriceAt(0), 0, -1280, 1280, 167_000, 167_000, sqrtPriceAt) == Ok(2693896)
    ensures EstLiquidityFromTokenAmounts(sqrtPriceAt(500), 500, 7168, 8960, 1_000_000, 0, sqrtPriceAt) == Ok(16698106)
    ensures EstLiquidityFromTokenAmounts(sqrtPriceAt(1300), 1300, -1280, 1280, 0, 167_000, sqrtPriceAt) == Ok(1303862)
  {
  }

  // ---------------------------------------------------------------------
  // Arithmetic facts used above

  /** With x = floor(X / k) and L = floor(x / d), L is the largest liquidity
      with L·d·k <= X. */
  lemma LargestCovered(product: nat, k: nat, d: nat, x: nat, l: nat)
    requires k > 0 && d > 0
    requires x * k <= product < (x + 1) * k
    requires l * d <= x < (l + 1) * d
    ensures l * d * k <= product
    ensures product < (l + 1) * d * k
  {
    MulMono(l * d, k, x, k);
    MulMono(x + 1, k, (l + 1) * d, k);
  }

  /** The double floor of the token A estimator is the largest liquidity
      token A covers, and it fits u128 exactly when 2^128 is not covered. */
  lemma TokenAQuotientIsLargestCovered(amount: nat, lo: nat, hi: nat, product: nat, q: nat)
    requires lo < hi && product == amount * hi * lo && q == (product / TWO_64) / (hi - lo)
    ensures CoversTokenA(q, amount, lo, hi) && !CoversTokenA(q + 1, amount, lo, hi)
    ensures Fits(U128, q) <==> !CoversTokenA(TWO_128, amount, lo, hi)
  {
    DoubleFloorIsLargest(product, TWO_64, hi - lo, TWO_128);
  }

  /** `q = floor(floor(product / k) / d)` is the largest `l` with
      `l·d·k <= product`, so it is below `cap` exactly when `cap` is not
      covered. */
  lemma DoubleFloorIsLargest(product: nat, k: nat, d: nat, cap: nat)
    requires k > 0 && d > 0
    ensures var q := (product / k) / d;
      && q * d * k <= product < (q + 1) * d * k
      && (q < cap <==> product < cap * d * k)
  {
    var num := product / k;
    var q := num / d;
    FloorBounds(product, k);
    FloorBounds(num, d);
    LargestCovered(product, k, d, num, q);
    if q < cap {
      CoverageDownwardClosed3(q + 1, cap, d, k, product);
    } else {
      CoverageDownwardClosed3(cap, q, d, k, product);
    }
  }

  lemma CoverageDownwardClosed3(l: nat, l': nat, d: nat, k: nat, budget: nat)
    requires l <= l'
    ensures l' * d * k <= budget ==> l * d * k <= budget
  {
    MulMono(l, d, l', d);
    MulMono(l * d, k, l' * d, k);
  }

  /** Coverage `l·k <= budget` is downward closed in `l`. */
  lemma CoverageDownwardClosed(l: nat, l': nat, k: nat, budget: nat)
    requires l <= l'
    ensures l' * k <= budget ==> l * k <= budget
  {
    MulMono(l, k, l', k);
  }

  lemma ModOfSmall(x: nat, m: nat)
    requires x < m
    ensures x % m == x
  {
  }
}
