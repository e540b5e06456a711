/** `reinvest`: after a cooldown, swaps part of the vault's idle balances so
    that they match the active position's token ratio, deposits as much
    liquidity as the balances then fund, and records the liquidity gained. */
module Reinvest {
  import opened Errors
  import opened SafeArithmetics
  import opened WhirlpoolPosition
  import opened State

  /** `swap_params_from_a_to_b`: sell exactly `amountA` of token A, accepting
      any output and letting the price fall to the pool minimum. */
  function SwapParamsFromAToB(amountA: nat): SwapParams
  {
    SwapParams(amountA, 1, MIN_SQRT_PRICE_X64, true, true)
  }

  /** `swap_params_from_b_to_a`: an exact-output swap of B for A: `amount`
      is what is to come out (token A), any amount of token B may be paid
      and the price may rise to the pool maximum. */
  function SwapParamsFromBToA(amount: nat): SwapParams
  {
    SwapParams(amount, U64_MAX, MAX_SQRT_PRICE_X64, false, false)
  }

  /** The position's A:B ratio as a Q64.64 number, rounded down. */
  function RatioX64(positionAmountA: nat, positionAmountB: nat): (r: nat)
    requires positionAmountB > 0
    ensures r * positionAmountB <= TWO_64 * positionAmountA < (r + 1) * positionAmountB
  {
    var scaled: nat := TWO_64 * positionAmountA;
    FloorBounds(scaled, positionAmountB);
    scaled / positionAmountB
  }

  /** Selling `x` of the `a` idle A tokens for B at the pool price
      `price / 2^128` (B per A) leaves at least `ratio / 2^64` A per B. */
  predicate SaleKeepsRatio(x: nat, a: nat, b: nat, ratio: nat, price: nat)
  {
    x <= a && ratio * (b * TWO_128 + x * price) <= (a - x) * TWO_192
  }

  /** Buying `x` A tokens with B at the pool price leaves at most
      `ratio / 2^64` A per B. */
  predicate PurchaseKeepsRatio(x: nat, a: nat, b: nat, ratio: nat, price: nat)
  {
    (a + x) * TWO_192 + ratio * (x * price) <= ratio * (b * TWO_128)
  }

  /** The swap of the reinvest, from the vault's idle balances `a`, `b`, the
      token amounts the position's liquidity is worth and the pool's sqrt
      price: everything is sold to the side the position lacks, and a
      position holding both tokens gets the balancing swap at its ratio. */
  function ReinvestSwap(a: nat, b: nat, positionAmountA: nat, positionAmountB: nat, sqrtPrice: nat): (r: Result<SwapParams>)
    requires Fits(U64, a) && Fits(U64, b) && Fits(U64, positionAmountA) && Fits(U64, positionAmountB)
    requires Fits(U128, sqrtPrice)
    ensures positionAmountA == 0 ==> r == Ok(SwapParamsFromAToB(a))
    ensures positionAmountA > 0 && positionAmountB == 0 ==> r == Ok(SwapParamsFromBToA(b))
    ensures positionAmountA > 0 && positionAmountB > 0 ==>
      && Fits(U128, RatioX64(positionAmountA, positionAmountB)) && Fits(U256, sqrtPrice * sqrtPrice)
      && r == BalancingSwap(a, b, RatioX64(positionAmountA, positionAmountB), sqrtPrice * sqrtPrice)
  {
    if positionAmountA == 0 then Ok(SwapParamsFromAToB(a))
    else if positionAmountB == 0 then Ok(SwapParamsFromBToA(b))
    else
      MulMono(sqrtPrice, sqrtPrice, U128_MAX, U128_MAX);
      RatioFits(positionAmountA, positionAmountB);
      var ratio := SafeMulDiv(U128, TWO_64, positionAmountA, positionAmountB).value;
      BalancingSwap(a, b, ratio, sqrtPrice * sqrtPrice)
  }

  /** The closed-form swap for a position holding both tokens, given its
      ratio (Q64.64) and the pool price (Q128.128): the largest swap that
      does not carry the idle balances past the ratio at the pool price. */
  function BalancingSwap(a: nat, b: nat, ratio: nat, price: nat): (r: Result<SwapParams>)
    requires Fits(U64, a) && Fits(U64, b) && Fits(U128, ratio) && Fits(U256, price)
    ensures r.Err? <==> ratio * b > U128_MAX || TWO_192 + ratio * price > U256_MAX
    ensures r.Err? ==> r.error == if ratio * b > U128_MAX || ratio * price > U256_MAX then MathOverflowMul else MathOverflowAdd
    ensures r.Ok? ==> Fits(U64, r.value.amount) && (r.value.aToB <==> a * TWO_64 > ratio * b)
    ensures r.Ok? && r.value.aToB ==> r.value == SwapParamsFromAToB(r.value.amount) && LargestSale(r.value.amount, a, b, ratio, price)
    ensures r.Ok? && !r.value.aToB ==> r.value == SwapParamsFromBToA(r.value.amount) && LargestPurchase(r.value.amount, a, b, ratio, price)
  {
    var ratioTimesPrice :- SafeMul(U256, ratio, price);
    var ratioTimesB :- SafeMul(U128, ratio, b);
    var aX64 := a * TWO_64;
    assert aX64 <= U128_MAX by {
      MulMono(a, TWO_64, U64_MAX, TWO_64);
    }
    var isDeltaAPositive := aX64 > ratioTimesB;
    var numerator := if isDeltaAPositive then aX64 - ratioTimesB else ratioTimesB - aX64;
    assert numerator <= U128_MAX;
    var denominator :- SafeAdd(U256, TWO_192, ratioTimesPrice);
    assert numerator * TWO_128 <= U256_MAX by {
      MulMono(numerator, TWO_128, U128_MAX, TWO_128);
    }
    var x := SafeDiv(U256, numerator * TWO_128, denominator).value;
    SwapAmountMeaning(a, b, ratio, price, numerator, denominator, x, isDeltaAPositive);
    var amount := TryInto(U64, x).value;
    if isDeltaAPositive then Ok(SwapParamsFromAToB(amount)) else Ok(SwapParamsFromBToA(amount))
  }

  /** `x` is the largest sale that keeps the ratio. */
  predicate LargestSale(x: nat, a: nat, b: nat, ratio: nat, price: nat)
  {
    SaleKeepsRatio(x, a, b, ratio, price) && !SaleKeepsRatio(x + 1, a, b, ratio, price)
  }

  /** `x` is the largest purchase that keeps the ratio. */
  predicate LargestPurchase(x: nat, a: nat, b: nat, ratio: nat, price: nat)
  {
    PurchaseKeepsRatio(x, a, b, ratio, price) && !PurchaseKeepsRatio(x + 1, a, b, ratio, price)
  }

  /** What the handler asks of the Whirlpool program. */
  datatype ReinvestPlan = ReinvestPlan(swap: SwapParams, increase: Option<ModifyLiquidity>)

  /** `deposit_max_possible_liquidity_cpi`: with both idle balances positive,
      the largest liquidity they fund is added, capped by the balances. */
  function DepositMaxPossibleLiquidity(accounts: PositionAccounts, a: nat, b: nat, sqrtPriceAt: int -> nat): (r: Result<Option<ModifyLiquidity>>)
    requires AccountsFit(accounts, sqrtPriceAt) && Fits(U64, a) && Fits(U64, b)
    ensures a == 0 || b == 0 ==> r == Ok(None)
    ensures a > 0 && b > 0 ==> r.Ok? == LiquidityFromTokenAmounts(accounts, a, b, sqrtPriceAt).Ok?
    ensures a > 0 && b > 0 && r.Ok? ==> r.value.Some?
    ensures r.Ok? && r.value.Some? ==>
      && r.value.value.tokenA == a && r.value.value.tokenB == b
      && forall l: nat ::
           Fundable(l, accounts.whirlpool.sqrtPrice, accounts.whirlpool.tickCurrentIndex,
                    accounts.position.tickLowerIndex, accounts.position.tickUpperIndex, a, b, sqrtPriceAt)
           <==> l <= r.value.value.liquidity
  {
    if a > 0 && b > 0 then
      var liquidity :- LiquidityFromTokenAmounts(accounts, a, b, sqrtPriceAt);
      Ok(Some(ModifyLiquidity(liquidity, a, b)))
    else Ok(None)
  }

  /** The first check the instruction fails, in the handler's order, for a
      vault in state `v`; the arguments are those of `Handler`. */
  function ReinvestError(v: VaultSnapshot, accounts: PositionAccounts, poolAfterSwap: WhirlpoolAccount, currentSlot: nat,
                         a: nat, b: nat, positionAmountA: nat, positionAmountB: nat,
                         swappedA: nat, swappedB: nat, liquidityAfter: nat, sqrtPriceAt: int -> nat): Option<ErrorCode>
    requires AccountsFit(PositionAccounts(poolAfterSwap, accounts.position), sqrtPriceAt)
    requires Fits(U64, a) && Fits(U64, b) && Fits(U64, positionAmountA) && Fits(U64, positionAmountB)
    requires Fits(U64, swappedA) && Fits(U64, swappedB) && Fits(U128, accounts.whirlpool.sqrtPrice)
  {
    var constraints := ActivePositionCheck(v.positions, v.whirlpoolId, accounts.whirlpool.key, accounts.position.key);
    if constraints.Fail? then Some(constraints.error)
    else if currentSlot < v.lastReinvestmentSlot then Some(MathOverflowSub)
    else if currentSlot - v.lastReinvestmentSlot < v.minSlotsForReinvest then Some(NotEnoughSlots)
    else match ReinvestSwap(a, b, positionAmountA, positionAmountB, accounts.whirlpool.sqrtPrice)
      case Err(e) => Some(e)
      case Ok(swap) =>
        if (if swap.aToB then swappedB < b else swappedA < a) then Some(MathOverflowSub)
        else match DepositMaxPossibleLiquidity(PositionAccounts(poolAfterSwap, accounts.position), swappedA, swappedB, sqrtPriceAt)
          case Err(e) => Some(e)
          case Ok(_) => if liquidityAfter < accounts.position.liquidity then Some(MathOverflowSub) else None
  }

  /** The handler. `accounts` is the active position with its pool before the
      swap and `poolAfterSwap` the pool after it; `a`, `b` are the vault's
      idle balances before the swap and `swappedA`, `swappedB` after it;
      `positionAmountA/B` are the token amounts of the position's liquidity
      (Whirlpool library); `liquidityAfter` is the position's liquidity once
      the deposit is done. */
  method Handler(vault: VaultAccount, accounts: PositionAccounts, poolAfterSwap: WhirlpoolAccount, currentSlot: nat,
                 a: nat, b: nat, positionAmountA: nat, positionAmountB: nat,
                 swappedA: nat, swappedB: nat, liquidityAfter: nat, sqrtPriceAt: int -> nat)
    returns (r: Result<ReinvestPlan>)
    requires vault.Valid()
    requires AccountsFit(accounts, sqrtPriceAt) && AccountsFit(PositionAccounts(poolAfterSwap, accounts.position), sqrtPriceAt)
    requires Fits(U64, currentSlot) && Fits(U128, liquidityAfter)
    requires Fits(U64, a) && Fits(U64, b) && Fits(U64, positionAmountA) && Fits(U64, positionAmountB)
    requires Fits(U64, swappedA) && Fits(U64, swappedB)
    modifies vault
    ensures vault.Valid()
    ensures r.Err? ==> vault.Snapshot() == old(vault.Snapshot())
    ensures ActivePositionCheck(old(vault.positions), old(vault.whirlpoolId), accounts.whirlpool.key, accounts.position.key).Fail? ==>
      r == Err(ActivePositionCheck(old(vault.positions), old(vault.whirlpoolId), accounts.whirlpool.key, accounts.position.key).error)
    ensures ActivePositionCheck(old(vault.positions), old(vault.whirlpoolId), accounts.whirlpool.key, accounts.position.key).Pass? ==>
      && (currentSlot < old(vault.lastReinvestmentSlot) ==> r == Err(MathOverflowSub))
      && (old(vault.lastReinvestmentSlot) <= currentSlot < old(vault.lastReinvestmentSlot) + old(vault.minSlotsForReinvest) ==>
            r == Err(NotEnoughSlots))
    ensures liquidityAfter < accounts.position.liquidity ==> r.Err?
    ensures var e := ReinvestError(old(vault.Snapshot()), accounts, poolAfterSwap, currentSlot, a, b,
                                   positionAmountA, positionAmountB, swappedA, swappedB, liquidityAfter, sqrtPriceAt);
      && (r.Err? <==> e.Some?)
      && (r.Err? ==> r.error == e.value)
    ensures r.Ok? ==>
      var swap := ReinvestSwap(a, b, positionAmountA, positionAmountB, accounts.whirlpool.sqrtPrice);
      var deposit := DepositMaxPossibleLiquidity(PositionAccounts(poolAfterSwap, accounts.position), swappedA, swappedB, sqrtPriceAt);
      && currentSlot >= old(vault.lastReinvestmentSlot) + old(vault.minSlotsForReinvest)
      && swap.Ok? && deposit.Ok? && r.value == ReinvestPlan(swap.value, deposit.value)
      && liquidityAfter >= accounts.position.liquidity
      && vault.Snapshot() == old(vault.Snapshot()).(
           lastReinvestmentSlot := currentSlot,
           lastLiquidityIncrease := liquidityAfter - accounts.position.liquidity)
  {
    var constraints := ActivePositionCheck(vault.positions, vault.whirlpoolId, accounts.whirlpool.key, accounts.position.key);
    :- constraints;
    var elapsedSlots :- SafeSub(U64, currentSlot, vault.lastReinvestmentSlot);
    :- Require(elapsedSlots >= vault.minSlotsForReinvest, NotEnoughSlots);
    var liquidityBefore := accounts.position.liquidity;
    var swap :- ReinvestSwap(a, b, positionAmountA, positionAmountB, accounts.whirlpool.sqrtPrice);
    // the swap event reports how much of the other token came in
    if swap.aToB {
      var amountOut :- SafeSub(U64, swappedB, b);
    } else {
      var amountOut :- SafeSub(U64, swappedA, a);
    }
    var increase :- DepositMaxPossibleLiquidity(PositionAccounts(poolAfterSwap, accounts.position), swappedA, swappedB, sqrtPriceAt);
    var liquidityIncrease :- SafeSub(U128, liquidityAfter, liquidityBefore);
    // the transaction is all-or-nothing, so the slot is written once nothing can fail
    vault.lastReinvestmentSlot := currentSlot;
    vault.lastLiquidityIncrease := liquidityIncrease;
    return Ok(ReinvestPlan(swap, increase));
  }

  // ---------------------------------------------------------------------
  // Properties

  /** Idle balances already in the position's ratio are not swapped: the
      amount is zero. */
  lemma BalancedVaultSwapsNothing(a: nat, b: nat, positionAmountA: nat, positionAmountB: nat, sqrtPrice: nat)
    requires Fits(U64, a) && Fits(U64, b) && Fits(U64, positionAmountA) && Fits(U64, positionAmountB)
    requires Fits(U128, sqrtPrice) && positionAmountA > 0 && positionAmountB > 0
    requires a * TWO_64 == RatioX64(positionAmountA, positionAmountB) * b
    requires ReinvestSwap(a, b, positionAmountA, positionAmountB, sqrtPrice).Ok?
    ensures ReinvestSwap(a, b, positionAmountA, positionAmountB, sqrtPrice).value.amount == 0
  {
    var ratio := RatioX64(positionAmountA, positionAmountB);
    var swap := BalancingSwap(a, b, ratio, sqrtPrice * sqrtPrice).value;
    BalancedPurchaseIsEmpty(swap.amount, a, b, ratio, sqrtPrice * sqrtPrice);
  }

  /** At the position's ratio, no purchase keeps the ratio but the empty one:
      `(a + x)·2^192 <= ratio·b·2^128 = a·2^192` forces `x = 0`. */
  lemma BalancedPurchaseIsEmpty(x: nat, a: nat, b: nat, ratio: nat, price: nat)
    requires a * TWO_64 == ratio * b
    requires PurchaseKeepsRatio(x, a, b, ratio, price)
    ensures x == 0
  {
    Associate(TWO_128, ratio, b);
    Associate(TWO_128, a, TWO_64);
    assert TWO_64 * TWO_128 == TWO_192;
    Distribute(TWO_192, a, x);
  }

  /** A purchase never spends more B, at the pool price, than the vault holds. */
  lemma PurchaseIsAffordable(x: nat, a: nat, b: nat, positionAmountA: nat, positionAmountB: nat, price: nat)
    requires Fits(U64, positionAmountA) && Fits(U64, positionAmountB) && positionAmountA > 0 && positionAmountB > 0
    requires PurchaseKeepsRatio(x, a, b, RatioX64(positionAmountA, positionAmountB), price)
    ensures x * price <= b * TWO_128
  {
    var ratio := RatioX64(positionAmountA, positionAmountB);
    RatioFits(positionAmountA, positionAmountB);
    // ratio * (x * price) <= ratio * (b * 2^128) with ratio >= 1
    if x * price > b * TWO_128 {
      MulMono(ratio, b * TWO_128 + 1, ratio, x * price);
    }
  }

  /** The cooldown restarts: a vault that a reinvest at `currentSlot` left
      behind (its last reinvestment slot is `currentSlot`) rejects every
      further reinvest at a slot before `currentSlot + min_slots_for_reinvest`;
      once the position checks pass, the error is the slot check's. */
  lemma CooldownRestarts(v: VaultSnapshot, currentSlot: nat, nextSlot: nat,
                         accounts: PositionAccounts, poolAfterSwap: WhirlpoolAccount,
                         a: nat, b: nat, positionAmountA: nat, positionAmountB: nat,
                         swappedA: nat, swappedB: nat, liquidityAfter: nat, sqrtPriceAt: int -> nat)
    requires AccountsFit(PositionAccounts(poolAfterSwap, accounts.position), sqrtPriceAt)
    requires Fits(U64, a) && Fits(U64, b) && Fits(U64, positionAmountA) && Fits(U64, positionAmountB)
    requires Fits(U64, swappedA) && Fits(U64, swappedB) && Fits(U128, accounts.whirlpool.sqrtPrice)
    requires nextSlot < currentSlot + v.minSlotsForReinvest
    ensures ReinvestError(v.(lastReinvestmentSlot := currentSlot), accounts, poolAfterSwap, nextSlot, a, b,
                          positionAmountA, positionAmountB, swappedA, swappedB, liquidityAfter, sqrtPriceAt).Some?
    ensures ActivePositionCheck(v.positions, v.whirlpoolId, accounts.whirlpool.key, accounts.position.key).Pass? ==>
      ReinvestError(v.(lastReinvestmentSlot := currentSlot), accounts, poolAfterSwap, nextSlot, a, b,
                    positionAmountA, positionAmountB, swappedA, swappedB, liquidityAfter, sqrtPriceAt)
      == Some(if nextSlot < currentSlot then MathOverflowSub else NotEnoughSlots)
  {
  }

  // ---------------------------------------------------------------------
  // Arithmetic facts used above

  /** The ratio fits 128 bits and is at least one, since the position's B
      amount is below 2^64. */
  lemma RatioFits(positionAmountA: nat, positionAmountB: nat)
    requires Fits(U64, positionAmountA) && Fits(U64, positionAmountB) && positionAmountA > 0 && positionAmountB > 0
    ensures 1 <= RatioX64(positionAmountA, positionAmountB)
    ensures Fits(U128, RatioX64(positionAmountA, positionAmountB))
    ensures TWO_64 * positionAmountA / positionAmountB <= Max(U128)
  {
    var ratio := RatioX64(positionAmountA, positionAmountB);
    FloorAtLeastOne(TWO_64, positionAmountA, positionAmountB, ratio);
    MulMono(ratio, 1, ratio, positionAmountB);
    MulMono(TWO_64, positionAmountA, TWO_64, U64_MAX);
    assert TWO_64 * U64_MAX <= U128_MAX;
  }

  lemma FloorAtLeastOne(s: nat, n: nat, d: nat, q: nat)
    requires 0 < d < s && n > 0
    requires s * n < (q + 1) * d
    ensures q >= 1
  {
    if q == 0 {
      MulMono(s, 1, s, n);
    }
  }

  /** The quotient `x` of `numerator * 2^128 / (2^192 + ratio * price)` is the
      largest sale (numerator = a·2^64 − ratio·b) or purchase (numerator =
      ratio·b − a·2^64), and it is below 2^64. */
  lemma SwapAmountMeaning(a: nat, b: nat, ratio: nat, price: nat, numerator: nat, denominator: nat, x: nat, isSale: bool)
    requires isSale ==> numerator + ratio * b == a * TWO_64
    requires !isSale ==> numerator + a * TWO_64 == ratio * b
    requires numerator <= U128_MAX
    requires denominator == TWO_192 + ratio * price
    requires x * denominator <= numerator * TWO_128 < (x + 1) * denominator
    ensures x <= U64_MAX
    ensures isSale ==> LargestSale(x, a, b, ratio, price)
    ensures !isSale ==> LargestPurchase(x, a, b, ratio, price)
  {
    assert TWO_192 == TWO_64 * TWO_128;
    BelowTwoToThe64(x, numerator, ratio * price);
    if isSale {
      SaleAlgebra(x, a, b, ratio, price, numerator, TWO_64, TWO_128);
      SaleAlgebra(x + 1, a, b, ratio, price, numerator, TWO_64, TWO_128);
    } else {
      PurchaseAlgebra(x, a, b, ratio, price, numerator, TWO_64, TWO_128);
      PurchaseAlgebra(x + 1, a, b, ratio, price, numerator, TWO_64, TWO_128);
    }
  }

  lemma BelowTwoToThe64(x: nat, numerator: nat, extra: nat)
    requires numerator <= U128_MAX
    requires x * (TWO_192 + extra) <= numerator * TWO_128
    ensures x <= U64_MAX
  {
    assert TWO_192 == TWO_64 * TWO_128;
    MulMono(x, TWO_192, x, TWO_192 + extra);
    if x > U64_MAX {
      MulMono(TWO_64, TWO_192, x, TWO_192);
      MulMono(numerator, TWO_128, U128_MAX, TWO_128);
    }
  }

  /** A sale of `x`: `x·(s·u + ratio·price) <= numerator·u` exactly when
      `x <= a` and `ratio·(b·u + x·price) <= (a − x)·s·u`. */
  lemma SaleAlgebra(x: nat, a: nat, b: nat, ratio: nat, price: nat, numerator: nat, s: nat, u: nat)
    requires s > 0 && u > 0
    requires numerator + ratio * b == a * s
    ensures x * (s * u + ratio * price) <= numerator * u <==>
      x <= a && ratio * (b * u + x * price) <= (a - x) * (s * u)
  {
    Distribute(x, s * u, ratio * price);
    Associate(x, ratio, price);
    Distribute(u, numerator, ratio * b);
    Associate(u, ratio, b);
    Associate(u, a, s);
    Distribute(ratio, b * u, x * price);
    Positive(s, u);
    SplitAt(x, a, s * u);
    SaleLinear(x, a, x * (s * u + ratio * price), x * (s * u), ratio * (x * price), numerator * u, ratio * (b * u),
               a * (s * u), ratio * (b * u + x * price), (a - x) * (s * u), s * u);
  }

  /** The linear core of `SaleAlgebra`, over the products as opaque numbers. */
  lemma SaleLinear(x: int, a: int, lhs: int, xt: int, p: int, nu: int, bu: int, at: int, cost: int, rest: int, t: int)
    requires lhs == xt + p && nu + bu == at && cost == bu + p && p >= 0 && bu >= 0 && nu >= 0
    requires x <= a ==> rest + xt == at
    requires x > a ==> xt >= at + t && t > 0
    ensures lhs <= nu <==> x <= a && cost <= rest
  {
  }

  /** A purchase of `x`: `x·(s·u + ratio·price) <= numerator·u` exactly when
      `(a + x)·s·u + ratio·x·price <= ratio·b·u`. */
  lemma PurchaseAlgebra(x: nat, a: nat, b: nat, ratio: nat, price: nat, numerator: nat, s: nat, u: nat)
    requires numerator + a * s == ratio * b
    ensures x * (s * u + ratio * price) <= numerator * u <==>
      (a + x) * (s * u) + ratio * (x * price) <= ratio * (b * u)
  {
    Distribute(x, s * u, ratio * price);
    Associate(x, ratio, price);
    Distribute(u, numerator, a * s);
    Associate(u, a, s);
    Associate(u, ratio, b);
    Distribute(s * u, a, x);
  }

  lemma Distribute(k: int, m: int, n: int)
    ensures k * (m + n) == k * m + k * n && (m + n) * k == m * k + n * k
  {
  }

  /** `k·(m·n)` regrouped, in the orders the proofs above meet. */
  lemma Associate(k: int, m: int, n: int)
    ensures k * (m * n) == m * (k * n) == (m * n) * k == (k * m) * n
  {
  }

  /** `x·t` against `a·t`: the difference is `(a − x)·t`, at least `t` when `x > a`. */
  lemma SplitAt(x: nat, a: nat, t: nat)
    requires t > 0
    ensures x <= a ==> (a - x) * t + x * t == a * t
    ensures x > a ==> x * t >= a * t + t
  {
    if x > a {
      MulMono(a + 1, t, x, t);
    }
  }

  lemma Positive(m: nat, n: nat)
    requires m > 0 && n > 0
    ensures m * n > 0
  {
  }
}
