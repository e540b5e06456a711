/** `withdraw`: a user burns `lp_amount` LP tokens and receives the pro-rata
    share of the vault's idle balances, rounded down, plus what the
    position releases for the pro-rata share of its liquidity, where the
    liquidity added by the last reinvest is not shared out. */
module Withdraw {
  import opened Errors
  import opened SafeArithmetics
  import opened State
  import opened Deposit

  /** `payout` is `amount · lp / supply` rounded down. */
  predicate FloorShare(payout: nat, amount: nat, lp: nat, supply: nat)
  {
    payout * supply <= amount * lp < (payout + 1) * supply
  }

  /** Token balances of the two pool tokens. */
  datatype Balances = Balances(a: nat, b: nat)

  datatype WithdrawPlan = WithdrawPlan(
    /** tokens moved from the vault to the user; none when the vault holds none */
    transferA: nat,
    transferB: nat,
    /** liquidity removed from the position */
    liquidity: nat,
    /** minimum amounts passed to `decrease_liquidity` */
    minA: nat,
    minB: nat,
    /** LP tokens burned */
    lpBurned: nat,
    /** what the user's balances grew by, as reported in the event */
    received: Balances)

  /** u64 `saturating_sub`. */
  function SaturatingSub(x: nat, y: nat): (r: nat)
    ensures r == 0 || r + y == x
    ensures r <= x && (y <= x ==> r + y == x)
  {
    if y <= x then x - y else 0
  }

  /** The first check the withdrawal fails, in the handler's order. */
  function WithdrawError(supply: nat, vaultAmountA: nat, vaultAmountB: nat, positionLiquidity: nat,
                         lastLiquidityIncrease: nat, lpAmount: nat, userBefore: Balances, userAfter: Balances): Option<ErrorCode>
    requires Fits(U64, supply) && Fits(U64, vaultAmountA) && Fits(U64, vaultAmountB) && Fits(U128, positionLiquidity)
    requires Fits(U64, lpAmount)
  {
    var shareA := SafeMulDiv(U64, vaultAmountA, lpAmount, supply);
    var shareB := SafeMulDiv(U64, vaultAmountB, lpAmount, supply);
    if lpAmount == 0 then Some(ZeroLpAmount)
    else if vaultAmountA > 0 && shareA.Err? then Some(shareA.error)
    else if vaultAmountB > 0 && shareB.Err? then Some(shareB.error)
    else if positionLiquidity < lastLiquidityIncrease then Some(MathOverflowSub)
    else
      var share := SafeMulDiv(U128, positionLiquidity - lastLiquidityIncrease, lpAmount, supply);
      if share.Err? then Some(share.error)
      else if userAfter.a < userBefore.a || userAfter.b < userBefore.b then Some(MathOverflowSub)
      else None
  }

  /** The handler; `supply`, `vaultAmountA/B` and `positionLiquidity` are
      read before any transfer, `userBefore/After` are the user's token
      balances around the transfers and the liquidity decrease. */
  method Handler(vault: VaultAccount, supply: nat, vaultAmountA: nat, vaultAmountB: nat, positionLiquidity: nat,
                 lpAmount: nat, minAmountA: nat, minAmountB: nat,
                 userBefore: Balances, userAfter: Balances) returns (r: Result<WithdrawPlan>)
    requires vault.Valid()
    requires Fits(U64, supply) && Fits(U64, vaultAmountA) && Fits(U64, vaultAmountB) && Fits(U128, positionLiquidity)
    requires Fits(U64, lpAmount) && Fits(U64, minAmountA) && Fits(U64, minAmountB)
    requires Fits(U64, userBefore.a) && Fits(U64, userBefore.b) && Fits(U64, userAfter.a) && Fits(U64, userAfter.b)
    ensures r.Err? <==>
      WithdrawError(supply, vaultAmountA, vaultAmountB, positionLiquidity, vault.lastLiquidityIncrease, lpAmount, userBefore, userAfter).Some?
    ensures r.Err? ==>
      r.error == WithdrawError(supply, vaultAmountA, vaultAmountB, positionLiquidity, vault.lastLiquidityIncrease, lpAmount, userBefore, userAfter).value
    ensures r.Ok? ==>
      && r.value.lpBurned == lpAmount
      && (vaultAmountA > 0 ==> FloorShare(r.value.transferA, vaultAmountA, lpAmount, supply))
      && (vaultAmountB > 0 ==> FloorShare(r.value.transferB, vaultAmountB, lpAmount, supply))
      && (vaultAmountA == 0 ==> r.value.transferA == 0)
      && (vaultAmountB == 0 ==> r.value.transferB == 0)
      && r.value.minA == SaturatingSub(minAmountA, r.value.transferA)
      && r.value.minB == SaturatingSub(minAmountB, r.value.transferB)
      && FloorShare(r.value.liquidity, positionLiquidity - vault.lastLiquidityIncrease, lpAmount, supply)
      && r.value.received.a + userBefore.a == userAfter.a
      && r.value.received.b + userBefore.b == userAfter.b
  {
    if lpAmount == 0 {
      return Err(ZeroLpAmount);
    }
    var minA, minB := minAmountA, minAmountB;
    var transferA, transferB := 0, 0;
    if vaultAmountA > 0 {
      var amountA :- SafeMulDiv(U64, vaultAmountA, lpAmount, supply);
      minA := SaturatingSub(minA, amountA);
      transferA := amountA;
    }
    if vaultAmountB > 0 {
      var amountB :- SafeMulDiv(U64, vaultAmountB, lpAmount, supply);
      minB := SaturatingSub(minB, amountB);
      transferB := amountB;
    }
    var pastLiquidity :- SafeSub(U128, positionLiquidity, vault.lastLiquidityIncrease);
    var userLiquidity :- SafeMulDiv(U128, pastLiquidity, lpAmount, supply);
    var receivedA :- SafeSub(U64, userAfter.a, userBefore.a);
    var receivedB :- SafeSub(U64, userAfter.b, userBefore.b);
    return Ok(WithdrawPlan(transferA, transferB, userLiquidity, minA, minB, lpAmount, Balances(receivedA, receivedB)));
  }

  // ---------------------------------------------------------------------
  // Properties

  /** For the same balance and supply, what a withdrawal pays for `lp`
      never exceeds what a deposit charges for it. */
  lemma WithdrawPaysAtMostDepositCharge(payout: nat, charge: nat, amount: nat, lp: nat, supply: nat)
    requires supply > 0
    requires FloorShare(payout, amount, lp, supply) && CeilShare(charge, amount, lp, supply)
    ensures payout <= charge
  {
    if payout > charge {
      MulMono(charge + 1, supply, payout, supply);
    }
  }

  /** Depositing for `lp` LP tokens and withdrawing them straight away
      returns no more than was paid: after the deposit the vault holds
      `amount + charge` for `supply + lp` LP tokens. */
  lemma DepositThenWithdrawNoProfit(amount: nat, supply: nat, lp: nat, charge: nat, payout: nat)
    requires supply > 0
    requires CeilShare(charge, amount, lp, supply)
    requires FloorShare(payout, amount + charge, lp, supply + lp)
    ensures payout <= charge
  {
    // (amount + charge) * lp <= charge * (supply + lp)
    assert (amount + charge) * lp == amount * lp + charge * lp;
    assert charge * (supply + lp) == charge * supply + charge * lp;
    if payout > charge {
      MulMono(charge + 1, supply + lp, payout, supply + lp);
    }
  }
}
