/** `deposit`: a user asks for `lp_amount` LP tokens. While LP tokens exist
    the user pays the pro-rata share of the vault's idle token balances,
    rounded up, and the position receives the pro-rata share of its
    liquidity, rounded up; the first deposit adds `lp_amount` liquidity. */
module Deposit {
  import opened Errors
  import opened SafeArithmetics

  /** `charge` is `amount · lp / supply` rounded up: the least whole number
      of tokens worth at least the share. */
  predicate CeilShare(charge: nat, amount: nat, lp: nat, supply: nat)
  {
    amount * lp <= charge * supply && (charge == 0 || (charge - 1) * supply < amount * lp)
  }

  /** What the handler asks of the token and Whirlpool programs. */
  datatype DepositPlan = DepositPlan(
    /** tokens moved from the user to the vault; none when the vault holds none */
    transferA: nat,
    transferB: nat,
    /** allowance delegated to the vault, also the caps of `increase_liquidity` */
    approveA: nat,
    approveB: nat,
    /** liquidity added to the position */
    liquidity: nat,
    /** LP tokens minted to the user */
    lpMinted: nat)

  /** The first check the deposit fails, in the handler's order. */
  function DepositError(supply: nat, vaultAmountA: nat, vaultAmountB: nat, positionLiquidity: nat,
                        lpAmount: nat, maxAmountA: nat, maxAmountB: nat): Option<ErrorCode>
    requires 0 < supply && Fits(U64, supply) && Fits(U64, vaultAmountA) && Fits(U64, vaultAmountB)
    requires Fits(U128, positionLiquidity) && Fits(U64, lpAmount)
  {
    var chargeA := SafeMulDivRoundUp(U64, vaultAmountA, lpAmount, supply);
    var chargeB := SafeMulDivRoundUp(U64, vaultAmountB, lpAmount, supply);
    if vaultAmountA > 0 && chargeA.Err? then Some(chargeA.error)
    else if vaultAmountA > 0 && chargeA.value >= maxAmountA then Some(ExceededTokenMax)
    else if vaultAmountB > 0 && chargeB.Err? then Some(chargeB.error)
    else if vaultAmountB > 0 && chargeB.value >= maxAmountB then Some(ExceededTokenMax)
    else
      var liquidity := SafeMulDivRoundUp(U128, positionLiquidity, lpAmount, supply);
      if liquidity.Err? then Some(liquidity.error) else None
  }

  /** The handler; `supply` is the LP mint's supply, `vaultAmountA/B` the
      vault's idle balances and `positionLiquidity` the position's liquidity,
      all read before any transfer. */
  method Handler(supply: nat, vaultAmountA: nat, vaultAmountB: nat, positionLiquidity: nat,
                 lpAmount: nat, maxAmountA: nat, maxAmountB: nat) returns (r: Result<DepositPlan>)
    requires Fits(U64, supply) && Fits(U64, vaultAmountA) && Fits(U64, vaultAmountB) && Fits(U128, positionLiquidity)
    requires Fits(U64, lpAmount) && Fits(U64, maxAmountA) && Fits(U64, maxAmountB)
    ensures supply == 0 ==> r == Ok(DepositPlan(0, 0, maxAmountA, maxAmountB, lpAmount, lpAmount))
    ensures supply > 0 ==> (r.Err? <==> DepositError(supply, vaultAmountA, vaultAmountB, positionLiquidity, lpAmount, maxAmountA, maxAmountB).Some?)
    ensures supply > 0 && r.Err? ==>
      r.error == DepositError(supply, vaultAmountA, vaultAmountB, positionLiquidity, lpAmount, maxAmountA, maxAmountB).value
    ensures r.Ok? ==> r.value.lpMinted == lpAmount
    ensures r.Ok? ==> r.value.approveA + r.value.transferA == maxAmountA && r.value.approveB + r.value.transferB == maxAmountB
    ensures r.Ok? && supply > 0 ==>
      && (vaultAmountA > 0 ==> CeilShare(r.value.transferA, vaultAmountA, lpAmount, supply) && r.value.transferA < maxAmountA)
      && (vaultAmountB > 0 ==> CeilShare(r.value.transferB, vaultAmountB, lpAmount, supply) && r.value.transferB < maxAmountB)
      && (vaultAmountA == 0 ==> r.value.transferA == 0)
      && (vaultAmountB == 0 ==> r.value.transferB == 0)
      && CeilShare(r.value.liquidity, positionLiquidity, lpAmount, supply)
  {
    var transferA, transferB := 0, 0;
    var maxA, maxB := maxAmountA, maxAmountB;
    var liquidity: nat;
    if supply > 0 {
      var sideA :- ChargeToken(vaultAmountA, lpAmount, supply, maxAmountA);
      var sideB :- ChargeToken(vaultAmountB, lpAmount, supply, maxAmountB);
      transferA, maxA := sideA.0, sideA.1;
      transferB, maxB := sideB.0, sideB.1;
      liquidity :- SafeMulDivRoundUp(U128, positionLiquidity, lpAmount, supply);
    } else {
      liquidity := lpAmount;
    }
    return Ok(DepositPlan(transferA, transferB, maxA, maxB, liquidity, lpAmount));
  }

  /** One token's part of the handler: when the vault holds the token, the
      rounded-up share is charged, must stay below the user's maximum, and
      the rest of the maximum is what is approved. */
  method ChargeToken(vaultAmount: nat, lpAmount: nat, supply: nat, maxAmount: nat) returns (r: Result<(nat, nat)>)
    requires 0 < supply && Fits(U64, supply) && Fits(U64, vaultAmount) && Fits(U64, lpAmount) && Fits(U64, maxAmount)
    ensures vaultAmount == 0 ==> r == Ok((0, maxAmount))
    ensures vaultAmount > 0 ==>
      var charge := SafeMulDivRoundUp(U64, vaultAmount, lpAmount, supply);
      && (charge.Err? ==> r == Err(charge.error))
      && (charge.Ok? && charge.value >= maxAmount ==> r == Err(ExceededTokenMax))
      && (charge.Ok? && charge.value < maxAmount ==> r.Ok?)
    ensures r.Ok? ==> r.value.0 + r.value.1 == maxAmount
    ensures r.Ok? && vaultAmount > 0 ==> CeilShare(r.value.0, vaultAmount, lpAmount, supply) && r.value.0 < maxAmount
  {
    if vaultAmount == 0 {
      return Ok((0, maxAmount));
    }
    var amount :- SafeMulDivRoundUp(U64, vaultAmount, lpAmount, supply);
    if !(amount < maxAmount) {
      return Err(ExceededTokenMax);
    }
    return Ok((amount, SafeSub(U64, maxAmount, amount).value));
  }

  // ---------------------------------------------------------------------
  // Properties

  /** The rounded-up share is unique: the charge is determined by the share. */
  lemma CeilShareIsCeilDiv(charge: nat, amount: nat, lp: nat, supply: nat)
    requires supply > 0
    ensures CeilShare(charge, amount, lp, supply) <==> charge == CeilDiv(amount * lp, supply)
  {
    var n := amount * lp;
    CeilBounds(n, supply);
    var c := CeilDiv(n, supply);
    if CeilShare(charge, amount, lp, supply) && charge != c {
      if charge < c {
        // then c >= 1 and (c - 1) * supply < n <= charge * supply
        MulMono(charge, supply, c - 1, supply);
      } else {
        MulMono(c, supply, charge - 1, supply);
      }
    }
  }

  /** Charging the rounded-up share never dilutes existing holders: the
      vault's balance per LP token, (amount + charge) / (supply + lp), is
      at least what it was, amount / supply. */
  lemma DepositNeverDilutes(supply: nat, vaultAmount: nat, lpAmount: nat, charge: nat)
    requires supply > 0 && CeilShare(charge, vaultAmount, lpAmount, supply)
    ensures vaultAmount * (supply + lpAmount) <= (vaultAmount + charge) * supply
  {
  }
}
