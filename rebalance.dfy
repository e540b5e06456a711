/** `rebalance`: moves all liquidity from the active position into another
    registered position, which becomes the active one. It must be followed
    by a `reinvest` in the same transaction. */
module Rebalance {
  import opened Errors
  import opened SafeArithmetics
  import opened WhirlpoolPosition
  import opened State

  newtype byte = b: int | 0 <= b < 256

  /** The 8-byte Anchor discriminator of the `reinvest` instruction: the
      first bytes of SHA-256 of "global:reinvest". */
  const REINVEST_DISCRIMINATOR: seq<byte> := [107, 29, 95, 200, 217, 52, 155, 76]

  /** `is_next_ix_reinvest`: `nextIx` is the data of the instruction after
      this one in the transaction, if there is one. */
  function IsNextIxReinvest(nextIx: Option<seq<byte>>): (r: Result<bool>)
    ensures nextIx.None? <==> r == Err(MissingIx)
    ensures nextIx.Some? && |nextIx.value| < 8 <==> r == Err(InvalidIxData)
    ensures r.Ok? ==> (r.value <==> nextIx.Some? && REINVEST_DISCRIMINATOR <= nextIx.value)
  {
    match nextIx
    case None => Err(MissingIx)
    case Some(data) =>
      if |data| < 8 then Err(InvalidIxData)
      else Ok(data[..8] == REINVEST_DISCRIMINATOR)
  }

  /** The account constraints on the current and the target position, in
      their source order. */
  function RebalanceConstraints(positions: seq<PositionInfo>, whirlpoolId: Pubkey,
                                current: PositionAccounts, target: PositionAccounts): (r: Check)
    ensures r.Pass? <==>
      && current.whirlpool.key == whirlpoolId && target.whirlpool.key == whirlpoolId
      && |positions| > 0 && current.position.key == ActivePositionKey(positions)
      && PositionAddressExists(positions, target.position.key)
      && target.position.key != current.position.key
  {
    var active := ActivePositionCheck(positions, whirlpoolId, current.whirlpool.key, current.position.key);
    if active.Fail? then active
    else if target.whirlpool.key != whirlpoolId then Fail(ConstraintRaw)
    else if !PositionAddressExists(positions, target.position.key) then Fail(PositionNotActive)
    else if target.position.key == current.position.key then Fail(RebalanceIntoActivePosition)
    else Pass
  }

  /** The last reinvest's liquidity increase carried over to the target
      position: scaled by the ratio of the new liquidity to the old, rounded up. */
  function RescaledIncrease(last: nat, newLiquidity: nat, initLiquidity: nat): nat
    requires initLiquidity > 0
  {
    CeilDiv(last * newLiquidity, initLiquidity)
  }

  datatype RebalancePlan = RebalancePlan(decrease: ModifyLiquidity, increase: ModifyLiquidity)

  /** The handler. `drained` holds the vault's token balances reloaded after
      the current position was emptied. */
  method Handler(vault: VaultAccount, current: PositionAccounts, target: PositionAccounts,
                 nextIx: Option<seq<byte>>, drainedA: nat, drainedB: nat, sqrtPriceAt: int -> nat)
    returns (r: Result<RebalancePlan>)
    requires vault.Valid()
    requires AccountsFit(current, sqrtPriceAt) && AccountsFit(target, sqrtPriceAt)
    requires Fits(U64, drainedA) && Fits(U64, drainedB)
    modifies vault
    ensures vault.Valid()
    ensures r.Err? ==> vault.Snapshot() == old(vault.Snapshot())
    ensures RebalanceConstraints(old(vault.positions), old(vault.whirlpoolId), current, target).Fail? ==>
      r == Err(RebalanceConstraints(old(vault.positions), old(vault.whirlpoolId), current, target).error)
    ensures RebalanceConstraints(old(vault.positions), old(vault.whirlpoolId), current, target).Pass? &&
            IsNextIxReinvest(nextIx).Err? ==>
      r == Err(IsNextIxReinvest(nextIx).error)
    ensures RebalanceConstraints(old(vault.positions), old(vault.whirlpoolId), current, target).Pass? &&
            IsNextIxReinvest(nextIx) == Ok(false) ==>
      r == Err(MissingReinvest)
    ensures RebalanceConstraints(old(vault.positions), old(vault.whirlpoolId), current, target).Pass? &&
            IsNextIxReinvest(nextIx) == Ok(true) ==>
      var estimate := LiquidityFromTokenAmounts(target, drainedA, drainedB, sqrtPriceAt);
      && (estimate.Err? ==> r == Err(estimate.error))
      && (estimate.Ok? ==>
            var rescaled := SafeMulDivRoundUp(U128, old(vault.lastLiquidityIncrease), estimate.value, current.position.liquidity);
            && (rescaled.Err? ==> r == Err(rescaled.error))
            && (rescaled.Ok? ==> r.Ok?))
    ensures r.Ok? ==> IsNextIxReinvest(nextIx) == Ok(true)
    ensures current.position.liquidity == 0 ==> r.Err?
    ensures r.Ok? ==>
      var newLiquidity := r.value.increase.liquidity;
      && RebalanceConstraints(old(vault.positions), old(vault.whirlpoolId), current, target).Pass?
      && LiquidityFromTokenAmounts(target, drainedA, drainedB, sqrtPriceAt) == Ok(newLiquidity)
      && current.position.liquidity > 0
      && r.value == RebalancePlan(ModifyLiquidity(current.position.liquidity, 0, 0),
                                  ModifyLiquidity(newLiquidity, drainedA, drainedB))
      && vault.Snapshot() == old(vault.Snapshot()).(
           lastReinvestmentSlot := 0,
           lastLiquidityIncrease := RescaledIncrease(old(vault.lastLiquidityIncrease), newLiquidity, current.position.liquidity),
           positions := Promote(old(vault.positions), target.position.key))
      && ActivePositionKey(vault.positions) == target.position.key
  {
    var constraints := RebalanceConstraints(vault.positions, vault.whirlpoolId, current, target);
    :- constraints;
    var isReinvestNext :- IsNextIxReinvest(nextIx);
    :- Require(isReinvestNext, MissingReinvest);
    var initLiquidity := current.position.liquidity;
    // the whole current liquidity is removed, accepting any token amounts
    var decrease := ModifyLiquidity(initLiquidity, 0, 0);
    var newLiquidity :- LiquidityFromTokenAmounts(target, drainedA, drainedB, sqrtPriceAt);
    var increase := ModifyLiquidity(newLiquidity, drainedA, drainedB);
    var proportional :- SafeMulDivRoundUp(U128, vault.lastLiquidityIncrease, newLiquidity, initLiquidity);
    vault.lastReinvestmentSlot := 0;
    vault.lastLiquidityIncrease := proportional;
    vault.UpdateActivePosition(target.position.key);
    return Ok(RebalancePlan(decrease, increase));
  }

  // ---------------------------------------------------------------------
  // Properties

  /** Any instruction data that starts with the reinvest discriminator
      passes the guard, whatever arguments follow it. */
  lemma ReinvestWithAnyArgumentsPasses(args: seq<byte>)
    ensures IsNextIxReinvest(Some(REINVEST_DISCRIMINATOR + args)) == Ok(true)
  {
    assert (REINVEST_DISCRIMINATOR + args)[..8] == REINVEST_DISCRIMINATOR;
  }

  /** The rescaled reinvest increase keeps its share of the position: it is
      the least value whose ratio to the target liquidity is at least the old
      increase's ratio to the old liquidity. */
  lemma RescaledIncreaseKeepsShare(last: nat, newLiquidity: nat, initLiquidity: nat)
    requires initLiquidity > 0 && Fits(U128, last) && Fits(U128, newLiquidity) && Fits(U128, initLiquidity)
    requires SafeMulDivRoundUp(U128, last, newLiquidity, initLiquidity).Ok?
    ensures var rescaled := SafeMulDivRoundUp(U128, last, newLiquidity, initLiquidity).value;
      && last * newLiquidity <= rescaled * initLiquidity
      && (rescaled == 0 || (rescaled - 1) * initLiquidity < last * newLiquidity)
      && (last <= initLiquidity ==> rescaled <= newLiquidity)
  {
    var rescaled := SafeMulDivRoundUp(U128, last, newLiquidity, initLiquidity).value;
    if last <= initLiquidity && rescaled > newLiquidity {
      MulMono(last, newLiquidity, initLiquidity, newLiquidity);
      MulMono(newLiquidity, initLiquidity, rescaled - 1, initLiquidity);
    }
  }
}
