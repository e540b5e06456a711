/** `collect_fees`: collects the active position's trading fees into the
    vault's idle balances and adds what arrived to the non-invested fee
    counters. */
module CollectFees {
  import opened Errors
  import opened SafeArithmetics
  import opened State

  /** The first step of the fee bookkeeping that fails: both balance
      differences are taken before either counter is increased. */
  function CollectFeesError(accA: nat, accB: nat, beforeA: nat, beforeB: nat, afterA: nat, afterB: nat): Option<ErrorCode>
  {
    if afterA < beforeA || afterB < beforeB then Some(MathOverflowSub)
    else if accA + (afterA - beforeA) > U64_MAX || accB + (afterB - beforeB) > U64_MAX then Some(MathOverflowAdd)
    else None
  }

  /** The handler: `poolKey` and `positionKey` are the accounts passed in,
      `before*`/`after*` the vault's token balances around the collect. */
  method Handler(vault: VaultAccount, poolKey: Pubkey, positionKey: Pubkey,
                 beforeA: nat, beforeB: nat, afterA: nat, afterB: nat) returns (r: Result<()>)
    requires vault.Valid()
    requires Fits(U64, beforeA) && Fits(U64, beforeB) && Fits(U64, afterA) && Fits(U64, afterB)
    modifies vault
    ensures vault.Valid()
    ensures r.Err? ==> vault.Snapshot() == old(vault.Snapshot())
    ensures ActivePositionCheck(old(vault.positions), old(vault.whirlpoolId), poolKey, positionKey).Fail? ==>
      r == Err(ActivePositionCheck(old(vault.positions), old(vault.whirlpoolId), poolKey, positionKey).error)
    ensures ActivePositionCheck(old(vault.positions), old(vault.whirlpoolId), poolKey, positionKey).Pass? ==>
      var error := CollectFeesError(old(vault.accNonInvestedFeesA), old(vault.accNonInvestedFeesB), beforeA, beforeB, afterA, afterB);
      && (r.Err? <==> error.Some?)
      && (r.Err? ==> r.error == error.value)
    ensures r.Ok? ==>
      && afterA >= beforeA && afterB >= beforeB
      && vault.accNonInvestedFeesA - old(vault.accNonInvestedFeesA) == afterA - beforeA
      && vault.accNonInvestedFeesB - old(vault.accNonInvestedFeesB) == afterB - beforeB
      && vault.Snapshot() == old(vault.Snapshot()).(
           accNonInvestedFeesA := vault.accNonInvestedFeesA,
           accNonInvestedFeesB := vault.accNonInvestedFeesB)
  {
    var constraints := ActivePositionCheck(vault.positions, vault.whirlpoolId, poolKey, positionKey);
    :- constraints;
    var diffA :- SafeSub(U64, afterA, beforeA);
    var diffB :- SafeSub(U64, afterB, beforeB);
    var accA :- SafeAdd(U64, vault.accNonInvestedFeesA, diffA);
    var accB :- SafeAdd(U64, vault.accNonInvestedFeesB, diffB);
    vault.accNonInvestedFeesA := accA;
    vault.accNonInvestedFeesB := accB;
    return Ok(());
  }
}
