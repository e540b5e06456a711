/** `swap_rewards`: sells the vault's whole balance of a reward token for
    one of the pool's two tokens, on Orca's token-swap program or on a
    Whirlpool, and adds what arrived to the earned-rewards counter of that
    token. */
module SwapRewards {
  import opened Errors
  import opened SafeArithmetics
  import opened WhirlpoolPosition
  import opened State

  /** Program id of Orca's token-swap v2 program,
      9W959DqEETiGZocYWCQPaJ6sBmUzgfxXfqGeTEdp3aQP. */
  const ORCA_SWAP_V2_ID: Pubkey := 57140656092937676209318591234803599767746485479502391896916656166771654564080

  /** Program id of the Whirlpool program,
      whirLbMiicVdio4qvUfM5KAg6Ct8VwpYzGff3uctyCc. */
  const WHIRLPOOL_ID: Pubkey := 6338400779188879694835442338119989991763804279920687834040273975642487814569

  /** The swap asked of the chosen program. */
  datatype RewardsSwap =
    | OrcaSwap(amountIn: nat, minimumAmountOut: nat)
    | WhirlpoolSwap(params: SwapParams)

  /** `swap_orca_cpi`: six extra accounts, the whole balance in, at least one
      token out. */
  function SwapOrca(remainingAccounts: nat, rewardsAmount: nat): (r: Result<RewardsSwap>)
    ensures r.Ok? <==> remainingAccounts == 6
    ensures r.Err? ==> r.error == InvalidNumberOfAccounts
    ensures r.Ok? ==> r.value == OrcaSwap(rewardsAmount, 1)
  {
    if remainingAccounts != 6 then Err(InvalidNumberOfAccounts)
    else Ok(OrcaSwap(rewardsAmount, 1))
  }

  /** `swap_whirlpool_cpi`: seven extra accounts, the first being the pool
      whose token A mint is `poolTokenMintA`; the reward token is sold as
      input, towards the pool's price bound on the side it moves the price. */
  function SwapWhirlpool(remainingAccounts: nat, rewardsMint: Pubkey, poolTokenMintA: Pubkey, rewardsAmount: nat): (r: Result<RewardsSwap>)
    ensures r.Ok? <==> remainingAccounts == 7
    ensures r.Err? ==> r.error == InvalidNumberOfAccounts
    ensures r.Ok? ==> r.value.WhirlpoolSwap?
    ensures r.Ok? ==> r.value.params.amount == rewardsAmount && r.value.params.otherAmountThreshold == 1
    ensures r.Ok? ==> r.value.params.amountSpecifiedIsInput
    ensures r.Ok? ==> (r.value.params.aToB <==> rewardsMint == poolTokenMintA)
    ensures r.Ok? ==> r.value.params.sqrtPriceLimit == if r.value.params.aToB then MIN_SQRT_PRICE_X64 else MAX_SQRT_PRICE_X64
  {
    if remainingAccounts != 7 then Err(InvalidNumberOfAccounts)
    else
      var rewardsAccIsTokenA := rewardsMint == poolTokenMintA;
      var isSwapFromAToB := rewardsAccIsTokenA;
      var sqrtPriceLimit := if isSwapFromAToB then MIN_SQRT_PRICE_X64 else MAX_SQRT_PRICE_X64;
      Ok(WhirlpoolSwap(SwapParams(rewardsAmount, 1, sqrtPriceLimit, true, isSwapFromAToB)))
  }

  /** The venue dispatch on the swap program's id. */
  function RewardsSwapFor(swapProgram: Pubkey, remainingAccounts: nat, rewardsMint: Pubkey,
                          poolTokenMintA: Pubkey, rewardsAmount: nat): (r: Result<RewardsSwap>)
    ensures swapProgram != ORCA_SWAP_V2_ID && swapProgram != WHIRLPOOL_ID ==> r == Err(InvalidSwapProgramId)
    ensures swapProgram == ORCA_SWAP_V2_ID ==> r == SwapOrca(remainingAccounts, rewardsAmount)
    ensures swapProgram == WHIRLPOOL_ID ==> r == SwapWhirlpool(remainingAccounts, rewardsMint, poolTokenMintA, rewardsAmount)
    ensures r.Ok? ==> (r.value.OrcaSwap? <==> swapProgram == ORCA_SWAP_V2_ID)
  {
    if swapProgram == ORCA_SWAP_V2_ID then SwapOrca(remainingAccounts, rewardsAmount)
    else if swapProgram == WHIRLPOOL_ID then SwapWhirlpool(remainingAccounts, rewardsMint, poolTokenMintA, rewardsAmount)
    else Err(InvalidSwapProgramId)
  }

  /** The account constraints on the two token accounts: the rewards
      account holds neither pool token, the destination holds one of them. */
  function RewardsAccountsCheck(tokenAMint: Pubkey, tokenBMint: Pubkey, rewardsMint: Pubkey, destinationMint: Pubkey): (r: Check)
    ensures r.Pass? <==> rewardsMint !in {tokenAMint, tokenBMint} && destinationMint in {tokenAMint, tokenBMint}
    ensures r.Fail? ==> r.error == ConstraintRaw
  {
    if rewardsMint == tokenAMint || rewardsMint == tokenBMint then Fail(ConstraintRaw)
    else if destinationMint != tokenAMint && destinationMint != tokenBMint then Fail(ConstraintRaw)
    else Pass
  }

  /** The handler: `rewardsAmount` is the vault's reward-token balance,
      `destinationBefore`/`After` its destination-token balance around the
      swap; `poolTokenMintA` is read from the first extra account. */
  method Handler(vault: VaultAccount, swapProgram: Pubkey, remainingAccounts: nat,
                 rewardsMint: Pubkey, rewardsAmount: nat, destinationMint: Pubkey, poolTokenMintA: Pubkey,
                 destinationBefore: nat, destinationAfter: nat) returns (r: Result<RewardsSwap>)
    requires vault.Valid()
    requires Fits(U64, rewardsAmount) && Fits(U64, destinationBefore) && Fits(U64, destinationAfter)
    modifies vault
    ensures vault.Valid()
    ensures r.Err? ==> vault.Snapshot() == old(vault.Snapshot())
    ensures r.Ok? ==>
      && RewardsAccountsCheck(old(vault.inputTokenAMint), old(vault.inputTokenBMint), rewardsMint, destinationMint).Pass?
      && RewardsSwapFor(swapProgram, remainingAccounts, rewardsMint, poolTokenMintA, rewardsAmount) == r
      && destinationBefore <= destinationAfter
    ensures RewardsAccountsCheck(old(vault.inputTokenAMint), old(vault.inputTokenBMint), rewardsMint, destinationMint).Fail? ==>
      r == Err(ConstraintRaw)
    ensures RewardsAccountsCheck(old(vault.inputTokenAMint), old(vault.inputTokenBMint), rewardsMint, destinationMint).Pass? &&
            RewardsSwapFor(swapProgram, remainingAccounts, rewardsMint, poolTokenMintA, rewardsAmount).Err? ==>
      r == RewardsSwapFor(swapProgram, remainingAccounts, rewardsMint, poolTokenMintA, rewardsAmount)
    ensures destinationAfter < destinationBefore ==> r.Err?
    ensures RewardsAccountsCheck(old(vault.inputTokenAMint), old(vault.inputTokenBMint), rewardsMint, destinationMint).Pass? &&
            RewardsSwapFor(swapProgram, remainingAccounts, rewardsMint, poolTokenMintA, rewardsAmount).Ok? ==>
      && (destinationAfter < destinationBefore ==> r == Err(MathOverflowSub))
      && (destinationBefore <= destinationAfter ==>
            var earned := (if destinationMint == old(vault.inputTokenAMint) then old(vault.earnedRewardsTokenA)
                           else old(vault.earnedRewardsTokenB)) + (destinationAfter - destinationBefore);
            && (r.Ok? <==> Fits(U64, earned))
            && (!Fits(U64, earned) ==> r == Err(MathOverflowAdd)))
    ensures r.Ok? && destinationMint == old(vault.inputTokenAMint) ==>
      vault.Snapshot() == old(vault.Snapshot()).(earnedRewardsTokenA := old(vault.earnedRewardsTokenA) + (destinationAfter - destinationBefore))
    ensures r.Ok? && destinationMint != old(vault.inputTokenAMint) ==>
      vault.Snapshot() == old(vault.Snapshot()).(earnedRewardsTokenB := old(vault.earnedRewardsTokenB) + (destinationAfter - destinationBefore))
  {
    var constraints := RewardsAccountsCheck(vault.inputTokenAMint, vault.inputTokenBMint, rewardsMint, destinationMint);
    :- constraints;
    var swap :- RewardsSwapFor(swapProgram, remainingAccounts, rewardsMint, poolTokenMintA, rewardsAmount);
    var amountIncrease :- SafeSub(U64, destinationAfter, destinationBefore);
    if destinationMint == vault.inputTokenAMint {
      var earned :- SafeAdd(U64, vault.earnedRewardsTokenA, amountIncrease);
      vault.earnedRewardsTokenA := earned;
    } else {
      var earned :- SafeAdd(U64, vault.earnedRewardsTokenB, amountIncrease);
      vault.earnedRewardsTokenB := earned;
    }
    return Ok(swap);
  }

  // ---------------------------------------------------------------------
  // Properties

  /** On a Whirlpool the reward token is always the input side: a reward that
      is the pool's token A is swapped A to B, any other reward B to A. Each
      direction's price limit is the pool bound the price moves towards. */
  lemma WhirlpoolSwapSellsTheReward(remainingAccounts: nat, rewardsMint: Pubkey, poolTokenMintA: Pubkey, rewardsAmount: nat)
    requires remainingAccounts == 7
    ensures var r := SwapWhirlpool(remainingAccounts, rewardsMint, poolTokenMintA, rewardsAmount);
      && r.Ok?
      && (rewardsMint == poolTokenMintA ==> r.value.params == SwapParams(rewardsAmount, 1, MIN_SQRT_PRICE_X64, true, true))
      && (rewardsMint != poolTokenMintA ==> r.value.params == SwapParams(rewardsAmount, 1, MAX_SQRT_PRICE_X64, true, false))
  {
  }
}
