/** `set_market_rewards`: configures where the vault sells one of the pool's
    reward tokens, in the table slot of that reward. */
module SetMarketRewards {
  import opened Errors
  import opened SafeArithmetics
  import opened State

  /** The instruction's argument. */
  datatype MarketRewardsInfoInput = MarketRewardsInfoInput(id: MarketRewards, minAmountOut: nat)

  /** The `position(|ri| ri.mint == mint)` lookup over the pool's reward
      slots: the first slot holding the mint. */
  function RewardIndex(rewardMints: seq<Pubkey>, mint: Pubkey): (r: Option<nat>)
    ensures r.Some? ==> r.value < |rewardMints| && rewardMints[r.value] == mint
    ensures r.Some? ==> forall j :: 0 <= j < r.value ==> rewardMints[j] != mint
    ensures r.None? <==> mint !in rewardMints
  {
    if rewardMints == [] then None
    else if rewardMints[0] == mint then Some(0)
    else
      match RewardIndex(rewardMints[1..], mint)
      case None => None
      case Some(j) => Some(j + 1)
  }

  /** The handler: `rewardMints` are the pool's reward slots, `validation`
      the outcome of checking the entry against the destination account's
      mint and the vault's token mints. */
  method Handler(vault: VaultAccount, rewardMints: seq<Pubkey>, rewardsMint: Pubkey, destinationTokenAccount: Pubkey,
                 input: MarketRewardsInfoInput, validation: Check) returns (r: Result<()>)
    requires vault.Valid() && |rewardMints| == NUM_MARKET_REWARDS
    modifies vault
    ensures vault.Valid()
    ensures r.Err? ==> vault.Snapshot() == old(vault.Snapshot())
    ensures rewardsMint !in rewardMints ==> r == Err(InvalidRewardMint)
    ensures rewardsMint in rewardMints && validation.Fail? ==> r == Err(validation.error)
    ensures r.Ok? <==> rewardsMint in rewardMints && validation.Pass?
    ensures r.Ok? ==>
      var index := RewardIndex(rewardMints, rewardsMint).value;
      var entry := DEFAULT_MARKET_REWARDS_INFO.(id := input.id, rewardsMint := rewardsMint,
                                               destinationTokenAccount := destinationTokenAccount,
                                               minAmountOut := input.minAmountOut);
      vault.Snapshot() == old(vault.Snapshot()).(marketRewards := old(vault.marketRewards)[index := entry])
  {
    var index :- match RewardIndex(rewardMints, rewardsMint)
      case None => Err(InvalidRewardMint)
      case Some(i) => Ok(i);
    var market := DEFAULT_MARKET_REWARDS_INFO.(id := input.id, rewardsMint := rewardsMint,
                                              destinationTokenAccount := destinationTokenAccount,
                                              minAmountOut := input.minAmountOut);
    :- validation;
    vault.marketRewards := vault.marketRewards[index := market];
    return Ok(());
  }

  // ---------------------------------------------------------------------
  // Properties

  /** Reward slots with distinct mints are addressed by their mints: the
      lookup of slot `k`'s mint finds `k`. */
  lemma DistinctMintsFindTheirSlot(rewardMints: seq<Pubkey>, k: nat)
    requires k < |rewardMints|
    requires forall i, j :: 0 <= i < j < |rewardMints| ==> rewardMints[i] != rewardMints[j]
    ensures RewardIndex(rewardMints, rewardMints[k]) == Some(k)
  {
  }
}
