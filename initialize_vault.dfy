/** `initialize_vault`: creates the vault account for a Whirlpool pool,
    checking the input mints against the pool's and the fee, and filling the
    market-rewards table from the pool's reward slots. */
module InitializeVault {
  import opened Errors
  import opened SafeArithmetics
  import opened WhirlpoolPosition
  import opened State

  /** One entry of the `market_rewards` argument. */
  datatype MarketRewardsInfoInput = MarketRewardsInfoInput(isDestinationTokenA: bool, id: MarketRewards)

  /** The table entry slot `i` receives: the pool's reward mint of that slot
      and the input's market and destination side. */
  function FilledEntry(rewardMints: seq<Pubkey>, x: MarketRewardsInfoInput, i: nat): MarketRewardsInfo
    requires i < |rewardMints|
  {
    DEFAULT_MARKET_REWARDS_INFO.(rewardsMint := rewardMints[i], isDestinationTokenA := x.isDestinationTokenA, id := x.id)
  }

  /** `table` is the default table with its first `|input|` slots filled. */
  predicate IsFilledTable(table: seq<MarketRewardsInfo>, rewardMints: seq<Pubkey>, input: seq<MarketRewardsInfoInput>)
    requires |rewardMints| == NUM_MARKET_REWARDS && |input| <= NUM_MARKET_REWARDS
  {
    && |table| == NUM_MARKET_REWARDS
    && (forall i :: 0 <= i < |input| ==> table[i] == FilledEntry(rewardMints, input[i], i))
    && (forall i :: |input| <= i < NUM_MARKET_REWARDS ==> table[i] == DEFAULT_MARKET_REWARDS_INFO)
  }

  /** The `for_each` over the input: slot `i` gets entry `i`; an input longer
      than the table aborts on the first index past its end. */
  method FillMarketRewards(rewardMints: seq<Pubkey>, input: seq<MarketRewardsInfoInput>)
    returns (r: Result<seq<MarketRewardsInfo>>)
    requires |rewardMints| == NUM_MARKET_REWARDS
    ensures r.Ok? <==> |input| <= NUM_MARKET_REWARDS
    ensures r.Err? ==> r.error == Panic
    ensures r.Ok? ==> IsFilledTable(r.value, rewardMints, input)
  {
    var table := new MarketRewardsInfo[NUM_MARKET_REWARDS](_ => DEFAULT_MARKET_REWARDS_INFO);
    var i := 0;
    while i < |input|
      invariant 0 <= i <= |input| && i <= NUM_MARKET_REWARDS
      invariant forall k :: 0 <= k < i ==> table[k] == FilledEntry(rewardMints, input[k], k)
      invariant forall k :: i <= k < NUM_MARKET_REWARDS ==> table[k] == DEFAULT_MARKET_REWARDS_INFO
    {
      if i >= NUM_MARKET_REWARDS {
        return Err(Panic);
      }
      table[i] := FilledEntry(rewardMints, input[i], i);
      i := i + 1;
    }
    return Ok(table[..]);
  }

  /** The first check the instruction fails, in the handler's order. */
  function InitializeVaultError(whirlpool: WhirlpoolAccount, inputTokenAMint: Pubkey, inputTokenBMint: Pubkey,
                                fee: nat, input: seq<MarketRewardsInfoInput>): Option<ErrorCode>
  {
    if inputTokenAMint != whirlpool.tokenMintA then Some(InvalidInputMint)
    else if inputTokenBMint != whirlpool.tokenMintB then Some(InvalidInputMint)
    else if fee > FEE_SCALE then Some(InvalidFee)
    else if |input| > NUM_MARKET_REWARDS then Some(Panic)
    else None
  }

  /** The handler: `whirlpool` is the pool account, `bumps` the PDA bumps
      the runtime found. The new vault has no treasury account yet. */
  method Handler(vaultId: nat, bumps: Bumps, whirlpool: WhirlpoolAccount, inputTokenAMint: Pubkey, inputTokenBMint: Pubkey,
                 fee: nat, input: seq<MarketRewardsInfoInput>) returns (r: Result<VaultAccount>)
    requires |whirlpool.rewardMints| == NUM_MARKET_REWARDS
    ensures r.Err? <==> InitializeVaultError(whirlpool, inputTokenAMint, inputTokenBMint, fee, input).Some?
    ensures r.Err? ==> r.error == InitializeVaultError(whirlpool, inputTokenAMint, inputTokenBMint, fee, input).value
    ensures r.Ok? ==>
      && fresh(r.value)
      && r.value.Valid()
      && r.value.positions == []
      && IsFilledTable(r.value.marketRewards, whirlpool.rewardMints, input)
      && r.value.Snapshot() == VaultSnapshot(
           vaultId, bumps, whirlpool.key, whirlpool.tokenMintA, whirlpool.tokenMintB, DEFAULT_PUBKEY,
           [], fee, 0, 0, 0, 0, 0, 0, 0, r.value.marketRewards, false)
  {
    if inputTokenAMint != whirlpool.tokenMintA {
      return Err(InvalidInputMint);
    }
    if inputTokenBMint != whirlpool.tokenMintB {
      return Err(InvalidInputMint);
    }
    :- Require(fee <= FEE_SCALE, InvalidFee);
    var marketRewardsInfo :- FillMarketRewards(whirlpool.rewardMints, input);
    var vault := new VaultAccount.Init(InitVaultAccountParams(
      vaultId, bumps, whirlpool.key, inputTokenAMint, inputTokenBMint, DEFAULT_PUBKEY, fee, marketRewardsInfo));
    return Ok(vault);
  }

  // ---------------------------------------------------------------------
  // Properties

  /** The filled table is determined by the pool's reward mints and the
      input: two tables filled from the same arguments are equal. */
  lemma FilledTableIsUnique(t1: seq<MarketRewardsInfo>, t2: seq<MarketRewardsInfo>,
                            rewardMints: seq<Pubkey>, input: seq<MarketRewardsInfoInput>)
    requires |rewardMints| == NUM_MARKET_REWARDS && |input| <= NUM_MARKET_REWARDS
    requires IsFilledTable(t1, rewardMints, input) && IsFilledTable(t2, rewardMints, input)
    ensures t1 == t2
  {
    forall i | 0 <= i < NUM_MARKET_REWARDS
      ensures t1[i] == t2[i]
    {
      if i < |input| {
        assert t1[i] == FilledEntry(rewardMints, input[i], i);
      } else {
        assert t1[i] == DEFAULT_MARKET_REWARDS_INFO;
      }
    }
  }
}
