/** The vault account: its fields, the registry of Whirlpool positions it
    owns (at most `MAX_POSITIONS`, the active one first), and the
    market-rewards table. */
module State {
  import opened Errors
  import opened SafeArithmetics

  /** An account address: the 32 key bytes read as a big-endian number. */
  type Pubkey = nat

  const DEFAULT_PUBKEY: Pubkey := 0

  /** Number of simultaneous positions allowed. */
  const MAX_POSITIONS: nat := 2

  /** Slots of the market-rewards table, one per Whirlpool reward. */
  const NUM_MARKET_REWARDS: nat := 3

  /** Fees are a percentage: at most 100. */
  const FEE_SCALE: nat := 100

  datatype Bumps = Bumps(vault: nat, lpTokenMint: nat)

  datatype PositionInfo = PositionInfo(pubkey: Pubkey, lowerTick: int, upperTick: int)

  /** The market a reward token is sold on, kept as its numeric code; 0 is the default. */
  type MarketRewards = nat

  datatype MarketRewardsInfo = MarketRewardsInfo(
    id: MarketRewards,
    rewardsMint: Pubkey,
    isDestinationTokenA: bool,
    destinationTokenAccount: Pubkey,
    minAmountOut: nat)

  const DEFAULT_MARKET_REWARDS_INFO: MarketRewardsInfo := MarketRewardsInfo(0, DEFAULT_PUBKEY, false, DEFAULT_PUBKEY, 0)

  datatype InitVaultAccountParams = InitVaultAccountParams(
    vaultId: nat,
    bumps: Bumps,
    whirlpoolId: Pubkey,
    inputTokenAMint: Pubkey,
    inputTokenBMint: Pubkey,
    daoTreasuryLpTokenAccount: Pubkey,
    fee: nat,
    marketRewards: seq<MarketRewardsInfo>)

  /** Every field of the vault account, as one value. */
  datatype VaultSnapshot = VaultSnapshot(
    vaultId: nat,
    bumps: Bumps,
    whirlpoolId: Pubkey,
    inputTokenAMint: Pubkey,
    inputTokenBMint: Pubkey,
    daoTreasuryLpTokenAccount: Pubkey,
    positions: seq<PositionInfo>,
    fee: nat,
    lastLiquidityIncrease: nat,
    lastReinvestmentSlot: nat,
    minSlotsForReinvest: nat,
    accNonInvestedFeesA: nat,
    accNonInvestedFeesB: nat,
    earnedRewardsTokenA: nat,
    earnedRewardsTokenB: nat,
    marketRewards: seq<MarketRewardsInfo>,
    isPaused: bool)

  // ---------------------------------------------------------------------
  // The position registry

  /** `position_exists`: some entry has exactly this tick range. */
  function PositionExists(positions: seq<PositionInfo>, lowerTick: int, upperTick: int): (r: bool)
    ensures r <==> exists i :: 0 <= i < |positions| && positions[i].lowerTick == lowerTick && positions[i].upperTick == upperTick
  {
    if positions == [] then false
    else if positions[0].lowerTick == lowerTick && positions[0].upperTick == upperTick then true
    else
      var rest := PositionExists(positions[1..], lowerTick, upperTick);
      assert rest ==> exists i :: 1 <= i < |positions| && positions[i].lowerTick == lowerTick && positions[i].upperTick == upperTick by {
        if rest {
          var j :| 0 <= j < |positions[1..]| && positions[1..][j].lowerTick == lowerTick && positions[1..][j].upperTick == upperTick;
          assert positions[j + 1] == positions[1..][j];
        }
      }
      rest
  }

  /** `position_address_exists`: some entry has this key. */
  function PositionAddressExists(positions: seq<PositionInfo>, key: Pubkey): (r: bool)
    ensures r <==> exists i :: 0 <= i < |positions| && positions[i].pubkey == key
  {
    FindPosition(positions, key).Some?
  }

  /** The `position(|p| p.pubkey == key)` lookup: the first index holding the key. */
  function FindPosition(positions: seq<PositionInfo>, key: Pubkey): (r: Option<nat>)
    ensures r.Some? ==> r.value < |positions| && positions[r.value].pubkey == key
    ensures r.Some? ==> forall j :: 0 <= j < r.value ==> positions[j].pubkey != key
    ensures r.None? <==> forall i :: 0 <= i < |positions| ==> positions[i].pubkey != key
  {
    if positions == [] then None
    else if positions[0].pubkey == key then Some(0)
    else
      match FindPosition(positions[1..], key)
      case None =>
        assert forall i :: 1 <= i < |positions| ==> positions[i] == positions[1..][i - 1];
        None
      case Some(j) =>
        assert forall i :: 1 <= i < |positions| ==> positions[i] == positions[1..][i - 1];
        Some(j + 1)
  }

  /** `active_position_key`: the key of the first entry. */
  function ActivePositionKey(positions: seq<PositionInfo>): (r: Pubkey)
    requires |positions| > 0
    ensures PositionAddressExists(positions, r)
    ensures FindPosition(positions, r) == Some(0)
  {
    positions[0].pubkey
  }

  /** The account constraints of instructions that act on the active
      position: the pool is the vault's (an unnamed constraint) and the
      position is the active one. Reading the active key of an empty
      registry aborts. */
  function ActivePositionCheck(positions: seq<PositionInfo>, whirlpoolId: Pubkey,
                               poolKey: Pubkey, positionKey: Pubkey): (r: Check)
    ensures r.Pass? <==> poolKey == whirlpoolId && |positions| > 0 && positionKey == ActivePositionKey(positions)
    ensures poolKey != whirlpoolId ==> r == Fail(ConstraintRaw)
    ensures poolKey == whirlpoolId && |positions| > 0 && positionKey != ActivePositionKey(positions) ==>
      r == Fail(PositionNotActive)
  {
    if poolKey != whirlpoolId then Fail(ConstraintRaw)
    else if |positions| == 0 then Fail(Panic)
    else if positionKey != ActivePositionKey(positions) then Fail(PositionNotActive)
    else Pass
  }

  /** The registry after `update_active_position(key)`: the first entry
      holding `key` is swapped with the entry at index 0. */
  function Promote(positions: seq<PositionInfo>, key: Pubkey): (r: seq<PositionInfo>)
    requires PositionAddressExists(positions, key)
    ensures |r| == |positions| && ActivePositionKey(r) == key
    ensures multiset(r) == multiset(positions)
    ensures var index := FindPosition(positions, key).value;
      r[index] == positions[0] && forall k :: 0 < k < |positions| && k != index ==> r[k] == positions[k]
  {
    var index := FindPosition(positions, key).value;
    positions[0 := positions[index]][index := positions[0]]
  }

  /** The registry never holds more than `MAX_POSITIONS` entries and never
      two entries with the same tick range. */
  predicate RegistryValid(positions: seq<PositionInfo>)
  {
    && |positions| <= MAX_POSITIONS
    && forall i, j :: 0 <= i < |positions| && 0 <= j < |positions| && i != j ==>
         !SameRange(positions[i], positions[j])
  }

  predicate SameRange(p: PositionInfo, q: PositionInfo)
  {
    p.lowerTick == q.lowerTick && p.upperTick == q.upperTick
  }

  // ---------------------------------------------------------------------
  // The vault account

  class VaultAccount {
    var vaultId: nat
    var bumps: Bumps
    var whirlpoolId: Pubkey
    var inputTokenAMint: Pubkey
    var inputTokenBMint: Pubkey
    var daoTreasuryLpTokenAccount: Pubkey
    var positions: seq<PositionInfo>
    var fee: nat
    var lastLiquidityIncrease: nat
    var lastReinvestmentSlot: nat
    var minSlotsForReinvest: nat
    var accNonInvestedFeesA: nat
    var accNonInvestedFeesB: nat
    var earnedRewardsTokenA: nat
    var earnedRewardsTokenB: nat
    var marketRewards: seq<MarketRewardsInfo>
    var isPaused: bool

    /** What every instruction keeps: the registry is valid, the rewards
        table has its fixed size, the fee is a percentage and the counters
        have their on-chain widths. */
    predicate Valid()
      reads this
    {
      && RegistryValid(positions)
      && |marketRewards| == NUM_MARKET_REWARDS
      && fee <= FEE_SCALE
      && Fits(U128, lastLiquidityIncrease)
      && Fits(U64, lastReinvestmentSlot) && Fits(U64, minSlotsForReinvest)
      && Fits(U64, accNonInvestedFeesA) && Fits(U64, accNonInvestedFeesB)
      && Fits(U64, earnedRewardsTokenA) && Fits(U64, earnedRewardsTokenB)
    }

    function Snapshot(): VaultSnapshot
      reads this
    {
      VaultSnapshot(vaultId, bumps, whirlpoolId, inputTokenAMint, inputTokenBMint, daoTreasuryLpTokenAccount,
                    positions, fee, lastLiquidityIncrease, lastReinvestmentSlot, minSlotsForReinvest,
                    accNonInvestedFeesA, accNonInvestedFeesB, earnedRewardsTokenA, earnedRewardsTokenB,
                    marketRewards, isPaused)
    }

    /** `VaultAccount::init`: the given identity, keys, fee and rewards table,
        an empty registry, and every other field at its default. */
    constructor Init(params: InitVaultAccountParams)
      ensures Snapshot() == VaultSnapshot(
        params.vaultId, params.bumps, params.whirlpoolId, params.inputTokenAMint, params.inputTokenBMint,
        params.daoTreasuryLpTokenAccount, [], params.fee, 0, 0, 0, 0, 0, 0, 0, params.marketRewards, false)
      ensures |params.marketRewards| == NUM_MARKET_REWARDS && params.fee <= FEE_SCALE ==> Valid()
    {
      vaultId := params.vaultId;
      bumps := params.bumps;
      whirlpoolId := params.whirlpoolId;
      inputTokenAMint := params.inputTokenAMint;
      inputTokenBMint := params.inputTokenBMint;
      daoTreasuryLpTokenAccount := params.daoTreasuryLpTokenAccount;
      positions := [];
      fee := params.fee;
      lastLiquidityIncrease := 0;
      lastReinvestmentSlot := 0;
      minSlotsForReinvest := 0;
      accNonInvestedFeesA := 0;
      accNonInvestedFeesB := 0;
      earnedRewardsTokenA := 0;
      earnedRewardsTokenB := 0;
      marketRewards := params.marketRewards;
      isPaused := false;
    }

    /** `update_active_position`: swaps the entry holding `key` to the front.
        The key must be registered (the source unwraps the lookup). */
    method UpdateActivePosition(key: Pubkey)
      requires PositionAddressExists(positions, key)
      modifies this
      ensures Snapshot() == old(Snapshot()).(positions := Promote(old(positions), key))
      ensures ActivePositionKey(positions) == key
      ensures RegistryValid(old(positions)) ==> RegistryValid(positions)
    {
      var index := FindPosition(positions, key).value;
      var first := positions[0];
      positions := positions[0 := positions[index]];
      positions := positions[index := first];
      PromotePreservesRegistry(old(positions), key);
    }
  }

  // ---------------------------------------------------------------------
  // Properties

  /** Promotion keeps the registry valid. */
  lemma PromotePreservesRegistry(positions: seq<PositionInfo>, key: Pubkey)
    requires PositionAddressExists(positions, key)
    ensures RegistryValid(positions) ==> RegistryValid(Promote(positions, key))
  {
    var r := Promote(positions, key);
    var index := FindPosition(positions, key).value;
    if RegistryValid(positions) {
      // r is positions with indices 0 and index exchanged
      var from := (k: int) => if k == 0 then index else if k == index then 0 else k;
      assert forall k :: 0 <= k < |r| ==> 0 <= from(k) < |positions| && r[k] == positions[from(k)];
      forall i, j | 0 <= i < |r| && 0 <= j < |r| && i != j
        ensures !SameRange(r[i], r[j])
      {
        assert from(i) != from(j);
      }
    }
  }

  /** Promoting the key that is already active changes nothing. */
  lemma PromoteActiveIsNoOp(positions: seq<PositionInfo>)
    requires |positions| > 0
    ensures Promote(positions, ActivePositionKey(positions)) == positions
  {
  }

  /** Promotion depends only on which entry holds the key: promoting the
      key of entry `k` moves exactly that entry to the front. */
  lemma PromoteMovesEntryToFront(positions: seq<PositionInfo>, k: nat)
    requires k < |positions|
    requires forall i, j :: 0 <= i < |positions| && 0 <= j < |positions| && i != j ==> positions[i].pubkey != positions[j].pubkey
    ensures Promote(positions, positions[k].pubkey)[0] == positions[k]
    ensures Promote(positions, positions[k].pubkey)[k] == positions[0]
  {
    var key := positions[k].pubkey;
    var index := FindPosition(positions, key).value;
    assert index == k;
  }
}
