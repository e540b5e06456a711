/** `open_position`: after the Whirlpool CPI has opened the position
    account, the vault registers it, refusing a duplicate tick range and a
    full registry. */
module OpenPosition {
  import opened Errors
  import opened State

  /** The registry checks in their source order. */
  function OpenPositionCheck(positions: seq<PositionInfo>, lowerTick: int, upperTick: int): (r: Check)
    ensures r.Pass? <==> !PositionExists(positions, lowerTick, upperTick) && |positions| < MAX_POSITIONS
    ensures PositionExists(positions, lowerTick, upperTick) ==> r == Fail(PositionAlreadyOpened)
    ensures !PositionExists(positions, lowerTick, upperTick) && |positions| >= MAX_POSITIONS ==> r == Fail(PositionLimitReached)
  {
    if PositionExists(positions, lowerTick, upperTick) then Fail(PositionAlreadyOpened)
    else if |positions| >= MAX_POSITIONS then Fail(PositionLimitReached)
    else Pass
  }

  /** The handler: `positionKey` is the position account the CPI opened. */
  method Handler(vault: VaultAccount, positionKey: Pubkey, lowerTick: int, upperTick: int) returns (r: Result<()>)
    requires vault.Valid()
    modifies vault
    ensures vault.Valid()
    ensures r.Ok? <==> OpenPositionCheck(old(vault.positions), lowerTick, upperTick).Pass?
    ensures r.Err? ==> r.error == OpenPositionCheck(old(vault.positions), lowerTick, upperTick).error
    ensures r.Ok? ==> vault.Snapshot() == old(vault.Snapshot()).(positions := old(vault.positions) + [PositionInfo(positionKey, lowerTick, upperTick)])
    ensures r.Err? ==> vault.Snapshot() == old(vault.Snapshot())
  {
    var check := OpenPositionCheck(vault.positions, lowerTick, upperTick);
    if check.Fail? {
      return Err(check.error);
    }
    AppendKeepsRegistryValid(vault.positions, PositionInfo(positionKey, lowerTick, upperTick));
    vault.positions := vault.positions + [PositionInfo(positionKey, lowerTick, upperTick)];
    r := Ok(());
  }

  // ---------------------------------------------------------------------
  // Properties

  /** Appending a position whose range is new to a registry with room left
      keeps the registry valid. */
  lemma AppendKeepsRegistryValid(positions: seq<PositionInfo>, p: PositionInfo)
    requires RegistryValid(positions)
    requires OpenPositionCheck(positions, p.lowerTick, p.upperTick).Pass?
    ensures RegistryValid(positions + [p])
  {
    var s := positions + [p];
    forall i, j | 0 <= i < |s| && 0 <= j < |s| && i != j
      ensures !SameRange(s[i], s[j])
    {
      if i == |positions| {
        assert !SameRange(positions[j], p);
      } else if j == |positions| {
        assert !SameRange(positions[i], p);
      }
    }
  }

  /** Opening never changes which position is active, except that the first
      position opened becomes the active one. */
  lemma OpenKeepsActivePosition(positions: seq<PositionInfo>, p: PositionInfo)
    ensures |positions| > 0 ==> ActivePositionKey(positions + [p]) == ActivePositionKey(positions)
    ensures positions == [] ==> ActivePositionKey(positions + [p]) == p.pubkey
  {
  }

  /** A duplicate range is reported as such even when the registry is full. */
  lemma DuplicateCheckedBeforeCapacity(positions: seq<PositionInfo>, k: nat)
    requires k < |positions| && |positions| >= MAX_POSITIONS
    ensures OpenPositionCheck(positions, positions[k].lowerTick, positions[k].upperTick) == Fail(PositionAlreadyOpened)
  {
  }
}
