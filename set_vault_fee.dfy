/** `set_vault_fee`: sets the vault's fee, a percentage. */
module SetVaultFee {
  import opened Errors
  import opened SafeArithmetics
  import opened State

  /** The vault after the instruction, as a value. */
  function SetFee(vault: VaultSnapshot, fee: nat): (r: Result<VaultSnapshot>)
    ensures r.Ok? <==> fee <= FEE_SCALE
    ensures r.Err? ==> r.error == InvalidFee
    ensures r.Ok? ==> r.value.fee == fee && r.value.(fee := vault.fee) == vault
  {
    if fee > FEE_SCALE then Err(InvalidFee)
    else Ok(vault.(fee := fee))
  }

  method Handler(vault: VaultAccount, fee: nat) returns (r: Result<()>)
    requires vault.Valid() && Fits(U64, fee)
    modifies vault
    ensures vault.Valid()
    ensures r.Ok? <==> SetFee(old(vault.Snapshot()), fee).Ok?
    ensures r.Err? ==> r.error == InvalidFee && vault.Snapshot() == old(vault.Snapshot())
    ensures r.Ok? ==> vault.Snapshot() == SetFee(old(vault.Snapshot()), fee).value
  {
    if fee > FEE_SCALE {
      return Err(InvalidFee);
    }
    vault.fee := fee;
    return Ok(());
  }

  // ---------------------------------------------------------------------
  // Properties

  /** Setting the same fee twice is the same as setting it once, and the
      last fee set wins. */
  lemma SetFeeIdempotent(vault: VaultSnapshot, fee: nat, fee': nat)
    requires fee <= FEE_SCALE && fee' <= FEE_SCALE
    ensures SetFee(SetFee(vault, fee).value, fee) == SetFee(vault, fee)
    ensures SetFee(SetFee(vault, fee).value, fee') == SetFee(vault, fee')
  {
  }
}
