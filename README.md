# ggoldca vault — a Dafny model

ggoldca is a Solana (Anchor) program. It runs a vault that holds one Orca
Whirlpool concentrated-liquidity position on behalf of LP-token holders.
Users deposit the two pool tokens and receive LP tokens. They burn LP tokens to
withdraw. Anyone may `reinvest` the vault's idle balances into the position
once a slot cooldown has passed. An administrator may `rebalance` all liquidity
into another registered position. Trading fees and pool rewards are collected
and counted in the vault account.

This project models the integer accounting of that program and proves
properties about it:

- **Checked arithmetic.** `SafeArithmetics` covers the checked `safe_add/sub/mul/div`
  over u64, u128 and U256, and the double-width `safe_mul_div` and its round-up
  variant. `MathMulDiv` is the older u64 `mul_div`, and `LpPricing` is the
  LP-token price. Machine integers are `nat`s bounded by `Fits(width, x)`.
  Checked addition and multiplication model the wrap-around result and the
  overflow test on it explicitly.
- **Liquidity estimation.** `WhirlpoolPosition` estimates the liquidity that
  two token amounts fund over a tick range, in Q64.64. The Whirlpool library's
  tick-to-sqrt-price table is a function parameter `sqrtPriceAt`.
- **The vault account.** `State.VaultAccount` is a class whose methods update
  its fields in place. `Snapshot()` gives every field as one value, so each
  handler can state the whole new state. The position registry is a
  `seq<PositionInfo>`, at most `MAX_POSITIONS` (2) long, with the active
  position first.
  - programs/ggoldca/src/state.rs:9-25 declares only the bumps, the pool, the
    two mints, the treasury and the registry. Its `init` (state.rs:32-41)
    copies only those.
  - The instruction files read and write more fields: `vault_id`, `fee`,
    `last_liquidity_increase`, `last_reinvestment_slot`,
    `min_slots_for_reinvest`, the earned-fee and earned-rewards counters, the
    market-rewards table and the pause flag.
  - The model's vault has the union of these fields, and `Init` takes the
    parameters that initialize_vault.rs:106-119 passes.
- **One module per instruction.** These are `OpenPosition`, `Deposit`,
  `Withdraw`, `Rebalance`, `Reinvest`, `CollectFees`, `SwapRewards`,
  `SetVaultFee`, `InitializeVault` and `SetMarketRewards`.
  - Each `Handler` method takes as parameters what the program reads from
    other accounts: token balances, mint supply, position liquidity, the pool's
    price and tick, and balances reloaded after a CPI (cross-program
    invocation).
  - It returns the CPI arguments it would issue (`DepositPlan`,
    `RebalancePlan`, `ReinvestPlan`, ...).
  - A transaction is all-or-nothing, so every handler promises that on an
    error the vault is unchanged.
  - For that reason the model performs a handler's field writes once no later
    step can fail.

Three facts about the code that the model keeps as they are:

- `MAX_POSITIONS` is 2 (programs/ggoldca/src/state.rs:4).
- When the position holds no token B, `reinvest` passes the vault's B balance
  to `swap_params_from_b_to_a`, which uses it as an exact-output amount of
  token A (programs/ggoldca/src/instructions/reinvest.rs:183-184 and 315-323).
- The `position` account of `deposit` and `withdraw` has no constraint tying
  it to the active position (programs/ggoldca/src/instructions/deposit.rs:59).

## Model

| member | source | states |
|---|---|---|
| SafeArithmetics.SafeAdd | programs/ggoldca/src/math/safe_arithmetics.rs:18-20 | the wrapped sum is accepted exactly when the true sum fits the width, and then it is the true sum; otherwise `MathOverflowAdd` |
| SafeArithmetics.SafeSub | programs/ggoldca/src/math/safe_arithmetics.rs:22-24 | fails with `MathOverflowSub` exactly when rhs > lhs; otherwise the result plus rhs is lhs |
| SafeArithmetics.SafeMul | programs/ggoldca/src/math/safe_arithmetics.rs:26-28 | the wrap-around product with its division check is accepted exactly when the true product fits, and then equals it; otherwise `MathOverflowMul` |
| SafeArithmetics.WrappedProductCheck | programs/ggoldca/src/math/safe_arithmetics.rs:26-28 | dividing the wrapped product by one factor gives back the other factor exactly when the product did not wrap |
| SafeArithmetics.SafeDiv | programs/ggoldca/src/math/safe_arithmetics.rs:30-32 | fails with `MathZeroDivision` exactly when the divisor is 0; otherwise returns the floor quotient (q·y ≤ x < (q+1)·y) |
| SafeArithmetics.TryInto | programs/ggoldca/src/math/safe_arithmetics.rs:71-74 | narrowing succeeds exactly when the value fits the target width; otherwise `MathOverflowConversion` |
| SafeArithmetics.SafeMulDivIsRound | programs/ggoldca/src/math/safe_arithmetics.rs:63-93 | succeeds exactly when d > 0 and the floor (or, rounding up, the ceiling) of x·m/d fits the width, and then returns it; the error is `MulDivFailure` |
| SafeArithmetics.WideProductFits | programs/ggoldca/src/math/safe_arithmetics.rs:64-68 | the product of two u64 (u128) values plus the round-up offset fits u128 (U256), so those steps never fail |
| SafeArithmetics.CeilByOffset | programs/ggoldca/src/math/safe_arithmetics.rs:67-69 | (n + d − 1) / d is the ceiling of n / d |
| SafeArithmetics.SafeMulDiv | programs/ggoldca/src/math/safe_arithmetics.rs:44-46 | the floor of x·m/d: q·d ≤ x·m < (q+1)·d; fails exactly when d = 0 or the quotient does not fit |
| SafeArithmetics.SafeMulDivRoundUp | programs/ggoldca/src/math/safe_arithmetics.rs:48-50 | the least q with x·m ≤ q·d; with d = 0 and x·m = 0 it fails with `MathOverflowSub`, not `MathZeroDivision` |
| SafeArithmetics.RoundUpVersusRoundDown | programs/ggoldca/src/math/safe_arithmetics.rs:44-50 | round-down ≤ round-up ≤ round-down + 1, with equality exactly when d divides x·m |
| SafeArithmetics.SafeMulDivExamples | programs/ggoldca/src/math/safe_arithmetics.rs:100-146 | 11·5/4 gives 13 and 14, 56·23/3 gives 429 and 430, 8·3/2 gives 12 and 12 |
| MathMulDiv.MulDiv | programs/ggoldca/src/math/mul_div.rs:12-19 | floor of a·n/d through u128; the product never overflows; d = 0 and a quotient above u64::MAX both give `MathOverflow` |
| MathMulDiv.MulDivAgreesWithSafeMulDiv | programs/ggoldca/src/math/mul_div.rs:12-19 | `mul_div` and u64 `safe_mul_div` succeed on the same inputs and then return the same value |
| LpPricing.TokenToLp | programs/ggoldca/src/math/lp_price.rs:18-24 | the identity while no LP token is minted, otherwise floor(amount·minted/total), failing when total is 0 |
| LpPricing.LpToToken | programs/ggoldca/src/math/lp_price.rs:27-33 | the identity while no LP token is minted, otherwise floor(lp·total/minted) |
| LpPricing.RoundTripNeverGains | programs/ggoldca/src/math/lp_price.rs:18-33 | converting to LP and back, or back and forth the other way, never yields more than was put in |
| LpPricing.CrossProduct | programs/ggoldca/src/math/lp_price.rs:38-44 | the u128 product of two u64 values never overflows, so the `unwrap` never panics |
| LpPricing.EqIsSamePrice | programs/ggoldca/src/math/lp_price.rs:36-61 | cross-multiplied equality and ordering agree with equality and ordering of the rational prices total/minted |
| LpPricing.EqTransitive | programs/ggoldca/src/math/lp_price.rs:36-47 | price equality is transitive among prices with LP tokens minted |
| LpPricing.LpPriceExamples | programs/ggoldca/src/math/lp_price.rs:68-87 | 10000/10000 equals 20000/20000, and 15000/10000 is greater than 10000/10000 |
| WhirlpoolPosition.EstLiquidityForTokenA | programs/ggoldca/src/interfaces/whirlpool_position.rs:146-164 | the result is the largest liquidity that the token A amount covers over the range; it fails on an overflowing 256-bit product, on equal prices, or on a result above u128 |
| WhirlpoolPosition.TokenAQuotientIsLargestCovered | programs/ggoldca/src/interfaces/whirlpool_position.rs:154-163 | the double floor quotient covers and the next one does not; it fits u128 exactly when 2^128 is not covered |
| WhirlpoolPosition.EstLiquidityForTokenB | programs/ggoldca/src/interfaces/whirlpool_position.rs:167-179 | the largest liquidity that the token B amount covers over the range; fails with `MathZeroDivision` exactly on equal prices |
| WhirlpoolPosition.EstLiquidityFromTokenAmounts | programs/ggoldca/src/interfaces/whirlpool_position.rs:109-143 | a successful estimate fits u128 |
| WhirlpoolPosition.LiquidityFromTokenAmounts | programs/ggoldca/src/interfaces/whirlpool_position.rs:35-66 | the estimate at the pool's price and tick is exactly the largest fundable liquidity: l is fundable iff l ≤ estimate |
| WhirlpoolPosition.EstimateIsLargestFundable | programs/ggoldca/src/interfaces/whirlpool_position.rs:109-143 | in each of the three tick cases, a liquidity is fundable by the amounts exactly when it is at most the estimate |
| WhirlpoolPosition.TokenAIsThreshold | programs/ggoldca/src/interfaces/whirlpool_position.rs:146-164 | token A covers a liquidity exactly when it is at most the token A estimate |
| WhirlpoolPosition.TokenBIsThreshold | programs/ggoldca/src/interfaces/whirlpool_position.rs:167-179 | token B covers a liquidity exactly when it is at most the token B estimate |
| WhirlpoolPosition.InRangeIsBelowEachSide | programs/ggoldca/src/interfaces/whirlpool_position.rs:132-142 | inside the range the estimate is at most each one-sided estimate |
| WhirlpoolPosition.AboveRangeUsesOnlyTokenB | programs/ggoldca/src/interfaces/whirlpool_position.rs:120-125 | at or above the range the result does not depend on token A or the current price |
| WhirlpoolPosition.BelowRangeUsesOnlyTokenA | programs/ggoldca/src/interfaces/whirlpool_position.rs:126-131 | below the range the result does not depend on token B or the current price |
| WhirlpoolPosition.EstimatorsIgnoreArgumentOrder | programs/ggoldca/src/interfaces/whirlpool_position.rs:151-152 | swapping the two sqrt prices given to an estimator changes nothing |
| WhirlpoolPosition.NoProductOverflowWithinPoolBounds | programs/ggoldca/src/interfaces/whirlpool_position.rs:154-156 | for prices within the pool bounds the 256-bit product never overflows |
| WhirlpoolPosition.EstimateExamples | programs/ggoldca/src/interfaces/whirlpool_position.rs:214-248 | the three SDK test cases give 2693896, 16698106 and 1303862 |
| State.PositionExists | programs/ggoldca/src/state.rs:44-49 | true exactly when some entry has both the lower and the upper tick |
| State.PositionAddressExists | programs/ggoldca/src/state.rs:52-54 | true exactly when some entry has the key |
| State.FindPosition | programs/ggoldca/src/state.rs:63-68 | the first index holding the key, or none exactly when no entry holds it |
| State.ActivePositionKey | programs/ggoldca/src/state.rs:57-59 | the first entry's key, which is registered and found at index 0 |
| State.ActivePositionCheck | programs/ggoldca/src/instructions/reinvest.rs:67-70 | passes exactly when the pool is the vault's and the position is the active one; otherwise the unnamed-constraint error or `PositionNotActive` |
| State.Promote | programs/ggoldca/src/state.rs:62-70 | the key becomes active, the length and the multiset of entries are kept, and every index other than 0 and the key's is untouched |
| State.VaultAccount.Init | programs/ggoldca/src/instructions/initialize_vault.rs:106-119 | stores the identity, bumps, pool, mints, treasury account, fee and rewards table it is given (what `initialize_vault` passes), an empty registry and zero in every counter and slot; valid when the table has 3 entries and the fee is at most `FEE_SCALE` |
| State.VaultAccount.UpdateActivePosition | programs/ggoldca/src/state.rs:62-70 | the vault after the swap is the old vault with `Promote` applied to its registry; the key is active and the registry stays valid |
| State.PromotePreservesRegistry | programs/ggoldca/src/state.rs:69 | swapping two entries keeps the registry within its bound and free of duplicate ranges |
| State.PromoteActiveIsNoOp | programs/ggoldca/src/state.rs:62-70 | promoting the active key changes nothing |
| State.PromoteMovesEntryToFront | programs/ggoldca/src/state.rs:62-70 | with distinct keys, promoting entry k's key exchanges entries 0 and k |
| OpenPosition.OpenPositionCheck | programs/ggoldca/src/instructions/open_position.rs:82-90 | passes exactly when the range is new and the registry has room; a duplicate range gives `PositionAlreadyOpened`, a full registry `PositionLimitReached` |
| OpenPosition.Handler | programs/ggoldca/src/instructions/open_position.rs:80-96 | on success exactly one entry is appended and nothing else changes; on failure nothing changes; the registry stays valid |
| OpenPosition.AppendKeepsRegistryValid | programs/ggoldca/src/instructions/open_position.rs:82-96 | an append that passed the checks keeps at most `MAX_POSITIONS` entries with distinct ranges |
| OpenPosition.OpenKeepsActivePosition | programs/ggoldca/src/instructions/open_position.rs:92-96 | appending keeps the active position, and the first position opened becomes active |
| OpenPosition.DuplicateCheckedBeforeCapacity | programs/ggoldca/src/instructions/open_position.rs:82-90 | a duplicate range in a full registry reports `PositionAlreadyOpened` |
| Deposit.Handler | programs/ggoldca/src/instructions/deposit.rs:225-297 | with no supply, `lp_amount` liquidity and no charge; otherwise each side with a balance is charged its rounded-up share, strictly below the max, the approval is max − charge, and the liquidity is the rounded-up share; errors in handler order; `lp_amount` minted |
| Deposit.ChargeToken | programs/ggoldca/src/instructions/deposit.rs:240-260 | a side with a balance pays its rounded-up share and must stay below its maximum; charge plus approval equals the maximum |
| Deposit.CeilShareIsCeilDiv | programs/ggoldca/src/instructions/deposit.rs:241 | the rounded-up share is unique: it is the ceiling of amount·lp/supply |
| Deposit.DepositNeverDilutes | programs/ggoldca/src/instructions/deposit.rs:240-263 | after paying the rounded-up share, the balance per LP token is not lower than before |
| Withdraw.SaturatingSub | programs/ggoldca/src/instructions/withdraw.rs:30 | never below zero, and the exact difference when it does not saturate |
| Withdraw.Handler | programs/ggoldca/src/instructions/withdraw.rs:9-86 | fails with `ZeroLpAmount` first; pays the floor share of each balance held; minimums reduced by saturation; removes the floor share of liquidity minus the last increase; reports the user's balance gains; errors in handler order |
| Withdraw.WithdrawPaysAtMostDepositCharge | programs/ggoldca/src/instructions/withdraw.rs:29 | for the same balance and supply, the floor payout never exceeds the ceiling charge of a deposit |
| Withdraw.DepositThenWithdrawNoProfit | programs/ggoldca/src/instructions/withdraw.rs:28-30 | depositing for lp tokens and withdrawing them at once returns at most what was paid |
| Rebalance.IsNextIxReinvest | programs/ggoldca/src/instructions/rebalance.rs:161-172 | `MissingIx` exactly when there is no next instruction, `InvalidIxData` exactly when its data is under 8 bytes, else whether it starts with the reinvest discriminator |
| Rebalance.ReinvestWithAnyArgumentsPasses | programs/ggoldca/src/instructions/rebalance.rs:165-171 | any data starting with the reinvest discriminator passes, whatever follows |
| Rebalance.RebalanceConstraints | programs/ggoldca/src/instructions/rebalance.rs:56-66 | passes exactly when both pools are the vault's, the current position is active, and the target is registered and differs from it |
| Rebalance.Handler | programs/ggoldca/src/instructions/rebalance.rs:100-159 | checks the constraints, then passes on the guard's `MissingIx`/`InvalidIxData` and gives `MissingReinvest` when the next instruction is not reinvest, then the estimate's and the rescale's errors; succeeds exactly when all of these pass. On success it drains the whole current liquidity with zero minimums, adds the largest liquidity the drained balances fund, resets the reinvest slot, rescales the last increase by ceil(last·new/old) and makes the target active; unchanged on error |
| Rebalance.RescaledIncreaseKeepsShare | programs/ggoldca/src/instructions/rebalance.rs:145-149 | the rescaled increase is the least value whose share of the new liquidity is at least the old share, and never above the new liquidity |
| Reinvest.RatioX64 | programs/ggoldca/src/instructions/reinvest.rs:198-199 | the floor of 2^64·pa/pb |
| Reinvest.RatioFits | programs/ggoldca/src/instructions/reinvest.rs:198-199 | the ratio is at least 1 and fits u128, so its mul-div never fails |
| Reinvest.ReinvestSwap | programs/ggoldca/src/instructions/reinvest.rs:181-237 | all of A is sold when the position holds no A; vault B is passed to the B-to-A swap when it holds no B; otherwise the balancing swap at the position's ratio and the squared price |
| Reinvest.BalancingSwap | programs/ggoldca/src/instructions/reinvest.rs:198-236 | fails exactly on an overflowing ratio·b or denominator, with the source's error; otherwise direction A-to-B iff a·2^64 > ratio·b, the amount fits u64, and it is the largest sale or purchase that keeps the ratio at the pool price |
| Reinvest.SwapAmountMeaning | programs/ggoldca/src/instructions/reinvest.rs:210-230 | the quotient numerator·2^128 / (2^192 + ratio·price) is below 2^64 and is the largest ratio-keeping sale or purchase |
| Reinvest.SaleAlgebra | programs/ggoldca/src/instructions/reinvest.rs:210-227 | a sale of x is within the quotient bound exactly when it keeps at least the ratio |
| Reinvest.PurchaseAlgebra | programs/ggoldca/src/instructions/reinvest.rs:210-227 | a purchase of x is within the quotient bound exactly when it keeps at most the ratio |
| Reinvest.BalancedVaultSwapsNothing | programs/ggoldca/src/instructions/reinvest.rs:208-236 | idle balances already in the position's ratio give a swap of zero |
| Reinvest.BalancedPurchaseIsEmpty | programs/ggoldca/src/instructions/reinvest.rs:210-214 | at the ratio, the only ratio-keeping purchase is the empty one |
| Reinvest.PurchaseIsAffordable | programs/ggoldca/src/instructions/reinvest.rs:232-236 | a ratio-keeping purchase never costs more B, at the pool price, than the vault holds |
| Reinvest.DepositMaxPossibleLiquidity | programs/ggoldca/src/instructions/reinvest.rs:133-151 | nothing is deposited unless both balances are positive; with both positive it fails exactly when the estimate fails and otherwise always deposits the largest fundable liquidity, with the balances as caps |
| Reinvest.Handler | programs/ggoldca/src/instructions/reinvest.rs:154-295 | fails exactly when `ReinvestError` names an error, with that error: the active-position constraints, `MathOverflowSub` before the last slot, `NotEnoughSlots` during the cooldown, the swap's error, `MathOverflowSub` from the swap event, the deposit's error, a liquidity decrease. On success the plan is the balancing swap and the maximal deposit, the slot becomes the current slot and the last increase the liquidity gained; unchanged on error |
| Reinvest.CooldownRestarts | programs/ggoldca/src/instructions/reinvest.rs:155-164 | a vault left by a reinvest at slot s rejects any further reinvest before s + `min_slots_for_reinvest`; once the position checks pass, the error is `NotEnoughSlots` (or `MathOverflowSub` before s) |
| CollectFees.Handler | programs/ggoldca/src/instructions/collect_fees.rs:89-113 | each fee counter grows by exactly that token's balance increase and nothing else changes; a balance decrease gives `MathOverflowSub` and a counter overflow `MathOverflowAdd`, in that order; unchanged on error |
| SwapRewards.SwapOrca | programs/ggoldca/src/instructions/swap_rewards.rs:157-172 | exactly 6 extra accounts, else `InvalidNumberOfAccounts`; the whole balance in, at least 1 out |
| SwapRewards.SwapWhirlpool | programs/ggoldca/src/instructions/swap_rewards.rs:174-207 | exactly 7 extra accounts; the whole balance as input, threshold 1; A-to-B iff the reward is the pool's token A, with the MIN or MAX price limit |
| SwapRewards.RewardsSwapFor | programs/ggoldca/src/instructions/swap_rewards.rs:122-126 | dispatches on the program id; any other id gives `InvalidSwapProgramId` |
| SwapRewards.RewardsAccountsCheck | programs/ggoldca/src/instructions/swap_rewards.rs:33-48 | passes exactly when the rewards mint is neither vault token and the destination mint is one of them |
| SwapRewards.Handler | programs/ggoldca/src/instructions/swap_rewards.rs:113-155 | after the account checks and the dispatch, a destination balance decrease gives `MathOverflowSub` and a counter overflow `MathOverflowAdd`; otherwise it succeeds and the destination's earned-rewards counter grows by exactly the balance increase, nothing else changing; unchanged on error |
| SwapRewards.WhirlpoolSwapSellsTheReward | programs/ggoldca/src/instructions/swap_rewards.rs:177-204 | on a Whirlpool the reward is always the input, in the direction and with the price limit of its side |
| SetVaultFee.SetFee | programs/ggoldca/src/instructions/set_vault_fee.rs:19-25 | succeeds exactly when fee ≤ `FEE_SCALE`, else `InvalidFee`; only the fee changes |
| SetVaultFee.Handler | programs/ggoldca/src/instructions/set_vault_fee.rs:19-25 | the new vault is `SetFee` of the old; unchanged on error |
| SetVaultFee.SetFeeIdempotent | programs/ggoldca/src/instructions/set_vault_fee.rs:19-25 | setting a fee twice is setting it once, and the last fee set wins |
| InitializeVault.FillMarketRewards | programs/ggoldca/src/instructions/initialize_vault.rs:97-104 | slot i gets the pool's reward mint i and input i for every input, the rest stay default; an input longer than the table aborts |
| InitializeVault.Handler | programs/ggoldca/src/instructions/initialize_vault.rs:69-122 | fails in order on either mint, the fee, then the input length; on success a fresh valid vault with the filled table, an empty registry and defaults elsewhere |
| InitializeVault.FilledTableIsUnique | programs/ggoldca/src/instructions/initialize_vault.rs:97-104 | the filled table is determined by the reward mints and the input |
| SetMarketRewards.RewardIndex | programs/ggoldca/src/instructions/set_market_rewards.rs:48-51 | the first slot holding the mint, or none exactly when no slot holds it |
| SetMarketRewards.Handler | programs/ggoldca/src/instructions/set_market_rewards.rs:33-69 | `InvalidRewardMint` when the mint is not a pool reward, then the validation outcome; on success only that slot is replaced by the entry |
| SetMarketRewards.DistinctMintsFindTheirSlot | programs/ggoldca/src/instructions/set_market_rewards.rs:48-51 | with distinct reward mints, slot k's mint finds slot k |

## Left out

- Tick math and token amounts from liquidity. `tick_math::sqrt_price_from_tick_index` is the parameter `sqrtPriceAt`, and the test vectors supply its values at the ticks they use. `token_amounts_from_liquidity*` (whirlpool_position.rs:68-105) is not modelled. Neither is its call inside deposit's log message (deposit.rs:277-282), whose failure would abort a deposit. The position's token amounts are parameters of `Reinvest.Handler`, and its failure is not modelled.
- CPIs to the token, Whirlpool and Orca programs are not modelled. Their arguments are returned and their effects are parameters: reloaded balances and liquidity after the deposit. A failing CPI is not modelled.
- Account deserialisation is not modelled. Account fields are given as values (`WhirlpoolAccount`, `PositionAccount`), and deserialisation failures are left out.
- Events and logs are left out: `emit!` and `msg!`. The checked subtractions that compute reinvest's swap event and withdraw's event amounts are modelled as failures. The unchecked subtractions in deposit's logs (deposit.rs:302-303) are not modelled.
- `update_lp_price` is left out: floating point and oracle reads, and it stores nothing. `transfer_rewards` is left out because it does not compile.
- These CPI wrappers are left out: `sell_rewards`, `swap`, `deposit_pool`, `close_position`, `collect_rewards`, `collect_fees_and_rewards`, and the Orca swap interface.
- PDA seeds and signing, admin access control, token metadata and the vault version constraint are not modelled.
- `set_min_slots_for_reinvest` and `set_vault_pause_status` are single field writes and are not modelled. The fields `minSlotsForReinvest` and `isPaused` are in the vault, and no handler consults `isPaused`.
- `MarketRewardsInfo::validate` is not part of this model. Its outcome is the `validation` parameter of `SetMarketRewards.Handler`.
- Fields that only one instruction sets are filled with defaults. `initialize_vault` and `set_market_rewards` build `MarketRewardsInfo` values with different field sets, so each takes the other's fields from the default entry.
- The market identifiers of `MarketRewards` are numeric codes, with 0 as the default.
- `NUM_MARKET_REWARDS` is taken as 3, the number of Whirlpool reward slots. The table is a `seq` of that fixed length, kept by `VaultAccount.Valid`.
- Handlers that write several fields do so at the end, once no later step can fail. A failing transaction is rolled back, so this is not observable.
- `InitializeVault.Handler` stores the default key as the treasury account, since that handler does not set one.
- WhirlpoolPosition.EstLiquidityFromTokenAmounts: its own contract states only the u128 bound. What the result means is stated by `EstimateIsLargestFundable` and `LiquidityFromTokenAmounts`.
