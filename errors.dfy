/** Error codes raised by the vault program, the result type every
    fallible operation returns, and an option type. A handler that returns an error aborts its
    whole transaction, so the vault account is left as it was. */
module Errors {

  datatype ErrorCode =
    // checked arithmetic (math/safe_arithmetics.rs, math/mul_div.rs)
    | MathOverflow
    | MathOverflowAdd
    | MathOverflowSub
    | MathOverflowMul
    | MathZeroDivision
    | MathOverflowConversion
    // share accounting
    | ZeroLpAmount
    | ExceededTokenMax
    // position registry and account constraints
    | PositionAlreadyOpened
    | PositionLimitReached
    | PositionNotActive
    | RebalanceIntoActivePosition
    // instruction sequencing
    | MissingReinvest
    | MissingIx
    | InvalidIxData
    | NotEnoughSlots
    // rewards and administration
    | InvalidSwapProgramId
    | InvalidNumberOfAccounts
    | InvalidFee
    | InvalidInputMint
    | InvalidRewardMint
    /** An Anchor account `constraint = ...` without a custom error. */
    | ConstraintRaw
    /** A Rust panic (out-of-bounds index); it aborts the transaction like any error. */
    | Panic

  datatype Result<+T> = Ok(value: T) | Err(error: ErrorCode) {
    predicate IsFailure() { Err? }

    function PropagateFailure<U>(): Result<U>
      requires Err?
    {
      Err(error)
    }

    function Extract(): T
      requires Ok?
    {
      value
    }
  }

  datatype Option<+T> = None | Some(value: T)

  /** The outcome of a `require!`: passes, or fails with its error code.
      Written `:- Require(c, e);` inside a member that returns a `Result`. */
  datatype Check = Pass | Fail(error: ErrorCode) {
    predicate IsFailure() { Fail? }

    function PropagateFailure<U>(): Result<U>
      requires Fail?
    {
      Err(error)
    }
  }

  function Require(condition: bool, error: ErrorCode): (r: Check)
    ensures r.Pass? <==> condition
    ensures r.Fail? ==> r.error == error
  {
    if condition then Pass else Fail(error)
  }
}
