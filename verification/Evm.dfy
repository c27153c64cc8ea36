/** What the contracts share with every Solidity program: bounded words, addresses,
    checked arithmetic and calls that either return or revert. */
module Evm {

  const MAX_UINT48: nat := 0xFFFF_FFFF_FFFF
  const MAX_UINT256: nat := 0xFFFF_FFFF_FFFF_FFFF_FFFF_FFFF_FFFF_FFFF_FFFF_FFFF_FFFF_FFFF_FFFF_FFFF_FFFF_FFFF

  type uint48 = x: nat | x <= MAX_UINT48
  type uint256 = x: nat | x <= MAX_UINT256

  /** An account. Only equality and the zero address matter here. */
  type Address = nat

  const ZERO_ADDRESS: Address := 0

  datatype Error =
    | ArithmeticPanic
    | DivisionByZero
    // OperatorsRegistryV1
    | OnlyRestakingMiddlewares
    | InvalidRpc
    | InvalidSigner
    | UnknownOperator
    // PauseableEnumerableSet
    | AlreadyRegistered
    | NotRegistered
    | AlreadyEnabled
    | NotEnabled
    | Enabled
    | ImmutablePeriodNotPassed
    // EigenLayerMiddlewareV3
    | InvalidStrategyAddress
    | StrategyAlreadyWhitelisted
    | UnauthorizedStrategy
    // SymbioticMiddlewareV1
    | NotVault
    | VaultNotInitialized
    | VaultAlreadyWhitelisted

  /** The outcome of a call. */
  datatype Result<+T> = Ok(value: T) | Revert(error: Error) {
    predicate IsFailure() {
      Revert?
    }

    function PropagateFailure<U>(): Result<U>
      requires Revert?
    {
      Revert(error)
    }

    function Extract(): T
      requires Ok?
    {
      value
    }
  }

  /** `require(condition, error)`. */
  function Require(condition: bool, error: Error): Result<()> {
    if condition then Ok(()) else Revert(error)
  }

  function CheckedAdd48(a: uint48, b: uint48): Result<uint48> {
    if a + b <= MAX_UINT48 then Ok(a + b) else Revert(ArithmeticPanic)
  }

  function CheckedSub48(a: uint48, b: uint48): Result<uint48> {
    if b <= a then Ok(a - b) else Revert(ArithmeticPanic)
  }

  function CheckedMul48(a: uint48, b: uint48): Result<uint48> {
    if a * b <= MAX_UINT48 then Ok(a * b) else Revert(ArithmeticPanic)
  }

  function CheckedAdd256(a: uint256, b: uint256): Result<uint256> {
    if a + b <= MAX_UINT256 then Ok(a + b) else Revert(ArithmeticPanic)
  }

  /** A state-changing call does what `spec` says: it returns and installs the specified state,
      or it reverts with the specified error and leaves the state alone. */
  ghost predicate Follows<S>(r: Result<()>, spec: Result<S>, before: S, after: S) {
    match spec
    case Ok(next) => r == Ok(()) && after == next
    case Revert(error) => r == Revert(error) && after == before
  }
}
