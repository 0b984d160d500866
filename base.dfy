/** Shared vocabulary of the pool model: account identities, the `u128`
    integer width of the contract, and the failure-compatible result type
    that stands for a NEAR panic (a panicking call reverts, so every
    failure leaves the contract state as it was). */
module Base {

  /** One more than the largest `u128`. */
  const U128_LIMIT: nat := 0x1_0000_0000_0000_0000_0000_0000_0000_0000

  /** An unsigned 128-bit integer (`u128`, NEAR's `Balance`). */
  type U128 = n: nat | n < U128_LIMIT

  /** A NEAR account id; token contracts are identified by their account. */
  type AccountId = string

  datatype Option<+T> = None | Some(value: T) {
    function GetOr(default: T): T {
      match this
      case Some(v) => v
      case None => default
    }
  }

  datatype Result<+T, +E> = Success(value: T) | Failure(error: E) {
    predicate IsFailure() {
      Failure?
    }

    function PropagateFailure<U>(): Result<U, E>
      requires Failure?
    {
      Failure(error)
    }

    function Extract(): T
      requires Success?
    {
      value
    }
  }

  /** The reasons a call of the contract panics. */
  datatype Panic =
    | TokenNotSupported      // `expect("Token not supported")` on a map lookup
    | OnlyOwner              // `assert_eq!(.., "Only the owner may call this method")`
    | AccountNotRegistered   // the token ledger has no entry for the account
    | AccountAlreadyRegistered
    | NotEnoughBalance       // a withdrawal larger than the balance
    | BalanceOverflow        // a deposit that would leave `u128`
    | ArithmeticOverflow     // a `u128`/`u32` operation out of range
    | DivisionByZero
    | NotAPair               // `collect_tuple().unwrap()` on more than two parts

  /** Successful calls return unit. */
  type Outcome = Result<(), Panic>
}
