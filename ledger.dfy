/** The balance table of one NEAR `FungibleToken`, as the pool uses it.
    The library itself is not part of this model: a ledger is a map from
    the registered accounts to their `u128` balances, and the operations
    the pool calls (`internal_register_account`,
    `internal_unwrap_balance_of`, `internal_transfer`) are modelled as
    updates of that map that fail the way the library panics. */
module Ledger {
  import opened Base

  type Balances = map<AccountId, U128>

  /** `internal_register_account`: a new account starts at 0; an account
      that is already registered panics. */
  function Register(b: Balances, account: AccountId): (r: Result<Balances, Panic>)
    ensures r.Failure? <==> account in b
    ensures r.Failure? ==> r.error == AccountAlreadyRegistered
    ensures r.Success? ==> r.value.Keys == b.Keys + {account} && r.value[account] == 0
    ensures r.Success? ==> forall a :: a in b ==> r.value[a] == b[a]
  {
    if account in b then Failure(AccountAlreadyRegistered) else Success(b[account := 0])
  }

  /** `internal_unwrap_balance_of`: the balance of a registered account. */
  function BalanceOf(b: Balances, account: AccountId): Result<U128, Panic> {
    if account in b then Success(b[account]) else Failure(AccountNotRegistered)
  }

  /** `internal_withdraw` */
  function Withdraw(b: Balances, account: AccountId, amount: U128): Result<Balances, Panic> {
    var balance :- BalanceOf(b, account);
    if balance < amount then Failure(NotEnoughBalance)
    else Success(b[account := balance - amount])
  }

  /** `internal_deposit` */
  function Deposit(b: Balances, account: AccountId, amount: U128): Result<Balances, Panic> {
    var balance :- BalanceOf(b, account);
    if balance + amount >= U128_LIMIT then Failure(BalanceOverflow)
    else Success(b[account := balance + amount])
  }

  /** `internal_transfer`: withdraw from the sender, then deposit to the
      receiver. It succeeds exactly when both are registered, the sender
      holds the amount and the receiver's balance stays a `u128`; it then
      debits the sender and credits the receiver and changes nothing else.
      A transfer from an account to itself leaves the ledger as it was. */
  function Transfer(b: Balances, sender: AccountId, receiver: AccountId, amount: U128): (r: Result<Balances, Panic>)
    ensures r.Success? <==>
      && sender in b && receiver in b && amount <= b[sender]
      && (sender != receiver ==> b[receiver] + amount < U128_LIMIT)
    ensures sender !in b ==> r == Failure(AccountNotRegistered)
    ensures r.Success? ==> r.value.Keys == b.Keys
    ensures r.Success? && sender == receiver ==> r.value == b
    ensures r.Success? && sender != receiver ==>
      r.value == b[sender := b[sender] - amount][receiver := b[receiver] + amount]
  {
    var withdrawn :- Withdraw(b, sender, amount);
    Deposit(withdrawn, receiver, amount)
  }
}
