/** What `AMM::new`, `AMM::swap` and `AMM::deposit` do to the contract's
    `tokens` map, as functions of the map before the call. The two variants
    of the contract share these definitions; they differ only in the type of
    the ticker each token record carries, so the ticker is a type parameter.

    A token record is a value: a call copies it out of the map, updates the
    copy through transfers on its ledger, and writes the copy back. */
module PoolSpec {
  import opened Base
  import opened Ledger
  import Pricing

  /** `FungibleTokenMetadata`, without the optional icon and references. */
  datatype Metadata = Metadata(spec: string, name: string, symbol: string, decimals: nat)

  /** The tuple `(FungibleToken, FungibleTokenMetadata, TickerInfo)`. */
  datatype TokenEntry<Ticker> = TokenEntry(ledger: Balances, meta: Metadata, ticker: Ticker)

  /** The contract's `tokens` map, keyed by token-contract account. */
  type Tokens<Ticker> = map<AccountId, TokenEntry<Ticker>>

  /** `create_token`: a fresh ledger with the owner registered at 0. */
  function CreateToken(owner: AccountId): (b: Balances)
    ensures b.Keys == {owner} && b[owner] == 0
  {
    Register(map[], owner).value
  }

  /** The map `AMM::new` builds: exactly the two token contracts, each with a
      fresh ledger and the default ticker. When both addresses are the same
      the second insert wins, so B's metadata is kept. */
  function InitialTokens<Ticker>(owner: AccountId, aContract: AccountId, aMeta: Metadata,
                                 bContract: AccountId, bMeta: Metadata, ticker: Ticker): (t: Tokens<Ticker>)
    ensures t.Keys == {aContract, bContract}
    ensures forall c :: c in t ==> t[c].ledger == CreateToken(owner) && t[c].ticker == ticker
    ensures t[bContract].meta == bMeta
    ensures aContract != bContract ==> t[aContract].meta == aMeta
  {
    map[aContract := TokenEntry(CreateToken(owner), aMeta, ticker)]
       [bContract := TokenEntry(CreateToken(owner), bMeta, ticker)]
  }

  /** `AMM::swap` called by `caller`. The owner's balances `x` and `y` are
      read first; the sell leg moves `amount` from the caller to the owner,
      the buy leg moves the priced amount from the owner to the caller, and
      the buy record is written back before the sell record.
      The call fails with "Token not supported" exactly when one of the two
      addresses is not in the pool. A successful call keeps every key,
      every registration, every metadata and every ticker, and touches no
      record other than the two it names. */
  function Swap<Ticker>(tokens: Tokens<Ticker>, owner: AccountId, caller: AccountId,
                        buyAddr: AccountId, sellAddr: AccountId, amount: U128): (r: Result<Tokens<Ticker>, Panic>)
    ensures r == Failure(TokenNotSupported) <==> buyAddr !in tokens || sellAddr !in tokens
    ensures r.Success? ==>
      && owner in tokens[sellAddr].ledger && owner in tokens[buyAddr].ledger
      && caller in tokens[sellAddr].ledger && caller in tokens[buyAddr].ledger
    ensures r.Success? ==> r.value.Keys == tokens.Keys
    ensures r.Success? ==> forall c :: c in tokens ==>
      && r.value[c].ledger.Keys == tokens[c].ledger.Keys
      && r.value[c].meta == tokens[c].meta
      && r.value[c].ticker == tokens[c].ticker
    ensures r.Success? ==> forall c :: c in tokens && c != buyAddr && c != sellAddr ==> r.value[c] == tokens[c]
  {
    if buyAddr !in tokens || sellAddr !in tokens then Failure(TokenNotSupported)
    else
      var buyToken := tokens[buyAddr];
      var sellToken := tokens[sellAddr];
      var x :- BalanceOf(sellToken.ledger, owner);
      var y :- BalanceOf(buyToken.ledger, owner);
      if x * y >= U128_LIMIT then Failure(ArithmeticOverflow)
      else
        var sellLedger :- Transfer(sellToken.ledger, caller, owner, amount);
        if x + amount >= U128_LIMIT then Failure(ArithmeticOverflow)
        else if x + amount == 0 then Failure(DivisionByZero)
        else
          var buyLedger :- Transfer(buyToken.ledger, owner, caller, Pricing.BuyAmount(x, y, amount));
          Success(tokens[buyAddr := buyToken.(ledger := buyLedger)]
                        [sellAddr := sellToken.(ledger := sellLedger)])
  }

  /** `AMM::deposit` called by `caller`: owner only, then both amounts move
      from the payer (the caller) to the owner. The owner check comes before
      any lookup. Since payer and owner are the same account, a deposit
      that succeeds leaves the pool exactly as it was, and it succeeds
      exactly when the owner holds both amounts. */
  function Deposit<Ticker>(tokens: Tokens<Ticker>, owner: AccountId, caller: AccountId,
                           aAddr: AccountId, bAddr: AccountId, amountA: U128, amountB: U128): (r: Result<Tokens<Ticker>, Panic>)
    ensures caller != owner ==> r == Failure(OnlyOwner)
    ensures caller == owner && (aAddr !in tokens || bAddr !in tokens) ==> r == Failure(TokenNotSupported)
    ensures r.Success? <==>
      && caller == owner && aAddr in tokens && bAddr in tokens
      && owner in tokens[aAddr].ledger && amountA <= tokens[aAddr].ledger[owner]
      && owner in tokens[bAddr].ledger && amountB <= tokens[bAddr].ledger[owner]
    ensures r.Success? ==> r.value == tokens
  {
    if caller != owner then Failure(OnlyOwner)
    else
      var payer := caller;
      if aAddr !in tokens || bAddr !in tokens then Failure(TokenNotSupported)
      else
        var tokenA := tokens[aAddr];
        var tokenB := tokens[bAddr];
        var ledgerA :- Transfer(tokenA.ledger, payer, owner, amountA);
        var ledgerB :- Transfer(tokenB.ledger, payer, owner, amountB);
        Success(tokens[aAddr := tokenA.(ledger := ledgerA)]
                      [bAddr := tokenB.(ledger := ledgerB)])
  }

  /** A swap between two different tokens by a trader other than the owner
      settles both legs: the trader pays `amount` of the sold token to the
      owner and receives `b = BuyAmount(x, y, amount)` of the bought one,
      where `x` and `y` are the owner's balances before the call. The
      product of the owner's balances does not grow. */
  lemma SwapSettlesBothLegs<Ticker>(tokens: Tokens<Ticker>, owner: AccountId, caller: AccountId,
                                    buyAddr: AccountId, sellAddr: AccountId, amount: U128)
    requires buyAddr != sellAddr && caller != owner
    requires Swap(tokens, owner, caller, buyAddr, sellAddr, amount).Success?
    ensures var after := Swap(tokens, owner, caller, buyAddr, sellAddr, amount).value;
      var sellBefore, buyBefore := tokens[sellAddr].ledger, tokens[buyAddr].ledger;
      var sellAfter, buyAfter := after[sellAddr].ledger, after[buyAddr].ledger;
      var x, y := sellBefore[owner], buyBefore[owner];
      x + amount > 0 &&
      var b := Pricing.BuyAmount(x, y, amount);
      && sellAfter == sellBefore[caller := sellBefore[caller] - amount][owner := x + amount]
      && buyAfter == buyBefore[owner := y - b][caller := buyBefore[caller] + b]
      && sellAfter[owner] * buyAfter[owner] <= x * y
  {
    var x, y := tokens[sellAddr].ledger[owner], tokens[buyAddr].ledger[owner];
    Pricing.PoolProductNeverIncreases(x, y, amount);
  }

  /** When both addresses name the same token, the sell record is written
      last and overwrites the buy record: only the sell leg is kept, so the
      trader pays `amount` and is paid nothing. */
  lemma SwapSameTokenKeepsOnlySellLeg<Ticker>(tokens: Tokens<Ticker>, owner: AccountId, caller: AccountId,
                                             addr: AccountId, amount: U128)
    requires Swap(tokens, owner, caller, addr, addr, amount).Success?
    ensures var before := tokens[addr];
      Transfer(before.ledger, caller, owner, amount).Success? &&
      Swap(tokens, owner, caller, addr, addr, amount).value
        == tokens[addr := before.(ledger := Transfer(before.ledger, caller, owner, amount).value)]
    ensures caller != owner ==>
      Swap(tokens, owner, caller, addr, addr, amount).value[addr].ledger[caller]
        == tokens[addr].ledger[caller] - amount
  {
  }

  /** A swap the owner makes with themself moves nothing. */
  lemma SwapByOwnerChangesNothing<Ticker>(tokens: Tokens<Ticker>, owner: AccountId,
                                         buyAddr: AccountId, sellAddr: AccountId, amount: U128)
    requires Swap(tokens, owner, owner, buyAddr, sellAddr, amount).Success?
    ensures Swap(tokens, owner, owner, buyAddr, sellAddr, amount).value == tokens
  {
  }

  /** A trader not registered in the sold token's ledger cannot swap
      (once the tokens are known, the owner's balances read and `x*y` fits). */
  lemma SwapNeedsRegisteredTrader<Ticker>(tokens: Tokens<Ticker>, owner: AccountId, caller: AccountId,
                                         buyAddr: AccountId, sellAddr: AccountId, amount: U128)
    requires buyAddr in tokens && sellAddr in tokens
    requires owner in tokens[sellAddr].ledger && owner in tokens[buyAddr].ledger
    requires tokens[sellAddr].ledger[owner] * tokens[buyAddr].ledger[owner] < U128_LIMIT
    requires caller !in tokens[sellAddr].ledger
    ensures Swap(tokens, owner, caller, buyAddr, sellAddr, amount) == Failure(AccountNotRegistered)
  {
  }

  /** The owner is registered in the ledger of every token. */
  ghost predicate OwnerRegistered<Ticker>(tokens: Tokens<Ticker>, owner: AccountId) {
    forall c :: c in tokens ==> owner in tokens[c].ledger
  }

  /** The state `new` leaves: in every ledger only the owner is registered,
      with balance 0. */
  ghost predicate Untouched<Ticker>(tokens: Tokens<Ticker>, owner: AccountId) {
    forall c :: c in tokens ==> tokens[c].ledger == CreateToken(owner)
  }

  /** A call of the contract's two state-changing entry points. */
  datatype Call =
    | SwapCall(caller: AccountId, buyAddr: AccountId, sellAddr: AccountId, amount: U128)
    | DepositCall(caller: AccountId, aAddr: AccountId, bAddr: AccountId, amountA: U128, amountB: U128)

  /** The `tokens` map after one call; a call that panics changes nothing. */
  function Apply<Ticker>(tokens: Tokens<Ticker>, owner: AccountId, call: Call): Tokens<Ticker> {
    var r := match call
      case SwapCall(caller, buyAddr, sellAddr, amount) =>
        Swap(tokens, owner, caller, buyAddr, sellAddr, amount)
      case DepositCall(caller, aAddr, bAddr, amountA, amountB) =>
        Deposit(tokens, owner, caller, aAddr, bAddr, amountA, amountB);
    if r.Success? then r.value else tokens
  }

  /** The `tokens` map after a sequence of calls. */
  function Run<Ticker>(tokens: Tokens<Ticker>, owner: AccountId, calls: seq<Call>): Tokens<Ticker>
    decreases |calls|
  {
    if calls == [] then tokens
    else Run(Apply(tokens, owner, calls[0]), owner, calls[1..])
  }

  /** Every call keeps the owner registered in every ledger. */
  lemma {:induction false} RunKeepsOwnerRegistered<Ticker>(tokens: Tokens<Ticker>, owner: AccountId, calls: seq<Call>)
    requires OwnerRegistered(tokens, owner)
    ensures OwnerRegistered(Run(tokens, owner, calls), owner)
    ensures Run(tokens, owner, calls).Keys == tokens.Keys
    decreases |calls|
  {
    if calls != [] {
      RunKeepsOwnerRegistered(Apply(tokens, owner, calls[0]), owner, calls[1..]);
    }
  }

  /** From the untouched state every swap panics: only the owner can pay
      into a ledger, the owner holds nothing, and selling nothing divides
      by zero. */
  lemma SwapFailsWhenUntouched<Ticker>(tokens: Tokens<Ticker>, owner: AccountId, caller: AccountId,
                                       buyAddr: AccountId, sellAddr: AccountId, amount: U128)
    requires Untouched(tokens, owner)
    ensures Swap(tokens, owner, caller, buyAddr, sellAddr, amount).Failure?
  {
  }

  /** No sequence of calls leaves the untouched state. */
  lemma {:induction false} RunStaysUntouched<Ticker>(tokens: Tokens<Ticker>, owner: AccountId, calls: seq<Call>)
    requires Untouched(tokens, owner)
    ensures Run(tokens, owner, calls) == tokens
    decreases |calls|
  {
    if calls != [] {
      match calls[0] {
        case SwapCall(caller, buyAddr, sellAddr, amount) =>
          SwapFailsWhenUntouched(tokens, owner, caller, buyAddr, sellAddr, amount);
        case DepositCall(_, _, _, _, _) =>
      }
      RunStaysUntouched(tokens, owner, calls[1..]);
    }
  }

  /** Hence, in every state reachable from `new`, the pool holds nothing and
      no swap can succeed. */
  lemma {:induction false} NoSwapAfterNew<Ticker>(owner: AccountId, aContract: AccountId, aMeta: Metadata,
                                                 bContract: AccountId, bMeta: Metadata, ticker: Ticker,
                                                 calls: seq<Call>, caller: AccountId,
                                                 buyAddr: AccountId, sellAddr: AccountId, amount: U128)
    ensures var tokens := Run(InitialTokens(owner, aContract, aMeta, bContract, bMeta, ticker), owner, calls);
      && (forall c :: c in tokens ==> tokens[c].ledger == map[owner := 0])
      && Swap(tokens, owner, caller, buyAddr, sellAddr, amount).Failure?
  {
    var initial := InitialTokens(owner, aContract, aMeta, bContract, bMeta, ticker);
    RunStaysUntouched(initial, owner, calls);
    SwapFailsWhenUntouched(initial, owner, caller, buyAddr, sellAddr, amount);
  }
}
