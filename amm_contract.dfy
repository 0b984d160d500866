/** The pool contract of `amm/src/lib.rs`: the `AMM` object, its owner and
    its `tokens` map, and the entry points `new`, `swap` and `deposit`.
    The caller (`env::predecessor_account_id()`) is a parameter; a panic is
    a `Failure` that leaves the object as it was. */
module AmmContract {
  import opened Base
  import opened Ledger
  import opened PoolSpec
  import Pricing

  datatype TokenRate = Unchanged | Increased | Decreased

  /** `TickerInfo`; its `f64` fields are carried but never computed here. */
  datatype TickerInfo = TickerInfo(ratioDirection: TokenRate, percentage: real, ratio: real)

  /** `TickerInfo::default()` */
  const DefaultTicker := TickerInfo(Unchanged, 0.0, 0.0)

  class Amm {
    var ownerId: AccountId
    var tokens: Tokens<TickerInfo>

    /** `AMM::new`: one fresh ledger per token contract, inserted A then B. */
    constructor (ownerId: AccountId, aContract: AccountId, aMeta: Metadata,
                 bContract: AccountId, bMeta: Metadata)
      ensures this.ownerId == ownerId
      ensures tokens == InitialTokens(ownerId, aContract, aMeta, bContract, bMeta, DefaultTicker)
    {
      var aToken := CreateToken(ownerId);
      var bToken := CreateToken(ownerId);
      var t: Tokens<TickerInfo> := map[];
      t := t[aContract := TokenEntry(aToken, aMeta, DefaultTicker)];
      t := t[bContract := TokenEntry(bToken, bMeta, DefaultTicker)];
      this.ownerId := ownerId;
      this.tokens := t;
    }

    /** `AMM::swap`, called by `caller`. */
    method Swap(caller: AccountId, buyTokenAddr: AccountId, sellTokenAddr: AccountId, amount: U128)
      returns (r: Outcome)
      modifies this
      ensures ownerId == old(ownerId)
      ensures r.Success? ==> PoolSpec.Swap(old(tokens), ownerId, caller, buyTokenAddr, sellTokenAddr, amount) == Success(tokens)
      ensures r.Failure? ==> PoolSpec.Swap(old(tokens), ownerId, caller, buyTokenAddr, sellTokenAddr, amount) == Failure(r.error)
      ensures r.Failure? ==> tokens == old(tokens)
    {
      if buyTokenAddr !in tokens {
        return Failure(TokenNotSupported);
      }
      var buyToken := tokens[buyTokenAddr];
      if sellTokenAddr !in tokens {
        return Failure(TokenNotSupported);
      }
      var sellToken := tokens[sellTokenAddr];
      var poolOwnerId := ownerId;
      var userAccountId := caller;

      var x :- BalanceOf(sellToken.ledger, poolOwnerId);
      var y :- BalanceOf(buyToken.ledger, poolOwnerId);
      // `let k = x * y` panics unless the product fits in a `u128`.
      if x * y >= U128_LIMIT {
        return Failure(ArithmeticOverflow);
      }

      var sellLedger :- Transfer(sellToken.ledger, userAccountId, poolOwnerId, amount);
      sellToken := sellToken.(ledger := sellLedger);

      if x + amount >= U128_LIMIT {
        return Failure(ArithmeticOverflow);
      }
      if x + amount == 0 {
        return Failure(DivisionByZero);
      }
      var buyAmount: U128 := Pricing.BuyAmount(x, y, amount);

      var buyLedger :- Transfer(buyToken.ledger, poolOwnerId, userAccountId, buyAmount);
      buyToken := buyToken.(ledger := buyLedger);

      tokens := tokens[buyTokenAddr := buyToken];
      tokens := tokens[sellTokenAddr := sellToken];
      // The ticker update that follows in the source acts on the local
      // copies after they have been written back, so it changes no state.
      return Success(());
    }

    /** `AMM::deposit`, called by `caller`. */
    method Deposit(caller: AccountId, tokenAAddr: AccountId, tokenBAddr: AccountId,
                   amountA: U128, amountB: U128) returns (r: Outcome)
      modifies this
      ensures ownerId == old(ownerId)
      ensures r.Success? ==> PoolSpec.Deposit(old(tokens), ownerId, caller, tokenAAddr, tokenBAddr, amountA, amountB) == Success(tokens)
      ensures r.Failure? ==> PoolSpec.Deposit(old(tokens), ownerId, caller, tokenAAddr, tokenBAddr, amountA, amountB) == Failure(r.error)
      ensures r.Failure? ==> tokens == old(tokens)
    {
      if caller != ownerId {
        return Failure(OnlyOwner);
      }
      var payer := caller;

      if tokenAAddr !in tokens {
        return Failure(TokenNotSupported);
      }
      var tokenA := tokens[tokenAAddr];
      if tokenBAddr !in tokens {
        return Failure(TokenNotSupported);
      }
      var tokenB := tokens[tokenBAddr];

      var ledgerA :- Transfer(tokenA.ledger, payer, ownerId, amountA);
      tokenA := tokenA.(ledger := ledgerA);
      var ledgerB :- Transfer(tokenB.ledger, payer, ownerId, amountB);
      tokenB := tokenB.(ledger := ledgerB);

      tokens := tokens[tokenAAddr := tokenA];
      tokens := tokens[tokenBAddr := tokenB];
      return Success(());
    }
  }
}
