# A two-token AMM on NEAR, modelled in Dafny

The contract is an automated market maker (AMM) that holds two fungible
tokens for one owner. The `AMM` object stores its `owner_id` and a map
`tokens`. The map goes from a token contract's account to a triple:

- the token's `FungibleToken` ledger, the balance of each registered account;
- its metadata;
- a ticker.

The repository has two versions of the contract:

- `amm/src/lib.rs` is the current one. Its ticker carries `f64` ratios, and
  the file also has the `token_to_yocto` conversion.
- `src/lib.rs` is an earlier draft. Its ticker has a different shape.

Both versions have the same three entry points:

- `new` builds one fresh ledger per token with `create_token`. Each ledger
  has only the owner registered, at balance 0.
- `swap` lets the caller sell `amount` of one token for the other, priced by
  the constant-product rule `y - (x*y) / (x + amount)`. Here `x` and `y` are
  the owner's balances of the sold and the bought token.
- `deposit` is restricted to the owner. It moves both amounts from the payer
  to the owner.

`token_to_yocto` reads a decimal amount such as `"265.555"` and returns it
in yocto units, with 24 decimal places, as a `u128`.

The files are:

- `base.dfy`: `u128` bounds, account ids, `Option`/`Result`, and the kinds of
  panic.
- `ledger.dfy`: a `FungibleToken` ledger as a map from account to balance.
  It models registration, balance lookup and `internal_transfer` (withdraw,
  then deposit).
- `pricing.dfy`: the price rule and its properties.
- `pool_spec.dfy`: `new`, `swap` and `deposit` as functions of the `tokens`
  map. It also has lemmas about single calls and about whole sequences of
  calls.
- `amm_contract.dfy` and `draft_contract.dfy`: the two contracts as classes
  with fields `ownerId` and `tokens`. Their methods update the fields in
  place. Each method is proved against the functions of `pool_spec.dfy`.
- `token_amount.dfy`: `token_to_yocto` as written, and a corrected
  conversion (see Findings).

Modelling choices:

- A panic is a `Failure` carrying the kind of panic. A failed call leaves the
  contract's state as it was, as a NEAR transaction that panics is reverted.
- The caller (`env::predecessor_account_id()`) is a parameter.
- Integer overflow in `u128` arithmetic is taken to panic, as it does with
  overflow checks on.

What the code does with prices and balances:

- The price rule rounds the trader's amount up (`Pricing.BuyAmountIsCeiling`),
  so the owner's product `x*y` can shrink by less than `x + amount` per swap.
- A swap can pay out the owner's whole balance of the bought token
  (`Pricing.BuyAmountDrainsPool` gives the exact condition).
- Nothing checks that the pool holds any balance before a swap.

A consequence of the code as written: payer and owner are the same account
in `deposit`, so nothing ever moves into the pool. From the state `new`
builds, every reachable state is that same state, and every swap panics
(`PoolSpec.NoSwapAfterNew`).

## Model

| member | source | states |
|---|---|---|
| Ledger.Register | src/lib.rs:132-136 | registering fails (already registered) exactly when the account is known; otherwise it adds the account at balance 0 and keeps every other balance |
| Ledger.Transfer | amm/src/lib.rs:111-113 | a transfer succeeds exactly when both accounts are registered, the sender holds the amount and the receiver's balance stays a `u128`; an unregistered sender fails with "not registered"; success debits the sender and credits the receiver and changes nothing else; a self-transfer changes nothing |
| Pricing.QuotientAtMostY | amm/src/lib.rs:109-117 | `(x*y)/(x+amount) <= y`, so `buy_amount` never underflows |
| Pricing.BuyAmount | amm/src/lib.rs:117 | the amount bought is at most the owner's balance `y` of the bought token |
| Pricing.BuyAmountIsCeiling | amm/src/lib.rs:106-117 | the amount bought is the least `b` with `y*amount <= (x+amount)*b`, i.e. `y*amount/(x+amount)` rounded up |
| Pricing.PoolProductNeverIncreases | amm/src/lib.rs:106-117 | the owner's product after a swap `(x+amount)*(y-b)` is at most `x*y`, and falls short of it by less than `x+amount` |
| Pricing.BuyAmountOfNothing | amm/src/lib.rs:117 | with `x > 0`, selling 0 buys 0 |
| Pricing.BuyAmountMonotone | amm/src/lib.rs:117 | selling more never buys less |
| Pricing.BuyAmountDrainsPool | amm/src/lib.rs:117 | the swap pays out the owner's whole balance `y` exactly when `x*y < x+amount` |
| Pricing.BuyAmountExample | amm/src/lib.rs:116-117 | x = 900, y = 300, amount = 100 buys 30 |
| PoolSpec.CreateToken | amm/src/lib.rs:160-164 | a fresh ledger in which only the owner is registered, at 0 |
| PoolSpec.InitialTokens | amm/src/lib.rs:70-80 | `new`'s map has exactly the two token contracts as keys, each with a fresh ledger and the default ticker; B's metadata wins when the addresses coincide, and otherwise A keeps its own |
| PoolSpec.Swap | amm/src/lib.rs:94-124 | "Token not supported" exactly when either address is missing; success needs owner and caller registered in both ledgers; success keeps every key, every ledger's registrations, metadata and ticker, and leaves every other record untouched |
| PoolSpec.Deposit | amm/src/lib.rs:131-157 | a non-owner caller fails with "Only the owner" before any lookup; an owner naming a missing token fails with "Token not supported"; success happens exactly when the owner holds both amounts, and it then leaves the map unchanged |
| PoolSpec.SwapSettlesBothLegs | amm/src/lib.rs:106-124 | a trader other than the owner swapping two different tokens pays `amount` of the sold token to the owner and receives `BuyAmount(x, y, amount)` of the bought token; no other balance changes, and the owner's product does not grow |
| PoolSpec.SwapSameTokenKeepsOnlySellLeg | amm/src/lib.rs:123-124 | in the copy-and-write-back model (see Left out), when buy and sell name the same token, the second write-back wins: only the sell leg's transfer is kept, and the caller loses `amount` |
| PoolSpec.SwapByOwnerChangesNothing | amm/src/lib.rs:103-121 | a swap by the owner with themself leaves the map unchanged |
| PoolSpec.SwapNeedsRegisteredTrader | amm/src/lib.rs:111-113 | a caller not registered in the sold token's ledger fails with "not registered" |
| PoolSpec.RunKeepsOwnerRegistered | amm/src/lib.rs:94-157 | any sequence of swaps and deposits keeps the keys of the map and the owner's registration in every ledger |
| PoolSpec.SwapFailsWhenUntouched | amm/src/lib.rs:94-124 | from a state where every ledger holds only the owner at 0, every swap panics |
| PoolSpec.RunStaysUntouched | amm/src/lib.rs:94-157 | no sequence of calls leaves that state |
| PoolSpec.NoSwapAfterNew | amm/src/lib.rs:63-157 | after `new` and any sequence of calls, every ledger is `{owner: 0}` and every swap panics |
| AmmContract.Amm.constructor | amm/src/lib.rs:63-81 | the object holds the owner and the map `InitialTokens` with the default ticker |
| AmmContract.Amm.Swap | amm/src/lib.rs:94-129 | the new `tokens` is the one `PoolSpec.Swap` gives, or on a panic the same error and an unchanged map; the owner is unchanged |
| AmmContract.Amm.Deposit | amm/src/lib.rs:131-157 | the new `tokens` is the one `PoolSpec.Deposit` gives, or on a panic the same error and an unchanged map |
| DraftContract.Amm.constructor | src/lib.rs:42-60 | as `AmmContract.Amm.constructor`, with the draft's ticker |
| DraftContract.Amm.Swap | src/lib.rs:71-101 | as `AmmContract.Amm.Swap`, against `PoolSpec.Swap` |
| DraftContract.Amm.Deposit | src/lib.rs:103-129 | as `AmmContract.Amm.Deposit`, against `PoolSpec.Deposit` |
| TokenAmount.Split | amm/src/lib.rs:167 | splitting gives at least one piece, and no piece contains the separator |
| TokenAmount.JoinSplit | amm/src/lib.rs:167 | joining the pieces with the separator gives the text back |
| TokenAmount.SplitCount | amm/src/lib.rs:167 | there is one piece more than there are separators |
| TokenAmount.ParseDigits | amm/src/lib.rs:174 | a non-empty digit string whose value fits in `u128` parses to its value |
| TokenAmount.PartsOfDecimal | amm/src/lib.rs:167-176 | "i.f" with no dot in `i` or `f` yields the pair `(i, f)` |
| TokenAmount.TokenToYoctoNotAPair | amm/src/lib.rs:167-176 | the call panics on the pair's `unwrap` exactly when the text has two or more dots |
| TokenAmount.TokenToYoctoWhole | amm/src/lib.rs:168-170 | a digit string with no dot is that many whole tokens, times `10^24` |
| TokenAmount.TokenToYoctoUnparseable | amm/src/lib.rs:172-176 | text with no dot that does not parse as a `u128` converts to 0 |
| TokenAmount.TokenToYoctoUnparseableFraction | amm/src/lib.rs:172-176 | in "i.f", a fraction that does not parse as a `u128` counts as 0: the text converts like "i" alone |
| TokenAmount.TokenToYoctoUnparseableWhole | amm/src/lib.rs:172-176 | in "i.f", an integer part that does not parse as a `u128` counts as 0: the text converts like ".f" |
| TokenAmount.ParseU128Plus | amm/src/lib.rs:174 | `parse::<u128>` accepts one leading '+': "+d" parses like the digits "d" |
| TokenAmount.TokenToYoctoFifty | amm/src/lib.rs:206-209 | "50" converts to `50 * 10^24` |
| TokenAmount.TokenToYocto265 | amm/src/lib.rs:211-217 | "265.555" converts to `265 * 10^24 + 555 * 10^21` |
| TokenAmount.DecimalDigitsOfDigits | amm/src/lib.rs:183 | a digit string without a leading zero prints back to as many digits |
| TokenAmount.DecimalDigitsAtMost | amm/src/lib.rs:183 | a number below `10^d` prints to at most `d` digits |
| TokenAmount.ScaleFraction | amm/src/lib.rs:180-187 | a fraction of at most `d` digits, scaled by `10^(24-d)`, is added to the whole tokens without overflow when one more token would fit |
| TokenAmount.ScaleByValueDigits | amm/src/lib.rs:180-187 | scaling by the number of digits of the fraction's value gives `integer * 10^24 + fraction * 10^(24 - digits)` |
| TokenAmount.TokenToYoctoDecimal | amm/src/lib.rs:166-187 | for digit strings, "i.f" is scaled by the number of digits of `f`'s value, and that number is at most `|f|` |
| TokenAmount.TokenToYoctoAgreesWithExact | amm/src/lib.rs:182-184 | the conversion as written agrees with the corrected one exactly when the fraction has no leading zero or is zero |
| TokenAmount.TokenToYoctoDropsLeadingZero | amm/src/lib.rs:182-184 | as written, "i.0f" converts like "i.f" |
| TokenAmount.TokenToYocto105 | amm/src/lib.rs:182-184 | as written, "1.05" converts like "1.5"; the corrected conversion tells them apart |
| TokenAmount.TokenToYoctoExactIsYoctoValue | amm/src/lib.rs:166-187 | corrected: "i.f" converts to the digits of `i` and `f` read as one number and shifted to 24 decimal places |
| TokenAmount.TokenToYoctoExactKeepsLeadingZero | amm/src/lib.rs:182-184 | corrected: "i.0f" and "i.f" convert differently when `f` has no leading zero |

## Left out

- `TickerInfo::update` and the `f64` ratio computed from `total_supply` at the end of `swap` (amm/src/lib.rs:26-32, 126-128) are left out. They act on local copies that are never written back, so they change no stored state. Floating point is not modelled, and the `f64` fields are carried as `real` values that nothing computes.
- `info` and the `Display` implementations are left out (amm/src/lib.rs:34-43, 83-92; src/lib.rs:23-27, 62-69). They only format text.
- The `println!` in `token_to_yocto` is left out: it is output only.
- NEAR SDK storage, Borsh serialisation and the storage prefixes `"a"`, `"b"` and `"t"` are left out.
- Storage aliasing is not modelled. A token record is a value that `swap` and `deposit` copy out and write back. In the SDK a ledger's account map is a handle to storage, so a balance change made through a copy reaches storage at once. The model keeps each copy separate until it is written back.
- The `FungibleToken` library is not part of this model. Its ledger is reduced to a map from account to balance. Its own checks in `internal_transfer` are not modelled: that the sender and receiver differ and that the amount is positive. With those checks, every `deposit` would panic, because payer and owner are the same account.
- `total_supply` is not modelled.
- Of the token metadata, the icon, reference and reference hash are left out.
- `u128` overflow is modelled as a panic. A build without overflow checks would wrap around instead, and this is not modelled.
- The simulation tests in `tests/` are not modelled. Only the unit tests of `amm/src/lib.rs` appear, as lemmas.

## Findings

| source | as written | input that shows it | evidently intended | confidence | as-written member | corrected member |
|---|---|---|---|---|---|---|
| amm/src/lib.rs:182-184 | the fraction is scaled by `10^(24 - n)`, where `n` is the number of digits of the fraction's parsed value, so leading zeros after the dot are lost | `"1.05"` converts like `"1.5"`, to `15 * 10^23` | `"1.05"` is `105 * 10^22` yocto: `n` should be the number of digits written after the dot | high; not executed | TokenAmount.TokenToYocto105 | TokenAmount.TokenToYoctoExactIsYoctoValue |
