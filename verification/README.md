# GraphCurationToken share ledger in Dafny

This project models the curation-share ledger of `GraphCurationToken`. Each
account holds two unsigned quantities. The share `balance` is an ERC20 balance.
The `deposit` is the GRT that backs those shares. The ledger has four operations:

- `grtValueOf(account, amount)` is a pure query. It returns
  floor(deposit * amount / balance), the deposit carried by `amount` shares.
- `mint(account, amount, depositAmount)` may only be called by the governor.
  It adds `amount` to the balance and `depositAmount` to the deposit.
- `burnFrom(account, amount)` may only be called by the governor. It removes
  `amount` shares and the deposit they carry.
- `transfer(to, amount)` moves `amount` shares from the sender to `to`, and the
  deposit they carry with them.

The Solidity contract is not part of this model. Its behaviour comes from the
contract's test suite, `test/graphCurationToken.test.ts`. The suite asserts exact
results of the truncating formula and exact before/after deltas for every
mutation. Where the suite is silent, the model makes these choices:

- a full burn or full transfer removes the whole deposit in its own branch,
  so that no rounding remainder can stay behind;
- a failed call changes nothing;
- every mutation emits exactly one `Transfer(from, to, value)` event, carrying
  the share amount and never the deposit.

Layout:

- `holdings.dfy` (module `Holdings`): accounts and the sparse account table. A
  missing account reads as zero, and an account whose two quantities reach zero
  is removed. It also holds the ghost sum `Total` over the table, with the
  lemmas that track how `Total` changes on a store.
- `proportion.dfy` (module `Proportion`): the truncating split
  `Slice(deposit, amount, balance)` and its arithmetic facts.
- `curation_token.dfy` (module `CurationToken`): the ledger, its invariant
  `Valid` (a sparse table whose balances sum to `totalSupply`), the queries, and
  the three mutations. Each mutation returns a `Result` holding the new ledger
  and its event.
- `ledger_properties.dfy` (module `LedgerProperties`): lemmas that relate the
  operations to each other and to the whole-table sums.
- `execution.dfy` (module `Execution`): calls applied one at a time, as the
  chain serializes transactions. A reverted call leaves the ledger unchanged.
- `test_vectors.dfy` (module `TestVectors`): the suite's concrete scenarios at
  18 decimals, stated as lemmas over literal numerals.

Modelling choices:

- Amounts are unbounded naturals, and addresses are naturals with 0 as the zero
  address.
- A non-governor `mint` or `burnFrom` fails with `NotGovernor`. This stands for
  the revert 'Only Governor can call'.
- Asking for more shares than the account holds fails with
  `InsufficientBalance`. This applies to `grtValueOf`, `burnFrom` and
  `transfer`. The suite never exercises this case, so the error carries no
  revert text.
- `grtValueOf` of 0 shares on an account with no shares returns 0.

Two properties one might expect of such a ledger do not hold for these
operations. The first is "deposit is zero iff balance is zero"; it fails in
either direction:

- `mint(a, 0, x)` leaves deposit with no shares (`MintCanStrandDeposit`).
- A transfer too small to carry one unit of deposit gives shares backed by
  nothing (`DustTransferCarriesNoDeposit`).

The model therefore proves the weaker property that is actually kept, "no
deposit without shares" (`NoStrandedDeposit`). Burn and transfer preserve it.
A mint breaks it exactly when it adds deposit to an account that has no shares afterwards (`MintKeepsNoStrandedDeposit`).

The second is "an account's deposit-per-share can only fall through rounding".
Truncation works the other way for the account that keeps its shares
(`RetainedRatioNotBelow`). Burning 1 of 3 shares backed by 10 leaves 7 behind
2 shares, 3.5 per share against 3.33 before (`RetainedRatioCanRise`).

## Model

| member | source | states |
|---|---|---|
| Proportion.Slice | test/graphCurationToken.test.ts:39-81 | the slice is the largest r with r * balance <= deposit * amount (truncation toward zero), never more than the deposit, and 0 for an account without shares |
| Proportion.SliceOfWhole | test/graphCurationToken.test.ts:130-141 | the formula applied to the whole balance gives exactly the whole deposit, so a full removal leaves no dust |
| Proportion.SliceOfNothing | test/graphCurationToken.test.ts:39-58 | zero shares carry zero deposit |
| Proportion.SliceBelowWhole | test/graphCurationToken.test.ts:143-158 | a strict part of the shares of an account with deposit carries strictly less than the whole deposit |
| Proportion.SliceMonotone | test/graphCurationToken.test.ts:46-58 | more shares never carry less deposit (the 10, 33, 50, 99 GRT queries grow with the amount) |
| Proportion.RetainedRatioNotBelow | test/graphCurationToken.test.ts:192-213 | after a partial split, the deposit-per-share the sender keeps is at least its old deposit-per-share |
| Proportion.SplitLosesAtMostOne | test/graphCurationToken.test.ts:61-81 | the deposit the sender keeps is the slice of the shares it keeps, or at most one unit more |
| CurationToken.BalanceOf | test/graphCurationToken.test.ts:99-107 | an account never minted to reads 0, and in a valid ledger no balance exceeds the total supply |
| CurationToken.Deposits | test/graphCurationToken.test.ts:100-108 | an account never minted to reads 0, and no deposit exceeds the sum of all deposits |
| CurationToken.Initialize | test/graphCurationToken.test.ts:26-30 | a freshly initialized token is valid, has the given governor, zero supply and every account empty |
| CurationToken.GrtValueOf | test/graphCurationToken.test.ts:38-81 | the query fails exactly when more shares are asked than held; otherwise the result is floor(deposits * amount / balance), at most the deposit |
| CurationToken.DepositDelta | test/graphCurationToken.test.ts:130-158 | the released deposit is the whole deposit on a full removal, and it agrees with the proportional slice for every account that has shares |
| CurationToken.Mint | test/graphCurationToken.test.ts:84-110 | a non-governor mint fails with NotGovernor; a governor mint adds exactly amount to the balance and depositAmount to the deposit, raises the supply by amount, touches no other account, keeps the ledger valid and emits Transfer(zero, account, amount) |
| CurationToken.BurnFrom | test/graphCurationToken.test.ts:113-158 | a non-governor burn fails with NotGovernor and an oversized one with InsufficientBalance; otherwise the balance and supply drop by amount, the deposit drops by grtValueOf(account, amount) taken beforehand (all of it on a full burn), no other account changes, the ledger stays valid and Transfer(account, zero, amount) is emitted |
| CurationToken.Transfer | test/graphCurationToken.test.ts:162-213 | an oversized transfer fails; otherwise the sender loses and the receiver gains the same share amount and the same deposit delta, which is grtValueOf(sender, amount) (the whole deposit on a full transfer); the supply and the deposit sum are conserved and the ledger stays valid |
| LedgerProperties.GrtValueOfEnds | test/graphCurationToken.test.ts:39-58 | grtValueOf of 0 shares is 0, and of the whole balance is the whole deposit |
| LedgerProperties.MintAdds | test/graphCurationToken.test.ts:95-109 | a mint raises the sum of balances by amount and the sum of deposits by depositAmount |
| LedgerProperties.BurnRemoves | test/graphCurationToken.test.ts:130-158 | a burn lowers the sum of balances by amount and the sum of deposits by exactly what the account released |
| LedgerProperties.SelfTransferIsNoOp | test/graphCurationToken.test.ts:177-178 | a transfer from an account to itself leaves the ledger exactly as it was and still emits its event (the cited lines exercise transfer; the self-transfer case is derived and is not in the suite) |
| LedgerProperties.MintThenBurnRestores | test/graphCurationToken.test.ts:117-141 | burning all shares just minted into an empty account gives back the ledger from before the mint |
| LedgerProperties.FullBurnClearsAccount | test/graphCurationToken.test.ts:130-141 | a full burn leaves the account with zero balance and zero deposit, and the record is removed |
| LedgerProperties.FullTransferClearsSender | test/graphCurationToken.test.ts:171-190 | a full transfer removes the sender's record and credits the receiver with all its shares and all its deposit |
| LedgerProperties.PartialBurnLeavesDeposit | test/graphCurationToken.test.ts:143-158 | a partial burn of an account with deposit leaves a strictly positive deposit |
| LedgerProperties.TransferRoundsTowardSender | test/graphCurationToken.test.ts:192-213 | the receiver's deposit gain is at most proportional to the shares it gets, and the sender keeps at least a proportional deposit |
| LedgerProperties.BurnKeepsNoStrandedDeposit | test/graphCurationToken.test.ts:130-158 | burning never leaves deposit on an account without shares |
| LedgerProperties.TransferKeepsNoStrandedDeposit | test/graphCurationToken.test.ts:171-213 | transferring never leaves deposit on an account without shares |
| LedgerProperties.MintKeepsNoStrandedDeposit | test/graphCurationToken.test.ts:95-109 | on a ledger with no deposit without shares, a mint keeps that property if and only if the account ends with shares or no deposit was added |
| LedgerProperties.MintCanStrandDeposit | test/graphCurationToken.test.ts:95-109 | a mint of zero shares with a deposit breaks "no deposit without shares" |
| LedgerProperties.ZeroShareRemovalTakesStrandedDeposit | test/graphCurationToken.test.ts:143-158 | on an account with deposit but no shares, grtValueOf of 0 shares is 0, yet a transfer or burn of 0 shares moves or clears the whole deposit (derived case, not in the suite) |
| LedgerProperties.RetainedRatioCanRise | test/graphCurationToken.test.ts:143-158 | burning 1 of 3 shares backed by 10 leaves 2 shares and 7 deposit, a higher deposit-per-share than before (derived case, not in the suite) |
| Execution.Apply | test/graphCurationToken.test.ts:84-213 | one call keeps the ledger valid and the governor fixed; a transfer conserves supply and deposits; a mint or burn by anyone but the governor fails with NotGovernor |
| Execution.Execute | test/graphCurationToken.test.ts:113-213 | applying calls in order keeps the ledger valid; a run of transfers conserves the supply and the deposit sum; a run of only unprivileged mints and burns leaves the ledger unchanged and emits nothing |
| TestVectors.MintedTenth | test/graphCurationToken.test.ts:40-44 | the governor's mint of 100 shares against 10 GRT gives the valid one-account ledger used by the 1/10 scenarios; the function states its validity, governor and the account's two fields, and `MintScenarios` proves it equal to the mint's result |
| TestVectors.MintedThird | test/graphCurationToken.test.ts:62-66 | the governor's mint of 30 shares against 10 GRT gives the valid ledger used by the 1/3 scenarios; the function states its validity, governor and the account's two fields, and `MintScenarios` proves it equal to the mint's result |
| TestVectors.MintedBoth | test/graphCurationToken.test.ts:166-169 | minting 100 shares against 10 GRT to two accounts gives the valid two-account ledger used by the transfer scenarios; the function states its validity, governor and both accounts' fields, and `MintScenarios` proves it equal to the second mint's result |
| TestVectors.OneTenthVectors | test/graphCurationToken.test.ts:39-58 | with 100 shares and 10 GRT, the queries for 33, 50, 99, 10, 0.0001 and 0.0123323231 return exactly one tenth |
| TestVectors.OneThirdVectors | test/graphCurationToken.test.ts:61-81 | with 30 shares and 10 GRT, the six queries return the 18-decimal truncated thirds the suite expects |
| TestVectors.MintScenarios | test/graphCurationToken.test.ts:84-110 | a mint by a holder is rejected with NotGovernor; the governor's mints produce exactly the literal ledgers MintedTenth, MintedThird and MintedBoth, each with its Transfer(zero, account, amount) event |
| TestVectors.TenthIsProportional | test/graphCurationToken.test.ts:39-58 | with 100 shares backed by 10 GRT, grtValueOf of every amount up to 100 GRT is exactly a tenth of it, rounded down |
| TestVectors.ThirdIsProportional | test/graphCurationToken.test.ts:61-81 | with 30 shares backed by 10 GRT, grtValueOf of every amount up to 30 GRT is exactly a third of it, rounded down |
| TestVectors.BurnScenarios | test/graphCurationToken.test.ts:121-158 | a holder's burn is rejected; a full burn zeroes balance and deposit; a burn of 50 leaves 50 shares and 5 GRT, each with its event |
| TestVectors.TransferScenarios | test/graphCurationToken.test.ts:171-213 | a full transfer of 100 leaves 0/0 and 200/20; a transfer of 50 leaves 50/5 and 150/15, each with its event |
| TestVectors.DustTransferCarriesNoDeposit | test/graphCurationToken.test.ts:198-212 | a 5-unit transfer out of 100 shares backed by 10 units moves shares but no deposit (the cited lines exercise the grtValueOf-based partial transfer; this 5-unit case is derived and is not in the suite) |

## Left out

- `transferFrom`, `approve` and allowances: the suite never exercises them; the model assumes they move deposit as `transfer` does.
- ERC20 zero-address guards on mint, burnFrom and transfer: not exercised by the test suite. Address 0 is an ordinary account in the model, so for example a burn of 0 shares from address 0 succeeds.
- uint256 width: amounts are unbounded naturals. Neither overflow of `deposit * amount` nor of a sum is modelled.
- Governor ownership transfer and contract initialization beyond naming the governor: these are separate administrative operations.
- The GRT token deployment and funding in the suite's setup: the share ledger never reads it.
- The deployment modules `packages/subgraph-service/ignition/modules/DisputeManager.ts` and `packages/horizon/ignition/modules/periphery/GraphProxyAdmin.ts`: they only wire proxies and ownership between external contracts.
- Events are returned as a (from, to, value) triple, not as logs.
- CurationToken.BurnFrom: requires the ledger invariant `Valid`, which guarantees that the supply covers the burned amount. The contract would revert on underflow instead.
- CurationToken.GrtValueOf: returns 0 for 0 shares of an account with no shares. The contract is not part of this model, so whether it reverts on that division by zero is not represented.
- CurationToken.BurnFrom: on an account with deposit but no shares, burning 0 shares takes the full-removal branch and clears the whole deposit, although grtValueOf of 0 shares is 0 (`ZeroShareRemovalTakesStrandedDeposit`). The deposit drop equals grtValueOf only when the account has shares. The suite never reaches this state, and the contract may instead revert or release nothing.
- CurationToken.Transfer: on an account with deposit but no shares, transferring 0 shares moves the whole deposit to the receiver, although grtValueOf of 0 shares is 0 (`ZeroShareRemovalTakesStrandedDeposit`). The deposit delta equals grtValueOf only when the sender has shares. The suite never reaches this state, and the contract may instead revert or move nothing.
- Execution.Execute: states validity, conservation and access control across a run of calls. It does not relate the list of events to the individual calls.
