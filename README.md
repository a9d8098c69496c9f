# simple-bank-dotnet: the banking core in Dafny

This project models the application core of a small bank. Users register and log in. Each user opens at most one account per currency. Balances change by deposits and withdrawals made through the API, and by transfers between accounts. Every change of balance is meant to leave an entry in the ledger, and a transfer also leaves a transfer record. The services run their writes inside a unit of work, which holds at most one open database transaction. A failure rolls the transaction back.

The model has these parts:

- `Domain`: the entities as values, and the exceptions as one `Error` datatype.
- `Ledger`: the four tables, with their keys and unique indexes.
  - The `Store` class is the database context through which the repositories read and write those tables.
  - `Audited` holds when every balance equals the sum of its entries.
  - `Total` is the money held by all accounts together.
- `Transactions`: the `UnitOfWork` class, whose `transaction` field is empty when no transaction is open. While one is open, the field holds the tables as they were at `Begin`, which is what `Rollback` restores.
- `AccountsRepository` and `EntriesRepository`: the queries of the two repositories.
- `AccountsService`, `EntriesService`, `TransfersService` and `UsersService`: the services.
  - Each state-changing service method is imperative. It runs against the `Store` and the `UnitOfWork`.
  - Each such method is proved equal to a pure function, such as `TransferSpec` or `AddBalanceSpec`, over the tables. The lemmas are stated about that function.
- `CurrencyAttribute`: the currency whitelist validator.

The transfer is modelled as the code behaves, and the model does not correct it:

- A transfer from an account to itself succeeds. Its debit and credit fall on the same tracked row, so the balance stays the same, but a transfer and two entries are still recorded.
- Currencies are never compared. The amount arrives at the destination unconverted.
- A negative amount passes the balance check, because the request validation admits amounts down to -100000. The transfer then takes money out of the destination account. The API test `TestTransferNegativeSum` (Simplebank.API.Tests/TransferTests.cs:57-84) expects such a request to be refused. The code as written does not refuse it; see `TransfersService.NegativeTransferDrainsDestination`.
- `AccountNotOwnedException` is raised with its two arguments swapped: the user id goes in the account position and the account id in the user position.

The entries page is also modelled as the code computes it: `(page - 1) * perPage` in 32-bit arithmetic, so a large page number wraps to a wrong offset (see "## Findings").

Each of these defects has a corrected definition beside the as-written one, with the intended property proved about it: `TransfersService.TransferChecked` for the transfer, and `EntriesRepository.GetEntries` for the page. The services themselves stay as written.

`AccountsService.AddBalanceAsync` also does less than a design might suggest. It looks the account up with a plain read and does not check who owns it. It does not compare a withdrawal with the balance. It writes the entry first and then updates the balance. It does not use the atomic `AccountsRepository.AddBalanceAsync`.

## Model

| member | source | states |
|---|---|---|
| Domain.ToDto | Simplebank.Application/Mapping/MappingProfile.cs:9 | a user's DTO carries the id, login, name and email, and not the password (the two timestamps are left out) |
| Ledger.WithBalance | Simplebank.Infrastructure/Repositories/Repository.cs:52-61 | saving a tracked account changes that row's balance and nothing else: same keys, other rows and tables unchanged, consistency kept |
| Ledger.InsertAccount | Simplebank.Infrastructure/Repositories/Repository.cs:22-50 | an insert fails with a duplicate key exactly when the owner already has an account in that currency (unique index on OwnerId and Currency); otherwise the row is added under a fresh id and the tables stay consistent |
| Ledger.InsertEntry | Simplebank.Infrastructure/Repositories/Repository.cs:22-30 | the entry is appended with a fresh id and the current time as CreatedAt |
| Ledger.InsertTransfer | Simplebank.Infrastructure/Repositories/Repository.cs:22-30 | the transfer is appended with a fresh id and the current time as CreatedAt |
| Ledger.InsertUser | Simplebank.Infrastructure/Repositories/Repository.cs:22-50 | an insert fails with a duplicate key exactly when the login or the email is already taken (unique indexes IX_Users_Login and IX_Users_Email); otherwise the user is appended under a fresh id |
| Ledger.Store.SetBalance | Simplebank.Infrastructure/Repositories/Repository.cs:52-61 | `UpdateAsync` on a tracked account leaves the tables equal to `WithBalance` of the old ones |
| Ledger.Store.AddAccount | Simplebank.Infrastructure/Repositories/Repository.cs:22-50 | `AddAsync` on Accounts performs `InsertAccount` and keeps the store consistent |
| Ledger.Store.AddEntry | Simplebank.Infrastructure/Repositories/Repository.cs:22-50 | `AddAsync` on Entries performs `InsertEntry` |
| Ledger.Store.AddTransfer | Simplebank.Infrastructure/Repositories/Repository.cs:22-50 | `AddAsync` on Transfers performs `InsertTransfer` |
| Ledger.Store.AddUser | Simplebank.Infrastructure/Repositories/Repository.cs:22-50 | `AddAsync` on Users performs `InsertUser` |
| Ledger.Store.Restore | Simplebank.Infrastructure/Database/UnitOfWork.cs:44 | a rollback puts back exactly the tables given |
| Transactions.Step | Simplebank.Infrastructure/Database/UnitOfWork.cs:18-47 | begin fails exactly when a transaction is open, commit and rollback fail exactly when none is, each with its InvalidOperationException message |
| Transactions.BracketedRunsAreLegal | Simplebank.Infrastructure/Database/UnitOfWork.cs:18-47 | any run of calls where each begin is followed by one commit or rollback is accepted in full and leaves no transaction open |
| Transactions.DoubleBeginIsIllegal | Simplebank.Infrastructure/Database/UnitOfWork.cs:20-23 | a second begin without a commit or rollback in between is refused |
| Transactions.UnitOfWork.constructor | Simplebank.Infrastructure/Database/UnitOfWork.cs:12-16 | a new unit of work has no transaction open |
| Transactions.UnitOfWork.Begin | Simplebank.Infrastructure/Database/UnitOfWork.cs:18-25 | refuses while a transaction is open and changes nothing; otherwise opens one holding the current tables |
| Transactions.UnitOfWork.Commit | Simplebank.Infrastructure/Database/UnitOfWork.cs:27-36 | refuses when no transaction is open; otherwise closes it and keeps the tables as they are |
| Transactions.UnitOfWork.Rollback | Simplebank.Infrastructure/Database/UnitOfWork.cs:38-47 | refuses when no transaction is open and changes nothing; otherwise closes it and restores the tables as they were at begin |
| AccountsRepository.GetWithLock | Simplebank.Infrastructure/Repositories/AccountsRepository.cs:10-16 | yields the account with that id exactly when it exists |
| AccountsRepository.GetByOwner | Simplebank.Infrastructure/Repositories/AccountsRepository.cs:18-21 | yields every account of the owner and only those |
| AccountsRepository.GetByOwnerOnePerCurrency | Simplebank.Infrastructure/Repositories/AccountsRepository.cs:18-21 | among an owner's accounts no two share a currency |
| AccountsRepository.AddBalanceSpec | Simplebank.Infrastructure/Repositories/AccountsRepository.cs:23-31 | a missing id updates nothing and yields null; otherwise only that row's balance grows by the amount and the updated row is returned |
| AccountsRepository.AddBalance | Simplebank.Infrastructure/Repositories/AccountsRepository.cs:23-31 | the single UPDATE statement performs `AddBalanceSpec` |
| AccountsRepository.AddBalanceMovesTotal | Simplebank.Infrastructure/Repositories/AccountsRepository.cs:23-31 | the atomic update changes the bank's total by exactly the amount |
| AccountsRepository.AddBalanceAloneBreaksAudit | Simplebank.Infrastructure/Repositories/AccountsRepository.cs:23-31 | the atomic update writes no entry, so any non-zero amount leaves a balance that its entries no longer explain |
| EntriesRepository.OfAccount | Simplebank.Infrastructure/Repositories/EntriesRepository.cs:16 | the filter keeps each entry of the account as many times as the table holds it and no other entry, as a subsequence of the table (table order) |
| EntriesRepository.InsertNewestFirst | Simplebank.Infrastructure/Repositories/EntriesRepository.cs:17 | inserting into a newest-first list keeps it newest first and adds exactly that entry |
| EntriesRepository.SortNewestFirst | Simplebank.Infrastructure/Repositories/EntriesRepository.cs:17 | ordering by CreatedAt descending yields a newest-first permutation of the input |
| EntriesRepository.Skip | Simplebank.Infrastructure/Repositories/EntriesRepository.cs:18 | LINQ Skip drops the first n entries, none for n at most 0, all past the end |
| EntriesRepository.Take | Simplebank.Infrastructure/Repositories/EntriesRepository.cs:19 | LINQ Take keeps the first n entries, none for n at most 0, all past the end |
| EntriesRepository.SkipCount | Simplebank.Infrastructure/Repositories/EntriesRepository.cs:18 | the offset of a page, never negative for page at least 1 (the corrected arithmetic) |
| EntriesRepository.SkipCountInt32 | Simplebank.Infrastructure/Repositories/EntriesRepository.cs:18 | the offset with the subtraction and the product in unchecked 32-bit arithmetic, for any two `int` arguments; it is an `int`, and it agrees with `SkipCount` while the product fits in an int |
| EntriesRepository.SkipCountInt32Wraps | Simplebank.API/Requests/Entries/GetEntriesRequest.cs:7-11 | two requests the validation admits wrap: page int.MaxValue with 100 per page gives the offset -200, and page 42949674 with 100 per page gives 4 where the true offset is 4294967300 |
| EntriesRepository.History | Simplebank.Infrastructure/Repositories/EntriesRepository.cs:16-17 | the account's entries newest first: every entry of the account as many times as the table holds it, and only those |
| EntriesRepository.GetEntries | Simplebank.Infrastructure/Repositories/EntriesRepository.cs:14-21 | a page holds only the account's entries, newest first, at most perPage of them, and none when perPage is at most 0 |
| EntriesRepository.PageIsWindow | Simplebank.Infrastructure/Repositories/EntriesRepository.cs:14-21 | page p is the slice of the history from (p-1)*perPage up to p*perPage, cut at its end |
| EntriesRepository.WindowJoin | Simplebank.Infrastructure/Repositories/EntriesRepository.cs:18-19 | adjacent windows of one ordered history join into one, so pages cut from the same order of entries neither overlap nor leave a gap (entries with equal times: see "## Left out") |
| EntriesRepository.GetEntriesInt32 | Simplebank.Infrastructure/Repositories/EntriesRepository.cs:14-21 | the query as written, with the 32-bit offset, for any two `int` arguments: only the account's entries, newest first, at most perPage of them, none when perPage is at most 0, all from the table |
| EntriesRepository.Int32PageAgreesWhileOffsetFits | Simplebank.Infrastructure/Repositories/EntriesRepository.cs:14-21 | while (page-1)*perPage fits in an int, the query as written returns the same page as the corrected one |
| EntriesRepository.OverflowedPageIsNotEmpty | Simplebank.API/Requests/Entries/GetEntriesRequest.cs:7-11 | for page 42949674 with 100 per page, which the validation admits, the query as written returns the history's entries from position 4 on, while the page, 4294967300 entries in, should be empty for any shorter history |
| EntriesService.GetEntries | Simplebank.Application/Services/EntriesService.cs:19-33 | missing account gives AccountNotFound; another user's account gives AccountNotOwned(account, user); otherwise the page of the repository's query as written |
| EntriesService.OnlyOwnEntries | Simplebank.Application/Services/EntriesService.cs:19-33 | every entry returned lies on an account the caller owns and is in the table |
| EntriesService.RefusalIgnoresEntries | Simplebank.Application/Services/EntriesService.cs:21-30 | a refusal does not depend on the entries table |
| EntriesService.ExistenceIsCheckedBeforeOwnership | Simplebank.Application/Services/EntriesService.cs:21-30 | a missing account is reported as not found whoever asks |
| AccountsService.GetAccount | Simplebank.Application/Services/AccountsService.cs:26-34 | the account exactly when it exists, else AccountNotFound(id) |
| AccountsService.CreateAccountSpec | Simplebank.Application/Services/AccountsService.cs:36-60 | fails with AccountAlreadyExists(owner, currency) and changes nothing exactly when the owner has an account in that currency; otherwise adds the account with balance 0 under a fresh id |
| AccountsService.CreateAccountKeepsAudit | Simplebank.Application/Services/AccountsService.cs:41-46 | a new account starts at 0 with no entries, so the ledger stays audited |
| AccountsService.CreateAccountKeepsTotal | Simplebank.Application/Services/AccountsService.cs:41-46 | opening an account does not change the bank's total |
| AccountsService.CreateAccountTwiceFails | Simplebank.Application/Services/AccountsService.cs:50-54 | opening the same owner and currency again fails and changes nothing |
| AccountsService.CreateAccount | Simplebank.Application/Services/AccountsService.cs:36-60 | refuses to begin while a transaction is open; otherwise performs `CreateAccountSpec`, then commits on success or rolls back on failure, leaving no transaction open |
| AccountsService.AddBalanceSpec | Simplebank.Application/Services/AccountsService.cs:62-89 | missing account gives AccountNotFound and changes nothing; otherwise one entry of the amount is appended and the balance grows by the amount |
| AccountsService.AddBalanceKeepsAudit | Simplebank.Application/Services/AccountsService.cs:73-81 | the entry and the balance change match, so the ledger stays audited |
| AccountsService.AddBalanceMovesTotal | Simplebank.Application/Services/AccountsService.cs:80-81 | the bank's total changes by exactly the amount |
| AccountsService.AddBalanceCanOverdraw | Simplebank.Application/Services/AccountsService.cs:62-89 | a withdrawal larger than the balance goes through and leaves it negative |
| AccountsService.AddBalance | Simplebank.Application/Services/AccountsService.cs:62-89 | refuses to begin while a transaction is open; otherwise performs `AddBalanceSpec`, then commits or rolls back |
| TransfersService.LockOrder | Simplebank.Application/Services/TransfersService.cs:43-57 | the two ids are locked smaller first, and both are locked |
| TransfersService.LockOrderIgnoresDirection | Simplebank.Application/Services/TransfersService.cs:43-57 | transfers in opposite directions between two accounts lock them in the same order |
| TransfersService.LockAccounts | Simplebank.Application/Services/TransfersService.cs:48-57 | succeeds exactly when both accounts exist; otherwise names a missing one, the first in lock order |
| TransfersService.Rebalance | Simplebank.Application/Services/TransfersService.cs:69-73 | between two accounts the source loses and the destination gains the amount; on one account the two cancel; nothing else changes |
| TransfersService.Record | Simplebank.Application/Services/TransfersService.cs:75-94 | one transfer record and two entries (-amount on the source, +amount on the destination) that name it are appended |
| TransfersService.Move | Simplebank.Application/Services/TransfersService.cs:69-103 | the writes of a transfer, and the result: both accounts as updated and both entries |
| TransfersService.TransferSpec | Simplebank.Application/Services/TransfersService.cs:41-104 | missing account, then not owned (with swapped arguments), then insufficient balance, each changing nothing; otherwise the writes of `Move`; consistency kept |
| TransfersService.TransferSucceedsIff | Simplebank.Application/Services/TransfersService.cs:48-67 | a transfer succeeds exactly when both accounts exist, the caller owns the source and its balance covers the amount |
| TransfersService.TransferNeverChecksAccountsOrCurrencies | Simplebank.Application/Services/TransfersService.cs:41-104 | the same-account and different-currency exceptions are never raised |
| TransfersService.TransferMovesMoney | Simplebank.Application/Services/TransfersService.cs:69-73 | between two accounts the source loses and the destination gains the amount; no other account changes |
| TransfersService.SelfTransferIsRecorded | Simplebank.Application/Services/TransfersService.cs:69-94 | a transfer to the same account succeeds, changes no balance, yet records a transfer and two entries |
| TransfersService.CrossCurrencyTransferIsUnconverted | Simplebank.Application/Services/TransfersService.cs:64-73 | between accounts of different currencies the amount arrives unconverted |
| TransfersService.RebalanceKeepsTotal | Simplebank.Application/Services/TransfersService.cs:69-73 | the debit and the credit together leave the bank's total unchanged, whether the ids differ or not |
| TransfersService.RebalanceKeepsConsistent | Simplebank.Application/Services/TransfersService.cs:69-73 | changing two balances keeps every key and unique index |
| TransfersService.TransferKeepsTotal | Simplebank.Application/Services/TransfersService.cs:69-73 | a transfer neither creates nor destroys money |
| TransfersService.TransferKeepsAudit | Simplebank.Application/Services/TransfersService.cs:69-94 | the two entries explain the two balance changes, so the ledger stays audited |
| TransfersService.TransferKeepsBalancesNonNegative | Simplebank.Application/Services/TransfersService.cs:64-70 | with a non-negative amount no balance goes below zero |
| TransfersService.NegativeTransferDrainsDestination | Simplebank.Application/Services/TransfersService.cs:64-70 | a negative amount passes the balance check and lowers the destination's balance, whoever owns it; an amount beyond its balance takes it below zero |
| TransfersService.TransferChecked | Simplebank.API.Tests/TransferTests.cs:57-84 | the corrected transfer: the same account on both sides is always SameAccountTransfer, whatever the amount; otherwise a non-positive amount, another user's source and two currencies are each refused with their own error; every refusal changes nothing, and whatever passes is the transfer as written |
| TransfersService.TransferCheckedSucceedsIff | Simplebank.API.Tests/TransferTests.cs:203-255 | the corrected transfer succeeds exactly when the amount is positive, the two accounts exist, differ and share a currency, the caller owns the source and its balance covers the amount |
| TransfersService.TransferCheckedProtectsOthers | Simplebank.Application/Services/TransfersService.cs:59-73 | under the corrected transfer the only balance that can fall is the caller's own source account |
| TransfersService.TransferCheckedKeepsBalancesNonNegative | Simplebank.Application/Services/TransfersService.cs:64-73 | whatever the amount, the corrected transfer takes no account below zero |
| TransfersService.TransferThereAndBack | Simplebank.Application/Services/TransfersService.cs:41-104 | sending an amount and having the destination's owner send it back restores every balance, with both transfers on record |
| TransfersService.TransferInternal | Simplebank.Application/Services/TransfersService.cs:41-104 | locks in id order, checks, and writes through the tracked rows, ending in exactly the state and result of `TransferSpec` |
| TransfersService.MoveMoney | Simplebank.Application/Services/TransfersService.cs:69-103 | the writes and the result of `Move` |
| TransfersService.RebalanceAccounts | Simplebank.Application/Services/TransfersService.cs:69-73 | the two balance assignments and updates perform `Rebalance` |
| TransfersService.RecordTransfer | Simplebank.Application/Services/TransfersService.cs:75-94 | the three inserts perform `Record` |
| Transactions.Conclude | Simplebank.Application/Services/TransfersService.cs:28-38 | the try/catch around a service's work commits when it returned, keeping the tables, and rolls back when it threw, restoring the tables from begin; either way no transaction stays open |
| TransfersService.Transfer | Simplebank.Application/Services/TransfersService.cs:25-39 | refuses to begin while a transaction is open; otherwise performs `TransferSpec`, then commits on success or rolls back on any refusal |
| UsersService.FirstWhere | Simplebank.Infrastructure/Repositories/UsersRepository.cs:14-22 | FirstOrDefault: none exactly when no user matches, otherwise the first that matches; `UsersService.ByLogin` (`GetByLoginAsync`, lines 14-17) and `UsersService.ByEmail` (`GetByEmailAsync`, lines 19-22) are this lookup with the login or the email as the condition |
| UsersService.GetById | Simplebank.Application/Services/UsersService.cs:34-44 | the user's DTO exactly when a user has that id, else UserNotFound(id) |
| UsersService.LookupsMatchUniqueIndexes | Simplebank.Application/Services/UsersService.cs:52-59 | the login and email lookups find a user exactly when the unique indexes would refuse the insert |
| UsersService.CreateSpec | Simplebank.Application/Services/UsersService.cs:46-82 | fails with UserAlreadyExists(login, email) and changes nothing exactly when the login or email is taken; otherwise stores the user with the hash of the password and returns it without the password |
| UsersService.CreatedUserCanBeRead | Simplebank.Application/Services/UsersService.cs:46-82 | a registered user is found by the id it was given, with the data it was registered with |
| UsersService.Login | Simplebank.Application/Services/UsersService.cs:84-102 | unknown login gives LoginNotFound; a password the provider rejects gives IncorrectPassword; a password it accepts gives Success with the token for that user's id |
| UsersService.RegisterThenLogin | Simplebank.Application/Services/UsersService.cs:46-102 | registering then logging in with the same password yields a token for the new user |
| UsersService.WrongPasswordIsRefused | Simplebank.Application/Services/UsersService.cs:92-95 | a password the provider rejects never yields a token |
| UsersService.Create | Simplebank.Application/Services/UsersService.cs:46-82 | refuses to begin while a transaction is open; otherwise performs `CreateSpec`, then commits or rolls back |
| CurrencyAttribute.IsValid | Simplebank.Domain/Attributes/CurrencyAttribute.cs:7-17 | a value passes exactly when it is one of the five allowed codes; a non-string and any other string get their two distinct messages |
| CurrencyAttribute.ExactlyFiveCurrencies | Simplebank.Domain/Attributes/CurrencyAttribute.cs:14 | the whitelist is exactly USD, EUR, GBP, JPY and CNY |
| CurrencyAttribute.LowerCaseIsRefused | Simplebank.Domain/Attributes/CurrencyAttribute.cs:16 | the comparison is case-sensitive: "usd" is refused |

## Left out

- Concurrency: the `UPDLOCK` row locks, blocking, and interleaving of requests are not modelled. Every operation runs alone.
- AccountsRepository.GetWithLock: does not model the row lock the query takes. It reads exactly what an unlocked read would.
- TransfersService.LockOrder: uses the order on naturals in place of .NET `Guid.CompareTo`. Only the fact that it is a total order matters to the lock order.
- Asynchronous execution, dependency injection, HTTP and the controllers are not modelled. Services take the store and the unit of work as arguments.
- Time: the clock is a `now` parameter, and one reading serves every insert of an operation. Only entries and transfers carry their `CreatedAt`. The `CreatedAt` of users and accounts and every `UpdatedAt` column (Simplebank.Domain/Database/Models/BaseModel.cs:13-15) are not modelled.
- Domain.ToDto: does not carry the `CreatedAt` and `UpdatedAt` that the AutoMapper profile copies into the `UserDto`, because user timestamps are not modelled.
- EntriesRepository.Skip: a negative count skips nothing, as LINQ to Objects does. On SQL Server, the configured provider, a negative OFFSET makes the query fail instead; the model does not capture that failure. Only `GetEntriesInt32` can produce a negative count, for instance page int.MaxValue with 100 per page.
- EntriesRepository.Take: a count of zero or less takes nothing, as LINQ to Objects does. On SQL Server a `FETCH NEXT` of zero or fewer rows makes the query fail instead; the model does not capture that failure. The request's `[Range(5, 100)]` on the page size keeps such a count off the API path.
- EntriesRepository.WindowJoin: pages are cut from one fixed order of the history. `OrderByDescending(CreatedAt)` leaves entries with equal times in no fixed order, and SQL Server may order such ties differently in two separate queries, so two pages fetched one after the other can overlap or skip an entry. In the model one `now` stamps both entries of a transfer, so the two entries of a self-transfer tie; in the source each insert reads the clock anew (Simplebank.Infrastructure/Repositories/Repository.cs:26), so entries tie only when two clock readings are equal.
- Ledger.InsertUser, Ledger.InsertAccount, UsersService.ByLogin, UsersService.ByEmail, UsersService.CreateSpec: strings are compared exactly. SQL Server's default collation ignores case and trailing spaces in lookups and unique indexes, so with "alice" registered the database refuses "Alice", while the model accepts it.
- Identifiers: ids come from a counter (`nextId`) and not from random `Guid`s.
- Money: `decimal` is modelled by exact reals. The decimal(18,2) column precision and the decimal overflow are not modelled.
- Errors are values, not exceptions. The `throw e.InnerException ?? e` unwrapping in the services is not modelled.
- Database failures other than the duplicate-key error 2601, such as foreign-key violations, lost connections or failing commits, are not modelled. The `?? throw new Exception(...)` checks after `AddAsync` are not modelled either, because `AddAsync` never returns null.
- The `DuplicateKeysException` handler in `UsersService.CreateAsync` can only be reached when two registrations race. In the model the preceding lookups already rule the duplicate out.
- `CreateAccountAsync` takes `string owner` and assigns `Owner = owner`, while the account entity has a `Guid OwnerId`. The model takes the owner as a `Guid`.
- The `[Currency]` attribute is modelled on its own. It is not attached to `CreateAccountRequest`, so account creation accepts any currency string, and the model does too.
- Password hashing, password checking and token generation are function parameters. The only property required of them is `verifyPassword(p, createHash(p))`, and only by the lemma that states it. The source's `CreateHash` draws a fresh random salt on every call, while the model's `createHash` gives one fixed hash per password; no lemma compares two hashes of one password.
- `Repository.DeleteAsync` and the generic `GetByIdAsync` of other entities are not part of the core and are not modelled.

## Findings

| source | as written | input that shows it | evidently intended | confidence | as-written member | corrected member |
|---|---|---|---|---|---|---|
| Simplebank.Infrastructure/Repositories/EntriesRepository.cs:18 | `(page - 1) * perPage` is computed in unchecked 32-bit `int` arithmetic and wraps | page = 42949674, perPage = 100, both within the request's validation ranges, on an account with more than 4 entries: the offset wraps to 4, so the query returns the entries from position 4 on, on any provider, where the page (4294967300 entries in) should be empty. With page = 2147483647 the offset wraps to -200 instead | the offset of page p is (p-1)*perPage, so a page past the end of the history is empty | high; not executed | EntriesRepository.GetEntriesInt32 (with EntriesRepository.OverflowedPageIsNotEmpty) | EntriesRepository.GetEntries (with EntriesRepository.PageIsWindow) |
| Simplebank.Application/Services/TransfersService.cs:64-70 | no check that the amount is positive; the request validation admits amounts down to -100000 | amount = -100 from the caller's USD account to another user's USD account, as in `TestTransferNegativeSum` (Simplebank.API.Tests/TransferTests.cs:57-84), which expects the request to be refused: the transfer goes through and the other user's balance falls by 100 | a non-positive amount is refused, so no balance but the caller's own source can fall | high; not executed | TransfersService.NegativeTransferDrainsDestination | TransfersService.TransferChecked (with TransfersService.TransferCheckedProtectsOthers and TransfersService.TransferCheckedKeepsBalancesNonNegative) |
| Simplebank.Application/Services/TransfersService.cs:41-104 | no check that the two accounts differ, though `SameAccountTransferException` exists | one account as both source and destination, as in `TestSameAccountTransfer` (Simplebank.API.Tests/TransferTests.cs:233-255), which expects a refusal: the transfer succeeds and records a transfer and two entries | a transfer to the same account is refused with `SameAccountTransfer` | high; not executed | TransfersService.SelfTransferIsRecorded | TransfersService.TransferChecked (with TransfersService.TransferCheckedSucceedsIff) |
| Simplebank.Application/Services/TransfersService.cs:41-104 | no check that the currencies agree, though `DifferentCurrencyAccountsException` exists | 100 from a USD account to an EUR account, as in `TestDifferentCurrencyTransfer` (Simplebank.API.Tests/TransferTests.cs:203-230), which expects a refusal: 100 USD leave and 100 EUR arrive | a transfer between currencies is refused with `DifferentCurrencyAccounts` | high; not executed | TransfersService.CrossCurrencyTransferIsUnconverted | TransfersService.TransferChecked (with TransfersService.TransferCheckedSucceedsIff) |
| Simplebank.Application/Services/TransfersService.cs:61 | `new AccountNotOwnedException(userId, fromAccountId)` passes its arguments in the wrong order; the constructor takes the account id first | a caller who does not own the source account: the error names the user id as the account and the account id as the user | the error names the source account as the account and the caller as the user | high; not executed | TransfersService.TransferSpec | TransfersService.TransferChecked |
