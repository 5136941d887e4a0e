# Single-account ledger

A Dafny model of the ledger core of a small NestJS/MongoDB banking service.
There is an account table and an append-only log of deposit and withdrawal
records. An account's balance is never stored: it is computed by folding the
log. The transaction engine runs one deposit or withdrawal inside a database
unit of work (a Mongo session). Its checks run in a fixed order: the account
exists, it is active (not frozen), and a withdrawal does not exceed the
balance. On success it appends exactly one record and commits. On any error it
aborts and writes nothing.

Modules, one per part of the source:

- `Wrappers`: `Option` and `Result`, for the source's `null` returns and thrown exceptions.
- `Schemas`: the account and transaction documents, the minimum amount and the error values with their messages.
- `BalanceCalculator`: the balance aggregation as a recursive fold, plus a reference definition (sum of deposits minus sum of withdrawals) and the lemmas that connect the two.
- `LedgerStore`: the database as a class `Store` with the fields `accounts` (a map) and `log` (a sequence). Its invariant `Valid()` says every record belongs to an existing account, every amount meets the schema minimum, and no balance is negative.
- `AccountsService`: `Create`, `FindById`, `SetAccountStatus` and `GetBalance`, as methods over a `Store`.
- `TransactionsService`: the engine `Create`, the pure function `Decide` that states its outcome, and lemmas about it.
- `Scenarios`: the end-to-end scenarios, and a freeze/unfreeze scenario over the controller's endpoints, each starting from an empty store.

Modelling choices:

- Amounts are integer cents. The schema minimum of 0.01 becomes `MinAmount == 1`.
- An amount below the minimum is not a precondition. The service rejects it only when the Mongoose schema validates the record inside `txModel.create`, which happens after the funds check. The model rejects it at that same step, with `ValidationFailed("amount")`.
- `storeFault` is the database's answer to the write and the commit. When it is true the model treats the unit as aborted, with nothing written (see `TransactionsService.Create` under "## Left out").
- Account ids are natural numbers. A counter, `nextId`, stands for ObjectId generation.

Notes on the code:

- `getBalance` looks the account up again and would throw "Account not found" if it were missing (src/accounts/accounts.service.ts:41-42). Called from the engine, which has just found the account in the same session, that error cannot arise.
- The engine computes the balance for deposits too, although only withdrawals use it (src/transactions/transactions.service.ts:29-33).
- `setAccountStatus` is an unconditional `findByIdAndUpdate`: setting the status an account already has succeeds and returns it (src/accounts/accounts.service.ts:30-34).
- Every error inside the unit of work is rethrown as it is after the abort, provided the abort itself succeeds (src/transactions/transactions.service.ts:41-43). The model gives database failures a single error value, `StoreFailure`.

## Model

| member | source | states |
|---|---|---|
| BalanceCalculator.BalanceIsDepositsMinusWithdrawals | src/accounts/accounts.service.ts:45-62 | the folded balance equals the sum of the account's deposit amounts minus the sum of its withdrawal amounts |
| BalanceCalculator.BalanceWithoutRecords | src/accounts/accounts.service.ts:65-66 | an account with no records in the log has balance 0 |
| BalanceCalculator.BalanceOnlyOwnRecords | src/accounts/accounts.service.ts:47 | the balance depends only on the records whose accountId matches; other accounts' records never affect it |
| BalanceCalculator.RecordsOf | src/accounts/accounts.service.ts:47 | a record appears in the `$match` result exactly when it is in the log and belongs to the given account; the result is no longer than the log |
| BalanceCalculator.RecordsOfMultiset | src/accounts/accounts.service.ts:47 | the `$match` result holds every copy of each matching record of the log, and no copy of any other record |
| BalanceCalculator.BalanceAppend | src/accounts/accounts.service.ts:52-57 | appending a deposit of a adds a, a withdrawal of a subtracts a, and a record of another account changes nothing |
| BalanceCalculator.BalanceConcat | src/accounts/accounts.service.ts:49-61 | the sum over a log split in two is the sum of the two parts' balances |
| AccountsService.Create | src/accounts/accounts.service.ts:15-17 | a new account gets a fresh id and starts active (schema default `isActive: true`); the table gains exactly that account, the log is unchanged, and its balance is 0 |
| AccountsService.FindById | src/accounts/accounts.service.ts:19-27 | returns the stored account exactly when the id exists, otherwise none |
| AccountsService.SetAccountStatus | src/accounts/accounts.service.ts:29-35 | a missing id gives NotFound "Account not found" and changes nothing; otherwise only that account's isActive becomes s, the updated account is returned, and the log is untouched |
| AccountsService.GetBalance | src/accounts/accounts.service.ts:37-67 | NotFound for a missing account; otherwise deposits minus withdrawals over its records, 0 with no records, never negative in a valid store |
| AccountsService.StatusUpdateIdempotent | src/accounts/accounts.service.ts:31 | setting the same status twice gives the same table as setting it once |
| AccountsService.StatusUpdateFrame | src/accounts/accounts.service.ts:30-34 | the update keeps the key set, leaves every other account as it was, changes only the flag, and is the identity on a missing id |
| TransactionsService.Create | src/transactions/transactions.service.ts:21-47 | the result follows the checks in order (exists, active, funds, schema minimum, commit); on success exactly the input record is appended and returned, on any error the log is unchanged; accounts are never changed; the store invariant (no negative balance) is kept; only the record's own account changes balance, by its signed amount |
| TransactionsService.AppendKeepsSolvent | src/transactions/transactions.service.ts:29-37 | if no balance is negative, appending a record that passed the funds check and the minimum keeps every balance non-negative |
| TransactionsService.MissingAccountIsNotFound | src/transactions/transactions.service.ts:25-26 | a missing account is NotFound "Account does not exist" whatever the kind, amount or database answer |
| TransactionsService.FrozenAccountRefuses | src/transactions/transactions.service.ts:27 | an existing frozen account refuses deposits and withdrawals with "Account is frozen" |
| TransactionsService.InsufficientFundsExactly | src/transactions/transactions.service.ts:33-35 | "Insufficient funds" is returned if and only if the account exists, is active, and the request is a withdrawal of more than the balance |
| TransactionsService.NoFundsCheckUpToBalance | src/transactions/transactions.service.ts:33 | a deposit, or a withdrawal of at most the balance (including exactly the balance), is never refused for funds, because the comparison is strict |
| TransactionsService.SucceedsExactly | src/transactions/transactions.service.ts:25-40 | a request is committed if and only if every check passes, and the committed record is the request itself |
| TransactionsService.CreateEffect | src/transactions/transactions.service.ts:37-43 | after one create, committed or aborted, the record's account moves by its signed amount if committed, and every other balance is unchanged |
| TransactionsService.CreateKeepsSolvent | src/transactions/transactions.service.ts:29-43 | if no balance is negative before a create, none is negative after it, whatever its outcome |
| TransactionsService.FreezeThenUnfreeze | src/transactions/transactions.service.ts:27 | after freezing, any transfer is refused as frozen; after unfreezing, it is refused neither as frozen nor as missing |
| TransactionsService.WithdrawalsNeverOverdraw | src/transactions/transactions.service.ts:22-46 | N withdrawals of a against a balance of exactly k·a, each in its own atomic unit: exactly min(k, N) commit and the balance ends at (k − min(k, N))·a |
| Scenarios.DepositThenWithdraw | test/app.e2e-spec.ts:43-74 | open an account, deposit 200, withdraw 50: both commit and the balance is 150 |
| Scenarios.OverdraftRefused | test/app.e2e-spec.ts:76-102 | withdrawing 100 from a newly opened account gives "Insufficient funds" and the balance stays 0 |
| Scenarios.FreezeBlocksUntilUnfrozen | src/accounts/accounts.controller.ts:25-35 | a frozen account refuses a deposit with "Account is frozen"; once unfrozen, the same deposit commits |

## Left out

- Floating-point amounts: amounts are integer cents, so rounding in the JavaScript `<` comparison and in the `$sum` is not modelled.
- Concurrency and isolation between simultaneous requests: each create is one atomic step. `WithdrawalsNeverOverdraw` covers serial, fault-free schedules only.
- The source's session does not serialise two concurrent withdrawals on the same account. MongoDB transactions use snapshot isolation and abort only on write-write conflicts. Two withdrawals each insert a different new record (src/transactions/transactions.service.ts:37) and write no document in common. Both can read the same balance (lines 29-32), both can pass the funds check (line 33), and both can commit. This write skew can overdraw an account. The model does not capture it, and its solvency invariant holds only for serial execution. This follows from MongoDB's documented isolation; nothing was executed.
- The session API (`startSession`, `startTransaction`, `commitTransaction`, `abortTransaction`, `endSession`): the model keeps only its effect, commit-or-nothing. Database failures during the reads are not modelled apart from the single `storeFault`. They abort the same way.
- TransactionsService.Create: the model treats a failed commit as an abort that wrote nothing. In the source, the abort that follows a failed `commitTransaction` (src/transactions/transactions.service.ts:39-42) is refused by the MongoDB driver under its documented transaction rules, so the abort's error replaces the commit's (a reading of the driver's rules; nothing was executed). A commit whose result is unknown may also have been applied.
- Malformed ids (a Mongoose CastError): ids are natural numbers, so every id is well formed.
- Id spelling: in the model each account has exactly one id. In the source, `findById` casts the id string to an ObjectId and ignores the case of its hex digits (src/accounts/accounts.service.ts:24). The `$match` compares the exact string stored with each record, with no cast (line 47; src/transactions/schemas/transaction.schema.ts:8). So the source keys balances by the exact string the caller passed. A withdrawal sent with an upper-case spelling of an id whose deposits used lower case finds the account but matches no records, so it is refused for insufficient funds. The model would commit it.
- Account metadata (name, email, phone, nationality, religion, address) and the unique index on email. Because of this, `Create` cannot fail in the model.
- AccountsService.Create: the service passes its `dto` through to `acctModel.create`. A caller that supplied `isActive: false` would override the default. The model always opens an account as active. That matches a request through the controller only when the validation pipe strips unknown fields (`whitelist: true`, as test/app.e2e-spec.ts:37-39 installs it). Without that option, a body's `isActive` reaches the service (src/accounts/accounts.controller.ts:14-15, src/accounts/accounts.service.ts:16).
- Record ids and timestamps: the returned record is the request itself, without `_id`, `createdAt` or `updatedAt`.
- The `type` enum check of the DTO and the schema: `Kind` has only the two values.
- NestJS controllers, modules, HTTP status mapping, class-validator DTOs, the Joi environment schema, Swagger and throttling.
