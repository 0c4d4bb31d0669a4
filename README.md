# Rinha de Backend 2024 ledger, in Dafny

This project models the ledger at the centre of the Rinha de Backend 2024
service. Clients have a limit and a balance. The service accepts credit
("c") and debit ("d") transactions against a client and answers
statement requests. Two stores implement the ledger:

- **In-memory store** (`InMemoryDatabase.kt`). A fixed list of five client
  objects. `createTransaction` always subtracts the value, whatever the
  transaction type, and accepts the transaction only when the new balance
  is not negative. It then updates the balance in place and appends to
  the client's history. `getBankStatement` returns the balance, the limit
  and the last 10 history entries.
- **Postgres store** (`database/PostgresDatabase.kt`). Two tables:
  `clients` (id -> limit, balance) and `transactions` (rows with value,
  type, description, date and client id). `initialize` seeds five clients
  with `insertIgnore`. `createTransaction` branches on the type:
  - a debit is refused with 422 when `balance - value` is negative;
  - a credit is always applied;
  - any other type, or an unknown client id, yields 404.

  `getBankStatement` selects the client's rows ordered by date with
  `limit(10)`.
- **Request validation** (`Models.kt`). Constructing a
  `TransactionRequestDTO` checks, in order, that the value is not
  negative, that the type is "c" or "d", and that the description has 1
  to 10 characters. The other records are plain result types.

Layout:

- `kotlin_int.dfy` (module `KotlinInt`): Kotlin's 32-bit `Int`. Additions
  and subtractions on balances wrap around, as on the JVM.
- `models.dfy` (module `Models`): the records of `Models.kt` and the
  request's validating construction.
- `in_memory_ledger.dfy` (module `InMemoryLedger`): the in-memory store's
  behaviour as functions on a list of client states.
- `in_memory_database.dfy` (module `InMemory`): the store itself. `Client`
  objects have a fixed id and limit and a mutable balance and history.
  `InMemoryDatabase` holds the list of them. Each method is proved equal
  to the matching `InMemoryLedger` function.
- `postgres_ledger.dfy` (module `PostgresLedger`): the Postgres store's
  behaviour as functions on the contents of its two tables. This is a
  map from id to client row plus a sequence of transaction rows.
- `postgres_database.dfy` (module `Postgres`): a `PostgresDatabase` class
  whose `clients` map and `transactions` sequence the methods update. Each
  method is proved equal to the matching `PostgresLedger` function.

Clock readings (`System.currentTimeMillis`) are a `now` parameter.
Date formatting (`AuxiliryDate.formatToString`) is a parameter
`format: int -> string`.

## Model

| member | source | states |
|---|---|---|
| KotlinInt.Wrap | app/src/main/kotlin/com/lucasalfare/rinhadebackend2024/database/PostgresDatabase.kt:100 | Kotlin `Int` arithmetic: a sum in the 32-bit range is kept as is |
| KotlinInt.WrapIsMod | app/src/main/kotlin/com/lucasalfare/rinhadebackend2024/database/PostgresDatabase.kt:100 | the wrapped value is the sum reduced modulo 2^32 into [-2^31, 2^31) |
| KotlinInt.WrapAddLeft | app/src/main/kotlin/com/lucasalfare/rinhadebackend2024/database/PostgresDatabase.kt:100 | wrapping an intermediate balance does not change the wrapped total of later additions |
| Models.NewTransactionRequest | app/src/main/kotlin/com/lucasalfare/rinhadebackend2024/Models.kt:25-29 | construction succeeds iff value >= 0, type is "c" or "d" and the description has 1..10 characters; each failing check, in order, gives its own error |
| Models.WithoutData | app/src/main/kotlin/com/lucasalfare/rinhadebackend2024/Models.kt:87-91 | a result built from a status alone carries the default payload "Sem dados" |
| InMemoryLedger.FindIndex | app/src/main/kotlin/com/lucasalfare/rinhadebackend2024/InMemoryDatabase.kt:29 | `find`: none iff no client has the id; otherwise the first position holding it |
| InMemoryLedger.CreateTransaction | app/src/main/kotlin/com/lucasalfare/rinhadebackend2024/InMemoryDatabase.kt:25-66 | no call changes the number of clients, any id or any limit |
| InMemoryLedger.LastTransactions | app/src/main/kotlin/com/lucasalfare/rinhadebackend2024/InMemoryDatabase.kt:81 | `takeLast(10)`: min(10, n) entries, and they are the tail of the history (the history is some prefix followed by them) |
| InMemoryLedger.BankStatement | app/src/main/kotlin/com/lucasalfare/rinhadebackend2024/InMemoryDatabase.kt:73-88 | the statement `getBankStatement` evidently intends; its contract is stated by `InMemoryLedger.StatementIsLatestSuffix` |
| InMemoryLedger.TakeLastKind | app/src/main/kotlin/com/lucasalfare/rinhadebackend2024/InMemoryDatabase.kt:81 | which list class Kotlin's standard-library `takeLast`/`toList` returns (read-only `EmptyList`, a one-element Java list, or an `ArrayList`), a fact of the Kotlin library and not of the modelled files: the read-only empty list comes back exactly when n is 0 or the list is empty |
| InMemoryLedger.BankStatementAsWritten | app/src/main/kotlin/com/lucasalfare/rinhadebackend2024/InMemoryDatabase.kt:73-88 | `getBankStatement` with the `as MutableList` cast at line 81: it fails where `TakeLastKind` gives the read-only empty list; its contract is stated by `InMemoryLedger.StatementThrowsOnEmptyHistory` |
| InMemoryLedger.SeedClients | app/src/main/kotlin/com/lucasalfare/rinhadebackend2024/InMemoryDatabase.kt:11-17 | the initial list is clients 1 to 5 with limits 100000, 80000, 1000000, 10000000, 500000, balance 0 and no history |
| InMemoryLedger.UnknownIdNotFound | app/src/main/kotlin/com/lucasalfare/rinhadebackend2024/InMemoryDatabase.kt:29-65 | 404 iff no client has the id; then the result is the bare 404 and no client changes |
| InMemoryLedger.TypeIgnored | app/src/main/kotlin/com/lucasalfare/rinhadebackend2024/InMemoryDatabase.kt:31 | the answer and every new balance are the same whatever the request's type |
| InMemoryLedger.CreditLowersBalance | app/src/main/kotlin/com/lucasalfare/rinhadebackend2024/InMemoryDatabase.kt:31-40 | an accepted positive credit lowers the balance by its value |
| InMemoryLedger.Accepted | app/src/main/kotlin/com/lucasalfare/rinhadebackend2024/InMemoryDatabase.kt:36-54 | when `balance - value >= 0`: OK with the unchanged limit and the new balance; balance set to it; exactly one entry with the request's value, type and description appended; other clients unchanged |
| InMemoryLedger.Rejected | app/src/main/kotlin/com/lucasalfare/rinhadebackend2024/InMemoryDatabase.kt:55-59 | when `balance - value < 0`: 422 with the default payload and no change |
| InMemoryLedger.StatementIsLatestSuffix | app/src/main/kotlin/com/lucasalfare/rinhadebackend2024/InMemoryDatabase.kt:73-88 | 404 iff the id is unknown; otherwise OK with the current balance, limit and statement date, and the last min(10, n) history entries in order, the newest among them |
| InMemoryLedger.SameIdsSameIndex | app/src/main/kotlin/com/lucasalfare/rinhadebackend2024/InMemoryDatabase.kt:29 | the lookup depends only on the ids, so balance updates never change which client an id finds |
| InMemoryLedger.RunKeepsInvariant | app/src/main/kotlin/com/lucasalfare/rinhadebackend2024/InMemoryDatabase.kt:36-40 | over any sequence of calls, ids and limits never change and balances never become negative |
| InMemoryLedger.ValidRunKeepsZero | app/src/main/kotlin/com/lucasalfare/rinhadebackend2024/InMemoryDatabase.kt:31-40 | from all-zero balances, valid requests keep every balance at zero |
| InMemoryLedger.CreditNeverAccepted | app/src/main/kotlin/com/lucasalfare/rinhadebackend2024/InMemoryDatabase.kt:31-36 | from the seed's zero balances, after any valid calls, every positive credit is refused with 422 |
| InMemoryLedger.StatementThrowsOnEmptyHistory | app/src/main/kotlin/com/lucasalfare/rinhadebackend2024/InMemoryDatabase.kt:81 | as written, the statement of a known client fails iff its history is empty; otherwise it is the statement above |
| InMemoryLedger.SeedStatementThrows | app/src/main/kotlin/com/lucasalfare/rinhadebackend2024/InMemoryDatabase.kt:81 | as written, asking for any seed client's statement before its first transaction fails |
| InMemory.Client.constructor | app/src/main/kotlin/com/lucasalfare/rinhadebackend2024/InMemoryDatabase.kt:12 | a client starts with the given id, limit and balance and an empty history |
| InMemory.InMemoryDatabase.constructor | app/src/main/kotlin/com/lucasalfare/rinhadebackend2024/InMemoryDatabase.kt:11-17 | the store starts as the seed list of fresh client objects with distinct ids and non-negative balances |
| InMemory.InMemoryDatabase.Find | app/src/main/kotlin/com/lucasalfare/rinhadebackend2024/InMemoryDatabase.kt:29 | the linear search returns the first client with the id, or null iff there is none |
| InMemory.InMemoryDatabase.CreateTransaction | app/src/main/kotlin/com/lucasalfare/rinhadebackend2024/InMemoryDatabase.kt:25-66 | the in-place update leaves the clients in the state `InMemoryLedger.CreateTransaction` gives and returns its result; distinct ids and non-negative balances are kept |
| InMemory.InMemoryDatabase.GetBankStatement | app/src/main/kotlin/com/lucasalfare/rinhadebackend2024/InMemoryDatabase.kt:73-88 | changes nothing and returns `InMemoryLedger.BankStatement` of the current clients |
| PostgresLedger.InsertIgnore | app/src/main/kotlin/com/lucasalfare/rinhadebackend2024/database/PostgresDatabase.kt:48 | adds the id with the row only when the id is missing; existing rows are untouched |
| PostgresLedger.Seed | app/src/main/kotlin/com/lucasalfare/rinhadebackend2024/database/PostgresDatabase.kt:48-52 | the five `insertIgnore` statements in order; what they add and keep is stated by `PostgresLedger.SeedAddsMissingClients`, `PostgresLedger.SeedEmpty` and `PostgresLedger.SeedIdempotent` |
| PostgresLedger.SeedAddsMissingClients | app/src/main/kotlin/com/lucasalfare/rinhadebackend2024/database/PostgresDatabase.kt:48-52 | seeding adds exactly the missing ids among 1 to 5, each with its seed limit and balance 0, and keeps existing rows |
| PostgresLedger.SeedNewRow | app/src/main/kotlin/com/lucasalfare/rinhadebackend2024/database/PostgresDatabase.kt:48-52 | a missing seed id gets its seed limit and balance 0 |
| PostgresLedger.SeedEmpty | app/src/main/kotlin/com/lucasalfare/rinhadebackend2024/database/PostgresDatabase.kt:48-52 | seeding an empty table gives exactly the five seed clients |
| PostgresLedger.SeedIdempotent | app/src/main/kotlin/com/lucasalfare/rinhadebackend2024/database/PostgresDatabase.kt:48-52 | seeding twice is seeding once |
| PostgresLedger.CreateTransaction | app/src/main/kotlin/com/lucasalfare/rinhadebackend2024/database/PostgresDatabase.kt:61-131 | the decision: unknown id or other type -> 404, debit with negative `balance - value` -> 422, else update and insert; its cases are stated by `NotFoundCases`, `DebitRejected`, `DebitAccepted`, `CreditAlwaysAccepted`, `InsertedIffAccepted` and `CreateTransactionFrame` |
| PostgresLedger.Applied | app/src/main/kotlin/com/lucasalfare/rinhadebackend2024/database/PostgresDatabase.kt:73-95 | the update-and-insert branch shared by debit (lines 73-95) and credit (lines 99-122); its effect is stated by `PostgresLedger.DebitAccepted` and `PostgresLedger.CreditAlwaysAccepted` |
| PostgresLedger.InsertedIffAccepted | app/src/main/kotlin/com/lucasalfare/rinhadebackend2024/database/PostgresDatabase.kt:61-131 | a call inserts one row exactly when it answers OK; every other answer leaves both tables unchanged |
| PostgresLedger.CreateTransactionFrame | app/src/main/kotlin/com/lucasalfare/rinhadebackend2024/database/PostgresDatabase.kt:61-131 | a call keeps the set of clients, every limit, every other client's row and all existing transaction rows; it appends at most one row, for the client it names |
| PostgresLedger.NotFoundCases | app/src/main/kotlin/com/lucasalfare/rinhadebackend2024/database/PostgresDatabase.kt:66-130 | 404 iff the id is unknown or the type is neither "c" nor "d"; then nothing changes |
| PostgresLedger.DebitRejected | app/src/main/kotlin/com/lucasalfare/rinhadebackend2024/database/PostgresDatabase.kt:68-72 | a debit with `balance - value < 0` gets 422 with no update and no row |
| PostgresLedger.DebitAccepted | app/src/main/kotlin/com/lucasalfare/rinhadebackend2024/database/PostgresDatabase.kt:73-95 | otherwise a debit sets the balance to `balance - value`, inserts one row for the client and replies OK with the limit and new balance |
| PostgresLedger.CreditAlwaysAccepted | app/src/main/kotlin/com/lucasalfare/rinhadebackend2024/database/PostgresDatabase.kt:99-122 | a credit to a known client is always OK: balance `balance + value`, one row inserted, reply with the limit and new balance |
| PostgresLedger.CreditCanWrapNegative | app/src/main/kotlin/com/lucasalfare/rinhadebackend2024/database/PostgresDatabase.kt:100 | a credit of 1 to a balance of 2^31-1 leaves the balance at -2^31 |
| PostgresLedger.LimitNeverConsulted | app/src/main/kotlin/com/lucasalfare/rinhadebackend2024/database/PostgresDatabase.kt:69-71 | changing the client's limit changes neither the status, nor the new balance, nor the inserted rows |
| PostgresLedger.StepBalance | app/src/main/kotlin/com/lucasalfare/rinhadebackend2024/database/PostgresDatabase.kt:69-122 | one call moves each client's balance by the signed value of the row it inserts for that client, modulo 2^32 |
| PostgresLedger.RunKeepsClient | app/src/main/kotlin/com/lucasalfare/rinhadebackend2024/database/PostgresDatabase.kt:61-131 | over any sequence of calls a known client stays known with the same limit, and the transactions table only grows |
| PostgresLedger.BalanceEquation | app/src/main/kotlin/com/lucasalfare/rinhadebackend2024/database/PostgresDatabase.kt:69-122 | over any sequence of calls, a balance moves by the client's credits minus debits in the table, modulo 2^32 |
| PostgresLedger.BalanceOfAddedRows | app/src/main/kotlin/com/lucasalfare/rinhadebackend2024/database/PostgresDatabase.kt:69-122 | the final balance is the initial balance plus credits minus debits among the rows the calls inserted, wrapped to 32 bits |
| PostgresLedger.BalanceEquationExact | app/src/main/kotlin/com/lucasalfare/rinhadebackend2024/database/PostgresDatabase.kt:69-122 | when that sum stays in the 32-bit range, the balance equals it exactly |
| PostgresLedger.ClientRows | app/src/main/kotlin/com/lucasalfare/rinhadebackend2024/database/PostgresDatabase.kt:149 | `where clientId = id`: every row of the client, exactly as often as the table holds it, and no row of another client |
| PostgresLedger.Insert | app/src/main/kotlin/com/lucasalfare/rinhadebackend2024/database/PostgresDatabase.kt:149 | one step of `orderBy(date)`; stated by `PostgresLedger.InsertSorted` (sortedness kept) and `PostgresLedger.InsertMultiset` (exactly one row added) |
| PostgresLedger.InsertSorted | app/src/main/kotlin/com/lucasalfare/rinhadebackend2024/database/PostgresDatabase.kt:149 | inserting a row into date-sorted rows keeps them sorted |
| PostgresLedger.InsertMultiset | app/src/main/kotlin/com/lucasalfare/rinhadebackend2024/database/PostgresDatabase.kt:149 | inserting adds exactly that row |
| PostgresLedger.SortByDate | app/src/main/kotlin/com/lucasalfare/rinhadebackend2024/database/PostgresDatabase.kt:149 | `orderBy(date)`: ascending by date and a permutation of its input; stated by `PostgresLedger.SortByDateSorts` and `PostgresLedger.SortByDateOfSorted` |
| PostgresLedger.SortByDateSorts | app/src/main/kotlin/com/lucasalfare/rinhadebackend2024/database/PostgresDatabase.kt:149 | `orderBy(date)` yields the same rows, ascending by date |
| PostgresLedger.SortByDateOfSorted | app/src/main/kotlin/com/lucasalfare/rinhadebackend2024/database/PostgresDatabase.kt:149 | rows already in date order stay as they are |
| PostgresLedger.EarliestRows | app/src/main/kotlin/com/lucasalfare/rinhadebackend2024/database/PostgresDatabase.kt:149 | `orderBy(date).limit(10)` over the client's rows; stated by `PostgresLedger.EarliestRowsSpec`, `PostgresLedger.EarliestInTable` and `PostgresLedger.StatementOmitsLatest` |
| PostgresLedger.Present | app/src/main/kotlin/com/lucasalfare/rinhadebackend2024/database/PostgresDatabase.kt:150-155 | a row as the statement lists it, its date formatted; used by `PostgresLedger.Statement`, whose contract states it per row |
| PostgresLedger.Statement | app/src/main/kotlin/com/lucasalfare/rinhadebackend2024/database/PostgresDatabase.kt:138-166 | 404 iff the id is unknown; otherwise OK with the balance, limit and statement date, and the query's rows with their dates formatted |
| PostgresLedger.EarliestRowsSpec | app/src/main/kotlin/com/lucasalfare/rinhadebackend2024/database/PostgresDatabase.kt:147-149 | the statement's rows are only the client's, ascending by date, min(10, n) of them, and none left out is older than one taken |
| PostgresLedger.EarliestInTable | app/src/main/kotlin/com/lucasalfare/rinhadebackend2024/database/PostgresDatabase.kt:149 | over the whole table: the statement lists only the client's rows, and no row of the client in the table that it leaves out is older than one it lists |
| PostgresLedger.StatementOmitsLatest | app/src/main/kotlin/com/lucasalfare/rinhadebackend2024/database/PostgresDatabase.kt:149 | with more than 10 rows at increasing dates, the statement is the first 10 inserted and leaves out the newest |
| PostgresLedger.LatestRows | app/src/main/kotlin/com/lucasalfare/rinhadebackend2024/database/PostgresDatabase.kt:148-149 | the latest 10 rows the comment at line 148 describes (the corrected statement); stated by `PostgresLedger.LatestRowsSpec`, `PostgresLedger.LatestInTable` and `PostgresLedger.StatementListsLatest` |
| PostgresLedger.LatestRowsSpec | app/src/main/kotlin/com/lucasalfare/rinhadebackend2024/database/PostgresDatabase.kt:148-149 | the latest rows are only the client's, ascending by date, min(10, n) of them, and none left out is newer than one taken |
| PostgresLedger.LatestInTable | app/src/main/kotlin/com/lucasalfare/rinhadebackend2024/database/PostgresDatabase.kt:148-149 | over the whole table: the latest rows are only the client's, and no row of the client in the table that they leave out is newer than one they list |
| PostgresLedger.StatementListsLatest | app/src/main/kotlin/com/lucasalfare/rinhadebackend2024/database/PostgresDatabase.kt:148-149 | with the rows in date order, the latest rows are the last min(10, n) inserted, the newest among them |
| Postgres.PostgresDatabase.constructor | app/src/main/kotlin/com/lucasalfare/rinhadebackend2024/database/PostgresDatabase.kt:43-45 | a store over existing tables holds exactly their contents |
| Postgres.PostgresDatabase.Initialize | app/src/main/kotlin/com/lucasalfare/rinhadebackend2024/database/PostgresDatabase.kt:47-52 | the five `insertIgnore` statements leave the clients table as `Seed` of the old one: ids 1 to 5 added, existing rows and the transactions table unchanged |
| Postgres.PostgresDatabase.CreateTransaction | app/src/main/kotlin/com/lucasalfare/rinhadebackend2024/database/PostgresDatabase.kt:61-131 | the balance update and row insert leave the tables as `PostgresLedger.CreateTransaction` gives and return its result |
| Postgres.PostgresDatabase.GetBankStatement | app/src/main/kotlin/com/lucasalfare/rinhadebackend2024/database/PostgresDatabase.kt:138-166 | changes nothing and returns `PostgresLedger.Statement` of the current tables |

## Left out

- HTTP routing, request deserialisation and the 500 reply built from an exception (`App.kt`) are not part of this model. `App.kt` calls only the Postgres store.
- Date formatting and parsing (`Misc.kt`) are a parameter `format: int -> string`. The clock is a parameter `now`. A date is an unbounded `int` in epoch milliseconds, where the column is a 64-bit `long`.
- The Hikari pool, `dbQuery`/`newSuspendedTransaction`, `Database.connect` and schema creation are connection machinery and are left out. The schema (`Tables.kt`) only shapes the row records. The `varchar(1)` and `varchar(10)` column widths are not enforced.
- Concurrency and isolation are left out. Each call is one atomic step. In the source, the read, the balance update and the row insert run in separate READ_COMMITTED transactions, so concurrent requests can interleave between them.
- PostgresLedger.SortByDate: the order it gives rows with equal dates is not stated by any contract, only that the result is ascending by date and a permutation. SQL leaves that order unspecified too. `PostgresLedger.ClientRows` likewise states which rows it keeps and how often, not their order.
- The messages of the exceptions that request construction throws (`Models.kt` lines 26-28) are not modelled. Only which check failed first is kept. The messages are shown only by the HTTP layer, which is not part of this model.
- String length is counted in characters. Kotlin counts UTF-16 code units, so a description with characters outside the Basic Multilingual Plane may be measured differently.
- `Client` and `BankStatement` are not defined in the modelled files. `Client` is the class `InMemory.Client`. `BankStatement` is taken to be `BankStatementResponse`.
- InMemory.InMemoryDatabase.GetBankStatement: returns the statement for an empty history instead of failing on the `takeLast(10) as MutableList` cast. The failing behaviour is modelled separately by `InMemoryLedger.BankStatementAsWritten` (see Findings).

## Findings

| source | as written | input that shows it | evidently intended | confidence | as-written member | corrected member |
|---|---|---|---|---|---|---|
| app/src/main/kotlin/com/lucasalfare/rinhadebackend2024/InMemoryDatabase.kt:31 | the tentative balance is `balance - value` for credits as well as debits | from the seed, a credit `{valor: 1000, tipo: "c"}` to client 1 gives `0 - 1000 < 0` and is refused with 422; no positive credit is ever accepted | a credit adds its value, as in the Postgres store | medium, not executed | InMemoryLedger.CreditNeverAccepted | PostgresLedger.CreditAlwaysAccepted |
| app/src/main/kotlin/com/lucasalfare/rinhadebackend2024/database/PostgresDatabase.kt:149 | `orderBy(date).limit(10)` selects the 10 earliest rows | a client with 11 rows at increasing dates: the statement lists the first 10 and omits the newest | the latest 10 rows, as the comment on the query and the in-memory store's `takeLast(10)` say | medium, not executed | PostgresLedger.StatementOmitsLatest | PostgresLedger.StatementListsLatest |
| app/src/main/kotlin/com/lucasalfare/rinhadebackend2024/InMemoryDatabase.kt:81 | `takeLast(10)` of an empty history is Kotlin's read-only empty list, and the cast `as MutableList` throws | `getBankStatement(1)` on the seed, before any transaction | an OK statement with no transactions | medium, not executed | InMemoryLedger.SeedStatementThrows | InMemoryLedger.StatementIsLatestSuffix |
