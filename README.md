# Banking backend core, modelled in Dafny

This project models the core of a small banking REST backend (Express, knex and
PostgreSQL) and proves properties of that model. The core has these parts:

- **Transaction ledger.** The `balance`, `transactions` and `accounts` tables are
  written by the transaction handlers: credit/debit `create`, `createTransfer`,
  the reversal ("estorno") `reverseTransaction`, `update` and `delete`. They are
  read by `getBalance`, `show` and the paginated, filtered `index`.
- **Pagination.** `parsePagination` and `makeMeta` are shared by the list
  endpoints.
- **Authentication.**
  - The refresh-token table kept by `login`, `refresh` and `logout`.
  - The `auth` middleware, which reads the `Authorization: Bearer …` header.
- **Users.**
  - Document (CPF) normalisation.
  - The verdict on the compliance service's CPF answer.
  - User creation, which also opens a zero balance.
  - The partial-update patch.
- **Cards.** The `cards` table, and the answers that show a card number only by
  its last four characters.

Layout, one module per file:

| file | module | form |
|---|---|---|
| `common.dfy` | `Common` | `Option`, the error envelope `Result` (HTTP status, dotted message, detail code), JavaScript numbers after `Number(...)` |
| `pagination.dfy` | `Pagination` | pure functions |
| `ledger.dfy` | `Ledger` | the ledger tables as one value `State`, its invariant `Valid`, and each handler's effect as a function of the state before it (`CreateSpec`, `TransferSpec`, `ReverseSpec`, `UpdateSpec`, `DeleteSpec`) |
| `ledger_properties.dfy` | `LedgerProperties` | what the ledger handlers guarantee, as lemmas over those functions |
| `tables.dfy` | `Tables` | class `Database`: the database, with one field per table and one counter per serial id; the single-row knex queries as methods |
| `transactions.dfy` | `Transactions` | the transaction handlers, as methods that change `Database` step by step and are proved to have exactly the effect `Ledger` states; `index` as a pure function |
| `auth.dfy` | `Auth` | `login`/`logout` as methods on the token table, `refresh` as a read, the middleware and `trim` as functions |
| `users.dfy` | `Users` | normalisation and the patch as functions; `create` and `update` as methods |
| `cards.dfy` | `Cards` | masking and response shaping as functions; `create`, `update` and `delete` as methods |

Conventions:

- Money is integer cents.
- Serial ids are `nat`s taken from a counter field.
- A table read with `.first()` and no ordering is a choice (`:|`). Where the
  invariant makes the row unique (one balance row per user, one transaction per
  id), the choice is proved to be the specification's.
- JWT signing and verification, bcrypt and the compliance service are function
  parameters or inputs about which nothing is assumed.
- The identity of the authenticated user is the `actor` / `sender` parameter.

## Model

Source paths are relative to the repository root. `transactionsControllers.ts`
is `src/controllers/transactions/transactionsControllers.ts`.

| member | source | states |
|---|---|---|
| Ledger.KindOf | src/controllers/transactions/transactionsControllers.ts:96 | the recorded type is debit exactly when the value is negative |
| Ledger.GetOrCreate | src/controllers/transactions/transactionsControllers.ts:117-123 | the user's balance row is returned unchanged if there is one; otherwise a row with value 0 is added under the next balance id; the ledger invariant is kept |
| Ledger.CreateSpec | src/controllers/transactions/transactionsControllers.ts:96-144 | `create` keeps the ledger invariant and adds balance rows only for the acting user |
| Ledger.TransferSpec | src/controllers/transactions/transactionsControllers.ts:183-233 | `createTransfer` keeps the invariant; new balance rows belong only to the sender or to the owner of the path account |
| Ledger.TransferMove | src/controllers/transactions/transactionsControllers.ts:220-233 | the write of a transfer keeps the invariant, the set of balance rows and every row's owner |
| Ledger.ReverseSpec | src/controllers/transactions/transactionsControllers.ts:314-362 | a reversal keeps the invariant, the set of balance rows and their owners |
| Ledger.ReverseMove | src/controllers/transactions/transactionsControllers.ts:347-362 | the write of a reversal keeps the invariant, the set of balance rows and their owners |
| Ledger.DecimalRoundTrip | src/controllers/transactions/transactionsControllers.ts:351 | the id written into a reversal description reads back as the reversed id |
| Ledger.ReversalNoteInjective | src/controllers/transactions/transactionsControllers.ts:351 | distinct reversed ids give distinct reversal descriptions |
| Ledger.ReverseSpecCovered | src/controllers/transactions/transactionsControllers.ts:335-339 | corrected reversal: the coverage check is on the destination row, the one the reversal debits; the invariant and the set of balance rows are kept |
| Ledger.UpdateSpec | src/controllers/transactions/transactionsControllers.ts:265-274 | `update` keeps the invariant, the table length and every balance; the rows with that id become their patch and all others are kept; the answer holds the id exactly when a row had it |
| Ledger.PatchTxn | src/controllers/transactions/transactionsControllers.ts:267-271 | an update can change only the value and the description: id, type, rows, reversal link and account are kept; an empty body is the identity; each supplied field is written |
| Ledger.WithoutTxn | src/controllers/transactions/transactionsControllers.ts:294-296 | deletion keeps exactly the rows with another id |
| Ledger.WithoutTxnPairwise | src/controllers/transactions/transactionsControllers.ts:294-296 | after a deletion, ids are still distinct and no transaction has two reversals |
| Ledger.DeleteSpec | src/controllers/transactions/transactionsControllers.ts:290-305 | `delete` keeps the invariant, touches no balance, and no row with that id is left |
| Ledger.BalanceIdUnique | src/controllers/transactions/transactionsControllers.ts:117 | with one row per user, a row found by user id is the user's row |
| Ledger.TxnWithIdAt | src/controllers/transactions/transactionsControllers.ts:314 | ids are unique, so the row found by id is the row at its position |
| Ledger.AdjustUserIsAdjustRow | src/controllers/transactions/transactionsControllers.ts:140-142 | `AdjustUser` against `AdjustRow`: with one row per user, incrementing by user id changes exactly that user's row |
| LedgerProperties.TransferMoveRows | src/controllers/transactions/transactionsControllers.ts:220-233 | the write of a transfer logs one row from the sender's row to the receiver's, lowers the first and raises the second by \|value\| |
| LedgerProperties.ReverseRows | src/controllers/transactions/transactionsControllers.ts:361-362 | a successful reversal lowers the original's destination row and raises its source row by \|value\| |
| LedgerProperties.MoveCurrent | src/controllers/transactions/transactionsControllers.ts:232-233 | moving an amount between two users' rows moves their current balances by that amount |
| LedgerProperties.CurrentAfterAdjust | src/controllers/transactions/transactionsControllers.ts:101-102 | `CurrentBalance` after a relative update of a user's row: the user's current balance moves by exactly the delta |
| LedgerProperties.CreateRefusesOverdraft | src/controllers/transactions/transactionsControllers.ts:100-114 | `create` is refused exactly when a debit exceeds the user's balance (0 without a row); the answer is BALANCE_NEGATIVE and nothing changes |
| LedgerProperties.CreateEffects | src/controllers/transactions/transactionsControllers.ts:117-144 | a successful `create` appends one row: typed debit iff the value is negative, source = destination = the user's balance row; that row is created with 0 if absent and moves by the signed value when the user id is truthy; no other balance changes |
| LedgerProperties.CreateDebitStaysCovered | src/controllers/transactions/transactionsControllers.ts:100-144 | a successful debit through `create` leaves a non-negative balance |
| LedgerProperties.TransferRefusals | src/controllers/transactions/transactionsControllers.ts:183-217 | an unknown path account is refused with receiverAccount.notfound and nothing changes; otherwise the transfer is refused exactly when a negative value exceeds the sender's balance; a refused transfer logs nothing and changes no value, but may leave new zero rows |
| LedgerProperties.TransferLogsOneRow | src/controllers/transactions/transactionsControllers.ts:220-229 | a successful transfer appends one row: typed by the value's sign, from the sender's row to the row of the path account's owner, with `accountId` set to the sender's user id |
| LedgerProperties.TransferMovesBalances | src/controllers/transactions/transactionsControllers.ts:232-233 | when sender and receiver differ, the sender's current balance falls by \|value\| and the receiver's rises by \|value\|, also for a non-negative value; a transfer to oneself leaves the balance as it was |
| LedgerProperties.TransferKeepsSum | src/controllers/transactions/transactionsControllers.ts:232-233 | the sum of the sender's and the receiver's balances is unchanged |
| LedgerProperties.GetOrCreateExtends | src/controllers/transactions/transactionsControllers.ts:190-203 | get-or-create keeps every existing row; a row it adds holds 0 |
| LedgerProperties.CurrentBalanceExtends | src/controllers/transactions/transactionsControllers.ts:206 | zero rows added for other users do not change a user's current balance |
| LedgerProperties.ReverseRefusals | src/controllers/transactions/transactionsControllers.ts:314-344 | reverse.notfound for an unknown id, reverse.already when a reversal exists; otherwise it is refused exactly when the row to debit cannot cover \|v\| (the destination for a credit, the source for a debit); every refusal leaves the state unchanged |
| LedgerProperties.ReverseEffects | src/controllers/transactions/transactionsControllers.ts:347-362 | a successful reversal appends one row of the flipped type with the same value and rows, `reversedFromId` set to the id and `accountId` from the path; the destination loses \|v\| and the source gains \|v\| |
| LedgerProperties.ReverseOnlyOnce | src/controllers/transactions/transactionsControllers.ts:321-325 | once a reversal succeeded, reversing the same transaction again answers reverse.already and changes nothing |
| LedgerProperties.AtMostOneReversal | src/controllers/transactions/transactionsControllers.ts:321-325 | in every ledger the handlers keep, a transaction has at most one reversal |
| LedgerProperties.CreateThenReverseKeepsBalances | src/controllers/transactions/transactionsControllers.ts:347-362 | reversing a plain credit or debit leaves every balance as it was before the reversal, since its source and destination are the same row |
| LedgerProperties.TransferThenReverseRestores | src/controllers/transactions/transactionsControllers.ts:347-362 | a transfer followed by its reversal restores every balance row that existed before; rows the transfer created hold 0 again |
| LedgerProperties.AdjustRoundTrip | src/controllers/transactions/transactionsControllers.ts:361-362 | moving an amount from one row to another and back restores every row |
| LedgerProperties.ReverseDebitOverdrawsReceiver | src/controllers/transactions/transactionsControllers.ts:335-339 | as written: for a debit transfer the check reads the source row while the destination row is debited, so a reversal takes a non-negative ledger to a destination of −50 |
| LedgerProperties.ReverseCoveredKeepsNonNegative | src/controllers/transactions/transactionsControllers.ts:335-362 | with the corrected check, a successful reversal keeps every balance non-negative |
| LedgerProperties.ReverseCoveredAgrees | src/controllers/transactions/transactionsControllers.ts:335-339 | the corrected and as-written checks agree on credits and on every `create` row, whose source is its destination |
| Tables.Database.FindBalance | src/controllers/transactions/transactionsControllers.ts:394 | the lookup by user finds a row exactly when the user has one, and finds the user's only row |
| Tables.Database.GetOrCreateBalance | src/controllers/transactions/transactionsControllers.ts:117-123 | the table and the returned id are those of `Ledger.GetOrCreate` |
| Tables.Database.InsertTxn | src/controllers/transactions/transactionsControllers.ts:126-135 | the insert appends the row under the next id |
| Tables.Database.IncrementUser | src/controllers/transactions/transactionsControllers.ts:140-142 | `where({ userId }).increment` adds delta to every row of that user |
| Transactions.Create | src/controllers/transactions/transactionsControllers.ts:77-163 | the handler's answer and the new ledger tables are those of `Ledger.CreateSpec` |
| Transactions.Transfer | src/controllers/transactions/transactionsControllers.ts:168-252 | the handler's answer and the new ledger tables are those of `Ledger.TransferSpec`; the sender's balance is read before the receiver's row is created |
| Transactions.TransferWrite | src/controllers/transactions/transactionsControllers.ts:220-233 | insert, decrement and increment have the effect of `Ledger.TransferMove` |
| Transactions.FindTxn | src/controllers/transactions/transactionsControllers.ts:314 | finds a row exactly when one has the id, and it is that row |
| Transactions.Reverse | src/controllers/transactions/transactionsControllers.ts:310-381 | the handler's answer and the new ledger tables are those of `Ledger.ReverseSpec` |
| Transactions.ReverseWrite | src/controllers/transactions/transactionsControllers.ts:346-362 | insert, decrement and increment have the effect of `Ledger.ReverseMove` |
| Transactions.Update | src/controllers/transactions/transactionsControllers.ts:257-285 | the answer and the new tables are those of `Ledger.UpdateSpec`, whose contract says which rows are rewritten and when the id is answered |
| Transactions.Delete | src/controllers/transactions/transactionsControllers.ts:290-305 | the new tables are those of `Ledger.DeleteSpec` |
| Transactions.GetBalance | src/controllers/transactions/transactionsControllers.ts:382-413 | balance.account.notfound for an unknown account, balance.notfound when its owner has no row, else the owner's current balance; it changes nothing |
| Transactions.Show | src/controllers/transactions/transactionsControllers.ts:51-72 | show.notfound exactly when no row has the id, else that row's id, value and description |
| Transactions.Matching | src/controllers/transactions/transactionsControllers.ts:26-32 | `Matches` applied to the table: the listed rows are exactly the table's rows that pass the account and type filters |
| Transactions.MatchingAppend | src/controllers/transactions/transactionsControllers.ts:26-32 | filtering keeps table order and each row once: it distributes over concatenation |
| Transactions.NewRowListedLast | src/controllers/transactions/transactionsControllers.ts:24-27 | a newly logged row that passes the filters is the last matching row, so it heads the first page |
| Transactions.NewestFirstInvolution | src/controllers/transactions/transactionsControllers.ts:24 | ordering newest first twice gives back table order |
| Transactions.NewestFirstPermutes | src/controllers/transactions/transactionsControllers.ts:24 | ordering newest first neither loses nor duplicates a row |
| Transactions.Slice | src/controllers/transactions/transactionsControllers.ts:37 | `limit/offset`: at most `limit` rows, the rows from `offset` on, and none past the end |
| Transactions.Index | src/controllers/transactions/transactionsControllers.ts:15-46 | as written over `parsePagination`: 400 transactions.index.nok exactly when the offset is negative (a page strictly between 0 and 1); otherwise `meta.total` counts every matching row, `totalPages` is ⌈total/limit⌉ (0 and no rows for limit 0), and the page holds the matching rows newest first from the offset, as many as the limit allows |
| Transactions.Page | src/controllers/transactions/transactionsControllers.ts:37-39 | the data query and `makeMeta` for an accepted window list that page of the matching rows |
| Transactions.IndexClamped | src/controllers/transactions/transactionsControllers.ts:15-46 | corrected listing over the clamped pagination: every query is answered, with a page size of at least 1 |
| Transactions.FractionalPageFailsIndex | src/controllers/transactions/transactionsControllers.ts:37-44 | as written, a page of 0.5 makes the listing answer 400 |
| Transactions.IndexAgreesOutsideUnitInterval | src/controllers/transactions/transactionsControllers.ts:15-46 | outside the unit interval the corrected listing is the listing as written |
| Transactions.IndexRowsMatch | src/controllers/transactions/transactionsControllers.ts:26-27 | `Matches`: every row of an answered listing is a table row that passes both filters |
| Transactions.RowOnItsPage | src/controllers/transactions/transactionsControllers.ts:37 | paging through: the k-th row appears on page k/limit + 1 at position k mod limit |
| Transactions.TypeFilterIgnoresCase | src/controllers/transactions/transactionsControllers.ts:18 | `DEBIT` filters as `debit`; an empty type does not filter |
| Transactions.ToLowerIdempotent | src/controllers/transactions/transactionsControllers.ts:18 | lower-casing a lower-cased type changes nothing |
| Transactions.TypeFilterCaseInsensitive | src/controllers/transactions/transactionsControllers.ts:18-27 | `Matches` with the type filter does not see case: spellings that lower-case alike select the same rows |
| Pagination.ParsePagination | src/utils/pagination.ts:1-13 | as written: a non-finite or non-positive page is 1, else it is floored; a non-finite or non-positive limit is 10, else it is min(floor, 100); offset = (page − 1)·limit |
| Pagination.NewNamesWin | src/utils/pagination.ts:3-4 | given `currentPage` and `itemsPerPage`, the legacy `page` and `limit` play no part; alone, the legacy names act as the new ones |
| Pagination.FractionalPageGivesNegativeOffset | src/utils/pagination.ts:9-11 | a page of 0.5 gives page 0 and offset −10; a limit of 0.5 gives limit 0 |
| Pagination.ParsePaginationClamped | src/utils/pagination.ts:9-11 | corrected: page ≥ 1, limit in [1, 100], and the offset is a non-negative whole number of pages |
| Pagination.OffsetIsWholePages | src/utils/pagination.ts:11 | (page − 1)·limit is a non-negative multiple of limit, with quotient page − 1 |
| Pagination.ClampedAgreesOutsideUnitInterval | src/utils/pagination.ts:9-10 | the correction changes only pages and limits strictly between 0 and 1 |
| Pagination.MakeMeta | src/utils/pagination.ts:15-18 | echoes total, page and perPage; totalPages is ⌈total/limit⌉ for a positive limit, else 0 |
| Pagination.CeilDiv | src/utils/pagination.ts:16 | c is the least integer with total ≤ c·limit |
| Pagination.TestExpectations | src/utils/pagination.ts:1-18 | defaults give page 1, limit 10, offset 0; new names beat legacy names; makeMeta(30, 2, 10) has 3 pages |
| Auth.RowsOf | src/controllers/auth/authController.ts:61 | the rows of one user are exactly the table's rows with that user id |
| Auth.WithoutUser | src/controllers/auth/authController.ts:61 | after the delete, a row remains exactly when it belongs to another user |
| Auth.Relogin | src/controllers/auth/authController.ts:61-67 | after a login the table holds the new refresh token last, and otherwise exactly the other users' rows |
| Auth.WithoutToken | src/controllers/auth/authController.ts:146 | after the delete, a row remains exactly when its token differs |
| Auth.RowsOfAppend | src/controllers/auth/authController.ts:64-67 | a user's rows in an extended table are their old rows followed by the new ones |
| Auth.RowsOfWithoutUser | src/controllers/auth/authController.ts:61 | deleting one user's rows empties that user's rows and keeps every other user's rows in order |
| Auth.LoginKeepsOneToken | src/controllers/auth/authController.ts:61-67 | after a login the user holds exactly one refresh token, the new one; every other user's rows are as before |
| Auth.LogoutKeepsOthersInOrder | src/controllers/auth/authController.ts:146 | a logout keeps, in order, every row whose token differs |
| Auth.LoggedOutTokenIsNotStored | src/controllers/auth/authController.ts:146 | after a logout the token is not stored, so `refresh` refuses it |
| Auth.WithoutPassword | src/controllers/auth/authController.ts:40 | the signed user data has no password field and keeps every other field |
| Auth.WithoutTimes | src/controllers/auth/authController.ts:113-117 | the re-signed payload has no `iat` and no `exp`, and keeps every other claim |
| Auth.LoginPayloadShape | src/controllers/auth/authController.ts:23-40 | the login payload is exactly id, name and document |
| Auth.Login | src/controllers/auth/authController.ts:18-82 | user.notfound exactly when no user has the document; any other error is login.nok, only for a user with that document whose password does not match; a login succeeds when users with the document exist and all match the password; no error touches the token table; on success both tokens are signed over the password-less user data, and the table is the old one minus the user's rows plus the new refresh token; the database invariant is kept |
| Auth.Refresh | src/controllers/auth/authController.ts:87-137 | 400 user.refresh.error for a missing token (the lookup throws); user.refresh.nok (status 200) for an empty or unstored token; user.refresh.expired (401) for an expired token; user.refresh.error (400) for another failure; otherwise an access token signed over the payload without `iat`/`exp`; it changes nothing |
| Auth.Logout | src/controllers/auth/authController.ts:142-154 | the table loses exactly the rows holding that token |
| Auth.TrimStart | src/controllers/auth/authController.ts:176 | drops exactly the leading white space |
| Auth.TrimEnd | src/controllers/auth/authController.ts:176 | drops exactly the trailing white space |
| Auth.Trim | src/controllers/auth/authController.ts:176 | the result is an infix between white space, neither starting nor ending with white space |
| Auth.TrimKeeps | src/controllers/auth/authController.ts:176 | a string that neither starts nor ends with white space is kept |
| Auth.TrimStartSkips | src/controllers/auth/authController.ts:176 | leading white space is skipped whatever follows it |
| Auth.TrimEndSkips | src/controllers/auth/authController.ts:176 | trailing white space is dropped whatever precedes it |
| Auth.TrimPadded | src/controllers/auth/authController.ts:176 | any white space before and after a token is trimmed away |
| Auth.BearerHeader | src/controllers/auth/authController.ts:168 | the lower-case header wins when non-empty, else the capitalised one when non-empty; there is no header exactly when both are absent or empty |
| Auth.Authenticate | src/controllers/auth/authController.ts:159-188 | bypass makes the user `{id: 1}`; a missing header or one not starting with "Bearer " gives 401 authorization.required; otherwise the header after its 7th character, trimmed, is verified: a verified token reaches next with its payload, an expired one answers 401 authorization.expired, any other failure 401 authorization.fail |
| Auth.BearerTokenIsVerified | src/controllers/auth/authController.ts:176-187 | for "Bearer " + token the token itself is verified: next with its payload, 401 authorization.expired, or 401 authorization.fail |
| Auth.PaddedBearerToken | src/controllers/auth/authController.ts:176 | white space of any kind and length around the token does not change the outcome |
| Users.NormaliseDocument | src/controllers/user/userController.ts:78 | the result contains no `.` or `-` and only characters of the input |
| Users.NormaliseAppend | src/controllers/user/userController.ts:78 | normalisation distributes over concatenation |
| Users.NormaliseKeeps | src/controllers/user/userController.ts:78 | a document without separators is kept unchanged |
| Users.NormaliseIdempotent | src/controllers/user/userController.ts:136 | normalising twice is normalising once |
| Users.SeparatorIsIgnored | src/controllers/user/userController.ts:78 | inserting a `.` or `-` anywhere does not change the normalised document |
| Users.CpfVerdicts | src/controllers/user/userController.ts:109 | only a boolean `true` counts as a valid flag; status 1 also accepts; a failed response never accepts |
| Users.CpfValid | src/controllers/user/userController.ts:109 | a verdict accepts only a response that arrived ok |
| Users.CpfValidIsStrict | src/controllers/user/userController.ts:109 | `valid === true` is strict: any other `valid` counts as absent, and then only status 1 accepts |
| Users.CreateUser | src/controllers/user/userController.ts:75-130 | the CPF is checked unless bypassed (create.nok, create.cpf.invalid; nothing inserted then); success inserts one user with the normalised document and the hashed password, and one balance row of value 0 for that user, keeping one balance row per user |
| Users.NewUserHasZeroBalance | src/controllers/user/userController.ts:112-126 | a new user's current balance is 0, in its only balance row |
| Users.BuildPatch | src/controllers/user/userController.ts:148-151 | the patch holds exactly the non-empty supplied fields: the name, the document normalised, the hashed password |
| Users.ApplyPatch | src/controllers/user/userController.ts:153 | the patch writes its fields and keeps the others |
| Users.PatchKeepsOmittedFields | src/controllers/user/userController.ts:148-153 | a field left out of the body keeps its stored value |
| Users.UpdateUser | src/controllers/user/userController.ts:133-158 | the CPF check runs only when a non-empty normalised document is given and the check is not bypassed, answering update.nok or update.cpf.invalid; an empty patch answers update.nok; otherwise the patch is written to the user with that id; the database invariant is kept |
| Cards.Last4 | src/controllers/cards/cardsControllers.ts:14 | the masked number is the suffix of length min(4, length) |
| Cards.Last4Idempotent | src/controllers/cards/cardsControllers.ts:14 | masking a masked number changes nothing |
| Cards.Last4SeesOnlyTheEnd | src/controllers/cards/cardsControllers.ts:14 | numbers with the same last four characters mask alike |
| Cards.IndexCards | src/controllers/cards/cardsControllers.ts:5-17 | same number of cards in the same order; each number masked; every other field kept |
| Cards.IndexHidesNumbers | src/controllers/cards/cardsControllers.ts:12-15 | no listed number is longer than four characters, and each is the end of the stored number |
| Cards.CardsOf | src/controllers/cards/cardsControllers.ts:31-33 | exactly the cards of that account |
| Cards.CardsOfAppend | src/controllers/cards/cardsControllers.ts:31-33 | selecting by account keeps table order and each card once: it distributes over concatenation |
| Cards.CreatedCardShownLast | src/controllers/cards/cardsControllers.ts:31-33 | a created card is shown after its account's earlier cards |
| Cards.Ids | src/controllers/cards/cardsControllers.ts:41 | `relatedIds` holds the returned cards' ids in the same order |
| Cards.ShowCards | src/controllers/cards/cardsControllers.ts:27-50 | as written: card.show.notfound exactly when the account has no card; otherwise the account's cards, in order, with their full numbers, and their ids |
| Cards.ShowRevealsFullNumber | src/controllers/cards/cardsControllers.ts:31-43 | a 16-digit number is answered whole by `show` |
| Cards.ShowCardsMasked | src/controllers/cards/cardsControllers.ts:27-50 | corrected: the same cards and ids, with every number masked to at most four characters |
| Cards.MaskedShowListsSameCards | src/controllers/cards/cardsControllers.ts:35-43 | the corrected `show` fails exactly when the original does, with the same `relatedIds` |
| Cards.Create | src/controllers/cards/cardsControllers.ts:52-93 | the full number is stored under the next id; only its last four characters are answered |
| Cards.Update | src/controllers/cards/cardsControllers.ts:96-132 | the rows with that id are patched and all other rows are kept; the answer holds the id if a row matched, and the masked number only when a non-empty number was supplied |
| Cards.PatchCardLaterWins | src/controllers/cards/cardsControllers.ts:104-113 | an empty body changes nothing; patching twice with the same body is patching once; a full later patch overrides an earlier one |
| Cards.WithoutCard | src/controllers/cards/cardsControllers.ts:139-141 | after the delete, a row remains exactly when its id differs |
| Cards.Delete | src/controllers/cards/cardsControllers.ts:135-150 | the table loses exactly the rows with that id |
| Cards.DeleteHidesCard | src/controllers/cards/cardsControllers.ts:139-141 | after a delete, `show` lists the account's other cards in order, without the deleted one |

## Left out

- Concurrency and isolation. The ledger handlers issue separate awaited
  queries, not one database transaction. Each handler is modelled as one
  sequential method, and nothing is claimed against concurrent callers.
- Database constraints are not modelled as guarantees. This covers:
  - the `checkPositive` check of one balance migration;
  - the unique document of `users`;
  - foreign keys and cascades;
  - the `cards` enum and the one-physical-card index;
  - the `cards.userId` NOT NULL column, which `create` does not fill.

  Where such a constraint would make a query throw, the model follows the
  handler code. The transfer's credit path is therefore not claimed to keep
  balances non-negative.
- Decimal and `Number(...)` conversions. Money values are integer cents and
  pagination inputs are already-converted numbers, with a non-finite case.
  `Number(result.data.status)` is an input of the CPF answer. The lower-casing
  of the type filter covers ASCII letters only.
- knex refusing `undefined` bindings (a `where` on a missing body field throws
  and reaches the handler's catch) is modelled only for `refresh`'s token.
  Elsewhere missing fields are absent `Option`s, or are assumed present.
- `reverseTransaction` has no error handling, so a transaction whose balance
  rows are missing would crash it. Those rows exist under the ledger invariant.
- Transactions.Create, Transactions.Transfer: the acting user is assumed to be
  an issued user (`actor < nextUserId`). With `TEST_BYPASS_AUTH` the actor is
  user 1 whatever users exist, and a token outlives a deleted user; the source
  then fails the balance insert on its foreign key and answers 400
  transactions.create.nok, which is not modelled.
- Ledger.ReversalNote writes the canonical decimal of the reversed id, while the
  handler interpolates the raw path parameter, so a path of "05" gives a
  description ending in "05" where the model has "5".
- `createdAt` is not stored. Newest first is reverse insertion order, and the
  order of `show` on cards is table order.
- The network calls (`getSystemToken`, the CPF validation `fetch`), bcrypt and
  JSON Web Tokens. The compliance answer is an input. Hashing, signing,
  verifying and the password comparison are function parameters. The salt
  (`Number(SALT) || 10` in the bypass branch) is not modelled.
- The user listing, showing and deletion handlers, `accountControllers.ts` and
  `authControllerSystem.ts` have no logic beyond pass-through queries and are
  not part of this model.
- Each catch block's `detail` object (database error code, constraint name) is
  not modelled. The envelope keeps the message and, where the code sets one, a
  detail code.
- Transactions.Show, Cards.IndexCards: the `createdAt`/`updatedAt` columns are
  not part of the answer.

## Findings

| source | as written | input that shows it | evidently intended | confidence | as-written member | corrected member |
|---|---|---|---|---|---|---|
| src/utils/pagination.ts:9-11 | a page or limit strictly between 0 and 1 passes the `> 0` guard and floors to 0 | `currentPage=0.5` gives page 0 and offset −10; `itemsPerPage=0.5` gives limit 0 (and `makeMeta` then reports 0 pages) | page ≥ 1, limit ≥ 1, offset a non-negative multiple of the limit | high (not executed) | Pagination.FractionalPageGivesNegativeOffset, Transactions.FractionalPageFailsIndex | Pagination.ParsePaginationClamped, Transactions.IndexClamped |
| src/controllers/cards/cardsControllers.ts:31-43 | `show` selects and answers the full card `number` | a card numbered 4111111111111111 is answered with all 16 digits | only the last four digits leave the API, as in `index`, `create` and `update` and as the `cards` migration's column comment says | medium (not executed) | Cards.ShowCards, Cards.ShowRevealsFullNumber | Cards.ShowCardsMasked |
| src/controllers/transactions/transactionsControllers.ts:335-339 | a debit is checked against its source row, but the reversal always debits the destination row (:361) | a transfer of −50 from user 10 (row 1) to account 7 of user 20 (row 2); user 20 spends the 50 and user 10 is credited back to 100; reversing the transfer passes the check on row 1 and leaves row 2 at −50 | the row the reversal debits must cover the amount | medium (not executed) | LedgerProperties.ReverseDebitOverdrawsReceiver | Ledger.ReverseSpecCovered, LedgerProperties.ReverseCoveredKeepsNonNegative |
