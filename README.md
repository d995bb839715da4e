# Ledger transaction service, modelled in Dafny

The system holds one wallet per user and lets the user deposit into it or
withdraw from it. Each call carries an idempotency key, so a client that
retries a request gets the same transaction back and the balance moves once.
This project models the core of that service:

- the two tables (`Wallet`, `Transaction`) with their enums, 8-place decimal
  columns and the (user, idempotency key) uniqueness constraint;
- the amount validator, the key-length rule and the 8-place rendering of
  stored amounts;
- the `deposit` and `withdraw` units of work.

Modules, one per source file, plus two helpers:

- `Wrappers` holds `Option` and `Result`.
- `Decimals` models Python's `Decimal` as a coefficient and a scale, and parses
  text on the grammar described under "Left out".
- `Models` (ledger/models.py) holds the record type, the enums, the column
  constants, the lookup `Find` (`filter(...).first()`), the newest-first
  `History`, the net effect `Net` of a user's records, and the table
  predicates `UniqueKeys` and `IdsArePositions`. Amounts and balances are
  integer counts of 10^-8 ("units").
- `Serializers` (ledger/serializers.py) holds `ValidateAmount`, `ValidateKey`
  and `Render`, with the round trip from rendered text back to the stored
  value.
- `Services` (ledger/services.py) holds two things. `DepositStep` and
  `WithdrawStep` are pure functions from a `Store` (balances and log) to the
  new store and the outcome. The class `Ledger` holds the two tables as fields
  and updates them step by step, as the source does: fast path, wallet read,
  balance write, insert with its duplicate-key fallback, and the atomic
  rollback. Each of its methods is proved equal to the matching step
  function. Lemmas over the step functions, and over `Run` (any sequence of
  calls), state the service's guarantees.

Each call is one sequential, all-or-nothing step. When `InsufficientFunds` is
raised inside the `@db_tx.atomic` block of `withdraw`, the whole step is
undone, including the FAILED record inserted just before. The code is written
this way, so the class follows it. The design it describes keeps the FAILED
record, so that a retry returns that record. The model takes the code's side
here; see "Findings". The step functions take a `FailurePolicy`: `RolledBack`
is the code as written and `Persisted` is the behaviour its comment describes.
Every invariant lemma is proved for both.

## Model

| member | source | states |
|---|---|---|
| `Models.KindLabel` | ledger/models.py:15-17 | the type column holds "deposit" exactly for deposits and "withdraw" exactly for withdraws |
| `Models.StatusLabel` | ledger/models.py:19-21 | the status column holds "success" exactly for successes and "failed" exactly for failures |
| `Models.ToUnits` | ledger/models.py:29 | a decimal with at most 8 fractional digits converts to units exactly (units × 10^scale = coefficient × 10^8); positive exactly when the decimal is positive; undefined beyond 8 places |
| `Models.FindIndex` | ledger/services.py:21 | the position returned is the first record matching (user, key), or the log length when no record matches |
| `Models.Find` | ledger/services.py:49 | the lookup returns nothing exactly when no record has (user, key), and otherwise a record of the log with that user and key |
| `Models.FindUnique` | ledger/models.py:35-37 | under the uniqueness constraint, looking up a record's own (user, key) yields that record |
| `Models.FindExtend` | ledger/services.py:49-51 | appending records never changes what a key already found; a key not yet present is looked up among the appended records |
| `Models.History` | ledger/views.py:22-23 | a user's listing holds exactly that user's records and no more records than the log |
| `Models.HistoryNewestFirst` | ledger/views.py:23 | the listing is in strictly decreasing id order, i.e. newest first |
| `Serializers.AmountErrorMessage` | ledger/serializers.py:26-29 | the two rejections carry "Invalid decimal amount." and "Amount must be > 0." |
| `Serializers.ValidateAmount` | ledger/serializers.py:23-30 | rejected as invalid exactly when the text does not parse; rejected as not positive exactly when it parses to a value ≤ 0; otherwise accepted as the parsed decimal itself, which is positive |
| `Serializers.AcceptedExamples` | ledger/tests_old.py:44-53 | "1.5" and "10.5" are accepted, kept with their written scale |
| `Serializers.RejectedExamples` | ledger/tests_old.py:76-82 | "0" and "-3" are refused as not positive; "abc", "" and "." as invalid |
| `Serializers.ValidateKey` | ledger/serializers.py:36 | a key is accepted, unchanged, exactly when it has at most 128 characters |
| `Serializers.Render` | ledger/serializers.py:14-17 | a stored amount or balance is shown with a point followed by exactly 8 digits |
| `Serializers.RenderParses` | ledger/models.py:29 | the shown text parses back to the stored value with scale 8 |
| `Serializers.RenderRoundTrip` | ledger/models.py:8 | storing the shown text of a value gives the same value back |
| `Serializers.ValidateRendered` | ledger/serializers.py:23-30 | the validator accepts the shown text of any positive stored value, as that value |
| `Serializers.RenderFitsColumn` | ledger/models.py:8 | a value that fits a 20-digit, 8-place column is shown with at most 12 whole digits and 8 fractional ones |
| `Serializers.RenderExamples` | ledger/tests_old.py:38-53 | "1.5" is stored as 150000000 units and shown as "1.50000000"; 10.5 is shown as "10.50000000" |
| `Serializers.NewWalletRendering` | ledger/tests_old.py:27-30 | a new wallet's balance is shown as "0.00000000" |
| `Services.OpenWalletStep` | ledger/models.py:7-8 | a wallet is created only for a user with none, with balance 0; a second wallet is refused and changes nothing |
| `Services.Apply` | ledger/services.py:25 | no call creates or removes a wallet |
| `Services.MissingKeyRejected` | ledger/services.py:17-18 | an empty key makes both deposit and withdraw fail with the missing-key error, with balances and log unchanged (also lines 46-47) |
| `Services.ExistingKeyReturned` | ledger/services.py:20-23 | a key that has a record returns that record and changes nothing, whatever the operation, amount or balance (also lines 49-51) |
| `Services.DepositFreshKey` | ledger/services.py:25-42 | a fresh-key deposit adds exactly the amount to the user's balance and appends exactly one deposit/success record with that amount and key, which it returns and which the key now finds |
| `Services.WithdrawSufficient` | ledger/services.py:70-85 | a fresh-key withdraw within the balance subtracts exactly the amount and appends one withdraw/success record, which it returns |
| `Services.WithdrawInsufficient` | ledger/services.py:55-68 | a fresh-key withdraw above the balance raises InsufficientFunds and changes no balance; as written the log is unchanged, and under the intended policy exactly one withdraw/failed record is appended |
| `Services.StepAppendsAtMostOne` | ledger/services.py:25-40 | a call either changes nothing, or appends one record under a key the caller had not used, carrying the call's user, key, amount and the next id, keeps every earlier record, and moves only the caller's balance, by exactly that record's effect |
| `Services.StepIsolation` | ledger/services.py:21-25 | a call leaves every other user's balance and record listing unchanged |
| `Services.RetryReturnsSameRecord` | tests/test_ledger.py:10-25 | after a call returns a record, a second call with the same user and key returns the same record and leaves the state unchanged, so the same id is returned and the balance moves once |
| `Services.StepIdempotent` | ledger/tests_old.py:58-74 | repeating the same call on the state it produced changes nothing |
| `Services.RepeatedCallAppliesOnce` | ledger/tests_old.py:113-133 | sending the same call n ≥ 1 times leaves the state the first call produced |
| `Services.AsWrittenShortWithdrawIsForgotten` | ledger/services.py:44-68 | as written, a short withdraw leaves the state unchanged, so after a later deposit the same key's retry succeeds |
| `Services.PersistedFailureIsTerminal` | ledger/services.py:55-65 | with the failed record kept, any later retry with that key, after any calls, returns that failed record and changes nothing |
| `Services.OpenWalletKeepsConsistent` | ledger/models.py:7-8 | opening a wallet keeps the store invariant, and a new wallet's balance is 0 |
| `Services.StepKeepsConsistent` | ledger/models.py:35-37 | every call keeps the store invariant: unique (user, key), ids in insertion order, records only for users with wallets, and each balance equal to the net of the user's successful records |
| `Services.RunKeepsConsistent` | ledger/services.py:15-85 | the store invariant holds after any sequence of calls, so every key has at most one record and every balance change is backed by exactly one success record |
| `Services.StepKeepsNonNegative` | ledger/services.py:55-71 | with a positive amount, no call turns a non-negative balance negative |
| `Services.RunKeepsNonNegative` | ledger/services.py:55 | from non-negative balances, positive amounts keep every balance non-negative through any sequence of calls |
| `Services.RunKeepsRecords` | ledger/services.py:49-51 | the log only grows, and a key that has a record keeps exactly that record through any later calls (unseen → one terminal record) |
| `Services.DepositThenWithdrawScenario` | tests/test_ledger.py:34-44 | depositing 5 and then withdrawing 2 leaves a balance of 3 and two success records, the withdraw listed first |
| `Services.Ledger.constructor` | ledger/models.py:6-37 | the tables start empty and satisfy the store invariant |
| `Services.Ledger.OpenWallet` | ledger/models.py:6-8 | creates the wallet as `OpenWalletStep` does and keeps the invariant |
| `Services.Ledger.Create` | ledger/services.py:29-40 | inserts the next record unless (user, key) is taken, in which case it reports the existing record and leaves the log unchanged; balances are untouched |
| `Services.Ledger.Deposit` | ledger/services.py:15-42 | updates the tables and returns exactly as `DepositStep` does, keeping the invariant |
| `Services.Ledger.Withdraw` | ledger/services.py:44-85 | updates the tables and returns exactly as `WithdrawStep` does with the rollback of the code as written, keeping the invariant |

## Left out

- HTTP routing, views, status codes and the header lookup `_get_idempotency_key`
  (including its whitespace trimming) are not modelled. The service receives
  the key as given. Python's `None` key is modelled as the empty string.
- Concurrency is not modelled: the `select_for_update` row lock and the race
  that makes the `IntegrityError` fallback reachable. Each call is one
  sequential step. The fallback branch is kept in `Services.Ledger.Create` and
  in the class methods. In the sequential model the fast path has already
  ruled it out.
- The database's behaviour after an `IntegrityError` inside `atomic`
  (savepoints, a broken transaction) is not modelled.
- Wallet creation is not part of the service; `Wallet.objects.get` assumes the
  wallet exists. `Deposit` and `Withdraw` therefore require the user to have a
  wallet, and the missing-wallet exception is not modelled. `OpenWallet`
  models only the table's default balance and its one-to-one rule.
- Serializers.ValidateAmount: accepts only the grammar
  `[+|-] digits [. [digits]]` or `[+|-] . digits`. It rejects text that
  Python's `Decimal` accepts: surrounding whitespace, exponents, underscores,
  non-ASCII digits, `Infinity` and `NaN`. Python would accept `Infinity`,
  and `NaN` would raise on the comparison.
- The framework's `CharField` defaults are not modelled: trimming whitespace and
  refusing blank text before `validate_amount` runs and for the key field.
- Models.ToUnits: a decimal with more than 8 fractional digits is rounded by
  the database column on save. The model leaves this case undefined, and the
  service takes its amount already in units.
- The column widths (20 digits for balance and amount, 128 characters for the
  key) are not enforced by the service's code. Whether an overlong value is
  refused depends on the database backend. The model states them as the
  predicates `FitsDecimalColumn` and `FitsKeyColumn` and in `ValidateKey` and
  `RenderFitsColumn`, but the store invariant does not include them.
- `DepositWithdrawSerializer` (the 128-character key) is declared, but the
  shown views do not use it. It is modelled only as `ValidateKey`.
- `created_at` is not modelled. A record's position in the log stands for its
  time, and the listing is ordered newest first by that position.
- The wallet foreign key of a record is not modelled. Each user has one wallet,
  so the record's user determines it.
- Ids are positions in the log. A rolled-back insert gives its id back. On a
  database whose id sequence is not transactional, that id would be skipped
  instead.
- Services.Ledger.Withdraw: implements only the rollback of the code as
  written. The intended policy, where failed records persist, exists only in
  the pure step functions.
- The `__str__` methods, the admin screens, and deleting users (cascading to
  their wallet and records) are not modelled.

## Findings

| source | as written | input that shows it | evidently intended | confidence | as-written member | corrected member |
|---|---|---|---|---|---|---|
| ledger/services.py:44-68 | `InsufficientFunds` is raised inside the `@db_tx.atomic` function, so the FAILED record inserted at lines 58-65 is rolled back, despite the comment at line 56 and views.py:42-44. | A user with balance 0 withdraws 100 units under "wd-1", then deposits 200 under "dep-1", then retries the withdraw under "wd-1". The retry succeeds and leaves balance 100, where a FAILED record for "wd-1" should have been returned. | The FAILED record persists and closes the key, so any retry returns it without checking the balance again. | not executed | `Services.AsWrittenShortWithdrawIsForgotten` | `Services.PersistedFailureIsTerminal` |

Every invariant lemma in `Services` (consistency, non-negativity, records kept,
idempotence, isolation) is proved for both policies. The `Ledger` class
follows the source text, so it uses the as-written policy.
