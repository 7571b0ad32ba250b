# Peer-recognition credit ledger, in Dafny

A model of the credit ledger of a small peer-recognition service for
students. Every student has two balances:

- **sending credits**: what they may give away. A new student starts with 100.
- **redeemable credits**: what they have received. They can turn these into a voucher worth 5 per credit.

A **recognition** moves credits from one student's sending balance to another
student's redeemable balance. Any student may **endorse** a recognition, once.
A monthly job resets every sending balance to 100 plus the unused balance,
with at most 50 carried over. A **leaderboard** ranks the students who
received credits.

The model has four modules:

- `Records` (`records.dfy`): the three tables of `src/models.py`. It holds
  the record shapes, the column defaults, the uniqueness constraints, lookup
  by primary key and the cascade that deletes a recognition's endorsements.
- `LedgerSpec` (`ledger_spec.dfy`): the database as a value (`Store`). It
  defines `WellFormed`, the integrity the schema and the endpoints maintain,
  and one step function per endpoint of `src/app.py`. A step returns the new
  store and either the result or an error: `Validation`, `NotFound`,
  `Conflict`, `InsufficientBalance` or `Internal`. A failed step returns the
  store unchanged, which is how the model states that a transaction rolled
  back. `HttpStatus` maps each error to its status code; an insufficient
  balance is a 400, the same as malformed input. Lemmas prove that every step
  keeps `WellFormed`, and they prove the conservation, reset and endorsement
  properties.
- `Leaderboard` (`leaderboard.dfy`): the aggregation query of
  `get_leaderboard`, as a pure function with its ordering, cut-off and
  completeness proved.
- `App` (`app.dfy`): the endpoints as methods of a `Ledger` class. Its fields
  are the tables and their key counters, and the methods update them in place.
  Each method is proved to produce exactly the step function's store and
  result, and to keep `WellFormed`. The reset loop is the method
  `ComputeReset`.

Request fields are `Json<T>`: `Absent`, `Null` or `Present(v)`. The
endpoints test fields with Python's `not all([...])`, which `Truthy` models:
a missing field, `null` and the number 0 all count as missing. So an id or
amount of 0 gets `Validation`, never `NotFound`. Keys start at 1, so 0 is
never a real key.

Where the code differs from the service's design description, the model
follows the code:

- `create_student` checks only that the `username` and `email` keys are
  present. A `null` value reaches the NOT NULL constraint, and the resulting
  IntegrityError is answered with 409, as for a duplicate. The model returns
  `Conflict`, not `Validation`.
- The leaderboard's `limit` goes straight into SQLite's LIMIT. A negative
  limit therefore means no limit (`Truncate`). A missing or non-integer
  `limit` means 10.

## Model

| member | source | states |
|---|---|---|
| `Records.NewStudent` | src/models.py:6-11 | A new student row has the given id, username and email, 100 sending credits and 0 redeemable credits |
| `Records.FindRecognition` | src/app.py:171 | Lookup by primary key gives nothing exactly when no recognition has that key; otherwise it gives a row of the table with that key |
| `Records.DeleteRecognition` | src/models.py:36 | Deleting a recognition removes its row and every endorsement of it, keeps every other recognition and endorsement, and adds no row of its own |
| `LedgerSpec.CreateStudent` | src/app.py:59-73 | A missing key is Validation. With both keys given, a `null` value or a username or email already taken is Conflict (the 409 of the IntegrityError). The call succeeds exactly when both values are present and neither is taken. A failure leaves the store unchanged. On success exactly one student is added, under the next key, with the defaults |
| `LedgerSpec.CreateStudentPreservesWellFormed` | src/models.py:7-11 | Creating a student keeps usernames and emails unique and balances non-negative, and leaves every existing student unchanged |
| `LedgerSpec.InsufficientBalanceIsBadRequest` | src/app.py:125-140 | An insufficient balance gets the same status, 400, as a malformed request; an unknown id gets 404 and a conflict 409 |
| `LedgerSpec.CreateRecognition` | src/app.py:115-157 | A failed transfer changes nothing. A transfer succeeds exactly when it passes every check: valid fields, both students exist, and the sender holds at least the amount. A successful transfer debits the sender's sending credits by exactly the amount and credits the receiver's redeemable credits by exactly the amount. It appends one recognition with those ids, that amount and the message, and changes no other student |
| `LedgerSpec.CreateRecognitionOutcome` | src/app.py:124-140 | Which error a transfer gets, as an if-and-only-if per error. Validation: a field is missing or 0, the amount is not positive, or sender equals receiver. Then NotFound: an unknown sender or receiver. Then InsufficientBalance: the sender holds less than the amount. A request passing all of these is Ok. Any failure leaves the store unchanged |
| `LedgerSpec.TransferConservesCredits` | src/app.py:139-144 | After a successful transfer the sender's sending balance is still non-negative. The sender's sending plus the receiver's redeemable credits are the same as before |
| `LedgerSpec.CreateRecognitionPreservesWellFormed` | src/app.py:142-153 | A transfer keeps balances non-negative and keys increasing. Every recognition still joins two different existing students with a positive amount, and every endorsement still points at existing rows |
| `LedgerSpec.CreateEndorsement` | src/app.py:160-186 | An if-and-only-if per error. Validation: a missing or 0 field. NotFound: an unknown endorser or recognition. Conflict: the pair already exists. A request passing all three checks is Ok. A failure changes nothing; a success appends exactly one endorsement for the pair, which did not exist before and exists after |
| `LedgerSpec.EndorseTwiceConflicts` | src/app.py:176-186 | An existing student endorsing an existing recognition for the first time succeeds, with the next key. The identical request then fails with Conflict and changes nothing |
| `LedgerSpec.CreateEndorsementPreservesWellFormed` | src/models.py:48-57 | Endorsing keeps the pair (endorser, recognition) unique and keeps every endorsement's references valid |
| `LedgerSpec.RedeemCredits` | src/app.py:189-221 | An if-and-only-if per error. Validation: a missing or 0 field, or an amount that is not positive. NotFound: an unknown student. InsufficientBalance: the amount exceeds the redeemable credits. A request passing all of these is Ok. A failure changes nothing. A success gives a voucher of amount × 5 and lowers that student's redeemable credits by the amount, never below 0, and changes nothing else |
| `LedgerSpec.RedeemCreditsPreservesWellFormed` | src/app.py:206-212 | Redeeming keeps every balance non-negative and all other integrity |
| `LedgerSpec.ResetMonthlyCredits` | src/app.py:33-48 | The reset fails exactly when the commit fails, and then nothing changes. On success it reports the number of students. Every student's sending credits become 100 + min(old, 50), the other fields of every student stay as they were, and the other tables are untouched |
| `LedgerSpec.ResetBounds` | src/app.py:41-43 | After a reset every sending balance is between 100 and 150 |
| `LedgerSpec.ResetTwiceSaturates` | src/app.py:41-43 | Two resets in a row leave every student with 150 sending credits |
| `LedgerSpec.ResetMonthlyCreditsPreservesWellFormed` | src/app.py:39-47 | The reset keeps the store well formed, whether the commit succeeds or fails |
| `LedgerSpec.DeleteRecognitionPreservesWellFormed` | src/models.py:36 | After a cascading delete no endorsement references a missing recognition, and the rest of the integrity still holds |
| `Leaderboard.Receivers` | src/app.py:243 | The inner join keeps each student who received at least one recognition, once |
| `Leaderboard.Sort` | src/app.py:246 | The rows come out as a permutation of the input, ordered by credits received descending and then by student id ascending |
| `Leaderboard.AllRows` | src/app.py:237-245 | One row per receiving student: its student has at least one recognition, its aggregates are that student's, and no student appears twice |
| `Leaderboard.Truncate` | src/app.py:247 | The result is a prefix of the ranked rows, no longer than a non-negative limit, and shorter than the input only when it has exactly `limit` rows |
| `Leaderboard.GetLeaderboard` | src/app.py:224-259 | The rows are ranked, with credits descending and ties broken by lower id. Each student appears at most once, and there are at most `limit` rows. Each row is the aggregate of a student with at least one recognition received. A receiving student is missing only when `limit` rows all rank above them |
| `Leaderboard.TopRowsComplete` | src/app.py:246-247 | Cutting a ranked list of complete rows keeps the order and drops only rows that rank below all the kept ones |
| `Leaderboard.CreditsCoverRecognitions` | src/models.py:29 | Because every recognition carries a positive amount, the credits a student received are at least the number of recognitions they received |
| `Leaderboard.EndorsementsReceivedCountsEndorsements` | src/app.py:229-244 | Summing each received recognition's endorsement count, with 0 for a recognition without endorsements, equals the number of endorsements of recognitions the student received |
| `Leaderboard.LeaderboardRowTotals` | src/app.py:249-256 | On a well-formed store, each row has credits ≥ recognitions ≥ 1. Its endorsement total is the number of endorsements on the recognitions that student received |
| `Leaderboard.NothingCut` | src/app.py:247 | With a negative limit, or one at least the number of students, every student who received a recognition has a row |
| `Leaderboard.LeaderboardListsEveryReceiver` | src/app.py:243-247 | On a well-formed store with such a limit, the receiver of every recognition has a row |
| `App.ComputeReset` | src/app.py:40-43 | The loop over all students computes exactly the reset of every sending balance |
| `App.Ledger.constructor` | src/app.py:26-29 | A new ledger has empty tables, all keys start at 1, and it is well formed |
| `App.Ledger.CreateStudent` | src/app.py:59-73 | The in-place insert returns and leaves exactly what `LedgerSpec.CreateStudent` gives, and keeps the ledger well formed |
| `App.Ledger.CreateRecognition` | src/app.py:115-157 | The in-place debit, credit and insert match `LedgerSpec.CreateRecognition` exactly, and keep the ledger well formed |
| `App.Ledger.CreateEndorsement` | src/app.py:160-186 | The in-place insert matches `LedgerSpec.CreateEndorsement` exactly, and keeps the ledger well formed |
| `App.Ledger.RedeemCredits` | src/app.py:189-221 | The in-place debit matches `LedgerSpec.RedeemCredits` exactly, and keeps the ledger well formed |
| `App.Ledger.ResetMonthlyCredits` | src/app.py:33-48 | All new balances are computed first and applied only if the commit succeeds, matching `LedgerSpec.ResetMonthlyCredits` |
| `App.TwoStudents` | src/app.py:59-73 | Two registrations on an empty ledger get keys 1 and 2 with the defaults; a second registration of the same username is a Conflict and changes nothing |

## Left out

- HTTP routing, JSON parsing, `jsonify` and the response bodies are left out. Outcomes are the `Result` and `Error` datatypes, and `HttpStatus` gives the status code of each error.
- The SQLAlchemy session, the engine configuration and `db.create_all` are left out. A transaction is modelled as "an error leaves the store unchanged".
- Only the reset models an unexpected failure at commit, through its `commitSucceeds` parameter. The 500 answers of `create_recognition` and `redeem_credits` when their commit raises are not modelled.
- The APScheduler cron trigger is left out. The reset is an operation the caller invokes.
- Concurrency and transaction isolation are left out: two transfers racing for the same balance are outside a sequential model.
- Timestamps (`datetime.utcnow`) and the log lines printed by the reset are left out: they are clock and I/O.
- `get_students` is left out: its filters rely on the database engine's `ILIKE` and `lower()`. `get_student` and the `to_dict` serialisers are trivial and also left out.
- Request values are integers or strings. JSON values of other types are not modelled: booleans, which pass `isinstance(x, int)`, floats and strings sent as ids. A body that is not a JSON object is not modelled either: there `data.get` raises and the answer is a 500.
- Column widths are not modelled: 80 characters for a username, 120 for an email, 280 for a message. Neither the endpoints nor SQLite enforce them, so the model stores strings of any length.
- Integers are unbounded. SQLite's 64-bit integer range is not modelled; no balance reachable through the endpoints comes near it.
- Keys come from counters that start at 1 and never go back. SQLite hands out one more than the largest key in use, which differs only after the row with the largest key is deleted, and no endpoint deletes rows.
- No endpoint deletes a recognition. `DeleteRecognition` and `DeleteRecognitionCascade` model only the cascade that the schema declares.
