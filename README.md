# Per-customer limit ledger

This project models `PerCustomerLimit`, the per-customer spending limit of the
limit-stack service, and proves properties of the model. A caller reserves an amount
against a customer's available limit before a fund transfer. Later the reservation is
confirmed (the amount stays spent), released (the amount is credited back), or
reclaimed by a sweep once it has expired.

All of a customer's state lives in one partition of a key-value table:

- an **account row**, whose sort key is the sentinel `"9" * 26`, holding
  `avail_amount`, `max_amount` and `updated_at`;
- one **reservation row** per outstanding hold, keyed by a ULID, holding `req_amount`,
  `expires_at` and `delete_at`.

Every operation is a sequence of single-row atomic store calls: a conditional update
of the account row, a put, a delete, or a query.

The model has five modules:

- `Wrappers`: `Option` and `Result`.
- `Timestamps`: the string order the store uses to compare ISO timestamps, the shape
  of a ULID, and the `Clock` readings the code takes from the wall clock.
- `Store`: the table as a class holding a `map` from key to row. It has one method for
  each kind of store call the manager makes: get, conditional update, put, delete,
  batch delete and query. It also has one extra call, a delete conditioned on the row
  holding `req_amount`, which the code does not make: it is the correction described
  under Findings. Pure functions say what the update and the query do to the rows.
- `Ledger`: each manager operation as a pure function from the rows before to the
  rows after, plus the ledger invariant and the lemmas about both. `Held` is the sum of
  the outstanding `req_amount`s, and `Consumed` is `max_amount - avail_amount - Held`.
  `Valid` says that every non-account row is a reservation, that without an account
  row the partition holds no reservations, that `avail_amount >= 0`, and that
  `Consumed >= 0`. The last two together give `avail_amount + held <= max_amount`.
  The clause about a missing account row is the first one a delete of the account row
  breaks (see Findings).
- `Manager`: the class `PerCustomerLimit`. Its postconditions tie each method's result,
  the table's rows and the instance's `availAmount` to the `Ledger` function. With one
  exception, each method makes the same store calls in the same order as the Python
  method of that name. The exception is the reservation delete behind `confirm` and
  `release`. The code deletes unconditionally (runtime/limits/manager.py:198-201);
  that call is modelled as `DelRequestAsWritten`. The class's `DelRequest`, and with
  it `Confirm` and `Release`, uses the corrected, conditional delete from Findings
  instead. `Ledger.DelRequestAgrees` proves the two agree on every id except the
  sentinel.

What the lemmas establish:

- `request` and `release` keep `Consumed` unchanged, so the sum of the available and
  the held amounts stays what it was.
- `confirm` moves the confirmed amount from held to consumed.
- `reclaim_requests` moves the reclaimed amounts from held to consumed; it does not
  make them available again.
- Every operation keeps `Valid`.
- A request followed by the release of its id restores the account.
- The sentinel id passed to `confirm` or `release` is the one exception; see
  Findings.

Apart from that correction, where the code and the docstrings or design description
disagree, the model follows the code:

- `reclaim_requests` (runtime/limits/manager.py:116-130) deletes the expired
  reservations but never credits `avail_amount`, although its docstring says it
  recovers the requested amount. `Ledger.ReclaimEffect` states this: the account row
  is unchanged and `Consumed` grows by the reclaimed sum.
- The default reclaim cutoff is now plus the request TTL (line 122), not now minus
  it.
- In `request`, a non-empty caller `expires_at` is replaced by now plus the TTL, and
  an empty one is stored as the empty string (lines 81-82). The empty string sorts
  before every cutoff, so such a reservation is selected by every reclaim.
- `release` returns nothing (line 91); `confirm` returns the amount.

## Model

| member | source | states |
|---|---|---|
| Timestamps.BeforeIrreflexive | runtime/limits/manager.py:213 | no `expires_at` sorts before itself under the filter's string order |
| Timestamps.BeforeTransitive | runtime/limits/manager.py:213 | the filter's string order is transitive |
| Timestamps.BeforeTotal | runtime/limits/manager.py:213 | two distinct strings are ordered exactly one way |
| Timestamps.EmptyFirst | runtime/limits/manager.py:213 | an empty `expires_at` sorts before every non-empty cutoff and after nothing |
| Store.Updated | runtime/limits/manager.py:150-164 | the account update sets `updated_at` and `max_amount` only when they are absent, sets `avail_amount` to its previous value (or the default) minus the amount, creates a missing row, and keeps every other attribute |
| Store.UpdateCondition | runtime/limits/manager.py:157 | the account update's condition, true when the row is missing, has no `avail_amount`, or holds at least the amount; `Store.Table.UpdateItem` and `Ledger.UpsertCustomerEffect` state what it admits |
| Store.ExpiresBefore | runtime/limits/manager.py:213 | the query filter: a row passes when it has an `expires_at` that sorts strictly before the cutoff; `Store.QueryIds` and `Timestamps.EmptyFirst` state its consequences |
| Store.QueryIds | runtime/limits/manager.py:210-220 | an id is returned exactly when a row of that partition has that id and its `expires_at` sorts before the cutoff |
| Store.Table.GetItem | runtime/limits/manager.py:50 | returns the row under the key, if any |
| Store.Table.UpdateItem | runtime/limits/manager.py:150-164 | when the row is missing, has no `avail_amount`, or holds at least the amount, the row becomes the updated row and is returned; otherwise nothing changes and no row is returned |
| Store.Table.PutItem | runtime/limits/manager.py:182-190 | the row under the key is replaced |
| Store.Table.DeleteItem | runtime/limits/manager.py:198-201 | deletes whatever row has the key and returns the old row |
| Store.Table.DeleteReservationItem | runtime/limits/manager.py:198-201 | the correction from Findings, not a call the code makes (lines 198-201 delete unconditionally): deletes and returns the row only when it has `req_amount`, otherwise changes nothing |
| Store.Table.BatchDeleteItem | runtime/limits/manager.py:128-130 | the row under the key is gone and nothing else changes |
| Store.Table.Query | runtime/limits/manager.py:210-215 | returns exactly `QueryIds` of the current rows |
| Ledger.CustKey | runtime/limits/manager.py:226-227 | the account row's key: the customer id with the sentinel sort key; no contract of its own, `Ledger.UlidIsNotSentinel` and `Ledger.ReqKey` relate it to request keys |
| Ledger.ReqKey | runtime/limits/manager.py:223-224 | a reservation key lies in the customer's partition, and equals the account key exactly when the request id is the sentinel |
| Ledger.UlidIsNotSentinel | runtime/limits/manager.py:17 | a 26-digit ULID sorts before the 26-nines sentinel, so a request key never equals the account key |
| Ledger.ValidBounds | runtime/limits/manager.py:157 | in a valid partition `0 <= avail_amount <= max_amount` and the held total is non-negative |
| Ledger.UpsertCustomer | runtime/limits/manager.py:145-175 | a failed condition raises the insufficient-amount error and changes nothing; on success the returned amount is the stored `avail_amount` |
| Ledger.UpsertCustomerEffect | runtime/limits/manager.py:145-175 | the update succeeds exactly when the account is missing or covers the amount; it keeps the invariant, moves the amount from available to consumed, never changes a stored maximum, and touches only the account row |
| Ledger.NewReservation | runtime/limits/manager.py:182-190 | the row `_add_request` writes: `updated_at` now, the amount, the stored `expires_at`, and `delete_at` 24 hours on; no contract of its own, `Ledger.AddRequestEffect` states its effect on the ledger |
| Ledger.AddRequest | runtime/limits/manager.py:177-192 | puts that row under the new id; no contract of its own, `Ledger.AddRequestEffect` states what the put keeps and moves |
| Ledger.AddRequestEffect | runtime/limits/manager.py:177-192 | writing the reservation row keeps the invariant, moves its amount from consumed to held, and leaves the account row unchanged |
| Ledger.DelRequestAsWritten | runtime/limits/manager.py:194-206 | the code's delete, the as-written half of Findings: a missing key raises "unable to delete" and changes nothing; any existing row under the key is removed, account row included; it succeeds exactly when that row had `req_amount` |
| Ledger.DelRequest | runtime/limits/manager.py:194-206 | the corrected delete from Findings: a failure raises "unable to delete" and changes nothing; a missing key fails; a success returns the row's `req_amount` and removes exactly that row |
| Ledger.DelRequestEffect | runtime/limits/manager.py:194-206 | the delete succeeds exactly when a reservation row has that id; it keeps the invariant, never touches the account row, and moves the positive amount from held to consumed |
| Ledger.Request | runtime/limits/manager.py:70-89 | a non-positive amount and an amount above the instance maximum raise their errors; any failure leaves rows and instance unchanged; a success returns the new id and implies `0 < amount <= max_amount` |
| Ledger.RequestEffect | runtime/limits/manager.py:70-89 | a request succeeds exactly when the amount is positive, within the maximum, and covered by the account (a missing account counts as covered); a valid amount that fails gets the insufficient-amount error; a success keeps the invariant and the consumed amount, updates the account row, adds exactly one reservation row, changes no other row, and leaves the instance's `avail_amount` equal to the stored one |
| Ledger.Release | runtime/limits/manager.py:91-99 | releasing an id with no row raises "unable to delete" and changes nothing |
| Ledger.ReleaseEffect | runtime/limits/manager.py:91-99 | a release succeeds exactly when a reservation row has that id; failure changes nothing; success removes that row, credits its amount to `avail_amount`, keeps the invariant and the consumed amount, and changes no other row |
| Ledger.UpdatedRoundTrip | runtime/limits/manager.py:152-156 | an account update by `amount` followed by one by `-amount` gives back the account row, or for a missing row the row created with the maximum available |
| Ledger.RequestRows | runtime/limits/manager.py:84-85 | a successful request's rows are the updated account row plus the new reservation row |
| Ledger.ReleaseFreshRow | runtime/limits/manager.py:96-98 | releasing a just-written reservation deletes it and credits the account row beside it |
| Ledger.RequestThenRelease | runtime/limits/manager.py:70-99 | a request followed by the release of its id succeeds and restores the available amount; an existing ledger comes back row for row; for a new customer the account row is left at its maximum |
| Ledger.ReclaimCutoff | runtime/limits/manager.py:121-122 | an empty cutoff becomes now plus the request TTL; no contract of its own, `Ledger.ReclaimEmptyExpiry` and `Ledger.RequestWithoutExpiryReclaimed` use it |
| Ledger.Reclaim | runtime/limits/manager.py:116-130 | the rows after the reclaim: the rows minus the selected keys; no contract of its own, `Ledger.ReclaimKeys` states the selection and `Ledger.ReclaimEffect` that nothing is credited |
| Ledger.ReclaimKeys | runtime/limits/manager.py:126-130 | the keys the batch deletes, one per id the query returns, are exactly the partition rows whose `expires_at` sorts before the cutoff |
| Ledger.ReclaimEffect | runtime/limits/manager.py:116-130 | reclaim never selects the account row, leaves it (and so `avail_amount`) unchanged, keeps the invariant, and moves the reclaimed non-negative sum from held to consumed |
| Ledger.ReclaimEmptyExpiry | runtime/limits/manager.py:116-130 | a reservation stored with an empty `expires_at` is deleted by every reclaim with a non-empty cutoff |
| Ledger.ReclaimSparesUnexpired | runtime/limits/manager.py:126-130 | a reservation whose `expires_at` equals the cutoff or sorts after it survives the reclaim unchanged, since the filter is strict |
| Ledger.RequestWithoutExpiryReclaimed | runtime/limits/manager.py:81-82 | a successful request made without `expires_at` stores an empty expiry, so its reservation is deleted by every reclaim with a non-empty cutoff (the default one included), however recent it is |
| Ledger.RequestWithExpiryKept | runtime/limits/manager.py:81-82 | a successful request made with a non-empty `expires_at` stores now plus the request TTL instead of the caller's value, and its reservation survives, unchanged, every reclaim whose cutoff does not sort after that time |
| Ledger.ReclaimMonotone | runtime/limits/manager.py:208-215 | a later cutoff selects every row an earlier one does |
| Ledger.LoadAccount | runtime/limits/manager.py:47-58 | an empty customer id raises "customer_id is required"; a missing account raises "cannot be found"; a success returns the stored `avail_amount`, `max_amount` and `updated_at` |
| Ledger.LoadAfterRequest | runtime/limits/manager.py:47-58 | after a successful request, `load` reads back the instance's `avail_amount`, with the stored maximum |
| Ledger.LoadAfterRelease | runtime/limits/manager.py:47-58 | after a successful release, `load` reads back the instance's `avail_amount`, with the stored maximum |
| Ledger.QuotaFirstRequest | runtime/limits/manager.py:70-89 | `request(700)` for a new customer with maximum 1000 leaves the account at 300 plus one reservation of 700 |
| Ledger.QuotaSecondRequest | runtime/limits/manager.py:70-89 | `request(500)` with 300 available raises insufficient amount and changes nothing |
| Ledger.QuotaRelease | runtime/limits/manager.py:91-99 | releasing the 700 reservation leaves only the account row, with 1000 available |
| Ledger.QuotaExample | runtime/limits/manager.py:70-99 | with maximum 1000: request 700 succeeds, request 500 fails, releasing the first restores 1000, and request 500 then succeeds with 500 left |
| Ledger.DelRequestAgrees | runtime/limits/manager.py:194-206 | on a valid ledger, for every id other than the sentinel, the conditional delete behaves exactly like the code's unconditional one |
| Ledger.SentinelDelete | runtime/limits/manager.py:194-206 | as written, deleting the sentinel id removes the account row and then fails on the missing `req_amount`; the conditional delete refuses it and changes nothing |
| Ledger.SentinelConfirmOvercommits | runtime/limits/manager.py:194-206 | as written, confirming the sentinel id and then requesting again leaves 2000 held against a maximum of 1000: the invariant is broken |
| Manager.PerCustomerLimit.Init | runtime/limits/manager.py:64-66 | a new instance has the customer id, `avail_amount` 0 and the given maximum |
| Manager.PerCustomerLimit.Create | runtime/limits/manager.py:60-68 | fails exactly when the customer id is empty; otherwise `avail_amount` is 0 and `max_amount` the configured default, unless a keyword argument overrides either |
| Manager.PerCustomerLimit.Load | runtime/limits/manager.py:47-58 | fails exactly when `LoadAccount` fails, with its error; otherwise a new instance holding the stored `avail_amount`, `max_amount` and `updated_at`; the table is only read |
| Manager.PerCustomerLimit.Request | runtime/limits/manager.py:70-89 | the result, the rows and the instance's `avail_amount` are those of `Ledger.Request`; the maximum is unchanged |
| Manager.PerCustomerLimit.Release | runtime/limits/manager.py:91-99 | the result, the rows and the instance's `avail_amount` are those of `Ledger.Release`, which deletes through the corrected conditional delete |
| Manager.PerCustomerLimit.Confirm | runtime/limits/manager.py:101-108 | the result and the rows are those of the corrected conditional delete `Ledger.DelRequest`; the instance is unchanged |
| Manager.PerCustomerLimit.ReclaimRequests | runtime/limits/manager.py:116-130 | the loop over the queried ids leaves exactly `Ledger.Reclaim` of the rows before: the expired reservations deleted, everything else kept |
| Manager.PerCustomerLimit.UpsertCustomer | runtime/limits/manager.py:145-175 | result and rows are those of `Ledger.UpsertCustomer` |
| Manager.PerCustomerLimit.AddRequest | runtime/limits/manager.py:177-192 | returns the generated id, and the rows are those of `Ledger.AddRequest` |
| Manager.PerCustomerLimit.DelRequest | runtime/limits/manager.py:194-206 | the correction from Findings: result and rows are those of the conditional delete `Ledger.DelRequest` |
| Manager.PerCustomerLimit.DelRequestAsWritten | runtime/limits/manager.py:194-206 | result and rows are those of the unconditional delete `Ledger.DelRequestAsWritten` |
| Manager.PerCustomerLimit.RequestsPrior | runtime/limits/manager.py:208-220 | returns exactly `QueryIds` of the current rows |
| Manager.RequestThenReleaseLoads | tests/unit/runtime/test_per_customer_limit.py:71-78 | for a customer without an account, a request and the release of its id leave the instance equal to what `load` returns, with `avail_amount == max_amount` |
| Manager.OverLimitRequestLoads | tests/unit/runtime/test_per_customer_limit.py:51-58 | for a customer with an account, a request the account cannot cover fails with insufficient amount; `load` succeeds before and after, and the two loaded instances are equal under `__eq__` |

## Left out

- The store client and its process-wide handle (`_table_`, runtime/limits/manager.py:138-143): the `Table` object is passed to the constructor instead.
- Store failures: HTTP status codes other than 200 (lines 51 and 202) and client errors other than a failed condition (lines 173-175). The modelled store always answers.
- Concurrency: each store call is one atomic step on the map. Interleavings of two managers are not modelled. A stop between the two store calls of one operation shows up only as the `Consumed` amount growing: `UpsertCustomerEffect` alone moves the amount into it.
- Pagination of the query (lines 217-218): the modelled query returns every match in a single page.
- Wall-clock time and ULID generation: the current time, now plus the request TTL, and the epoch seconds are a `Clock` input, and the new request id is an input.
- One `Clock` snapshot stands for the separate clock readings a request makes (runtime/limits/manager.py:159, 185 and 188). As a result, a newly created account row and the reservation row it comes with get the same `updated_at`.
- `reset` (runtime/limits/manager.py:110-114) only raises "not implemented". `Manager.PerCustomerLimit.Reset` returns that error and has no contract.
- `__eq__` (runtime/limits/manager.py:229-234) is `Manager.PerCustomerLimit.Equals`, with no contract of its own. It is used by the two test scenarios `Manager.RequestThenReleaseLoads` and `Manager.OverLimitRequestLoads`.
- Manager.PerCustomerLimit.Request: requires the new id to be a ULID not already used in the table, which `ulid.new()` guarantees only with overwhelming probability. A collision would overwrite a row; this is not modelled.
- Amounts are integers. `Decimal` fractions are not modelled.
- Configuration: the parameter-store override of the defaults (line 20, runtime/limits/utils.py) is the `Params` input; `DefaultParams` holds the built-in maximum. The request TTL is not a parameter of the model: the `Clock` input carries now plus the TTL.
- Manager.PerCustomerLimit.Create: keyword arguments other than `avail_amount` and `max_amount` are not modelled. `setattr` would accept any attribute name.
- The unused `batch` parameter of `_upsert_customer`, `_add_request` and `_del_request`.
- The store's own expiry of rows through `delete_at` after 24 hours: the value is written, but the modelled store never deletes a row by itself.
- Reclaim deletes the queried ids in an arbitrary order of a set rather than the query's list order. The deletes commute, so the final rows are the same.
- Logging, metrics and tracing, `__str__`, the HTTP and event handlers (runtime/app.py), and the infrastructure code are not part of this model.

## Findings

| source | as written | input that shows it | evidently intended | confidence | as-written member | corrected member |
|---|---|---|---|---|---|---|
| runtime/limits/manager.py:194-206 | `_del_request` deletes the row under `(customer_id, req_id)` unconditionally, then reads `req_amount` from the deleted row. `confirm` and `release` pass any id through, so the sentinel id `"9" * 26` deletes the account row and only then raises `KeyError`. The next `request` recreates the account at full `max_amount` while the old reservations are still held. | account at 0 of 1000 with one reservation of 1000; `confirm("9" * 26)`, then `request(1000)` succeeds: 2000 held against a maximum of 1000 | only reservation rows can be deleted (a delete conditioned on `attribute_exists(req_amount)`), so `confirm`/`release` of the sentinel fail with "unable to delete" and change nothing | high, not executed | Ledger.SentinelConfirmOvercommits | Ledger.DelRequestEffect |
