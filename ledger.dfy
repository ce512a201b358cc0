/** The per-customer reservation ledger as pure functions over the table's rows.

    A customer's partition holds one account row, whose sort key is `Sentinel`, and one
    reservation row per outstanding hold, keyed by a ULID. Every store call of the
    limit manager is a function here from the rows before to the rows after, and each
    operation of `PerCustomerLimit` is the composition of its store calls. The lemmas
    state what the operations keep: the account row never over-commits the quota. */
module Ledger {
  import opened Wrappers
  import opened Timestamps
  import opened Store

  /** Sort key of the account row: 26 nines, which sorts after every ULID. */
  const Sentinel: string := "99999999999999999999999999"

  /** Delay after which the store's own expiry purges a reservation row (24 hours). */
  const DeleteAfterSeconds: int := 24 * 3600

  /** Configuration read once when the module loads; the parameter store may override it.
      The request TTL is not a field: the `Clock` carries now plus the TTL. */
  datatype Params = Params(defaultCustomerMaxLimit: int)

  const DefaultParams: Params := Params(5000001)

  /** The conditions under which the manager raises; `MissingAttribute` stands for a
      lookup of an attribute absent from a returned row. */
  datatype LimitError =
    | CustomerIdRequired
    | NonPositiveAmount
    | AboveMaxAmount
    | InsufficientAmount
    | UnableToDelete
    | CustomerNotFound
    | NotImplemented
    | MissingAttribute(name: string)

  /** `_cust_key`: the account row's key. */
  function CustKey(customerId: string): Key {
    Key(customerId, Sentinel)
  }

  /** `_req_key`: a reservation row's key. It is the account row's key exactly when the
      request id is the sentinel, which no ULID is (`UlidIsNotSentinel`). */
  function ReqKey(customerId: string, requestId: string): (k: Key)
    ensures k.customerId == customerId
    ensures k == CustKey(customerId) <==> requestId == Sentinel
  {
    Key(customerId, requestId)
  }

  /** A generated request id never names the account row. */
  lemma UlidIsNotSentinel(customerId: string, id: string)
    requires IsUlid(id)
    ensures Before(id, Sentinel)
    ensures ReqKey(customerId, id) != CustKey(customerId)
  {
  }

  // ---------------------------------------------------------------------------
  // Rows, sums and the ledger invariant

  /** An account row as the account update leaves it. */
  predicate IsAccount(it: Item) {
    it.updatedAt.Some? && it.availAmount.Some? && it.maxAmount.Some?
    && it.reqAmount.None? && it.expiresAt.None?
  }

  /** A reservation row as a successful request writes it. */
  predicate IsReservation(it: Item) {
    it.reqAmount.Some? && it.reqAmount.value > 0 && it.expiresAt.Some?
  }

  predicate HasAccount(items: Items, customerId: string) {
    CustKey(customerId) in items && IsAccount(items[CustKey(customerId)])
  }

  function AvailOf(items: Items, customerId: string): int
    requires HasAccount(items, customerId)
  {
    items[CustKey(customerId)].availAmount.value
  }

  function MaxOf(items: Items, customerId: string): int
    requires HasAccount(items, customerId)
  {
    items[CustKey(customerId)].maxAmount.value
  }

  /** Amount a row holds against the quota (zero for a row without `req_amount`). */
  function ReqOf(items: Items, k: Key): int {
    if k in items && items[k].reqAmount.Some? then items[k].reqAmount.value else 0
  }

  ghost function SumReq(items: Items, ks: set<Key>): int
    decreases ks
  {
    if ks == {} then 0
    else
      var k :| k in ks;
      ReqOf(items, k) + SumReq(items, ks - {k})
  }

  ghost function Partition(items: Items, customerId: string): set<Key> {
    set k | k in items && k.customerId == customerId
  }

  /** Total amount held by the customer's outstanding reservations. */
  ghost function Held(items: Items, customerId: string): int {
    SumReq(items, Partition(items, customerId))
  }

  /** Quota neither available nor held: spent by confirmations and reclaims, or
      stranded by a two-step operation that stopped half-way. */
  ghost function Consumed(items: Items, customerId: string): int {
    if HasAccount(items, customerId)
    then MaxOf(items, customerId) - AvailOf(items, customerId) - Held(items, customerId)
    else 0
  }

  /** The ledger invariant of one customer's partition: every non-account row is a
      reservation, reservations exist only beside an account, and the account never
      promises more than its maximum: 0 <= avail_amount and
      avail_amount + held <= max_amount. */
  ghost predicate Valid(items: Items, customerId: string) {
    && (forall k | k in items && k.customerId == customerId && k.requestId != Sentinel ::
          IsReservation(items[k]))
    && (CustKey(customerId) in items ==>
          && IsAccount(items[CustKey(customerId)])
          && AvailOf(items, customerId) >= 0
          && Consumed(items, customerId) >= 0)
    && (CustKey(customerId) !in items ==> Partition(items, customerId) == {})
  }

  lemma {:induction false} SumReqRemove(items: Items, ks: set<Key>, k: Key)
    requires k in ks
    ensures SumReq(items, ks) == ReqOf(items, k) + SumReq(items, ks - {k})
    decreases ks
  {
    var j :| j in ks && SumReq(items, ks) == ReqOf(items, j) + SumReq(items, ks - {j});
    if j != k {
      SumReqRemove(items, ks - {j}, k);
      SumReqRemove(items, ks - {k}, j);
      assert ks - {j} - {k} == ks - {k} - {j};
    }
  }

  lemma {:induction false} SumReqFrame(items: Items, items': Items, ks: set<Key>)
    requires forall k | k in ks :: ReqOf(items, k) == ReqOf(items', k)
    ensures SumReq(items, ks) == SumReq(items', ks)
    decreases ks
  {
    if ks != {} {
      var k :| k in ks;
      SumReqRemove(items, ks, k);
      SumReqRemove(items', ks, k);
      SumReqFrame(items, items', ks - {k});
    }
  }

  lemma {:induction false} SumReqSplit(items: Items, ks: set<Key>, ds: set<Key>)
    requires ds <= ks
    ensures SumReq(items, ks) == SumReq(items, ds) + SumReq(items, ks - ds)
    decreases ds
  {
    if ds == {} {
      assert ks - ds == ks;
    } else {
      var d :| d in ds;
      SumReqRemove(items, ks, d);
      SumReqRemove(items, ds, d);
      SumReqSplit(items, ks - {d}, ds - {d});
      assert (ks - {d}) - (ds - {d}) == ks - ds;
    }
  }

  lemma {:induction false} SumReqNonNegative(items: Items, ks: set<Key>)
    requires forall k | k in ks :: ReqOf(items, k) >= 0
    ensures SumReq(items, ks) >= 0
    decreases ks
  {
    if ks != {} {
      var k :| k in ks;
      SumReqRemove(items, ks, k);
      SumReqNonNegative(items, ks - {k});
    }
  }

  lemma HeldEmpty(items: Items, customerId: string)
    requires Partition(items, customerId) == {}
    ensures Held(items, customerId) == 0
  {
  }

  /** Writing a row under a new key of the partition adds that row's amount. */
  lemma HeldPut(items: Items, customerId: string, k: Key, v: Item)
    requires k !in items && k.customerId == customerId
    ensures Held(items[k := v], customerId) == Held(items, customerId) + ReqOf(items[k := v], k)
  {
    var items' := items[k := v];
    var p := Partition(items, customerId);
    assert Partition(items', customerId) == p + {k};
    SumReqRemove(items', p + {k}, k);
    assert p + {k} - {k} == p;
    SumReqFrame(items', items, p);
  }

  /** Rewriting a row without changing its `req_amount` keeps the total held. */
  lemma HeldSameReq(items: Items, customerId: string, k: Key, v: Item)
    requires k in items && items[k].reqAmount == v.reqAmount
    ensures Held(items[k := v], customerId) == Held(items, customerId)
  {
    var items' := items[k := v];
    assert Partition(items', customerId) == Partition(items, customerId);
    SumReqFrame(items', items, Partition(items, customerId));
  }

  /** Removing a set of the partition's rows subtracts their amounts. */
  lemma HeldRemove(items: Items, customerId: string, ds: set<Key>)
    requires ds <= Partition(items, customerId)
    ensures Held(items - ds, customerId) == Held(items, customerId) - SumReq(items, ds)
  {
    var p := Partition(items, customerId);
    assert Partition(items - ds, customerId) == p - ds;
    SumReqSplit(items, p, ds);
    SumReqFrame(items - ds, items, p - ds);
  }

  lemma HeldDelete(items: Items, customerId: string, k: Key)
    requires k in items && k.customerId == customerId
    ensures Held(items - {k}, customerId) == Held(items, customerId) - ReqOf(items, k)
  {
    HeldRemove(items, customerId, {k});
    SumReqRemove(items, {k}, k);
    assert {k} - {k} == {};
  }

  /** In a valid partition the available amount lies between zero and the maximum
      (the data model's `0 <= avail_amount <= max_amount`). */
  lemma ValidBounds(items: Items, customerId: string)
    requires Valid(items, customerId) && CustKey(customerId) in items
    ensures 0 <= AvailOf(items, customerId) <= MaxOf(items, customerId)
    ensures Held(items, customerId) >= 0
  {
    var p := Partition(items, customerId);
    forall k | k in p
      ensures ReqOf(items, k) >= 0
    {
      if k.requestId != Sentinel {
        assert IsReservation(items[k]);
      }
    }
    SumReqNonNegative(items, p);
  }

  // ---------------------------------------------------------------------------
  // The manager's store calls, one step each

  /** Outcome of one store call: what the manager returns or raises, and the rows after. */
  datatype Step<T> = Step(result: Result<T, LimitError>, items: Items)

  /** `_upsert_customer`: the conditional account update. A negative `amount` credits.
      On success the new `avail_amount` is returned. */
  function UpsertCustomer(items: Items, customerId: string, amount: int, max: int, now: string): (s: Step<int>)
    ensures s.result.Failure? ==> s.result == Failure(InsufficientAmount) && s.items == items
    ensures s.result.Success? ==> CustKey(customerId) in s.items
                                  && s.items[CustKey(customerId)].availAmount == Some(s.result.value)
  {
    var row := Lookup(items, CustKey(customerId));
    if UpdateCondition(row, amount) then
      var it := Updated(row, now, max, amount);
      Step(Success(it.availAmount.value), items[CustKey(customerId) := it])
    else
      Step(Failure(InsufficientAmount), items)
  }

  /** The row `_add_request` writes. */
  function NewReservation(amount: int, expiresAt: string, clock: Clock): Item {
    Item(Some(clock.isoNow), None, None, Some(amount), Some(expiresAt),
         Some(clock.epochSeconds + DeleteAfterSeconds))
  }

  /** `_add_request`: put the reservation row under the freshly generated id. */
  function AddRequest(items: Items, customerId: string, amount: int, expiresAt: string, clock: Clock, newId: string): Items {
    items[ReqKey(customerId, newId) := NewReservation(amount, expiresAt, clock)]
  }

  /** `_del_request` as written: an unconditional delete, then a lookup of `req_amount`
      in the deleted row. The sentinel id deletes the account row itself. */
  function DelRequestAsWritten(items: Items, customerId: string, id: string): (s: Step<int>)
    ensures ReqKey(customerId, id) !in items ==> s == Step(Failure(UnableToDelete), items)
    ensures ReqKey(customerId, id) in items ==> s.items == items - {ReqKey(customerId, id)}
    ensures s.result.Success? <==> ReqKey(customerId, id) in items && items[ReqKey(customerId, id)].reqAmount.Some?
  {
    var key := ReqKey(customerId, id);
    if key !in items then Step(Failure(UnableToDelete), items)
    else if items[key].reqAmount.None? then Step(Failure(MissingAttribute("req_amount")), items - {key})
    else Step(Success(items[key].reqAmount.value), items - {key})
  }

  /** `_del_request` with the delete conditioned on `attribute_exists(req_amount)`, so that
      only a reservation row can be deleted. */
  function DelRequest(items: Items, customerId: string, id: string): (s: Step<int>)
    ensures s.result.Failure? ==> s.result == Failure(UnableToDelete) && s.items == items
    ensures ReqKey(customerId, id) !in items ==> s.result.Failure?
    ensures s.result.Success? ==> ReqKey(customerId, id) in items
                                  && Some(s.result.value) == items[ReqKey(customerId, id)].reqAmount
                                  && s.items == items - {ReqKey(customerId, id)}
  {
    var key := ReqKey(customerId, id);
    if key in items && items[key].reqAmount.Some? then Step(Success(items[key].reqAmount.value), items - {key})
    else Step(Failure(UnableToDelete), items)
  }

  /** Effect of the account update: it succeeds exactly when the account is missing or
      holds at least `amount`, keeps the invariant, moves `amount` from available to
      consumed, leaves every other row alone and never changes a stored maximum. */
  lemma UpsertCustomerEffect(items: Items, customerId: string, amount: int, max: int, now: string)
    requires Valid(items, customerId)
    requires CustKey(customerId) in items || 0 <= amount <= max
    requires Consumed(items, customerId) + amount >= 0
    ensures var s := UpsertCustomer(items, customerId, amount, max, now);
            && (s.result.Success? <==> !HasAccount(items, customerId) || AvailOf(items, customerId) >= amount)
            && Valid(s.items, customerId)
            && (s.result.Success? ==>
                  && HasAccount(s.items, customerId)
                  && s.result.value == AvailOf(s.items, customerId)
                  && Consumed(s.items, customerId) == Consumed(items, customerId) + amount
                  && MaxOf(s.items, customerId) == (if HasAccount(items, customerId) then MaxOf(items, customerId) else max)
                  && s.items.Keys == items.Keys + {CustKey(customerId)}
                  && forall k | k in items && k != CustKey(customerId) :: s.items[k] == items[k])
  {
    var c := CustKey(customerId);
    var s := UpsertCustomer(items, customerId, amount, max, now);
    if s.result.Success? {
      var it := s.items[c];
      if c in items {
        HeldSameReq(items, customerId, c, it);
      } else {
        HeldEmpty(items, customerId);
        HeldPut(items, customerId, c, it);
      }
      assert Held(s.items, customerId) == Held(items, customerId);
    }
  }

  /** Effect of writing the reservation row: the new row holds `amount`, which leaves
      the consumed part of the quota; the account row is untouched. */
  lemma AddRequestEffect(items: Items, customerId: string, amount: int, expiresAt: string, clock: Clock, newId: string)
    requires Valid(items, customerId) && CustKey(customerId) in items
    requires newId != Sentinel && ReqKey(customerId, newId) !in items
    requires 0 < amount <= Consumed(items, customerId)
    ensures var items' := AddRequest(items, customerId, amount, expiresAt, clock, newId);
            && Valid(items', customerId)
            && Consumed(items', customerId) == Consumed(items, customerId) - amount
            && items'[CustKey(customerId)] == items[CustKey(customerId)]
  {
    HeldPut(items, customerId, ReqKey(customerId, newId), NewReservation(amount, expiresAt, clock));
  }

  /** Effect of deleting a reservation (the `confirm` path): it succeeds exactly when a
      reservation row has that id, removes only that row, and moves its amount from
      held to consumed; otherwise nothing changes. The account row is never touched. */
  lemma DelRequestEffect(items: Items, customerId: string, id: string)
    requires Valid(items, customerId)
    ensures var s := DelRequest(items, customerId, id);
            && (s.result.Success? <==> id != Sentinel && ReqKey(customerId, id) in items)
            && Valid(s.items, customerId)
            && Lookup(s.items, CustKey(customerId)) == Lookup(items, CustKey(customerId))
            && (s.result.Success? ==>
                  && s.result.value > 0
                  && HasAccount(s.items, customerId)
                  && Consumed(s.items, customerId) == Consumed(items, customerId) + s.result.value)
  {
    var key := ReqKey(customerId, id);
    var s := DelRequest(items, customerId, id);
    if id != Sentinel && key in items {
      assert IsReservation(items[key]);
      assert key in Partition(items, customerId);
      HeldDelete(items, customerId, key);
    }
  }

  // ---------------------------------------------------------------------------
  // Operations of the limit manager

  /** Outcome of an operation: result, rows after, and the instance's `avail_amount` after. */
  datatype Effect<T> = Effect(result: Result<T, LimitError>, items: Items, avail: int)

  /** The `expires_at` a request stores. As written the branch is inverted: a non-empty
      caller value is replaced by now + TTL, an empty one is stored as it is. */
  function StoredExpiry(expiresAt: string, clock: Clock): string {
    if expiresAt != "" then clock.isoAfterTtl else expiresAt
  }

  /** `request`: validate the amount against the instance maximum, debit the account,
      then write the reservation. Every failure leaves rows and instance unchanged. */
  function Request(items: Items, customerId: string, max: int, avail: int, amount: int,
                   expiresAt: string, clock: Clock, newId: string): (e: Effect<string>)
    ensures amount <= 0 ==> e.result == Failure(NonPositiveAmount)
    ensures 0 < amount && max < amount ==> e.result == Failure(AboveMaxAmount)
    ensures e.result.Failure? ==> e.items == items && e.avail == avail
    ensures e.result.Success? ==> e.result.value == newId && 0 < amount <= max
  {
    if amount <= 0 then Effect(Failure(NonPositiveAmount), items, avail)
    else if amount > max then Effect(Failure(AboveMaxAmount), items, avail)
    else
      var expires := StoredExpiry(expiresAt, clock);
      var s := UpsertCustomer(items, customerId, amount, max, clock.isoNow);
      if s.result.Failure? then Effect(Failure(s.result.error), s.items, avail)
      else Effect(Success(newId), AddRequest(s.items, customerId, amount, expires, clock, newId), s.result.value)
  }

  /** `release`: delete the reservation, then credit its amount back to the account. */
  function Release(items: Items, customerId: string, max: int, avail: int, id: string, clock: Clock): (e: Effect<()>)
    ensures ReqKey(customerId, id) !in items ==> e == Effect(Failure(UnableToDelete), items, avail)
  {
    var d := DelRequest(items, customerId, id);
    if d.result.Failure? then Effect(Failure(d.result.error), d.items, avail)
    else
      var u := UpsertCustomer(d.items, customerId, -d.result.value, max, clock.isoNow);
      if u.result.Failure? then Effect(Failure(u.result.error), u.items, avail)
      else Effect(Success(()), u.items, u.result.value)
  }

  /** `reclaim_requests`: an empty cutoff means now + TTL. */
  function ReclaimCutoff(cutoffTime: string, clock: Clock): string {
    if cutoffTime == "" then clock.isoAfterTtl else cutoffTime
  }

  /** Keys the reclaim batch deletes: one per id `_requests_prior` returns. A key is
      selected exactly when it names a row of the partition whose `expires_at` sorts
      before the cutoff. */
  function ReclaimKeys(items: Items, customerId: string, cutoff: string): (ks: set<Key>)
    ensures forall k | k in ks :: k in items && k.customerId == customerId && ExpiresBefore(items[k], cutoff)
    ensures forall k | k in items && k.customerId == customerId && ExpiresBefore(items[k], cutoff) :: k in ks
  {
    var ids := QueryIds(items, customerId, cutoff);
    assert forall k | k in items && k.customerId == customerId && ExpiresBefore(items[k], cutoff) ::
             k.requestId in ids && k == ReqKey(customerId, k.requestId);
    set id | id in ids :: ReqKey(customerId, id)
  }

  /** `reclaim_requests`: delete every expired reservation of the customer. */
  function Reclaim(items: Items, customerId: string, cutoffTime: string, clock: Clock): Items {
    items - ReclaimKeys(items, customerId, ReclaimCutoff(cutoffTime, clock))
  }

  /** What `load` reads back from the account row. */
  datatype AccountView = AccountView(availAmount: int, maxAmount: int, updatedAt: string)

  /** `load`: the instance needs a customer id, the account row must exist, and the
      three attributes are looked up in order. */
  function LoadAccount(items: Items, customerId: string): (r: Result<AccountView, LimitError>)
    ensures customerId == "" ==> r == Failure(CustomerIdRequired)
    ensures customerId != "" && CustKey(customerId) !in items ==> r == Failure(CustomerNotFound)
    ensures r.Success? ==> CustKey(customerId) in items
                           && items[CustKey(customerId)].availAmount == Some(r.value.availAmount)
                           && items[CustKey(customerId)].maxAmount == Some(r.value.maxAmount)
                           && items[CustKey(customerId)].updatedAt == Some(r.value.updatedAt)
  {
    if customerId == "" then Failure(CustomerIdRequired)
    else if CustKey(customerId) !in items then Failure(CustomerNotFound)
    else
      var a := items[CustKey(customerId)];
      if a.availAmount.None? then Failure(MissingAttribute("avail_amount"))
      else if a.maxAmount.None? then Failure(MissingAttribute("max_amount"))
      else if a.updatedAt.None? then Failure(MissingAttribute("updated_at"))
      else Success(AccountView(a.availAmount.value, a.maxAmount.value, a.updatedAt.value))
  }

  // ---------------------------------------------------------------------------
  // What the operations keep

  /** `request` succeeds exactly when the amount is positive, within the instance
      maximum, and covered by the account (a missing account is created with the
      instance maximum). It keeps the invariant and the consumed amount, so
      avail_amount + held stays what it was; it writes the account row and exactly one
      new reservation row holding `amount`, and no other row. The instance's
      `avail_amount` becomes the stored one. */
  lemma RequestEffect(items: Items, customerId: string, max: int, avail: int, amount: int,
                      expiresAt: string, clock: Clock, newId: string)
    requires Valid(items, customerId)
    requires newId != Sentinel && ReqKey(customerId, newId) !in items
    ensures var e := Request(items, customerId, max, avail, amount, expiresAt, clock, newId);
            && (e.result.Success? <==>
                  0 < amount <= max && (!HasAccount(items, customerId) || AvailOf(items, customerId) >= amount))
            && (0 < amount <= max && e.result.Failure? ==> e.result == Failure(InsufficientAmount))
            && Valid(e.items, customerId)
            && (e.result.Success? ==>
                  && HasAccount(e.items, customerId)
                  && e.avail == AvailOf(e.items, customerId) >= 0
                  && Consumed(e.items, customerId) == Consumed(items, customerId)
                  && e.items.Keys == items.Keys + {CustKey(customerId), ReqKey(customerId, newId)}
                  && e.items[CustKey(customerId)] == Updated(Lookup(items, CustKey(customerId)), clock.isoNow, max, amount)
                  && e.items[ReqKey(customerId, newId)] == NewReservation(amount, StoredExpiry(expiresAt, clock), clock)
                  && forall k | k in items && k != CustKey(customerId) :: e.items[k] == items[k])
  {
    if 0 < amount <= max {
      var s := UpsertCustomer(items, customerId, amount, max, clock.isoNow);
      UpsertCustomerEffect(items, customerId, amount, max, clock.isoNow);
      if s.result.Success? {
        RequestRows(items, customerId, max, avail, amount, expiresAt, clock, newId);
        AddRequestEffect(s.items, customerId, amount, StoredExpiry(expiresAt, clock), clock, newId);
      }
    }
  }

  /** `release` succeeds exactly when a reservation row has that id; it removes that
      row, credits its amount to the account and keeps the invariant and the consumed
      amount. On an unknown id it raises and changes nothing. */
  lemma ReleaseEffect(items: Items, customerId: string, max: int, avail: int, id: string, clock: Clock)
    requires Valid(items, customerId)
    ensures var e := Release(items, customerId, max, avail, id, clock);
            && (e.result.Success? <==> id != Sentinel && ReqKey(customerId, id) in items)
            && (e.result.Failure? ==> e == Effect(Failure(UnableToDelete), items, avail))
            && Valid(e.items, customerId)
            && (e.result.Success? ==>
                  && HasAccount(items, customerId)
                  && HasAccount(e.items, customerId)
                  && e.avail == AvailOf(e.items, customerId)
                  && e.avail == AvailOf(items, customerId) + ReqOf(items, ReqKey(customerId, id))
                  && Consumed(e.items, customerId) == Consumed(items, customerId)
                  && e.items.Keys == items.Keys - {ReqKey(customerId, id)}
                  && e.items[CustKey(customerId)]
                     == Updated(Lookup(items, CustKey(customerId)), clock.isoNow, max, -ReqOf(items, ReqKey(customerId, id)))
                  && forall k | k in e.items && k != CustKey(customerId) :: e.items[k] == items[k])
  {
    var d := DelRequest(items, customerId, id);
    DelRequestEffect(items, customerId, id);
    if d.result.Success? {
      UpsertCustomerEffect(d.items, customerId, -d.result.value, max, clock.isoNow);
    }
  }

  /** An account update by `amount` followed by one by `-amount` gives the row back,
      or, for a missing row, the row the first update created with `max_amount`
      available. */
  lemma UpdatedRoundTrip(row: Option<Item>, now: string, now': string, max: int, amount: int)
    requires row.None? || IsAccount(row.value)
    ensures Updated(Some(Updated(row, now, max, amount)), now', max, -amount)
            == if row.Some? then row.value else Item(Some(now), Some(max), Some(max), None, None, None)
  {
  }

  /** The rows a successful request leaves: the updated account row and the new
      reservation row. */
  lemma RequestRows(items: Items, customerId: string, max: int, avail: int, amount: int,
                    expiresAt: string, clock: Clock, newId: string)
    requires Request(items, customerId, max, avail, amount, expiresAt, clock, newId).result.Success?
    ensures var u := Updated(Lookup(items, CustKey(customerId)), clock.isoNow, max, amount);
            && UpdateCondition(Lookup(items, CustKey(customerId)), amount)
            && Request(items, customerId, max, avail, amount, expiresAt, clock, newId)
               == Effect(Success(newId),
                         items[CustKey(customerId) := u][ReqKey(customerId, newId) := NewReservation(amount, StoredExpiry(expiresAt, clock), clock)],
                         u.availAmount.value)
  {
  }

  /** Releasing a reservation row that was just written beside an account row `u`
      deletes it and credits `u`. */
  lemma ReleaseFreshRow(items: Items, customerId: string, max: int, avail: int, id: string, clock: Clock,
                        u: Item, res: Item)
    requires ReqKey(customerId, id) !in items && id != Sentinel
    requires res.reqAmount.Some? && u.availAmount.Some? && u.availAmount.value >= -res.reqAmount.value
    ensures var items1 := items[CustKey(customerId) := u][ReqKey(customerId, id) := res];
            var u' := Updated(Some(u), clock.isoNow, max, -res.reqAmount.value);
            Release(items1, customerId, max, avail, id, clock)
            == Effect(Success(()), items[CustKey(customerId) := u'], u'.availAmount.value)
  {
    var c := CustKey(customerId);
    var r := ReqKey(customerId, id);
    var items1 := items[c := u][r := res];
    assert items1 - {r} == items[c := u];
    var u' := Updated(Some(u), clock.isoNow, max, -res.reqAmount.value);
    assert items[c := u][c := u'] == items[c := u'];
  }

  /** Round trip: a request followed by the release of the id it returned puts back
      the available amount it found (the instance maximum for a new account), and an
      existing ledger comes back row for row. */
  lemma RequestThenRelease(items: Items, customerId: string, max: int, avail: int, amount: int,
                           expiresAt: string, clock: Clock, newId: string, clock': Clock)
    requires CustKey(customerId) in items ==> IsAccount(items[CustKey(customerId)])
    requires newId != Sentinel && ReqKey(customerId, newId) !in items
    requires Request(items, customerId, max, avail, amount, expiresAt, clock, newId).result.Success?
    ensures var e := Request(items, customerId, max, avail, amount, expiresAt, clock, newId);
            var e' := Release(e.items, customerId, max, e.avail, newId, clock');
            && e'.result.Success?
            && e'.avail == (if HasAccount(items, customerId) then AvailOf(items, customerId) else max)
            && (HasAccount(items, customerId) ==> e'.items == items)
            && (!HasAccount(items, customerId) ==>
                  e'.items == items[CustKey(customerId) := Item(Some(clock.isoNow), Some(max), Some(max), None, None, None)])
  {
    var c := CustKey(customerId);
    var row := Lookup(items, c);
    var u := Updated(row, clock.isoNow, max, amount);
    var res := NewReservation(amount, StoredExpiry(expiresAt, clock), clock);
    RequestRows(items, customerId, max, avail, amount, expiresAt, clock, newId);
    ReleaseFreshRow(items, customerId, max, u.availAmount.value, newId, clock', u, res);
    UpdatedRoundTrip(row, clock.isoNow, clock'.isoNow, max, amount);
    if row.Some? {
      assert items[c := row.value] == items;
    }
  }

  /** `reclaim_requests` deletes the expired reservations and nothing else. The account
      row, and with it `avail_amount`, is left as it was, so the reclaimed amounts
      become consumed rather than available again. The invariant is kept. */
  lemma ReclaimEffect(items: Items, customerId: string, cutoffTime: string, clock: Clock)
    requires Valid(items, customerId)
    ensures var ks := ReclaimKeys(items, customerId, ReclaimCutoff(cutoffTime, clock));
            var items' := Reclaim(items, customerId, cutoffTime, clock);
            && CustKey(customerId) !in ks
            && Valid(items', customerId)
            && Lookup(items', CustKey(customerId)) == Lookup(items, CustKey(customerId))
            && SumReq(items, ks) >= 0
            && Consumed(items', customerId) == Consumed(items, customerId) + SumReq(items, ks)
  {
    var ks := ReclaimKeys(items, customerId, ReclaimCutoff(cutoffTime, clock));
    assert ks <= Partition(items, customerId);
    forall k | k in ks
      ensures ReqOf(items, k) >= 0
    {
      assert k.requestId != Sentinel;
      assert IsReservation(items[k]);
    }
    SumReqNonNegative(items, ks);
    HeldRemove(items, customerId, ks);
  }

  /** A reservation stored with an empty `expires_at` (a request made without one) is
      selected by every non-empty cutoff. */
  lemma ReclaimEmptyExpiry(items: Items, customerId: string, id: string, cutoffTime: string, clock: Clock)
    requires ReqKey(customerId, id) in items && items[ReqKey(customerId, id)].expiresAt == Some("")
    requires ReclaimCutoff(cutoffTime, clock) != ""
    ensures ReqKey(customerId, id) !in Reclaim(items, customerId, cutoffTime, clock)
  {
    EmptyFirst(ReclaimCutoff(cutoffTime, clock));
  }

  /** A reservation whose `expires_at` is the cutoff or later is left untouched: the
      filter is strict. */
  lemma ReclaimSparesUnexpired(items: Items, customerId: string, id: string, cutoffTime: string, clock: Clock)
    requires ReqKey(customerId, id) in items && items[ReqKey(customerId, id)].expiresAt.Some?
    requires var expiry := items[ReqKey(customerId, id)].expiresAt.value;
             expiry == ReclaimCutoff(cutoffTime, clock) || Before(ReclaimCutoff(cutoffTime, clock), expiry)
    ensures var items' := Reclaim(items, customerId, cutoffTime, clock);
            ReqKey(customerId, id) in items' && items'[ReqKey(customerId, id)] == items[ReqKey(customerId, id)]
  {
    var expiry := items[ReqKey(customerId, id)].expiresAt.value;
    BeforeIrreflexive(expiry);
    BeforeTotal(ReclaimCutoff(cutoffTime, clock), expiry);
  }

  /** A request made without `expires_at` stores an empty expiry, so every reclaim
      with a non-empty cutoff, the default one included, deletes its reservation,
      however recent. */
  lemma RequestWithoutExpiryReclaimed(items: Items, customerId: string, max: int, avail: int, amount: int,
                                      clock: Clock, newId: string, cutoffTime: string, clock': Clock)
    requires Request(items, customerId, max, avail, amount, "", clock, newId).result.Success?
    requires ReclaimCutoff(cutoffTime, clock') != ""
    ensures var e := Request(items, customerId, max, avail, amount, "", clock, newId);
            ReqKey(customerId, newId) in e.items
            && ReqKey(customerId, newId) !in Reclaim(e.items, customerId, cutoffTime, clock')
  {
    RequestRows(items, customerId, max, avail, amount, "", clock, newId);
    var e := Request(items, customerId, max, avail, amount, "", clock, newId);
    ReclaimEmptyExpiry(e.items, customerId, newId, cutoffTime, clock');
  }

  /** A request made with an `expires_at` stores now + TTL in its place, and its
      reservation survives, unchanged, every reclaim whose cutoff does not sort after
      that time. */
  lemma RequestWithExpiryKept(items: Items, customerId: string, max: int, avail: int, amount: int,
                              expiresAt: string, clock: Clock, newId: string, cutoffTime: string, clock': Clock)
    requires expiresAt != ""
    requires Request(items, customerId, max, avail, amount, expiresAt, clock, newId).result.Success?
    requires !Before(clock.isoAfterTtl, ReclaimCutoff(cutoffTime, clock'))
    ensures var e := Request(items, customerId, max, avail, amount, expiresAt, clock, newId);
            && ReqKey(customerId, newId) in e.items
            && e.items[ReqKey(customerId, newId)].expiresAt == Some(clock.isoAfterTtl)
            && var items' := Reclaim(e.items, customerId, cutoffTime, clock');
               ReqKey(customerId, newId) in items'
               && items'[ReqKey(customerId, newId)] == e.items[ReqKey(customerId, newId)]
  {
    RequestRows(items, customerId, max, avail, amount, expiresAt, clock, newId);
  }

  /** A later cutoff selects every row an earlier one does. */
  lemma ReclaimMonotone(items: Items, customerId: string, cutoff: string, cutoff': string)
    requires Before(cutoff, cutoff')
    ensures ReclaimKeys(items, customerId, cutoff) <= ReclaimKeys(items, customerId, cutoff')
  {
    forall k | k in ReclaimKeys(items, customerId, cutoff)
      ensures k in ReclaimKeys(items, customerId, cutoff')
    {
      BeforeTransitive(items[k].expiresAt.value, cutoff, cutoff');
    }
  }

  /** After a successful request, `load` reads back what the instance holds. */
  lemma LoadAfterRequest(items: Items, customerId: string, max: int, avail: int, amount: int,
                         expiresAt: string, clock: Clock, newId: string)
    requires customerId != "" && Valid(items, customerId)
    requires newId != Sentinel && ReqKey(customerId, newId) !in items
    ensures var e := Request(items, customerId, max, avail, amount, expiresAt, clock, newId);
            e.result.Success? ==>
              LoadAccount(e.items, customerId).Success?
              && LoadAccount(e.items, customerId).value.availAmount == e.avail
              && LoadAccount(e.items, customerId).value.maxAmount
                 == (if HasAccount(items, customerId) then MaxOf(items, customerId) else max)
  {
    RequestEffect(items, customerId, max, avail, amount, expiresAt, clock, newId);
  }

  /** After a successful release, `load` reads back what the instance holds. */
  lemma LoadAfterRelease(items: Items, customerId: string, max: int, avail: int, id: string, clock: Clock)
    requires customerId != "" && Valid(items, customerId)
    ensures var e := Release(items, customerId, max, avail, id, clock);
            e.result.Success? ==>
              LoadAccount(e.items, customerId).Success?
              && LoadAccount(e.items, customerId).value.availAmount == e.avail
              && HasAccount(items, customerId)
              && LoadAccount(e.items, customerId).value.maxAmount == MaxOf(items, customerId)
  {
    ReleaseEffect(items, customerId, max, avail, id, clock);
  }

  // The worked example of a customer whose maximum is 1000, one call at a time.

  /** `request(700)` on a new customer creates the account at 300 and one reservation. */
  lemma QuotaFirstRequest(c: string, clock: Clock, r1: string)
    ensures var e1 := Request(map[], c, 1000, 0, 700, "", clock, r1);
            && e1.result == Success(r1) && e1.avail == 300
            && e1.items == map[CustKey(c) := Updated(None, clock.isoNow, 1000, 700),
                               ReqKey(c, r1) := NewReservation(700, "", clock)]
  {
    var s := UpsertCustomer(map[], c, 700, 1000, clock.isoNow);
    assert s.result == Success(300);
    assert s.items == map[CustKey(c) := Updated(None, clock.isoNow, 1000, 700)];
  }

  /** `request(500)` against 300 available fails and changes nothing. */
  lemma QuotaSecondRequest(c: string, clock: Clock, r1: string, r2: string)
    requires r1 != Sentinel
    ensures var items1 := map[CustKey(c) := Updated(None, clock.isoNow, 1000, 700),
                              ReqKey(c, r1) := NewReservation(700, "", clock)];
            Request(items1, c, 1000, 300, 500, "", clock, r2) == Effect(Failure(InsufficientAmount), items1, 300)
  {
    var items1 := map[CustKey(c) := Updated(None, clock.isoNow, 1000, 700),
                      ReqKey(c, r1) := NewReservation(700, "", clock)];
    assert items1[CustKey(c)].availAmount == Some(300);
  }

  /** Releasing the first reservation leaves only the account row, back at 1000. */
  lemma QuotaRelease(c: string, clock: Clock, r1: string)
    requires r1 != Sentinel
    ensures var items1 := map[CustKey(c) := Updated(None, clock.isoNow, 1000, 700),
                              ReqKey(c, r1) := NewReservation(700, "", clock)];
            var acct := Updated(Some(Updated(None, clock.isoNow, 1000, 700)), clock.isoNow, 1000, -700);
            Release(items1, c, 1000, 300, r1, clock) == Effect(Success(()), map[CustKey(c) := acct], 1000)
  {
    var items1 := map[CustKey(c) := Updated(None, clock.isoNow, 1000, 700),
                      ReqKey(c, r1) := NewReservation(700, "", clock)];
    assert DelRequest(items1, c, r1).items == map[CustKey(c) := Updated(None, clock.isoNow, 1000, 700)];
  }

  /** Worked example: a new customer with maximum 1000. `request(700)` succeeds,
      `request(500)` then fails for want of funds, releasing the first reservation
      restores 1000, and `request(500)` succeeds. */
  lemma QuotaExample(c: string, clock: Clock, r1: string, r2: string)
    requires r1 != Sentinel
    ensures var e1 := Request(map[], c, 1000, 0, 700, "", clock, r1);
            var e2 := Request(e1.items, c, 1000, e1.avail, 500, "", clock, r2);
            var e3 := Release(e2.items, c, 1000, e2.avail, r1, clock);
            var e4 := Request(e3.items, c, 1000, e3.avail, 500, "", clock, r2);
            && e1.result == Success(r1) && e1.avail == 300
            && e2.result == Failure(InsufficientAmount) && e2.avail == 300
            && e3.result.Success? && e3.avail == 1000
            && e4.result == Success(r2) && e4.avail == 500
  {
    QuotaFirstRequest(c, clock, r1);
    QuotaSecondRequest(c, clock, r1, r2);
    QuotaRelease(c, clock, r1);
  }

  // ---------------------------------------------------------------------------
  // The sentinel id passed to confirm or release

  /** For every id other than the sentinel, the conditional delete behaves as the
      code's unconditional one on a valid ledger. */
  lemma DelRequestAgrees(items: Items, customerId: string, id: string)
    requires Valid(items, customerId) && id != Sentinel
    ensures DelRequest(items, customerId, id) == DelRequestAsWritten(items, customerId, id)
  {
    if ReqKey(customerId, id) in items {
      assert IsReservation(items[ReqKey(customerId, id)]);
    }
  }

  /** As written, deleting the request named by the sentinel removes the account row and
      then raises; the conditional delete refuses it and changes nothing. */
  lemma SentinelDelete(items: Items, customerId: string)
    requires Valid(items, customerId) && CustKey(customerId) in items
    ensures var s := DelRequestAsWritten(items, customerId, Sentinel);
            s.result == Failure(MissingAttribute("req_amount")) && CustKey(customerId) !in s.items
    ensures DelRequest(items, customerId, Sentinel) == Step(Failure(UnableToDelete), items)
  {
  }

  /** The second request id of the counterexample below is a well-formed ULID. */
  lemma CounterexampleIdIsUlid()
    ensures IsUlid("01ARZ3NDEKTSV4RRFFQ69G5FAW")
  {
    var id := "01ARZ3NDEKTSV4RRFFQ69G5FAW";
    forall i | 0 <= i < |id|
      ensures IsCrockfordDigit(id[i])
    {
    }
  }

  /** Counterexample: a valid ledger with an account at 0 of 1000 and one outstanding
      hold of 1000. As written, `confirm` of the sentinel id drops the account row, the
      next `request(1000)` recreates it at 0 of 1000, and 2000 is now held against a
      maximum of 1000. */
  lemma SentinelConfirmOvercommits()
    ensures var c := "customer";
            var r1 := "01ARZ3NDEKTSV4RRFFQ69G5FAV";
            var r2 := "01ARZ3NDEKTSV4RRFFQ69G5FAW";
            var clock := Clock("2024-01-01T00:00:00", "2024-01-01T00:10:00", 0);
            var acct := Item(Some("2024-01-01T00:00:00"), Some(0), Some(1000), None, None, None);
            var items0 := map[CustKey(c) := acct, ReqKey(c, r1) := NewReservation(1000, "", clock)];
            var s := DelRequestAsWritten(items0, c, Sentinel);
            var e := Request(s.items, c, 1000, 0, 1000, "", clock, r2);
            && Valid(items0, c)
            && s.result.Failure?
            && IsUlid(r2) && ReqKey(c, r2) !in s.items
            && e.result.Success?
            && HasAccount(e.items, c) && AvailOf(e.items, c) == 0 && MaxOf(e.items, c) == 1000
            && Held(e.items, c) == 2000
            && !Valid(e.items, c)
  {
    var c := "customer";
    var r1 := "01ARZ3NDEKTSV4RRFFQ69G5FAV";
    var r2 := "01ARZ3NDEKTSV4RRFFQ69G5FAW";
    var clock := Clock("2024-01-01T00:00:00", "2024-01-01T00:10:00", 0);
    var acct := Item(Some("2024-01-01T00:00:00"), Some(0), Some(1000), None, None, None);
    var res1 := NewReservation(1000, "", clock);
    var empty: Items := map[];
    assert Partition(empty, c) == {};
    HeldEmpty(empty, c);
    HeldPut(empty, c, CustKey(c), acct);
    HeldPut(empty[CustKey(c) := acct], c, ReqKey(c, r1), res1);
    var items0 := map[CustKey(c) := acct, ReqKey(c, r1) := res1];
    assert items0 == empty[CustKey(c) := acct][ReqKey(c, r1) := res1];
    assert Held(items0, c) == 1000;
    assert Valid(items0, c);

    var items1 := map[ReqKey(c, r1) := res1];
    assert DelRequestAsWritten(items0, c, Sentinel).items == items1;
    CounterexampleIdIsUlid();
    HeldPut(empty, c, ReqKey(c, r1), res1);
    var acct' := Updated(None, clock.isoNow, 1000, 1000);
    HeldPut(items1, c, CustKey(c), acct');
    HeldPut(items1[CustKey(c) := acct'], c, ReqKey(c, r2), NewReservation(1000, "", clock));
  }
}
