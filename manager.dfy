/** `PerCustomerLimit`: one customer's handle on the limit ledger. Each method makes
    the same store calls, in the same order, as the manager's method of that name, with
    one exception: `DelRequest`, and with it `Confirm` and `Release`, deletes through the
    conditional `DeleteReservationItem`, which the code does not call; the code's
    unconditional delete is `DelRequestAsWritten`. Each method's postcondition ties the
    result, the table and the instance's `avail_amount` to the corresponding function
    of `Ledger`, whose lemmas state what is kept. */
module Manager {
  import opened Wrappers
  import opened Timestamps
  import opened Store
  import opened Ledger

  /** Keyword arguments of the constructor that set fields. */
  datatype Overrides = Overrides(availAmount: Option<int>, maxAmount: Option<int>)

  class PerCustomerLimit {
    const customerId: string
    /** The table handle every instance shares. */
    const table: Table
    var availAmount: int
    var maxAmount: int
    var updatedAt: Option<string>

    constructor Init(customerId: string, maxAmount: int, table: Table)
      ensures this.customerId == customerId && this.table == table
      ensures availAmount == 0 && this.maxAmount == maxAmount && updatedAt.None?
    {
      this.customerId := customerId;
      this.table := table;
      availAmount := 0;
      this.maxAmount := maxAmount;
      updatedAt := None;
    }

    /** `__init__`: a customer id is required; `avail_amount` starts at 0 and
        `max_amount` at the configured default, unless a keyword argument sets them. */
    static method Create(customerId: string, overrides: Overrides, params: Params, table: Table)
      returns (r: Result<PerCustomerLimit, LimitError>)
      ensures r.Failure? <==> customerId == ""
      ensures r.Failure? ==> r.error == CustomerIdRequired
      ensures r.Success? ==>
                && fresh(r.value)
                && r.value.customerId == customerId && r.value.table == table
                && r.value.availAmount == overrides.availAmount.GetOr(0)
                && r.value.maxAmount == overrides.maxAmount.GetOr(params.defaultCustomerMaxLimit)
                && r.value.updatedAt.None?
    {
      if customerId == "" {
        return Failure(CustomerIdRequired);
      }
      var inst := new PerCustomerLimit.Init(customerId, params.defaultCustomerMaxLimit, table);
      if overrides.availAmount.Some? {
        inst.availAmount := overrides.availAmount.value;
      }
      if overrides.maxAmount.Some? {
        inst.maxAmount := overrides.maxAmount.value;
      }
      return Success(inst);
    }

    /** `load`: a new instance filled from the account row, or the error `LoadAccount`
        names; the table is only read. */
    static method Load(customerId: string, params: Params, table: Table)
      returns (r: Result<PerCustomerLimit, LimitError>)
      ensures var v := LoadAccount(table.items, customerId);
              && (r.Failure? <==> v.Failure?)
              && (r.Failure? ==> r.error == v.error)
              && (r.Success? ==>
                    && fresh(r.value)
                    && r.value.customerId == customerId && r.value.table == table
                    && r.value.availAmount == v.value.availAmount
                    && r.value.maxAmount == v.value.maxAmount
                    && r.value.updatedAt == Some(v.value.updatedAt))
    {
      var created := Create(customerId, Overrides(None, None), params, table);
      if created.Failure? {
        return Failure(created.error);
      }
      var inst := created.value;
      var row := table.GetItem(CustKey(customerId));
      if row.None? {
        return Failure(CustomerNotFound);
      }
      var item := row.value;
      if item.availAmount.None? {
        return Failure(MissingAttribute("avail_amount"));
      }
      inst.availAmount := item.availAmount.value;
      if item.maxAmount.None? {
        return Failure(MissingAttribute("max_amount"));
      }
      inst.maxAmount := item.maxAmount.value;
      if item.updatedAt.None? {
        return Failure(MissingAttribute("updated_at"));
      }
      inst.updatedAt := item.updatedAt;
      return Success(inst);
    }

    /** `request`: reserve `amount`; `newId` is the ULID the generator yields. */
    method Request(amount: int, expiresAt: string, clock: Clock, newId: string)
      returns (r: Result<string, LimitError>)
      requires IsUlid(newId) && ReqKey(customerId, newId) !in table.items
      modifies this`availAmount, table
      ensures var e := Ledger.Request(old(table.items), customerId, maxAmount, old(availAmount),
                                      amount, expiresAt, clock, newId);
              r == e.result && table.items == e.items && availAmount == e.avail
    {
      if amount <= 0 {
        return Failure(NonPositiveAmount);
      } else if amount > maxAmount {
        return Failure(AboveMaxAmount);
      }
      var expires := expiresAt;
      if expires != "" {
        expires := clock.isoAfterTtl;
      }
      var avail := UpsertCustomer(amount, maxAmount, clock);
      if avail.Failure? {
        return Failure(avail.error);
      }
      availAmount := avail.value;
      var id := AddRequest(amount, expires, clock, newId);
      return Success(id);
    }

    /** `release`: delete the reservation, then credit its amount to the account. */
    method Release(id: string, clock: Clock) returns (r: Result<(), LimitError>)
      modifies this`availAmount, table
      ensures var e := Ledger.Release(old(table.items), customerId, maxAmount, old(availAmount), id, clock);
              r == e.result && table.items == e.items && availAmount == e.avail
    {
      var amount := DelRequest(id);
      if amount.Failure? {
        return Failure(amount.error);
      }
      var avail := UpsertCustomer(-1 * amount.value, maxAmount, clock);
      if avail.Failure? {
        return Failure(avail.error);
      }
      availAmount := avail.value;
      return Success(());
    }

    /** `confirm`: delete the reservation and return its amount; the account row and
        the instance are untouched. */
    method Confirm(id: string) returns (r: Result<int, LimitError>)
      modifies table
      ensures Step(r, table.items) == Ledger.DelRequest(old(table.items), customerId, id)
    {
      r := DelRequest(id);
    }

    /** `reset` always raises. */
    method Reset() returns (r: Result<(), LimitError>) {
      r := Failure(NotImplemented);
    }

    /** `reclaim_requests`: query the expired reservations, then delete them one by one
        in a batch. Nothing is credited back. */
    method ReclaimRequests(cutoffTime: string, clock: Clock)
      modifies table
      ensures table.items == Reclaim(old(table.items), customerId, cutoffTime, clock)
    {
      var cutoff := cutoffTime;
      if cutoff == "" {
        cutoff := clock.isoAfterTtl;
      }
      var reqIds := RequestsPrior(cutoff);
      var pending := reqIds;
      while pending != {}
        invariant pending <= reqIds
        invariant table.items == old(table.items) - (set id | id in reqIds - pending :: ReqKey(customerId, id))
        decreases pending
      {
        var rid :| rid in pending;
        ghost var deleted := set id | id in reqIds - pending :: ReqKey(customerId, id);
        table.BatchDeleteItem(ReqKey(customerId, rid));
        pending := pending - {rid};
        assert (set id | id in reqIds - pending :: ReqKey(customerId, id)) == deleted + {ReqKey(customerId, rid)};
      }
      assert reqIds - pending == reqIds;
    }

    /** `_upsert_customer`: the conditional account update; `amount` is debited
        (credited when negative). */
    method UpsertCustomer(amount: int, max: int, clock: Clock) returns (r: Result<int, LimitError>)
      modifies table
      ensures Step(r, table.items) == Ledger.UpsertCustomer(old(table.items), customerId, amount, max, clock.isoNow)
    {
      var row := table.UpdateItem(CustKey(customerId), clock.isoNow, max, amount);
      if row.None? {
        r := Failure(InsufficientAmount);
      } else {
        r := Success(row.value.availAmount.value);
      }
    }

    /** `_add_request`: put the reservation row and return its id. */
    method AddRequest(amount: int, expiresAt: string, clock: Clock, newId: string) returns (id: string)
      modifies table
      ensures id == newId
      ensures table.items == Ledger.AddRequest(old(table.items), customerId, amount, expiresAt, clock, newId)
    {
      id := newId;
      table.PutItem(ReqKey(customerId, id), NewReservation(amount, expiresAt, clock));
    }

    /** `_del_request`, with the delete conditioned on the row being a reservation. */
    method DelRequest(id: string) returns (r: Result<int, LimitError>)
      modifies table
      ensures Step(r, table.items) == Ledger.DelRequest(old(table.items), customerId, id)
    {
      var row := table.DeleteReservationItem(ReqKey(customerId, id));
      if row.None? {
        r := Failure(UnableToDelete);
      } else {
        r := Success(row.value.reqAmount.value);
      }
    }

    /** `_del_request` exactly as written: an unconditional delete. */
    method DelRequestAsWritten(id: string) returns (r: Result<int, LimitError>)
      modifies table
      ensures Step(r, table.items) == Ledger.DelRequestAsWritten(old(table.items), customerId, id)
    {
      var row := table.DeleteItem(ReqKey(customerId, id));
      if row.None? {
        r := Failure(UnableToDelete);
      } else if row.value.reqAmount.None? {
        r := Failure(MissingAttribute("req_amount"));
      } else {
        r := Success(row.value.reqAmount.value);
      }
    }

    /** `_requests_prior`: ids of the customer's reservations that expire before the cutoff. */
    method RequestsPrior(cutoff: string) returns (ids: set<string>)
      ensures ids == QueryIds(table.items, customerId, cutoff)
    {
      ids := table.Query(customerId, cutoff);
    }

    /** `__eq__`: instances are equal when customer id, available and maximum amounts
        agree; `updated_at` is not compared. */
    predicate Equals(other: PerCustomerLimit)
      reads this, other
    {
      customerId == other.customerId && availAmount == other.availAmount && maxAmount == other.maxAmount
    }
  }

  /** The release unit test: for a customer without an account row, a request and the
      release of its id leave the instance equal to what `load` reads back, with the
      available amount back at the maximum. */
  method RequestThenReleaseLoads(limit: PerCustomerLimit, amount: int, clock: Clock, clock': Clock,
                                 newId: string, params: Params)
    returns (loaded: Result<PerCustomerLimit, LimitError>)
    requires limit.customerId != "" && CustKey(limit.customerId) !in limit.table.items
    requires 0 < amount <= limit.maxAmount
    requires IsUlid(newId) && ReqKey(limit.customerId, newId) !in limit.table.items
    modifies limit, limit.table
    ensures loaded.Success? && limit.Equals(loaded.value)
    ensures loaded.value.availAmount == loaded.value.maxAmount == limit.maxAmount
  {
    ghost var items := limit.table.items;
    ghost var c := limit.customerId;
    ghost var max := limit.maxAmount;
    assert UpsertCustomer(items, c, amount, max, clock.isoNow).result.Success?;
    RequestThenRelease(items, c, max, limit.availAmount, amount, "", clock, newId, clock');
    var id := limit.Request(amount, "", clock, newId);
    var released := limit.Release(newId, clock');
    assert limit.table.items == items[CustKey(c) := Item(Some(clock.isoNow), Some(max), Some(max), None, None, None)];
    assert limit.availAmount == max;
    loaded := PerCustomerLimit.Load(limit.customerId, params, limit.table);
  }

  /** The over-limit unit test: a request the account cannot cover raises
      `InsufficientAmount`, and `load` reads back the same instance before and after. */
  method OverLimitRequestLoads(limit: PerCustomerLimit, amount: int, clock: Clock, newId: string, params: Params)
    returns (r: Result<string, LimitError>,
             before: Result<PerCustomerLimit, LimitError>, after: Result<PerCustomerLimit, LimitError>)
    requires limit.customerId != ""
    requires Valid(limit.table.items, limit.customerId) && HasAccount(limit.table.items, limit.customerId)
    requires 0 < amount <= limit.maxAmount && AvailOf(limit.table.items, limit.customerId) < amount
    requires IsUlid(newId) && ReqKey(limit.customerId, newId) !in limit.table.items
    modifies limit, limit.table
    ensures r == Failure(InsufficientAmount)
    ensures before.Success? && after.Success?
    ensures before.value.Equals(after.value)
  {
    RequestEffect(limit.table.items, limit.customerId, limit.maxAmount, limit.availAmount, amount, "", clock, newId);
    before := PerCustomerLimit.Load(limit.customerId, params, limit.table);
    r := limit.Request(amount, "", clock, newId);
    after := PerCustomerLimit.Load(limit.customerId, params, limit.table);
  }
}
