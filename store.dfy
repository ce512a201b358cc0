/** The key-value table the limit manager keeps its rows in, reduced to the six kinds of
    call the manager makes (get, conditional update, put, delete, batch delete, query)
    plus the conditional delete that corrects `_del_request`. Each call is one atomic
    step on an in-memory map; the pure functions below say what a call does to the rows
    and the class methods perform it. */
module Store {
  import opened Wrappers
  import opened Timestamps

  /** Composite primary key: partition key `customer_id`, sort key `request_id`. */
  datatype Key = Key(customerId: string, requestId: string)

  /** One row. Every non-key attribute may be absent, as in the store. */
  datatype Item = Item(
    updatedAt: Option<string>,
    availAmount: Option<int>,
    maxAmount: Option<int>,
    reqAmount: Option<int>,
    expiresAt: Option<string>,
    deleteAt: Option<int>)

  type Items = map<Key, Item>

  const NoAttributes: Item := Item(None, None, None, None, None, None)

  function Lookup(items: Items, key: Key): Option<Item> {
    if key in items then Some(items[key]) else None
  }

  /** An attribute the update keeps when present, and sets to `value` when absent. */
  function IfNotExists<T>(attr: Option<T>, value: T): T {
    if attr.Some? then attr.value else value
  }

  /** Condition of the account update: it holds when the row is missing, has no
      available amount yet, or has at least `amount` available. */
  predicate UpdateCondition(row: Option<Item>, amount: int) {
    row.None? || row.value.availAmount.None? || row.value.availAmount.value >= amount
  }

  /** The row after the account update. The update stamps `updatedAt` and sets
      `maxAmount` to the default only where they are absent, and sets `availAmount` to
      its previous value (or the default) minus `amount`. A missing row is created, and
      attributes the update does not name are kept. */
  function Updated(row: Option<Item>, now: string, default: int, amount: int): (r: Item)
    ensures r.updatedAt.Some? && r.availAmount.Some? && r.maxAmount.Some?
    ensures row.Some? && row.value.updatedAt.Some? ==> r.updatedAt == row.value.updatedAt
    ensures row.Some? && row.value.maxAmount.Some? ==> r.maxAmount == row.value.maxAmount
    ensures row.None? ==> r.updatedAt == Some(now) && r.maxAmount == Some(default)
    ensures r.availAmount.value + amount
            == if row.Some? && row.value.availAmount.Some? then row.value.availAmount.value else default
    ensures row.Some? ==> r.reqAmount == row.value.reqAmount && r.expiresAt == row.value.expiresAt
                          && r.deleteAt == row.value.deleteAt
    ensures row.None? ==> r.reqAmount.None? && r.expiresAt.None? && r.deleteAt.None?
  {
    var prev := if row.Some? then row.value else NoAttributes;
    prev.(updatedAt := Some(IfNotExists(prev.updatedAt, now)),
          availAmount := Some(IfNotExists(prev.availAmount, default) - amount),
          maxAmount := Some(IfNotExists(prev.maxAmount, default)))
  }

  /** Filter `expires_at < :cutoff_time`: a row without `expires_at` never matches. */
  predicate ExpiresBefore(item: Item, cutoff: string) {
    item.expiresAt.Some? && Before(item.expiresAt.value, cutoff)
  }

  /** Request ids of one partition's rows that pass the expiry filter. */
  function QueryIds(items: Items, customerId: string, cutoff: string): (ids: set<string>)
    ensures forall k | k in items && k.customerId == customerId && ExpiresBefore(items[k], cutoff) :: k.requestId in ids
    ensures forall id | id in ids :: Key(customerId, id) in items && ExpiresBefore(items[Key(customerId, id)], cutoff)
  {
    set k | k in items && k.customerId == customerId && ExpiresBefore(items[k], cutoff) :: k.requestId
  }

  /** The table. One method per store call; each is one atomic step. */
  class Table {
    var items: Items

    constructor ()
      ensures items == map[]
    {
      items := map[];
    }

    /** `get_item(Key=key)`. */
    method GetItem(key: Key) returns (r: Option<Item>)
      ensures r == Lookup(items, key)
    {
      r := Lookup(items, key);
    }

    /** Conditional `update_item` on the account row with `ReturnValues="ALL_NEW"`;
        `None` when the condition fails, in which case nothing changes. */
    method UpdateItem(key: Key, now: string, default: int, amount: int) returns (r: Option<Item>)
      modifies this
      ensures UpdateCondition(Lookup(old(items), key), amount) ==>
                r == Some(Updated(Lookup(old(items), key), now, default, amount))
                && items == old(items)[key := r.value]
      ensures !UpdateCondition(Lookup(old(items), key), amount) ==> r.None? && items == old(items)
    {
      var row := Lookup(items, key);
      if UpdateCondition(row, amount) {
        var it := Updated(row, now, default, amount);
        items := items[key := it];
        r := Some(it);
      } else {
        r := None;
      }
    }

    /** `put_item`: replaces whatever row has the same key. */
    method PutItem(key: Key, item: Item)
      modifies this
      ensures items == old(items)[key := item]
    {
      items := items[key := item];
    }

    /** Unconditional `delete_item` with `ReturnValues="ALL_OLD"`. */
    method DeleteItem(key: Key) returns (r: Option<Item>)
      modifies this
      ensures r == Lookup(old(items), key) && items == old(items) - {key}
    {
      r := Lookup(items, key);
      items := items - {key};
    }

    /** `delete_item` with `ConditionExpression="attribute_exists(req_amount)"` and
        `ReturnValues="ALL_OLD"`: only a reservation row is deleted. */
    method DeleteReservationItem(key: Key) returns (r: Option<Item>)
      modifies this
      ensures var row := Lookup(old(items), key);
              if row.Some? && row.value.reqAmount.Some?
              then r == row && items == old(items) - {key}
              else r.None? && items == old(items)
    {
      r := Lookup(items, key);
      if r.Some? && r.value.reqAmount.Some? {
        items := items - {key};
      } else {
        r := None;
      }
    }

    /** `delete_item` inside a batch writer: no condition and no return value. */
    method BatchDeleteItem(key: Key)
      modifies this
      ensures items == old(items) - {key}
    {
      items := items - {key};
    }

    /** `query` on one partition with the expiry filter, projected on `request_id`. */
    method Query(customerId: string, cutoff: string) returns (ids: set<string>)
      ensures ids == QueryIds(items, customerId, cutoff)
    {
      ids := QueryIds(items, customerId, cutoff);
    }
  }
}
