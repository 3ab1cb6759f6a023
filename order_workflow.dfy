/** The order workflow (src/pages/OrderPage.tsx): the menu, a quantity draft
    per menu item, the selected table (1 to 10) and the table's current order;
    loading a table seeds the draft from its in-progress order, submit posts the
    positive draft entries, complete marks the current order completed. */
module OrderWorkflow {
  import opened Types
  import Lists

  /** `Record<number, number>`: menu-item id to quantity. */
  type Draft = map<int, int>

  /** One entry of the submit payload, `{ menu_item, quantity }`. */
  datatype LineRequest = LineRequest(menu_item: int, quantity: int)

  /** The body of `POST /api/orders/submit/`. */
  datatype SubmitRequest = SubmitRequest(table_number: int, items: seq<LineRequest>)

  /** The table selector offers tables 1 to 10. */
  const TableCount: int := 10

  /** Some element of a non-empty set. */
  ghost function Pick<T>(s: set<T>): (x: T)
    requires s != {}
    ensures x in s
  {
    var x :| x in s; x
  }

  /** A non-empty set of integers has a least element. */
  lemma {:induction false} HasLeast(keys: set<int>)
    requires keys != {}
    ensures exists m :: m in keys && forall k :: k in keys ==> m <= k
    decreases |keys|
  {
    var x := Pick(keys);
    var rest := keys - {x};
    if |rest| == 0 {
      assert keys == {x};
      assert forall k :: k in keys ==> x <= k;
    } else {
      HasLeast(rest);
      var m :| m in rest && forall k :: k in rest ==> m <= k;
      var least := if x < m then x else m;
      assert forall k :: k in keys ==> k == x || k in rest;
      assert least in keys && forall k :: k in keys ==> least <= k;
    }
  }

  /** The least key of a non-empty key set. */
  function Least(keys: set<int>): (m: int)
    requires keys != {}
    ensures m in keys
    ensures forall k :: k in keys ==> m <= k
  {
    HasLeast(keys);
    var m :| m in keys && forall k :: k in keys ==> m <= k;
    m
  }

  /** The keys in ascending order: the order in which `Object.entries` lists
      array-index keys, the integers from 0 to 2^32 - 2 (section 10.1.11.1 of
      ECMA-262, OrdinaryOwnPropertyKeys). Menu-item ids are taken to be such
      keys. */
  function Ascending(keys: set<int>): (r: seq<int>)
    ensures forall k :: k in r <==> k in keys
    ensures forall i, j :: 0 <= i < j < |r| ==> r[i] < r[j]
    decreases |keys|
  {
    if keys == {} then []
    else
      var m := Least(keys);
      [m] + Ascending(keys - {m})
  }

  /** `.filter(([_, q]) => q > 0).map(([id, q]) => ({ menu_item: id, quantity: q }))`
      over the keys `ks`, in their order. */
  function Lines(ks: seq<int>, d: Draft): (r: seq<LineRequest>)
    requires forall k :: k in ks ==> k in d
    ensures forall l :: l in r <==> l.menu_item in ks && d[l.menu_item] == l.quantity && l.quantity > 0
    ensures (forall i, j :: 0 <= i < j < |ks| ==> ks[i] < ks[j]) ==>
              forall i, j :: 0 <= i < j < |r| ==> r[i].menu_item < r[j].menu_item
  {
    if ks == [] then []
    else
      var k := ks[0];
      var rest := Lines(ks[1..], d);
      (if d[k] > 0 then [LineRequest(k, d[k])] else []) + rest
  }

  /** The submit payload: exactly the draft entries with a positive quantity,
      one per menu item, in ascending menu-item order. */
  function Payload(d: Draft): (r: seq<LineRequest>)
    ensures forall l :: l in r <==> l.menu_item in d && d[l.menu_item] == l.quantity && l.quantity > 0
    ensures forall i, j :: 0 <= i < j < |r| ==> r[i].menu_item < r[j].menu_item
  {
    Lines(Ascending(d.Keys), d)
  }

  /** The payload is empty exactly when no draft entry is positive; that is
      when submit stops before any request. */
  lemma PayloadEmptyIff(d: Draft)
    ensures Payload(d) == [] <==> forall k :: k in d ==> d[k] <= 0
  {
    if exists k :: k in d && d[k] > 0 {
      var k :| k in d && d[k] > 0;
      assert LineRequest(k, d[k]) in Payload(d);
    }
    if Payload(d) != [] {
      assert Payload(d)[0] in Payload(d);
    }
  }

  /** Changing one quantity changes the payload only at that menu item: the
      item is sent with the new quantity exactly when it is positive, and every
      other line is sent exactly as before. */
  lemma PayloadAfterChange(d: Draft, id: int, q: int)
    ensures LineRequest(id, q) in Payload(d[id := q]) <==> q > 0
    ensures forall l: LineRequest :: l.menu_item != id ==> (l in Payload(d[id := q]) <==> l in Payload(d))
    ensures forall l: LineRequest :: l in Payload(d[id := q]) && l.menu_item == id ==> l == LineRequest(id, q)
  {
  }

  /** A draft with exactly one positive entry submits that one line. */
  lemma PayloadSingle(d: Draft, k: int)
    requires k in d && d[k] > 0
    requires forall j :: j in d && j != k ==> d[j] <= 0
    ensures Payload(d) == [LineRequest(k, d[k])]
  {
    var r := Payload(d);
    var l := LineRequest(k, d[k]);
    assert l in r;
    assert r[0] in r && r[|r| - 1] in r;
    assert r[0] == l && r[|r| - 1] == l;
    assert |r| == 1;
  }

  /** The draft `{7: 2, 9: 0}` submits the single line for item 7. */
  lemma PayloadExample()
    ensures Payload(map[7 := 2, 9 := 0]) == [LineRequest(7, 2)]
  {
    PayloadSingle(map[7 := 2, 9 := 0], 7);
  }

  /** The draft seeded from an order's items: `q[i.menu_item] = i.quantity`
      for each item in turn, so a later duplicate overwrites an earlier one. */
  function DraftOf(items: seq<OrderItem>): (r: Draft)
    ensures |r| <= |items|
    ensures items != [] ==> items[|items| - 1].menu_item in r && r[items[|items| - 1].menu_item] == items[|items| - 1].quantity
  {
    if items == [] then map[]
    else
      var n := |items| - 1;
      DraftOf(items[..n])[items[n].menu_item := items[n].quantity]
  }

  /** The seeded draft has a key for every menu item of the order and no
      other, and holds the quantity of the last item naming it. */
  lemma {:induction false} DraftOfLastWins(items: seq<OrderItem>)
    ensures forall k :: k in DraftOf(items) <==> exists i :: 0 <= i < |items| && items[i].menu_item == k
    ensures forall i :: 0 <= i < |items| && (forall j :: i < j < |items| ==> items[j].menu_item != items[i].menu_item) ==>
              DraftOf(items)[items[i].menu_item] == items[i].quantity
  {
    if items != [] {
      var n := |items| - 1;
      var prefix := items[..n];
      var last := items[n];
      assert DraftOf(items) == DraftOf(prefix)[last.menu_item := last.quantity];
      DraftOfLastWins(prefix);
      forall k | k in DraftOf(items) ensures exists i :: 0 <= i < |items| && items[i].menu_item == k {
        if k != last.menu_item {
          assert k in DraftOf(prefix);
          var i :| 0 <= i < |prefix| && prefix[i].menu_item == k;
          assert items[i] == prefix[i];
        } else {
          assert items[n].menu_item == k;
        }
      }
      forall k | exists i :: 0 <= i < |items| && items[i].menu_item == k ensures k in DraftOf(items) {
        var i :| 0 <= i < |items| && items[i].menu_item == k;
        if i < n {
          assert prefix[i] == items[i];
        }
      }
      forall i | 0 <= i < |items| && (forall j :: i < j < |items| ==> items[j].menu_item != items[i].menu_item)
        ensures DraftOf(items)[items[i].menu_item] == items[i].quantity
      {
        if i < n {
          assert last.menu_item != items[i].menu_item;
          assert prefix[i] == items[i];
          assert forall j :: i < j < |prefix| ==> prefix[j].menu_item != prefix[i].menu_item by {
            forall j | i < j < |prefix| ensures prefix[j].menu_item != prefix[i].menu_item {
              assert prefix[j] == items[j];
            }
          }
        }
      }
    }
  }

  /** An order whose items name distinct menu items with positive quantities
      is seeded into a draft whose payload sends exactly those items back. */
  lemma SeededPayload(items: seq<OrderItem>)
    requires forall i, j :: 0 <= i < j < |items| ==> items[i].menu_item != items[j].menu_item
    requires forall i :: 0 <= i < |items| ==> items[i].quantity > 0
    ensures forall l :: l in Payload(DraftOf(items)) <==>
              exists i :: 0 <= i < |items| && l == LineRequest(items[i].menu_item, items[i].quantity)
  {
    DraftOfLastWins(items);
    var d := DraftOf(items);
    forall l | l in Payload(d)
      ensures exists i :: 0 <= i < |items| && l == LineRequest(items[i].menu_item, items[i].quantity)
    {
      var i :| 0 <= i < |items| && items[i].menu_item == l.menu_item;
      assert d[items[i].menu_item] == items[i].quantity;
    }
    forall i | 0 <= i < |items|
      ensures LineRequest(items[i].menu_item, items[i].quantity) in Payload(d)
    {
      assert d[items[i].menu_item] == items[i].quantity;
    }
  }

  /** The seeding loop, `activeOrder.items.forEach(i => { q[i.menu_item] = i.quantity })`. */
  method SeedQuantities(items: seq<OrderItem>) returns (q: Draft)
    ensures q == DraftOf(items)
  {
    q := map[];
    for i := 0 to |items|
      invariant q == DraftOf(items[..i])
    {
      q := q[items[i].menu_item := items[i].quantity];
      assert items[..i + 1][..i] == items[..i];
    }
    assert items[..|items|] == items;
  }

  /** `orders.find(o => o.status === "in_progress")`: the first order of the
      table still in progress. */
  function ActiveOrder(orders: seq<Order>): (r: Option<Order>)
    ensures r.None? <==> forall o :: o in orders ==> o.status != InProgress
    ensures r.Some? ==> r.value.status == InProgress
    ensures r.Some? ==> exists i :: 0 <= i < |orders| && orders[i] == r.value &&
                          forall j :: 0 <= j < i ==> orders[j].status != InProgress
  {
    Lists.Find(orders, IsInProgress)
  }

  /** `{ ...currentOrder, status: "completed" }`: the status becomes
      completed and every other field stays as it was. */
  function MarkCompleted(o: Order): (r: Order)
    ensures r.status == Completed
    ensures r.(status := o.status) == o
  {
    o.(status := Completed)
  }

  /** The complete button is shown exactly for a current order in progress. */
  function CompleteOffered(current: Option<Order>): (r: bool)
    ensures r <==> current.Some? && IsInProgress(current.value)
    ensures r ==> current.value.status != Completed
  {
    current.Some? && current.value.status == InProgress
  }

  /** Once completed, an order no longer offers the complete button. */
  lemma CompletedHidesAction(o: Order)
    ensures CompleteOffered(Some(o)) <==> o.status == InProgress
    ensures !CompleteOffered(Some(MarkCompleted(o)))
  {
  }

  /** The page state after the table's orders have been fetched (or the fetch
      failed): the current order and the draft. */
  function AfterFetch(response: Response<seq<Order>>): (r: (Option<Order>, Draft))
    ensures response.Failed? ==> r == (None, map[])
    ensures response.Ok? ==> r.0 == ActiveOrder(response.data)
    ensures r.0.None? ==> r.1 == map[]
    ensures r.0.Some? ==> r.1 == DraftOf(r.0.value.items)
  {
    match response
    case Failed => (None, map[])
    case Ok(orders) =>
      var active := ActiveOrder(orders);
      if active.Some? then (active, DraftOf(active.value.items)) else (None, map[])
  }

  /** Table 3 holds one in-progress order with two of item 7;
      loading it makes that order current and seeds `{7: 2}`. */
  lemma SeedExample(o: Order)
    requires o.status == InProgress && o.table_number == 3
    requires o.items == [OrderItem(1, 7, "x", "9.50", 2)]
    ensures AfterFetch(Ok([o])) == (Some(o), map[7 := 2])
  {
    assert Lists.FindIndex([o], IsInProgress) == Some(0);
    assert ActiveOrder([o]) == Some(o);
    assert o.items[..0] == [];
    assert DraftOf(o.items) == map[7 := 2];
  }

  class OrderPage {
    var menu: seq<MenuItem>
    var quantities: Draft
    var table: int
    var currentOrder: Option<Order>

    /** The selected table is one the selector offers; every handler keeps
        it, so a submitted order always names such a table. */
    ghost predicate Valid()
      reads this
    {
      1 <= table <= TableCount
    }

    /** The initial state, before the mount effects resolve: no menu, an empty
        draft, table 1, no current order. */
    constructor ()
      ensures Valid()
      ensures menu == [] && quantities == map[] && table == 1 && currentOrder == None
    {
      menu := [];
      quantities := map[];
      table := 1;
      currentOrder := None;
    }

    /** `api.get("/api/menu-items/").then(res => setMenu(res.data))`: there is
        no catch, so a failed load leaves the menu as it was. */
    method LoadMenu(response: Response<seq<MenuItem>>)
      requires Valid()
      modifies this
      ensures Valid()
      ensures menu == (if response.Ok? then response.data else old(menu))
      ensures quantities == old(quantities) && table == old(table) && currentOrder == old(currentOrder)
    {
      if response.Ok? {
        menu := response.data;
      }
    }

    /** `fetchOrder()`: adopt the table's first in-progress order and seed the
        draft from it; with no such order, or a failed fetch, clear both. */
    method FetchOrder(response: Response<seq<Order>>)
      requires Valid()
      modifies this
      ensures Valid()
      ensures (currentOrder, quantities) == AfterFetch(response)
      ensures menu == old(menu) && table == old(table)
    {
      match response
      case Failed =>
        currentOrder := None;
        quantities := map[];
      case Ok(orders) =>
        var active := Lists.Find(orders, IsInProgress);
        if active.Some? {
          currentOrder := active;
          var q := SeedQuantities(active.value.items);
          quantities := q;
        } else {
          currentOrder := None;
          quantities := map[];
        }
    }

    /** `setTable(t)`: the fetch effect depends on `table`, so it runs only
        when the table actually changes. */
    method SelectTable(t: int, response: Response<seq<Order>>)
      requires 1 <= t <= TableCount
      modifies this
      ensures Valid() && table == t && menu == old(menu)
      ensures t == old(table) ==> quantities == old(quantities) && currentOrder == old(currentOrder)
      ensures t != old(table) ==> (currentOrder, quantities) == AfterFetch(response)
    {
      if t != table {
        table := t;
        FetchOrder(response);
      }
    }

    /** `handleQuantityChange(id, qty)`: overwrite one entry of the draft. */
    method ChangeQuantity(id: int, qty: int)
      requires Valid()
      modifies this
      ensures Valid()
      ensures quantities == old(quantities)[id := qty]
      ensures forall k :: k != id ==> (k in quantities <==> k in old(quantities))
      ensures forall k :: k != id && k in quantities ==> quantities[k] == old(quantities)[k]
      ensures menu == old(menu) && table == old(table) && currentOrder == old(currentOrder)
    {
      quantities := quantities[id := qty];
    }

    /** `handleSubmit()`: with no positive entry, nothing is sent and nothing
        changes; otherwise the payload is posted for the selected table, a
        success makes the response the current order, and the draft is kept
        either way. */
    method Submit(response: Response<Order>) returns (sent: Option<SubmitRequest>)
      requires Valid()
      modifies this
      ensures Valid()
      ensures sent.None? <==> Payload(old(quantities)) == []
      ensures sent.Some? ==> sent.value == SubmitRequest(old(table), Payload(old(quantities)))
      ensures sent.Some? ==> 1 <= sent.value.table_number <= TableCount
      ensures currentOrder == if sent.Some? && response.Ok? then Some(response.data) else old(currentOrder)
      ensures quantities == old(quantities) && table == old(table) && menu == old(menu)
    {
      var items := Payload(quantities);
      if |items| == 0 {
        sent := None;
        return;
      }
      sent := Some(SubmitRequest(table, items));
      if response.Ok? {
        currentOrder := Some(response.data);
      }
    }

    /** `handleComplete()`: without a current order nothing happens; otherwise
        its id is patched, and on success only its status changes. There is no
        confirmation step. */
    method Complete(succeeded: bool) returns (patched: Option<int>)
      requires Valid()
      modifies this
      ensures Valid()
      ensures patched == if old(currentOrder).Some? then Some(old(currentOrder).value.id) else None
      ensures currentOrder == if old(currentOrder).Some? && succeeded then Some(MarkCompleted(old(currentOrder).value)) else old(currentOrder)
      ensures quantities == old(quantities) && table == old(table) && menu == old(menu)
    {
      if currentOrder.None? {
        patched := None;
        return;
      }
      patched := Some(currentOrder.value.id);
      if succeeded {
        currentOrder := Some(MarkCompleted(currentOrder.value));
      }
    }
  }
}
