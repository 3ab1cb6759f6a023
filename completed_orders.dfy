/** The completed-orders screen (src/pages/CompletedOrdersPage.tsx): the
    list of closed orders, each of which a click expands to show its lines
    and a second click collapses again. */
module CompletedOrders {
  import opened Types
  import Lists

  /** The click handler: `expandedId === id ? null : id`. */
  function Toggle(expanded: Option<int>, id: int): (r: Option<int>)
    ensures r == None <==> expanded == Some(id)
    ensures r != None ==> r == Some(id)
  {
    if expanded == Some(id) then None else Some(id)
  }

  /** Two clicks on the same order leave nothing expanded, unless that order
      was the expanded one, in which case it is expanded again. */
  lemma ToggleTwice(expanded: Option<int>, id: int)
    ensures Toggle(Toggle(expanded, id), id) == if expanded == Some(id) then Some(id) else None
  {
  }

  /** The orders whose details are shown: those whose id is the expanded one. */
  function ExpandedOrders(orders: seq<Order>, expanded: Option<int>): (r: seq<Order>)
    ensures forall o :: o in r <==> o in orders && expanded == Some(o.id)
  {
    Lists.FilterMembers(orders, (o: Order) => expanded == Some(o.id));
    Lists.Filter(orders, (o: Order) => expanded == Some(o.id))
  }

  /** With ids unique, at most one order shows its details. */
  lemma AtMostOneExpanded(orders: seq<Order>, expanded: Option<int>)
    requires forall i, j :: 0 <= i < j < |orders| ==> orders[i].id != orders[j].id
    ensures |ExpandedOrders(orders, expanded)| <= 1
  {
    if k :| 0 <= k < |orders| && expanded == Some(orders[k].id) {
      ExpandedAt(orders, k, expanded);
    } else {
      Lists.FilterKeepsNone(orders, (o: Order) => expanded == Some(o.id));
    }
  }

  /** With ids unique, expanding the order at position `k` shows that order's
      details and no other's. */
  lemma ExpandedAt(orders: seq<Order>, k: nat, expanded: Option<int>)
    requires forall i, j :: 0 <= i < j < |orders| ==> orders[i].id != orders[j].id
    requires k < |orders| && expanded == Some(orders[k].id)
    ensures ExpandedOrders(orders, expanded) == [orders[k]]
  {
    forall i | 0 <= i < |orders| && i != k ensures expanded != Some(orders[i].id) {
      if i < k {
        assert orders[i].id != orders[k].id;
      } else {
        assert orders[k].id != orders[i].id;
      }
    }
    Lists.FilterSingle(orders, k, (o: Order) => expanded == Some(o.id));
  }

  /** Clicking the order at position `k` shows exactly its details when it
      was collapsed, and shows none when it was the expanded one. */
  lemma ClickShowsOnlyThatOrder(orders: seq<Order>, k: nat, expanded: Option<int>)
    requires forall i, j :: 0 <= i < j < |orders| ==> orders[i].id != orders[j].id
    requires k < |orders|
    ensures ExpandedOrders(orders, Toggle(expanded, orders[k].id))
            == if expanded == Some(orders[k].id) then [] else [orders[k]]
  {
    if expanded == Some(orders[k].id) {
      Lists.FilterKeepsNone(orders, (o: Order) => None == Some(o.id));
    } else {
      ExpandedAt(orders, k, Some(orders[k].id));
    }
  }

  /** The detail rows of an order: its lines with a positive quantity, in
      their order. */
  function VisibleRows(items: seq<OrderItem>): (r: seq<OrderItem>)
    ensures forall it :: it in r <==> it in items && it.quantity > 0
  {
    Lists.FilterMembers(items, (it: OrderItem) => it.quantity > 0);
    Lists.Filter(items, (it: OrderItem) => it.quantity > 0)
  }

  /** The rows follow the lines one by one: a line with a positive quantity
      adds its row at the end, any other line adds none. */
  lemma VisibleRowsAppend(items: seq<OrderItem>, it: OrderItem)
    ensures VisibleRows(items + [it]) == VisibleRows(items) + (if it.quantity > 0 then [it] else [])
  {
    Lists.FilterAppend(items, [it], (it: OrderItem) => it.quantity > 0);
    assert [it][1..] == [];
  }

  /** An order with no positive quantity shows an empty table. */
  lemma NoRowsForZeroQuantities(items: seq<OrderItem>)
    requires forall it :: it in items ==> it.quantity <= 0
    ensures VisibleRows(items) == []
  {
    Lists.FilterKeepsNone(items, (it: OrderItem) => it.quantity > 0);
  }

  /** "No completed orders found." is shown exactly for the empty list. */
  function ShowsEmptyMessage(orders: seq<Order>): (r: bool)
    ensures r <==> orders == []
    ensures r ==> forall e :: ExpandedOrders(orders, e) == []
  {
    |orders| == 0
  }

  class CompletedOrdersPage {
    var orders: seq<Order>
    var expandedId: Option<int>

    /** No orders yet and nothing expanded. */
    constructor ()
      ensures orders == [] && expandedId == None
      ensures ShowsEmptyMessage(orders)
    {
      orders := [];
      expandedId := None;
    }

    /** `fetchCompleted()`: a success replaces the list, a failure keeps it. */
    method FetchCompleted(response: Response<seq<Order>>)
      modifies this
      ensures orders == if response.Ok? then response.data else old(orders)
      ensures ShowsEmptyMessage(orders) <==> if response.Ok? then response.data == [] else old(orders) == []
      ensures expandedId == old(expandedId)
    {
      if response.Ok? {
        orders := response.data;
      }
    }

    /** A click on an order's header row toggles its details. */
    method Click(order: Order)
      modifies this
      ensures expandedId == Toggle(old(expandedId), order.id)
      ensures orders == old(orders)
    {
      expandedId := if expandedId == Some(order.id) then None else Some(order.id);
    }

    /** The rows shown under an order: its visible rows when it is the
        expanded one, none otherwise. */
    function Details(order: Order): (r: Option<seq<OrderItem>>)
      reads this
      ensures r.Some? <==> expandedId == Some(order.id)
      ensures r.Some? ==> r.value == VisibleRows(order.items)
    {
      if expandedId == Some(order.id) then Some(VisibleRows(order.items)) else None
    }
  }
}
