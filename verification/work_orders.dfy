/**
 The work-order controller: creating an order, moving it through the status
 table, and adding or deleting line items with the total recomputed after
 each change. The database is an in-memory `Store`; a transaction that
 rolls back is an operation that answers with an error and the store it
 was given.
 */
module WorkOrders {
  import opened Results
  import opened WorkOrderStatus
  import opened OrderItems
  import opened Ledger
  import opened Validators

  /** A row of the work-orders table (its id is the key it is stored under). */
  datatype Order = Order(
    vehicleId: nat,
    entryDate: string,
    faultDescription: string,
    status: Status,
    total: int)

  /**
   The database: orders by id, the order-items table in insertion order, and
   the next value of each auto-increment id.
   */
  datatype Store = Store(
    orders: map<nat, Order>,
    items: seq<Item>,
    nextOrderId: nat,
    nextItemId: nat)

  /** An empty database; auto-increment ids start at 1. */
  const EmptyStore: Store := Store(map[], [], 1, 1)

  /** The errors the controller raises, each with the HTTP status it is answered with. */
  datatype Failure =
    | OrderNotFound
    | ItemNotFound
    | VehicleNotFound
    | InvalidTransition(current: Status, requested: string, allowed: seq<Status>)
    | OrderClosed(status: Status)
    | ValidationFailed
    | Internal

  function HttpStatus(f: Failure): (code: nat)
    ensures code == 404 <==> f.OrderNotFound? || f.ItemNotFound?
    ensures code == 500 <==> f.Internal?
    ensures code == 400 || code == 404 || code == 500
  {
    match f
    case OrderNotFound => 404
    case ItemNotFound => 404
    case VehicleNotFound => 400
    case InvalidTransition(_, _, _) => 400
    case OrderClosed(_) => 400
    case ValidationFailed => 400
    case Internal => 500
  }

  /** The state after an operation together with what the caller is answered. */
  datatype Response<T> = Response(store: Store, result: Result<T, Failure>)

  // ---------------------------------------------------------------------
  // Store invariant
  // ---------------------------------------------------------------------

  /** Every order id was handed out by the auto-increment counter. */
  ghost predicate OrderIdsAllocated(st: Store)
  {
    forall id :: id in st.orders ==> id < st.nextOrderId
  }

  /** Every order passed the model validator on its fault description. */
  ghost predicate OrdersWellFormed(st: Store)
  {
    forall id :: id in st.orders ==> NotBlank(st.orders[id].faultDescription)
  }

  /**
   Every item satisfies its column constraints, belongs to an existing order,
   and has an id handed out by the counter; no two items share an id.
   */
  ghost predicate ItemsWellFormed(st: Store)
  {
    && (forall i :: 0 <= i < |st.items| ==>
          && ValidItem(st.items[i])
          && st.items[i].workOrderId in st.orders
          && st.items[i].id < st.nextItemId)
    && (forall i, j :: 0 <= i < j < |st.items| ==> st.items[i].id != st.items[j].id)
  }

  /** Every stored total equals the total recomputed from the order's items. */
  ghost predicate TotalsConsistent(st: Store)
  {
    forall id :: id in st.orders ==> st.orders[id].total == OrderTotal(st.items, id)
  }

  ghost predicate Valid(st: Store)
  {
    OrderIdsAllocated(st) && OrdersWellFormed(st) && ItemsWellFormed(st) && TotalsConsistent(st)
  }

  lemma EmptyStoreValid()
    ensures Valid(EmptyStore)
  {
  }

  /** In a valid store every total, and every item subtotal, is non-negative. */
  lemma TotalsNonNegative(st: Store)
    requires Valid(st)
    ensures forall id :: id in st.orders ==> st.orders[id].total >= 0
    ensures forall i :: 0 <= i < |st.items| ==> Subtotal(st.items[i]) >= 0
  {
    forall id | id in st.orders ensures st.orders[id].total >= 0 {
      OrderTotalNonNegative(st.items, id);
    }
    forall i | 0 <= i < |st.items| ensures Subtotal(st.items[i]) >= 0 {
      SubtotalBounds(st.items[i]);
    }
  }

  // ---------------------------------------------------------------------
  // Total recalculation
  // ---------------------------------------------------------------------

  /**
   Recomputes the total of order `oid` from the item table and writes it to
   the order. Updating an order that does not exist writes nothing.
   */
  function RecalculateTotal(st: Store, oid: nat): (r: (Store, int))
    ensures r.0.items == st.items
    ensures r.0.nextOrderId == st.nextOrderId && r.0.nextItemId == st.nextItemId
    ensures oid in st.orders ==> r.0.orders == st.orders[oid := st.orders[oid].(total := r.1)]
    ensures oid !in st.orders ==> r.0 == st
    ensures r.1 == Total(ItemsOf(st.items, oid))
  {
    var total := OrderTotal(st.items, oid);
    if oid in st.orders then
      (st.(orders := st.orders[oid := st.orders[oid].(total := total)]), total)
    else
      (st, total)
  }

  // ---------------------------------------------------------------------
  // Creating an order
  // ---------------------------------------------------------------------

  /** The body of a create request; a field the client did not send is `None`. */
  datatype CreateRequest = CreateRequest(
    vehicleId: Option<nat>,
    entryDate: Option<string>,
    faultDescription: Option<string>)

  /** The entry date stored: the one given, or `today` when none (or an empty one) is given. */
  function EntryDate(given: Option<string>, today: string): (d: string)
    ensures given.Some? && given.value != "" ==> d == given.value
    ensures given.None? || given.value == "" ==> d == today
  {
    if given.Some? && given.value != "" then given.value else today
  }

  /**
   Creates an order for an existing vehicle. `vehicles` is the set of vehicle
   ids the vehicle table holds and `today` the server's current date.
   The new order starts in status RECIBIDA with total 0 and no items.
   */
  function CreateWorkOrder(st: Store, vehicles: set<nat>, req: CreateRequest, today: string): (r: Response<nat>)
    ensures r.result.Err? ==> r.store == st
    ensures req.vehicleId.None? || req.vehicleId.value !in vehicles ==> r.result == Err(VehicleNotFound)
    ensures req.vehicleId.Some? && req.vehicleId.value in vehicles ==>
      (r.result == Err(ValidationFailed) <==> req.faultDescription.None? || !NotBlank(req.faultDescription.value))
    ensures
      && req.vehicleId.Some? && req.vehicleId.value in vehicles
      && req.faultDescription.Some? && NotBlank(req.faultDescription.value)
      && st.nextOrderId !in st.orders
      ==> r.result.Ok?
    ensures r.result.Ok? ==>
      && req.faultDescription.Some? && NotBlank(req.faultDescription.value)
      && r.result.value == st.nextOrderId
      && r.result.value !in st.orders
      && r.store.orders == st.orders[r.result.value :=
           Order(req.vehicleId.value, EntryDate(req.entryDate, today), req.faultDescription.value, Recibida, 0)]
      && r.store.items == st.items
      && r.store.nextOrderId == st.nextOrderId + 1
      && r.store.nextItemId == st.nextItemId
  {
    if req.vehicleId.None? || req.vehicleId.value !in vehicles then
      Response(st, Err(VehicleNotFound))
    else if req.faultDescription.None? || !NotBlank(req.faultDescription.value) then
      Response(st, Err(ValidationFailed))
    else if st.nextOrderId in st.orders then
      // The counter never hands out an id twice; the insert would violate the key.
      Response(st, Err(Internal))
    else
      var id := st.nextOrderId;
      var order := Order(req.vehicleId.value, EntryDate(req.entryDate, today),
                         req.faultDescription.value, Recibida, 0);
      Response(st.(orders := st.orders[id := order], nextOrderId := id + 1), Ok(id))
  }

  lemma CreatePreservesValid(st: Store, vehicles: set<nat>, req: CreateRequest, today: string)
    requires Valid(st)
    ensures Valid(CreateWorkOrder(st, vehicles, req, today).store)
    ensures CreateWorkOrder(st, vehicles, req, today).result != Err(Internal)
  {
    var r := CreateWorkOrder(st, vehicles, req, today);
    if r.result.Ok? {
      InsertOrderPreservesValid(st, r.result.value, r.store.orders[r.result.value], r.store);
    }
  }

  /** Inserting a fresh order with total 0 and a fault description that is not blank keeps the store valid. */
  lemma InsertOrderPreservesValid(st: Store, id: nat, order: Order, s': Store)
    requires Valid(st)
    requires id == st.nextOrderId && order.total == 0 && NotBlank(order.faultDescription)
    requires s' == st.(orders := st.orders[id := order], nextOrderId := id + 1)
    ensures Valid(s')
  {
    assert ItemsWellFormed(s');
    forall i | 0 <= i < |st.items| ensures st.items[i].workOrderId != id {
    }
    OrderTotalWithoutItems(st.items, id);
    assert TotalsConsistent(s');
  }

  /**
   The create handler as the controller writes it: the vehicle is looked up
   and then passed to the insert under the name `moto_id`, which the order
   model does not declare. The mandatory `vehicle_id` column is therefore
   left empty and the insert fails validation, whatever the request.
   */
  function CreateWorkOrderAsWritten(st: Store, vehicles: set<nat>, req: CreateRequest, today: string): (r: Response<nat>)
    ensures r.store == st
    ensures r.result.Err? && HttpStatus(r.result.error) == 400
    ensures req.vehicleId.None? || req.vehicleId.value !in vehicles ==> r.result == Err(VehicleNotFound)
  {
    if req.vehicleId.None? || req.vehicleId.value !in vehicles then
      Response(st, Err(VehicleNotFound))
    else
      Response(st, Err(ValidationFailed))
  }

  /**
   Every well-formed request for an existing vehicle is refused by the
   handler as written, while the intended creation succeeds with a fresh id.
   */
  lemma CreateAsWrittenRefusesValidRequests(st: Store, vehicles: set<nat>, req: CreateRequest, today: string)
    requires Valid(st)
    requires req.vehicleId.Some? && req.vehicleId.value in vehicles
    requires req.faultDescription.Some? && NotBlank(req.faultDescription.value)
    ensures CreateWorkOrderAsWritten(st, vehicles, req, today).result == Err(ValidationFailed)
    ensures CreateWorkOrder(st, vehicles, req, today).result == Ok(st.nextOrderId)
  {
    assert st.nextOrderId !in st.orders;
  }

  // ---------------------------------------------------------------------
  // Changing the status
  // ---------------------------------------------------------------------

  /**
   Moves order `id` to the status named `newStatus` when the transition
   table allows it from the order's current status. Only the status changes.
   */
  function UpdateWorkOrderStatus(st: Store, id: nat, newStatus: string): (r: Response<Order>)
    ensures r.result.Err? ==> r.store == st
    ensures id !in st.orders ==> r.result == Err(OrderNotFound)
    ensures id in st.orders ==>
      var cur := st.orders[id].status;
      (r.result.Ok? <==> exists t :: Name(t) == newStatus && CanTransition(cur, t))
    ensures id in st.orders && r.result.Err? ==>
      var cur := st.orders[id].status;
      r.result.error == InvalidTransition(cur, newStatus, AllowedTargets(cur))
    ensures r.result.Ok? ==>
      && id in st.orders
      && Name(r.result.value.status) == newStatus
      && Stage(st.orders[id].status) < Stage(r.result.value.status)
      && r.result.value == st.orders[id].(status := r.result.value.status)
      && r.store == st.(orders := st.orders[id := r.result.value])
  {
    if id !in st.orders then
      Response(st, Err(OrderNotFound))
    else
      var order := st.orders[id];
      var allowed := AllowedTargets(order.status);
      var target := Parse(newStatus);
      if target.Some? && target.value in allowed then
        var updated := order.(status := target.value);
        Response(st.(orders := st.orders[id := updated]), Ok(updated))
      else
        Response(st, Err(InvalidTransition(order.status, newStatus, allowed)))
  }

  /** Asking for the status an order already has is always refused. */
  lemma SameStatusRefused(st: Store, id: nat)
    requires id in st.orders
    ensures UpdateWorkOrderStatus(st, id, Name(st.orders[id].status)).result.Err?
  {
  }

  lemma UpdatePreservesValid(st: Store, id: nat, newStatus: string)
    requires Valid(st)
    ensures Valid(UpdateWorkOrderStatus(st, id, newStatus).store)
  {
  }

  /**
   The statuses order `id` passes through while a series of status requests
   is applied to it, starting with its current status; refused requests
   leave it where it is. Consecutive statuses are always allowed moves.
   */
  function StatusesVisited(st: Store, id: nat, requests: seq<string>): (r: seq<Status>)
    requires id in st.orders
    ensures |r| >= 1 && r[0] == st.orders[id].status
    ensures IsRun(r)
    decreases |requests|
  {
    if requests == [] then [st.orders[id].status]
    else
      var step := UpdateWorkOrderStatus(st, id, requests[0]);
      if step.result.Ok? then
        var rest := StatusesVisited(step.store, id, requests[1..]);
        assert rest[0] == step.result.value.status;
        [st.orders[id].status] + rest
      else
        StatusesVisited(st, id, requests[1..])
  }

  /**
   However many status requests are sent, an order changes status at most
   four times and never returns to a status it has left.
   */
  lemma AtMostFourStatusChanges(st: Store, id: nat, requests: seq<string>)
    requires id in st.orders
    ensures |StatusesVisited(st, id, requests)| <= 5
    ensures var r := StatusesVisited(st, id, requests);
      forall i, j :: 0 <= i < j < |r| ==> r[i] != r[j]
  {
    RunsAreShortAndSimple(StatusesVisited(st, id, requests));
  }

  // ---------------------------------------------------------------------
  // Adding and deleting items
  // ---------------------------------------------------------------------

  /**
   Adds an item to order `oid` and recomputes the order's total, answering
   with the new row and the new total. Orders that are delivered or
   cancelled cannot be edited.
   */
  function AddOrderItem(st: Store, oid: nat, req: ItemRequest): (r: Response<(Item, int)>)
    ensures r.result.Err? ==> r.store == st
    ensures oid !in st.orders ==> r.result == Err(OrderNotFound)
    ensures oid in st.orders && IsTerminal(st.orders[oid].status) ==>
      r.result == Err(OrderClosed(st.orders[oid].status))
    ensures oid in st.orders && !IsTerminal(st.orders[oid].status) && r.result.Err? ==>
      && r.result.error == ValidationFailed
      && forall it :: Describes(req, st.nextItemId, oid, it) ==> !ValidItem(it)
    ensures r.result.Ok? ==>
      var (item, total) := r.result.value;
      && oid in st.orders
      && !IsTerminal(st.orders[oid].status)
      && Describes(req, st.nextItemId, oid, item)
      && ValidItem(item)
      && r.store.items == st.items + [item]
      && total == OrderTotal(st.items, oid) + Subtotal(item)
      && r.store.orders == st.orders[oid := st.orders[oid].(total := total)]
      && r.store.nextItemId == st.nextItemId + 1
      && r.store.nextOrderId == st.nextOrderId
  {
    if oid !in st.orders then
      Response(st, Err(OrderNotFound))
    else if IsTerminal(st.orders[oid].status) then
      Response(st, Err(OrderClosed(st.orders[oid].status)))
    else
      match BuildItem(req, st.nextItemId, oid)
      case None => Response(st, Err(ValidationFailed))
      case Some(item) =>
        var inserted := st.(items := st.items + [item], nextItemId := st.nextItemId + 1);
        var (after, total) := RecalculateTotal(inserted, oid);
        OrderTotalAppend(st.items, item, oid);
        Response(after, Ok((item, total)))
  }

  /**
   In a consistent store, the total answered by a successful add is the
   order's previous total plus the new row's subtotal.
   */
  lemma AddRaisesTotalBySubtotal(st: Store, oid: nat, req: ItemRequest)
    requires Valid(st)
    ensures
      var r := AddOrderItem(st, oid, req);
      r.result.Ok? ==> r.result.value.1 == st.orders[oid].total + Subtotal(r.result.value.0)
  {
  }

  lemma AddPreservesValid(st: Store, oid: nat, req: ItemRequest)
    requires Valid(st)
    ensures Valid(AddOrderItem(st, oid, req).store)
  {
    var r := AddOrderItem(st, oid, req);
    if r.result.Ok? {
      var (item, total) := r.result.value;
      RowsAfterAppend(st, item, total, r.store);
      TotalsAfterAppend(st, item, r.store);
    }
  }

  /** Inserting a fresh valid row for an existing order keeps the row constraints. */
  lemma RowsAfterAppend(st: Store, item: Item, total: int, s': Store)
    requires OrderIdsAllocated(st) && OrdersWellFormed(st) && ItemsWellFormed(st)
    requires ValidItem(item) && item.workOrderId in st.orders && item.id == st.nextItemId
    requires s'.items == st.items + [item]
    requires s'.nextItemId == st.nextItemId + 1 && s'.nextOrderId == st.nextOrderId
    requires s'.orders == st.orders[item.workOrderId := st.orders[item.workOrderId].(total := total)]
    ensures OrderIdsAllocated(s') && OrdersWellFormed(s') && ItemsWellFormed(s')
  {
    forall i | 0 <= i < |s'.items|
      ensures ValidItem(s'.items[i]) && s'.items[i].workOrderId in s'.orders && s'.items[i].id < s'.nextItemId
    {
      if i < |st.items| {
        assert s'.items[i] == st.items[i];
      }
    }
    forall i, j | 0 <= i < j < |s'.items| ensures s'.items[i].id != s'.items[j].id {
      assert s'.items[i] == st.items[i];
      if j < |st.items| {
        assert s'.items[j] == st.items[j];
      }
    }
  }

  lemma TotalsAfterAppend(st: Store, item: Item, s': Store)
    requires TotalsConsistent(st)
    requires item.workOrderId in st.orders
    requires s'.items == st.items + [item]
    requires s'.orders == st.orders[item.workOrderId := st.orders[item.workOrderId].(total := OrderTotal(s'.items, item.workOrderId))]
    ensures TotalsConsistent(s')
  {
    forall other | other in s'.orders
      ensures s'.orders[other].total == OrderTotal(s'.items, other)
    {
      if other != item.workOrderId {
        OrderTotalAppend(st.items, item, other);
      }
    }
  }

  /** The index of the row whose id is `itemId`, looking from index `from` on. */
  function FindItemFrom(items: seq<Item>, itemId: nat, from: nat): (r: Option<nat>)
    requires from <= |items|
    ensures r.Some? ==> from <= r.value < |items| && items[r.value].id == itemId
    ensures r.Some? ==> forall j :: from <= j < r.value ==> items[j].id != itemId
    ensures r.None? ==> forall j :: from <= j < |items| ==> items[j].id != itemId
    decreases |items| - from
  {
    if from == |items| then None
    else if items[from].id == itemId then Some(from)
    else FindItemFrom(items, itemId, from + 1)
  }

  /** Looks an item up by its id, as a lookup by primary key does. */
  function FindItem(items: seq<Item>, itemId: nat): (r: Option<nat>)
    ensures r.Some? ==> r.value < |items| && items[r.value].id == itemId
    ensures r.None? ==> forall j :: 0 <= j < |items| ==> items[j].id != itemId
  {
    FindItemFrom(items, itemId, 0)
  }

  /**
   Deletes item `itemId` and recomputes its order's total, answering with
   the new total. Items of delivered or cancelled orders cannot be deleted.
   An item whose order row is missing makes the handler fail (it reads the
   status of a missing row), which is answered as an internal error.
   */
  function DeleteOrderItem(st: Store, itemId: nat): (r: Response<int>)
    ensures r.result.Err? ==> r.store == st
    ensures (forall j :: 0 <= j < |st.items| ==> st.items[j].id != itemId) ==> r.result == Err(ItemNotFound)
    ensures r.result.Ok? ==> FindItem(st.items, itemId).Some? && Deleted(st, FindItem(st.items, itemId).value, r)
    ensures FindItem(st.items, itemId).Some? ==>
      var oid := st.items[FindItem(st.items, itemId).value].workOrderId;
      oid in st.orders && IsTerminal(st.orders[oid].status) ==> r.result == Err(OrderClosed(st.orders[oid].status))
    ensures FindItem(st.items, itemId).Some? ==>
      var oid := st.items[FindItem(st.items, itemId).value].workOrderId;
      oid in st.orders && !IsTerminal(st.orders[oid].status) ==> r.result.Ok?
  {
    match FindItem(st.items, itemId)
    case None => Response(st, Err(ItemNotFound))
    case Some(k) =>
      var oid := st.items[k].workOrderId;
      if oid !in st.orders then
        Response(st, Err(Internal))
      else if IsTerminal(st.orders[oid].status) then
        Response(st, Err(OrderClosed(st.orders[oid].status)))
      else
        var removed := st.(items := st.items[..k] + st.items[k + 1..]);
        var (after, total) := RecalculateTotal(removed, oid);
        OrderTotalRemove(st.items, k, oid);
        Response(after, Ok(total))
  }

  /**
   `r` is the successful deletion of the row at index `k`: exactly that row
   is gone, its open order's total is recomputed over the remaining rows,
   and nothing else changes.
   */
  ghost predicate Deleted(st: Store, k: nat, r: Response<int>)
    requires k < |st.items|
  {
    var oid := st.items[k].workOrderId;
    && r.result.Ok?
    && oid in st.orders
    && !IsTerminal(st.orders[oid].status)
    && r.store.items == st.items[..k] + st.items[k + 1..]
    && r.result.value == OrderTotal(st.items, oid) - Subtotal(st.items[k])
    && r.result.value == OrderTotal(r.store.items, oid)
    && r.store.orders == st.orders[oid := st.orders[oid].(total := r.result.value)]
    && r.store.nextOrderId == st.nextOrderId
    && r.store.nextItemId == st.nextItemId
  }

  /** In a valid store a deletion never hits a missing order row. */
  lemma DeleteNeverInternal(st: Store, itemId: nat)
    requires Valid(st)
    ensures DeleteOrderItem(st, itemId).result != Err(Internal)
  {
  }

  /**
   In a consistent store, the total answered by a successful delete is the
   order's previous total minus the deleted row's subtotal.
   */
  lemma DeleteLowersTotalBySubtotal(st: Store, itemId: nat)
    requires Valid(st)
    ensures
      var r := DeleteOrderItem(st, itemId);
      r.result.Ok? ==>
        var k := FindItem(st.items, itemId).value;
        r.result.value == st.orders[st.items[k].workOrderId].total - Subtotal(st.items[k])
  {
  }

  lemma DeletePreservesValid(st: Store, itemId: nat)
    requires Valid(st)
    ensures Valid(DeleteOrderItem(st, itemId).store)
  {
    var r := DeleteOrderItem(st, itemId);
    if r.result.Ok? {
      var k := FindItem(st.items, itemId).value;
      assert Deleted(st, k, r);
      var s', total := r.store, r.result.value;
      assert OrderIdsAllocated(st) && OrdersWellFormed(st) && ItemsWellFormed(st) && TotalsConsistent(st);
      RowsAfterRemove(st, k, total, s');
      TotalsAfterRemove(st, k, s');
    }
  }

  /** Removing one row keeps the row constraints. */
  lemma RowsAfterRemove(st: Store, k: nat, total: int, s': Store)
    requires OrderIdsAllocated(st) && OrdersWellFormed(st) && ItemsWellFormed(st)
    requires k < |st.items|
    requires s'.items == st.items[..k] + st.items[k + 1..]
    requires s'.nextItemId == st.nextItemId && s'.nextOrderId == st.nextOrderId
    requires s'.orders == st.orders[st.items[k].workOrderId := st.orders[st.items[k].workOrderId].(total := total)]
    ensures OrderIdsAllocated(s') && OrdersWellFormed(s') && ItemsWellFormed(s')
  {
    assert s'.orders.Keys == st.orders.Keys;
    RemovedRowsUnique(st.items, k, s'.items);
    forall i | 0 <= i < |s'.items|
      ensures ValidItem(s'.items[i]) && s'.items[i].workOrderId in s'.orders && s'.items[i].id < s'.nextItemId
    {
      assert s'.items[i] == st.items[if i < k then i else i + 1];
    }
  }

  /** Removing one row from a table with unique ids leaves the ids unique. */
  lemma RemovedRowsUnique(items: seq<Item>, k: nat, rest: seq<Item>)
    requires k < |items| && rest == items[..k] + items[k + 1..]
    requires forall i, j :: 0 <= i < j < |items| ==> items[i].id != items[j].id
    ensures forall i, j :: 0 <= i < j < |rest| ==> rest[i].id != rest[j].id
  {
    forall i, j | 0 <= i < j < |rest| ensures rest[i].id != rest[j].id {
      var i' := if i < k then i else i + 1;
      var j' := if j < k then j else j + 1;
      assert rest[i] == items[i'] && rest[j] == items[j'] && i' < j';
    }
  }

  lemma TotalsAfterRemove(st: Store, k: nat, s': Store)
    requires TotalsConsistent(st)
    requires k < |st.items| && st.items[k].workOrderId in st.orders
    requires s'.items == st.items[..k] + st.items[k + 1..]
    requires s'.orders == st.orders[st.items[k].workOrderId :=
      st.orders[st.items[k].workOrderId].(total := OrderTotal(s'.items, st.items[k].workOrderId))]
    ensures TotalsConsistent(s')
  {
    forall other | other in s'.orders
      ensures s'.orders[other].total == OrderTotal(s'.items, other)
    {
      if other != st.items[k].workOrderId {
        OrderTotalRemove(st.items, k, other);
      }
    }
  }

  // ---------------------------------------------------------------------
  // Terminal orders
  // ---------------------------------------------------------------------

  /**
   Once an order is delivered or cancelled, no status change, item addition
   or deletion of one of its items succeeds, and each leaves the store as it was.
   */
  lemma TerminalOrderFrozen(st: Store, oid: nat, newStatus: string, req: ItemRequest, itemId: nat)
    requires Valid(st)
    requires oid in st.orders && IsTerminal(st.orders[oid].status)
    ensures UpdateWorkOrderStatus(st, oid, newStatus) == Response(st, Err(InvalidTransition(st.orders[oid].status, newStatus, [])))
    ensures AddOrderItem(st, oid, req) == Response(st, Err(OrderClosed(st.orders[oid].status)))
    ensures (exists k :: 0 <= k < |st.items| && st.items[k].id == itemId && st.items[k].workOrderId == oid) ==>
      DeleteOrderItem(st, itemId) == Response(st, Err(OrderClosed(st.orders[oid].status)))
  {
    var r := UpdateWorkOrderStatus(st, oid, newStatus);
    assert AllowedTargets(st.orders[oid].status) == [];
    if r.result.Ok? {
      assert false;
    }
    if exists k :: 0 <= k < |st.items| && st.items[k].id == itemId && st.items[k].workOrderId == oid {
      var k :| 0 <= k < |st.items| && st.items[k].id == itemId && st.items[k].workOrderId == oid;
      var d := DeleteOrderItem(st, itemId);
      var f := FindItem(st.items, itemId);
      assert f.value == k;
    }
  }

  // ---------------------------------------------------------------------
  // A worked example
  // ---------------------------------------------------------------------

  /** Skipping diagnosis is refused, and the refusal names the two allowed targets. */
  lemma SkipDiagnosisRefused(st: Store, id: nat)
    requires id in st.orders && st.orders[id].status == Recibida
    ensures UpdateWorkOrderStatus(st, id, "EN_PROCESO")
      == Response(st, Err(InvalidTransition(Recibida, "EN_PROCESO", [Diagnostico, Cancelada])))
  {
  }
}
