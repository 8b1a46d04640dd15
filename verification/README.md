# Work-order lifecycle of the motorcycle workshop

This project models, in Dafny, the core of the workshop's work-order
service (`taller_motos`):

- **Status machine.** A work order moves forward through
  RECIBIDA → DIAGNOSTICO → EN_PROCESO → LISTA → ENTREGADA. It can be
  CANCELADA from any open status. ENTREGADA and CANCELADA are terminal.
  The transition table (`WorkOrderStatus`) is proved acyclic: an order
  changes status at most four times and never returns to a status it has
  left.
- **Line-item ledger.** Each order owns labour (MANO_OBRA) and part
  (REPUESTO) items. The order's total is always recomputed from scratch as
  the sum of `count * unit_value` over its items (`Ledger`). Adding or
  deleting an item is atomic. On success the stored total moves by exactly
  the item's subtotal. On any failure nothing changes. Delivered and
  cancelled orders are frozen (`WorkOrders`).
- **Listing.** The list endpoint applies an optional status filter,
  returns orders newest first, and computes offset, limit and page count.
  `Listing` proves that with a positive page size every listed order is on
  exactly one page, and that page is within the reported page count.
- **Page navigation bar.** The front end shows a window of at most five
  page numbers, first/last shortcuts with ellipses, and previous/next
  buttons (`PageNav`).

Modules:

- `Results`: `Option`, `Result`.
- `Validators`: the ORM's `notEmpty` check (not blank, as opposed to non-empty).
- `WorkOrderStatus`: statuses, names, the transition table, runs.
- `OrderItems`: the item row, its column constraints, request validation.
- `Ledger`: row selection and total arithmetic.
- `WorkOrders`: the store and the create / status / add-item / delete-item
  handlers.
- `Listing`: the list endpoint.
- `PageNav`: the pagination component.

## Modelling choices

- **State.** The database is a `Store`. Orders are held in a map from id to
  order. Items are a sequence in insertion order. Two auto-increment
  counters hand out ids.
- **Responses.** Every handler is a pure function returning the new store
  and a `Result`. When the result is an error, the returned store is the
  old one. This models the transaction rollback in add/delete, and the
  fact that the create and status handlers write nothing before they fail.
- **Validity.** `Valid` is the store invariant:
  - order ids are allocated by the counter;
  - fault descriptions are not blank;
  - items satisfy their column validators, belong to an existing order and
    have unique allocated ids;
  - every stored total equals the recomputed total.

  The create, status, add and delete handlers are proved to preserve it.
- **Money.** Amounts are integer cents. The source's `DECIMAL(12,2)`
  columns are exact at that scale, so summing integers is the intended
  arithmetic.
- **Vehicles.** The vehicle table and the current date are parameters
  (`vehicles`, `today`).
- **Failures and HTTP codes.** Errors are a `Failure` value, with the HTTP
  code given by `WorkOrders.HttpStatus`:
  - unknown order or item → 404;
  - unknown vehicle, refused transition, closed order, validation failure
    → 400;
  - anything the handler does not anticipate → 500.

  An unknown vehicle is answered 400, not 404. Adding or deleting an item
  of a delivered or cancelled order is answered 400, not 409. The model
  follows the code.
- **Status history and roles.** The code records no status history. The
  work-order routes have no authentication or role guard at all. Neither
  is modelled.
- **Newest first.** The listing sorts by creation time, newest first. The
  model orders by descending id instead. Ids come from an auto-increment
  counter and strictly increase with every insert. Creation timestamps
  never decrease, but two orders created close together can share one.
- **Blank text.** The `notEmpty` validator on descriptions refuses strings
  made only of white space, as well as the empty string. `Validators.NotBlank`
  models it with the character class `\s` of JavaScript regular expressions.
- **Missing status field.** A status request with no status field is a
  name matching no status. It is refused as an invalid transition, as the
  code does.

## Model

| member | source | states |
|---|---|---|
| WorkOrderStatus.Parse | backend/models/WorkOrder.js:4-11 | a status name is accepted exactly when it is the name of one of the six statuses, and then it denotes that status |
| WorkOrderStatus.ParseName | backend/models/WorkOrder.js:4-11 | every status's wire name reads back as that status |
| WorkOrderStatus.ValidStatusesComplete | backend/models/WorkOrder.js:4-11 | the list of valid statuses has six distinct entries and contains every status |
| WorkOrderStatus.AllowedTargets | backend/models/WorkOrder.js:13-20 | no status may move to itself; a status has no moves exactly when it is ENTREGADA or CANCELADA; every open status may be cancelled; every target is a valid status further along the workflow |
| WorkOrderStatus.IsTerminal | backend/controllers/workOrderController.js:171 | the closed-order test: a status is terminal exactly when it is ENTREGADA or CANCELADA |
| WorkOrderStatus.CanTransition | backend/controllers/workOrderController.js:138-140 | the transition test: a move is allowed exactly when the target is in the table's list for the current status |
| WorkOrderStatus.Advance | backend/models/WorkOrder.js:14-17 | the forward successor of an open status is not CANCELADA and is exactly one stage further |
| WorkOrderStatus.TransitionsFromStatus | backend/models/WorkOrder.js:13-20 | from an open status the only moves are to its forward successor or to CANCELADA; from a terminal status there are none |
| WorkOrderStatus.ForwardPath | backend/models/WorkOrder.js:14-17 | the forward successors chain RECIBIDA, DIAGNOSTICO, EN_PROCESO, LISTA, ENTREGADA |
| WorkOrderStatus.RunStageIncreases | backend/models/WorkOrder.js:13-20 | along any sequence of allowed moves the workflow stage rises by at least one per move |
| WorkOrderStatus.RunsAreShortAndSimple | backend/models/WorkOrder.js:13-20 | a sequence of allowed moves visits at most five statuses and never repeats one, so the table has no cycle |
| WorkOrderStatus.RepairPathIsRun | backend/models/WorkOrder.js:14-17 | the full repair path from RECIBIDA to ENTREGADA is a sequence of allowed moves, so the bound of five is reached |
| Validators.NotBlank | backend/models/OrderItem.js:28-34 | the `notEmpty` validator: a value passes when some character of it lies outside the JavaScript class `\s` |
| Validators.BlankIffAllSpace | backend/models/OrderItem.js:28-34 | a value fails `notEmpty` exactly when every character is white space, so a passing value is non-empty |
| Validators.NotBlankPadding | backend/models/OrderItem.js:28-34 | white space around a value never changes whether it passes `notEmpty` |
| Validators.NotBlankExamples | backend/models/WorkOrder.js:41-47 | the empty string and a string of spaces, tabs and newlines fail `notEmpty`; padded text passes |
| OrderItems.ParseItemType | backend/models/OrderItem.js:18-27 | an item type is accepted exactly when it is MANO_OBRA or REPUESTO |
| OrderItems.ParseItemTypeName | backend/models/OrderItem.js:18-27 | every item type's name reads back as that type |
| OrderItems.ValidItem | backend/models/OrderItem.js:28-50 | the column validators of a stored row: a description that is not blank, a count of at least 1, a unit value of at least 0 |
| OrderItems.Subtotal | backend/controllers/workOrderController.js:15 | what one row adds to its order's total: its count times its unit value |
| OrderItems.SubtotalBounds | backend/models/OrderItem.js:35-50 | with count at least 1 and a non-negative unit value, a subtotal is non-negative and at least the unit value |
| OrderItems.BuildItem | backend/models/OrderItem.js:10-50 | a row is built exactly when the row the request describes passes every column validator (all fields present, a known type, a description that is not blank, count at least 1, unit value at least 0), and the built row is that row |
| Ledger.ItemsOf | backend/controllers/workOrderController.js:9-12 | the lookup of an order's rows by `work_order_id`, keeping table order |
| Ledger.Total | backend/controllers/workOrderController.js:14-16 | the reduction that adds `count * unit_value` of each row to a running sum starting at 0 |
| Ledger.OrderTotal | backend/controllers/workOrderController.js:9-16 | an order's total recomputed from scratch: the sum of subtotals over the rows with its `work_order_id` |
| Ledger.ItemsOfMembers | backend/controllers/workOrderController.js:9-12 | the rows selected for an order are exactly the table's rows whose work_order_id is that order |
| Ledger.TotalConcat | backend/controllers/workOrderController.js:14-16 | the summed subtotals of two concatenated row lists are the sum of their sums |
| Ledger.ItemsOfConcat | backend/controllers/workOrderController.js:9-12 | selecting an order's rows from two concatenated tables concatenates the two selections |
| Ledger.OrderTotalConcat | backend/controllers/workOrderController.js:8-16 | an order's recomputed total is additive over any split of the item table |
| Ledger.OrderTotalAppend | backend/controllers/workOrderController.js:8-16 | appending a row raises its own order's recomputed total by its subtotal and leaves every other order's total unchanged |
| Ledger.OrderTotalRemove | backend/controllers/workOrderController.js:8-16 | removing a row lowers its own order's recomputed total by its subtotal and leaves every other order's total unchanged |
| Ledger.OrderTotalWithoutItems | backend/controllers/workOrderController.js:14-16 | an order owning no row has total 0, the reduction's initial value |
| Ledger.TotalNonNegative | backend/models/OrderItem.js:35-50 | a sum of subtotals over rows satisfying the column validators is non-negative |
| Ledger.OrderTotalNonNegative | backend/controllers/workOrderController.js:8-16 | over a table of valid rows, every order's recomputed total is non-negative |
| WorkOrders.HttpStatus | backend/middleware/errorHandler.js:5-40 | a missing order or item is answered 404, an unanticipated failure 500, and every other refusal 400 |
| WorkOrders.TotalsNonNegative | backend/models/WorkOrder.js:53-57 | in a valid store every stored order total and every item subtotal is non-negative |
| WorkOrders.RecalculateTotal | backend/controllers/workOrderController.js:8-24 | writes the sum of the order's item subtotals to that order only, leaves items and other orders untouched, does nothing for a missing order, and returns the sum |
| WorkOrders.EntryDate | backend/controllers/workOrderController.js:39 | the given entry date is kept unless it is missing or empty, in which case today's date is used |
| WorkOrders.CreateWorkOrder | backend/controllers/workOrderController.js:27-49 | an unknown or missing vehicle is refused as VehicleNotFound (400); with a known vehicle a validation failure happens exactly when the fault description is missing or blank; a known vehicle with a description that is not blank and a fresh id always succeeds; success inserts one RECIBIDA order with total 0 under a fresh id and changes nothing else; failure changes nothing |
| WorkOrders.CreatePreservesValid | backend/controllers/workOrderController.js:37-43 | creation keeps the store invariant and never meets an id collision |
| WorkOrders.CreateWorkOrderAsWritten | backend/controllers/workOrderController.js:29-43 | the handler as written refuses every request, with 400, and changes nothing |
| WorkOrders.CreateAsWrittenRefusesValidRequests | backend/controllers/workOrderController.js:37-43 | in any valid store, every request for an existing vehicle with a fault description that is not blank is refused as written, and the intended handler creates it under the next id |
| WorkOrders.UpdateWorkOrderStatus | backend/controllers/workOrderController.js:128-155 | a missing order gives 404; a request succeeds exactly when it names a status the table allows from the current one; a refusal reports the current status, the requested name and the allowed list; success changes only that order's status, forward |
| WorkOrders.SameStatusRefused | backend/controllers/workOrderController.js:137-146 | asking for the status an order already has is refused |
| WorkOrders.UpdatePreservesValid | backend/controllers/workOrderController.js:148-149 | a status change keeps the store invariant |
| WorkOrders.StatusesVisited | backend/controllers/workOrderController.js:137-149 | the statuses an order passes through under repeated status requests start at its current status and form a sequence of allowed moves |
| WorkOrders.AtMostFourStatusChanges | backend/controllers/workOrderController.js:137-149 | whatever requests are sent, an order changes status at most four times and never returns to a status it left |
| WorkOrders.AddOrderItem | backend/controllers/workOrderController.js:158-189 | a missing order gives 404; a delivered or cancelled order is refused; otherwise a refusal is a validation failure, and it happens exactly when the described row breaks a validator (a blank description included); success appends exactly that row, sets the order's total to the old recomputed total plus its subtotal, and returns both; failure changes nothing |
| WorkOrders.AddRaisesTotalBySubtotal | backend/controllers/workOrderController.js:176-184 | in a consistent store the answered total is the stored total plus the new row's subtotal |
| WorkOrders.AddPreservesValid | backend/controllers/workOrderController.js:176-182 | adding an item keeps the store invariant, including every other order's total |
| WorkOrders.FindItem | backend/controllers/workOrderController.js:195 | the lookup finds a row with the requested id, or reports that no row has it |
| WorkOrders.DeleteOrderItem | backend/controllers/workOrderController.js:192-221 | an unknown item id gives 404; an item of a delivered or cancelled order is refused; an item of an existing open order is always deleted; success removes exactly that row, and the answered total is both the old recomputed total minus its subtotal and the recomputed total over the remaining rows; failure changes nothing |
| WorkOrders.DeleteNeverInternal | backend/controllers/workOrderController.js:202-205 | in a valid store the owning order always exists, so the status read never fails |
| WorkOrders.DeleteLowersTotalBySubtotal | backend/controllers/workOrderController.js:210-216 | in a consistent store the answered total is the stored total minus the deleted row's subtotal |
| WorkOrders.DeletePreservesValid | backend/controllers/workOrderController.js:210-214 | deleting an item keeps the store invariant, including every other order's total |
| WorkOrders.TerminalOrderFrozen | backend/controllers/workOrderController.js:137-208 | a delivered or cancelled order refuses every status change with an empty allowed list, refuses item additions, and refuses deletion of its items, each leaving the store unchanged |
| WorkOrders.SkipDiagnosisRefused | backend/controllers/workOrderController.js:138-146 | moving a RECIBIDA order straight to EN_PROCESO is refused, and the refusal lists DIAGNOSTICO and CANCELADA |
| Listing.Matches | backend/controllers/workOrderController.js:58-60 | the status filter: no filter when the parameter is missing or empty, otherwise the order's status name must equal it exactly, case included |
| Listing.NewestFirst | backend/controllers/workOrderController.js:58-79 | yields only existing orders passing the filter, in strictly decreasing id order |
| Listing.NewestFirstComplete | backend/controllers/workOrderController.js:58-60 | no order passing the filter is left out |
| Listing.MatchingOrders | backend/controllers/workOrderController.js:55-83 | the listed ids are exactly the orders whose status matches a non-empty filter (all orders when there is none), newest first, without repeats |
| Listing.CeilDiv | backend/controllers/workOrderController.js:91 | the result is the ceiling of the quotient, for either sign of the divisor |
| Listing.TotalPages | backend/controllers/workOrderController.js:91 | the page count is absent exactly when the limit is zero; for a positive limit it is the least number of pages holding all rows, and zero exactly when there are no rows |
| Listing.Bounds | backend/controllers/workOrderController.js:54-67 | page and page size default to 1 and 10, the offset is (page - 1) times the page size, and a page and size of at least 1 give a non-negative offset |
| Listing.PageSlice | backend/controllers/workOrderController.js:69-83 | a page holds at most `limit` rows, the rows of ranks from the offset on, a full page when enough rows remain, the remainder otherwise, and none past the end |
| Listing.ListWorkOrders | backend/controllers/workOrderController.js:52-97 | fails (500) exactly when the offset or the limit is negative; otherwise answers the page's slice of the filtered newest-first list, the full count, the page, the page size and the page count |
| Listing.PageWithinTotalPages | backend/controllers/workOrderController.js:66-91 | the page of any existing row is between 1 and the reported page count |
| Listing.RankOnPage | backend/controllers/workOrderController.js:66-67 | a row is on a page exactly when that page is its rank divided by the page size, plus one |
| Listing.EveryOrderOnExactlyOnePage | backend/controllers/workOrderController.js:52-93 | with a positive page size each listed order appears on exactly one page, and that page is within the reported page count |
| PageNav.PageWindow | frontend/src/components/Pagination.js:9-16 | the window lies within 1..totalPages, spans min(5, totalPages) pages, and contains the current page exactly when that page exists |
| PageNav.WindowStartIsClampedCentre | frontend/src/components/Pagination.js:11-16 | the window starts two pages before the current page, clamped to the starts that leave a full window |
| PageNav.WindowCentred | frontend/src/components/Pagination.js:11-12 | with two pages of room on each side the current page is the middle of five |
| PageNav.Render | frontend/src/components/Pagination.js:6-76 | nothing is rendered exactly when there is at most one page; otherwise the buttons are consecutive pages in range, starting two pages before the current one clamped to a full window, the first/last shortcuts appear exactly when the window leaves out page 1 / the last page, an ellipsis always stands for at least one hidden page, every page is reachable, and previous/next are disabled exactly at the ends |

## Left out

- getWorkOrderById is a read with joins and no logic, so it is not modelled.
- The plate filter (a SQL LIKE over the joined vehicle table) is not modelled. The listing models only the status filter.
- The joined bike and client data in list rows is not modelled. A listing row is the order's id.
- Authentication, roles and rate limiting are not modelled. The work-order routes are mounted without any guard.
- Status history is not modelled. The handlers write none.
- The React rendering, click handlers and CSS of the pagination bar are not modelled. `Render` models the values the bar displays.
- Money is integer cents. The floating-point conversion the reduction applies is not modelled, and neither are the 12-digit width of DECIMAL(12,2) or the 255-character limit on descriptions.
- WorkOrders.CreateWorkOrder: the entry date is an arbitrary string. The DATEONLY column refuses a value that is not a date, such as `abc`, and the insert then fails with 500, while the model stores the value.
- OrderItems.BuildItem: the count is unbounded. The 32-bit INTEGER column refuses a count above 2147483647, and the insert then fails with 500, while the model accepts it.
- `parseInt` of a non-numeric page parameter (NaN) is not modelled. Query page and page size are integers or absent.
- Listing.ListWorkOrders: the reaction of the database to a negative offset or limit is modelled as an internal error (500). The database's actual message and behaviour are outside the model.
- Listing.ListWorkOrders: models the intended eager load of the order's vehicle. As written, the handler includes `Bike` under the alias `bike`. The model index does not export `Bike`, and it associates work orders only with `Vehicle`, under `vehicle`. The import fails, or else the eager load raises and is answered 500, so the handler as written never returns a page.
- Listing.Matches: compares the status filter with the status name as exact strings. The database's default collation ignores case, so `status=recibida` passes RECIBIDA orders in the source but not in the model.
- Listing.MatchingOrders: the status filter is compared as exact strings. The database's default collation compares case-insensitively, so a query such as `status=recibida` matches RECIBIDA orders in the source but nothing in the model.
- WorkOrders.CreateWorkOrder: models the intended handler. It stores the vehicle under `vehicle_id`, which the order model declares. See Findings for the handler as written. The controller also imports `Bike` from a model index that does not export it. Module loading is outside the model.
- WorkOrders.CreateWorkOrder: an insert failing on the id key is modelled as an internal error. CreatePreservesValid proves this cannot happen in a valid store.
- Newest-first ordering uses id order in place of creation timestamps. Ids strictly increase with every insert; timestamps never decrease but can tie.
- Listing.EveryOrderOnExactlyOnePage: holds for the strict id order of the model. In the source it holds only among orders with distinct creation times. The database returns orders with the same `created_at` in no fixed order, which can differ between page queries, so such an order can appear on two pages or on none.
- Concurrency between requests is not modelled. Each handler is one atomic step.

## Findings

| source | as written | input that shows it | evidently intended | confidence | as-written member | corrected member |
|---|---|---|---|---|---|---|
| backend/controllers/workOrderController.js:37-43 | the insert passes the vehicle as `moto_id`, a field the order model (backend/models/WorkOrder.js:28-35) does not declare, so the mandatory `vehicle_id` is never set and validation refuses the row | body `{moto_id: 1, fault_description: "x"}` with vehicle 1 existing: answered 400 instead of creating the order (CreateAsWrittenRefusesValidRequests proves this for every such request) | store the looked-up vehicle in `vehicle_id` and create the order in status RECIBIDA | not executed; relies on the ORM ignoring undeclared attributes and enforcing not-null on create, and assumes the controller's `Bike` import resolves (the model index does not export it, so as written the module may fail to load before any request) | WorkOrders.CreateWorkOrderAsWritten | WorkOrders.CreateWorkOrder |
