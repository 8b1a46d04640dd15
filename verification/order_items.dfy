/**
 Order line items: the row stored for each labour or part entry on a work
 order, the column constraints every stored row satisfies, and the
 validation a create request goes through before a row exists.
 Money is in integer cents.
 */
module OrderItems {
  import opened Results
  import opened Validators

  datatype ItemType = ManoObra | Repuesto

  /** The name stored in the type column. */
  function ItemTypeName(t: ItemType): string
  {
    match t
    case ManoObra => "MANO_OBRA"
    case Repuesto => "REPUESTO"
  }

  /** Reads an item type name; only the two enumerated names are accepted. */
  function ParseItemType(name: string): (r: Option<ItemType>)
    ensures r.Some? ==> ItemTypeName(r.value) == name
    ensures r.None? ==> forall t :: ItemTypeName(t) != name
  {
    if name == "MANO_OBRA" then Some(ManoObra)
    else if name == "REPUESTO" then Some(Repuesto)
    else None
  }

  /** Every item type name reads back as that type. */
  lemma ParseItemTypeName(t: ItemType)
    ensures ParseItemType(ItemTypeName(t)) == Some(t)
  {
  }

  /**
   A stored row of the order-items table. `workOrderId` is the owning order;
   the column is mandatory, so every row has exactly one owner.
   */
  datatype Item = Item(
    id: nat,
    workOrderId: nat,
    itemType: ItemType,
    description: string,
    count: int,
    unitValue: int)

  /** The column validators: a description that is not blank, count at least 1, a non-negative unit value. */
  predicate ValidItem(it: Item)
  {
    NotBlank(it.description) && it.count >= 1 && it.unitValue >= 0
  }

  /** What the item contributes to its order's total. */
  function Subtotal(it: Item): int
  {
    it.count * it.unitValue
  }

  /** A valid item never lowers a total, and costs at least one unit. */
  lemma SubtotalBounds(it: Item)
    requires ValidItem(it)
    ensures 0 <= it.unitValue <= Subtotal(it)
  {
  }

  /**
   The body of a create-item request. A field the client did not send (or
   sent as null) is `None`.
   */
  datatype ItemRequest = ItemRequest(
    itemType: Option<string>,
    description: Option<string>,
    count: Option<int>,
    unitValue: Option<int>)

  /** `it` is the row a request describes, stored under `id` for order `workOrderId`. */
  predicate Describes(req: ItemRequest, id: nat, workOrderId: nat, it: Item)
  {
    && it.id == id
    && it.workOrderId == workOrderId
    && req.itemType == Some(ItemTypeName(it.itemType))
    && req.description == Some(it.description)
    && req.count == Some(it.count)
    && req.unitValue == Some(it.unitValue)
  }

  /**
   Builds the row for a request, or `None` when a validator rejects it
   (a missing field, an unknown type, a blank description, a count below 1
   or a negative unit value): a row is built exactly when the row the
   request describes satisfies the column constraints.
   */
  function BuildItem(req: ItemRequest, id: nat, workOrderId: nat): (r: Option<Item>)
    ensures r.Some? ==> Describes(req, id, workOrderId, r.value) && ValidItem(r.value)
    ensures r.None? ==> forall it :: Describes(req, id, workOrderId, it) ==> !ValidItem(it)
  {
    if req.itemType.None? || req.description.None? || req.count.None? || req.unitValue.None? then None
    else
      match ParseItemType(req.itemType.value)
      case None => None
      case Some(t) =>
        var it := Item(id, workOrderId, t, req.description.value, req.count.value, req.unitValue.value);
        if ValidItem(it) then Some(it) else None
  }
}
