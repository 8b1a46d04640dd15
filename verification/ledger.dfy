/**
 The line-item ledger arithmetic behind an order's total: select the rows
 owned by the order, then fold `sum + count * unit_value` over them from 0.
 The total is always recomputed this way from the whole table, never
 adjusted incrementally; the lemmas here say how the recomputed value moves
 when one row is added or removed.
 */
module Ledger {
  import opened OrderItems

  /** The rows of the table owned by order `oid`, in table order. */
  function ItemsOf(items: seq<Item>, oid: nat): seq<Item>
    decreases |items|
  {
    if items == [] then []
    else
      var last := items[|items| - 1];
      ItemsOf(items[..|items| - 1], oid) + (if last.workOrderId == oid then [last] else [])
  }

  /** The selected rows are exactly the rows of the table owned by the order. */
  lemma {:induction false} ItemsOfMembers(items: seq<Item>, oid: nat)
    ensures forall x :: x in ItemsOf(items, oid) <==> x in items && x.workOrderId == oid
    decreases |items|
  {
    if items != [] {
      var init := items[..|items| - 1];
      ItemsOfMembers(init, oid);
      assert items == init + [items[|items| - 1]];
    }
  }

  /** The running sum of subtotals over `rows`, taken left to right from 0. */
  function Total(rows: seq<Item>): int
    decreases |rows|
  {
    if rows == [] then 0 else Total(rows[..|rows| - 1]) + Subtotal(rows[|rows| - 1])
  }

  /** The total of order `oid` recomputed from scratch from the item table. */
  function OrderTotal(items: seq<Item>, oid: nat): int
  {
    Total(ItemsOf(items, oid))
  }

  /** What row `x` adds to the total of order `oid`. */
  function Contribution(x: Item, oid: nat): int
  {
    if x.workOrderId == oid then Subtotal(x) else 0
  }

  /** Totals split over concatenation. */
  lemma {:induction false} TotalConcat(a: seq<Item>, b: seq<Item>)
    ensures Total(a + b) == Total(a) + Total(b)
    decreases |b|
  {
    if b == [] {
      assert a + b == a;
    } else {
      var b' := b[..|b| - 1];
      assert (a + b)[..|a + b| - 1] == a + b';
      TotalConcat(a, b');
    }
  }

  /** Selecting an order's rows commutes with concatenation of tables. */
  lemma {:induction false} ItemsOfConcat(a: seq<Item>, b: seq<Item>, oid: nat)
    ensures ItemsOf(a + b, oid) == ItemsOf(a, oid) + ItemsOf(b, oid)
    decreases |b|
  {
    if b == [] {
      assert a + b == a;
    } else {
      var b' := b[..|b| - 1];
      assert (a + b)[..|a + b| - 1] == a + b';
      ItemsOfConcat(a, b', oid);
    }
  }

  /** The recomputed total of an order is additive over splits of the table. */
  lemma OrderTotalConcat(a: seq<Item>, b: seq<Item>, oid: nat)
    ensures OrderTotal(a + b, oid) == OrderTotal(a, oid) + OrderTotal(b, oid)
  {
    ItemsOfConcat(a, b, oid);
    TotalConcat(ItemsOf(a, oid), ItemsOf(b, oid));
  }

  /**
   Appending a row raises the recomputed total of its own order by the row's
   subtotal and leaves every other order's total as it was.
   */
  lemma OrderTotalAppend(items: seq<Item>, x: Item, oid: nat)
    ensures OrderTotal(items + [x], oid) == OrderTotal(items, oid) + Contribution(x, oid)
  {
    assert (items + [x])[..|items|] == items;
    var mine := ItemsOf(items, oid);
    if x.workOrderId == oid {
      assert (mine + [x])[..|mine|] == mine;
    } else {
      assert mine + [] == mine;
    }
  }

  /**
   Removing the row at index `k` lowers the recomputed total of its own
   order by the row's subtotal and leaves every other order's total as it was.
   */
  lemma OrderTotalRemove(items: seq<Item>, k: nat, oid: nat)
    requires k < |items|
    ensures OrderTotal(items[..k] + items[k + 1..], oid) == OrderTotal(items, oid) - Contribution(items[k], oid)
  {
    assert items == (items[..k] + [items[k]]) + items[k + 1..];
    OrderTotalConcat(items[..k] + [items[k]], items[k + 1..], oid);
    OrderTotalAppend(items[..k], items[k], oid);
    OrderTotalConcat(items[..k], items[k + 1..], oid);
  }

  /** An order that owns no row has a recomputed total of 0. */
  lemma OrderTotalWithoutItems(items: seq<Item>, oid: nat)
    requires forall i :: 0 <= i < |items| ==> items[i].workOrderId != oid
    ensures OrderTotal(items, oid) == 0
  {
    ItemsOfNone(items, oid);
  }

  lemma {:induction false} ItemsOfNone(items: seq<Item>, oid: nat)
    requires forall i :: 0 <= i < |items| ==> items[i].workOrderId != oid
    ensures ItemsOf(items, oid) == []
    decreases |items|
  {
    if items != [] {
      var init := items[..|items| - 1];
      assert forall i :: 0 <= i < |init| ==> init[i] == items[i];
      ItemsOfNone(init, oid);
    }
  }

  /** Over rows that satisfy the column constraints, a total is never negative. */
  lemma {:induction false} TotalNonNegative(rows: seq<Item>)
    requires forall i :: 0 <= i < |rows| ==> ValidItem(rows[i])
    ensures Total(rows) >= 0
    decreases |rows|
  {
    if rows != [] {
      var init := rows[..|rows| - 1];
      assert forall i :: 0 <= i < |init| ==> init[i] == rows[i];
      TotalNonNegative(init);
      SubtotalBounds(rows[|rows| - 1]);
    }
  }

  /** Over a table of valid rows, every order's recomputed total is non-negative. */
  lemma OrderTotalNonNegative(items: seq<Item>, oid: nat)
    requires forall i :: 0 <= i < |items| ==> ValidItem(items[i])
    ensures OrderTotal(items, oid) >= 0
  {
    var rows := ItemsOf(items, oid);
    ItemsOfMembers(items, oid);
    forall i | 0 <= i < |rows| ensures ValidItem(rows[i]) {
      assert rows[i] in rows;
    }
    TotalNonNegative(rows);
  }
}
