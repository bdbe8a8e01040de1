/** How 3PL.py and the loader hand out `display_order` values: appending
    takes the largest order so far (0 when there is none) plus 10, and a
    bulk reorder gives the item at list position i the order (i+1)*10. */
module Ordering {
  import opened Tables

  /** The gap between consecutive display orders. */
  const Step: int := 10

  /** `SELECT MAX(display_order) ...` followed by `or 0`. */
  function MaxOr0(orders: seq<int>): (m: int)
    ensures orders == [] ==> m == 0
    ensures orders != [] ==> m in orders && forall o :: o in orders ==> o <= m
    decreases |orders|
  {
    if orders == [] then 0
    else if |orders| == 1 then orders[0]
    else
      assert orders == [orders[0]] + orders[1..];
      var rest := MaxOr0(orders[1..]);
      if orders[0] >= rest then orders[0] else rest
  }

  /** The order an appended row receives: above every existing order by at
      least Step, and exactly Step above the largest (or Step itself). */
  function NextOrder(orders: seq<int>): (r: int)
    ensures forall o :: o in orders ==> o + Step <= r
    ensures orders == [] ==> r == Step
    ensures orders != [] ==> r - Step in orders
  {
    MaxOr0(orders) + Step
  }

  /** The order `(index + 1) * 10` of list position index. */
  function Slot(index: int): int
  {
    (index + 1) * Step
  }

  /** The display orders of some rows, in row order. */
  function OrdersOf<T>(rows: seq<T>, orderOf: T -> int): (r: seq<int>)
    ensures |r| == |rows|
    ensures forall i :: 0 <= i < |rows| ==> r[i] == orderOf(rows[i])
  {
    seq(|rows|, i requires 0 <= i < |rows| => orderOf(rows[i]))
  }

  /** setOrder changes a row's order and nothing that identifies it, and a
      second change overrides the first. */
  ghost predicate OrderSetter<T(!new), K>(keyOf: T -> K, setOrder: (T, int) -> T)
  {
    && (forall t: T, a: int :: keyOf(setOrder(t, a)) == keyOf(t))
    && (forall t: T, a: int, b: int :: setOrder(setOrder(t, a), b) == setOrder(t, b))
  }

  /** One `UPDATE ... SET display_order = o WHERE key = k`. */
  function SetOrderWhere<T, K(==)>(rows: seq<T>, keyOf: T -> K, k: K, setOrder: (T, int) -> T, o: int): (r: seq<T>)
    ensures |r| == |rows|
    ensures forall i :: 0 <= i < |rows| && keyOf(rows[i]) != k ==> r[i] == rows[i]
    ensures forall i :: 0 <= i < |rows| && keyOf(rows[i]) == k ==> r[i] == setOrder(rows[i], o)
  {
    seq(|rows|, i requires 0 <= i < |rows| => if keyOf(rows[i]) == k then setOrder(rows[i], o) else rows[i])
  }

  /** The row after one UPDATE per list entry, entry i setting order
      Slot(i): a row whose key is listed ends with the slot of the last
      entry naming it; any other row is left alone. */
  function ReorderRow<T(!new), K(==)>(row: T, keyOf: T -> K, ks: seq<K>, setOrder: (T, int) -> T): (r: T)
    requires OrderSetter(keyOf, setOrder)
    ensures keyOf(r) == keyOf(row)
    ensures keyOf(row) !in ks ==> r == row
  {
    match LastPosition(ks, keyOf(row))
    case None => row
    case Some(p) => setOrder(row, Slot(p))
  }

  /** The table after the loop of UPDATEs for the list ks. */
  function Reorder<T(!new), K(==)>(rows: seq<T>, keyOf: T -> K, ks: seq<K>, setOrder: (T, int) -> T): (r: seq<T>)
    requires OrderSetter(keyOf, setOrder)
    ensures |r| == |rows|
    ensures forall i :: 0 <= i < |rows| ==> keyOf(r[i]) == keyOf(rows[i])
    ensures forall i :: 0 <= i < |rows| && keyOf(rows[i]) !in ks ==> r[i] == rows[i]
  {
    seq(|rows|, i requires 0 <= i < |rows| => ReorderRow(rows[i], keyOf, ks, setOrder))
  }

  /** Issuing the UPDATE of entry i after those of entries 0..i-1 gives the
      table reordered by the first i+1 entries: this is what the loops of
      `reorder_suites`, `reorder_ctsv_sections` and `reorder_ctsv_cards`
      keep invariant. */
  lemma ReorderStep<T(!new), K>(rows: seq<T>, keyOf: T -> K, ks: seq<K>, setOrder: (T, int) -> T, i: nat)
    requires OrderSetter(keyOf, setOrder)
    requires i < |ks|
    ensures SetOrderWhere(Reorder(rows, keyOf, ks[..i], setOrder), keyOf, ks[i], setOrder, Slot(i))
         == Reorder(rows, keyOf, ks[..i + 1], setOrder)
  {
    var before := Reorder(rows, keyOf, ks[..i], setOrder);
    var after := SetOrderWhere(before, keyOf, ks[i], setOrder, Slot(i));
    var want := Reorder(rows, keyOf, ks[..i + 1], setOrder);
    forall j | 0 <= j < |rows| ensures after[j] == want[j] {
      LastPositionSnoc(ks, i, keyOf(rows[j]));
    }
  }

  /** With no key listed twice, the row named at position p ends with
      order Slot(p). */
  lemma ReorderListed<T(!new), K>(rows: seq<T>, keyOf: T -> K, ks: seq<K>, setOrder: (T, int) -> T, i: nat, p: nat)
    requires OrderSetter(keyOf, setOrder)
    requires Distinct(ks)
    requires i < |rows| && p < |ks| && keyOf(rows[i]) == ks[p]
    ensures Reorder(rows, keyOf, ks, setOrder)[i] == setOrder(rows[i], Slot(p))
  {
  }
}
