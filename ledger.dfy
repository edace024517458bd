/**
  The page's row ledger: an ordered list of rows, each with a product (or
  none yet), the variants chosen for it, a discount and whether its variant
  list is shown. Rows are added, removed, replaced by a confirmed picker
  selection, edited field by field and reordered by dragging.
 */
module Rows {
  import opened Catalog
  import opened Reorder
  import opened Selection
  import opened Pagination
  import opened Picker

  /** Row ids come from a counter that never repeats, standing in for `uuidv4()`. */
  type RowId = nat

  /** The discount select: "%" or "flat". */
  datatype DiscountType = Percent | Flat

  /** The discount input: empty until the user types a number. */
  datatype DiscountValue = Blank | Amount(value: real)

  /** The part of a product a row keeps; `image` is "" when the product has no image. */
  datatype RowProduct = RowProduct(id: Id, title: string, image: string)

  datatype Row = Row(
    id: RowId,
    product: Option<RowProduct>,
    variants: seq<Variant>,
    discountValue: DiscountValue,
    discountType: DiscountType,
    showVariants: bool)

  /** The row "Add Product" appends, and the one the page starts with. */
  function EmptyRow(id: RowId): Row {
    Row(id, None, [], Blank, Percent, false)
  }

  /** The row a confirmed product becomes. */
  function RowFor(id: RowId, p: Product): Row {
    Row(id, Some(RowProduct(p.id, p.title, p.image.GetOr(""))), p.variants, Blank, Percent, false)
  }

  /** The rows for a confirmed selection, in selection order, with fresh ids from `firstId` on. */
  function NewRows(ps: seq<Product>, firstId: RowId): (r: seq<Row>)
    ensures |r| == |ps|
    ensures forall j :: 0 <= j < |ps| ==>
      && r[j].id == firstId + j
      && r[j].product == Some(RowProduct(ps[j].id, ps[j].title, ps[j].image.GetOr("")))
      && r[j].variants == ps[j].variants
      && r[j].discountValue == Blank && r[j].discountType == Percent && !r[j].showVariants
  {
    if ps == [] then []
    else NewRows(ps[..|ps| - 1], firstId) + [RowFor(firstId + |ps| - 1, ps[|ps| - 1])]
  }

  /**
    `splice(start, 1, ...items)` on a copy of `s`: the start is clamped to
    the length, one element is removed when there is one at the start, and
    `items` go in its place.
   */
  function SpliceOne<T>(s: seq<T>, start: nat, items: seq<T>): seq<T> {
    if start < |s| then s[..start] + items + s[start + 1..] else s + items
  }

  /** Splicing at an existing position: the element there gives way to `items`; everything else stays, in order. */
  lemma SpliceOneReplaces<T>(s: seq<T>, start: nat, items: seq<T>)
    requires start < |s|
    ensures |SpliceOne(s, start, items)| == |s| - 1 + |items|
    ensures SpliceOne(s, start, items)[..start] == s[..start]
    ensures SpliceOne(s, start, items)[start..start + |items|] == items
    ensures SpliceOne(s, start, items)[start + |items|..] == s[start + 1..]
  {
    var r := SpliceOne(s, start, items);
    assert r == s[..start] + items + s[start + 1..];
  }

  /** Splicing past the end removes nothing and appends `items`. */
  lemma SpliceOnePastEnd<T>(s: seq<T>, start: nat, items: seq<T>)
    requires |s| <= start
    ensures SpliceOne(s, start, items) == s + items
  {
  }

  /** Position `k` of a splice is filled from `s` before the start, from `items`, or from `s` past the removed element. */
  lemma SpliceOneAt<T>(s: seq<T>, start: nat, items: seq<T>, k: nat)
    requires k < |SpliceOne(s, start, items)|
    ensures var st := if start < |s| then start else |s|;
      var gap := if start < |s| then 1 else 0;
      && (k < st ==> SpliceOne(s, start, items)[k] == s[k])
      && (st <= k < st + |items| ==> SpliceOne(s, start, items)[k] == items[k - st])
      && (st + |items| <= k ==> k - |items| + gap < |s| && SpliceOne(s, start, items)[k] == s[k - |items| + gap])
  {
  }

  /** `filter((_, i) => i !== index)`: every element but the one at `index`. */
  function DropIndex<T>(s: seq<T>, index: int): (r: seq<T>)
    ensures |r| == if 0 <= index < |s| then |s| - 1 else |s|
  {
    if s == [] then []
    else DropIndex(s[..|s| - 1], index) + (if |s| - 1 == index then [] else [s[|s| - 1]])
  }

  /** The filter removes exactly the element at an index in range, and nothing otherwise. */
  lemma {:induction false} DropIndexSpec<T>(s: seq<T>, index: int)
    ensures 0 <= index < |s| ==> DropIndex(s, index) == Remove(s, index)
    ensures !(0 <= index < |s|) ==> DropIndex(s, index) == s
  {
    if s != [] {
      var init, last := s[..|s| - 1], s[|s| - 1];
      DropIndexSpec(init, index);
      if index == |s| - 1 {
        assert DropIndex(init, index) == init;
        assert Remove(s, index) == init;
      } else if 0 <= index < |s| - 1 {
        assert Remove(s, index) == Remove(init, index) + [last];
      } else {
        assert init + [last] == s;
      }
    }
  }

  /** `filter((v) => v.id !== id)` over a variant list. */
  function WithoutId(vs: seq<Variant>, id: Id): (r: seq<Variant>)
    ensures |r| <= |vs|
    ensures forall j :: 0 <= j < |r| ==> r[j].id != id
  {
    if vs == [] then []
    else WithoutId(vs[..|vs| - 1], id) + (if vs[|vs| - 1].id == id then [] else [vs[|vs| - 1]])
  }

  /** The filter keeps exactly the variants with other ids. */
  lemma {:induction false} WithoutIdKeepsOthers(vs: seq<Variant>, id: Id)
    ensures forall v :: v in WithoutId(vs, id) <==> v in vs && v.id != id
  {
    if vs != [] {
      var init, last := vs[..|vs| - 1], vs[|vs| - 1];
      WithoutIdKeepsOthers(init, id);
      assert vs == init + [last];
    }
  }

  /** Removing an id no variant has changes nothing. */
  lemma {:induction false} WithoutAbsentId(vs: seq<Variant>, id: Id)
    requires !HasVariantId(vs, id)
    ensures WithoutId(vs, id) == vs
  {
    if vs != [] {
      var init, last := vs[..|vs| - 1], vs[|vs| - 1];
      assert !HasVariantId(init, id) by {
        forall j | 0 <= j < |init| ensures init[j].id != id {
          assert init[j] == vs[j];
        }
      }
      WithoutAbsentId(init, id);
      assert last.id != id;
      assert init + [last] == vs;
    }
  }

  /** Removing a variant id a second time changes nothing. */
  lemma WithoutIdIdempotent(vs: seq<Variant>, id: Id)
    ensures WithoutId(WithoutId(vs, id), id) == WithoutId(vs, id)
  {
    WithoutAbsentId(WithoutId(vs, id), id);
  }

  /** Row `i` with a new discount value and type; no other field or row changes. */
  function WithDiscount(rows: seq<Row>, i: nat, value: DiscountValue, t: DiscountType): (r: seq<Row>)
    ensures |r| == |rows|
    ensures forall j :: 0 <= j < |rows| && j != i ==> r[j] == rows[j]
    ensures i < |rows| ==>
      && r[i].discountValue == value && r[i].discountType == t
      && r[i].(discountValue := rows[i].discountValue, discountType := rows[i].discountType) == rows[i]
  {
    if i < |rows| then rows[i := rows[i].(discountValue := value, discountType := t)] else rows
  }

  /** Row `i` with its variant list shown or hidden the other way; no other field or row changes. */
  function FlipShown(rows: seq<Row>, i: nat): (r: seq<Row>)
    ensures |r| == |rows|
    ensures forall j :: 0 <= j < |rows| && j != i ==> r[j] == rows[j]
    ensures i < |rows| ==>
      && r[i].showVariants == !rows[i].showVariants
      && r[i].(showVariants := rows[i].showVariants) == rows[i]
  {
    if i < |rows| then rows[i := rows[i].(showVariants := !rows[i].showVariants)] else rows
  }

  /** Showing or hiding twice restores the rows. */
  lemma FlipShownTwice(rows: seq<Row>, i: nat)
    ensures FlipShown(FlipShown(rows, i), i) == rows
  {
    if i < |rows| {
      assert FlipShown(FlipShown(rows, i), i)[i] == rows[i];
    }
  }

  /** Row `i` with a new variant list; no other field or row changes. */
  function WithVariants(rows: seq<Row>, i: nat, vs: seq<Variant>): (r: seq<Row>)
    ensures |r| == |rows|
    ensures forall j :: 0 <= j < |rows| && j != i ==> r[j] == rows[j]
    ensures i < |rows| ==> r[i].variants == vs && r[i].(variants := rows[i].variants) == rows[i]
  {
    if i < |rows| then rows[i := rows[i].(variants := vs)] else rows
  }

  /** The submitted form of a variant. */
  datatype VariantRecord = VariantRecord(id: Id, title: string, price: string)

  /** The submitted form of a row; `productId` is absent for a row without a product. */
  datatype Record = Record(productId: Option<Id>, discountValue: DiscountValue, discountType: DiscountType, variants: seq<VariantRecord>)

  /** A row's variants reduced to id, title and price, in order. */
  function VariantRecords(vs: seq<Variant>): (r: seq<VariantRecord>)
    ensures |r| == |vs|
    ensures forall j :: 0 <= j < |vs| ==> r[j] == VariantRecord(vs[j].id, vs[j].title, vs[j].price)
  {
    if vs == [] then [] else VariantRecords(vs[..|vs| - 1]) + [VariantRecord(vs[|vs| - 1].id, vs[|vs| - 1].title, vs[|vs| - 1].price)]
  }

  /** The projection "Next" logs: one record per row, in row order. */
  function Submission(rows: seq<Row>): (r: seq<Record>)
    ensures |r| == |rows|
    ensures forall j :: 0 <= j < |rows| ==>
      && (r[j].productId.Some? <==> rows[j].product.Some?)
      && (rows[j].product.Some? ==> r[j].productId.value == rows[j].product.value.id)
      && r[j].discountValue == rows[j].discountValue
      && r[j].discountType == rows[j].discountType
      && r[j].variants == VariantRecords(rows[j].variants)
  {
    if rows == [] then []
    else
      var row := rows[|rows| - 1];
      var productId := if row.product.Some? then Some(row.product.value.id) else None;
      Submission(rows[..|rows| - 1]) + [Record(productId, row.discountValue, row.discountType, VariantRecords(row.variants))]
  }

  /** Every row id is below the next id the counter hands out. */
  ghost predicate IdsBelow(rows: seq<Row>, bound: nat) {
    forall j :: 0 <= j < |rows| ==> rows[j].id < bound
  }

  /** No two rows share an id. */
  ghost predicate DistinctRowIds(rows: seq<Row>) {
    forall i, j :: 0 <= i < j < |rows| ==> rows[i].id != rows[j].id
  }

  /** Replacing a row by rows with fresh ids keeps the ids distinct and below the advanced counter. */
  lemma SpliceKeepsIdsFresh(rows: seq<Row>, start: nat, ps: seq<Product>, next: nat)
    requires IdsBelow(rows, next) && DistinctRowIds(rows)
    ensures IdsBelow(SpliceOne(rows, start, NewRows(ps, next)), next + |ps|)
    ensures DistinctRowIds(SpliceOne(rows, start, NewRows(ps, next)))
  {
    var items := NewRows(ps, next);
    var r := SpliceOne(rows, start, items);
    var st := if start < |rows| then start else |rows|;
    var n := |items|;
    forall k | 0 <= k < |r| ensures r[k].id < next + n {
      SpliceOneAt(rows, start, items, k);
    }
    forall a, b | 0 <= a < b < |r| ensures r[a].id != r[b].id {
      SpliceOneAt(rows, start, items, a);
      SpliceOneAt(rows, start, items, b);
      if st <= a < st + n && st <= b < st + n {
        assert r[a].id == next + (a - st) && r[b].id == next + (b - st);
      } else if st <= a < st + n {
        assert r[a].id >= next;
      } else if st <= b < st + n {
        assert r[b].id >= next;
      }
    }
  }

  /**
    The remove control is offered only while there is more than one row,
    so removing through it never empties the ledger.
   */
  lemma RemoveControlKeepsARow(rows: seq<Row>, index: int)
    requires |rows| >= 1
    requires |rows| != 1
    ensures |DropIndex(rows, index)| >= 1
  {
    DropIndexSpec(rows, index);
  }

  /** A confirmed empty selection deletes the edited row; on the only row it empties the ledger. */
  lemma EmptySelectionDeletesRow(rows: seq<Row>, start: nat)
    requires start < |rows|
    ensures SpliceOne(rows, start, NewRows([], 0)) == Remove(rows, start)
    ensures |rows| == 1 ==> SpliceOne(rows, start, NewRows([], 0)) == []
  {
  }

  /** Three rows, the middle one replaced by two products: four rows, the outer two untouched. */
  lemma ReplaceMiddleRow(a: Row, b: Row, c: Row, p: Product, q: Product)
    ensures var r := SpliceOne([a, b, c], 1, NewRows([p, q], 7));
      r == [a, RowFor(7, p), RowFor(8, q), c]
  {
    var items := NewRows([p, q], 7);
    assert items == [RowFor(7, p), RowFor(8, q)];
  }

  /** The page's state: the rows, the id counter, the picker's visibility, the row being edited and the picker itself. */
  class Ledger {
    var rows: seq<Row>
    var nextId: nat
    var pickerOpen: bool
    var editRowIndex: Option<nat>
    const picker: PickerDialog

    ghost predicate Valid()
      reads this
    {
      IdsBelow(rows, nextId) && DistinctRowIds(rows) && picker.Valid()
    }

    /** The page starts with one empty row and the picker closed. */
    constructor()
      ensures Valid() && fresh(picker) && fresh(picker.listing)
      ensures rows == [EmptyRow(0)] && nextId == 1 && !pickerOpen && editRowIndex == None
      ensures picker.selected == map[] && picker.search == "" && picker.listing.State() == Fresh
    {
      rows := [EmptyRow(0)];
      nextId := 1;
      pickerOpen := false;
      editRowIndex := None;
      picker := new PickerDialog();
    }

    /** "Add Product": one empty row with a fresh id at the end. */
    method AddRow()
      requires Valid()
      modifies this
      ensures Valid()
      ensures rows == old(rows) + [EmptyRow(old(nextId))] && nextId == old(nextId) + 1
      ensures pickerOpen == old(pickerOpen) && editRowIndex == old(editRowIndex)
    {
      rows := rows + [EmptyRow(nextId)];
      nextId := nextId + 1;
    }

    /** The remove control of row `index`. */
    method RemoveRow(index: int)
      requires Valid()
      modifies this
      ensures Valid()
      ensures rows == DropIndex(old(rows), index)
      ensures 0 <= index < |old(rows)| ==> rows == Remove(old(rows), index)
      ensures !(0 <= index < |old(rows)|) ==> rows == old(rows)
      ensures nextId == old(nextId) && pickerOpen == old(pickerOpen) && editRowIndex == old(editRowIndex)
    {
      DropIndexSpec(rows, index);
      rows := DropIndex(rows, index);
    }

    /** The edit control of row `index`: remember the row and open the picker, whose opening fetches. */
    method EditClick(index: nat, response: Option<seq<Product>>) returns (req: Option<Request>)
      requires Valid()
      modifies this, picker.listing
      ensures Valid()
      ensures editRowIndex == Some(index) && pickerOpen
      ensures rows == old(rows) && nextId == old(nextId)
      ensures old(pickerOpen) ==> req == None && picker.listing.State() == old(picker.listing.State())
      ensures !old(pickerOpen) ==>
        && req == Requested(old(picker.listing.State()), "", None, None)
        && picker.listing.State() == Fetched(old(picker.listing.State()), None, response)
    {
      var wasOpen := pickerOpen;
      editRowIndex := Some(index);
      pickerOpen := true;
      req := None;
      if !wasOpen {
        req := picker.Opened(response);
      }
    }

    /**
      The picker's selection arrives: the edited row (position 0 when none
      was ever edited, as `splice` reads a null start) gives way to one new
      row per selected product.
     */
    method ProductSelect(selectedProducts: seq<Product>)
      requires Valid()
      modifies this
      ensures Valid()
      ensures rows == SpliceOne(old(rows), old(editRowIndex).GetOr(0), NewRows(selectedProducts, old(nextId)))
      ensures nextId == old(nextId) + |selectedProducts|
      ensures pickerOpen == old(pickerOpen) && editRowIndex == old(editRowIndex)
    {
      SpliceKeepsIdsFresh(rows, editRowIndex.GetOr(0), selectedProducts, nextId);
      var updatedRows := rows;
      updatedRows := SpliceOne(updatedRows, editRowIndex.GetOr(0), NewRows(selectedProducts, nextId));
      nextId := nextId + |selectedProducts|;
      rows := updatedRows;
    }

    /** The discount input and select of row `index`; an index with no row leaves the rows as they are. */
    method DiscountChange(index: nat, value: DiscountValue, t: DiscountType)
      requires Valid()
      modifies this
      ensures Valid()
      ensures rows == WithDiscount(old(rows), index, value, t)
      ensures nextId == old(nextId) && pickerOpen == old(pickerOpen) && editRowIndex == old(editRowIndex)
    {
      rows := WithDiscount(rows, index, value, t);
    }

    /** Show or hide the variants of row `index`. */
    method ToggleVariants(index: nat)
      requires Valid()
      modifies this
      ensures Valid()
      ensures rows == FlipShown(old(rows), index)
      ensures nextId == old(nextId) && pickerOpen == old(pickerOpen) && editRowIndex == old(editRowIndex)
    {
      rows := FlipShown(rows, index);
    }

    /** Remove every variant with id `variantId` from row `rowIndex`. */
    method RemoveVariant(rowIndex: nat, variantId: Id)
      requires Valid()
      modifies this
      ensures Valid()
      ensures rowIndex < |old(rows)| ==> rows == WithVariants(old(rows), rowIndex, WithoutId(old(rows)[rowIndex].variants, variantId))
      ensures rowIndex >= |old(rows)| ==> rows == old(rows)
      ensures nextId == old(nextId) && pickerOpen == old(pickerOpen) && editRowIndex == old(editRowIndex)
    {
      if rowIndex < |rows| {
        rows := WithVariants(rows, rowIndex, WithoutId(rows[rowIndex].variants, variantId));
      }
    }

    /** Row `rowIndex` takes `newVariantOrder` as its variant list. */
    method VariantReorder(rowIndex: nat, newVariantOrder: seq<Variant>)
      requires Valid()
      modifies this
      ensures Valid()
      ensures rows == WithVariants(old(rows), rowIndex, newVariantOrder)
      ensures nextId == old(nextId) && pickerOpen == old(pickerOpen) && editRowIndex == old(editRowIndex)
    {
      rows := WithVariants(rows, rowIndex, newVariantOrder);
    }

    /** The ids of the rows, in order. */
    function RowIds(): (ids: seq<RowId>)
      reads this
      ensures |ids| == |rows| && forall j :: 0 <= j < |rows| ==> ids[j] == rows[j].id
    {
      seq(|rows|, j requires 0 <= j < |rows| reads this => rows[j].id)
    }

    /**
      The end of a row drag: `activeId` is the dragged row, `overId` the row
      it was dropped on. When the ids differ and both are found, the dragged
      row moves to the target's position; the rows are the same rows after.
     */
    method DragEnd(activeId: RowId, overId: Option<RowId>)
      requires Valid()
      modifies this
      ensures Valid()
      ensures multiset(rows) == multiset(old(rows))
      ensures overId.Some? && overId.value != activeId &&
              IndexOf(old(RowIds()), activeId) != -1 && IndexOf(old(RowIds()), overId.value) != -1 ==>
        rows == Move(old(rows), IndexOf(old(RowIds()), activeId), IndexOf(old(RowIds()), overId.value))
      ensures overId == Some(activeId) ==> rows == old(rows)
      ensures !(overId.Some? && IndexOf(old(RowIds()), activeId) != -1 && IndexOf(old(RowIds()), overId.value) != -1) ==>
        rows == old(rows)
      ensures nextId == old(nextId) && pickerOpen == old(pickerOpen) && editRowIndex == old(editRowIndex)
    {
      if overId.None? || overId.value != activeId {
        var ids := RowIds();
        var oldIndex := IndexOf(ids, activeId);
        var newIndex := if overId.Some? then IndexOf(ids, overId.value) else -1;
        if oldIndex != -1 && newIndex != -1 {
          MovePermutes(rows, oldIndex, newIndex);
          MoveAt(rows, oldIndex, newIndex);
          MoveKeepsDistinct(rows, oldIndex, newIndex, (r: Row) => r.id);
          rows := Move(rows, oldIndex, newIndex);
        }
      }
    }

    /** "Next": the rows as submitted records. */
    method Submit() returns (records: seq<Record>)
      ensures records == Submission(rows)
    {
      records := Submission(rows);
    }

    /** Cancel, or any other close of the dialog: the picker hides and keeps its selection. */
    method ClosePicker()
      modifies this
      ensures !pickerOpen
      ensures rows == old(rows) && nextId == old(nextId) && editRowIndex == old(editRowIndex)
      ensures picker.selected == old(picker.selected)
    {
      pickerOpen := false;
    }

    /**
      The picker's confirm button: the grouped selection replaces the edited
      row, the selection is cleared and the picker closes.
     */
    method ConfirmPicker(keys: seq<Id>) returns (result: seq<Product>)
      requires Valid()
      requires forall t :: 0 <= t < |keys| ==> keys[t] in picker.selected
      requires forall k :: k in picker.selected ==> k in keys
      modifies this, picker
      ensures Valid()
      ensures IsGrouping(old(picker.selected), result)
      ensures rows == SpliceOne(old(rows), old(editRowIndex).GetOr(0), NewRows(result, old(nextId)))
      ensures nextId == old(nextId) + |result|
      ensures picker.selected == map[] && !pickerOpen
      ensures editRowIndex == old(editRowIndex) && picker.search == old(picker.search)
    {
      result := picker.Submit(keys);
      ProductSelect(result);
      pickerOpen := false;
    }
  }
}
