/**
  One row of the ledger as rendered: the drag handler that reorders the
  row's variants and hands the new list back to the ledger.
 */
module ProductRowView {
  import opened Catalog
  import opened Reorder

  /** The arguments of the reorder callback: the row's own index and its new variant list. */
  datatype ReorderCall = ReorderCall(rowIndex: nat, variants: seq<Variant>)

  /** Some variant of `vs` has id `id`, found by `findIndex`. */
  predicate Resolves(vs: seq<Variant>, id: Id) {
    IndexOf(VariantIds(vs), id) != -1
  }

  /**
    The end of a variant drag in row `index`: `activeId` is the dragged
    variant, `overId` the variant it was dropped on (`None` when it was
    dropped outside the list). The callback fires only when the drop target
    is present, differs from the dragged variant and both ids are found; it
    then receives the row's index and the list with the dragged variant
    taken out and put back at the target's position.
   */
  method VariantDragEnd(index: nat, variants: seq<Variant>, activeId: Id, overId: Option<Id>)
    returns (call: Option<ReorderCall>)
    ensures call.Some? <==>
      overId.Some? && overId.value != activeId && Resolves(variants, activeId) && Resolves(variants, overId.value)
    ensures call.Some? ==>
      var from, to := IndexOf(VariantIds(variants), activeId), IndexOf(VariantIds(variants), overId.value);
      && call.value.rowIndex == index
      && 0 <= from < |variants| && 0 <= to < |variants|
      && call.value.variants == Move(variants, from, to)
      && |call.value.variants| == |variants|
      && multiset(call.value.variants) == multiset(variants)
      && call.value.variants[to] == variants[from]
      && call.value.variants[to].id == activeId
      && Remove(call.value.variants, to) == Remove(variants, from)
  {
    if overId.None? || activeId == overId.value {
      return None;
    }
    var ids := VariantIds(variants);
    var oldIndex := IndexOf(ids, activeId);
    var newIndex := IndexOf(ids, overId.value);
    if oldIndex == -1 || newIndex == -1 {
      return None;
    }
    var updated := variants;
    var moved := updated[oldIndex];
    updated := Remove(updated, oldIndex);
    updated := Insert(updated, newIndex, moved);
    MovePermutes(variants, oldIndex, newIndex);
    MovePlacesAndKeepsOrder(variants, oldIndex, newIndex);
    call := Some(ReorderCall(index, updated));
  }
}
