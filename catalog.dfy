/** Data the product search service delivers, shared by every part of the widget. */
module Catalog {

  datatype Option<+T> = None | Some(value: T) {
    function GetOr(default: T): T {
      match this
      case Some(v) => v
      case None => default
    }
  }

  /** Product and variant ids share one key space (the picker keys its selection by either). */
  type Id = int

  /** A purchasable configuration of a product; `price` is kept as the service sends it. */
  datatype Variant = Variant(id: Id, title: string, price: string)

  /** A product with its variants; `image` is the image's source, when the product has an image. */
  datatype Product = Product(id: Id, title: string, image: Option<string>, variants: seq<Variant>)

  /** The ids of a variant list, in order. */
  function VariantIds(vs: seq<Variant>): (ids: seq<Id>)
    ensures |ids| == |vs|
    ensures forall k :: 0 <= k < |vs| ==> ids[k] == vs[k].id
  {
    if vs == [] then [] else [vs[0].id] + VariantIds(vs[1..])
  }

  /** No two variants of the list share an id. */
  predicate DistinctIds(vs: seq<Variant>) {
    forall i, j :: 0 <= i < j < |vs| ==> vs[i].id != vs[j].id
  }

  /** Some variant of the list has id `id`. */
  predicate HasVariantId(vs: seq<Variant>, id: Id) {
    exists j :: 0 <= j < |vs| && vs[j].id == id
  }

}
