/**
  The product picker dialog: the search box, the selection map the
  checkboxes write, and the confirm button that turns the selection into
  products with their chosen variants. The listing it scrolls through is a
  `Pager` created with no search argument, so its default term is "".
 */
module Picker {
  import opened Catalog
  import opened Selection
  import opened Pagination

  class PickerDialog {
    var search: string
    var selected: SelectionMap
    const listing: Pager

    /** The listing was created without a search argument. */
    ghost predicate Valid() {
      listing.search == ""
    }

    constructor()
      ensures Valid() && fresh(listing)
      ensures search == "" && selected == map[] && listing.State() == Fresh
    {
      search := "";
      selected := map[];
      listing := new Pager("");
    }

    /** The effect that runs when the dialog opens: a fetch with no arguments. */
    method Opened(response: Option<seq<Product>>) returns (req: Option<Request>)
      requires Valid()
      modifies listing
      ensures req == Requested(old(listing.State()), "", None, None)
      ensures listing.State() == Fetched(old(listing.State()), None, response)
    {
      req := listing.Fetch(None, None, response);
    }

    /**
      The scroll handler: near the bottom of the list (`nearBottom`, a DOM
      measurement) and while the listing may have more, a fetch with no
      arguments.
     */
    method Scrolled(nearBottom: bool, response: Option<seq<Product>>) returns (req: Option<Request>)
      requires Valid()
      modifies listing
      ensures nearBottom && old(listing.hasMore) ==>
        && req == Requested(old(listing.State()), "", None, None)
        && listing.State() == Fetched(old(listing.State()), None, response)
      ensures !(nearBottom && old(listing.hasMore)) ==> req == None && listing.State() == old(listing.State())
    {
      req := None;
      if nearBottom && listing.hasMore {
        req := listing.Fetch(None, None, response);
      }
    }

    /** The search box: keep the term, then start the listing over for it. */
    method SearchChange(term: string, response: Option<seq<Product>>) returns (req: Option<Request>)
      requires Valid()
      modifies this, listing
      ensures search == term && selected == old(selected)
      ensures req == Requested(Cleared(old(listing.State())), "", Some(term), Some(0))
      ensures listing.State() == Fetched(Cleared(old(listing.State())), Some(0), response)
    {
      search := term;
      req := listing.ResetSearch(term, response);
    }

    /**
      `handleToggle`: copy the map, then write or delete the key, depending on
      `force` when it is given and on the key's absence otherwise.
     */
    method Toggle(id: Id, target: Target, product: Product, force: Option<bool>)
      modifies this
      ensures selected == Toggled(old(selected), id, target, product, force)
      ensures search == old(search)
    {
      var newMap := selected;
      var isChecked := if force.Some? then force.value else id !in newMap;
      if isChecked {
        newMap := newMap[id := EntryFor(product, target)];
      } else {
        newMap := newMap - {id};
      }
      selected := newMap;
    }

    /**
      The product checkbox: toggle the product key, then force each variant
      key, in list order, to the negation of the product's state as rendered
      before the click.
     */
    method ToggleProduct(product: Product)
      modifies this
      ensures selected == Cascade(old(selected), product)
      ensures search == old(search)
    {
      var wasSelected := IsProductSelected(selected, product);
      Toggle(product.id, ProductTarget, product, None);
      ghost var flipped := selected;
      var vs := product.variants;
      var i := 0;
      while i < |vs|
        invariant 0 <= i <= |vs|
        invariant selected == ForceVariants(flipped, product, vs[..i], !wasSelected)
        invariant search == old(search)
      {
        Toggle(vs[i].id, VariantTarget(vs[i]), product, Some(!wasSelected));
        assert vs[..i + 1][..i] == vs[..i];
        i := i + 1;
      }
      assert vs[..|vs|] == vs;
    }

    /** A variant checkbox: an unforced toggle of that variant's key. */
    method ToggleVariant(product: Product, variant: Variant)
      modifies this
      ensures selected == Toggled(old(selected), variant.id, VariantTarget(variant), product, None)
      ensures search == old(search)
    {
      Toggle(variant.id, VariantTarget(variant), product, None);
    }

    /**
      The confirm button: group the selection (enumerated in the order
      `keys` gives), hand the result on, and clear the selection.
     */
    method Submit(keys: seq<Id>) returns (result: seq<Product>)
      requires forall t :: 0 <= t < |keys| ==> keys[t] in selected
      requires forall k :: k in selected ==> k in keys
      modifies this
      ensures IsGrouping(old(selected), result)
      ensures selected == map[] && search == old(search)
    {
      result := Group(selected, keys);
      selected := map[];
    }
  }
}
