/**
  The picker's selection map: key -> { product, variant? }. A product key
  holds a product-only entry, a variant key holds the variant together with
  its product. The product checkbox is a stored key of its own, kept in line
  with its variants only by the cascade writes of the product toggle.
 */
module Selection {
  import opened Catalog
  import opened Reorder

  /** One value of the selection map. */
  datatype Entry = Entry(product: Product, variant: Option<Variant>)

  /** What a toggle is about: the product itself, or one of its variants. */
  datatype Target = ProductTarget | VariantTarget(variant: Variant)

  type SelectionMap = map<Id, Entry>

  /** The value a toggle stores: `{product}` for a product, `{product, variant}` for a variant. */
  function EntryFor(product: Product, target: Target): (e: Entry)
    ensures e.product == product
    ensures target.ProductTarget? <==> e.variant.None?
    ensures target.VariantTarget? ==> e.variant == Some(target.variant)
  {
    match target
    case ProductTarget => Entry(product, None)
    case VariantTarget(v) => Entry(product, Some(v))
  }

  /**
    One toggle of the map: without `force` the key's membership flips, with
    `force` it becomes the forced value; a present key holds the entry for
    `target`, and no other key changes.
   */
  function Toggled(m: SelectionMap, key: Id, target: Target, product: Product, force: Option<bool>): (r: SelectionMap)
    ensures force.None? ==> (key in r <==> key !in m)
    ensures force.Some? ==> (key in r <==> force.value)
    ensures key in r ==> r[key] == EntryFor(product, target)
    ensures forall k :: k != key ==> (k in r <==> k in m)
    ensures forall k :: k != key && k in m ==> r[k] == m[k]
  {
    var checked := if force.Some? then force.value else key !in m;
    if checked then m[key := EntryFor(product, target)] else m - {key}
  }

  /** A forced toggle is idempotent. */
  lemma ForcedToggleIdempotent(m: SelectionMap, key: Id, target: Target, product: Product, b: bool)
    ensures Toggled(Toggled(m, key, target, product, Some(b)), key, target, product, Some(b))
         == Toggled(m, key, target, product, Some(b))
  {
    var once := Toggled(m, key, target, product, Some(b));
    var twice := Toggled(once, key, target, product, Some(b));
    assert twice.Keys == once.Keys;
  }

  /** The product checkbox: checked exactly when the product id is a key of the map. */
  predicate IsProductSelected(m: SelectionMap, product: Product) {
    product.id in m
  }

  /** A variant checkbox: checked exactly when the variant id is a key of the map. */
  predicate IsVariantChecked(m: SelectionMap, v: Variant) {
    v.id in m
  }

  /** The variant toggles of the cascade, one after another, each forcing `value`. */
  function ForceVariants(m: SelectionMap, product: Product, vs: seq<Variant>, value: bool): SelectionMap
    decreases |vs|
  {
    if vs == [] then m
    else
      var last := vs[|vs| - 1];
      Toggled(ForceVariants(m, product, vs[..|vs| - 1], value), last.id, VariantTarget(last), product, Some(value))
  }

  /**
    The product checkbox handler: flip the product key, then force every
    variant of the product to the negation of the product's prior state.
   */
  function Cascade(m: SelectionMap, product: Product): SelectionMap {
    ForceVariants(Toggled(m, product.id, ProductTarget, product, None), product, product.variants, !IsProductSelected(m, product))
  }

  /** Unforced variant toggles, one after another (the user clicking each variant checkbox). */
  function ToggleEach(m: SelectionMap, product: Product, vs: seq<Variant>): SelectionMap
    decreases |vs|
  {
    if vs == [] then m
    else
      var last := vs[|vs| - 1];
      Toggled(ToggleEach(m, product, vs[..|vs| - 1]), last.id, VariantTarget(last), product, None)
  }

  /** After forcing, every listed variant key has the forced membership; every other key is untouched. */
  lemma {:induction false} ForceVariantsEffect(m: SelectionMap, product: Product, vs: seq<Variant>, value: bool)
    ensures forall j :: 0 <= j < |vs| ==> (vs[j].id in ForceVariants(m, product, vs, value) <==> value)
    ensures forall k :: !HasVariantId(vs, k) ==> (k in ForceVariants(m, product, vs, value) <==> k in m)
    ensures forall k :: !HasVariantId(vs, k) && k in m ==> ForceVariants(m, product, vs, value)[k] == m[k]
  {
    if vs != [] {
      var init, last := vs[..|vs| - 1], vs[|vs| - 1];
      ForceVariantsEffect(m, product, init, value);
      var before := ForceVariants(m, product, init, value);
      var after := ForceVariants(m, product, vs, value);
      assert after == Toggled(before, last.id, VariantTarget(last), product, Some(value));
      forall j | 0 <= j < |vs| ensures vs[j].id in after <==> value {
        if j < |vs| - 1 { assert vs[j] == init[j]; }
      }
      forall k | !HasVariantId(vs, k) ensures (k in after <==> k in m) && (k in m ==> after[k] == m[k]) {
        assert k != last.id;
        forall i | 0 <= i < |init| ensures init[i].id != k {
          assert init[i] == vs[i];
        }
      }
    }
  }

  /**
    Cascade correctness: after the product toggle, the product key and every
    variant key of the product share one membership, the negation of the
    product's prior membership.
   */
  lemma CascadeAgreement(m: SelectionMap, product: Product)
    ensures IsProductSelected(Cascade(m, product), product) <==> !IsProductSelected(m, product)
    ensures forall j :: 0 <= j < |product.variants| ==>
      (IsVariantChecked(Cascade(m, product), product.variants[j]) <==> !IsProductSelected(m, product))
  {
    var flipped := Toggled(m, product.id, ProductTarget, product, None);
    ForceVariantsEffect(flipped, product, product.variants, !IsProductSelected(m, product));
  }

  /** The cascade touches only the product key and the keys of its variants. */
  lemma CascadeFrame(m: SelectionMap, product: Product)
    ensures forall k :: k != product.id && !HasVariantId(product.variants, k) ==>
      (k in Cascade(m, product) <==> k in m)
    ensures forall k :: k != product.id && !HasVariantId(product.variants, k) && k in m ==>
      Cascade(m, product)[k] == m[k]
  {
    var flipped := Toggled(m, product.id, ProductTarget, product, None);
    ForceVariantsEffect(flipped, product, product.variants, !IsProductSelected(m, product));
  }

  /** With distinct variant ids, each forced-on variant key holds exactly its own variant. */
  lemma {:induction false} ForceVariantsEntries(m: SelectionMap, product: Product, vs: seq<Variant>)
    requires DistinctIds(vs)
    ensures forall j :: 0 <= j < |vs| ==>
      vs[j].id in ForceVariants(m, product, vs, true) &&
      ForceVariants(m, product, vs, true)[vs[j].id] == Entry(product, Some(vs[j]))
  {
    if vs != [] {
      var init, last := vs[..|vs| - 1], vs[|vs| - 1];
      ForceVariantsEntries(m, product, init);
      var after := ForceVariants(m, product, vs, true);
      forall j | 0 <= j < |vs|
        ensures vs[j].id in after && after[vs[j].id] == Entry(product, Some(vs[j]))
      {
        if j < |vs| - 1 {
          assert vs[j] == init[j];
          assert vs[j].id != last.id;
        }
      }
    }
  }

  /**
    Entry shapes after selecting a product whose id is not one of its
    variants' ids and whose variant ids are distinct: the product key holds
    the product-only entry, each variant key the variant entry.
   */
  lemma CascadeOnEntries(m: SelectionMap, product: Product)
    requires !IsProductSelected(m, product)
    requires !HasVariantId(product.variants, product.id)
    requires DistinctIds(product.variants)
    ensures product.id in Cascade(m, product) && Cascade(m, product)[product.id] == Entry(product, None)
    ensures forall j :: 0 <= j < |product.variants| ==>
      product.variants[j].id in Cascade(m, product) &&
      Cascade(m, product)[product.variants[j].id] == Entry(product, Some(product.variants[j]))
  {
    var flipped := Toggled(m, product.id, ProductTarget, product, None);
    ForceVariantsEffect(flipped, product, product.variants, true);
    ForceVariantsEntries(flipped, product, product.variants);
  }

  /** Unforced toggles over distinct ids flip each listed key and leave every other key alone. */
  lemma {:induction false} ToggleEachEffect(m: SelectionMap, product: Product, vs: seq<Variant>)
    requires DistinctIds(vs)
    ensures forall j :: 0 <= j < |vs| ==> (vs[j].id in ToggleEach(m, product, vs) <==> vs[j].id !in m)
    ensures forall k :: !HasVariantId(vs, k) ==> (k in ToggleEach(m, product, vs) <==> k in m)
    ensures forall k :: !HasVariantId(vs, k) && k in m ==> ToggleEach(m, product, vs)[k] == m[k]
  {
    if vs != [] {
      var init, last := vs[..|vs| - 1], vs[|vs| - 1];
      ToggleEachEffect(m, product, init);
      var before := ToggleEach(m, product, init);
      var after := ToggleEach(m, product, vs);
      assert after == Toggled(before, last.id, VariantTarget(last), product, None);
      forall i | 0 <= i < |init| ensures init[i].id != last.id {
        assert init[i] == vs[i];
      }
      forall j | 0 <= j < |vs| ensures vs[j].id in after <==> vs[j].id !in m {
        if j < |vs| - 1 {
          assert vs[j] == init[j];
          assert vs[j].id != last.id;
        }
      }
      forall k | !HasVariantId(vs, k) ensures (k in after <==> k in m) && (k in m ==> after[k] == m[k]) {
        assert k != last.id;
        forall i | 0 <= i < |init| ensures init[i].id != k {
          assert init[i] == vs[i];
        }
      }
    }
  }

  /**
    The product flag is stored, not derived: select a product (its id not
    among its variants' ids, variant ids distinct), then uncheck each of its
    variants; the product key is still present and no variant key is.
   */
  lemma ProductFlagOutlivesVariants(m: SelectionMap, product: Product)
    requires !IsProductSelected(m, product)
    requires !HasVariantId(product.variants, product.id)
    requires DistinctIds(product.variants)
    ensures IsProductSelected(ToggleEach(Cascade(m, product), product, product.variants), product)
    ensures forall j :: 0 <= j < |product.variants| ==>
      !IsVariantChecked(ToggleEach(Cascade(m, product), product, product.variants), product.variants[j])
  {
    CascadeAgreement(m, product);
    ToggleEachEffect(Cascade(m, product), product, product.variants);
  }

  /** Some variant entry of `m` selects `v` under a product with id `pid`. */
  ghost predicate SelectedUnder(m: SelectionMap, pid: Id, v: Variant) {
    exists k :: k in m && m[k].product.id == pid && m[k].variant == Some(v)
  }

  /** `p` carries the fields of the product of some entry of `m`, with its own variant list. */
  ghost predicate DescribedBy(m: SelectionMap, p: Product) {
    exists k :: k in m && m[k].product.(variants := p.variants) == p
  }

  /**
    `result` is a confirm output for `m`: one product per product id, each
    with at least one variant, variant ids distinct within a product, every
    variant taken from a variant entry of that product, and every variant
    entry represented. The order of the products is left open.
   */
  ghost predicate IsGrouping(m: SelectionMap, result: seq<Product>) {
    DistinctProducts(result) && ProductsSound(m, result) && Covers(m, result)
  }

  /** Each product of `result` has variants, all distinct and all selected under it, and the fields of a selected product. */
  ghost predicate ProductsSound(m: SelectionMap, result: seq<Product>) {
    forall i :: 0 <= i < |result| ==>
      && |result[i].variants| > 0 && DistinctIds(result[i].variants) && DescribedBy(m, result[i])
      && forall j :: 0 <= j < |result[i].variants| ==> SelectedUnder(m, result[i].id, result[i].variants[j])
  }

  /** Every variant entry of `m` is represented under its product in `result`. */
  ghost predicate Covers(m: SelectionMap, result: seq<Product>) {
    forall k :: k in m && m[k].variant.Some? ==>
      exists i :: 0 <= i < |result| && result[i].id == m[k].product.id &&
                  HasVariantId(result[i].variants, m[k].variant.value.id)
  }

  /** What the grouping loop keeps true of the group it holds for `pid`. */
  ghost predicate GroupSound(m: SelectionMap, pid: Id, g: Product) {
    && g.id == pid
    && DistinctIds(g.variants)
    && DescribedBy(m, g)
    && forall j :: 0 <= j < |g.variants| ==> SelectedUnder(m, pid, g.variants[j])
  }

  /** An entry the grouping loop has already absorbed. */
  ghost predicate Absorbed(grouped: map<Id, Product>, e: Entry) {
    e.product.id in grouped &&
    (e.variant.Some? ==> HasVariantId(grouped[e.product.id].variants, e.variant.value.id))
  }

  /** `after` keeps every group of `before`, with its variants extended at the end. */
  ghost predicate Extends(before: map<Id, Product>, after: map<Id, Product>) {
    forall pid :: pid in before ==>
      pid in after && |before[pid].variants| <= |after[pid].variants| &&
      after[pid].variants[..|before[pid].variants|] == before[pid].variants
  }

  lemma AbsorbedStays(before: map<Id, Product>, after: map<Id, Product>, e: Entry)
    requires Extends(before, after) && Absorbed(before, e)
    ensures Absorbed(after, e)
  {
    var pid := e.product.id;
    if e.variant.Some? {
      var vs := before[pid].variants;
      var j :| 0 <= j < |vs| && vs[j].id == e.variant.value.id;
      assert after[pid].variants[j] == vs[j];
    }
  }

  /** What the grouping loop keeps true of all its groups. */
  ghost predicate GroupsSound(m: SelectionMap, grouped: map<Id, Product>, order: seq<Id>) {
    && (forall i, j :: 0 <= i < j < |order| ==> order[i] != order[j])
    && (forall t :: 0 <= t < |order| ==> order[t] in grouped)
    && (forall pid :: pid in grouped ==> pid in order)
    && (forall pid :: pid in grouped ==> GroupSound(m, pid, grouped[pid]))
  }

  /** Creating the empty group of an entry's product keeps the groups sound. */
  lemma NewGroupSound(m: SelectionMap, k: Id, grouped: map<Id, Product>, order: seq<Id>)
    requires k in m && GroupsSound(m, grouped, order) && m[k].product.id !in grouped
    ensures GroupsSound(m, grouped[m[k].product.id := m[k].product.(variants := [])], order + [m[k].product.id])
  {
    var pid := m[k].product.id;
    var g := m[k].product.(variants := []);
    var grouped', order' := grouped[pid := g], order + [pid];
    assert DescribedBy(m, g) by { assert m[k].product.(variants := g.variants) == g; }
    forall i, j | 0 <= i < j < |order'| ensures order'[i] != order'[j] {
      if j == |order| { assert order[i] in grouped; }
    }
    forall q | q in grouped' ensures q in order' {
      if q != pid { assert q in order; }
    }
  }

  /** Appending a variant the group lacks, taken from a variant entry of that product, keeps the groups sound. */
  lemma AppendSound(m: SelectionMap, k: Id, grouped: map<Id, Product>, order: seq<Id>)
    requires k in m && GroupsSound(m, grouped, order)
    requires m[k].product.id in grouped && m[k].variant.Some?
    requires !HasVariantId(grouped[m[k].product.id].variants, m[k].variant.value.id)
    ensures var g := grouped[m[k].product.id];
      GroupsSound(m, grouped[m[k].product.id := g.(variants := g.variants + [m[k].variant.value])], order)
  {
    var pid, v := m[k].product.id, m[k].variant.value;
    var g := grouped[pid];
    var g' := g.(variants := g.variants + [v]);
    assert GroupSound(m, pid, g);
    assert DescribedBy(m, g') by {
      var k0 :| k0 in m && m[k0].product.(variants := g.variants) == g;
      assert m[k0].product.(variants := g'.variants) == g';
    }
    assert SelectedUnder(m, pid, v);
    forall j | 0 <= j < |g'.variants| ensures SelectedUnder(m, pid, g'.variants[j]) {
      if j < |g.variants| { assert g'.variants[j] == g.variants[j]; }
    }
    forall i, j | 0 <= i < j < |g'.variants| ensures g'.variants[i].id != g'.variants[j].id {
      if j == |g.variants| { assert g'.variants[i] == g.variants[i]; }
    }
  }

  /**
    One step of the `forEach`: create the group of the entry's product if it
    has none, then append the entry's variant unless the group already holds
    a variant with that id.
   */
  method Absorb(m: SelectionMap, k: Id, grouped: map<Id, Product>, order: seq<Id>)
    returns (grouped': map<Id, Product>, order': seq<Id>)
    requires k in m && GroupsSound(m, grouped, order)
    ensures GroupsSound(m, grouped', order')
    ensures Extends(grouped, grouped') && Absorbed(grouped', m[k])
  {
    grouped', order' := grouped, order;
    var e := m[k];
    var pid := e.product.id;
    if pid !in grouped' {
      NewGroupSound(m, k, grouped', order');
      grouped' := grouped'[pid := e.product.(variants := [])];
      order' := order' + [pid];
    }
    assert Extends(grouped, grouped');
    if e.variant.Some? {
      var v := e.variant.value;
      var g := grouped'[pid];
      if IndexOf(VariantIds(g.variants), v.id) == -1 {
        AppendSound(m, k, grouped', order');
        ghost var mid := grouped';
        grouped' := grouped'[pid := g.(variants := g.variants + [v])];
        assert grouped'[pid].variants[|g.variants|].id == v.id;
        assert Extends(mid, grouped');
        assert Extends(grouped, grouped') by {
          forall q | q in grouped
            ensures q in grouped' && |grouped[q].variants| <= |grouped'[q].variants| &&
                    grouped'[q].variants[..|grouped[q].variants|] == grouped[q].variants
          {
            var n := |grouped[q].variants|;
            assert mid[q].variants[..n] == grouped[q].variants;
            assert grouped'[q].variants[..|mid[q].variants|] == mid[q].variants;
            assert grouped'[q].variants[..n] == mid[q].variants[..n];
          }
        }
      } else {
        var j := IndexOf(VariantIds(g.variants), v.id);
        assert g.variants[j].id == v.id;
      }
    }
  }

  /**
    The `forEach` of the confirm button: every entry absorbed, in the order
    `keys` enumerates the map (an order JavaScript fixes and this model
    leaves open); `order` lists the groups as they were created.
   */
  method GroupEntries(m: SelectionMap, keys: seq<Id>) returns (grouped: map<Id, Product>, order: seq<Id>)
    requires forall t :: 0 <= t < |keys| ==> keys[t] in m
    requires forall k :: k in m ==> k in keys
    ensures GroupsSound(m, grouped, order)
    ensures forall k :: k in m ==> Absorbed(grouped, m[k])
  {
    grouped, order := map[], [];
    var i := 0;
    while i < |keys|
      invariant 0 <= i <= |keys|
      invariant GroupsSound(m, grouped, order)
      invariant forall t :: 0 <= t < i ==> keys[t] in m && Absorbed(grouped, m[keys[t]])
    {
      ghost var before := grouped;
      grouped, order := Absorb(m, keys[i], grouped, order);
      forall t | 0 <= t < i ensures Absorbed(grouped, m[keys[t]]) {
        AbsorbedStays(before, grouped, m[keys[t]]);
      }
      i := i + 1;
    }
    forall k | k in m ensures Absorbed(grouped, m[k]) {
      var t :| 0 <= t < |keys| && keys[t] == k;
    }
  }

  /** The final `filter` over the groups listed by `ids`: those with at least one variant, in that order. */
  function Kept(grouped: map<Id, Product>, ids: seq<Id>): (r: seq<Product>)
    requires forall t :: 0 <= t < |ids| ==> ids[t] in grouped
    ensures |r| <= |ids|
  {
    if ids == [] then []
    else
      var g := grouped[ids[|ids| - 1]];
      Kept(grouped, ids[..|ids| - 1]) + (if |g.variants| > 0 then [g] else [])
  }

  /** Every product of `r` is a non-empty group listed by `ids`. */
  ghost predicate KeptFromIds(grouped: map<Id, Product>, ids: seq<Id>, r: seq<Product>) {
    forall a :: 0 <= a < |r| ==> r[a].id in ids && r[a].id in grouped && r[a] == grouped[r[a].id] && |r[a].variants| > 0
  }

  /** No two products of `r` share an id. */
  ghost predicate DistinctProducts(r: seq<Product>) {
    forall a, b :: 0 <= a < b < |r| ==> r[a].id != r[b].id
  }

  /** Every non-empty group listed by `ids` has a product in `r`. */
  ghost predicate KeepsNonEmpty(grouped: map<Id, Product>, ids: seq<Id>, r: seq<Product>)
    requires forall t :: 0 <= t < |ids| ==> ids[t] in grouped
  {
    forall t :: 0 <= t < |ids| && |grouped[ids[t]].variants| > 0 ==>
      exists a :: 0 <= a < |r| && r[a].id == ids[t]
  }

  /** Every group the filter keeps is a non-empty group listed by `ids`. */
  lemma {:induction false} KeptFrom(grouped: map<Id, Product>, ids: seq<Id>)
    requires forall t :: 0 <= t < |ids| ==> ids[t] in grouped
    requires forall pid :: pid in grouped ==> grouped[pid].id == pid
    ensures KeptFromIds(grouped, ids, Kept(grouped, ids))
  {
    if ids != [] {
      var init := ids[..|ids| - 1];
      KeptFrom(grouped, init);
      var r0 := Kept(grouped, init);
      var r := Kept(grouped, ids);
      var g := grouped[ids[|ids| - 1]];
      assert r == r0 + (if |g.variants| > 0 then [g] else []);
      forall a | 0 <= a < |r| ensures r[a].id in ids && r[a] == grouped[r[a].id] && |r[a].variants| > 0 {
        if a < |r0| {
          assert r[a] == r0[a];
          var t :| 0 <= t < |init| && init[t] == r0[a].id;
          assert ids[t] == r0[a].id;
        } else {
          assert r[a] == g && g.id == ids[|ids| - 1];
        }
      }
    }
  }

  /** The filter keeps each listed group at most once. */
  lemma {:induction false} KeptDistinct(grouped: map<Id, Product>, ids: seq<Id>)
    requires forall t :: 0 <= t < |ids| ==> ids[t] in grouped
    requires forall pid :: pid in grouped ==> grouped[pid].id == pid
    requires forall i, j :: 0 <= i < j < |ids| ==> ids[i] != ids[j]
    ensures DistinctProducts(Kept(grouped, ids))
  {
    if ids != [] {
      var init, last := ids[..|ids| - 1], ids[|ids| - 1];
      KeptDistinct(grouped, init);
      KeptFrom(grouped, init);
      var r0 := Kept(grouped, init);
      var r := Kept(grouped, ids);
      var g := grouped[last];
      assert r == r0 + (if |g.variants| > 0 then [g] else []);
      forall a | 0 <= a < |r0| ensures r[a] == r0[a] && r0[a].id != last {
        var t :| 0 <= t < |init| && init[t] == r0[a].id;
        assert ids[t] == r0[a].id;
      }
      assert |g.variants| > 0 ==> r[|r0|].id == last;
    }
  }

  /** The filter keeps every listed group that has a variant. */
  lemma {:induction false} KeptComplete(grouped: map<Id, Product>, ids: seq<Id>)
    requires forall t :: 0 <= t < |ids| ==> ids[t] in grouped
    requires forall pid :: pid in grouped ==> grouped[pid].id == pid
    ensures KeepsNonEmpty(grouped, ids, Kept(grouped, ids))
  {
    if ids != [] {
      var init, last := ids[..|ids| - 1], ids[|ids| - 1];
      KeptComplete(grouped, init);
      var r0 := Kept(grouped, init);
      var r := Kept(grouped, ids);
      forall t | 0 <= t < |ids| && |grouped[ids[t]].variants| > 0
        ensures exists a :: 0 <= a < |r| && r[a].id == ids[t]
      {
        if t < |init| {
          assert init[t] == ids[t];
          var a :| 0 <= a < |r0| && r0[a].id == init[t];
          assert r[a] == r0[a];
        } else {
          assert r[|r0|].id == last;
        }
      }
    }
  }

  /** Sound groups carry their own product id as key. */
  lemma KeyedById(m: SelectionMap, grouped: map<Id, Product>, order: seq<Id>)
    requires GroupsSound(m, grouped, order)
    ensures forall pid :: pid in grouped ==> grouped[pid].id == pid
  {
    forall pid | pid in grouped ensures grouped[pid].id == pid {
      assert GroupSound(m, pid, grouped[pid]);
    }
  }

  /** Each product the filter keeps out of sound groups is well formed and drawn from `m`. */
  lemma KeptSound(m: SelectionMap, grouped: map<Id, Product>, order: seq<Id>)
    requires GroupsSound(m, grouped, order)
    ensures ProductsSound(m, Kept(grouped, order))
  {
    KeyedById(m, grouped, order);
    KeptFrom(grouped, order);
    var result := Kept(grouped, order);
    forall a | 0 <= a < |result|
      ensures |result[a].variants| > 0 && DistinctIds(result[a].variants) && DescribedBy(m, result[a])
      ensures forall j :: 0 <= j < |result[a].variants| ==> SelectedUnder(m, result[a].id, result[a].variants[j])
    {
      assert GroupSound(m, result[a].id, grouped[result[a].id]);
    }
  }

  /** Every absorbed variant entry shows up in the filtered groups. */
  lemma KeptCovers(m: SelectionMap, grouped: map<Id, Product>, order: seq<Id>)
    requires GroupsSound(m, grouped, order)
    requires forall k :: k in m ==> Absorbed(grouped, m[k])
    ensures Covers(m, Kept(grouped, order))
  {
    KeyedById(m, grouped, order);
    KeptFrom(grouped, order);
    KeptComplete(grouped, order);
    var result := Kept(grouped, order);
    forall k | k in m && m[k].variant.Some?
      ensures exists a :: 0 <= a < |result| && result[a].id == m[k].product.id &&
                          HasVariantId(result[a].variants, m[k].variant.value.id)
    {
      var pid, vid := m[k].product.id, m[k].variant.value.id;
      assert Absorbed(grouped, m[k]);
      var g := grouped[pid];
      assert HasVariantId(g.variants, vid);
      assert |g.variants| > 0;
      assert pid in order;
      var t :| 0 <= t < |order| && order[t] == pid;
      var a :| 0 <= a < |result| && result[a].id == order[t];
      assert result[a] == g;
    }
  }

  /** Sound, complete groups filtered by `Kept` form a confirm output. */
  lemma KeptIsGrouping(m: SelectionMap, grouped: map<Id, Product>, order: seq<Id>)
    requires GroupsSound(m, grouped, order)
    requires forall k :: k in m ==> Absorbed(grouped, m[k])
    ensures IsGrouping(m, Kept(grouped, order))
  {
    KeyedById(m, grouped, order);
    KeptDistinct(grouped, order);
    KeptSound(m, grouped, order);
    KeptCovers(m, grouped, order);
  }

  /** The `filter` loop: the groups listed by `ids` that have at least one variant. */
  method KeepNonEmpty(grouped: map<Id, Product>, ids: seq<Id>) returns (result: seq<Product>)
    requires forall t :: 0 <= t < |ids| ==> ids[t] in grouped
    ensures result == Kept(grouped, ids)
  {
    result := [];
    var i := 0;
    while i < |ids|
      invariant 0 <= i <= |ids|
      invariant result == Kept(grouped, ids[..i])
    {
      assert ids[..i + 1][..i] == ids[..i];
      var g := grouped[ids[i]];
      if |g.variants| > 0 {
        result := result + [g];
      }
      i := i + 1;
    }
    assert ids[..|ids|] == ids;
  }

  /**
    The confirm button: group the entries, then keep only the products that
    received at least one variant.
   */
  method Group(m: SelectionMap, keys: seq<Id>) returns (result: seq<Product>)
    requires forall t :: 0 <= t < |keys| ==> keys[t] in m
    requires forall k :: k in m ==> k in keys
    ensures IsGrouping(m, result)
  {
    var grouped, order := GroupEntries(m, keys);
    result := KeepNonEmpty(grouped, order);
    KeptIsGrouping(m, grouped, order);
  }

  /** Product-only entries contribute nothing: a product id with no variant entry has no group. */
  lemma WithoutVariantEntryNoGroup(m: SelectionMap, result: seq<Product>, pid: Id)
    requires IsGrouping(m, result)
    requires forall k :: k in m && m[k].product.id == pid ==> m[k].variant.None?
    ensures forall i :: 0 <= i < |result| ==> result[i].id != pid
  {
    forall i | 0 <= i < |result| ensures result[i].id != pid {
      assert SelectedUnder(m, result[i].id, result[i].variants[0]);
      var k :| k in m && m[k].product.id == result[i].id && m[k].variant == Some(result[i].variants[0]);
    }
  }

  /**
    The confirm-drop rule: a product toggled on and then stripped of every
    variant never reaches the confirm output.
   */
  lemma ProductOnlySelectionDropped(m: SelectionMap, product: Product, result: seq<Product>)
    requires !IsProductSelected(m, product)
    requires forall k :: k in m ==> m[k].product.id != product.id
    requires !HasVariantId(product.variants, product.id)
    requires DistinctIds(product.variants)
    requires IsGrouping(ToggleEach(Cascade(m, product), product, product.variants), result)
    ensures forall i :: 0 <= i < |result| ==> result[i].id != product.id
  {
    var c := Cascade(m, product);
    var after := ToggleEach(c, product, product.variants);
    CascadeOnEntries(m, product);
    CascadeFrame(m, product);
    CascadeAgreement(m, product);
    ToggleEachEffect(c, product, product.variants);
    forall k | k in after ensures after[k].product.id == product.id ==> after[k].variant.None? {
      if k != product.id {
        forall j | 0 <= j < |product.variants| ensures product.variants[j].id != k {
          assert product.variants[j].id !in after;
        }
        assert after[k] == m[k];
      }
    }
    WithoutVariantEntryNoGroup(after, result, product.id);
  }
}
