/**
 * The product controller of the admin API: price derivation from variants,
 * product creation with its variant rows, and product update with variant
 * reconciliation (delete the variants not sent back, overwrite the ones sent
 * with an id, create the ones sent without one).
 *
 * Money is held in paise (the `decimal(10,2)` columns scaled by 100).
 * `Str::slug` and the image writer are opaque functions the store is built with.
 */
module Catalog {
  import opened Wrappers
  import opened Http
  import Text
  import Seqs

  type Paise = int

  /** Variant attributes: stored JSON-encoded and never inspected. */
  type Attributes = map<string, string>

  /** One submitted entry of the `variants` array. */
  datatype VariantEntry = VariantEntry(
    id: Option<nat>,
    name: string,
    regularPrice: Option<Paise>,
    tradePrice: Paise,
    attributes: Option<Attributes>)

  /** The body of a create or update request, absent fields as `None` (an absent `variants` as `[]`). */
  datatype ProductRequest = ProductRequest(
    name: string,
    regularPrice: Option<Paise>,
    tradePrice: Option<Paise>,
    hasVariants: Option<bool>,
    mainImage: Option<string>,
    description: Option<string>,
    gstRate: int,
    categoryId: Option<nat>,
    variants: seq<VariantEntry>)

  /** A row of the `products` table. */
  datatype ProductRow = ProductRow(
    name: string,
    slug: string,
    categoryId: Option<nat>,
    gstRate: int,
    regularPrice: Option<Paise>,
    tradePrice: Paise,
    mainImage: Option<string>,
    description: Option<string>,
    hasVariants: bool)

  /** A row of the `product_variants` table. */
  datatype VariantRow = VariantRow(
    productId: nat,
    name: string,
    regularPrice: Option<Paise>,
    tradePrice: Paise,
    attributes: Attributes)

  datatype Prices = Prices(regular: Option<Paise>, trade: Option<Paise>)

  /** `if ($request->has_variants)`: only a submitted true switches variants on. */
  predicate VariantsOn(req: ProductRequest)
  {
    req.hasVariants == Some(true)
  }

  /**
   * Without variants the request's own `trade_price` is stored, and validation lets a null
   * one through; the NOT NULL `trade_price` column then refuses the row.
   */
  predicate TradePriceMissing(req: ProductRequest)
  {
    !VariantsOn(req) && req.tradePrice.None?
  }

  /**
   * What the request validator lets through to the controller body: `required` rejects a
   * name that is blank once trimmed, for the product and for every submitted variant.
   */
  predicate ValidRequest(req: ProductRequest)
  {
    && !Text.IsPhpBlank(req.name)
    && (forall i :: 0 <= i < |req.variants| ==> !Text.IsPhpBlank(req.variants[i].name))
    && req.gstRate >= 0
    && req.categoryId.Some?
    && (VariantsOn(req) ==> |req.variants| > 0)
  }

  // ---------------------------------------------------------------------------
  // Price derivation
  // ---------------------------------------------------------------------------

  /** The non-null variant regular prices, in submission order. */
  function RegularPrices(vs: seq<VariantEntry>): (r: seq<Paise>)
    ensures forall x :: x in r <==> exists i :: 0 <= i < |vs| && vs[i].regularPrice == Some(x)
  {
    if vs == [] then []
    else
      var rest := RegularPrices(vs[1..]);
      assert forall i :: 1 <= i < |vs| ==> vs[i] == vs[1..][i - 1];
      match vs[0].regularPrice
      case Some(p) => [p] + rest
      case None => rest
  }

  /** The variant trade prices, in submission order. */
  function TradePrices(vs: seq<VariantEntry>): (r: seq<Paise>)
    ensures |r| == |vs|
    ensures forall i :: 0 <= i < |vs| ==> r[i] == vs[i].tradePrice
  {
    if vs == [] then [] else [vs[0].tradePrice] + TradePrices(vs[1..])
  }

  /** The product-level prices stored on create and on update. */
  function DerivePrices(req: ProductRequest): (p: Prices)
    requires VariantsOn(req) ==> |req.variants| > 0
    ensures !VariantsOn(req) ==> p == Prices(req.regularPrice, req.tradePrice)
    ensures p.trade.None? <==> TradePriceMissing(req)
    ensures VariantsOn(req) ==>
      && (exists i :: 0 <= i < |req.variants| && req.variants[i].tradePrice == p.trade.value)
      && (forall i :: 0 <= i < |req.variants| ==> p.trade.value <= req.variants[i].tradePrice)
    ensures VariantsOn(req) ==>
      (p.regular.None? <==> forall i :: 0 <= i < |req.variants| ==> req.variants[i].regularPrice.None?)
    ensures VariantsOn(req) && p.regular.Some? ==>
      && (exists i :: 0 <= i < |req.variants| && req.variants[i].regularPrice == p.regular)
      && (forall i :: 0 <= i < |req.variants| && req.variants[i].regularPrice.Some? ==>
            p.regular.value <= req.variants[i].regularPrice.value)
  {
    if VariantsOn(req) then
      var regular := RegularPrices(req.variants);
      var trades := TradePrices(req.variants);
      var minTrade := Seqs.Min(trades);
      assert trades[0] in trades;
      assert forall i :: 0 <= i < |req.variants| ==> trades[i] in trades;
      if regular == [] then
        Prices(None, Some(minTrade))
      else
        var minRegular := Seqs.Min(regular);
        assert forall i :: 0 <= i < |req.variants| && req.variants[i].regularPrice.Some? ==>
          req.variants[i].regularPrice.value in regular;
        Prices(Some(minRegular), Some(minTrade))
    else
      Prices(req.regularPrice, req.tradePrice)
  }

  /** The worked example: regular prices 100, none, 90 and trade prices 80, 60, 70 give 90 and 60. */
  lemma MixedVariantPrices(req: ProductRequest)
    requires VariantsOn(req)
    requires req.variants == [
      VariantEntry(None, "a", Some(100), 80, None),
      VariantEntry(None, "b", None, 60, None),
      VariantEntry(None, "c", Some(90), 70, None)]
    ensures DerivePrices(req) == Prices(Some(90), Some(60))
  {
    var p := DerivePrices(req);
    assert p.trade.value <= req.variants[1].tradePrice;
    assert p.regular.value <= req.variants[2].regularPrice.value;
  }

  // ---------------------------------------------------------------------------
  // Variant rows
  // ---------------------------------------------------------------------------

  /** `!empty($variantData["id"])`: a present, non-zero id. */
  predicate HasId(e: VariantEntry)
  {
    e.id.Some? && e.id.value != 0
  }

  /** The row `ProductVariant::create` inserts for an entry. */
  function NewVariantRow(productId: nat, e: VariantEntry): VariantRow
  {
    VariantRow(productId, e.name, e.regularPrice, e.tradePrice, e.attributes.GetOr(map[]))
  }

  /** `ProductVariant::where('id', …)->update(…)`: every column but the owner is replaced. */
  function Overwrite(row: VariantRow, e: VariantEntry): (r: VariantRow)
    ensures r.productId == row.productId
    ensures r == NewVariantRow(row.productId, e)
  {
    row.(name := e.name, regularPrice := e.regularPrice, tradePrice := e.tradePrice,
         attributes := e.attributes.GetOr(map[]))
  }

  /** The ids `k` with `next <= k < next + n`. */
  function IdRange(next: nat, n: nat): (r: set<nat>)
    ensures forall k :: k in r <==> next <= k < next + n
  {
    if n == 0 then {} else IdRange(next, n - 1) + {next + n - 1}
  }

  lemma {:induction false} IdRangeSize(next: nat, n: nat)
    ensures |IdRange(next, n)| == n
  {
    if n > 0 {
      IdRangeSize(next, n - 1);
    }
  }

  /** Rows inserted for `es`, one per entry, with consecutive ids from `next`. */
  function CreatedRows(productId: nat, es: seq<VariantEntry>, next: nat): (r: map<nat, VariantRow>)
    ensures r.Keys == IdRange(next, |es|)
  {
    if es == [] then map[]
    else CreatedRows(productId, es[..|es| - 1], next)[next + |es| - 1 := NewVariantRow(productId, es[|es| - 1])]
  }

  lemma CreatedRowsSnoc(productId: nat, es: seq<VariantEntry>, e: VariantEntry, next: nat)
    ensures CreatedRows(productId, es + [e], next) == CreatedRows(productId, es, next)[next + |es| := NewVariantRow(productId, e)]
  {
    assert (es + [e])[..|es|] == es;
  }

  /** One more iteration of the create loop adds the row of entry `i` under id `next + i`. */
  lemma CreatedRowsStep(before: map<nat, VariantRow>, productId: nat, es: seq<VariantEntry>, i: nat, next: nat)
    requires i < |es|
    ensures before + CreatedRows(productId, es[..i + 1], next)
         == (before + CreatedRows(productId, es[..i], next))[next + i := NewVariantRow(productId, es[i])]
  {
    assert es[..i + 1] == es[..i] + [es[i]];
    CreatedRowsSnoc(productId, es[..i], es[i], next);
  }

  /** Creation inserts exactly one row per entry, each owned by the product, in entry order. */
  lemma CreatedRowsExactlyOnePerEntry(productId: nat, es: seq<VariantEntry>, next: nat)
    ensures |CreatedRows(productId, es, next)| == |es|
    ensures forall j :: 0 <= j < |es| ==>
      next + j in CreatedRows(productId, es, next) &&
      CreatedRows(productId, es, next)[next + j] == NewVariantRow(productId, es[j])
    ensures forall k :: k in CreatedRows(productId, es, next) ==>
      CreatedRows(productId, es, next)[k].productId == productId
  {
    IdRangeSize(next, |es|);
    assert |CreatedRows(productId, es, next).Keys| == |es|;
    CreatedRowsEntries(productId, es, next);
    CreatedRowsOwned(productId, es, next);
  }

  lemma {:induction false} CreatedRowsEntries(productId: nat, es: seq<VariantEntry>, next: nat)
    ensures forall j :: 0 <= j < |es| ==>
      next + j in CreatedRows(productId, es, next) &&
      CreatedRows(productId, es, next)[next + j] == NewVariantRow(productId, es[j])
  {
    if es != [] {
      var init := es[..|es| - 1];
      CreatedRowsEntries(productId, init, next);
      var before := CreatedRows(productId, init, next);
      var r := CreatedRows(productId, es, next);
      assert r == before[next + |es| - 1 := NewVariantRow(productId, es[|es| - 1])];
      forall j | 0 <= j < |init|
        ensures next + j in r && r[next + j] == NewVariantRow(productId, es[j])
      {
        assert es[j] == init[j];
        assert r[next + j] == before[next + j];
      }
    }
  }

  lemma {:induction false} CreatedRowsOwned(productId: nat, es: seq<VariantEntry>, next: nat)
    ensures forall k :: k in CreatedRows(productId, es, next) ==>
      CreatedRows(productId, es, next)[k].productId == productId
  {
    if es != [] {
      CreatedRowsOwned(productId, es[..|es| - 1], next);
    }
  }

  /** The ids sent back: `collect($request->variants)->pluck('id')->filter()`. */
  function SentIds(es: seq<VariantEntry>): (r: set<nat>)
    ensures forall k :: k in r <==> exists i :: 0 <= i < |es| && HasId(es[i]) && es[i].id.value == k
  {
    set i | 0 <= i < |es| && HasId(es[i]) :: es[i].id.value
  }

  /** The delete step: the product's rows whose id was not sent back are removed. */
  function Prune(m: map<nat, VariantRow>, productId: nat, sent: set<nat>): (r: map<nat, VariantRow>)
    ensures forall k :: k in r <==> k in m && (m[k].productId != productId || k in sent)
    ensures forall k :: k in r ==> r[k] == m[k]
  {
    map k | k in m && (m[k].productId != productId || k in sent) :: m[k]
  }

  /** The entries without an id, in order: those that create rows. */
  function NewEntries(es: seq<VariantEntry>): (r: seq<VariantEntry>)
    ensures |r| <= |es|
  {
    if es == [] then []
    else
      var init := NewEntries(es[..|es| - 1]);
      if HasId(es[|es| - 1]) then init else init + [es[|es| - 1]]
  }

  /** The last entry carrying id `k`: the one whose values survive the update loop. */
  function LastWithId(es: seq<VariantEntry>, k: nat): (r: Option<VariantEntry>)
    ensures r.Some? ==> HasId(r.value) && r.value.id.value == k && r.value in es
  {
    if es == [] then None
    else if HasId(es[|es| - 1]) && es[|es| - 1].id.value == k then Some(es[|es| - 1])
    else LastWithId(es[..|es| - 1], k)
  }

  /** One iteration of the update loop: overwrite by id, or create. */
  function ApplyEntry(m: map<nat, VariantRow>, next: nat, productId: nat, e: VariantEntry)
    : (map<nat, VariantRow>, nat)
  {
    if HasId(e) then
      if e.id.value in m then (m[e.id.value := Overwrite(m[e.id.value], e)], next) else (m, next)
    else
      (m[next := NewVariantRow(productId, e)], next + 1)
  }

  /** The update loop over all entries, in order, from table `m` and next free id `next`. */
  function ApplyEntries(m: map<nat, VariantRow>, next: nat, productId: nat, es: seq<VariantEntry>)
    : (map<nat, VariantRow>, nat)
  {
    if es == [] then (m, next)
    else
      var r := ApplyEntries(m, next, productId, es[..|es| - 1]);
      ApplyEntry(r.0, r.1, productId, es[|es| - 1])
  }

  /** The entries the update loop visits: all of them, but only with variants on. */
  function LoopEntries(req: ProductRequest): seq<VariantEntry>
  {
    if VariantsOn(req) then req.variants else []
  }

  /** The variant table and next free id after an update of `productId` with `req`. */
  function Reconcile(m: map<nat, VariantRow>, next: nat, productId: nat, req: ProductRequest)
    : (map<nat, VariantRow>, nat)
  {
    ApplyEntries(Prune(m, productId, SentIds(req.variants)), next, productId, LoopEntries(req))
  }

  /** The loop creates one row per id-less entry, with fresh consecutive ids, and no other key. */
  lemma {:induction false} ApplyEntriesKeys(m: map<nat, VariantRow>, next: nat, productId: nat, es: seq<VariantEntry>)
    requires forall k :: k in m ==> k < next
    ensures ApplyEntries(m, next, productId, es).1 == next + |NewEntries(es)|
    ensures ApplyEntries(m, next, productId, es).0.Keys == m.Keys + IdRange(next, |NewEntries(es)|)
  {
    if es != [] {
      var init := es[..|es| - 1];
      ApplyEntriesKeys(m, next, productId, init);
      var r := ApplyEntries(m, next, productId, init);
      var n := |NewEntries(init)|;
      if !HasId(es[|es| - 1]) {
        assert IdRange(next, n + 1) == IdRange(next, n) + {next + n};
      }
    }
  }

  /** The row created for the `j`-th id-less entry sits at id `next + j`. */
  lemma {:induction false} ApplyEntriesNewRows(m: map<nat, VariantRow>, next: nat, productId: nat, es: seq<VariantEntry>, j: nat)
    requires forall k :: k in m ==> k < next
    requires forall k :: k in SentIds(es) ==> k < next
    requires j < |NewEntries(es)|
    ensures next + j in ApplyEntries(m, next, productId, es).0
    ensures ApplyEntries(m, next, productId, es).0[next + j] == NewVariantRow(productId, NewEntries(es)[j])
  {
    var init := es[..|es| - 1];
    var last := es[|es| - 1];
    assert forall k :: k in SentIds(init) ==> k in SentIds(es) by {
      forall k | k in SentIds(init) ensures k in SentIds(es) {
        var i :| 0 <= i < |init| && HasId(init[i]) && init[i].id.value == k;
        assert es[i] == init[i];
      }
    }
    ApplyEntriesKeys(m, next, productId, init);
    var n := |NewEntries(init)|;
    if j < n {
      ApplyEntriesNewRows(m, next, productId, init, j);
      if HasId(last) {
        assert last.id.value in SentIds(es);
      }
    }
  }

  /**
   * A row present before the loop ends up overwritten by the last entry sent with its id,
   * or unchanged when no entry carries its id.
   */
  lemma {:induction false} ApplyEntriesExisting(m: map<nat, VariantRow>, next: nat, productId: nat, es: seq<VariantEntry>, k: nat)
    requires forall k' :: k' in m ==> k' < next
    requires k in m
    ensures k in ApplyEntries(m, next, productId, es).0
    ensures ApplyEntries(m, next, productId, es).0[k] ==
      match LastWithId(es, k)
      case None => m[k]
      case Some(e) => Overwrite(m[k], e)
  {
    if es != [] {
      var init := es[..|es| - 1];
      ApplyEntriesExisting(m, next, productId, init, k);
      ApplyEntriesKeys(m, next, productId, init);
    }
  }

  /** No entry carries id `k` exactly when `k` was not sent back. */
  lemma {:induction false} LastWithIdNone(es: seq<VariantEntry>, k: nat)
    ensures LastWithId(es, k).None? <==> k !in SentIds(es)
  {
    if es != [] {
      var init := es[..|es| - 1];
      LastWithIdNone(init, k);
      if k in SentIds(init) {
        var i :| 0 <= i < |init| && HasId(init[i]) && init[i].id.value == k;
        assert es[i] == init[i];
      }
      if k in SentIds(es) {
        var i :| 0 <= i < |es| && HasId(es[i]) && es[i].id.value == k;
        if i < |es| - 1 {
          assert init[i] == es[i];
        }
      }
    }
  }

  /** Id-less entries are exactly the creating ones: none means the loop creates nothing. */
  lemma {:induction false} NoNewEntries(es: seq<VariantEntry>)
    requires forall i :: 0 <= i < |es| ==> HasId(es[i])
    ensures NewEntries(es) == []
  {
    if es != [] {
      NoNewEntries(es[..|es| - 1]);
    }
  }

  /** Every id-less entry creates a row: without ids, all entries are new. */
  lemma {:induction false} AllNewEntries(es: seq<VariantEntry>)
    requires forall i :: 0 <= i < |es| ==> !HasId(es[i])
    ensures NewEntries(es) == es
  {
    if es != [] {
      AllNewEntries(es[..|es| - 1]);
    }
  }

  /**
   * Update deletes every variant of the product whose id was not sent back and creates one
   * row per id-less entry; all other rows keep their owner. A variant of the product
   * survives exactly when its id was sent.
   */
  lemma ReconcileOwnership(m: map<nat, VariantRow>, next: nat, productId: nat, req: ProductRequest, k: nat)
    requires forall k' :: k' in m ==> k' < next
    requires forall k' :: k' in SentIds(req.variants) ==> k' in m
    ensures var r := Reconcile(m, next, productId, req);
      && r.1 == next + |NewEntries(LoopEntries(req))|
      && (k in m && m[k].productId != productId ==> k in r.0 && r.0[k].productId == m[k].productId)
      && (k in m && m[k].productId == productId ==> (k in r.0 <==> k in SentIds(req.variants)))
      && (k in r.0 && r.0[k].productId == productId ==>
            (k in m && k in SentIds(req.variants)) || next <= k < r.1)
      && (next <= k < r.1 ==> k in r.0 && r.0[k].productId == productId)
  {
    var es := LoopEntries(req);
    var sent := SentIds(req.variants);
    var pruned := Prune(m, productId, sent);
    ApplyEntriesKeys(pruned, next, productId, es);
    var r := Reconcile(m, next, productId, req);
    if k in pruned {
      ApplyEntriesExisting(pruned, next, productId, es, k);
    }
    if next <= k < r.1 {
      assert SentIds(es) <= sent by {
        forall x | x in SentIds(es) ensures x in sent {
          var i :| 0 <= i < |es| && HasId(es[i]) && es[i].id.value == x;
        }
      }
      ApplyEntriesNewRows(pruned, next, productId, es, k - next);
    }
  }

  /**
   * Reconciling a second time with the same entries, all carrying ids of the product's
   * variants, changes nothing: no row is created or deleted and the values stay.
   */
  lemma ReconcileIdempotent(m: map<nat, VariantRow>, next: nat, productId: nat, req: ProductRequest)
    requires forall k :: k in m ==> k < next
    requires forall i :: 0 <= i < |req.variants| ==> HasId(req.variants[i])
    requires forall k :: k in SentIds(req.variants) ==> k in m && m[k].productId == productId
    ensures var r := Reconcile(m, next, productId, req);
      Reconcile(r.0, r.1, productId, req) == r
  {
    var es := LoopEntries(req);
    var sent := SentIds(req.variants);
    var pruned := Prune(m, productId, sent);
    NoNewEntries(req.variants);
    NoNewEntries([]);
    assert NewEntries(es) == [];
    ApplyEntriesKeys(pruned, next, productId, es);
    var r := ApplyEntries(pruned, next, productId, es);
    assert r.1 == next && r.0.Keys == pruned.Keys;
    var pruned2 := Prune(r.0, productId, sent);
    forall k | k in r.0 ensures k in pruned2 {
      ApplyEntriesExisting(pruned, next, productId, es, k);
    }
    assert pruned2 == r.0;
    ApplyEntriesKeys(pruned2, next, productId, es);
    var r2 := ApplyEntries(pruned2, next, productId, es);
    forall k | k in r.0 ensures r2.0[k] == r.0[k] {
      ApplyEntriesExisting(pruned, next, productId, es, k);
      ApplyEntriesExisting(pruned2, next, productId, es, k);
    }
    assert IdRange(next, 0) == {};
    assert r2.0.Keys == r.0.Keys;
    assert r2.0 == r.0;
  }

  /**
   * The worked example: stored variants 1, 2, 3 of the product, sent back `[{id: 1}, {no id}]`:
   * 2 and 3 are deleted, 1 is overwritten, one row is created, and the product keeps two variants.
   */
  lemma ReconcileExample(m: map<nat, VariantRow>, productId: nat, req: ProductRequest, a: VariantEntry, b: VariantEntry)
    requires m.Keys == {1, 2, 3} && forall k :: k in m ==> m[k].productId == productId
    requires VariantsOn(req) && req.variants == [a, b]
    requires a.id == Some(1) && b.id == None
    ensures Reconcile(m, 4, productId, req).0 == map[1 := Overwrite(m[1], a), 4 := NewVariantRow(productId, b)]
    ensures Reconcile(m, 4, productId, req).1 == 5
  {
    assert SentIds(req.variants) == {1} by {
      assert forall k :: k in SentIds(req.variants) ==> k == 1;
      assert HasId(req.variants[0]);
    }
    var pruned := Prune(m, productId, {1});
    assert pruned == map[1 := m[1]];
    assert [a, b][..1] == [a];
    assert [a][..0] == [];
    assert ApplyEntries(pruned, 4, productId, []) == (pruned, 4);
    assert HasId(a) && 1 in pruned;
    assert pruned[1 := Overwrite(pruned[1], a)] == map[1 := Overwrite(m[1], a)];
    var afterA := ApplyEntries(pruned, 4, productId, [a]);
    assert afterA == (map[1 := Overwrite(m[1], a)], 4);
    assert ApplyEntries(pruned, 4, productId, [a, b]) == ApplyEntry(afterA.0, afterA.1, productId, b);
  }

  /**
   * The overwrite is keyed by variant id alone: an entry carrying the id of another product's
   * variant overwrites that variant's name, prices and attributes, and it stays with its owner.
   */
  lemma ForeignVariantOverwritten(m: map<nat, VariantRow>, next: nat, productId: nat, req: ProductRequest, k: nat)
    requires forall k' :: k' in m ==> k' < next
    requires k in m && m[k].productId != productId
    requires VariantsOn(req) && |req.variants| == 1 && HasId(req.variants[0]) && req.variants[0].id.value == k
    ensures k in Reconcile(m, next, productId, req).0
    ensures Reconcile(m, next, productId, req).0[k] == Overwrite(m[k], req.variants[0])
    ensures Reconcile(m, next, productId, req).0[k].productId == m[k].productId
  {
    var pruned := Prune(m, productId, SentIds(req.variants));
    assert req.variants[..0] == [];
    ApplyEntriesExisting(pruned, next, productId, req.variants, k);
  }

  /** `str_starts_with(…, 'data:image')` behind `!empty(…)`: only a fresh upload replaces the image. */
  predicate IsImageUpload(v: Option<string>)
  {
    v.Some? && v.value != "" && |"data:image"| <= |v.value| && v.value[..|"data:image"|] == "data:image"
  }

  /**
   * Any "data:image…" value is a new upload; a missing or empty value, or an already
   * stored path sent back by the form, leaves the image alone.
   */
  lemma ImageUploadCases(rest: string)
    ensures IsImageUpload(Some("data:image" + rest))
    ensures !IsImageUpload(None) && !IsImageUpload(Some(""))
    ensures !IsImageUpload(Some("products/cake.png"))
  {
    assert ("data:image" + rest)[..|"data:image"|] == "data:image";
    assert "products/cake.png"[..|"data:image"|] != "data:image" by {
      assert "products/cake.png"[0] == 'p';
    }
  }

  // ---------------------------------------------------------------------------
  // The product and variant tables
  // ---------------------------------------------------------------------------

  /** Product ids from 1 below the next auto-increment value; names and slugs unique. */
  ghost predicate ProductTableOk(ps: map<nat, ProductRow>, next: nat)
  {
    && 0 < next
    && (forall id :: id in ps ==> 0 < id < next)
    && (forall a, b :: a in ps && b in ps && a != b ==> ps[a].name != ps[b].name && ps[a].slug != ps[b].slug)
  }

  /** Variant ids from 1 below the next auto-increment value; every row owned by an existing product. */
  ghost predicate VariantTableOk(vs: map<nat, VariantRow>, next: nat, owners: set<nat>)
  {
    && 0 < next
    && (forall id :: id in vs ==> 0 < id < next && vs[id].productId in owners)
  }

  /** Inserting a product under the next id with a fresh name and slug keeps the table sound. */
  lemma ProductInsertKeepsTable(ps: map<nat, ProductRow>, next: nat, row: ProductRow)
    requires ProductTableOk(ps, next)
    requires forall id :: id in ps ==> ps[id].name != row.name && ps[id].slug != row.slug
    ensures ProductTableOk(ps[next := row], next + 1)
  {
  }

  /** Replacing a product with a row whose name and slug no other product uses keeps the table sound. */
  lemma ProductReplaceKeepsTable(ps: map<nat, ProductRow>, next: nat, id: nat, row: ProductRow)
    requires ProductTableOk(ps, next) && id in ps
    requires forall other :: other in ps && other != id ==> ps[other].name != row.name && ps[other].slug != row.slug
    ensures ProductTableOk(ps[id := row], next)
  {
  }

  /** Adding the rows created for a new product keeps the variant table sound. */
  lemma CreatedRowsKeepTable(m: map<nat, VariantRow>, next: nat, productId: nat, es: seq<VariantEntry>,
                             oldOwners: set<nat>, owners: set<nat>)
    requires VariantTableOk(m, next, oldOwners) && oldOwners <= owners && productId in owners
    ensures VariantTableOk(m + CreatedRows(productId, es, next), next + |es|, owners)
  {
    CreatedRowsExactlyOnePerEntry(productId, es, next);
  }

  lemma {:induction false} ApplyEntriesKeepsTable(m: map<nat, VariantRow>, next: nat, productId: nat,
                                                  es: seq<VariantEntry>, owners: set<nat>)
    requires VariantTableOk(m, next, owners) && productId in owners
    ensures VariantTableOk(ApplyEntries(m, next, productId, es).0, ApplyEntries(m, next, productId, es).1, owners)
    ensures ApplyEntries(m, next, productId, es).1 >= next
  {
    if es != [] {
      ApplyEntriesKeepsTable(m, next, productId, es[..|es| - 1], owners);
    }
  }

  class Store {
    var products: map<nat, ProductRow>
    var variants: map<nat, VariantRow>
    var nextProductId: nat
    var nextVariantId: nat

    /** `Str::slug`. */
    const slugOf: string -> string
    /** `dataUriToImage(…, "products")`: the stored path for a submitted image. */
    const saveImage: Option<string> -> Option<string>

    /** Auto-increment ids from 1, the variant foreign key, unique names and slugs. */
    ghost predicate Valid()
      reads this
    {
      ProductTableOk(products, nextProductId) && VariantTableOk(variants, nextVariantId, products.Keys)
    }

    constructor (slugOf: string -> string, saveImage: Option<string> -> Option<string>)
      ensures Valid()
      ensures products == map[] && variants == map[]
      ensures this.slugOf == slugOf && this.saveImage == saveImage
    {
      products, variants := map[], map[];
      nextProductId, nextVariantId := 1, 1;
      this.slugOf, this.saveImage := slugOf, saveImage;
    }

    /** No product other than `except` uses the name (the `unique:products,name` rule). */
    predicate NameFree(name: string, except: Option<nat>)
      reads this
    {
      forall id :: id in products && Some(id) != except ==> products[id].name != name
    }

    /** No product other than `except` uses the slug (the unique index on `slug`). */
    predicate SlugFree(slug: string, except: Option<nat>)
      reads this
    {
      forall id :: id in products && Some(id) != except ==> products[id].slug != slug
    }

    /** The row `Product::create` inserts. */
    function CreatedProduct(req: ProductRequest): (row: ProductRow)
      requires VariantsOn(req) ==> |req.variants| > 0
      requires !TradePriceMissing(req)
      ensures row.slug == slugOf(req.name)
      ensures row.hasVariants == req.hasVariants.GetOr(false)
      ensures row.regularPrice == DerivePrices(req).regular && row.tradePrice == DerivePrices(req).trade.value
      ensures row.mainImage == saveImage(req.mainImage)
    {
      var p := DerivePrices(req);
      ProductRow(req.name, slugOf(req.name), req.categoryId, req.gstRate, p.regular, p.trade.value,
                 saveImage(req.mainImage), req.description, req.hasVariants.GetOr(false))
    }

    /** The row after `$product->update($data)`. */
    function UpdatedProduct(row: ProductRow, req: ProductRequest): (r: ProductRow)
      requires VariantsOn(req) ==> |req.variants| > 0
      requires !TradePriceMissing(req)
      ensures r.slug == slugOf(req.name)
      ensures r.hasVariants == req.hasVariants.GetOr(false)
      ensures r.regularPrice == DerivePrices(req).regular && r.tradePrice == DerivePrices(req).trade.value
      ensures r.mainImage == if IsImageUpload(req.mainImage) then saveImage(req.mainImage) else row.mainImage
    {
      var p := DerivePrices(req);
      ProductRow(req.name, slugOf(req.name), req.categoryId, req.gstRate, p.regular, p.trade.value,
                 if IsImageUpload(req.mainImage) then saveImage(req.mainImage) else row.mainImage,
                 req.description, req.hasVariants.GetOr(false))
    }

    /**
     * POST /admin/product. Validation checks only that the name is unused; two names
     * with the same slug pass it, and the insert then fails on the unique `slug` index,
     * leaving the store as it was. It fails the same way when, without variants, no
     * trade price was sent.
     */
    method StoreProduct(req: ProductRequest) returns (status: Status, id: Option<nat>)
      requires Valid() && ValidRequest(req)
      requires NameFree(req.name, None)
      modifies this
      ensures Valid()
      ensures status == Created201 || status == ServerError500
      ensures status == ServerError500 <==> !old(SlugFree(slugOf(req.name), None)) || TradePriceMissing(req)
      ensures status == ServerError500 ==>
        id == None && products == old(products) && variants == old(variants) &&
        nextProductId == old(nextProductId) && nextVariantId == old(nextVariantId)
      ensures status == Created201 ==>
        id == Some(old(nextProductId)) && old(nextProductId) !in old(products) &&
        products == old(products)[id.value := CreatedProduct(req)] &&
        variants == old(variants) + CreatedRows(id.value, LoopEntries(req), old(nextVariantId)) &&
        nextVariantId == old(nextVariantId) + |LoopEntries(req)| &&
        nextProductId == old(nextProductId) + 1
    {
      if !SlugFree(slugOf(req.name), None) || TradePriceMissing(req) {
        return ServerError500, None;
      }
      var newId := nextProductId;
      var row := CreatedProduct(req);
      ProductInsertKeepsTable(products, nextProductId, row);
      products := products[newId := row];
      nextProductId := nextProductId + 1;
      if VariantsOn(req) {
        CreateVariants(newId, req.variants);
      } else {
        assert variants + CreatedRows(newId, [], nextVariantId) == variants;
      }
      status, id := Created201, Some(newId);
    }

    /** The `foreach` of `store`: one `ProductVariant::create` per entry, in order. */
    method CreateVariants(productId: nat, es: seq<VariantEntry>)
      requires productId in products
      requires VariantTableOk(variants, nextVariantId, products.Keys)
      modifies this`variants, this`nextVariantId
      ensures VariantTableOk(variants, nextVariantId, products.Keys)
      ensures variants == old(variants) + CreatedRows(productId, es, old(nextVariantId))
      ensures nextVariantId == old(nextVariantId) + |es|
    {
      ghost var before, start := variants, nextVariantId;
      var i := 0;
      while i < |es|
        invariant 0 <= i <= |es|
        invariant nextVariantId == start + i
        invariant variants == before + CreatedRows(productId, es[..i], start)
      {
        CreatedRowsStep(before, productId, es, i, start);
        ghost var after := before + CreatedRows(productId, es[..i + 1], start);
        assert variants[start + i := NewVariantRow(productId, es[i])] == after;
        variants := variants[nextVariantId := NewVariantRow(productId, es[i])];
        nextVariantId := nextVariantId + 1;
        i := i + 1;
      }
      assert es[..i] == es;
      CreatedRowsKeepTable(before, start, productId, es, products.Keys, products.Keys);
    }

    /**
     * PUT /admin/product/{slug}: the product row, then the variant delete / overwrite / create.
     * A new name whose slug another product already has passes validation, and the row
     * update then fails on the unique `slug` index before any variant is touched; so does
     * a request without variants and without a trade price (the NOT NULL column).
     */
    method UpdateProduct(productId: nat, req: ProductRequest) returns (status: Status)
      requires Valid() && productId in products && ValidRequest(req)
      requires NameFree(req.name, Some(productId))
      modifies this
      ensures Valid()
      ensures status == Ok200 || status == ServerError500
      ensures status == ServerError500 <==> !old(SlugFree(slugOf(req.name), Some(productId))) || TradePriceMissing(req)
      ensures status == ServerError500 ==>
        products == old(products) && variants == old(variants) &&
        nextProductId == old(nextProductId) && nextVariantId == old(nextVariantId)
      ensures status == Ok200 ==>
        products == old(products)[productId := UpdatedProduct(old(products[productId]), req)] &&
        nextProductId == old(nextProductId) &&
        (variants, nextVariantId) == Reconcile(old(variants), old(nextVariantId), productId, req)
    {
      if !SlugFree(slugOf(req.name), Some(productId)) || TradePriceMissing(req) {
        return ServerError500;
      }
      var row := UpdatedProduct(products[productId], req);
      ProductReplaceKeepsTable(products, nextProductId, productId, row);
      products := products[productId := row];
      ReconcileVariants(productId, req);
      status := Ok200;
    }

    /** The variant part of `update`: the `whereIn(...)->delete()` and then the `foreach`. */
    method ReconcileVariants(productId: nat, req: ProductRequest)
      requires productId in products
      requires VariantTableOk(variants, nextVariantId, products.Keys)
      modifies this`variants, this`nextVariantId
      ensures VariantTableOk(variants, nextVariantId, products.Keys)
      ensures (variants, nextVariantId) == Reconcile(old(variants), old(nextVariantId), productId, req)
    {
      variants := Prune(variants, productId, SentIds(req.variants));
      ghost var pruned, start := variants, nextVariantId;
      if VariantsOn(req) {
        var i := 0;
        while i < |req.variants|
          invariant 0 <= i <= |req.variants|
          invariant (variants, nextVariantId) == ApplyEntries(pruned, start, productId, req.variants[..i])
        {
          var e := req.variants[i];
          if HasId(e) {
            if e.id.value in variants {
              variants := variants[e.id.value := Overwrite(variants[e.id.value], e)];
            }
          } else {
            variants := variants[nextVariantId := NewVariantRow(productId, e)];
            nextVariantId := nextVariantId + 1;
          }
          assert req.variants[..i + 1][..i] == req.variants[..i];
          i := i + 1;
        }
        assert req.variants[..i] == req.variants;
      }
      ApplyEntriesKeepsTable(pruned, start, productId, LoopEntries(req), products.Keys);
    }
  }
}
