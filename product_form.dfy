/**
 * The add/edit product form of the admin dashboard: the variant editor, the request body
 * built on submit, and the listing update after a save. Prices entered in the form are
 * `None` when the box holds no number (what `parseFloat` turns into NaN).
 */
module ProductForm {
  import opened Wrappers
  import Seqs
  import Catalog
  import ProductList

  /** A variant row of the editor; `id` is a client-side UUID, or the server id when editing. */
  datatype FormVariant = FormVariant(
    id: string,
    name: string,
    regularPrice: Option<Catalog.Paise>,
    tradePrice: Option<Catalog.Paise>,
    stock: Option<int>)

  /** A field of a variant row and the value typed into it. */
  datatype VariantField =
    | NameField(name: string)
    | RegularPriceField(regularPrice: Option<Catalog.Paise>)
    | TradePriceField(tradePrice: Option<Catalog.Paise>)
    | StockField(stock: Option<int>)

  /** The form fields the submit reads. */
  datatype FormState = FormState(
    name: string,
    regularPrice: Option<Catalog.Paise>,
    tradePrice: Option<Catalog.Paise>,
    gstRate: int,
    mainImage: Option<string>,
    description: string,
    categoryId: Option<nat>,
    variants: seq<FormVariant>)

  /** `addVariant`: one blank row with a fresh id, at the end. */
  function AddVariant(vs: seq<FormVariant>, freshId: string): (r: seq<FormVariant>)
    ensures |r| == |vs| + 1
    ensures forall i :: 0 <= i < |vs| ==> r[i] == vs[i]
    ensures r[|vs|] == FormVariant(freshId, "", Some(0), Some(0), Some(0))
  {
    vs + [FormVariant(freshId, "", Some(0), Some(0), Some(0))]
  }

  /** `removeVariant`: the rows with that id go, the others stay in order. */
  function RemoveVariant(vs: seq<FormVariant>, id: string): (r: seq<FormVariant>)
    ensures forall i :: 0 <= i < |r| ==> r[i].id != id
    ensures forall v :: multiset(r)[v] == if v.id != id then multiset(vs)[v] else 0
    ensures Seqs.IsSubsequence(r, vs)
  {
    var keep := (v: FormVariant) => v.id != id;
    var kept := Seqs.Filter(vs, keep);
    Seqs.FilterIsSubsequence(vs, keep);
    Seqs.FilterMultiset(vs, keep);
    kept
  }

  /** A row with one field set to a new value. */
  function SetField(v: FormVariant, f: VariantField): FormVariant
  {
    match f
    case NameField(n) => v.(name := n)
    case RegularPriceField(p) => v.(regularPrice := p)
    case TradePriceField(p) => v.(tradePrice := p)
    case StockField(s) => v.(stock := s)
  }

  /** Setting a field changes that field only: the id and every other field are as before. */
  lemma SetFieldOnlyThatField(v: FormVariant, f: VariantField)
    ensures SetField(v, f).id == v.id
    ensures f.NameField? ==> SetField(v, f) == v.(name := f.name)
    ensures !f.NameField? ==> SetField(v, f).name == v.name
    ensures !f.RegularPriceField? ==> SetField(v, f).regularPrice == v.regularPrice
    ensures !f.TradePriceField? ==> SetField(v, f).tradePrice == v.tradePrice
    ensures !f.StockField? ==> SetField(v, f).stock == v.stock
  {
  }

  /** `updateVariant`: the rows with that id get the field set; all other rows are unchanged. */
  function UpdateVariant(vs: seq<FormVariant>, id: string, f: VariantField): (r: seq<FormVariant>)
    ensures |r| == |vs|
    ensures forall i :: 0 <= i < |vs| && vs[i].id != id ==> r[i] == vs[i]
    ensures forall i :: 0 <= i < |vs| && vs[i].id == id ==> r[i] == SetField(vs[i], f)
  {
    Seqs.Map(vs, (v: FormVariant) => if v.id == id then SetField(v, f) else v)
  }

  /** Editing a row never changes any id, so a later remove by id takes out the same rows. */
  lemma {:induction false} RemoveAfterUpdate(vs: seq<FormVariant>, id: string, f: VariantField)
    ensures RemoveVariant(UpdateVariant(vs, id, f), id) == RemoveVariant(vs, id)
  {
    if vs != [] {
      var u := UpdateVariant(vs, id, f);
      RemoveAfterUpdate(vs[1..], id, f);
      assert u[1..] == UpdateVariant(vs[1..], id, f);
      assert u[0].id == vs[0].id;
      assert vs[0].id != id ==> u[0] == vs[0];
    }
  }

  /** JavaScript falsiness of a price box: no number, or zero. */
  predicate FalsyPrice(p: Option<Catalog.Paise>)
  {
    p.None? || p.value == 0
  }

  /** One entry of the `variants` array: a falsy regular price becomes null, a missing trade price 0, and no id is sent. */
  function VariantPayload(v: FormVariant): (e: Catalog.VariantEntry)
    ensures e.id.None? && e.name == v.name && e.attributes.None?
    ensures e.regularPrice.None? <==> FalsyPrice(v.regularPrice)
    ensures e.regularPrice.Some? ==> e.regularPrice == v.regularPrice
    ensures v.tradePrice.Some? ==> e.tradePrice == v.tradePrice.value
    ensures v.tradePrice.None? ==> e.tradePrice == 0
  {
    Catalog.VariantEntry(
      None,
      v.name,
      if FalsyPrice(v.regularPrice) then None else v.regularPrice,
      v.tradePrice.GetOr(0),
      None)
  }

  /** What a submit does: abort before any call, or send a request body. */
  datatype Submission = Abort | Send(req: Catalog.ProductRequest)

  /** `handleSubmit`'s payload construction. */
  function BuildPayload(form: FormState, hasVariants: bool): (s: Submission)
    ensures s.Abort? <==> hasVariants && |form.variants| == 0
    ensures s.Send? ==> s.req.hasVariants == Some(hasVariants) && s.req.name == form.name && s.req.gstRate == form.gstRate
    ensures s.Send? && hasVariants ==> s.req.regularPrice.None? && s.req.tradePrice.None?
    ensures s.Send? && !hasVariants ==>
      s.req.regularPrice == Some(form.regularPrice.GetOr(0)) && s.req.tradePrice == Some(form.tradePrice.GetOr(0))
    ensures s.Send? && !hasVariants ==> s.req.variants == []
    ensures s.Send? ==> !Catalog.TradePriceMissing(s.req)
    ensures s.Send? && hasVariants ==>
      |s.req.variants| == |form.variants| &&
      forall i :: 0 <= i < |form.variants| ==> s.req.variants[i] == VariantPayload(form.variants[i])
    ensures s.Send? ==> (s.req.mainImage.None? <==> form.mainImage.None? || form.mainImage.value == "")
    ensures s.Send? ==> (s.req.description.None? <==> form.description == "")
    ensures s.Send? ==> (s.req.categoryId.None? <==> form.categoryId.None? || form.categoryId.value == 0)
  {
    if hasVariants && |form.variants| == 0 then Abort
    else
      Send(Catalog.ProductRequest(
        form.name,
        if hasVariants then None else Some(form.regularPrice.GetOr(0)),
        if hasVariants then None else Some(form.tradePrice.GetOr(0)),
        Some(hasVariants),
        if form.mainImage.None? || form.mainImage.value == "" then None else form.mainImage,
        if form.description == "" then None else Some(form.description),
        form.gstRate,
        if form.categoryId.None? || form.categoryId.value == 0 then None else form.categoryId,
        if hasVariants then Seqs.Map(form.variants, VariantPayload) else []))
  }

  /** The form never sends a variant id. */
  lemma PayloadSendsNoIds(form: FormState, hasVariants: bool)
    requires BuildPayload(form, hasVariants).Send?
    ensures Catalog.SentIds(BuildPayload(form, hasVariants).req.variants) == {}
    ensures Catalog.NewEntries(Catalog.LoopEntries(BuildPayload(form, hasVariants).req)) ==
            Catalog.LoopEntries(BuildPayload(form, hasVariants).req)
  {
    var req := BuildPayload(form, hasVariants).req;
    assert forall i :: 0 <= i < |req.variants| ==> !Catalog.HasId(req.variants[i]);
    Catalog.AllNewEntries(Catalog.LoopEntries(req));
  }

  /**
   * An edit through this form deletes every stored variant of the product and creates one
   * new row per submitted entry, at the next consecutive ids; rows of other products are left
   * as they were.
   */
  lemma FormEditRecreatesVariants(m: map<nat, Catalog.VariantRow>, next: nat, productId: nat,
                                  form: FormState, hasVariants: bool, k: nat)
    requires forall k' :: k' in m ==> k' < next
    requires BuildPayload(form, hasVariants).Send?
    ensures var req := BuildPayload(form, hasVariants).req;
      var r := Catalog.Reconcile(m, next, productId, req);
      var n := if hasVariants then |form.variants| else 0;
      && r.1 == next + n
      && (k in m && m[k].productId == productId ==> k !in r.0)
      && (k in m && m[k].productId != productId ==> k in r.0 && r.0[k] == m[k])
      && (k in r.0 && r.0[k].productId == productId ==> next <= k < r.1)
      && (k < n ==>
            next + k in r.0 && r.0[next + k] == Catalog.NewVariantRow(productId, VariantPayload(form.variants[k])))
  {
    var req := BuildPayload(form, hasVariants).req;
    PayloadSendsNoIds(form, hasVariants);
    Catalog.ReconcileOwnership(m, next, productId, req, k);
    var es := Catalog.LoopEntries(req);
    var pruned := Catalog.Prune(m, productId, Catalog.SentIds(req.variants));
    var n := if hasVariants then |form.variants| else 0;
    assert |es| == n;
    if k in m && m[k].productId != productId {
      Catalog.ApplyEntriesExisting(pruned, next, productId, es, k);
      Catalog.LastWithIdNone(es, k);
      assert Catalog.SentIds(es) == {};
    }
    if k < n {
      Catalog.ApplyEntriesNewRows(pruned, next, productId, es, k);
    }
  }

  /** After a successful create, the saved product is listed first and both counters go up by one. */
  function AfterCreate(page: ProductList.ProductPage, saved: ProductList.ListedProduct): (r: ProductList.ProductPage)
    ensures |r.data| == |page.data| + 1 && r.data[0] == saved && r.data[1..] == page.data
    ensures r.total == page.total + 1 && r.to == page.to + 1
  {
    ProductList.ProductPage([saved] + page.data, page.total + 1, page.to + 1)
  }

  /** After a successful update, the entries with the saved product's id are replaced by it; nothing else changes. */
  function AfterUpdate(page: ProductList.ProductPage, saved: ProductList.ListedProduct): (r: ProductList.ProductPage)
    ensures |r.data| == |page.data| && r.total == page.total && r.to == page.to
    ensures forall i :: 0 <= i < |page.data| && page.data[i].id == saved.id ==> r.data[i] == saved
    ensures forall i :: 0 <= i < |page.data| && page.data[i].id != saved.id ==> r.data[i] == page.data[i]
  {
    page.(data := Seqs.Map(page.data, (p: ProductList.ListedProduct) => if p.id == saved.id then saved else p))
  }

  /**
   * The end of `handleSubmit`: with a product being edited the answer replaces it in the
   * listing, otherwise the answer is listed as new; a saved answer then closes the modal.
   * A failed call (`saved` is none) leaves both the listing and the modal as they were.
   */
  function SaveFromModal(page: ProductList.ProductPage, modal: ProductList.ModalState,
                         saved: Option<ProductList.ListedProduct>): (r: (ProductList.ProductPage, ProductList.ModalState))
    ensures saved.None? ==> r == (page, modal)
    ensures saved.Some? ==> r.1 == ProductList.CloseModal()
    ensures saved.Some? && modal.editing.Some? ==> r.0 == AfterUpdate(page, saved.value)
    ensures saved.Some? && modal.editing.None? ==> r.0 == AfterCreate(page, saved.value)
  {
    match saved
    case None => (page, modal)
    case Some(p) =>
      var listed := if modal.editing.Some? then AfterUpdate(page, p) else AfterCreate(page, p);
      (listed, ProductList.CloseModal())
  }

  /**
   * How the modal is opened decides what a save does: opened from "add" (no product) a
   * save lists one more product, first; opened on a product a save replaces the entries
   * with the answer's id in place. Either way the modal then closes and forgets the
   * product, and a failed save keeps it open on the same product.
   */
  lemma ModalDecidesSave(page: ProductList.ProductPage, product: Option<ProductList.ListedProduct>,
                         saved: ProductList.ListedProduct)
    ensures var r := SaveFromModal(page, ProductList.OpenModal(product), Some(saved));
      && !r.1.open && r.1.editing.None?
      && (product.None? ==> |r.0.data| == |page.data| + 1 && r.0.data[0] == saved && r.0.data[1..] == page.data)
      && (product.Some? ==> |r.0.data| == |page.data|)
      && (product.Some? ==>
            forall i :: 0 <= i < |page.data| ==> r.0.data[i] == if page.data[i].id == saved.id then saved else page.data[i])
    ensures var f := SaveFromModal(page, ProductList.OpenModal(product), None);
      f.0 == page && f.1.open && f.1.editing == product
  {
  }

  /** Saving the same product twice lists it as saving it once. */
  lemma AfterUpdateIdempotent(page: ProductList.ProductPage, saved: ProductList.ListedProduct)
    ensures AfterUpdate(AfterUpdate(page, saved), saved) == AfterUpdate(page, saved)
  {
    var once := AfterUpdate(page, saved);
    var twice := AfterUpdate(once, saved);
    assert forall i :: 0 <= i < |once.data| ==> (once.data[i].id == saved.id <==> page.data[i].id == saved.id);
    assert twice.data == once.data;
  }
}
