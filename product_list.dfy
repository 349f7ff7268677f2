/**
 * The products screen of the admin dashboard: the page of products it lists, the price
 * column, deletion from the list and the add/edit modal state.
 */
module ProductList {
  import opened Wrappers
  import Seqs
  import Catalog

  /** A product as the listing API returns it: its row, its id and its variants. */
  datatype ListedProduct = ListedProduct(id: nat, row: Catalog.ProductRow, variants: seq<Catalog.VariantRow>)

  /** The paginated listing held by the screen: the rows shown and the paginator's counters. */
  datatype ProductPage = ProductPage(data: seq<ListedProduct>, total: int, to: int)

  /** The price column: a range over the variants' trade prices, or the product's own trade price. */
  datatype PriceLabel = Range(low: Catalog.Paise, high: Catalog.Paise) | Single(price: Catalog.Paise)

  function VariantTradePrices(vs: seq<Catalog.VariantRow>): (r: seq<Catalog.Paise>)
    ensures |r| == |vs|
    ensures forall i :: 0 <= i < |vs| ==> r[i] == vs[i].tradePrice
  {
    Seqs.Map(vs, (v: Catalog.VariantRow) => v.tradePrice)
  }

  /**
   * A product with variants shows the least and the greatest variant trade price; one without
   * shows its own trade price.
   */
  function PriceLabelOf(p: ListedProduct): (l: PriceLabel)
    ensures |p.variants| == 0 <==> l.Single?
    ensures l.Single? ==> l.price == p.row.tradePrice
    ensures l.Range? ==>
      && l.low <= l.high
      && (exists i :: 0 <= i < |p.variants| && p.variants[i].tradePrice == l.low)
      && (exists i :: 0 <= i < |p.variants| && p.variants[i].tradePrice == l.high)
      && (forall i :: 0 <= i < |p.variants| ==> l.low <= p.variants[i].tradePrice <= l.high)
  {
    if |p.variants| > 0 then
      var prices := VariantTradePrices(p.variants);
      assert forall i :: 0 <= i < |p.variants| ==> prices[i] in prices;
      Range(Seqs.Min(prices), Seqs.Max(prices))
    else
      Single(p.row.tradePrice)
  }

  /** A single-variant product shows a degenerate range: both ends are that variant's price. */
  lemma SingleVariantRange(p: ListedProduct)
    requires |p.variants| == 1
    ensures PriceLabelOf(p) == Range(p.variants[0].tradePrice, p.variants[0].tradePrice)
  {
    var l := PriceLabelOf(p);
    assert l.low == p.variants[0].tradePrice;
    assert l.high == p.variants[0].tradePrice;
  }

  /**
   * `handleDelete`: after the confirm and a successful API call, the products with that slug
   * leave the list and the others keep their order; otherwise the page is unchanged.
   */
  function AfterDelete(page: ProductPage, slug: string, confirmed: bool, succeeded: bool): (r: ProductPage)
    ensures !confirmed || !succeeded ==> r == page
    ensures r.total == page.total && r.to == page.to
    ensures confirmed && succeeded ==>
      && (forall i :: 0 <= i < |r.data| ==> r.data[i].row.slug != slug)
      && (forall p :: multiset(r.data)[p] == if p.row.slug != slug then multiset(page.data)[p] else 0)
      && Seqs.IsSubsequence(r.data, page.data)
  {
    if confirmed && succeeded then
      var keep := (p: ListedProduct) => p.row.slug != slug;
      var kept := Seqs.Filter(page.data, keep);
      Seqs.FilterIsSubsequence(page.data, keep);
      Seqs.FilterMultiset(page.data, keep);
      page.(data := kept)
    else
      page
  }

  /** Deleting a slug that is not listed leaves the page as it was. */
  lemma DeleteAbsentSlug(page: ProductPage, slug: string, confirmed: bool, succeeded: bool)
    requires forall i :: 0 <= i < |page.data| ==> page.data[i].row.slug != slug
    ensures AfterDelete(page, slug, confirmed, succeeded) == page
  {
    Seqs.FilterAll(page.data, (p: ListedProduct) => p.row.slug != slug);
  }

  /** Whether the add/edit modal is open, and the product being edited (none when adding). */
  datatype ModalState = ModalState(open: bool, editing: Option<ListedProduct>)

  /** `handleOpenModal`: opens the modal, editing the given product or none. */
  function OpenModal(product: Option<ListedProduct>): ModalState
  {
    ModalState(true, product)
  }

  /** `handleCloseModal`: closes the modal and forgets the edited product. */
  function CloseModal(): ModalState
  {
    ModalState(false, None)
  }
}
