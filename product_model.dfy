/**
 * The computed attributes of a product: the caller's quantity in the cart, whether it is on
 * the caller's wishlist, the public URL of its main image, and the slug as its route key.
 */
module ProductModel {
  import opened Wrappers
  import CartApi
  import WishlistApi
  import Catalog

  /** The cart rows that count towards a product's quantity for a user: any variant, or none. */
  function ProductLine(userId: nat, productId: nat): CartApi.CartRow -> bool
  {
    (r: CartApi.CartRow) => r.userId == userId && r.productId == productId
  }

  /** `cart_qty`: 0 for a guest, otherwise the summed quantity of the caller's rows for the product. */
  function CartQty(rows: seq<CartApi.CartRow>, auth: Option<nat>, productId: nat): (q: int)
    ensures auth.None? ==> q == 0
  {
    match auth
    case None => 0
    case Some(userId) => CartApi.SumQty(rows, ProductLine(userId, productId))
  }

  /** With a well-formed cart, `cart_qty` is never negative and is positive exactly when the caller has a row for the product. */
  lemma CartQtyMeansInCart(rows: seq<CartApi.CartRow>, nextId: nat, userId: nat, productId: nat)
    requires CartApi.TableOk(rows, nextId)
    ensures CartQty(rows, Some(userId), productId) >= 0
    ensures CartQty(rows, Some(userId), productId) > 0 <==>
      exists i :: 0 <= i < |rows| && rows[i].userId == userId && rows[i].productId == productId
  {
    var keep := ProductLine(userId, productId);
    CartApi.SumQtyPositive(rows, keep);
    assert forall i :: 0 <= i < |rows| ==> (keep(rows[i]) <==> rows[i].userId == userId && rows[i].productId == productId);
  }

  /** A cart store of `qty` by the caller for the product, with any variant or none, raises `cart_qty` by exactly `qty`. */
  lemma CartQtyAfterStore(rows: seq<CartApi.CartRow>, nextId: nat, userId: nat, productId: nat, variantId: Option<nat>, qty: int)
    ensures CartQty(CartApi.AfterStore(rows, nextId, userId, productId, variantId, qty).rows, Some(userId), productId) ==
            CartQty(rows, Some(userId), productId) + qty
  {
    CartApi.StoreRaisesSum(rows, nextId, userId, productId, variantId, qty, ProductLine(userId, productId));
  }

  /** A cart store by another user, or for another product, leaves `cart_qty` as it was. */
  lemma CartQtyUntouchedByOthers(rows: seq<CartApi.CartRow>, nextId: nat, userId: nat, productId: nat,
                                 storer: nat, storedProduct: nat, variantId: Option<nat>, qty: int)
    requires storer != userId || storedProduct != productId
    ensures CartQty(CartApi.AfterStore(rows, nextId, storer, storedProduct, variantId, qty).rows, Some(userId), productId) ==
            CartQty(rows, Some(userId), productId)
  {
    CartApi.StoreKeepsSum(rows, nextId, storer, storedProduct, variantId, qty, ProductLine(userId, productId));
  }

  /** `in_wishlist`: false for a guest, otherwise whether the caller has an entry for the product. */
  function InWishlist(rows: seq<WishlistApi.WishRow>, auth: Option<nat>, productId: nat): (b: bool)
    ensures b <==> auth.Some? && exists i :: 0 <= i < |rows| && WishlistApi.IsEntry(rows[i], auth.value, productId)
  {
    match auth
    case None => false
    case Some(userId) => WishlistApi.FindEntry(rows, userId, productId).Some?
  }

  /** After the caller adds a product to the wishlist, `in_wishlist` is true for them. */
  lemma InWishlistAfterAdd(rows: seq<WishlistApi.WishRow>, nextId: nat, userId: nat, productId: nat)
    ensures InWishlist(WishlistApi.AfterAdd(rows, nextId, userId, productId).rows, Some(userId), productId)
  {
    var a := WishlistApi.AfterAdd(rows, nextId, userId, productId);
    match WishlistApi.FindEntry(rows, userId, productId)
    case Some(i) =>
      assert WishlistApi.IsEntry(a.rows[i], userId, productId);
    case None =>
      assert WishlistApi.IsEntry(a.rows[|rows|], userId, productId);
  }

  /** After the owner deletes their entry for a product, `in_wishlist` is false again (one entry per pair). */
  lemma InWishlistAfterRemove(rows: seq<WishlistApi.WishRow>, nextId: nat, i: nat)
    requires WishlistApi.TableOk(rows, nextId) && i < |rows|
    ensures !InWishlist(rows[..i] + rows[i + 1..], Some(rows[i].userId), rows[i].productId)
  {
    var rest := rows[..i] + rows[i + 1..];
    forall j | 0 <= j < |rest|
      ensures !WishlistApi.IsEntry(rest[j], rows[i].userId, rows[i].productId)
    {
      if j < i { assert rest[j] == rows[j]; } else { assert rest[j] == rows[j + 1]; }
    }
  }

  /**
   * The `main_image` accessor: a stored path that PHP treats as true (not null, not empty, not
   * "0") becomes the public URL under `storage/` of the asset root; anything else is null.
   */
  function MainImageUrl(assetRoot: string, image: Option<string>): (url: Option<string>)
    ensures url.None? <==> image.None? || image.value == "" || image.value == "0"
    ensures url.Some? ==> |url.value| > |assetRoot + "storage/"| && url.value[..|assetRoot + "storage/"|] == assetRoot + "storage/"
  {
    if image.None? || image.value == "" || image.value == "0" then None
    else Some(assetRoot + "storage/" + image.value)
  }

  /** The stored path is what follows the storage prefix of the URL. */
  function StoredPath(assetRoot: string, url: string): string
    requires |url| >= |assetRoot + "storage/"|
  {
    url[|assetRoot + "storage/"|..]
  }

  /** The URL gives the stored path back: the accessor loses nothing. */
  lemma MainImageUrlRoundTrip(assetRoot: string, image: string)
    requires image != "" && image != "0"
    ensures MainImageUrl(assetRoot, Some(image)).Some?
    ensures StoredPath(assetRoot, MainImageUrl(assetRoot, Some(image)).value) == image
  {
    var prefix := assetRoot + "storage/";
    assert assetRoot + "storage/" + image == prefix + image;
    assert (prefix + image)[|prefix|..] == image;
  }

  /** `getRouteKeyName`: product routes bind by slug. */
  function RouteKey(p: Catalog.ProductRow): string
  {
    p.slug
  }

  /** Route model binding: the product whose slug is `slug`, if any. */
  ghost function BindSlug(products: map<nat, Catalog.ProductRow>, slug: string): (r: Option<nat>)
    ensures r.Some? ==> r.value in products && RouteKey(products[r.value]) == slug
    ensures r.None? ==> forall k :: k in products ==> RouteKey(products[k]) != slug
  {
    if exists k :: k in products && RouteKey(products[k]) == slug then
      var k :| k in products && RouteKey(products[k]) == slug; Some(k)
    else None
  }

  /** Slugs are unique in a well-formed product table, so every product's slug binds back to that product. */
  lemma SlugBindsBack(products: map<nat, Catalog.ProductRow>, next: nat, id: nat)
    requires Catalog.ProductTableOk(products, next) && id in products
    ensures BindSlug(products, RouteKey(products[id])) == Some(id)
  {
  }
}
