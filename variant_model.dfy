/** The computed `cart_qty` of a product variant: the caller's quantity of that variant in the cart. */
module VariantModel {
  import opened Wrappers
  import CartApi

  /** The cart rows that count towards a variant's quantity for a user. */
  function VariantLine(userId: nat, variantId: nat): CartApi.CartRow -> bool
  {
    (r: CartApi.CartRow) => r.userId == userId && r.variantId == Some(variantId)
  }

  /** `cart_qty`: 0 for a guest, otherwise the summed quantity of the caller's rows for the variant. */
  function CartQty(rows: seq<CartApi.CartRow>, auth: Option<nat>, variantId: nat): (q: int)
    ensures auth.None? ==> q == 0
  {
    match auth
    case None => 0
    case Some(userId) => CartApi.SumQty(rows, VariantLine(userId, variantId))
  }

  /** With a well-formed cart, the variant's `cart_qty` is positive exactly when the caller has a row for it. */
  lemma CartQtyMeansInCart(rows: seq<CartApi.CartRow>, nextId: nat, userId: nat, variantId: nat)
    requires CartApi.TableOk(rows, nextId)
    ensures CartQty(rows, Some(userId), variantId) >= 0
    ensures CartQty(rows, Some(userId), variantId) > 0 <==>
      exists i :: 0 <= i < |rows| && rows[i].userId == userId && rows[i].variantId == Some(variantId)
  {
    var keep := VariantLine(userId, variantId);
    CartApi.SumQtyPositive(rows, keep);
    assert forall i :: 0 <= i < |rows| ==> (keep(rows[i]) <==> rows[i].userId == userId && rows[i].variantId == Some(variantId));
  }

  /** A cart store of `qty` of this variant by the caller raises its `cart_qty` by exactly `qty`. */
  lemma CartQtyAfterStore(rows: seq<CartApi.CartRow>, nextId: nat, userId: nat, productId: nat, variantId: nat, qty: int)
    ensures CartQty(CartApi.AfterStore(rows, nextId, userId, productId, Some(variantId), qty).rows, Some(userId), variantId) ==
            CartQty(rows, Some(userId), variantId) + qty
  {
    CartApi.StoreRaisesSum(rows, nextId, userId, productId, Some(variantId), qty, VariantLine(userId, variantId));
  }

  /** Rows of other users never contribute: their stores leave the caller's `cart_qty` as it was. */
  lemma CartQtyUntouchedByOtherUsers(rows: seq<CartApi.CartRow>, nextId: nat, userId: nat, variantId: nat,
                                     storer: nat, productId: nat, storedVariant: Option<nat>, qty: int)
    requires storer != userId
    ensures CartQty(CartApi.AfterStore(rows, nextId, storer, productId, storedVariant, qty).rows, Some(userId), variantId) ==
            CartQty(rows, Some(userId), variantId)
  {
    CartApi.StoreKeepsSum(rows, nextId, storer, productId, storedVariant, qty, VariantLine(userId, variantId));
  }

  /** A store without a variant, or with another one, leaves the variant's `cart_qty` as it was. */
  lemma CartQtyUntouchedByOtherVariants(rows: seq<CartApi.CartRow>, nextId: nat, userId: nat, variantId: nat,
                                        productId: nat, storedVariant: Option<nat>, qty: int)
    requires storedVariant != Some(variantId)
    ensures CartQty(CartApi.AfterStore(rows, nextId, userId, productId, storedVariant, qty).rows, Some(userId), variantId) ==
            CartQty(rows, Some(userId), variantId)
  {
    CartApi.StoreKeepsSum(rows, nextId, userId, productId, storedVariant, qty, VariantLine(userId, variantId));
  }
}
