/**
 * The shopping-cart JSON API: a table of cart rows, each owned by a user and keyed by
 * (user, product, optional variant), with add-or-increment, owner-checked read, quantity
 * change and delete, and a per-user listing.
 */
module CartApi {
  import opened Wrappers
  import opened Http
  import Seqs

  /** A `carts` row. */
  datatype CartRow = CartRow(id: nat, userId: nat, productId: nat, variantId: Option<nat>, qty: int)

  /** Row `r` is the line (user, product, variant). A null variant only matches a null variant. */
  predicate IsLine(r: CartRow, userId: nat, productId: nat, variantId: Option<nat>)
  {
    r.userId == userId && r.productId == productId && r.variantId == variantId
  }

  /** The position of the first row of a line, as `where(…)->first()` finds it. */
  function FindLine(rows: seq<CartRow>, userId: nat, productId: nat, variantId: Option<nat>): (r: Option<nat>)
    ensures r.Some? ==> r.value < |rows| && IsLine(rows[r.value], userId, productId, variantId)
    ensures r.Some? ==> forall j :: 0 <= j < r.value ==> !IsLine(rows[j], userId, productId, variantId)
    ensures r.None? <==> forall j :: 0 <= j < |rows| ==> !IsLine(rows[j], userId, productId, variantId)
  {
    if rows == [] then None
    else if IsLine(rows[0], userId, productId, variantId) then Some(0)
    else match FindLine(rows[1..], userId, productId, variantId)
      case None => None
      case Some(k) => Some(k + 1)
  }

  /** The position of the row with primary key `id` (route model binding). */
  function FindId(rows: seq<CartRow>, id: nat): (r: Option<nat>)
    ensures r.Some? ==> r.value < |rows| && rows[r.value].id == id
    ensures r.None? <==> forall j :: 0 <= j < |rows| ==> rows[j].id != id
  {
    if rows == [] then None
    else if rows[0].id == id then Some(0)
    else match FindId(rows[1..], id)
      case None => None
      case Some(k) => Some(k + 1)
  }

  /** At most one row per (user, product, variant). */
  ghost predicate UniqueLines(rows: seq<CartRow>)
  {
    forall i, j :: 0 <= i < j < |rows| ==> !IsLine(rows[j], rows[i].userId, rows[i].productId, rows[i].variantId)
  }

  /** Primary keys are distinct and all below the next one to be assigned. */
  ghost predicate IdsBelow(rows: seq<CartRow>, nextId: nat)
  {
    0 < nextId &&
    (forall i :: 0 <= i < |rows| ==> 0 < rows[i].id < nextId) &&
    (forall i, j :: 0 <= i < j < |rows| ==> rows[i].id != rows[j].id)
  }

  /** Every stored quantity is at least one. */
  ghost predicate PositiveQty(rows: seq<CartRow>)
  {
    forall i :: 0 <= i < |rows| ==> rows[i].qty >= 1
  }

  ghost predicate TableOk(rows: seq<CartRow>, nextId: nat)
  {
    UniqueLines(rows) && IdsBelow(rows, nextId) && PositiveQty(rows)
  }

  /** The table, next key, answer and returned row after a store. */
  datatype Stored = Stored(rows: seq<CartRow>, nextId: nat, status: Status, line: CartRow)

  /**
   * Store `qty` of (product, variant) for the caller: an existing line has its quantity raised
   * and is answered with 200; otherwise one row is inserted and answered with 201.
   */
  function AfterStore(rows: seq<CartRow>, nextId: nat, userId: nat, productId: nat, variantId: Option<nat>, qty: int)
    : (s: Stored)
    ensures (exists i :: 0 <= i < |rows| && IsLine(rows[i], userId, productId, variantId)) ==>
      s.status == Ok200 && s.nextId == nextId && |s.rows| == |rows| &&
      exists i :: 0 <= i < |rows| && IsLine(rows[i], userId, productId, variantId) &&
        s.line == rows[i].(qty := rows[i].qty + qty) && s.rows == rows[i := s.line]
    ensures (forall i :: 0 <= i < |rows| ==> !IsLine(rows[i], userId, productId, variantId)) ==>
      s.status == Created201 && s.nextId == nextId + 1 &&
      s.line == CartRow(nextId, userId, productId, variantId, qty) && s.rows == rows + [s.line]
  {
    match FindLine(rows, userId, productId, variantId)
    case Some(i) =>
      var line := rows[i].(qty := rows[i].qty + qty);
      Stored(rows[i := line], nextId, Ok200, line)
    case None =>
      var line := CartRow(nextId, userId, productId, variantId, qty);
      Stored(rows + [line], nextId + 1, Created201, line)
  }

  /** A store touches only the caller's row for that line: every other row is as before. */
  lemma StoreLeavesOtherRows(rows: seq<CartRow>, nextId: nat, userId: nat, productId: nat, variantId: Option<nat>, qty: int)
    requires UniqueLines(rows)
    ensures var s := AfterStore(rows, nextId, userId, productId, variantId, qty);
      forall j :: 0 <= j < |rows| && !IsLine(rows[j], userId, productId, variantId) ==> s.rows[j] == rows[j]
    ensures var s := AfterStore(rows, nextId, userId, productId, variantId, qty);
      forall j :: 0 <= j < |s.rows| && IsLine(s.rows[j], userId, productId, variantId) ==> s.rows[j] == s.line
  {
  }

  /** Store keeps one row per line, distinct keys and positive quantities. */
  lemma StoreKeepsTable(rows: seq<CartRow>, nextId: nat, userId: nat, productId: nat, variantId: Option<nat>, qty: int)
    requires TableOk(rows, nextId) && qty >= 1
    ensures var s := AfterStore(rows, nextId, userId, productId, variantId, qty); TableOk(s.rows, s.nextId)
  {
    match FindLine(rows, userId, productId, variantId)
    case Some(i) =>
      SetQtyKeepsTable(rows, nextId, i, rows[i].qty + qty);
    case None =>
      AppendKeepsTable(rows, nextId, CartRow(nextId, userId, productId, variantId, qty));
  }

  /** Appending a row for a new line under the next key keeps the table well formed. */
  lemma AppendKeepsTable(rows: seq<CartRow>, nextId: nat, line: CartRow)
    requires TableOk(rows, nextId) && line.id == nextId && line.qty >= 1
    requires forall j :: 0 <= j < |rows| ==> !IsLine(rows[j], line.userId, line.productId, line.variantId)
    ensures TableOk(rows + [line], nextId + 1)
  {
    var t := rows + [line];
    assert forall j :: 0 <= j < |rows| ==> t[j] == rows[j];
    assert t[|rows|] == line;
  }

  /** Setting the quantity of row `i` to a valid one keeps the table well formed. */
  lemma SetQtyKeepsTable(rows: seq<CartRow>, nextId: nat, i: nat, qty: int)
    requires TableOk(rows, nextId) && i < |rows| && qty >= 1
    ensures TableOk(rows[i := rows[i].(qty := qty)], nextId)
  {
  }

  /** Deleting row `i` keeps the table well formed. */
  lemma RemoveKeepsTable(rows: seq<CartRow>, nextId: nat, i: nat)
    requires TableOk(rows, nextId) && i < |rows|
    ensures TableOk(rows[..i] + rows[i + 1..], nextId)
  {
  }

  /** What row `r` adds to a `sum('qty')` over the rows `keep` selects. */
  function Part(r: CartRow, keep: CartRow -> bool): int
  {
    if keep(r) then r.qty else 0
  }

  /** `sum('qty')` over the rows `keep` selects. */
  function SumQty(rows: seq<CartRow>, keep: CartRow -> bool): (total: int)
    ensures (forall i :: 0 <= i < |rows| ==> !keep(rows[i])) ==> total == 0
  {
    if rows == [] then 0
    else SumQty(rows[..|rows| - 1], keep) + Part(rows[|rows| - 1], keep)
  }

  /** Replacing one row changes the sum by the difference of the two rows' parts. */
  lemma {:induction false} SumQtyUpdate(rows: seq<CartRow>, i: nat, x: CartRow, keep: CartRow -> bool)
    requires i < |rows|
    ensures SumQty(rows[i := x], keep) == SumQty(rows, keep) - Part(rows[i], keep) + Part(x, keep)
    decreases |rows|
  {
    var n := |rows|;
    var updated := rows[i := x];
    if i == n - 1 {
      assert updated[..n - 1] == rows[..n - 1];
    } else {
      assert updated[..n - 1] == rows[..n - 1][i := x];
      SumQtyUpdate(rows[..n - 1], i, x, keep);
    }
  }

  /** With positive quantities, the sum is never negative and is positive exactly when some row is selected. */
  lemma {:induction false} SumQtyPositive(rows: seq<CartRow>, keep: CartRow -> bool)
    requires PositiveQty(rows)
    ensures SumQty(rows, keep) >= 0
    ensures SumQty(rows, keep) > 0 <==> exists i :: 0 <= i < |rows| && keep(rows[i])
    decreases |rows|
  {
    if rows != [] {
      var n := |rows|;
      var init := rows[..n - 1];
      SumQtyPositive(init, keep);
      if exists i :: 0 <= i < n - 1 && keep(init[i]) {
        var i :| 0 <= i < n - 1 && keep(init[i]);
        assert keep(rows[i]);
      }
      if exists i :: 0 <= i < n && keep(rows[i]) {
        var i :| 0 <= i < n && keep(rows[i]);
        if i < n - 1 { assert keep(init[i]); }
      }
    }
  }

  /** A store of `qty` on a line that `keep` selects raises the selected sum by exactly `qty`. */
  lemma StoreRaisesSum(rows: seq<CartRow>, nextId: nat, userId: nat, productId: nat, variantId: Option<nat>, qty: int,
                       keep: CartRow -> bool)
    requires forall r :: IsLine(r, userId, productId, variantId) ==> keep(r)
    ensures SumQty(AfterStore(rows, nextId, userId, productId, variantId, qty).rows, keep) == SumQty(rows, keep) + qty
  {
    var s := AfterStore(rows, nextId, userId, productId, variantId, qty);
    match FindLine(rows, userId, productId, variantId)
    case Some(i) =>
      assert IsLine(rows[i], userId, productId, variantId) && IsLine(s.line, userId, productId, variantId);
      assert Part(s.line, keep) == Part(rows[i], keep) + qty;
      SumQtyUpdate(rows, i, s.line, keep);
    case None =>
      assert IsLine(s.line, userId, productId, variantId);
      assert Part(s.line, keep) == qty;
      assert s.rows[..|rows|] == rows;
  }

  /** A store on a line that `keep` does not select leaves the selected sum as it was. */
  lemma StoreKeepsSum(rows: seq<CartRow>, nextId: nat, userId: nat, productId: nat, variantId: Option<nat>, qty: int,
                      keep: CartRow -> bool)
    requires forall r :: IsLine(r, userId, productId, variantId) ==> !keep(r)
    ensures SumQty(AfterStore(rows, nextId, userId, productId, variantId, qty).rows, keep) == SumQty(rows, keep)
  {
    var s := AfterStore(rows, nextId, userId, productId, variantId, qty);
    match FindLine(rows, userId, productId, variantId)
    case Some(i) =>
      assert IsLine(rows[i], userId, productId, variantId) && IsLine(s.line, userId, productId, variantId);
      assert Part(rows[i], keep) == 0 && Part(s.line, keep) == 0;
      SumQtyUpdate(rows, i, s.line, keep);
    case None =>
      assert IsLine(s.line, userId, productId, variantId);
      assert Part(s.line, keep) == 0;
      assert s.rows[..|rows|] == rows;
  }

  class CartTable {
    var rows: seq<CartRow>
    var nextId: nat

    ghost predicate Valid()
      reads this
    {
      TableOk(rows, nextId)
    }

    constructor ()
      ensures Valid() && rows == [] && nextId == 1
    {
      rows := [];
      nextId := 1;
    }

    /** `index`: the caller's rows, in table order. */
    method Index(userId: nat) returns (items: seq<CartRow>)
      ensures forall i :: 0 <= i < |items| ==> items[i].userId == userId
      ensures forall r :: multiset(items)[r] == if r.userId == userId then multiset(rows)[r] else 0
      ensures Seqs.IsSubsequence(items, rows)
    {
      items := Seqs.Filter(rows, (r: CartRow) => r.userId == userId);
      Seqs.FilterIsSubsequence(rows, (r: CartRow) => r.userId == userId);
      Seqs.FilterMultiset(rows, (r: CartRow) => r.userId == userId);
    }

    /** `store`, after validation (`qty` at least one). */
    method Store(userId: nat, productId: nat, variantId: Option<nat>, qty: int) returns (status: Status, line: CartRow)
      requires Valid() && qty >= 1
      modifies this
      ensures Valid()
      ensures var s := AfterStore(old(rows), old(nextId), userId, productId, variantId, qty);
        rows == s.rows && nextId == s.nextId && status == s.status && line == s.line
    {
      StoreKeepsTable(rows, nextId, userId, productId, variantId, qty);
      match FindLine(rows, userId, productId, variantId)
      case Some(i) =>
        line := rows[i].(qty := rows[i].qty + qty);
        rows := rows[i := line];
        status := Ok200;
      case None =>
        line := CartRow(nextId, userId, productId, variantId, qty);
        rows := rows + [line];
        nextId := nextId + 1;
        status := Created201;
    }

    /** `show`: the row, to its owner only. */
    method Show(userId: nat, id: nat) returns (status: Status, item: Option<CartRow>)
      ensures FindId(rows, id).None? ==> status == NotFound404 && item == None
      ensures FindId(rows, id).Some? && rows[FindId(rows, id).value].userId != userId ==>
        status == Forbidden403 && item == None
      ensures FindId(rows, id).Some? && rows[FindId(rows, id).value].userId == userId ==>
        status == Ok200 && item == Some(rows[FindId(rows, id).value])
    {
      match FindId(rows, id)
      case None =>
        status, item := NotFound404, None;
      case Some(i) =>
        if rows[i].userId != userId {
          status, item := Forbidden403, None;
        } else {
          status, item := Ok200, Some(rows[i]);
        }
    }

    /**
     * `update`: the owner sets the quantity of one row. Route binding and the ownership
     * check answer before the quantity is validated, so only the owner's request needs
     * a quantity of at least one.
     */
    method Update(userId: nat, id: nat, qty: int) returns (status: Status)
      requires Valid()
      requires FindId(rows, id).Some? && rows[FindId(rows, id).value].userId == userId ==> qty >= 1
      modifies this
      ensures Valid() && nextId == old(nextId)
      ensures FindId(old(rows), id).None? ==> status == NotFound404 && rows == old(rows)
      ensures FindId(old(rows), id).Some? && old(rows)[FindId(old(rows), id).value].userId != userId ==>
        status == Forbidden403 && rows == old(rows)
      ensures FindId(old(rows), id).Some? && old(rows)[FindId(old(rows), id).value].userId == userId ==>
        var i := FindId(old(rows), id).value;
        status == Ok200 && rows == old(rows)[i := old(rows)[i].(qty := qty)]
    {
      match FindId(rows, id)
      case None =>
        status := NotFound404;
      case Some(i) =>
        if rows[i].userId != userId {
          status := Forbidden403;
        } else {
          SetQtyKeepsTable(rows, nextId, i, qty);
          rows := rows[i := rows[i].(qty := qty)];
          status := Ok200;
        }
    }

    /** `destroy`: the owner deletes one row. */
    method Destroy(userId: nat, id: nat) returns (status: Status)
      requires Valid()
      modifies this
      ensures Valid() && nextId == old(nextId)
      ensures FindId(old(rows), id).None? ==> status == NotFound404 && rows == old(rows)
      ensures FindId(old(rows), id).Some? && old(rows)[FindId(old(rows), id).value].userId != userId ==>
        status == Forbidden403 && rows == old(rows)
      ensures FindId(old(rows), id).Some? && old(rows)[FindId(old(rows), id).value].userId == userId ==>
        var i := FindId(old(rows), id).value;
        status == Ok200 && rows == old(rows)[..i] + old(rows)[i + 1..]
    {
      match FindId(rows, id)
      case None =>
        status := NotFound404;
      case Some(i) =>
        if rows[i].userId != userId {
          status := Forbidden403;
        } else {
          RemoveKeepsTable(rows, nextId, i);
          rows := rows[..i] + rows[i + 1..];
          status := Ok200;
        }
    }
  }

  /** After an owner's delete no row carries that id any more. */
  lemma RemovedIdGone(rows: seq<CartRow>, nextId: nat, i: nat)
    requires TableOk(rows, nextId) && i < |rows|
    ensures FindId(rows[..i] + rows[i + 1..], rows[i].id).None?
  {
    var rest := rows[..i] + rows[i + 1..];
    forall j | 0 <= j < |rest|
      ensures rest[j].id != rows[i].id
    {
      if j < i { assert rest[j] == rows[j]; } else { assert rest[j] == rows[j + 1]; }
    }
  }
}
