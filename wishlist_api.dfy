/**
 * The wishlist JSON API: a table of (user, product) entries with add-if-absent,
 * owner-checked read and delete, and a per-user listing.
 */
module WishlistApi {
  import opened Wrappers
  import opened Http
  import Seqs

  /** A `wishlists` row. */
  datatype WishRow = WishRow(id: nat, userId: nat, productId: nat)

  predicate IsEntry(r: WishRow, userId: nat, productId: nat)
  {
    r.userId == userId && r.productId == productId
  }

  /** The position of the first entry for (user, product), as `where(…)->first()` finds it. */
  function FindEntry(rows: seq<WishRow>, userId: nat, productId: nat): (r: Option<nat>)
    ensures r.Some? ==> r.value < |rows| && IsEntry(rows[r.value], userId, productId)
    ensures r.Some? ==> forall j :: 0 <= j < r.value ==> !IsEntry(rows[j], userId, productId)
    ensures r.None? <==> forall j :: 0 <= j < |rows| ==> !IsEntry(rows[j], userId, productId)
  {
    if rows == [] then None
    else if IsEntry(rows[0], userId, productId) then Some(0)
    else match FindEntry(rows[1..], userId, productId)
      case None => None
      case Some(k) => Some(k + 1)
  }

  /** The position of the entry with primary key `id` (route model binding). */
  function FindId(rows: seq<WishRow>, id: nat): (r: Option<nat>)
    ensures r.Some? ==> r.value < |rows| && rows[r.value].id == id
    ensures r.None? <==> forall j :: 0 <= j < |rows| ==> rows[j].id != id
  {
    if rows == [] then None
    else if rows[0].id == id then Some(0)
    else match FindId(rows[1..], id)
      case None => None
      case Some(k) => Some(k + 1)
  }

  /** At most one entry per (user, product), distinct keys below the next one. */
  ghost predicate TableOk(rows: seq<WishRow>, nextId: nat)
  {
    0 < nextId &&
    (forall i :: 0 <= i < |rows| ==> 0 < rows[i].id < nextId) &&
    (forall i, j :: 0 <= i < j < |rows| ==> rows[i].id != rows[j].id) &&
    (forall i, j :: 0 <= i < j < |rows| ==> !IsEntry(rows[j], rows[i].userId, rows[i].productId))
  }

  /** The table, next key, answer and returned entry after a store. */
  datatype Added = Added(rows: seq<WishRow>, nextId: nat, status: Status, entry: WishRow)

  /**
   * Add a product to the caller's wishlist: a present entry is returned unchanged with 200;
   * otherwise one entry is inserted and answered with 201.
   */
  function AfterAdd(rows: seq<WishRow>, nextId: nat, userId: nat, productId: nat): (a: Added)
    ensures (exists i :: 0 <= i < |rows| && IsEntry(rows[i], userId, productId)) ==>
      a.status == Ok200 && a.rows == rows && a.nextId == nextId && a.entry in rows &&
      IsEntry(a.entry, userId, productId)
    ensures (forall i :: 0 <= i < |rows| ==> !IsEntry(rows[i], userId, productId)) ==>
      a.status == Created201 && a.nextId == nextId + 1 &&
      a.entry == WishRow(nextId, userId, productId) && a.rows == rows + [a.entry]
  {
    match FindEntry(rows, userId, productId)
    case Some(i) => Added(rows, nextId, Ok200, rows[i])
    case None =>
      var entry := WishRow(nextId, userId, productId);
      Added(rows + [entry], nextId + 1, Created201, entry)
  }

  /** Adding the same product twice leaves the table as one add does, and answers 200 the second time. */
  lemma AddIdempotent(rows: seq<WishRow>, nextId: nat, userId: nat, productId: nat)
    ensures var once := AfterAdd(rows, nextId, userId, productId);
      var twice := AfterAdd(once.rows, once.nextId, userId, productId);
      twice.rows == once.rows && twice.nextId == once.nextId && twice.status == Ok200 && twice.entry == once.entry
  {
    var once := AfterAdd(rows, nextId, userId, productId);
    match FindEntry(rows, userId, productId)
    case Some(i) =>
    case None =>
      assert IsEntry(once.rows[|rows|], userId, productId);
      assert forall j :: 0 <= j < |rows| ==> once.rows[j] == rows[j];
  }

  /** Add keeps one entry per (user, product) and distinct keys. */
  lemma AddKeepsTable(rows: seq<WishRow>, nextId: nat, userId: nat, productId: nat)
    requires TableOk(rows, nextId)
    ensures var a := AfterAdd(rows, nextId, userId, productId); TableOk(a.rows, a.nextId)
  {
  }

  /** After an add the caller has exactly one entry for the product. */
  lemma AddThenPresent(rows: seq<WishRow>, nextId: nat, userId: nat, productId: nat)
    requires TableOk(rows, nextId)
    ensures var a := AfterAdd(rows, nextId, userId, productId);
      (exists i :: 0 <= i < |a.rows| && IsEntry(a.rows[i], userId, productId)) &&
      forall i, j ::
        (0 <= i < |a.rows| && 0 <= j < |a.rows| &&
         IsEntry(a.rows[i], userId, productId) && IsEntry(a.rows[j], userId, productId)) ==> i == j
  {
    var a := AfterAdd(rows, nextId, userId, productId);
    AddKeepsTable(rows, nextId, userId, productId);
    match FindEntry(rows, userId, productId)
    case Some(k) =>
      assert IsEntry(a.rows[k], userId, productId);
    case None =>
      assert IsEntry(a.rows[|rows|], userId, productId);
  }

  /** Deleting entry `i` keeps the table well formed. */
  lemma RemoveKeepsTable(rows: seq<WishRow>, nextId: nat, i: nat)
    requires TableOk(rows, nextId) && i < |rows|
    ensures TableOk(rows[..i] + rows[i + 1..], nextId)
  {
  }

  class WishlistTable {
    var rows: seq<WishRow>
    var nextId: nat

    ghost predicate Valid()
      reads this
    {
      TableOk(rows, nextId)
    }

    constructor ()
      ensures Valid() && rows == [] && nextId == 1
    {
      rows := [];
      nextId := 1;
    }

    /** `index`: the caller's entries, in table order. */
    method Index(userId: nat) returns (items: seq<WishRow>)
      ensures forall i :: 0 <= i < |items| ==> items[i].userId == userId
      ensures forall r :: multiset(items)[r] == if r.userId == userId then multiset(rows)[r] else 0
      ensures Seqs.IsSubsequence(items, rows)
    {
      items := Seqs.Filter(rows, (r: WishRow) => r.userId == userId);
      Seqs.FilterIsSubsequence(rows, (r: WishRow) => r.userId == userId);
      Seqs.FilterMultiset(rows, (r: WishRow) => r.userId == userId);
    }

    /** `store`: add the product to the caller's wishlist unless it is already there. */
    method Store(userId: nat, productId: nat) returns (status: Status, entry: WishRow)
      requires Valid()
      modifies this
      ensures Valid()
      ensures var a := AfterAdd(old(rows), old(nextId), userId, productId);
        rows == a.rows && nextId == a.nextId && status == a.status && entry == a.entry
    {
      AddKeepsTable(rows, nextId, userId, productId);
      match FindEntry(rows, userId, productId)
      case Some(i) =>
        status, entry := Ok200, rows[i];
      case None =>
        entry := WishRow(nextId, userId, productId);
        rows := rows + [entry];
        nextId := nextId + 1;
        status := Created201;
    }

    /** `show`: the entry, to its owner only. */
    method Show(userId: nat, id: nat) returns (status: Status, item: Option<WishRow>)
      ensures FindId(rows, id).None? ==> status == NotFound404 && item == None
      ensures FindId(rows, id).Some? && rows[FindId(rows, id).value].userId != userId ==>
        status == Forbidden403 && item == None
      ensures FindId(rows, id).Some? && rows[FindId(rows, id).value].userId == userId ==>
        status == Ok200 && item == Some(rows[FindId(rows, id).value])
    {
      match FindId(rows, id)
      case None =>
        status, item := NotFound404, None;
      case Some(i) =>
        if rows[i].userId != userId {
          status, item := Forbidden403, None;
        } else {
          status, item := Ok200, Some(rows[i]);
        }
    }

    /** `destroy`: the owner deletes one entry. */
    method Destroy(userId: nat, id: nat) returns (status: Status)
      requires Valid()
      modifies this
      ensures Valid() && nextId == old(nextId)
      ensures FindId(old(rows), id).None? ==> status == NotFound404 && rows == old(rows)
      ensures FindId(old(rows), id).Some? && old(rows)[FindId(old(rows), id).value].userId != userId ==>
        status == Forbidden403 && rows == old(rows)
      ensures FindId(old(rows), id).Some? && old(rows)[FindId(old(rows), id).value].userId == userId ==>
        var i := FindId(old(rows), id).value;
        status == Ok200 && rows == old(rows)[..i] + old(rows)[i + 1..]
    {
      match FindId(rows, id)
      case None =>
        status := NotFound404;
      case Some(i) =>
        if rows[i].userId != userId {
          status := Forbidden403;
        } else {
          RemoveKeepsTable(rows, nextId, i);
          rows := rows[..i] + rows[i + 1..];
          status := Ok200;
        }
    }
  }
}
