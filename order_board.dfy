/**
 * The orders screen of the admin dashboard: the order status machine its buttons offer,
 * status changes, and the display order (pending first, newest first within a group).
 */
module OrderBoard {
  import Seqs

  datatype Status = Pending | Preparing | Ready | Delivered | Cancelled

  datatype OrderItem = OrderItem(productId: string, name: string, quantity: int, price: int)

  /** An order; `time` is its timestamp in milliseconds, as `Date.getTime` reads it. */
  datatype Order = Order(id: string, customerName: string, items: seq<OrderItem>, total: int, status: Status, time: int)

  /** `updateStatus`: the orders with that id get the new status; nothing else changes. */
  function UpdateStatus(orders: seq<Order>, id: string, status: Status): (r: seq<Order>)
    ensures |r| == |orders|
    ensures forall i :: 0 <= i < |orders| && orders[i].id == id ==> r[i] == orders[i].(status := status)
    ensures forall i :: 0 <= i < |orders| && orders[i].id != id ==> r[i] == orders[i]
  {
    Seqs.Map(orders, (o: Order) => if o.id == id then o.(status := status) else o)
  }

  /** The statuses the card's buttons move an order to. */
  function Offered(s: Status): set<Status>
  {
    match s
    case Pending => {Cancelled, Preparing}
    case Preparing => {Ready}
    case Ready => {Delivered}
    case Delivered => {}
    case Cancelled => {}
  }

  /** How far along an order is: each offered transition moves forward. */
  function Stage(s: Status): nat
  {
    match s
    case Pending => 0
    case Preparing => 1
    case Ready => 2
    case Delivered => 3
    case Cancelled => 3
  }

  /** Terminal statuses are exactly those with no button; every offered move goes forward, never back to pending. */
  lemma OfferedMovesForward(s: Status, t: Status)
    ensures Offered(s) == {} <==> s == Delivered || s == Cancelled
    ensures t in Offered(s) ==> Stage(s) < Stage(t) && t != Pending
  {
    if s == Pending {
      assert Cancelled in Offered(s);
    }
  }

  /** The comparator returns at most zero: `a` may be shown before `b`. */
  predicate InOrder(a: Order, b: Order)
  {
    (a.status == Pending && b.status != Pending) ||
    ((a.status == Pending) == (b.status == Pending) && b.time <= a.time)
  }

  ghost predicate Sorted(s: seq<Order>)
  {
    forall i, j :: 0 <= i < j < |s| ==> InOrder(s[i], s[j])
  }

  /** `a` may be shown before every order of `s`. */
  ghost predicate LowerBound(a: Order, s: seq<Order>)
  {
    forall j :: 0 <= j < |s| ==> InOrder(a, s[j])
  }

  /** Being a lower bound depends only on the elements, not on their order. */
  lemma LowerBoundOfPermutation(a: Order, r: seq<Order>, t: seq<Order>)
    requires multiset(r) == multiset(t) && LowerBound(a, t)
    ensures LowerBound(a, r)
  {
    forall j | 0 <= j < |r|
      ensures InOrder(a, r[j])
    {
      assert r[j] in multiset(t);
      var k :| 0 <= k < |t| && t[k] == r[j];
    }
  }

  /** A head that is a lower bound of a sorted tail gives a sorted list. */
  lemma SortedCons(h: Order, t: seq<Order>)
    requires LowerBound(h, t) && Sorted(t)
    ensures Sorted([h] + t)
  {
    var r := [h] + t;
    forall i, j | 0 <= i < j < |r|
      ensures InOrder(r[i], r[j])
    {
      if i == 0 { assert r[j] == t[j - 1]; } else { assert r[i] == t[i - 1] && r[j] == t[j - 1]; }
    }
  }

  /** Insert `x` into a sorted list, after every order it may not precede. */
  function Insert(x: Order, s: seq<Order>): (r: seq<Order>)
    requires Sorted(s)
    ensures Sorted(r)
    ensures multiset(r) == multiset(s) + multiset{x}
  {
    if s == [] then [x]
    else if InOrder(x, s[0]) then
      assert LowerBound(x, s) by {
        forall j | 0 <= j < |s| ensures InOrder(x, s[j]) {
          if j > 0 { assert InOrder(s[0], s[j]); }
        }
      }
      SortedCons(x, s);
      [x] + s
    else
      var tail := s[1..];
      var rest := Insert(x, tail);
      assert s == [s[0]] + tail;
      assert LowerBound(s[0], tail + [x]) by {
        forall j | 0 <= j < |tail + [x]| ensures InOrder(s[0], (tail + [x])[j]) {
          if j < |tail| { assert InOrder(s[0], s[j + 1]); }
        }
      }
      LowerBoundOfPermutation(s[0], rest, tail + [x]);
      assert Sorted(tail) by {
        forall i, j | 0 <= i < j < |tail| ensures InOrder(tail[i], tail[j]) {
          assert tail[i] == s[i + 1] && tail[j] == s[j + 1];
        }
      }
      SortedCons(s[0], rest);
      [s[0]] + rest
  }

  /** The display order: a sorted copy of the orders with the same elements. */
  function SortOrders(orders: seq<Order>): (r: seq<Order>)
    ensures Sorted(r)
    ensures multiset(r) == multiset(orders)
  {
    if orders == [] then []
    else
      assert orders == [orders[0]] + orders[1..];
      Insert(orders[0], SortOrders(orders[1..]))
  }

  /** The comparator returns zero: same group and same time. */
  predicate SameKey(a: Order, b: Order)
  {
    (a.status == Pending) == (b.status == Pending) && a.time == b.time
  }

  /** The orders whose sort key equals that of `k`. */
  function KeyClass(k: Order): Order -> bool
  {
    (o: Order) => SameKey(o, k)
  }

  /** Dropping the head of a sorted list leaves it sorted. */
  lemma SortedTail(s: seq<Order>)
    requires Sorted(s) && s != []
    ensures Sorted(s[1..])
  {
    var t := s[1..];
    forall i, j | 0 <= i < j < |t| ensures InOrder(t[i], t[j]) {
      assert t[i] == s[i + 1] && t[j] == s[j + 1];
    }
  }

  /** `Insert` puts `x` before every order with the same key and moves nothing else past another. */
  lemma {:induction false} InsertKeyClass(x: Order, t: seq<Order>, k: Order)
    requires Sorted(t)
    ensures Seqs.Filter(Insert(x, t), KeyClass(k)) ==
      if KeyClass(k)(x) then [x] + Seqs.Filter(t, KeyClass(k)) else Seqs.Filter(t, KeyClass(k))
  {
    var p := KeyClass(k);
    if t == [] {
      assert Insert(x, t) == [x];
      assert [x][1..] == [];
    } else if InOrder(x, t[0]) {
      var r := [x] + t;
      assert Insert(x, t) == r;
      assert r[0] == x && r[1..] == t;
    } else {
      SortedTail(t);
      InsertKeyClass(x, t[1..], k);
      var r := [t[0]] + Insert(x, t[1..]);
      assert Insert(x, t) == r;
      assert r[0] == t[0] && r[1..] == Insert(x, t[1..]);
      assert p(x) ==> !p(t[0]);
    }
  }

  /**
   * The sort is stable, as `Array.prototype.sort` must be: orders the comparator
   * finds equal keep their relative order from the input.
   */
  lemma {:induction false} SortStable(orders: seq<Order>, k: Order)
    ensures Seqs.Filter(SortOrders(orders), KeyClass(k)) == Seqs.Filter(orders, KeyClass(k))
  {
    if orders != [] {
      SortStable(orders[1..], k);
      InsertKeyClass(orders[0], SortOrders(orders[1..]), k);
    }
  }

  /** In the sorted list every pending order comes before every other, and within a group the newer one first. */
  lemma SortedGroups(orders: seq<Order>, i: nat, j: nat)
    requires i < j < |SortOrders(orders)|
    ensures var r := SortOrders(orders);
      && (r[j].status == Pending ==> r[i].status == Pending)
      && ((r[i].status == Pending) == (r[j].status == Pending) ==> r[j].time <= r[i].time)
  {
  }
}
