/** The counters at the top of the dashboard: sales total, pending and delivered orders. */
module DashboardStats {
  import Seqs
  import OrderBoard

  /**
   * `totalSales`: the sum of all order totals. With no negative total, the sum is
   * non-negative and at least every single total.
   */
  function TotalSales(orders: seq<OrderBoard.Order>): (t: int)
    ensures orders == [] ==> t == 0
    ensures |orders| == 1 ==> t == orders[0].total
    ensures (forall i :: 0 <= i < |orders| ==> orders[i].total >= 0) ==>
      t >= 0 && forall i :: 0 <= i < |orders| ==> orders[i].total <= t
  {
    if orders == [] then 0 else orders[0].total + TotalSales(orders[1..])
  }

  /** The status of every order, in order. */
  function Statuses(orders: seq<OrderBoard.Order>): seq<OrderBoard.Status>
  {
    Seqs.Map(orders, (o: OrderBoard.Order) => o.status)
  }

  /** The number of orders with the given status (`filter(…).length`). */
  function CountStatus(orders: seq<OrderBoard.Order>, s: OrderBoard.Status): (n: nat)
    ensures n == multiset(Statuses(orders))[s]
    ensures n <= |orders|
    ensures n == 0 <==> forall i :: 0 <= i < |orders| ==> orders[i].status != s
  {
    var hasStatus := (o: OrderBoard.Order) => o.status == s;
    var kept := Seqs.Filter(orders, hasStatus);
    Seqs.FilterMultiset(orders, hasStatus);
    Seqs.FilterLength(orders, hasStatus, (o: OrderBoard.Order) => o.status, s);
    assert forall i :: 0 <= i < |orders| && orders[i].status == s ==> multiset(kept)[orders[i]] > 0 by {
      forall i | 0 <= i < |orders| && orders[i].status == s
        ensures multiset(kept)[orders[i]] > 0
      {
        assert orders[i] in multiset(orders);
      }
    }
    |kept|
  }

  /** `pendingOrders`: how many orders are PENDING. */
  function PendingOrders(orders: seq<OrderBoard.Order>): (n: nat)
    ensures n == multiset(Statuses(orders))[OrderBoard.Pending]
  {
    CountStatus(orders, OrderBoard.Pending)
  }

  /** `completedOrders`: how many orders are DELIVERED. */
  function CompletedOrders(orders: seq<OrderBoard.Order>): (n: nat)
    ensures n == multiset(Statuses(orders))[OrderBoard.Delivered]
  {
    CountStatus(orders, OrderBoard.Delivered)
  }

  /** No order is both pending and delivered, so the two counters never exceed the number of orders. */
  lemma {:induction false} CountersBounded(orders: seq<OrderBoard.Order>)
    ensures PendingOrders(orders) + CompletedOrders(orders) <= |orders|
  {
    if orders != [] {
      CountersBounded(orders[1..]);
    }
  }

  /** Changing statuses never changes the sales total. */
  lemma {:induction false} StatusChangeKeepsSales(orders: seq<OrderBoard.Order>, id: string, s: OrderBoard.Status)
    ensures TotalSales(OrderBoard.UpdateStatus(orders, id, s)) == TotalSales(orders)
  {
    if orders != [] {
      var r := OrderBoard.UpdateStatus(orders, id, s);
      StatusChangeKeepsSales(orders[1..], id, s);
      assert r[1..] == OrderBoard.UpdateStatus(orders[1..], id, s);
    }
  }

  /** Sales add up over a concatenation of order lists. */
  lemma {:induction false} TotalSalesAppend(a: seq<OrderBoard.Order>, b: seq<OrderBoard.Order>)
    ensures TotalSales(a + b) == TotalSales(a) + TotalSales(b)
  {
    if a == [] {
      assert a + b == b;
    } else {
      assert (a + b)[1..] == a[1..] + b;
      TotalSalesAppend(a[1..], b);
    }
  }
}
