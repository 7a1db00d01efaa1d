/**
 A limit order as a value: the mutable quantity field of the Java `Order`
 class becomes a field that operations return updated copies of.
 */
module Orders {
  import opened OrderKeys

  datatype Side = Buy | Sell

  datatype Order = Order(id: string, quantity: int, price: int, side: Side, time: int)

  /** The key an order is filed under in its own book. */
  function KeyOf(o: Order): Key
  {
    Key(o.price, o.time)
  }

  /**
   Two orders are filed under keys the comparison treats as one exactly when
   they share both price and creation time.
   */
  lemma SameLevel(a: Order, b: Order)
    ensures Compare(KeyOf(a), KeyOf(b)) == 0 <==> a.price == b.price && a.time == b.time
  {
  }

  /** Total quantity of a sequence of orders. */
  function Sum(orders: seq<Order>): int
  {
    if |orders| == 0 then 0 else orders[0].quantity + Sum(orders[1..])
  }

  predicate AllPositive(orders: seq<Order>)
  {
    forall i :: 0 <= i < |orders| ==> orders[i].quantity > 0
  }

  lemma {:induction false} SumAppend(a: seq<Order>, b: seq<Order>)
    ensures Sum(a + b) == Sum(a) + Sum(b)
  {
    if |a| == 0 {
      assert a + b == b;
    } else {
      assert (a + b)[1..] == a[1..] + b;
      SumAppend(a[1..], b);
    }
  }

  lemma {:induction false} SumPositive(orders: seq<Order>)
    requires AllPositive(orders)
    ensures Sum(orders) >= 0
    ensures |orders| > 0 ==> Sum(orders) > 0
  {
    if |orders| > 0 {
      SumPositive(orders[1..]);
    }
  }

  lemma AllPositivePrefix(a: seq<Order>, b: seq<Order>)
    requires AllPositive(a + b)
    ensures AllPositive(a)
  {
    forall i | 0 <= i < |a| ensures a[i].quantity > 0 {
      assert (a + b)[i] == a[i];
    }
  }

  lemma ConcatAssoc<T>(a: seq<T>, b: seq<T>, c: seq<T>)
    ensures a + (b + c) == (a + b) + c
  {
  }
}
