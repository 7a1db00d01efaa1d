/**
 The superseded order book revision, written the way it walks the books:
 an outer loop over the opposing levels and an inner loop over each level's
 orders, with a running quantity. Its console messages are left out. It is
 proved to leave both books exactly as the service implementation does.
 */
module LegacyOrderBook {
  import opened Orders
  import opened Books
  import opened Matching

  /** The inner loop over one level's orders, with `qty` still to fill. */
  method FillLevel(orders: seq<Order>, qty: int) returns (rest: seq<Order>, left: int)
    ensures (rest, left) == Fill(orders, qty)
  {
    var survivors: seq<Order> := [];
    var j := 0;
    left := qty;
    assert orders[j..] == orders;
    assert survivors + Fill(orders[j..], left).0 == Fill(orders, qty).0;
    while j < |orders| && left > 0
      invariant 0 <= j <= |orders|
      invariant survivors == [] || left == 0
      invariant Fill(orders, qty)
             == (survivors + Fill(orders[j..], left).0, Fill(orders[j..], left).1)
      decreases |orders| - j
    {
      var resting := orders[j];
      assert survivors == [];
      assert [] + Fill(orders[j..], left).0 == Fill(orders[j..], left).0;
      FillStep(orders, j, left);
      if resting.quantity > left {
        survivors, left := [resting.(quantity := resting.quantity - left)], 0;
      } else if resting.quantity == left {
        left := 0;
      } else {
        left := left - resting.quantity;
      }
      j := j + 1;
    }
    rest := survivors + orders[j..];
  }

  /** One turn of the inner loop, seen through the rest of the list. */
  lemma FillStep(orders: seq<Order>, j: nat, left: int)
    requires j < |orders| && left > 0
    ensures var resting := orders[j];
            var after := if resting.quantity > left then [resting.(quantity := resting.quantity - left)] else [];
            var left' := if resting.quantity >= left then 0 else left - resting.quantity;
            Fill(orders[j..], left) == (after + Fill(orders[j + 1..], left').0, Fill(orders[j + 1..], left').1)
            && (after == [] || left' == 0)
  {
    assert orders[j..][0] == orders[j] && orders[j..][1..] == orders[j + 1..];
    assert Fill(orders[j + 1..], 0) == (orders[j + 1..], 0);
    assert [] + Fill(orders[j + 1..], left - orders[j].quantity).0 == Fill(orders[j + 1..], left - orders[j].quantity).0;
  }

  /**
   The outer loop: visits the opposing levels in order while quantity
   remains, fills every crossing level and drops it once emptied.
   */
  method Match(side: Side, price: int, book: Book, qty: int) returns (book': Book, left: int)
    ensures (book', left) == Scan(side, price, book, qty)
  {
    var kept: Book := [];
    var i := 0;
    left := qty;
    assert book[i..] == book;
    assert kept + Scan(side, price, book[i..], left).0 == Scan(side, price, book, qty).0;
    while i < |book| && left > 0
      invariant 0 <= i <= |book|
      invariant Scan(side, price, book, qty)
             == (kept + Scan(side, price, book[i..], left).0, Scan(side, price, book[i..], left).1)
      decreases |book| - i
    {
      var entry := book[i];
      if Crosses(side, entry.key.price, price) {
        var rest, left' := FillLevel(entry.orders, left);
        var dropped := |rest| == 0 && |entry.orders| > 0;
        CrossingStep(side, price, book, i, left, kept);
        kept, left := if dropped then kept else kept + [Level(entry.key, rest)], left';
      } else {
        BlockedStep(side, price, book, i, left, kept);
        kept := kept + [entry];
      }
      i := i + 1;
    }
    assert Scan(side, price, book[i..], left) == (book[i..], left);
    book' := kept + book[i..];
  }

  /** One turn of the outer loop on a crossing level. */
  lemma CrossingStep(side: Side, price: int, book: Book, i: nat, left: int, kept: Book)
    requires i < |book| && left > 0 && Crosses(side, book[i].key.price, price)
    ensures var entry := book[i];
            var (rest, left') := Fill(entry.orders, left);
            var kept' := if |rest| == 0 && |entry.orders| > 0 then kept else kept + [Level(entry.key, rest)];
            var after := Scan(side, price, book[i + 1..], left');
            (kept + Scan(side, price, book[i..], left).0, Scan(side, price, book[i..], left).1)
            == (kept' + after.0, after.1)
  {
    var entry := book[i];
    assert book[i..][0] == entry && book[i..][1..] == book[i + 1..];
    var (rest, left') := Fill(entry.orders, left);
    var after := Scan(side, price, book[i + 1..], left');
    if |rest| == 0 && |entry.orders| > 0 {
      assert Scan(side, price, book[i..], left) == after;
    } else {
      assert Scan(side, price, book[i..], left) == ([Level(entry.key, rest)] + after.0, after.1);
      ConcatAssoc(kept, [Level(entry.key, rest)], after.0);
    }
  }

  /** One turn of the outer loop on a level that does not cross. */
  lemma BlockedStep(side: Side, price: int, book: Book, i: nat, left: int, kept: Book)
    requires i < |book| && left > 0 && !Crosses(side, book[i].key.price, price)
    ensures var after := Scan(side, price, book[i + 1..], left);
            (kept + Scan(side, price, book[i..], left).0, Scan(side, price, book[i..], left).1)
            == ((kept + [book[i]]) + after.0, after.1)
  {
    assert book[i..][0] == book[i] && book[i..][1..] == book[i + 1..];
    var after := Scan(side, price, book[i + 1..], left);
    assert Scan(side, price, book[i..], left) == ([book[i]] + after.0, after.1);
    ConcatAssoc(kept, [book[i]], after.0);
  }

  /** Matches the order, then files a positive remainder in the own book. */
  method ProcessOrder(opposing: Book, own: Book, o: Order) returns (opposing': Book, own': Book, result: Order)
    requires Sorted(Opposite(o.side), opposing) && Sorted(o.side, own)
    ensures var r := Matching.ProcessOrder(opposing, own, o);
            opposing' == r.opposing && own' == r.own && result == r.order
  {
    var quantity;
    opposing', quantity := Match(o.side, o.price, opposing, o.quantity);
    if quantity > 0 {
      result := o.(quantity := quantity);
      own' := Insert(o.side, own, result);
    } else {
      result := o;
      own' := own;
    }
  }

  /** Adds an order to the buy and sell books; same effect as `Matching.AddOrder`. */
  method AddOrder(buys: Book, sells: Book, o: Order) returns (buys': Book, sells': Book, result: Order)
    requires Sorted(Buy, buys) && Sorted(Sell, sells)
    ensures var r := Matching.AddOrder(buys, sells, o);
            buys' == r.buys && sells' == r.sells && result == r.order
  {
    if o.side == Buy {
      sells', buys', result := ProcessOrder(sells, buys, o);
    } else {
      buys', sells', result := ProcessOrder(buys, sells, o);
    }
  }
}
