/**
 The matching step of the service order book: an incoming order walks the
 opposing book in iteration order, trades with every level whose price
 crosses its limit, and leaves any remainder in its own book.
 */
module Matching {
  import opened OrderKeys
  import opened Orders
  import opened Books

  function Opposite(side: Side): Side
  {
    if side == Buy then Sell else Buy
  }

  /**
   Whether a resting level at `restingPrice` can trade with an incoming order
   of `side` limited at `price`: a buy takes asks at or below its price, a
   sell takes bids at or above its price.
   */
  predicate Crosses(side: Side, restingPrice: int, price: int)
    ensures Crosses(side, restingPrice, price) <==>
              exists p :: Accepts(side, price, p) && Accepts(Opposite(side), restingPrice, p)
  {
    if side == Buy then
      assert restingPrice <= price ==> Accepts(Buy, price, price) && Accepts(Sell, restingPrice, price);
      restingPrice <= price
    else
      assert restingPrice >= price ==> Accepts(Sell, price, price) && Accepts(Buy, restingPrice, price);
      restingPrice >= price
  }

  /** A limit order of `side` limited at `limit` is willing to trade at price `p`. */
  predicate Accepts(side: Side, limit: int, p: int)
  {
    if side == Buy then p <= limit else p >= limit
  }

  /**
   `after` is `before` with its first order partially filled: same order,
   smaller but still positive quantity, the rest untouched.
   */
  predicate PartialHead(before: seq<Order>, after: seq<Order>)
  {
    && |before| == |after| > 0
    && after[1..] == before[1..]
    && after[0] == before[0].(quantity := after[0].quantity)
    && 0 < after[0].quantity < before[0].quantity
  }

  /**
   The walk over one level's list with `qty` still to fill: the head order is
   either reduced (ending the walk), or removed while the incoming quantity
   drops by its size. Returns the surviving list and the unfilled quantity.
   */
  function Fill(orders: seq<Order>, qty: int): (r: (seq<Order>, int))
    ensures Sum(orders) - Sum(r.0) == qty - r.1
    ensures qty <= 0 ==> r == (orders, qty)
    ensures qty > 0 ==> r.1 >= 0
    ensures r.1 > 0 ==> r.0 == []
  {
    if |orders| == 0 || qty <= 0 then (orders, qty)
    else
      var resting := orders[0];
      if resting.quantity > qty then
        ([resting.(quantity := resting.quantity - qty)] + orders[1..], 0)
      else if resting.quantity == qty then
        (orders[1..], 0)
      else
        Fill(orders[1..], qty - resting.quantity)
  }

  /**
   What survives a fill is a suffix of the list, except that its first order
   may have been partially filled, which happens only when the incoming
   quantity ran out. With positive resting quantities the unfilled quantity
   never exceeds the incoming one.
   */
  lemma {:induction false} FillShape(orders: seq<Order>, qty: int)
    ensures var r := Fill(orders, qty);
            && |r.0| <= |orders|
            && var untouched := orders[|orders| - |r.0|..];
               r.0 == untouched || (r.1 == 0 && PartialHead(untouched, r.0))
    ensures qty > 0 && AllPositive(orders) ==> Fill(orders, qty).1 <= qty
  {
    if |orders| > 0 && qty > 0 && orders[0].quantity < qty {
      FillShape(orders[1..], qty - orders[0].quantity);
      assert orders[1..][|orders[1..]| - |Fill(orders, qty).0|..]
          == orders[|orders| - |Fill(orders, qty).0|..];
    }
  }

  /** No order left in `book` can trade with an incoming `side` order at `price`. */
  predicate NothingCrosses(side: Side, price: int, book: Book)
  {
    forall i :: 0 <= i < |book| && Crosses(side, book[i].key.price, price) ==> book[i].orders == []
  }

  /**
   The walk over the opposing book with `qty` still to fill. Every level is
   visited while quantity remains, also after a level that does not cross; a
   crossing level is filled and dropped once its list has been emptied.
   */
  function Scan(side: Side, price: int, book: Book, qty: int): (r: (Book, int))
    ensures qty <= 0 ==> r == (book, qty)
    ensures qty > 0 ==> r.1 >= 0
    ensures KeySet(r.0) <= KeySet(book)
    ensures r.1 > 0 ==> NothingCrosses(side, price, r.0)
  {
    if |book| == 0 || qty <= 0 then (book, qty)
    else
      var level := book[0];
      if Crosses(side, level.key.price, price) then
        var (rest, left) := Fill(level.orders, qty);
        var (tail, remaining) := Scan(side, price, book[1..], left);
        if |rest| == 0 && |level.orders| > 0 then (tail, remaining)
        else ([Level(level.key, rest)] + tail, remaining)
      else
        var (tail, remaining) := Scan(side, price, book[1..], qty);
        ([level] + tail, remaining)
  }

  /** Quantity is conserved: what left the book is what the incoming order filled. */
  lemma {:induction false} ScanConserves(side: Side, price: int, book: Book, qty: int)
    ensures Total(book) - Total(Scan(side, price, book, qty).0) == qty - Scan(side, price, book, qty).1
  {
    if |book| == 0 || qty <= 0 {
    } else {
      var level := book[0];
      assert book == [level] + book[1..];
      TotalCons(level, book[1..]);
      if Crosses(side, level.key.price, price) {
        var (rest, left) := Fill(level.orders, qty);
        var (tail, remaining) := Scan(side, price, book[1..], left);
        ScanConserves(side, price, book[1..], left);
        TotalCons(Level(level.key, rest), tail);
      } else {
        var (tail, remaining) := Scan(side, price, book[1..], qty);
        ScanConserves(side, price, book[1..], qty);
        TotalCons(level, tail);
      }
    }
  }

  /** The number of leading levels of `book` that cross `price`. */
  function CrossCount(side: Side, price: int, book: Book): (n: nat)
    ensures n <= |book|
    ensures forall i :: 0 <= i < n ==> Crosses(side, book[i].key.price, price)
    ensures n < |book| ==> !Crosses(side, book[n].key.price, price)
  {
    if |book| == 0 || !Crosses(side, book[0].key.price, price) then 0
    else 1 + CrossCount(side, price, book[1..])
  }

  /**
   In a sorted opposing book the crossing levels are exactly a prefix: once a
   level fails to cross, no later level crosses either.
   */
  lemma {:induction false} CrossingIsPrefix(side: Side, price: int, book: Book)
    requires Sorted(Opposite(side), book)
    ensures forall i :: 0 <= i < |book| ==>
              (Crosses(side, book[i].key.price, price) <==> i < CrossCount(side, price, book))
  {
    if |book| > 0 {
      CrossingIsPrefix(side, price, book[1..]);
      if !Crosses(side, book[0].key.price, price) {
        forall i | 0 < i < |book| ensures !Crosses(side, book[i].key.price, price) {
          assert Precedes(Opposite(side), book[0].key, book[i].key);
        }
      }
    }
  }

  /** A book none of whose levels cross is left as it is. */
  lemma {:induction false} ScanNoCross(side: Side, price: int, book: Book, qty: int)
    requires forall i :: 0 <= i < |book| ==> !Crosses(side, book[i].key.price, price)
    ensures Scan(side, price, book, qty) == (book, qty)
  {
    if |book| > 0 && qty > 0 {
      ScanNoCross(side, price, book[1..], qty);
      assert book == [book[0]] + book[1..];
    }
  }

  /** Filling a concatenation fills the first part, then the second with what is left. */
  lemma {:induction false} FillAppend(a: seq<Order>, b: seq<Order>, qty: int)
    ensures var first := Fill(a, qty);
            Fill(a + b, qty) == (first.0 + Fill(b, first.1).0, Fill(b, first.1).1)
  {
    if |a| == 0 {
      assert a + b == b;
      assert Fill(a, qty) == (a, qty);
      assert a + Fill(b, qty).0 == Fill(b, qty).0;
    } else if qty > 0 {
      var ab := a + b;
      assert ab[0] == a[0];
      assert ab[1..] == a[1..] + b;
      var resting := a[0];
      if resting.quantity > qty {
        var reduced := resting.(quantity := resting.quantity - qty);
        assert Fill(ab, qty) == ([reduced] + ab[1..], 0);
        assert Fill(a, qty) == ([reduced] + a[1..], 0);
        assert Fill(b, 0) == (b, 0);
        assert [reduced] + ab[1..] == ([reduced] + a[1..]) + b;
      } else if resting.quantity == qty {
        assert Fill(ab, qty) == (ab[1..], 0);
        assert Fill(a, qty) == (a[1..], 0);
        assert Fill(b, 0) == (b, 0);
      } else {
        assert Fill(ab, qty) == Fill(a[1..] + b, qty - resting.quantity);
        assert Fill(a, qty) == Fill(a[1..], qty - resting.quantity);
        FillAppend(a[1..], b, qty - resting.quantity);
      }
    }
  }

  /**
   The walk over `book` acts as one FIFO fill of the orders of its leading
   crossing levels, taken in iteration order, and leaves the orders of every
   later level untouched.
   */
  ghost predicate ScanMatchesFill(side: Side, price: int, book: Book, qty: int)
  {
    var n := CrossCount(side, price, book);
    var filled := Fill(Flatten(book[..n]), qty);
    && Flatten(Scan(side, price, book, qty).0) == filled.0 + Flatten(book[n..])
    && Scan(side, price, book, qty).1 == filled.1
  }

  /**
   Priority: on a sorted opposing book the level-by-level walk consumes the
   crossing orders strictly in iteration order, as one FIFO queue.
   */
  lemma {:induction false} ScanIsFill(side: Side, price: int, book: Book, qty: int)
    requires Sorted(Opposite(side), book)
    ensures ScanMatchesFill(side, price, book, qty)
    decreases |book|, 1
  {
    var n := CrossCount(side, price, book);
    if |book| == 0 {
    } else if qty <= 0 {
      assert book == book[..n] + book[n..];
      FlattenAppend(book[..n], book[n..]);
    } else if Crosses(side, book[0].key.price, price) {
      ScanIsFillCrossing(side, price, book, qty);
    } else {
      var level := book[0];
      CrossingIsPrefix(side, price, book);
      ScanNoCross(side, price, book[1..], qty);
      assert book == [level] + book[1..];
      assert Scan(side, price, book, qty) == (book, qty);
      assert book[..n] == [];
      assert Flatten(book[..n]) == [];
      assert Fill([], qty) == ([], qty);
      assert book[n..] == book;
    }
  }

  /** The step of `ScanIsFill` where the first level crosses. */
  lemma {:induction false} ScanIsFillCrossing(side: Side, price: int, book: Book, qty: int)
    requires Sorted(Opposite(side), book)
    requires |book| > 0 && qty > 0 && Crosses(side, book[0].key.price, price)
    ensures ScanMatchesFill(side, price, book, qty)
    decreases |book|, 0
  {
    var n := CrossCount(side, price, book);
    var level := book[0];
    var m := CrossCount(side, price, book[1..]);
    var filledHere := Fill(level.orders, qty);
    var rest, left := filledHere.0, filledHere.1;
    var later := Flatten(book[1..][..m]);
    var after := Flatten(book[1..][m..]);
    var filledLater := Fill(later, left);
    var tail := Scan(side, price, book[1..], left);

    assert Flatten(tail.0) == filledLater.0 + after && tail.1 == filledLater.1 by {
      ScanIsFill(side, price, book[1..], left);
    }
    assert n == m + 1 && Flatten(book[..n]) == level.orders + later && Flatten(book[n..]) == after by {
      CrossingPrefixSplit(side, price, book);
    }
    assert Fill(Flatten(book[..n]), qty) == (rest + filledLater.0, filledLater.1) by {
      FillAppend(level.orders, later, qty);
    }
    var dropped := |rest| == 0 && |level.orders| > 0;
    var result := if dropped then tail else ([Level(level.key, rest)] + tail.0, tail.1);
    assert Scan(side, price, book, qty) == result by {
      ScanCrossingStep(side, price, book, qty);
    }
    if dropped {
      assert rest == [];
      assert result.0 == tail.0;
      assert rest + filledLater.0 == filledLater.0;
    } else {
      var lv := Level(level.key, rest);
      assert result.0 == [lv] + tail.0;
      FlattenCons(lv, tail.0);
      ConcatAssoc(rest, filledLater.0, after);
    }
  }

  /** Splits the crossing prefix of a book whose first level crosses. */
  lemma CrossingPrefixSplit(side: Side, price: int, book: Book)
    requires |book| > 0 && Crosses(side, book[0].key.price, price)
    ensures var n := CrossCount(side, price, book);
            var m := CrossCount(side, price, book[1..]);
            && n == m + 1
            && Flatten(book[..n]) == book[0].orders + Flatten(book[1..][..m])
            && Flatten(book[n..]) == Flatten(book[1..][m..])
  {
    var n := CrossCount(side, price, book);
    var m := CrossCount(side, price, book[1..]);
    assert book[..n] == [book[0]] + book[1..][..m];
    FlattenCons(book[0], book[1..][..m]);
    assert book[n..] == book[1..][m..];
  }

  /** One unfolding of `Scan` at a crossing first level. */
  lemma ScanCrossingStep(side: Side, price: int, book: Book, qty: int)
    requires |book| > 0 && qty > 0 && Crosses(side, book[0].key.price, price)
    ensures var level := book[0];
            var (rest, left) := Fill(level.orders, qty);
            var tail := Scan(side, price, book[1..], left);
            Scan(side, price, book, qty)
              == if |rest| == 0 && |level.orders| > 0 then tail else ([Level(level.key, rest)] + tail.0, tail.1)
  {
  }

  /** The walk keeps the opposing book sorted and keeps its lower bounds. */
  lemma {:induction false} ScanSorted(side: Side, price: int, book: Book, qty: int)
    requires Sorted(Opposite(side), book)
    ensures Sorted(Opposite(side), Scan(side, price, book, qty).0)
    ensures forall k :: AllAfter(Opposite(side), k, book)
                        ==> AllAfter(Opposite(side), k, Scan(side, price, book, qty).0)
  {
    var bookSide := Opposite(side);
    if |book| > 0 && qty > 0 {
      var level := book[0];
      assert AllAfter(bookSide, level.key, book[1..]);
      if Crosses(side, level.key.price, price) {
        var (rest, left) := Fill(level.orders, qty);
        ScanSorted(side, price, book[1..], left);
      } else {
        ScanSorted(side, price, book[1..], qty);
      }
      forall k | AllAfter(bookSide, k, book)
        ensures AllAfter(bookSide, k, Scan(side, price, book, qty).0)
      {
        assert AllAfter(bookSide, k, book[1..]);
      }
    }
  }

  /** Orders that survive a fill still fit their level. */
  lemma FillFits(side: Side, key: Key, orders: seq<Order>, qty: int)
    requires forall j :: 0 <= j < |orders| ==> OrderFits(side, key, orders[j])
    ensures forall j :: 0 <= j < |Fill(orders, qty).0| ==> OrderFits(side, key, Fill(orders, qty).0[j])
  {
    FillShape(orders, qty);
    var r := Fill(orders, qty);
    var untouched := orders[|orders| - |r.0|..];
    assert forall j :: 0 <= j < |untouched| ==> OrderFits(side, key, untouched[j]);
    if r.0 != untouched {
      assert r.0[1..] == untouched[1..];
      forall j | 0 <= j < |r.0| ensures OrderFits(side, key, r.0[j]) {
        if j > 0 {
          assert r.0[j] == untouched[j];
        }
      }
    }
  }

  /** The walk keeps every level of a well-formed opposing book non-empty and fitting. */
  lemma {:induction false} ScanWellFormed(side: Side, price: int, book: Book, qty: int)
    requires WellFormed(Opposite(side), book)
    ensures WellFormed(Opposite(side), Scan(side, price, book, qty).0)
  {
    ScanSorted(side, price, book, qty);
    if |book| > 0 && qty > 0 {
      var level := book[0];
      assert LevelFits(Opposite(side), level);
      if Crosses(side, level.key.price, price) {
        var (rest, left) := Fill(level.orders, qty);
        ScanWellFormed(side, price, book[1..], left);
        FillFits(Opposite(side), level.key, level.orders, qty);
      } else {
        ScanWellFormed(side, price, book[1..], qty);
      }
    }
  }

  /** The result of processing one order against the opposing and own books. */
  datatype Processed = Processed(opposing: Book, own: Book, remaining: int, order: Order)

  /**
   Matches `o` against the opposing book, then files any positive remainder
   in the own book under the order's key. A fully filled order is returned
   with its quantity field as it came in.
   */
  function ProcessOrder(opposing: Book, own: Book, o: Order): (r: Processed)
    requires Sorted(Opposite(o.side), opposing) && Sorted(o.side, own)
    ensures Sorted(Opposite(o.side), r.opposing) && Sorted(o.side, r.own)
    ensures o.quantity <= 0 ==> r == Processed(opposing, own, o.quantity, o)
    ensures o.quantity > 0 ==> r.remaining >= 0
    ensures r.order == if r.remaining > 0 then o.(quantity := r.remaining) else o
    ensures Total(opposing) - Total(r.opposing) == o.quantity - r.remaining
    ensures Total(r.own) == Total(own) + (if r.remaining > 0 then r.remaining else 0)
    ensures r.remaining > 0 ==> NothingCrosses(o.side, o.price, r.opposing)
    ensures KeySet(r.opposing) <= KeySet(opposing)
    ensures KeySet(r.own) == KeySet(own) + (if r.remaining > 0 then {KeyOf(o)} else {})
  {
    var (rest, remaining) := Scan(o.side, o.price, opposing, o.quantity);
    ScanSorted(o.side, o.price, opposing, o.quantity);
    ScanConserves(o.side, o.price, opposing, o.quantity);
    if remaining > 0 then
      var rested := o.(quantity := remaining);
      InsertSorted(o.side, own, rested);
      InsertTotal(o.side, own, rested);
      Processed(rest, Insert(o.side, own, rested), remaining, rested)
    else
      Processed(rest, own, remaining, o)
  }

  /** Against positive resting quantities, the remainder never exceeds the order. */
  lemma ProcessOrderBounded(opposing: Book, own: Book, o: Order)
    requires Sorted(Opposite(o.side), opposing) && Sorted(o.side, own)
    requires AllPositive(Flatten(opposing))
    ensures ProcessOrder(opposing, own, o).remaining <= o.quantity
  {
    if o.quantity > 0 {
      var n := CrossCount(o.side, o.price, opposing);
      var crossing := Flatten(opposing[..n]);
      assert AllPositive(crossing) by {
        assert opposing == opposing[..n] + opposing[n..];
        FlattenAppend(opposing[..n], opposing[n..]);
        AllPositivePrefix(crossing, Flatten(opposing[n..]));
      }
      assert ProcessOrder(opposing, own, o).remaining == Fill(crossing, o.quantity).1 by {
        ScanIsFill(o.side, o.price, opposing, o.quantity);
      }
      FillShape(crossing, o.quantity);
    }
  }

  /**
   The own book as a map: only the order's key changes, gaining the rested
   order at the end of its list, and only when a remainder is left.
   */
  lemma ProcessOrderOwnBook(opposing: Book, own: Book, o: Order, k: Key)
    requires Sorted(Opposite(o.side), opposing) && Sorted(o.side, own)
    ensures var r := ProcessOrder(opposing, own, o);
            Lookup(r.own, k) == if r.remaining > 0 && k == KeyOf(o) then Lookup(own, k) + [r.order]
                                else Lookup(own, k)
  {
    var r := ProcessOrder(opposing, own, o);
    if r.remaining > 0 {
      InsertLookup(o.side, own, r.order, k);
    }
  }

  /**
   The book invariant survives one order: resting quantities stay positive,
   no level is left empty, keys stay sorted.
   */
  lemma ProcessOrderWellFormed(opposing: Book, own: Book, o: Order)
    requires WellFormed(Opposite(o.side), opposing) && WellFormed(o.side, own)
    ensures WellFormed(Opposite(o.side), ProcessOrder(opposing, own, o).opposing)
    ensures WellFormed(o.side, ProcessOrder(opposing, own, o).own)
  {
    var r := ProcessOrder(opposing, own, o);
    ScanWellFormed(o.side, o.price, opposing, o.quantity);
    if r.remaining > 0 {
      InsertWellFormed(o.side, own, r.order);
    }
  }

  /**
   An order whose price crosses no opposing level trades nothing: the
   opposing book is unchanged and the whole order rests.
   */
  lemma NonCrossingRests(opposing: Book, own: Book, o: Order)
    requires Sorted(Opposite(o.side), opposing) && Sorted(o.side, own)
    requires |opposing| == 0 || !Crosses(o.side, opposing[0].key.price, o.price)
    ensures ProcessOrder(opposing, own, o).opposing == opposing
    ensures ProcessOrder(opposing, own, o).remaining == o.quantity
  {
    CrossingIsPrefix(o.side, o.price, opposing);
    ScanNoCross(o.side, o.price, opposing, o.quantity);
  }

  /** The outcome of adding one order to the two books. */
  datatype Outcome = Outcome(buys: Book, sells: Book, remaining: int, order: Order)

  /** Quantity an order adds to the buy-minus-sell balance when submitted. */
  function Signed(o: Order): int
  {
    if o.side == Buy then o.quantity else -o.quantity
  }

  /**
   Adds an order: a buy is matched against the sell book and rests in the buy
   book, a sell the other way round.
   */
  function AddOrder(buys: Book, sells: Book, o: Order): (r: Outcome)
    requires Sorted(Buy, buys) && Sorted(Sell, sells)
    ensures Sorted(Buy, r.buys) && Sorted(Sell, r.sells)
    ensures o.quantity <= 0 ==> r.buys == buys && r.sells == sells
    ensures o.quantity > 0 ==> Total(r.buys) - Total(r.sells) == Total(buys) - Total(sells) + Signed(o)
    ensures o.side == Buy ==> KeySet(r.sells) <= KeySet(sells)
    ensures o.side == Sell ==> KeySet(r.buys) <= KeySet(buys)
  {
    if o.side == Buy then
      var p := ProcessOrder(sells, buys, o);
      Outcome(p.own, p.opposing, p.remaining, p.order)
    else
      var p := ProcessOrder(buys, sells, o);
      Outcome(p.opposing, p.own, p.remaining, p.order)
  }

  /** Both books satisfy the invariant. */
  predicate BooksWellFormed(buys: Book, sells: Book)
  {
    WellFormed(Buy, buys) && WellFormed(Sell, sells)
  }

  /** Every bid price is strictly below every ask price. */
  predicate NotCrossed(buys: Book, sells: Book)
  {
    forall b, a :: b in KeySet(buys) && a in KeySet(sells) ==> b.price < a.price
  }

  lemma AddOrderWellFormed(buys: Book, sells: Book, o: Order)
    requires BooksWellFormed(buys, sells)
    ensures var r := AddOrder(buys, sells, o); BooksWellFormed(r.buys, r.sells)
  {
    if o.side == Buy {
      ProcessOrderWellFormed(sells, buys, o);
    } else {
      ProcessOrderWellFormed(buys, sells, o);
    }
  }

  /** A well-formed book in which nothing crosses `price` has only non-crossing keys. */
  lemma NothingCrossesKeys(side: Side, price: int, book: Book, k: Key)
    requires WellFormed(Opposite(side), book)
    requires NothingCrosses(side, price, book)
    requires k in KeySet(book)
    ensures !Crosses(side, k.price, price)
  {
    KeySetIndex(book, k);
    var i :| 0 <= i < |book| && book[i].key == k;
    assert LevelFits(Opposite(side), book[i]);
  }

  /** Adding an order never leaves the book crossed. */
  lemma AddOrderNotCrossed(buys: Book, sells: Book, o: Order)
    requires BooksWellFormed(buys, sells) && NotCrossed(buys, sells)
    ensures var r := AddOrder(buys, sells, o); NotCrossed(r.buys, r.sells)
  {
    var r := AddOrder(buys, sells, o);
    AddOrderWellFormed(buys, sells, o);
    if o.side == Buy {
      if r.remaining > 0 {
        forall b, a | b in KeySet(r.buys) && a in KeySet(r.sells) ensures b.price < a.price {
          if b == KeyOf(o) {
            NothingCrossesKeys(Buy, o.price, r.sells, a);
          }
        }
      }
    } else {
      if r.remaining > 0 {
        forall b, a | b in KeySet(r.buys) && a in KeySet(r.sells) ensures b.price < a.price {
          if a == KeyOf(o) {
            NothingCrossesKeys(Sell, o.price, r.buys, b);
          }
        }
      }
    }
  }

  /** Adds a sequence of orders one after another, as atomic steps. */
  function Run(buys: Book, sells: Book, orders: seq<Order>): (r: (Book, Book))
    requires Sorted(Buy, buys) && Sorted(Sell, sells)
    ensures Sorted(Buy, r.0) && Sorted(Sell, r.1)
    decreases |orders|
  {
    if |orders| == 0 then (buys, sells)
    else
      var step := AddOrder(buys, sells, orders[0]);
      Run(step.buys, step.sells, orders[1..])
  }

  function SubmittedBalance(orders: seq<Order>): int
  {
    if |orders| == 0 then 0 else Signed(orders[0]) + SubmittedBalance(orders[1..])
  }

  /**
   Across any sequence of positive-quantity orders, resting buy quantity minus
   resting sell quantity moves by submitted buy minus submitted sell quantity.
   */
  lemma {:induction false} RunBalance(buys: Book, sells: Book, orders: seq<Order>)
    requires Sorted(Buy, buys) && Sorted(Sell, sells)
    requires AllPositive(orders)
    ensures var r := Run(buys, sells, orders);
            Total(r.0) - Total(r.1) == Total(buys) - Total(sells) + SubmittedBalance(orders)
    decreases |orders|
  {
    if |orders| > 0 {
      var step := AddOrder(buys, sells, orders[0]);
      assert orders[0].quantity > 0;
      assert AllPositive(orders[1..]);
      RunBalance(step.buys, step.sells, orders[1..]);
    }
  }

  /** The buy order listing: every bid in the buy book's iteration order. */
  function BuyOrders(buys: Book): (r: seq<Order>)
    ensures WellFormed(Buy, buys) ==> InPriorityOrder(Buy, r)
    ensures WellFormed(Buy, buys) ==> forall k :: OrdersAt(r, k) == Lookup(buys, k)
    ensures WellFormed(Buy, buys) ==> forall j :: 0 <= j < |r| ==> r[j].quantity > 0 && r[j].side == Buy
  {
    if WellFormed(Buy, buys) then ListingFaithful(Buy, buys); Flatten(buys) else Flatten(buys)
  }

  /** The sell order listing: every ask in the sell book's iteration order. */
  function SellOrders(sells: Book): (r: seq<Order>)
    ensures WellFormed(Sell, sells) ==> InPriorityOrder(Sell, r)
    ensures WellFormed(Sell, sells) ==> forall k :: OrdersAt(r, k) == Lookup(sells, k)
    ensures WellFormed(Sell, sells) ==> forall j :: 0 <= j < |r| ==> r[j].quantity > 0 && r[j].side == Sell
  {
    if WellFormed(Sell, sells) then ListingFaithful(Sell, sells); Flatten(sells) else Flatten(sells)
  }

  /**
   The listing of a well-formed book holds positive orders of that side, in
   priority order, and per key exactly the book's list in insertion order.
   */
  lemma ListingFaithful(side: Side, book: Book)
    requires WellFormed(side, book)
    ensures InPriorityOrder(side, Flatten(book))
    ensures forall k :: OrdersAt(Flatten(book), k) == Lookup(book, k)
    ensures forall j :: 0 <= j < |Flatten(book)| ==>
              Flatten(book)[j].quantity > 0 && Flatten(book)[j].side == side
  {
    FlattenInPriorityOrder(side, book);
    FlattenFits(side, book);
    forall k ensures OrdersAt(Flatten(book), k) == Lookup(book, k) {
      FlattenOrdersAt(side, book, k);
    }
  }
}
