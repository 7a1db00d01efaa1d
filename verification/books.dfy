/**
 One side of the order book: a sorted map from key to the list of orders that
 share that exact key, modelled as a sequence of levels strictly ordered by the
 side's comparator. The sell book uses the natural key order; the buy book
 uses the reversed order, so at equal price the LATER creation time comes
 first. Within one level, orders keep their insertion order.
 */
module Books {
  import opened OrderKeys
  import opened Orders

  datatype Level = Level(key: Key, orders: seq<Order>)

  type Book = seq<Level>

  /** The comparator of the book holding orders of `side`. */
  function Comparator(side: Side, a: Key, b: Key): (r: int)
    ensures r == 0 <==> a == b
    ensures side == Sell ==> (r < 0 <==> a.price < b.price || (a.price == b.price && a.time < b.time))
    ensures side == Buy ==> (r < 0 <==> a.price > b.price || (a.price == b.price && a.time > b.time))
  {
    if side == Sell then Compare(a, b) else Compare(b, a)
  }

  /** Key `a` is iterated before key `b` in the book of `side`. */
  predicate Precedes(side: Side, a: Key, b: Key)
  {
    Comparator(side, a, b) < 0
  }

  /** Iteration order of a book: a strictly sorted sequence of keys. */
  predicate Sorted(side: Side, book: Book)
  {
    forall i, j :: 0 <= i < j < |book| ==> Precedes(side, book[i].key, book[j].key)
  }

  predicate OrderFits(side: Side, key: Key, o: Order)
  {
    o.quantity > 0 && o.side == side && KeyOf(o) == key
  }

  predicate LevelFits(side: Side, lv: Level)
  {
    |lv.orders| > 0 && forall j :: 0 <= j < |lv.orders| ==> OrderFits(side, lv.key, lv.orders[j])
  }

  /**
   The book invariant: sorted keys, no empty level, every resting order has
   positive quantity, belongs to this side and sits under its own key.
   */
  predicate WellFormed(side: Side, book: Book)
  {
    Sorted(side, book) && forall i :: 0 <= i < |book| ==> LevelFits(side, book[i])
  }

  /** The orders of a book in iteration order, one level after another. */
  function Flatten(book: Book): (r: seq<Order>)
    ensures forall o :: o in r <==> exists i :: 0 <= i < |book| && o in book[i].orders
  {
    if |book| == 0 then [] else book[0].orders + Flatten(book[1..])
  }

  function Total(book: Book): int
  {
    Sum(Flatten(book))
  }

  function KeySet(book: Book): set<Key>
  {
    if |book| == 0 then {} else {book[0].key} + KeySet(book[1..])
  }

  /** Every level of `book` comes after key `k`. */
  predicate AllAfter(side: Side, k: Key, book: Book)
  {
    forall i :: 0 <= i < |book| ==> Precedes(side, k, book[i].key)
  }

  /** The map view of a book: the list filed under `k`, empty when absent. */
  function Lookup(book: Book, k: Key): seq<Order>
  {
    if |book| == 0 then []
    else if book[0].key == k then book[0].orders
    else Lookup(book[1..], k)
  }

  /**
   Files `o` under its key: appended to the existing list, or put in a new
   level at the position the comparator dictates.
   */
  function Insert(side: Side, book: Book, o: Order): (r: Book)
    ensures KeySet(r) == KeySet(book) + {KeyOf(o)}
    ensures |book| <= |r| <= |book| + 1
  {
    var k := KeyOf(o);
    if |book| == 0 then [Level(k, [o])]
    else if Comparator(side, k, book[0].key) == 0 then
      [Level(k, book[0].orders + [o])] + book[1..]
    else if Comparator(side, k, book[0].key) < 0 then
      [Level(k, [o])] + book
    else
      [book[0]] + Insert(side, book[1..], o)
  }

  /** `Insert` keeps the book sorted, and keeps any lower bound below the new key. */
  lemma {:induction false} InsertSorted(side: Side, book: Book, o: Order)
    requires Sorted(side, book)
    ensures Sorted(side, Insert(side, book, o))
    ensures forall k :: AllAfter(side, k, book) && Precedes(side, k, KeyOf(o))
                        ==> AllAfter(side, k, Insert(side, book, o))
  {
    var key := KeyOf(o);
    var r := Insert(side, book, o);
    if |book| == 0 {
    } else if Comparator(side, key, book[0].key) == 0 {
      assert AllAfter(side, key, book[1..]);
      SortedCons(side, r[0], book[1..]);
    } else if Comparator(side, key, book[0].key) < 0 {
      assert AllAfter(side, key, book);
      SortedCons(side, r[0], book);
    } else {
      InsertSorted(side, book[1..], o);
      InsertAfter(side, book[1..], o, book[0].key);
      SortedCons(side, book[0], Insert(side, book[1..], o));
    }
    forall k | AllAfter(side, k, book) && Precedes(side, k, key)
      ensures AllAfter(side, k, r)
    {
      InsertAfter(side, book, o, k);
    }
  }

  /** A lower bound of every key in the book that is below the new key stays one. */
  lemma {:induction false} InsertAfter(side: Side, book: Book, o: Order, k: Key)
    requires AllAfter(side, k, book) && Precedes(side, k, KeyOf(o))
    ensures AllAfter(side, k, Insert(side, book, o))
  {
    var key := KeyOf(o);
    if |book| > 0 && Comparator(side, key, book[0].key) > 0 {
      assert AllAfter(side, k, book[1..]);
      InsertAfter(side, book[1..], o, k);
      var r := Insert(side, book, o);
      assert r == [book[0]] + Insert(side, book[1..], o);
      forall i | 0 <= i < |r| ensures Precedes(side, k, r[i].key) {
        if i > 0 {
          assert r[i] == Insert(side, book[1..], o)[i - 1];
        }
      }
    }
  }

  /** A level whose key precedes every key of a sorted book can head it. */
  lemma SortedCons(side: Side, lv: Level, rest: Book)
    requires AllAfter(side, lv.key, rest) && Sorted(side, rest)
    ensures Sorted(side, [lv] + rest)
  {
    var b := [lv] + rest;
    forall i, j | 0 <= i < j < |b| ensures Precedes(side, b[i].key, b[j].key) {
      assert b[j] == rest[j - 1];
      if i > 0 {
        assert b[i] == rest[i - 1];
      }
    }
  }

  /**
   Map semantics of `Insert`: the list under the order's key gains the order
   at its end, every other key keeps its list.
   */
  lemma {:induction false} InsertLookup(side: Side, book: Book, o: Order, k: Key)
    requires Sorted(side, book)
    ensures Lookup(Insert(side, book, o), k)
         == if k == KeyOf(o) then Lookup(book, k) + [o] else Lookup(book, k)
  {
    var key := KeyOf(o);
    if |book| == 0 {
    } else if Comparator(side, key, book[0].key) == 0 {
    } else if Comparator(side, key, book[0].key) < 0 {
      LookupAbsentBefore(side, book, key);
    } else {
      InsertLookup(side, book[1..], o, k);
    }
  }

  /** In a sorted book, a key that precedes the first level is absent. */
  lemma {:induction false} LookupAbsentBefore(side: Side, book: Book, k: Key)
    requires Sorted(side, book)
    requires |book| > 0 && Precedes(side, k, book[0].key)
    ensures Lookup(book, k) == []
    ensures k !in KeySet(book)
  {
    if |book| > 1 {
      assert Precedes(side, book[0].key, book[1].key);
      LookupAbsentBefore(side, book[1..], k);
    }
  }

  lemma {:induction false} FlattenAppend(a: Book, b: Book)
    ensures Flatten(a + b) == Flatten(a) + Flatten(b)
  {
    if |a| == 0 {
      assert a + b == b;
    } else {
      assert (a + b)[1..] == a[1..] + b;
      FlattenAppend(a[1..], b);
    }
  }

  lemma FlattenCons(lv: Level, book: Book)
    ensures Flatten([lv] + book) == lv.orders + Flatten(book)
  {
    assert ([lv] + book)[1..] == book;
  }

  /** The total of a book split at its first level. */
  lemma TotalCons(lv: Level, book: Book)
    ensures Total([lv] + book) == Sum(lv.orders) + Total(book)
  {
    assert ([lv] + book)[1..] == book;
    SumAppend(lv.orders, Flatten(book));
  }

  lemma {:induction false} KeySetIndex(book: Book, k: Key)
    requires k in KeySet(book)
    ensures exists i :: 0 <= i < |book| && book[i].key == k
  {
    if book[0].key != k {
      KeySetIndex(book[1..], k);
      var i :| 0 <= i < |book[1..]| && book[1..][i].key == k;
      assert book[i + 1].key == k;
    }
  }

  /** Filing a resting order adds exactly its quantity to the book. */
  lemma {:induction false} InsertTotal(side: Side, book: Book, o: Order)
    ensures Total(Insert(side, book, o)) == Total(book) + o.quantity
  {
    var k := KeyOf(o);
    var r := Insert(side, book, o);
    if |book| == 0 {
      TotalCons(Level(k, [o]), []);
      assert r == [Level(k, [o])] + [];
    } else {
      assert book == [book[0]] + book[1..];
      TotalCons(book[0], book[1..]);
      if Comparator(side, k, book[0].key) == 0 {
        TotalCons(Level(k, book[0].orders + [o]), book[1..]);
        SumAppend(book[0].orders, [o]);
      } else if Comparator(side, k, book[0].key) < 0 {
        TotalCons(Level(k, [o]), book);
      } else {
        InsertTotal(side, book[1..], o);
        TotalCons(book[0], Insert(side, book[1..], o));
      }
    }
  }

  /** Filing an order that fits this side keeps the book invariant. */
  lemma {:induction false} InsertWellFormed(side: Side, book: Book, o: Order)
    requires WellFormed(side, book)
    requires OrderFits(side, KeyOf(o), o)
    ensures WellFormed(side, Insert(side, book, o))
  {
    InsertSorted(side, book, o);
    var k := KeyOf(o);
    var r := Insert(side, book, o);
    if |book| > 0 && Comparator(side, k, book[0].key) > 0 {
      InsertWellFormed(side, book[1..], o);
      assert r == [book[0]] + Insert(side, book[1..], o);
    }
  }

  /**
   A flattened book lists its orders in priority order: no order is preceded
   by one whose key the comparator puts after its own.
   */
  predicate InPriorityOrder(side: Side, orders: seq<Order>)
  {
    forall i, j :: 0 <= i < j < |orders| ==> !Precedes(side, KeyOf(orders[j]), KeyOf(orders[i]))
  }

  lemma {:induction false} FlattenAfter(side: Side, k: Key, book: Book)
    requires forall i :: 0 <= i < |book| ==> LevelFits(side, book[i])
    requires AllAfter(side, k, book)
    ensures forall j :: 0 <= j < |Flatten(book)| ==> Precedes(side, k, KeyOf(Flatten(book)[j]))
  {
    if |book| > 0 {
      FlattenAfter(side, k, book[1..]);
      var f := Flatten(book);
      forall j | 0 <= j < |f| ensures Precedes(side, k, KeyOf(f[j])) {
        if j < |book[0].orders| {
          assert f[j] == book[0].orders[j];
        } else {
          assert f[j] == Flatten(book[1..])[j - |book[0].orders|];
        }
      }
    }
  }

  /** The flattened book (the buy or sell order listing) is in priority order. */
  lemma {:induction false} FlattenInPriorityOrder(side: Side, book: Book)
    requires WellFormed(side, book)
    ensures InPriorityOrder(side, Flatten(book))
  {
    if |book| > 0 {
      var head := book[0].orders;
      var rest := Flatten(book[1..]);
      FlattenInPriorityOrder(side, book[1..]);
      FlattenAfter(side, book[0].key, book[1..]);
      var f := Flatten(book);
      assert f == head + rest;
      forall i, j | 0 <= i < j < |f| ensures !Precedes(side, KeyOf(f[j]), KeyOf(f[i])) {
        if j < |head| {
          assert KeyOf(f[i]) == KeyOf(f[j]);
        } else if i < |head| {
          assert Precedes(side, book[0].key, KeyOf(rest[j - |head|]));
        } else {
          assert f[i] == rest[i - |head|] && f[j] == rest[j - |head|];
        }
      }
    }
  }

  /** The orders of a listing filed under key `k`, in listing order. */
  function OrdersAt(orders: seq<Order>, k: Key): seq<Order>
  {
    if |orders| == 0 then []
    else (if KeyOf(orders[0]) == k then [orders[0]] else []) + OrdersAt(orders[1..], k)
  }

  lemma {:induction false} OrdersAtAppend(a: seq<Order>, b: seq<Order>, k: Key)
    ensures OrdersAt(a + b, k) == OrdersAt(a, k) + OrdersAt(b, k)
  {
    if |a| == 0 {
      assert a + b == b;
    } else {
      assert (a + b)[1..] == a[1..] + b;
      OrdersAtAppend(a[1..], b, k);
    }
  }

  lemma {:induction false} OrdersAtUniform(orders: seq<Order>, key: Key, k: Key)
    requires forall j :: 0 <= j < |orders| ==> KeyOf(orders[j]) == key
    ensures OrdersAt(orders, k) == if key == k then orders else []
  {
    if |orders| > 0 {
      OrdersAtUniform(orders[1..], key, k);
    }
  }

  /**
   Flattening keeps each key's list intact: the orders of the listing filed
   under `k` are exactly the book's list for `k`, in insertion order.
   */
  lemma {:induction false} FlattenOrdersAt(side: Side, book: Book, k: Key)
    requires WellFormed(side, book)
    ensures OrdersAt(Flatten(book), k) == Lookup(book, k)
  {
    if |book| > 0 {
      var level := book[0];
      assert LevelFits(side, level);
      OrdersAtAppend(level.orders, Flatten(book[1..]), k);
      OrdersAtUniform(level.orders, level.key, k);
      FlattenOrdersAt(side, book[1..], k);
      if level.key == k && |book| > 1 {
        assert Precedes(side, level.key, book[1].key);
        LookupAbsentBefore(side, book[1..], k);
      }
    }
  }

  /** Every order of a well-formed book's listing is a positive order of that side. */
  lemma {:induction false} FlattenFits(side: Side, book: Book)
    requires WellFormed(side, book)
    ensures forall j :: 0 <= j < |Flatten(book)| ==>
              Flatten(book)[j].quantity > 0 && Flatten(book)[j].side == side
  {
    if |book| > 0 {
      FlattenFits(side, book[1..]);
      var head := book[0].orders;
      assert LevelFits(side, book[0]);
      forall j | 0 <= j < |Flatten(book)|
        ensures Flatten(book)[j].quantity > 0 && Flatten(book)[j].side == side
      {
        if j < |head| {
          assert Flatten(book)[j] == head[j];
        } else {
          assert Flatten(book)[j] == Flatten(book[1..])[j - |head|];
        }
      }
    }
  }
}
