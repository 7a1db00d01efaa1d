/**
 Worked scenarios of the order book on concrete orders: full and partial
 fills, non-crossing prices, and priority among equal prices.
 */
module Scenarios {
  import opened Orders
  import opened Books
  import opened Matching

  /** A sell is filed in the sell book when no buy exists. */
  lemma RestingSell()
    ensures var sell := Order("1", 5, 100, Sell, 0);
            var r := AddOrder([], [], sell);
            SellOrders(r.sells) == [sell] && BuyOrders(r.buys) == []
  {
  }

  /** Two sells at one price: the earlier one fills first, the later one rests untouched. */
  lemma EarlierSellFillsFirst()
    ensures var first := Order("1", 5, 100, Sell, 2);
            var second := Order("2", 5, 100, Sell, 1);
            var buy := Order("3", 5, 100, Buy, 0);
            var r1 := AddOrder([], [], first);
            var r2 := AddOrder(r1.buys, r1.sells, second);
            var r3 := AddOrder(r2.buys, r2.sells, buy);
            SellOrders(r3.sells) == [first] && BuyOrders(r3.buys) == []
  {
  }

  /** A sell priced above the only bid does not trade; both orders rest. */
  lemma NoTradeWhenPricesDoNotCross()
    ensures var buy := Order("1", 5, 90, Buy, 0);
            var sell := Order("2", 5, 100, Sell, 1);
            var r1 := AddOrder([], [], buy);
            var r2 := AddOrder(r1.buys, r1.sells, sell);
            BuyOrders(r2.buys) == [buy] && SellOrders(r2.sells) == [sell]
  {
  }

  /** A smaller buy partially fills the resting sell and does not rest. */
  lemma PartialFillOfRestingSell()
    ensures var sell := Order("1", 10, 100, Sell, 0);
            var buy := Order("2", 5, 100, Buy, 1);
            var r1 := AddOrder([], [], sell);
            var r2 := AddOrder(r1.buys, r1.sells, buy);
            && SellOrders(r2.sells) == [sell.(quantity := 5)]
            && BuyOrders(r2.buys) == []
            && r2.order == buy
  {
  }

  /** A larger buy empties the sell book and rests with what is left. */
  lemma RemainderRests()
    ensures var sell := Order("1", 3, 100, Sell, 0);
            var buy := Order("2", 5, 100, Buy, 1);
            var r1 := AddOrder([], [], sell);
            var r2 := AddOrder(r1.buys, r1.sells, buy);
            SellOrders(r2.sells) == [] && BuyOrders(r2.buys) == [buy.(quantity := 2)]
  {
  }

  /**
   The buy book is in reversed key order: at equal price the LATER bid is
   filled first.
   */
  lemma LaterBidFillsFirst()
    ensures var early := Order("1", 5, 100, Buy, 1);
            var late := Order("2", 5, 100, Buy, 2);
            var sell := Order("3", 5, 100, Sell, 3);
            var r1 := AddOrder([], [], early);
            var r2 := AddOrder(r1.buys, r1.sells, late);
            var r3 := AddOrder(r2.buys, r2.sells, sell);
            BuyOrders(r3.buys) == [early] && SellOrders(r3.sells) == []
  {
  }
}
