# Price/time limit-order matching engine, modelled in Dafny

This project models the sequential core of a continuous double-auction order
book. Buy and sell limit orders are submitted one at a time. An incoming order
trades at once with crossing resting orders on the opposite side. What is left
of it rests in its own side's book.

- **Keys** (`order_key.dfy`, module `OrderKeys`): an `OrderKey` is a pair
  `(price, creationTime)`. It is compared by price first and by creation time
  second. Creation times are integer timestamps.
- **Orders** (`orders.dfy`, module `Orders`): an order is a value with id,
  quantity, price, side (BUY/SELL) and creation time. The quantity field that
  the Java code mutates becomes a field of which the operations return
  updated copies.
- **Books** (`books.dfy`, module `Books`): each side is a sorted map from key
  to the list of orders that share that exact key. It is modelled as a
  sequence of levels that is strictly sorted by the side's comparator. The
  sell book uses natural key order. The buy book uses `Comparator.reverseOrder()`,
  which reverses the WHOLE key: at equal price the later creation time comes
  first. Within one level, orders are kept in insertion order.
- **Matching** (`matching.dfy`, module `Matching`): `OrderBookImpl.addOrder`
  and `processOrder` become pure functions. `Fill` is the inner loop over one
  level's list. `Scan` is the outer loop over the opposing book. `ProcessOrder`
  runs the match and then files any positive remainder in the own book.
  `AddOrder` dispatches on side. `BuyOrders` and `SellOrders` are the listing
  queries, and `Run` submits a sequence of orders one after another.
- **Superseded revision** (`legacy.dfy`, module `LegacyOrderBook`): the older
  `OrderBook` class runs the same algorithm and prints to the console. Here it
  is written as imperative methods with the source's two nested loops. It is
  proved to produce exactly the same books and returned order as
  `Matching.AddOrder`.
- **Scenarios** (`scenarios.dfy`, module `Scenarios`): concrete order
  sequences with the books they must produce. Five of them come from the
  repository's test class; one illustrates the reversed bid comparator.

Behaviour of the code worth knowing, which the model keeps as it is:

- Bids at equal price are consumed latest-first, because
  `Comparator.reverseOrder()` reverses the whole key
  (`OrderBookImpl.java:16`). This is not FIFO by time. Within one key, both
  sides are FIFO.
- The outer loop does not stop at the first non-crossing level. It keeps
  visiting later levels while quantity remains. `CrossingIsPrefix` proves
  that on a sorted book the crossing levels are exactly the leading ones.
  `ScanIsFill` proves that the flattened listing after the walk is one FIFO
  fill of the crossing orders followed by the untouched later orders, and
  that the remainder is that fill's remainder. So visiting the later levels
  trades nothing.
- Orders are not validated. An order with quantity ≤ 0 changes nothing.
- A fully filled incoming order is returned with its original quantity field.
  The field is only overwritten when a positive remainder rests.
- No execution price and no trade events exist in the code, so none are
  modelled.

## Model

| member | source | states |
|---|---|---|
| OrderKeys.IntCompare | src/main/java/io/finlandjourney/model/OrderKey.java:16 | `Integer.compare` yields -1, 0 or 1, negative exactly when the first price is smaller and positive exactly when it is larger |
| OrderKeys.Compare | src/main/java/io/finlandjourney/model/OrderKey.java:15-21 | key comparison is the lexicographic order on (price, creationTime): zero exactly for equal keys, which agrees with the generated `equals`; different prices decide by price alone; equal prices decide by creation time |
| OrderKeys.CompareAntisymmetric | src/main/java/io/finlandjourney/model/OrderKey.java:15-21 | swapping the two keys negates the comparison |
| OrderKeys.CompareTransitive | src/main/java/io/finlandjourney/model/OrderKey.java:15-21 | both the strict and the non-strict key order are transitive, so keys can order a sorted map |
| Orders.SameLevel | src/main/java/io/finlandjourney/service/OrderBookImpl.java:21-22 | `KeyOf` builds the order's key from its price and creation time, so two orders share a level exactly when both their prices and their creation times agree |
| Matching.Crosses | src/main/java/io/finlandjourney/service/OrderBookImpl.java:62 | a resting level crosses an incoming order exactly when some execution price is acceptable to both limits: a buy at or above the ask, a sell at or below the bid |
| Books.Flatten | src/main/java/io/finlandjourney/service/OrderBookImpl.java:42-48 | the listing holds an order exactly when some level of the book holds it |
| Matching.BuyOrders | src/main/java/io/finlandjourney/service/OrderBookImpl.java:33-35 | the buy listing of a well-formed buy book is in bid priority order, holds per key exactly that key's list in insertion order, and holds only positive buy orders |
| Matching.SellOrders | src/main/java/io/finlandjourney/service/OrderBookImpl.java:38-40 | the sell listing of a well-formed sell book is in ask priority order, holds per key exactly that key's list in insertion order, and holds only positive sell orders |
| Books.Comparator | src/main/java/io/finlandjourney/service/OrderBookImpl.java:16-17 | the sell book orders keys by ascending price and then earlier time; the buy book by descending price and then LATER time; zero only for equal keys |
| Books.Insert | src/main/java/io/finlandjourney/service/OrderBookImpl.java:111 | filing an order adds exactly its key to the book's key set |
| Books.InsertSorted | src/main/java/io/finlandjourney/service/OrderBookImpl.java:111 | filing an order keeps the book strictly sorted by the side's comparator, and keeps every lower bound that is below the new key |
| Books.InsertLookup | src/main/java/io/finlandjourney/service/OrderBookImpl.java:111 | as a map, the list under the order's key gains the order at its end (FIFO within a key); every other key keeps its list |
| Books.InsertTotal | src/main/java/io/finlandjourney/service/OrderBookImpl.java:109-111 | filing an order raises the book's total quantity by exactly that order's quantity |
| Books.InsertWellFormed | src/main/java/io/finlandjourney/service/OrderBookImpl.java:109-111 | filing a positive order of the book's side under its own key keeps the invariant: sorted, no empty list, only positive quantities |
| Books.FlattenInPriorityOrder | src/main/java/io/finlandjourney/service/OrderBookImpl.java:42-48 | the flattened book lists no order after one whose key the side's comparator ranks later |
| Books.FlattenOrdersAt | src/main/java/io/finlandjourney/service/OrderBookImpl.java:42-48 | in the flattened listing, the orders under any key are exactly that key's list in the book, in insertion order |
| Books.FlattenFits | src/main/java/io/finlandjourney/service/OrderBookImpl.java:42-48 | every order listed from a well-formed book has positive quantity and belongs to that side |
| Matching.Fill | src/main/java/io/finlandjourney/service/OrderBookImpl.java:63-98 | walking one level's list conserves quantity (filled quantity equals what left the list); a non-positive incoming quantity changes nothing; a positive one never goes negative; a positive remainder means the list was emptied |
| Matching.FillShape | src/main/java/io/finlandjourney/service/OrderBookImpl.java:68-92 | a fill removes a prefix of the list; at most the next order is partially reduced (same order, smaller positive quantity), and only when the incoming quantity is used up; the rest is untouched; against positive orders the remainder never exceeds the incoming quantity |
| Matching.Scan | src/main/java/io/finlandjourney/service/OrderBookImpl.java:55-100 | walking the opposing book leaves it unchanged for a non-positive quantity, never invents a key, and when a remainder is left no crossing order remains in it |
| Matching.ScanConserves | src/main/java/io/finlandjourney/service/OrderBookImpl.java:68-91 | the drop in resting opposing quantity equals the incoming quantity minus the remainder |
| Matching.CrossingIsPrefix | src/main/java/io/finlandjourney/service/OrderBookImpl.java:57-62 | on a sorted opposing book a level crosses exactly when it is among the leading crossing levels, so no level after a non-crossing one can cross |
| Matching.ScanNoCross | src/main/java/io/finlandjourney/service/OrderBookImpl.java:62 | an opposing book none of whose levels cross is left as it is, with the whole quantity unfilled |
| Matching.ScanIsFill | src/main/java/io/finlandjourney/service/OrderBookImpl.java:55-100 | priority: on a sorted opposing book the walk acts as one FIFO fill of the crossing orders taken in book order (asks lowest price then earliest time, bids highest price then latest time, insertion order within a key); orders of non-crossing levels are untouched |
| Matching.ScanSorted | src/main/java/io/finlandjourney/service/OrderBookImpl.java:78-92 | removing orders and emptied keys keeps the opposing book sorted |
| Matching.ScanWellFormed | src/main/java/io/finlandjourney/service/OrderBookImpl.java:68-92 | on a well-formed opposing book, exhausted orders are removed, emptied keys are dropped, and surviving quantities stay positive |
| Matching.ProcessOrder | src/main/java/io/finlandjourney/service/OrderBookImpl.java:50-117 | one order leaves both books sorted; non-positive quantity changes nothing; the returned order carries the remainder only when it rests and is otherwise returned as it came; opposing quantity drops by the filled amount; the own book grows by the rested remainder under the order's key; a resting remainder faces no crossing order |
| Matching.ProcessOrderBounded | src/main/java/io/finlandjourney/service/OrderBookImpl.java:68-91 | against positive resting orders the remainder never exceeds the incoming quantity |
| Matching.ProcessOrderOwnBook | src/main/java/io/finlandjourney/service/OrderBookImpl.java:109-111 | the own book changes only under the order's key, and only by appending the rested order when a remainder is left |
| Matching.ProcessOrderWellFormed | src/main/java/io/finlandjourney/service/OrderBookImpl.java:50-117 | the book invariant (sorted, no empty list, positive quantities, orders under their own key and side) holds for both books after one order |
| Matching.NonCrossingRests | src/main/java/io/finlandjourney/service/OrderBookImpl.java:62 | an order whose price does not cross the best opposing level trades nothing: the opposing book is unchanged and the full quantity remains |
| Matching.AddOrder | src/main/java/io/finlandjourney/service/OrderBookImpl.java:20-30 | adding an order keeps both books sorted; non-positive quantity leaves both books unchanged; for a positive order, resting buy minus resting sell quantity moves by the order's signed quantity; only the opposite book can lose keys |
| Matching.AddOrderWellFormed | src/main/java/io/finlandjourney/service/OrderBookImpl.java:20-30 | the invariant of both books survives every call |
| Matching.AddOrderNotCrossed | src/main/java/io/finlandjourney/service/OrderBookImpl.java:50-117 | if every bid price is below every ask price before a call, the same holds after it |
| Matching.Run | src/test/java/io/finlandjourney/OrderBookTests.java:208-227 | submitting orders one after another keeps both books sorted |
| Matching.RunBalance | src/test/java/io/finlandjourney/OrderBookTests.java:230-232 | over any sequence of positive orders, resting buy minus resting sell quantity changes by submitted buy minus submitted sell quantity |
| Matching.ListingFaithful | src/main/java/io/finlandjourney/service/OrderBookImpl.java:33-48 | the buy and sell listings hold positive orders of their side, in priority order, and per key exactly the book's list in insertion order |
| LegacyOrderBook.FillLevel | src/main/java/io/finlandjourney/OrderBook.java:40-71 | the superseded inner loop computes the same surviving list and remainder as `Matching.Fill` |
| LegacyOrderBook.Match | src/main/java/io/finlandjourney/OrderBook.java:30-73 | the superseded outer loop uses the same crossing rule and key removal, and yields the same opposing book and remainder as `Matching.Scan` |
| LegacyOrderBook.ProcessOrder | src/main/java/io/finlandjourney/OrderBook.java:25-91 | the superseded processing inserts the remainder only when positive and yields the same books and returned order as `Matching.ProcessOrder` |
| LegacyOrderBook.AddOrder | src/main/java/io/finlandjourney/OrderBook.java:13-23 | the superseded revision has the same effect on both books, and returns the same order, as the service implementation |
| Scenarios.RestingSell | src/test/java/io/finlandjourney/OrderBookTests.java:26-35 | a sell with no bids rests as the only sell order |
| Scenarios.EarlierSellFillsFirst | src/test/java/io/finlandjourney/OrderBookTests.java:145-161 | of two asks at one price, the earlier creation time fills first, whatever the submission order |
| Scenarios.NoTradeWhenPricesDoNotCross | src/test/java/io/finlandjourney/OrderBookTests.java:93-108 | a sell above the only bid trades nothing, and both orders rest unchanged |
| Scenarios.PartialFillOfRestingSell | src/test/java/io/finlandjourney/OrderBookTests.java:172-186 | a smaller buy reduces the resting sell to 5 and does not rest; the returned buy keeps its quantity field |
| Scenarios.RemainderRests | src/test/java/io/finlandjourney/OrderBookTests.java:77-91 | a larger buy empties the sell book and rests with the remaining 2 |
| Scenarios.LaterBidFillsFirst | src/main/java/io/finlandjourney/service/OrderBookImpl.java:16 | because the buy book's comparator is reversed, of two bids at one price the later one fills first |

## Left out

- Logging and console output: the SLF4J calls and the `StringBuilder` / `System.out` messages have no effect on book state.
- Concurrency: each `addOrder` call is one atomic step. The buy-minus-sell balance that the multi-threaded test checks is proved over sequences of calls (`Matching.RunBalance`), not over interleavings.
- The demo driver `Main` and the `OrderBook` service interface. The interface's promise that the same order is returned after processing is part of `Matching.ProcessOrder`.
- Object identity and aliasing: listings share mutable `Order` objects with the books in Java. Here orders are values. `getBuyOrders` / `getSellOrders` copy the map before flattening, which has no observable effect in a value model.
- `LocalDateTime`: creation times are integers. Only the sign of `LocalDateTime.compareTo` is modelled, not its magnitude.
- OrderKeys.Compare: returns -1, 0 or 1 for the time comparison, where `LocalDateTime.compareTo` may return other values of the same sign.
- 32-bit `int` arithmetic: quantities and prices are unbounded integers. While both books satisfy the invariant that `addOrder` preserves, every intermediate quantity lies between 0 and the incoming quantity, so no overflow can occur.
- An order whose `orderType` is null: Java throws `NullPointerException`. Here the side is a two-valued datatype.
