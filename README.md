# FinStack order book and matching engine, modelled in Dafny

This project models the core of FinStack's price-time priority limit order book:

- `Order` and `Trade`, with the order's fill state and the two priority comparators (`src/order_book.hpp`).
- `OrderBook` (`src/order_book.cpp`). It has two sides kept in priority order and an id index from order id to order. The index is modelled as the multimap the code's comments and tests intend; see "## Findings" for what the declared `std::unordered_map` does instead. Its operations are `add_order`, `cancel_order` and the `match_order` loop, `remove_filled_orders`, and the quotes and depth queries.
- `MatchingEngine` (`src/matching_engine.cpp`). It keeps one book per symbol and a routing multimap from order id to symbol, used by `cancel_order`. It notifies trade callbacks.
- The prototype `Order` of `OrderBook.cpp` at the repository root. It has fixed-width quantities and a `Fill` that refuses to over-fill.

The project has six files, one module each:

- `seq_util.dfy` (`SeqUtil`): searching and removing in sequences, and the key and value projections of the two multimaps.
- `orders.dfy` (`Orders`): order and trade values, the order constructors, `remaining_size`, `is_filled` and `fill`, and the sort orders and comparators.
- `matching.dfy` (`Matching`): the `match_order` loop as a recursive function `Match`, and lemmas about the result. The lemmas cover:
  - the pricing rule (the resting order's price);
  - the buyer and seller ids;
  - fill conservation;
  - consumption from the front;
  - the three ways the loop ends;
  - that untouched orders stay as they were.
- `book.dfy` (`Book`): the class `OrderBook`, its invariant `Inv`, and the lemmas that each operation keeps it. `MatchLoop`, `Filter`, `VolumeAtPrice` and `SortHandles` are loops proved against `Match`, `KeepResting`, `Volume` and the sortedness and permutation conditions. `MatchBook` and the method `MatchOrder` run `MatchLoop` on the book's state.
- `engine.dfy` (`Engine`): the class `MatchingEngine` and the fan-out of trades to observers.
- `prototype.dfy` (`Prototype`): the classes `Order` and `OrderBookLevelInfos` of `OrderBook.cpp`, with their 32-bit and 64-bit integer types.

How the model represents the source's objects:

- Orders are shared by pointer in `src/`. Here a book keeps every order it has seen in an arena (`seq<Order>`), addressed by handle.
- The sides hold handles. The id index is a sequence of `(id, handle)` entries, oldest first.
- `Order::fill` is a pure function whose result the book writes back into the order's slot.
- The book invariant says:
  - every handle on a side points to an order of that side;
  - each side is sorted by its comparator;
  - every indexed entry names the order with that id;
  - no handle occurs twice;
  - every order on a side is indexed.
- `Live` adds two facts:
  - no filled or cancelled order rests;
  - the index holds exactly the orders on the sides (`Indexed`), so an order leaves a side and the index together.
- `match_order` and `cancel_order` keep `Live`. `add_order` keeps it for a resting order. The engine keeps it for every book.

Two behaviours of the source are modelled as written:

- `place_limit_order` routes the order id before matching. A fully filled order therefore leaves a routing entry behind. `cancel_order` follows the oldest entry for an id. If that entry is stale, the result is `false` (`Engine.MatchingEngine.CancelOrder`).
- `remove_filled_orders` is private and nothing calls it. It drops orders from the sides but not from the index. On a live book it changes nothing; on any other book the index keeps the entries of the dropped orders (`Book.OrderBook.RemoveFilledOrders`).

## Model

| member | source | states |
|---|---|---|
| Orders.Opposite | src/order_book.cpp:76-77 | the opposite side is never the same side |
| Orders.LimitOrder | src/order_book.hpp:64-68 | a new limit order has the given fields, is unfilled and New, and can rest exactly when its size is positive |
| Orders.MarketOrder | src/order_book.hpp:71-77 | a market buy is priced at the largest price and a market sell at 0, so price never limits it; otherwise it is like a limit order |
| Orders.RemainingSize | src/order_book.hpp:80-82 | remaining plus filled is the original size |
| Orders.IsFilled | src/order_book.hpp:85-87 | filled exactly when nothing remains |
| Orders.Fill | src/order_book.hpp:90-97 | only the fill state changes; the status is Filled exactly when the order is filled, else PartiallyFilled; filling within the remainder lowers it by exactly that much |
| Orders.BuyComparator | src/order_book.hpp:101-108 | lower priority for a lower price, or the same price and a later timestamp; the converse of the bid sort order |
| Orders.SellComparator | src/order_book.hpp:111-118 | lower priority for a higher price, or the same price and a later timestamp; the converse of the ask sort order |
| Orders.SortBeforeIsStrictWeakOrder | src/order_book.cpp:151-171 | both sort orders are irreflexive, asymmetric and transitive, and incomparability is transitive, as std::sort requires |
| Matching.MakeTrade | src/order_book.cpp:95-112 | a trade is at the resting order's price and the given time, and the buyer and seller ids follow the incoming order's side |
| Matching.Match | src/order_book.cpp:73-136 | the loop leaves the arena's size alone and never lengthens the opposite side |
| Matching.MatchIdentity | src/order_book.cpp:90-100 | only fill states change, no order is over-filled, and a live incoming order is not cancelled by matching |
| Matching.MatchShape | src/order_book.cpp:80-129 | the opposite side loses a prefix; the number of trades is the number of removed orders, plus one when a partly filled front order stops the loop; an empty side or a filled order gives no trades |
| Matching.MatchTrades | src/order_book.cpp:85-112 | the i-th trade is made against the i-th order of the opposite side, at its price, with the buyer and seller ids by side |
| Matching.MatchConservation | src/order_book.cpp:92-100 | the incoming order's fill and the total fill of the resting orders each grow by the total traded size |
| Matching.MatchExit | src/order_book.cpp:80-90 | the loop ends with the incoming order filled, the side empty, or a limit price that does not cross the front; a market order ends filled or with the side empty |
| Matching.MatchUntouched | src/order_book.cpp:80-129 | no order except those traded against changes |
| Matching.MatchFills | src/order_book.cpp:92-100 | the i-th resting order's fill grows by exactly the i-th trade's size |
| Matching.MatchConsumesFilled | src/order_book.cpp:115-125 | every order that left the opposite side is filled |
| Matching.MatchTradeSizes | src/order_book.cpp:92 | every trade is the smaller of the two remaining sizes: it never exceeds what its resting order had left; each order that left the side traded all it had left; a trade that leaves its resting order on the side is the last and takes all the incoming order had left; the total never exceeds the incoming order's remainder |
| Matching.MatchSizesPositive | src/order_book.cpp:92 | against unfilled resting orders every trade has a positive size |
| Matching.NoCrossBehindFront | src/order_book.cpp:85-90 | once a sorted side's front does not cross a limit price, no order behind it does |
| Matching.MatchKeepsResting | src/order_book.cpp:115-125 | what is left of a side of resting orders holds only resting orders |
| Book.InvSidesSwap | src/order_book.hpp:150-153 | the book invariant is symmetric in the two sides |
| Book.SidesDistinct | src/order_book.hpp:150-153 | under the invariant no order is twice on a side or on both sides |
| Book.RemoveHandle | src/order_book.cpp:32-71 | removing an index entry and its order from its side keeps the invariant |
| Book.PopFront | src/order_book.cpp:115-125 | the front of the opposite side is indexed, and removing it and its entry keeps the invariant |
| Book.UpdateOrder | src/order_book.cpp:98-99 | changing one order's fill state within its size keeps the invariant |
| Book.MatchRound | src/order_book.cpp:80-129 | one round of the loop keeps the invariant |
| Book.MatchIndex | src/order_book.cpp:115-125 | matching erases from the index exactly the entries of the orders it took off the front of the opposite side |
| Book.MatchKeepsIndexed | src/order_book.cpp:115-125 | when the index held exactly the orders on the sides, it still does after matching |
| Book.MatchKeepsLive | src/order_book.cpp:73-136 | matching against a live book leaves both sides resting, and every trade has a positive size |
| Book.AddHandle | src/order_book.cpp:13-30 | indexing an order and re-sorting its side with it keeps the invariant |
| Book.CancelKeepsInv | src/order_book.cpp:32-71 | cancelling keeps the invariant |
| Book.CancelKeepsResting | src/order_book.cpp:32-71 | the cancelled order leaves its side, so both sides stay resting |
| Book.CancelStepResult | src/order_book.cpp:32-71 | the cancel step has the promised effect: the oldest order with the id is Cancelled and leaves its side and the index, and the answer is true |
| Book.CancelCorrect | src/order_book.cpp:32-71 | cancelling keeps the invariant, has the promised effect, keeps both sides resting and keeps an exact index exact |
| Book.CancelKeepsIndexed | src/order_book.cpp:32-71 | the cancelled order leaves its side and the index together, so an exact index stays exact |
| Book.AddCorrect | src/order_book.cpp:13-30 | adding an order and re-sorting its side keeps the invariant, keeps an exact index exact, and keeps both sides resting when the order rests |
| Book.AddKeepsIndexed | src/order_book.cpp:13-30 | the new order joins its side and the index together, so an exact index stays exact |
| Book.MapInsert | src/order_book.cpp:16 | `insert` into the declared unique-key map: a present id keeps its entry and the index is unchanged; a new id gains exactly one entry, for the new handle |
| Book.MapInsertLosesDuplicate | src/order_book.cpp:13-30 | with the declared map, a second order with an indexed id rests on its side with no index entry, so no cancel can reach it and the index no longer holds exactly the side orders |
| Book.AddKeepsResting | src/order_book.cpp:13-30 | adding a resting order keeps a side resting |
| Book.InsertSorted | src/order_book.cpp:151-171 | inserting after every order that comes before or ties, and before the rest, keeps a side sorted |
| Book.SortHandles | src/order_book.cpp:151-171 | the result is a permutation of the side, sorted by its comparator |
| Book.VolumeConcat | src/order_book.cpp:187-199 | the depth of two sides joined together is the sum of their depths |
| Book.VolumeRemoveAt | src/order_book.cpp:187-199 | removing an order lowers the depth by that order's share |
| Book.VolumePerm | src/order_book.cpp:187-199 | the depth does not depend on the order of the side |
| Book.VolumeAfterAdd | src/order_book.cpp:13-30 | adding an order raises the depth at its price by its remaining size and changes no other price |
| Book.KeepResting | src/order_book.cpp:138-149 | filtering never lengthens a side |
| Book.KeepRestingIn | src/order_book.cpp:138-149 | every survivor of the filter is a resting order of the side |
| Book.KeepRestingCount | src/order_book.cpp:138-149 | a resting order survives as often as it occurs; a filled or cancelled order never survives |
| Book.KeepRestingAll | src/order_book.cpp:138-149 | filtering a side that holds only resting orders leaves it unchanged |
| Book.KeepRestingSorted | src/order_book.cpp:138-149 | filtering keeps a side in priority order |
| Book.SortedFront | src/order_book.cpp:173-185 | the front of a sorted side has the best price on it |
| Book.OrdersOfSorted | src/order_book.cpp:201-204 | the orders of a side, in side order, follow its comparator |
| Book.ShrinkSides | src/order_book.cpp:138-149 | replacing both sides by sorted sub-multisets keeps the invariant |
| Book.MatchLoop | src/order_book.cpp:80-129 | the loop, run in place, computes exactly Match and keeps the invariant |
| Book.MatchBook | src/order_book.cpp:73-136 | match_order computes Match on the side opposite the order, leaves its own side alone, keeps the invariant, keeps both sides resting and keeps an exact index exact |
| Book.OrderBook.constructor | src/order_book.cpp:8-11 | a new book for the symbol is empty, valid and live |
| Book.OrderBook.SortBuyOrders | src/order_book.cpp:151-160 | the bids become a permutation of themselves in bid order: highest price first, then earliest timestamp |
| Book.OrderBook.SortSellOrders | src/order_book.cpp:162-171 | the asks become a permutation of themselves in ask order: lowest price first, then earliest timestamp |
| Book.OrderBook.AddOrder | src/order_book.cpp:13-30 | the order is indexed even when its id is a duplicate, as the multimap intended (see "## Findings"); its side gains exactly it and stays sorted; the other side is unchanged; the book stays valid, an exact index stays exact, and a live book stays live when the order rests |
| Book.OrderBook.CancelOrder | src/order_book.cpp:32-71 | an unknown id changes nothing and answers false; otherwise the oldest order with the id is marked Cancelled and leaves its side and the index, and the answer is true; an exact index stays exact and a live book stays live |
| Book.OrderBook.CancelAt | src/order_book.cpp:39-70 | with the oldest entry for the id found, its order is marked Cancelled and leaves its side and the index; the book stays valid, an exact index stays exact and a live book stays live |
| Book.OrderBook.MatchOrder | src/order_book.cpp:73-136 | the new state and trades are those of Match against the opposite side; the own side is untouched; the incoming order is returned with its fills; a live book stays live |
| Book.OrderBook.RemoveFilledOrders | src/order_book.cpp:138-149 | each side keeps exactly its resting orders in their order; the index is untouched; the book stays valid and both sides hold only resting orders; a live book is left as it was |
| Book.OrderBook.Filter | src/order_book.cpp:140-148 | the loop over one side computes KeepResting |
| Book.OrderBook.BestBid | src/order_book.cpp:173-178 | 0 for no bids; otherwise the front bid's price, which no bid exceeds |
| Book.OrderBook.BestAsk | src/order_book.cpp:180-185 | the largest price for no asks; otherwise the front ask's price, which no ask is below |
| Book.OrderBook.VolumeAtPrice | src/order_book.cpp:187-199 | the sum of the remaining sizes of the side's orders at exactly that price |
| Book.OrderBook.GetAllOrders | src/order_book.cpp:201-204 | the bids and the asks, each in priority order, each side's orders of that side |
| Engine.Deliveries | src/matching_engine.cpp:166-170 | one notification per observer, in registration order |
| Engine.FanoutLength | src/matching_engine.cpp:52-55 | notifying n trades to m observers makes n times m notifications |
| Engine.FanoutAt | src/matching_engine.cpp:52-55 | observer j receives trade i at position i times m plus j: every observer sees every trade, in trade order |
| Engine.FanoutConcat | src/matching_engine.cpp:52-55 | notifying two batches one after the other is notifying their concatenation |
| Engine.NotifyTrade | src/matching_engine.cpp:166-170 | the loop computes Deliveries |
| Engine.NotifyTrades | src/matching_engine.cpp:52-55 | the loop computes Fanout |
| Engine.Execute | src/matching_engine.cpp:45-50 | matching, then resting what a limit order has left, as Executes relates the book before and after; the book stays valid and live; trade sizes are positive |
| Engine.MatchingEngine.constructor | src/matching_engine.cpp:6-8 | no books, no routing, no observers |
| Engine.MatchingEngine.AddOrderBook | src/matching_engine.cpp:10-20 | a new symbol gets a fresh, empty book; a present symbol keeps its book |
| Engine.MatchingEngine.KeepsValid | src/matching_engine.hpp:55-57 | changing one book, which stays valid and live, keeps the engine valid |
| Engine.MatchingEngine.ExecuteOn | src/matching_engine.cpp:45-50 | only the symbol's book changes, as Executes says |
| Engine.MatchingEngine.PlaceLimitOrder | src/matching_engine.cpp:22-58 | an unknown symbol gives no trades and changes nothing; otherwise the id is routed, the order is matched and rests unless filled, and every trade is notified to every observer in order |
| Engine.MatchingEngine.PlaceMarketOrder | src/matching_engine.cpp:60-89 | like a limit order, but it is not routed and never rests |
| Engine.MatchingEngine.CancelOn | src/matching_engine.cpp:105-111 | the symbol's book cancels as OrderBook.CancelOrder says; no other book changes |
| Engine.MatchingEngine.Unroute | src/matching_engine.cpp:114-116 | exactly the chosen routing entry is erased |
| Engine.MatchingEngine.CancelOrder | src/matching_engine.cpp:91-119 | no routing entry, or a missing book, answers false; otherwise the oldest entry's book cancels; that entry is erased exactly when the cancel succeeds; other books never change |
| Engine.MatchingEngine.GetOrderBook | src/matching_engine.cpp:134-143 | the book filed under the symbol, or null exactly when there is none |
| Engine.MatchingEngine.GetAllOrderBooks | src/matching_engine.cpp:121-132 | every book exactly once |
| Engine.MatchingEngine.RegisterTradeCallback | src/matching_engine.cpp:145-148 | the observer is appended; nothing else changes |
| SeqUtil.IndexOf | src/order_book.cpp:34-40 | the first occurrence, or the length when absent |
| SeqUtil.RemoveAt | src/order_book.cpp:45-64 | the sequence without exactly the element at that position, in order |
| SeqUtil.RemoveFirst | src/order_book.cpp:45-61 | removes the first occurrence if there is one, otherwise nothing |
| SeqUtil.Find | src/order_book.cpp:47-61 | the linear search finds the first occurrence |
| SeqUtil.FindKey | src/matching_engine.cpp:95-102 | the search finds the oldest entry with the key |
| SeqUtil.CountAfterRemoveAt | src/matching_engine.cpp:114-116 | erasing one entry lowers the count of its key by one and no other |
| Prototype.Minus | OrderBook.cpp:64 | unsigned 64-bit subtraction, wrapping below zero |
| Prototype.FillRemaining | OrderBook.cpp:66-72 | a fill succeeds exactly when it does not exceed what remains, and then lowers it by that much |
| Prototype.FillTwice | OrderBook.cpp:66-72 | two fills succeed exactly when their sum fits, and have the effect of one fill of the sum |
| Prototype.OrderBookLevelInfos.constructor | OrderBook.cpp:33-40 | the getters return the bids and asks given |
| Prototype.Order.constructor | OrderBook.cpp:49-63 | the getters return the given fields; the remaining quantity is the whole quantity; nothing is filled |
| Prototype.Order.GetFilledQuantity | OrderBook.cpp:64 | filled plus remaining is the initial quantity, so the subtraction never wraps |
| Prototype.Order.Fill | OrderBook.cpp:66-72 | over-filling fails with an error naming the order and changes nothing; otherwise the remainder drops, and the filled quantity rises, by exactly the quantity |

## Left out

- Concurrency: the engine's mutex (`src/matching_engine.hpp:58`) is not modelled. Every operation runs atomically.
- Clocks are parameters:
  - `generate_timestamp` is the parameter `stamp`.
  - The book's wall-clock reading for trades is the parameter `now`.
  - `match_order` reads the clock once per trade; the model uses one `now` for every trade of a call.
  - `last_update_time_` is not modelled, because nothing reads it.
- Trade callbacks are observer handles. The model returns each notification as an (observer, trade) pair in order and does not run any callback code.
- Prices in `src/` are `double`. The model uses integers, with `MaxPrice` (`0x7fff_ffff_ffff_ffff`) as the market-buy price and the no-ask quote. Floating-point rounding is not modelled.
- Sizes in `src/` are `uint64_t`. The model uses unbounded naturals; a fill never exceeds the remaining size, so only overflow of a total is lost.
- Orders are shared pointers in `src/`. The model replaces them with an arena and handles:
  - The incoming order is passed to `MatchOrder` by value and returned with its fills.
  - Aliasing between the book's copy and the caller's copy is captured only in that way.
- The sort is `std::sort`, which is not stable.
  - `SortHandles` promises a sorted permutation, which is what `std::sort` promises.
  - Orders with the same price and timestamp may end up in a different order than the library's.
- `unordered_multimap::equal_range` picks an unspecified entry for a duplicate key. The model always picks the oldest entry, in both the book's index and the engine's routing.
- The book's index: `order_map_` is declared as a `std::unordered_map` (`src/order_book.hpp:153`), so `insert` at `src/order_book.cpp:16` silently drops the entry of an order whose id is already indexed. That order rests on its side but can never be cancelled. The model instead follows the multimap the comment at `src/order_book.cpp:15` and the duplicate-id test at `src/advanced_tests.cpp:155-181` intend: every order is indexed, and `cancel_order` cancels the oldest entry for the id. The compiled behaviour is modelled separately (`Book.MapInsert`, listed under "## Findings").
- The other declarations in `src/order_book.hpp` that do not match the implementation:
  - `get_all_orders` is declared to return one vector;
  - `volume_at_price` is not declared.
  The model follows the implementation.
- `print`, `print_all` and the `main` drivers of both programs are output only and are not modelled.
- `src/main.cpp`, `src/benchmarks.cpp` and `src/advanced_tests.cpp` are drivers and tests and are not part of this model.
- `Prototype.Order.GetOrderType`: named `getOrderPrice` in `OrderBook.cpp`, it returns the order type, which the model keeps.
- `Prototype.Order.Fill`: the `std::logic_error` it throws is a `Failed(OverFill(id))` result. The text of the message is not modelled.
- `OrderBook.cpp`'s `LevelInfo` values are plain data. No operation in the prototype computes them.

## Findings

| source | as written | input that shows it | evidently intended | confidence | as-written member | corrected member |
|---|---|---|---|---|---|---|
| src/order_book.hpp:153, src/order_book.cpp:16 | `order_map_` is a `std::unordered_map`, so `insert` ignores an id already present | two buy orders with id `UNIQUE` added in turn, then `cancel_order("UNIQUE")` twice: the second cancel answers false and the second order stays on the bids | a multimap: every order is indexed and each cancel takes the oldest remaining entry (comment at src/order_book.cpp:15, test at src/advanced_tests.cpp:155-181) | high, not executed | Book.MapInsertLosesDuplicate | Book.AddKeepsIndexed |
