/** Orders, trades and the price-time priority rules of the limit order book
    (src/order_book.hpp). Prices are integers; sizes are unbounded naturals. */
module Orders {

  datatype Side = Buy | Sell
  datatype OrderType = Limit | Market
  datatype OrderStatus = New | PartiallyFilled | Filled | Cancelled | Rejected

  function Opposite(side: Side): (o: Side)
    ensures o != side
  {
    if side == Buy then Sell else Buy
  }

  /** The largest price: a market buy's price and the "no ask" quote. */
  const MaxPrice: int := 0x7fff_ffff_ffff_ffff
  /** A market sell's price and the "no bid" quote. */
  const MinPrice: int := 0

  /** An execution record: the buyer's and the seller's order ids, the size and price executed. */
  datatype Trade = Trade(buyId: string, sellId: string, size: nat, price: int, timestamp: nat)

  /** One order. `size` is the original size; `filledSize` and `status` are its fill state. */
  datatype Order = Order(
    id: string,
    side: Side,
    kind: OrderType,
    symbol: string,
    size: nat,
    filledSize: nat,
    price: int,
    timestamp: nat,
    status: OrderStatus)

  /** No over-fill: the invariant every order keeps. */
  predicate WellFormed(o: Order) {
    o.filledSize <= o.size
  }

  /** An order that remove_filled_orders keeps: neither filled nor cancelled. */
  predicate Resting(o: Order) {
    !IsFilled(o) && o.status != Cancelled
  }

  /** The limit-order constructor. */
  function LimitOrder(id: string, side: Side, symbol: string, size: nat, price: int, time: nat): (o: Order)
    ensures o.kind == Limit && o.filledSize == 0 && o.status == New
    ensures o.id == id && o.side == side && o.symbol == symbol
    ensures o.size == size && o.price == price && o.timestamp == time
    ensures WellFormed(o) && (size > 0 <==> Resting(o))
  {
    Order(id, side, Limit, symbol, size, 0, price, time, New)
  }

  /** The market-order constructor: the price is the best possible one for the
      order's side, so that it is never the limiting factor. */
  function MarketOrder(id: string, side: Side, symbol: string, size: nat, time: nat): (o: Order)
    ensures o.kind == Market && o.filledSize == 0 && o.status == New
    ensures o.id == id && o.side == side && o.symbol == symbol
    ensures o.size == size && o.timestamp == time
    ensures o.price == (if side == Buy then MaxPrice else MinPrice)
    ensures WellFormed(o) && (size > 0 <==> Resting(o))
  {
    Order(id, side, Market, symbol, size, 0, if side == Buy then MaxPrice else MinPrice, time, New)
  }

  /** remaining_size. */
  function RemainingSize(o: Order): (r: nat)
    requires WellFormed(o)
    ensures r + o.filledSize == o.size
  {
    o.size - o.filledSize
  }

  /** is_filled. */
  function IsFilled(o: Order): (b: bool)
    ensures WellFormed(o) ==> (b <==> RemainingSize(o) == 0)
    ensures !b ==> WellFormed(o)
  {
    o.filledSize >= o.size
  }

  /** fill: the order after `n` more units are executed. */
  function Fill(o: Order, n: nat): (r: Order)
    ensures r == o.(filledSize := o.filledSize + n, status := r.status)
    ensures r.status == Filled <==> IsFilled(r)
    ensures r.status == Filled || r.status == PartiallyFilled
    ensures WellFormed(o) && n <= RemainingSize(o) ==>
              WellFormed(r) && RemainingSize(r) == RemainingSize(o) - n
    ensures WellFormed(o) && n == RemainingSize(o) ==> IsFilled(r)
    ensures WellFormed(o) && n < RemainingSize(o) ==> Resting(r)
  {
    var f := o.(filledSize := o.filledSize + n);
    if IsFilled(f) then f.(status := Filled) else f.(status := PartiallyFilled)
  }

  /** The order used to sort bids (sort_buy_orders): `a` goes before `b`. */
  predicate BuySortBefore(a: Order, b: Order) {
    if a.price != b.price then a.price > b.price else a.timestamp < b.timestamp
  }

  /** The order used to sort asks (sort_sell_orders): `a` goes before `b`. */
  predicate SellSortBefore(a: Order, b: Order) {
    if a.price != b.price then a.price < b.price else a.timestamp < b.timestamp
  }

  /** The sort order of the given side of the book. */
  predicate SortBefore(side: Side, a: Order, b: Order) {
    if side == Buy then BuySortBefore(a, b) else SellSortBefore(a, b)
  }

  /** BuyOrderComparator: true when `lhs` has LOWER priority than `rhs`
      (the convention of a max-priority queue). */
  function BuyComparator(lhs: Order, rhs: Order): (lower: bool)
    ensures lhs.price < rhs.price ==> lower
    ensures lhs.price > rhs.price ==> !lower
    ensures lhs.price == rhs.price ==> (lower <==> rhs.timestamp < lhs.timestamp)
    ensures lower <==> BuySortBefore(rhs, lhs)
  {
    if lhs.price == rhs.price then lhs.timestamp > rhs.timestamp else lhs.price < rhs.price
  }

  /** SellOrderComparator: true when `lhs` has LOWER priority than `rhs`. */
  function SellComparator(lhs: Order, rhs: Order): (lower: bool)
    ensures lhs.price > rhs.price ==> lower
    ensures lhs.price < rhs.price ==> !lower
    ensures lhs.price == rhs.price ==> (lower <==> rhs.timestamp < lhs.timestamp)
    ensures lower <==> SellSortBefore(rhs, lhs)
  {
    if lhs.price == rhs.price then lhs.timestamp > rhs.timestamp else lhs.price > rhs.price
  }

  /** Both sort orders are strict weak orders, as std::sort requires:
      irreflexive, transitive, and with transitive incomparability. */
  lemma SortBeforeIsStrictWeakOrder(side: Side, a: Order, b: Order, c: Order)
    ensures !SortBefore(side, a, a)
    ensures SortBefore(side, a, b) ==> !SortBefore(side, b, a)
    ensures SortBefore(side, a, b) && SortBefore(side, b, c) ==> SortBefore(side, a, c)
    ensures (!SortBefore(side, a, b) && !SortBefore(side, b, a) && !SortBefore(side, b, c)
             && !SortBefore(side, c, b)) ==> !SortBefore(side, a, c) && !SortBefore(side, c, a)
  {
  }

  /** The sort order only looks at an order's price and timestamp. */
  predicate SameKey(a: Order, b: Order) {
    a.price == b.price && a.timestamp == b.timestamp
  }

  /** Everything but the fill state (filledSize, status) agrees. */
  predicate SameIdentity(a: Order, b: Order) {
    a.id == b.id && a.side == b.side && a.kind == b.kind && a.symbol == b.symbol
    && a.size == b.size && a.price == b.price && a.timestamp == b.timestamp
  }
}
