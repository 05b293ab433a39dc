/** The prototype order of OrderBook.cpp at the repository root: fixed-width
    prices and quantities, an order whose only mutable state is its remaining
    quantity, and a Fill that refuses to fill more than remains. */
module Prototype {

  datatype OrderType = GoodTillCancel | FillAndKill
  datatype Side = Buy | Sell

  /** Price is an int32_t. */
  newtype Price = x: int | -0x8000_0000 <= x < 0x8000_0000
  /** Quantity and OrderId are uint64_t. */
  newtype U64 = x: int | 0 <= x < 0x1_0000_0000_0000_0000
  type Quantity = U64
  type OrderId = U64

  /** One price level: a price and the quantity available at it. */
  datatype LevelInfo = LevelInfo(price: Price, quantity: Quantity)

  /** The error Fill throws: a std::logic_error naming the order. */
  datatype FillError = OverFill(orderId: OrderId)

  datatype FillResult = Done | Failed(error: FillError)

  datatype Option<T> = None | Some(value: T)

  /** Unsigned 64-bit subtraction, which wraps around below zero. */
  function Minus(a: U64, b: U64): (r: U64)
    ensures b <= a ==> r as int == a as int - b as int
    ensures a < b ==> r as int == a as int - b as int + 0x1_0000_0000_0000_0000
  {
    ((a as int - b as int) % 0x1_0000_0000_0000_0000) as U64
  }

  /** The remaining quantity after filling `q` of `remaining`, or None when
      `q` is more than remains. */
  function FillRemaining(remaining: Quantity, q: Quantity): (r: Option<Quantity>)
    ensures r.Some? <==> q <= remaining
    ensures r.Some? ==> r.value as int == remaining as int - q as int
  {
    if q > remaining then None else Some(remaining - q)
  }

  /** Two fills in a row succeed exactly when together they do not exceed
      what remains, and they leave what one fill of their sum would. */
  lemma FillTwice(remaining: Quantity, q1: Quantity, q2: Quantity)
    requires q1 as int + q2 as int < 0x1_0000_0000_0000_0000
    ensures var r1 := FillRemaining(remaining, q1);
      && (r1.Some? && FillRemaining(r1.value, q2).Some? <==> q1 as int + q2 as int <= remaining as int)
      && (r1.Some? && FillRemaining(r1.value, q2).Some? ==>
            FillRemaining(r1.value, q2) == FillRemaining(remaining, q1 + q2))
  {
    var r1 := FillRemaining(remaining, q1);
    if r1.Some? {
      var r2 := FillRemaining(r1.value, q2);
      var r := FillRemaining(remaining, q1 + q2);
      assert r2.Some? <==> r.Some?;
      if r2.Some? {
        assert r2.value as int == r.value as int;
      }
    }
  }

  /** The bids and asks levels of a book, as built. */
  class OrderBookLevelInfos {
    const bids: seq<LevelInfo>
    const asks: seq<LevelInfo>

    constructor(bids: seq<LevelInfo>, asks: seq<LevelInfo>)
      ensures GetBids() == bids && GetAsks() == asks
    {
      this.bids := bids;
      this.asks := asks;
    }

    function GetBids(): seq<LevelInfo> {
      bids
    }

    function GetAsks(): seq<LevelInfo> {
      asks
    }
  }

  /** An order: everything but the remaining quantity is fixed when it is
      made. */
  class Order {
    const orderType: OrderType
    const orderId: OrderId
    const side: Side
    const price: Price
    const initialQuantity: Quantity
    var remainingQuantity: Quantity

    /** No order has more remaining than it started with. */
    ghost predicate Valid()
      reads this
    {
      remainingQuantity <= initialQuantity
    }

    constructor(orderType: OrderType, orderId: OrderId, side: Side, price: Price, quantity: Quantity)
      ensures Valid()
      ensures GetOrderType() == orderType && GetOrderId() == orderId && GetSide() == side
      ensures GetPrice() == price && GetInitialQuantity() == quantity
      ensures GetRemainingQuantity() == quantity && GetFilledQuantity() == 0
    {
      this.orderType := orderType;
      this.orderId := orderId;
      this.side := side;
      this.price := price;
      this.initialQuantity := quantity;
      this.remainingQuantity := quantity;
    }

    function GetOrderId(): OrderId {
      orderId
    }

    function GetSide(): Side {
      side
    }

    function GetPrice(): Price {
      price
    }

    /** getOrderPrice, which returns the order type. */
    function GetOrderType(): OrderType {
      orderType
    }

    function GetInitialQuantity(): Quantity {
      initialQuantity
    }

    function GetRemainingQuantity(): Quantity
      reads this
    {
      remainingQuantity
    }

    /** initial - remaining in unsigned arithmetic: the quantity filled so
        far, which with the invariant never wraps. */
    function GetFilledQuantity(): (r: Quantity)
      reads this
      ensures Valid() ==> r as int + remainingQuantity as int == initialQuantity as int
      ensures Valid() ==> r <= initialQuantity
    {
      Minus(GetInitialQuantity(), GetRemainingQuantity())
    }

    /** Fill: more than remains is refused with an error naming the order and
        changes nothing; otherwise the remaining quantity drops by exactly
        `quantity`. The filled quantity rises by as much. */
    method Fill(quantity: Quantity) returns (r: FillResult)
      requires Valid()
      modifies this
      ensures Valid()
      ensures r.Failed? <==> FillRemaining(old(remainingQuantity), quantity).None?
      ensures r.Failed? ==> r.error == OverFill(orderId) && remainingQuantity == old(remainingQuantity)
      ensures r.Done? ==> Some(remainingQuantity) == FillRemaining(old(remainingQuantity), quantity)
      ensures GetFilledQuantity() as int == old(GetFilledQuantity()) as int + (if r.Done? then quantity as int else 0)
    {
      if quantity > GetRemainingQuantity() {
        return Failed(OverFill(GetOrderId()));
      }
      remainingQuantity := remainingQuantity - quantity;
      r := Done;
    }
  }
}
