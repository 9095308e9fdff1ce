/** The values that flow through the engine: quantities, prices, orders as
    seen by a subscriber, trades and level updates. */
module Types {

  const U64_LIMIT: int := 0x1_0000_0000_0000_0000
  const I64_LIMIT: int := 0x8000_0000_0000_0000

  // Raw values of the scaled integers: Quantity is a uint64, Price an int64.
  type Quantity = q: int | 0 <= q < U64_LIMIT
  type Price = p: int | -I64_LIMIT <= p < I64_LIMIT
  type OrderId = i: int | 0 <= i < U64_LIMIT
  type AccountId = i: int | 0 <= i < U64_LIMIT
  type Symbol = string

  datatype Side = Buy | Sell {
    function Opposite(): Side {
      if this == Buy then Sell else Buy
    }
  }

  datatype OrderStatus = Open | Partial | Filled | Cancelled | Rejected

  datatype OrderType = Limit | Market | FillAndKill

  /** A snapshot of an order: what a handler that receives it can read. */
  datatype OrderView = OrderView(
    id: OrderId, price: Price, qty: Quantity, remaining: Quantity,
    side: Side, status: OrderStatus, kind: OrderType, account: AccountId)

  /** What a price level holds, oldest order first. */
  datatype LevelView = LevelView(price: Price, orders: seq<OrderView>)

  datatype Trade = Trade(
    price: Price, qty: Quantity, crossingSide: Side,
    passiveAccount: AccountId, crossingAccount: AccountId,
    passiveId: OrderId, crossingId: OrderId)

  /** The new total of one price level; a total of 0 means the level is gone. */
  datatype LevelUpdate = LevelUpdate(side: Side, price: Price, total: nat)

  /** Where the id index says an order rests. */
  datatype FindOrderHelper = FindOrderHelper(id: OrderId, side: Side, price: Price)

  function Min(a: int, b: int): int {
    if a <= b then a else b
  }

  /** p is strictly better than q on this side: the comparator of the side's
      level map, std::greater for bids and std::less for asks. */
  predicate Before(side: Side, p: Price, q: Price) {
    if side == Buy then p > q else p < q
  }

  /** A price that an order on this side with this limit would accept. */
  predicate Acceptable(side: Side, limit: Price, price: Price) {
    if side == Buy then price <= limit else price >= limit
  }
}
