/** Orders and trades, as the matching engine stores them. */
module Orders {
  import opened Prelude
  import opened Ticks

  type OrderId = nat

  datatype Side = Buy | Sell

  datatype OrderType =
    | Limit | Market
    | StopLimit | StopMarket | TrailingStop
    | OCO | Iceberg | TWAP
    | FOK | IOC | PostOnly
  {
    predicate IsConditional() {
      StopLimit? || StopMarket? || TrailingStop?
    }
  }

  datatype OrderStatus = Open | PendingTrigger | PartiallyFilled | Filled | Cancelled | Rejected

  datatype Order = Order(
    id: OrderId,
    user: string,
    pair: string,
    side: Side,
    orderType: OrderType,
    price: real,
    quantity: real,
    filled: real,
    status: OrderStatus,
    stopPrice: Option<real>,
    trailingPct: Option<real>,
    ocoLink: Option<OrderId>,
    icebergPeak: Option<real>,
    timeInForce: string)

  datatype Trade = Trade(
    pair: string,
    price: real,
    quantity: real,
    buyerOrder: OrderId,
    sellerOrder: OrderId,
    buyerUser: string,
    sellerUser: string)
  {
    /** The resting order of a trade whose incoming order was on side `taker`. */
    function Maker(taker: Side): OrderId {
      if taker.Buy? then sellerOrder else buyerOrder
    }

    /** How much of order `id` this trade executed. */
    function QuantityOf(id: OrderId): real {
      (if buyerOrder == id then quantity else 0.0) + (if sellerOrder == id then quantity else 0.0)
    }
  }

  function Opposite(side: Side): Side {
    if side.Buy? then Sell else Buy
  }

  function Remaining(o: Order): real {
    o.quantity - o.filled
  }

  predicate Done(o: Order) {
    o.filled >= o.quantity
  }

  /** `o` after another `q` of it has executed. */
  function Fill(o: Order, q: real): Order {
    var filled := o.filled + q;
    o.(filled := filled, status := if filled >= o.quantity then Filled else PartiallyFilled)
  }

  /** The record of `taker` executing `q` against resting order `maker` at `tick`. */
  function TradeOf(taker: Order, maker: Order, tick: int, q: real): Trade {
    match taker.side
    case Buy => Trade(taker.pair, TicksToPrice(tick), q, taker.id, maker.id, taker.user, maker.user)
    case Sell => Trade(taker.pair, TicksToPrice(tick), q, maker.id, taker.id, maker.user, taker.user)
  }

  /** Only these types look at their own limit price before each fill. */
  predicate PriceChecked(o: Order) {
    o.orderType.Limit? || o.orderType.FOK? || o.orderType.IOC? || o.orderType.Iceberg?
  }

  /** `tick` is outside the limit price `price` of an order on side `side`. */
  predicate Outside(side: Side, price: real, tick: int) {
    match side
    case Buy => TicksToPrice(tick) > price
    case Sell => TicksToPrice(tick) < price
  }

  predicate Blocked(taker: Order, tick: int) {
    PriceChecked(taker) && Outside(taker.side, taker.price, tick)
  }

  predicate IsFok(o: Order) {
    o.orderType.FOK? || o.timeInForce == "FOK"
  }

  predicate IsIoc(o: Order) {
    o.orderType.IOC? || o.timeInForce == "IOC"
  }

  function SumQuantity(trades: seq<Trade>): real {
    if trades == [] then 0.0 else trades[0].quantity + SumQuantity(trades[1..])
  }

  /** How much of order `id` a list of trades executed. */
  function Traded(trades: seq<Trade>, id: OrderId): real {
    if trades == [] then 0.0 else trades[0].QuantityOf(id) + Traded(trades[1..], id)
  }

  lemma {:induction false} TradedAppend(a: seq<Trade>, b: seq<Trade>, id: OrderId)
    ensures Traded(a + b, id) == Traded(a, id) + Traded(b, id)
  {
    if a == [] {
      assert a + b == b;
    } else {
      assert (a + b)[1..] == a[1..] + b;
      TradedAppend(a[1..], b, id);
    }
  }
}
