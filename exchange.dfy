/**
 * The exchange boundary of the grid trader (class BinanceAPI in ceshi.py).
 *
 * Nothing here talks to a network: every answer the exchange gives is an
 * input. An order placement is answered by an `Ack`, a status query by a
 * `Report`, a last-price query by an `Option<Price>`. What the controller
 * keeps of a placed order is the echo of the request: the exchange id, the
 * side, the tick-floored price and the quantity.
 */
module Exchange {

  datatype Option<T> = None | Some(value: T)

  /** Exchange-assigned order identifier (an integer on this exchange). */
  type OrderId = int

  /** A last-trade price as the exchange reports it. */
  type Price = p: real | p > 0.0 witness 1.0

  /** The symbol's price increment, read from the symbol's PRICE_FILTER. */
  type TickSize = t: real | t > 0.0 witness 1.0

  datatype Side = Buy | Sell

  /** A tracked order: the id and the echoed `price` and `origQty`. */
  datatype Order = Order(id: OrderId, side: Side, price: real, origQty: real)

  datatype OrderStatus = New | PartiallyFilled | Filled | Canceled | Rejected | Expired

  /**
   * The answer to an order-status query. A failed query carries no status
   * and an executed quantity of zero.
   */
  datatype Report = Report(status: Option<OrderStatus>, executedQty: real)

  /** What a status query that got no response answers (ceshi.py:119). */
  const QueryFailed: Report := Report(None, 0.0)

  /**
   * The answer to one placement request: refused (no symbol information, a
   * transport error, or a response without an order id), or accepted with
   * the new order's id and the tick size that was applied to its price.
   */
  datatype Ack = Refused | Accepted(id: OrderId, tickSize: TickSize)

  /** The status counts as a fill event: FILLED or PARTIALLY_FILLED. */
  predicate IsFillEvent(r: Report) {
    r.status == Some(Filled) || r.status == Some(PartiallyFilled)
  }

  /** `n` ticks of size `tick`. */
  function Ticks(n: int, tick: TickSize): real {
    n as real * tick
  }

  /** The price is a whole number of ticks. */
  ghost predicate OnTickGrid(price: real, tick: TickSize) {
    exists n: int :: price == Ticks(n, tick)
  }

  /** Rounds a price down to a whole number of ticks: the largest multiple of the tick not above it. */
  function TickFloor(price: real, tick: TickSize): (r: real)
    ensures OnTickGrid(r, tick)
    ensures r <= price < r + tick
  {
    FloorTimesBounds(price, tick, (price / tick).Floor);
    var r := (price / tick).Floor as real * tick;
    assert r == Ticks((price / tick).Floor, tick);
    r
  }

  lemma FloorTimesBounds(price: real, tick: TickSize, n: int)
    requires n == (price / tick).Floor
    ensures n as real * tick <= price < n as real * tick + tick
  {
    var x := price / tick;
    var m := n as real;
    assert m <= x < m + 1.0;
    DivTimes(price, tick);
    MulLeq(m, x, tick);
    MulLt(x, m + 1.0, tick);
    Distribute(m, tick);
    calc {
      price;
    ==
      x * tick;
    <
      (m + 1.0) * tick;
    ==
      m * tick + tick;
    }
  }

  lemma DivTimes(a: real, c: TickSize)
    ensures (a / c) * c == a
  {}

  lemma MulLeq(a: real, b: real, c: real)
    requires a <= b && c > 0.0
    ensures a * c <= b * c
  {}

  lemma MulLt(a: real, b: real, c: real)
    requires a < b && c > 0.0
    ensures a * c < b * c
  {}

  lemma Distribute(m: real, c: real)
    ensures (m + 1.0) * c == m * c + c
  {}

  /** Flooring an already floored price changes nothing. */
  lemma TickFloorIdempotent(price: real, tick: TickSize)
    ensures TickFloor(TickFloor(price, tick), tick) == TickFloor(price, tick)
  {
    var n := (price / tick).Floor;
    var r := n as real * tick;
    assert TickFloor(price, tick) == r;
    MulDiv(n as real, tick);
    assert r / tick == n as real;
    assert (n as real).Floor == n;
    assert (r / tick).Floor == n;
    assert TickFloor(r, tick) == (r / tick).Floor as real * tick;
  }

  /** No whole number of ticks at or below the price lies above its floor. */
  lemma TickFloorGreatest(price: real, tick: TickSize, n: int)
    requires Ticks(n, tick) <= price
    ensures Ticks(n, tick) <= TickFloor(price, tick)
  {
    var m := (price / tick).Floor;
    assert TickFloor(price, tick) == Ticks(m, tick);
    FloorTimesBounds(price, tick, m);
    WholeTicksBelow(n, m, tick);
    MulLeq(n as real, m as real, tick);
  }

  /** A whole number of ticks below the next tick after m ticks is at most m ticks. */
  lemma WholeTicksBelow(n: int, m: int, tick: TickSize)
    requires Ticks(n, tick) < Ticks(m, tick) + tick
    ensures n <= m
  {
    if n > m {
      MulLeq(m as real + 1.0, n as real, tick);
      Distribute(m as real, tick);
    }
  }

  lemma MulDiv(m: real, c: TickSize)
    ensures (m * c) / c == m
  {}

  /** The order a placement records once the exchange accepts it. */
  function Recorded(side: Side, price: real, amount: real, ack: Ack): (o: Order)
    requires ack.Accepted?
    ensures o.id == ack.id && o.side == side && o.origQty == amount
    ensures OnTickGrid(o.price, ack.tickSize)
    ensures o.price <= price < o.price + ack.tickSize
  {
    Order(ack.id, side, TickFloor(price, ack.tickSize), amount)
  }

  /** One placement attempt: the recorded order, or None when refused. */
  function CreateOrder(side: Side, price: real, amount: real, ack: Ack): (r: Option<Order>)
    ensures r.Some? <==> ack.Accepted?
    ensures r.Some? ==> r.value.id == ack.id && r.value.side == side && r.value.origQty == amount
    ensures r.Some? ==> OnTickGrid(r.value.price, ack.tickSize)
    ensures r.Some? ==> r.value.price <= price < r.value.price + ack.tickSize
  {
    match ack
    case Refused => None
    case Accepted(_, _) => Some(Recorded(side, price, amount, ack))
  }
}
