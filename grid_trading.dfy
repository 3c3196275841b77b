/**
 * OrderManager and GridTrader of ceshi.py as objects whose methods update
 * their fields step by step, as the source's do. Each method is proved to
 * leave its object in the state the matching function of module GridSpec
 * describes; the properties of those functions are proved there.
 */
module GridTrading {
  import opened Exchange
  import opened OrderTable
  import opened GridSpec

  /**
   * The sell-placement retry loop: up to `retries` attempts, stopping at
   * the first one the exchange accepts.
   */
  method CreateOrderWithRetry(side: Side, price: real, amount: real, attempts: nat -> Ack, retries: nat)
    returns (placed: Option<Order>)
    ensures placed == PlaceWithRetries(side, price, amount, attempts, retries)
  {
    placed := None;
    var retryCount := retries;
    while retryCount > 0 && placed.None?
      invariant retryCount <= retries
      invariant placed.None? ==> FirstAccepted(attempts, 0, retries) == FirstAccepted(attempts, retries - retryCount, retries)
      invariant placed.Some? ==> placed == PlaceWithRetries(side, price, amount, attempts, retries)
      decreases retryCount + (if placed.None? then 1 else 0)
    {
      placed := CreateOrder(side, price, amount, attempts(retries - retryCount));
      if placed.None? {
        retryCount := retryCount - 1;
      }
    }
  }

  /** The two order tables and the `buy_order_filled` flag. */
  class OrderManager {
    const config: Config
    var buyOrders: Table
    var sellOrders: Table
    var buyOrderFilled: bool

    ghost predicate Valid()
      reads this
    {
      config.Valid() && buyOrders.Valid() && sellOrders.Valid()
    }

    /** The manager's state as a value. */
    function Snapshot(): Book
      reads this
    {
      Book(buyOrders, sellOrders, buyOrderFilled)
    }

    constructor(config: Config)
      requires config.Valid()
      ensures Valid() && this.config == config
      ensures Snapshot() == Book(Empty, Empty, false)
    {
      this.config := config;
      buyOrders := Empty;
      sellOrders := Empty;
      buyOrderFilled := false;
    }

    /**
     * `place_buy_orders`: rung after rung, records each accepted order and
     * stops at the first refusal.
     */
    method PlaceBuyOrders(basePrice: Price, acks: nat -> Ack)
      requires Valid()
      modifies this
      ensures Valid()
      ensures buyOrders == PutAll(old(buyOrders), Ladder(config, basePrice, acks))
      ensures sellOrders == old(sellOrders) && buyOrderFilled == old(buyOrderFilled)
    {
      var amount := RungQuantity(config, basePrice);
      var prices := LadderPrices(basePrice, config.dropToBuy, config.maxBuyTimes);
      ghost var goal := PutAll(buyOrders, Ladder(config, basePrice, acks));
      assert goal == PutAll(buyOrders, LadderFrom(prices, amount, acks, 0));
      var i := 0;
      while i < |prices|
        invariant 0 <= i <= |prices|
        invariant buyOrders.Valid()
        invariant PutAll(buyOrders, LadderFrom(prices, amount, acks, i)) == goal
        invariant sellOrders == old(sellOrders) && buyOrderFilled == old(buyOrderFilled)
      {
        LadderStep(buyOrders, prices, amount, acks, i);
        var order := CreateOrder(Buy, prices[i], amount, acks(i));
        if order.None? {
          return;
        }
        buyOrders := buyOrders.Put(order.value);
        i := i + 1;
      }
    }

    /**
     * `check_and_place_sell_orders`: walks a snapshot of the buys; a buy
     * reporting a fill event raises the flag, and a completely filled one is
     * replaced by a sell when one of the sell attempts is accepted.
     */
    method CheckAndPlaceSellOrders(status: OrderId -> Report, sellAcks: OrderId -> nat -> Ack)
      requires Valid()
      modifies this
      ensures Valid()
      ensures Snapshot() == Convert(config, old(Snapshot()), status, sellAcks)
    {
      var items := buyOrders.Items();
      ghost var decide := SellDecider(config, status, sellAcks);
      ghost var goal := Transfer(Pair(buyOrders, sellOrders), items, decide);
      ghost var filledGoal := buyOrderFilled || AnyFillEvent(items, status);
      var i := 0;
      while i < |items|
        invariant 0 <= i <= |items|
        invariant buyOrders.Valid() && sellOrders.Valid()
        invariant Transfer(Pair(buyOrders, sellOrders), items[i..], decide) == goal
        invariant (buyOrderFilled || AnyFillEvent(items[i..], status)) == filledGoal
      {
        var order := items[i];
        TransferStep(Pair(buyOrders, sellOrders), items, i, decide);
        AnyFillEventCons(items[i..], status);
        assert items[i..][0] == order && items[i..][1..] == items[i + 1..];
        ConvertBuy(order, status(order.id), sellAcks(order.id));
        i := i + 1;
      }
      assert items[i..] == [];
    }

    /**
     * One buy of the walk above: a fill event raises the flag, and a
     * completely filled buy is replaced by a sell when one of the sell
     * attempts is accepted.
     */
    method ConvertBuy(order: Order, report: Report, attempts: nat -> Ack)
      requires Valid()
      modifies this
      ensures Valid()
      ensures Pair(buyOrders, sellOrders) == TransferOne(old(Pair(buyOrders, sellOrders)), order, SellFor(config, order, report, attempts))
      ensures buyOrderFilled == (old(buyOrderFilled) || IsFillEvent(report))
    {
      if IsFillEvent(report) {
        buyOrderFilled := true;
        if order.origQty == report.executedQty {
          var sellPrice := SellPrice(order.price, config.riseToSell);
          var sellOrder := CreateOrderWithRetry(Sell, sellPrice, report.executedQty, attempts, SellRetries);
          if sellOrder.Some? {
            sellOrders := sellOrders.Put(sellOrder.value);
            buyOrders := buyOrders.Remove(order.id);
          }
        }
      }
    }

    /**
     * `cancel_all_orders`: forgets every tracked buy and answers the ids it
     * asks the exchange to cancel, in insertion order.
     */
    method CancelAllOrders() returns (cancelled: seq<OrderId>)
      requires Valid()
      modifies this
      ensures Valid()
      ensures cancelled == old(buyOrders.keys)
      ensures buyOrders == Empty
      ensures sellOrders == old(sellOrders) && buyOrderFilled == old(buyOrderFilled)
    {
      var ids := buyOrders.keys;
      cancelled := [];
      var i := 0;
      while i < |ids|
        invariant 0 <= i <= |ids|
        invariant buyOrders.Valid() && buyOrders.keys == ids[i..]
        invariant cancelled == ids[..i]
        invariant sellOrders == old(sellOrders) && buyOrderFilled == old(buyOrderFilled)
      {
        var orderId := ids[i];
        assert ids[i..][0] == orderId && ids[i..][1..] == ids[i + 1..];
        assert ids[..i + 1] == ids[..i] + [orderId];
        cancelled := cancelled + [orderId];
        RemoveFirstKey(buyOrders.keys);
        buyOrders := buyOrders.Remove(orderId);
        i := i + 1;
      }
      NoKeysEmpty(buyOrders);
    }
  }

  /**
   * The first sweep of `check_and_replace_buy_orders`: whether every sell
   * reports FILLED, and the id the walk ends on (the loop variable the
   * completion branch goes on to use).
   */
  method SweepSells(items: seq<Order>, status: OrderId -> Report) returns (allFilled: bool, lastId: OrderId)
    ensures allFilled <==> forall i :: 0 <= i < |items| ==> status(items[i].id).status == Some(Filled)
    ensures items != [] ==> lastId == items[|items| - 1].id
  {
    allFilled := true;
    lastId := 0;
    var i := 0;
    while i < |items|
      invariant 0 <= i <= |items|
      invariant allFilled <==> forall j :: 0 <= j < i ==> status(items[j].id).status == Some(Filled)
      invariant i > 0 ==> lastId == items[i - 1].id
    {
      lastId := items[i].id;
      if status(lastId).status != Some(Filled) {
        allFilled := false;
      }
      i := i + 1;
    }
  }

  lemma AnyFillEventCons(items: seq<Order>, status: OrderId -> Report)
    requires items != []
    ensures AnyFillEvent(items, status) <==> IsFillEvent(status(items[0].id)) || AnyFillEvent(items[1..], status)
  {
    if AnyFillEvent(items, status) {
      var i :| 0 <= i < |items| && IsFillEvent(status(items[i].id));
      if i > 0 {
        assert items[1..][i - 1] == items[i];
      }
    }
    if AnyFillEvent(items[1..], status) {
      var i :| 0 <= i < |items[1..]| && IsFillEvent(status(items[1..][i].id));
      assert items[i + 1] == items[1..][i];
    }
  }

  /** The controller: the order manager, `base_price` and `new_cycle_flag`. */
  class GridTrader {
    const config: Config
    const orderManager: OrderManager
    var basePrice: Option<Price>
    var newCycleFlag: bool

    ghost predicate Valid()
      reads this, orderManager
    {
      orderManager.Valid() && orderManager.config == config
    }

    /** The controller's state as a value. */
    function State(): TraderState
      reads this, orderManager
    {
      TraderState(orderManager.Snapshot(), basePrice, newCycleFlag)
    }

    /** A fresh controller: nothing tracked, no base price, a cycle start due. */
    constructor(config: Config)
      requires config.Valid()
      ensures Valid() && this.config == config && fresh(orderManager)
      ensures State() == TraderState(Book(Empty, Empty, false), None, true)
    {
      this.config := config;
      orderManager := new OrderManager(config);
      basePrice := None;
      newCycleFlag := true;
    }

    /**
     * `start_trade_cycle`, given the market price the exchange reports and
     * its answers for the ladder rungs; answers the ids it asked to cancel.
     */
    method StartTradeCycle(price: Option<Price>, acks: nat -> Ack) returns (cancelled: seq<OrderId>)
      requires Valid()
      modifies this, orderManager
      ensures Valid()
      ensures State() == StartCycle(config, old(State()), price, acks)
      ensures cancelled == old(orderManager.buyOrders.keys)
    {
      orderManager.buyOrderFilled := false;
      cancelled := orderManager.CancelAllOrders();
      basePrice := price;
      if price.None? {
        return;
      }
      orderManager.PlaceBuyOrders(price.value, acks);
    }

    /** `check_price_rise`, given each buy's status and the market price. */
    method CheckPriceRise(status: OrderId -> Report, price: Option<Price>)
      requires Valid()
      modifies this
      ensures Valid()
      ensures State() == PriceRise(config, old(State()), status, price)
    {
      var ids := orderManager.buyOrders.keys;
      var partialFilled := false;
      var i := 0;
      while i < |ids|
        invariant 0 <= i <= |ids|
        invariant partialFilled <==> AnyPartialFill(ids[..i], status)
      {
        if status(ids[i]).status == Some(PartiallyFilled) {
          partialFilled := true;
        }
        assert ids[..i + 1] == ids[..i] + [ids[i]];
        i := i + 1;
      }
      assert ids[..i] == ids;
      if !orderManager.buyOrderFilled && !partialFilled {
        if price.Some? && basePrice.Some? {
          var thresholdPrice := RiseThreshold(basePrice.value, config.riseToSell);
          if price.value > thresholdPrice {
            newCycleFlag := true;
          }
        }
      }
    }

    /**
     * `check_and_replace_buy_orders`: a first sweep over the sells decides
     * completion; otherwise a second sweep replaces each FILLED sell by a buy.
     */
    method CheckAndReplaceBuyOrders(first: OrderId -> Report, second: OrderId -> Report, acks: OrderId -> Ack)
      requires Valid()
      modifies this, orderManager
      ensures Valid()
      ensures State() == CheckAndReplace(config, old(State()), first, second, acks)
    {
      ghost var before := State();
      var items := orderManager.sellOrders.Items();
      var allSellOrdersFilled, orderId := SweepSells(items, first);
      assert allSellOrdersFilled <==> AllFilled(items, first);
      if allSellOrdersFilled && orderManager.sellOrders.Size() > 0 {
        assert Completes(before.book, first);
        ghost var keys := orderManager.sellOrders.keys;
        assert orderId == keys[|keys| - 1];
        orderManager.sellOrders := orderManager.sellOrders.Remove(orderId);
        newCycleFlag := true;
        return;
      }
      assert !Completes(before.book, first);
      ReplaceFilledSells(second, acks);
    }

    /** The second sweep of `check_and_replace_buy_orders`. */
    method ReplaceFilledSells(status: OrderId -> Report, acks: OrderId -> Ack)
      requires Valid()
      modifies orderManager
      ensures Valid()
      ensures orderManager.Snapshot() == Replenish(config, old(orderManager.Snapshot()), status, acks)
    {
      var items := orderManager.sellOrders.Items();
      ghost var decide := BuyDecider(config, status, acks);
      ghost var goal := Transfer(Pair(orderManager.sellOrders, orderManager.buyOrders), items, decide);
      var i := 0;
      while i < |items|
        invariant 0 <= i <= |items|
        invariant orderManager.Valid() && orderManager.config == config
        invariant orderManager.buyOrderFilled == old(orderManager.buyOrderFilled)
        invariant Transfer(Pair(orderManager.sellOrders, orderManager.buyOrders), items[i..], decide) == goal
      {
        TransferStep(Pair(orderManager.sellOrders, orderManager.buyOrders), items, i, decide);
        ReplaceSell(items[i], status(items[i].id), acks(items[i].id));
        i := i + 1;
      }
    }

    /**
     * One sell of the second sweep: a FILLED sell is replaced by a buy at its
     * price marked down, for its quantity, when the exchange accepts it.
     */
    method ReplaceSell(order: Order, report: Report, ack: Ack)
      requires Valid()
      modifies orderManager
      ensures Valid()
      ensures orderManager.buyOrderFilled == old(orderManager.buyOrderFilled)
      ensures Pair(orderManager.sellOrders, orderManager.buyOrders) ==
        TransferOne(old(Pair(orderManager.sellOrders, orderManager.buyOrders)), order, BuyFor(config, order, report, ack))
    {
      if report.status == Some(Filled) {
        var newBuyPrice := ReplenishPrice(order.price, config.dropToBuy);
        var buyOrder := CreateOrder(Buy, newBuyPrice, order.origQty, ack);
        if buyOrder.Some? {
          orderManager.buyOrders := orderManager.buyOrders.Put(buyOrder.value);
          orderManager.sellOrders := orderManager.sellOrders.Remove(order.id);
        }
      }
    }

    /** One pass of the `trade` loop, given the exchange's answers during it. */
    method TradePass(inputs: TickInputs)
      requires Valid()
      modifies this, orderManager
      ensures Valid()
      ensures State() == Tick(config, old(State()), inputs)
    {
      if newCycleFlag || basePrice.None? {
        var _ := StartTradeCycle(inputs.startPrice, inputs.ladderAcks);
        newCycleFlag := false;
      }
      orderManager.CheckAndPlaceSellOrders(inputs.buyStatus, inputs.sellAcks);
      CheckAndReplaceBuyOrders(inputs.sellStatus, inputs.sellStatusAgain, inputs.replenishAcks);
      CheckPriceRise(inputs.riseStatus, inputs.risePrice);
    }

    /** `trade`: pass after pass, one per entry of `passes`. */
    method Trade(passes: seq<TickInputs>)
      requires Valid()
      modifies this, orderManager
      ensures Valid()
      ensures State() == Run(config, old(State()), passes)
    {
      var n := 0;
      while n < |passes|
        invariant 0 <= n <= |passes|
        invariant Valid()
        invariant Run(config, State(), passes[n..]) == Run(config, old(State()), passes)
      {
        assert passes[n..][0] == passes[n] && passes[n..][1..] == passes[n + 1..];
        TradePass(passes[n]);
        n := n + 1;
      }
    }
  }
}
