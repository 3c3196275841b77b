# Grid trader order lifecycle in Dafny

This project models the order-lifecycle controller of a grid-trading bot for
one futures pair (`ceshi.py`):

- **`OrderManager`** keeps two order tables, `buy_orders` and `sell_orders`, and the flag `buy_order_filled`. A table is keyed by exchange order id and iterates in insertion order.
- **`GridTrader`** keeps `base_price` and `new_cycle_flag`. On every pass of its trade loop it does four things in order:
  - starts a cycle when one is due: cancels the tracked buys, fetches the market price and lays a ladder of buys below it;
  - turns each completely filled buy into a sell above it;
  - either declares the cycle complete, when every tracked sell is filled, or replaces each filled sell with a buy below it;
  - restarts the cycle when the price has risen past the sell threshold with no buy filled.

The exchange is not modelled as I/O. Each of its answers is an input:

- A placement is answered by an `Ack`: refused, or accepted with an order id and the tick size applied to the price.
- A status query is answered by a `Report`: an optional status and the executed quantity.
- A market-price query is answered by an `Option<Price>`.

What the controller records of a placed order is its id, side, tick-floored price and quantity.

The project has four modules.

- **`Exchange`** (`exchange.dfy`): order, status and answer types; the tick floor; the record of one placement.
- **`OrderTable`** (`order_table.dfy`): an insertion-ordered dictionary of orders, as a key sequence plus a map, with its put, delete and item-listing operations and lemmas about storing many orders.
- **`GridSpec`** (`grid_spec.dfy`): the controller's decisions as functions of its state and of the exchange's answers, and the properties of those functions:
  - ladder shape and placement;
  - sell retries;
  - buy→sell conversion;
  - completion and replenishment;
  - the price-rise restart;
  - cycle start;
  - one pass of the loop.
- **`GridTrading`** (`grid_trading.dfy`): the classes `OrderManager` and `GridTrader`. Their fields are updated in place by methods that loop as the source does. Each method is proved to leave the object in the state the matching `GridSpec` function describes.

Some consequences of the code that a reader might not expect, all modelled as written:

- **Partial ladders are not re-laid.** `trade` clears `new_cycle_flag` after every cycle-start attempt, whatever its outcome (ceshi.py:261-264). So once a base price is known, a ladder that stopped at a refused rung is not placed again on the next pass. `GridSpec.NextCycleDue` states this.
- **Sell price.** A sell is priced from the buy's recorded (echoed) price, not from a fill price (ceshi.py:163).
- **Replacement buy price.** A replacement buy is priced from the sell's recorded price and quantity, not from a fill price (ceshi.py:244-246).
- **Failed price fetch.** A cycle start drops every tracked buy and clears the filled flag before it fetches the price. When the fetch fails, it stores the missing price as the base price, so a new start is due on the next pass (ceshi.py:196-203).

## Model

| member | source | states |
|---|---|---|
| Exchange.TickFloor | ceshi.py:87-88 | the floored price is a whole number of ticks, at most the price and less than one tick below it |
| Exchange.TickFloorGreatest | ceshi.py:88 | no whole number of ticks at or below the price is above the floored price |
| Exchange.TickFloorIdempotent | ceshi.py:88 | flooring an already floored price changes nothing |
| Exchange.Recorded | ceshi.py:86-104 | a recorded order carries the exchange's id, the side and quantity asked for, and a price that is a whole number of ticks within one tick below the price asked for |
| Exchange.CreateOrder | ceshi.py:82-106 | an order is recorded exactly when the exchange accepts; its id, side and quantity are those asked for, and its price is a whole number of ticks within one tick below the price asked for |
| OrderTable.RemoveKey | ceshi.py:178 | deleting a key drops exactly that key and no other, leaves the keys unchanged when it is absent, keeps them distinct, and shortens distinct keys by one when it is present |
| OrderTable.RemoveKeyAt | ceshi.py:178 | deleting the key at position k of distinct keys leaves the keys before it followed by the keys after it, in their order |
| OrderTable.RemoveLastKey | ceshi.py:236 | deleting the last of distinct keys leaves the key order without its last element |
| OrderTable.RemoveFirstKey | ceshi.py:181-183 | deleting the first of distinct keys leaves the rest of the key order |
| OrderTable.Table.Put | ceshi.py:154 | `table[id] = o` files o under its id; a new id is appended to the key order, an existing one keeps its place |
| OrderTable.Table.Remove | ceshi.py:183 | `del table[id]` removes that entry and key and shrinks the table by one when the id is present |
| OrderTable.Table.Items | ceshi.py:157 | the items list every tracked order once, in insertion order, each under its own id |
| OrderTable.NoKeysEmpty | ceshi.py:181-183 | a table whose keys have all been deleted is the empty table |
| OrderTable.PutAllGrowth | ceshi.py:149-154 | storing orders drops no key, files every stored id, and adds at most one entry per order |
| OrderTable.PutAllFreshKeys | ceshi.py:149-154 | storing orders with new, distinct ids appends exactly their ids to the key order |
| OrderTable.PutAllFreshEntries | ceshi.py:149-154 | storing orders with new, distinct ids leaves every existing entry unchanged and files each new order under its id |
| GridSpec.LadderShape | ceshi.py:148 | the ladder has max_buy_times prices, rung i at base*(1 - drop*i); with a positive drop all are below base and strictly decreasing |
| GridSpec.RungQuantityShare | ceshi.py:145-146 | each rung's quantity, priced at base, is an equal 1/N share of margin*leverage |
| GridSpec.MarkupDirections | ceshi.py:163 | with fractions in (0,1) a sell is above its buy, and a replenishing buy (line 245) is positive and below its sell |
| GridSpec.PricingExample | ceshi.py:148 | base 600 with drop 0.001 gives rungs 599.4 and 598.8; the sell for 598.8 is 599.3988 |
| GridSpec.FirstAccepted | ceshi.py:168-172 | the attempt chosen is accepted and every earlier one was refused; none is chosen only if all were refused |
| GridSpec.PlaceWithRetries | ceshi.py:166-172 | a sell is recorded iff one of the attempts is accepted, and it is the first accepted attempt's order |
| GridSpec.RetryIgnoresLaterAttempts | ceshi.py:167-168 | no answer beyond the retry budget of 3 is ever consulted |
| GridSpec.LadderFrom | ceshi.py:149-154 | placing the rungs from rung i on records at most the remaining rungs |
| GridSpec.LadderFromRungs | ceshi.py:149-154 | the recorded rungs are consecutive accepted rungs, each at its floored ladder price with the rung quantity |
| GridSpec.LadderFromEnd | ceshi.py:150-153 | a ladder that stops before the last rung stops at a refused rung |
| GridSpec.LadderStep | ceshi.py:149-154 | a refused rung ends the placement with the table unchanged; an accepted one is stored before the later rungs |
| GridSpec.LadderIgnoresLaterAcks | ceshi.py:151-153 | rungs after the first refusal are never attempted: their answers do not affect the result |
| GridSpec.LadderPlacement | ceshi.py:144-154 | a placement records at most N orders, the k-th being rung k+1 at its floored price with the rung quantity, and a short ladder ends at a refusal |
| GridSpec.Decided | ceshi.py:157-178 | a conversion loop creates at most one new order per item |
| GridSpec.Kept | ceshi.py:177-178 | the kept keys are exactly those of the given keys that no converted item carries |
| GridSpec.KeptStep | ceshi.py:157-178 | filtering the keys by all the items is deleting the first item's id, when it was converted, and then filtering by the rest |
| GridSpec.TransferSource | ceshi.py:157-178 | an order leaves the source table exactly when an item with its id was converted; the rest stay unchanged and keep their insertion order |
| GridSpec.TransferTarget | ceshi.py:166-174 | the target table receives exactly the created orders, in order |
| GridSpec.TransferCount | ceshi.py:177-178 | the source loses exactly one order per created order |
| GridSpec.DecidedOrigin | ceshi.py:157-178 | every created order was created for one of the items |
| GridSpec.SellForShape | ceshi.py:160-172 | a sell exists iff the buy reports FILLED or PARTIALLY_FILLED with its whole origQty executed and an attempt is accepted; it is at buyPrice*(1+rise) for the buy's origQty |
| GridSpec.Convert | ceshi.py:156-178 | a conversion pass keeps both tables well formed |
| GridSpec.ConvertBuys | ceshi.py:157-178 | buys are only ever removed, never changed; a buy is removed iff a sell was created for it; the buys that stay keep their insertion order |
| GridSpec.ConvertSells | ceshi.py:166-178 | the sell table receives exactly the created sells, one per removed buy, each created for a tracked buy |
| GridSpec.ConvertFlag | ceshi.py:160-161 | the filled flag is raised iff some tracked buy reports FILLED or PARTIALLY_FILLED, and is never lowered |
| GridSpec.ConvertFreshSells | ceshi.py:174-178 | with fresh ids, the sells grow by exactly the number of buys dropped and the earlier sells stay unchanged |
| GridSpec.Replenish | ceshi.py:241-253 | the replenishing sweep keeps both tables well formed |
| GridSpec.CheckAndReplace | ceshi.py:223-253 | a replace pass keeps both tables well formed |
| GridSpec.CompletionEffect | ceshi.py:228-238 | when sells exist and all report FILLED, a new cycle is flagged, no buy is placed, exactly the last sell in insertion order is deleted, and the base price and filled flag stay |
| GridSpec.BuyForShape | ceshi.py:243-250 | a replacement buy exists iff the sell reports FILLED and the placement is accepted; it is at sellPrice*(1-drop) for the sell's origQty |
| GridSpec.FailedQueryActsOnNothing | ceshi.py:119 | a status query without a response is no fill event and leads to no sell for a buy and no replacement buy for a sell |
| GridSpec.ReplenishBook | ceshi.py:241-253 | sells are only removed, exactly those with a created buy, and those left keep their insertion order; buys receive exactly the created buys, one per removed sell; the filled flag is untouched |
| GridSpec.ReplenishEffect | ceshi.py:223-253 | outside completion the cycle flag, filled flag and base price stay; a sell is deleted iff it is FILLED and its replacement was accepted; the sells left are unchanged and keep their insertion order; an empty sell table changes nothing |
| GridSpec.PriceRiseEffect | ceshi.py:206-220 | the rise check changes only the flag, never lowers it, and raises it iff no buy filled, none is PARTIALLY_FILLED, both prices are known and current > base*(1+rise) |
| GridSpec.StartCycle | ceshi.py:194-204 | a cycle start keeps both tables well formed |
| GridSpec.StartCycleEffect | ceshi.py:194-204 | a cycle start keeps every sell, lowers the filled flag, drops every old buy, stores the fetched price (even a missing one), and tracks at most N ladder buys, none without a price |
| GridSpec.PutAllKeys | ceshi.py:154 | every key after storing orders is an old key or a stored id |
| GridSpec.Tick | ceshi.py:259-268 | one pass keeps both tables well formed |
| GridSpec.Run | ceshi.py:258-270 | any number of passes keeps both tables well formed |
| GridSpec.NextCycleDue | ceshi.py:259-268 | after a pass that started a cycle with a known price, another start is due iff the pass completed the cycle or saw the price rise, so a partial ladder is not re-laid |
| GridTrading.CreateOrderWithRetry | ceshi.py:166-172 | the retry loop yields exactly the first accepted attempt's order within the budget, or none |
| GridTrading.SweepSells | ceshi.py:228-232 | the first sweep reports all-FILLED iff every sell is FILLED, and ends on the last sell's id |
| GridTrading.OrderManager.constructor | ceshi.py:135-142 | a new manager tracks no orders and its filled flag is down |
| GridTrading.OrderManager.PlaceBuyOrders | ceshi.py:144-154 | the buy table becomes the old one with the ladder's recorded orders stored in rung order; sells and flag untouched |
| GridTrading.OrderManager.CheckAndPlaceSellOrders | ceshi.py:156-178 | the manager's new state is the conversion pass of its old state |
| GridTrading.OrderManager.ConvertBuy | ceshi.py:160-178 | one buy's step: the flag rises on a fill event, and the buy is swapped for its sell when one is created |
| GridTrading.OrderManager.CancelAllOrders | ceshi.py:180-183 | every tracked buy is cancelled in insertion order and the buy table ends empty; sells and flag untouched |
| GridTrading.GridTrader.constructor | ceshi.py:186-192 | a new trader tracks nothing, has no base price and has a cycle start due |
| GridTrading.GridTrader.StartTradeCycle | ceshi.py:194-204 | the trader's new state is the cycle start of its old state; the cancelled ids are the old buys |
| GridTrading.GridTrader.CheckPriceRise | ceshi.py:206-220 | the trader's new state is the rise check of its old state |
| GridTrading.GridTrader.CheckAndReplaceBuyOrders | ceshi.py:223-253 | the trader's new state is the completion-or-replenish pass of its old state |
| GridTrading.GridTrader.ReplaceFilledSells | ceshi.py:241-253 | the manager's new state is the replenishing sweep of its old state |
| GridTrading.GridTrader.ReplaceSell | ceshi.py:243-253 | one sell's step: a FILLED sell is swapped for its replacement buy when that buy is accepted |
| GridTrading.GridTrader.TradePass | ceshi.py:259-268 | one loop pass leaves the trader in the state of one pass of the model |
| GridTrading.GridTrader.Trade | ceshi.py:256-270 | a sequence of passes leaves the trader in the state of running the model over them |

## Left out

- HTTP transport, request signing, timestamps and JSON decoding (ceshi.py:32-49): I/O and a foreign cryptographic call. Each exchange answer is an input instead.
- Symbol-information lookup and market-price parsing (ceshi.py:51-80): network clients. Their results are the tick size carried by an accepted `Ack` and an optional price.
- `round(..., precision)` of price and quantity (ceshi.py:89-90): decimal floating-point detail. Prices and quantities are exact reals, and the recorded order keeps the requested quantity.
- The float comparison of `origQty` with the executed quantity (ceshi.py:162): it is exact real equality in the model.
- The exchange's `price` and `origQty` echo: the model assumes it is the submitted tick-floored price and quantity.
- The exchange effect of `cancel_order` (ceshi.py:121-132): only its local consequence is modelled. `CancelAllOrders` removes the buys and returns the ids it would ask the exchange to cancel.
- The flags `sell_order_filled`, `sell_order_executed` and `order_executed` (ceshi.py:140-141, 175, 192): they are written but never read by the controller.
- `print` logging throughout: it has no effect on the state.
- `TraderConfig` construction, `BinanceAPI` construction and the `__main__` block (ceshi.py:11-30, 272-285): configuration and bootstrap. `Config` keeps only the numeric parameters.
- Prices and tick sizes are positive reals (`Price`, `TickSize`). The source would divide by a zero tick size or a zero base price.
- Fresh order ids are assumed only where a lemma says so (`ConvertFreshSells`, `PutAllFreshKeys`, `PutAllFreshEntries`, the last clause of `StartCycleEffect`). Everywhere else a repeated id overwrites its entry, as a Python dict does.
- GridTrading.GridTrader.Trade: runs a finite sequence of passes rather than `while True`, and leaves out the one-second `time.sleep` between passes.
