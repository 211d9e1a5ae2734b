# Order-matching engine of `prajaktkulkarni81/order`, modelled in Dafny

The system is a stock order book service. Trade requests become trade order
entities (`OrderBookServiceImpl`). The `OrderProcessor` keeps two registries,
BUY and SELL, each mapping a stock ticker to a priority queue of resting
orders. The processor supports four operations:

- **process** matches a new order against the opposite side's head, splitting
  quantities in place, and rests what is left.
- **processUpdate** replaces a resting order by id.
- **deleteOrder** cancels by id across every queue.
- **retrieveOrderBook** lists a ticker's BUY orders, then its SELL orders.

The model has six modules, one file each:

- `results.dfy` (`Results`): `Option`, and `Result`, whose `NotFound` case
  stands for the `ResourceNotFoundException`.
- `orders.dfy` (`Orders`) holds:
  - the order entity and its Lombok value equality (`SameOrder`, which
    ignores the order id and the order type);
  - the two queue comparators (`Precedes`) and `peek` (`BestIndex`);
  - the queue primitives: value-based `remove` (`RemoveSame`) and `removeIf`
    by id (`RemoveId`).
- `matching.dfy` (`Matching`): the two registries as a value (`Registry`)
  and every processor operation as a function of it. `Step` is one
  `processOrder` call, `Incremental` is `processIncrementalOrders`, and the
  others are `Process`, `Update`, `Delete` and `Retrieve`.
- `matching_proofs.dfy` (`MatchingProofs`): what those functions promise.
  It covers quantity conservation, head ordering, head removal, the registry
  invariant, and the error cases of update, delete and retrieve.
- `processor.dfy` (`Processor`): the class `OrderProcessor`. Its fields
  `buyMap` and `sellMap` are updated in place. Every method is proved to end
  in the state, and return the values, that the `Matching` functions compute.
- `service.dfy` (`Service`): `createTradeOrder` as a function of the request,
  the id and the clock, plus the class `OrderBookService`, which delegates to
  the processor.

Modelling choices:

- A side queue is a `seq<Order>`. The sequence is the model's own arrangement
  of the queue's elements, not the heap array: resting appends where the heap
  sifts up, and removal keeps the order where the heap re-arranges.
- Some choices of the code depend on the heap's array order: which of several
  comparator-tied orders `peek` returns, which equal element `remove(Object)`
  finds (`OrderProcessor.java:161,189,339`), the order `findFirst` visits
  (`:337`), and the order `addAll` copies (`:262,266`). At each of these the
  model takes the first element in its arrangement instead.
- `peek` is the first comparator-minimal element.
- Quantities are `nat`. Prices are `real`, exact like `BigDecimal`.
- The `OrderType` enum's declaration order is not part of this model. The
  boolean `marketFirst` says whether MARKET ranks before LIMIT, and every
  result holds for both values.

Where the code does something other than what its comments or names lead
one to expect, the model follows the code:

- **Price direction.** The comparator's Javadoc (`OrderProcessor.java:222-233`)
  is wrong twice. It names the second key "Quantity", but the code compares
  price (`:240`, `:243`). It also gives the opposite direction: BUY "Highest
  to Lowest" and SELL "Lowest to Highest", whereas the BUY comparator sorts
  price ascending and the SELL comparator descending (`:237-244`). The BUY head is
  therefore the lowest bid, and the SELL head the highest ask.
- **Delete's result.** One would expect `deleteOrder` to succeed when any
  queue held the id. Instead it assigns its success flag for each queue it
  scans, without OR-ing (`OrderProcessor.java:290-296`). Success therefore
  reflects only the last queue scanned (`MatchingProofs.DeleteFlagOverwritten`).
- **Removal equality.** Removal by value uses entity equality, which ignores
  the id and the order type (`TradeOrderEntity.java:14-22`). An update can
  therefore remove a different order that is equal in every field but the id
  and the order type (`MatchingProofs.UpdateMayRemoveAnother`).
- **Zero-quantity orders.** An incoming order with quantity 0 that crosses
  falls into the "equal" branch and removes the head. The conservation
  results therefore assume a positive incoming quantity, as request
  validation guarantees.

## Model

| member | source | states |
|---|---|---|
| Orders.PrecedesTotal | src/main/java/com/trade/stock/order/processor/OrderProcessor.java:237-246 | any two orders are ordered one way or the other by the side's comparator |
| Orders.PrecedesTransitive | src/main/java/com/trade/stock/order/processor/OrderProcessor.java:237-246 | the side's comparator is transitive |
| Orders.BestIndex | src/main/java/com/trade/stock/order/processor/OrderProcessor.java:98 | `peek` of a non-empty queue: an index in range whose order precedes every order of the queue, with no earlier order preceding it |
| Orders.RemoveSame | src/main/java/com/trade/stock/order/processor/OrderProcessor.java:161 | value-based `remove` takes out exactly one element when some element is entity-equal to the argument, leaves the queue unchanged when none is, and the element it takes out is the first one entity-equal to the argument |
| Orders.RemoveId | src/main/java/com/trade/stock/order/processor/OrderProcessor.java:291 | `removeIf` by id keeps exactly the orders whose id differs, and never lengthens the queue |
| Orders.RemoveIdMultiset | src/main/java/com/trade/stock/order/processor/OrderProcessor.java:291 | `removeIf` keeps every order whose id differs with all its copies and drops every copy of one carrying the id |
| Orders.RemoveIdClears | src/main/java/com/trade/stock/order/processor/OrderProcessor.java:291 | after `removeIf` no order with the id is left |
| Orders.RemoveIdAbsent | src/main/java/com/trade/stock/order/processor/OrderProcessor.java:291 | `removeIf` leaves a queue without the id unchanged (it reports false) |
| Orders.RemoveIdShrinks | src/main/java/com/trade/stock/order/processor/OrderProcessor.java:291 | `removeIf` shortens a queue that holds the id (it reports true) |
| Orders.FirstWithId | src/main/java/com/trade/stock/order/processor/OrderProcessor.java:337 | `findFirst` by id: the first index carrying the id, or the length when none does |
| Matching.TakeHead | src/main/java/com/trade/stock/order/processor/OrderProcessor.java:159-161 | zeroing the head and removing it by value shortens the opposite queue by one |
| Matching.Step | src/main/java/com/trade/stock/order/processor/OrderProcessor.java:149-220 | one `processOrder` call changes only the incoming quantity, and a step after which matching continues shortens the opposite queue, so the matching recursion terminates |
| Matching.Retrieve | src/main/java/com/trade/stock/order/processor/OrderProcessor.java:254-276 | fails, with the message naming the ticker, exactly when both queues are absent or empty; otherwise returns exactly the orders of both queues |
| Matching.RemoveIdAll | src/main/java/com/trade/stock/order/processor/OrderProcessor.java:290-296 | `removeIf` over every entry keeps every registry key |
| MatchingProofs.HeadIsMinimal | src/main/java/com/trade/stock/order/processor/OrderProcessor.java:237-246 | the head has the least kind rank and, within it, the lowest price on BUY and the highest on SELL |
| MatchingProofs.EarlierOrderMatchesFirst | src/main/java/com/trade/stock/order/processor/OrderProcessor.java:241-244 | among orders of the same kind and price, a later trade time is never the head while an earlier one rests |
| MatchingProofs.KindRankDominatesPrice | src/main/java/com/trade/stock/order/processor/OrderProcessor.java:239-242 | an order of the later-ranked kind (LIMIT when MARKET ranks first) is never the head while one of the earlier-ranked kind rests, whatever the prices |
| MatchingProofs.RemovalFindsHead | src/main/java/com/trade/stock/order/processor/OrderProcessor.java:160-164 | in a sequential run the removal of the zeroed head always succeeds, so the retry branch is never taken |
| MatchingProofs.ZeroedHeadRemovedExactly | src/main/java/com/trade/stock/order/processor/OrderProcessor.java:159-161 | when every other resting order is positive, the element removed is the zeroed head itself |
| MatchingProofs.RestFrame | src/main/java/com/trade/stock/order/processor/OrderProcessor.java:81-87 | `processFirstOrder` appends the order to its own queue (created on demand) and touches no other queue |
| MatchingProofs.TakeHeadFrame | src/main/java/com/trade/stock/order/processor/OrderProcessor.java:159-161 | taking out the head lowers the opposite total by the head's quantity and leaves the own side alone |
| MatchingProofs.TakeHeadExact | src/main/java/com/trade/stock/order/processor/OrderProcessor.java:187-189 | under the registry invariant, taking out the head is removal at the head's position |
| MatchingProofs.ReduceHeadFrame | src/main/java/com/trade/stock/order/processor/OrderProcessor.java:183-185 | a partial fill lowers the head's quantity in place by the incoming quantity and nothing else |
| MatchingProofs.StepFillLarger | src/main/java/com/trade/stock/order/processor/OrderProcessor.java:158-173 | a larger incoming order loses the head's quantity, the opposite total drops by the same amount, and the remainder rests once only when the opposite queue emptied |
| MatchingProofs.StepLargerEmptied | src/main/java/com/trade/stock/order/processor/OrderProcessor.java:164-173 | when removing the head empties the opposite queue, the remainder rests at the back of its own queue |
| MatchingProofs.StepFillSmaller | src/main/java/com/trade/stock/order/processor/OrderProcessor.java:183-185 | a smaller incoming order is filled to zero, rests nowhere and lowers the opposite total by its quantity |
| MatchingProofs.StepFillEqual | src/main/java/com/trade/stock/order/processor/OrderProcessor.java:186-203 | equal quantities zero both orders, and the head leaves the opposite queue |
| MatchingProofs.StepFill | src/main/java/com/trade/stock/order/processor/OrderProcessor.java:152-204 | a crossing step fills min(incoming, head) from both sides, conserving quantity, and changes only the order's ticker |
| MatchingProofs.StepHeadOutcome | src/main/java/com/trade/stock/order/processor/OrderProcessor.java:158-204 | a head that reaches zero leaves the opposite queue; a head larger than the incoming order stays with the reduced quantity while the incoming order ends at zero and rests nowhere |
| MatchingProofs.StepRollback | src/main/java/com/trade/stock/order/processor/OrderProcessor.java:156-198 | a failed removal restores both quantities and the registry before reprocessing, and the partial-fill branch never consults removal |
| MatchingProofs.StepRestsWithoutCross | src/main/java/com/trade/stock/order/processor/OrderProcessor.java:207-217 | a head that does not cross rests the incoming order unchanged on its own side and reports it unmatched |
| MatchingProofs.IncrementalConserves | src/main/java/com/trade/stock/order/processor/OrderProcessor.java:89-109 | over the whole matching recursion the opposite side loses exactly what the incoming order filled; any remainder rests exactly once; only the ticker's queues change |
| MatchingProofs.IncrementalExit | src/main/java/com/trade/stock/order/processor/OrderProcessor.java:97-103 | matching repeats against the next opposite head until the order is filled: an order left with quantity faces an empty opposite queue or a head it does not cross |
| MatchingProofs.ProcessExit | src/main/java/com/trade/stock/order/processor/OrderProcessor.java:54-79 | after `process`, an order left with quantity faces an empty opposite queue or a head it does not cross |
| MatchingProofs.ProcessConserves | src/main/java/com/trade/stock/order/processor/OrderProcessor.java:35-79 | `process` conserves quantity, rests a positive remainder exactly once, removes no registry entry and touches no other ticker |
| MatchingProofs.ProcessRestsWithoutCross | src/main/java/com/trade/stock/order/processor/OrderProcessor.java:54-79 | with the opposite queue absent or empty, or a head that does not cross, `process` only rests the order |
| MatchingProofs.ProcessRestsOnEmptyOpposite | src/main/java/com/trade/stock/order/processor/OrderProcessor.java:67-79 | an order with nothing on the opposite side is appended to its own queue |
| MatchingProofs.ProcessFillsWhenCross | src/main/java/com/trade/stock/order/processor/OrderProcessor.java:152-189 | when the opposite head crosses, the incoming quantity and the opposite total both strictly drop |
| MatchingProofs.FirstOfEqualBuysMatchesFirst | src/test/java/com/trade/stock/order/processor/OrderProcessorTest.java:68-78 | two equal BUY orders rest in arrival order; a SELL of the same quantity fills the first and leaves exactly the second |
| MatchingProofs.SellMatchesFirstBuy | src/test/java/com/trade/stock/order/processor/OrderProcessorTest.java:68-78 | with two equal BUY orders resting in arrival order, a crossing SELL of the first one's quantity is filled and removes the first and only the first |
| MatchingProofs.TakeHeadPreservesValid | src/main/java/com/trade/stock/order/processor/OrderProcessor.java:159-161 | taking out the head keeps every resting order positive and in its own side and ticker's queue |
| MatchingProofs.ReduceHeadPreservesValid | src/main/java/com/trade/stock/order/processor/OrderProcessor.java:183-185 | a partial fill keeps the reduced head positive |
| MatchingProofs.RestPreservesValid | src/main/java/com/trade/stock/order/processor/OrderProcessor.java:81-87 | resting a positive order keeps the registry invariant |
| MatchingProofs.StepPreservesValid | src/main/java/com/trade/stock/order/processor/OrderProcessor.java:149-220 | one step of a positive order keeps the registry invariant |
| MatchingProofs.IncrementalPreservesValid | src/main/java/com/trade/stock/order/processor/OrderProcessor.java:89-109 | the matching recursion keeps the registry invariant |
| MatchingProofs.ProcessPreservesValid | src/main/java/com/trade/stock/order/processor/OrderProcessor.java:35-87 | no zero-quantity order ever rests, and every order rests in its own side and ticker's queue |
| MatchingProofs.RetrieveSplitsBySide | src/main/java/com/trade/stock/order/processor/OrderProcessor.java:258-267 | the snapshot holds the ticker's BUY orders first and its SELL orders after them |
| MatchingProofs.RetrieveSeesRestedOrder | src/main/java/com/trade/stock/order/processor/OrderProcessor.java:254-276 | an order that `process` leaves resting shows up in its ticker's snapshot |
| MatchingProofs.UpdateNotFoundIff | src/main/java/com/trade/stock/order/processor/OrderProcessor.java:333-350 | update fails, with the fixed message, exactly when the entity's own side and ticker queue holds no order with its id |
| MatchingProofs.UpdateReplaces | src/main/java/com/trade/stock/order/processor/OrderProcessor.java:336-340 | a successful update swaps one order equal to the matched one for the entity: same size, entity present, other side and other tickers untouched, no matching |
| MatchingProofs.UpdateReplacesMatched | src/main/java/com/trade/stock/order/processor/OrderProcessor.java:337-340 | when no earlier order equals the matched one, the order replaced is the one carrying the id |
| MatchingProofs.UpdateMayRemoveAnother | src/main/java/com/trade/stock/order/processor/OrderProcessor.java:339 | with two orders equal but for their ids, an update of the second removes the first |
| MatchingProofs.UpdatePreservesValid | src/main/java/com/trade/stock/order/processor/OrderProcessor.java:333-350 | an update with a positive entity keeps the registry invariant |
| MatchingProofs.DeleteRemovesEveryCopy | src/main/java/com/trade/stock/order/processor/OrderProcessor.java:290-296 | after delete no queue holds the id, every other order stays with all its copies, and no entry is removed |
| MatchingProofs.DeleteFailsWhenAbsent | src/main/java/com/trade/stock/order/processor/OrderProcessor.java:297-303 | delete of an id no queue holds fails with the fixed message and changes nothing |
| MatchingProofs.DeleteSuccessMeansFound | src/main/java/com/trade/stock/order/processor/OrderProcessor.java:288-303 | delete succeeds exactly when the last queue scanned held the id, which implies some queue did |
| MatchingProofs.DeleteTwiceFails | src/main/java/com/trade/stock/order/processor/OrderProcessor.java:284-306 | a repeated delete of the same id fails, whatever order the entries are scanned in |
| MatchingProofs.DeleteFlagOverwritten | src/main/java/com/trade/stock/order/processor/OrderProcessor.java:290-296 | a BUY order is removed, yet the call fails because an empty SELL queue is scanned last |
| MatchingProofs.DeletePreservesValid | src/main/java/com/trade/stock/order/processor/OrderProcessor.java:284-306 | delete keeps the registry invariant |
| Processor.OrderProcessor.constructor | src/main/java/com/trade/stock/order/processor/OrderProcessor.java:26-27 | both registries start empty |
| Processor.OrderProcessor.Process | src/main/java/com/trade/stock/order/processor/OrderProcessor.java:35-51 | the registry and the incoming order end as `Matching.Process` computes |
| Processor.OrderProcessor.ProcessSellOrder | src/main/java/com/trade/stock/order/processor/OrderProcessor.java:54-65 | a SELL order rests when no BUY queue waits, otherwise is matched, as `Matching.Process` computes |
| Processor.OrderProcessor.ProcessBuyOrder | src/main/java/com/trade/stock/order/processor/OrderProcessor.java:67-79 | a BUY order rests when no SELL queue waits, otherwise is matched, as `Matching.Process` computes |
| Processor.OrderProcessor.ProcessFirstOrder | src/main/java/com/trade/stock/order/processor/OrderProcessor.java:81-87 | the order is appended to the side's queue for its ticker, created on demand; nothing else changes |
| Processor.OrderProcessor.ProcessIncrementalOrders | src/main/java/com/trade/stock/order/processor/OrderProcessor.java:89-109 | the recursion ends in the state `Matching.Incremental` computes |
| Processor.OrderProcessor.ProcessOrder | src/main/java/com/trade/stock/order/processor/OrderProcessor.java:149-220 | the in-place quantity updates and removals end in the state, incoming order and flag of `Matching.Step` with successful removal |
| Processor.OrderProcessor.RetrieveOrderBook | src/main/java/com/trade/stock/order/processor/OrderProcessor.java:254-276 | returns `Matching.Retrieve` of the current state and changes nothing |
| Processor.OrderProcessor.RemoveIdFromBook | src/main/java/com/trade/stock/order/processor/OrderProcessor.java:290-292 | the loop applies `removeIf` to every queue of one registry, and its flag is the last queue's result |
| Processor.OrderProcessor.DeleteOrder | src/main/java/com/trade/stock/order/processor/OrderProcessor.java:284-306 | ends in the state and result of `Matching.Delete` for the given iteration orders |
| Processor.OrderProcessor.ProcessUpdate | src/main/java/com/trade/stock/order/processor/OrderProcessor.java:313-331 | on success the state becomes `Matching.Update`'s; on failure the error propagates and nothing changes |
| Processor.OrderProcessor.ProcessUpdateQueue | src/main/java/com/trade/stock/order/processor/OrderProcessor.java:333-350 | the same, for the queue of the given side |
| Service.NewTradeOrder | src/main/java/com/trade/stock/order/service/OrderBookServiceImpl.java:70-72 | on the create path the id is the random value |
| Service.CreateTradeOrderRoundTrip | src/main/java/com/trade/stock/order/service/OrderBookServiceImpl.java:74-97 | the entity gives back the request (the price replaced by the sentinel for MARKET), and its trade time is the clock value |
| Service.CreateTradeOrderId | src/main/java/com/trade/stock/order/service/OrderBookServiceImpl.java:77-81 | a supplied id is kept and the random value is then irrelevant; without one the random value is the id |
| Service.MarketPriceIgnored | src/main/java/com/trade/stock/order/service/OrderBookServiceImpl.java:88-95 | a MARKET entity has price -1, whatever the request price |
| Service.MarketOrderFills | src/main/java/com/trade/stock/order/processor/OrderProcessor.java:152-154 | a created MARKET order facing a non-empty opposite queue fills something at once |
| Service.UpdateRestampsTime | src/main/java/com/trade/stock/order/service/OrderBookServiceImpl.java:84 | an update keeps the id but takes the current time, so it queues behind an earlier order of the same kind and price |
| Service.OrderBookService.constructor | src/main/java/com/trade/stock/order/service/OrderBookServiceImpl.java:28-30 | the service holds the given processor |
| Service.OrderBookService.StockOrder | src/main/java/com/trade/stock/order/service/OrderBookServiceImpl.java:34-43 | processes the created order and answers success with its id |
| Service.OrderBookService.StockOrderUpdate | src/main/java/com/trade/stock/order/service/OrderBookServiceImpl.java:52-61 | replaces the order with the caller's id and answers success with that id, or propagates the processor's failure unchanged |
| Service.OrderBookService.RetrieveOrderBook | src/main/java/com/trade/stock/order/service/OrderBookServiceImpl.java:46-49 | returns the processor's result unchanged |
| Service.OrderBookService.DeleteOrder | src/main/java/com/trade/stock/order/service/OrderBookServiceImpl.java:64-67 | returns the processor's result unchanged |

## Left out

- Concurrency: the thread safety of the concurrent map and the blocking priority queue, and real lost races, are not modelled. The model is sequential, with the maps as instance fields instead of static ones.
- Processor.OrderProcessor.ProcessOrder: the lost-race branch (restore both quantities, then call `process` again) is unreachable here, because removal of the just-zeroed head always succeeds (`MatchingProofs.RemovalFindsHead`). The rollback is stated on `Matching.Step` with the removal outcome as an input (`MatchingProofs.StepRollback`); the unbounded retry recursion is not modelled.
- `processMarketOrders` (`OrderProcessor.java:111-130`) has no caller, so it is not modelled.
- Floating point: the SELL comparator compares `doubleValue()`s. The model compares exact decimal prices. `BigDecimal` scale, which takes part in `equals`, is not modelled either: prices are exact reals.
- Heap internals: the queue's array layout, its re-arrangement after a removal, and tie-breaking among comparator-equal orders are not modelled. A queue is a sequence in some order, `peek` is its first comparator-minimal element, and a snapshot is its sequence.
- Orders.KindRank: the `OrderType` enum file is not part of this model, so its declaration order is an input (`marketFirst`).
- The random id and `System.currentTimeMillis()` are parameters (`randomId`, `now`). The entry-set iteration order of `deleteOrder` is a parameter too (`buyKeys`, `sellKeys`, each listing the registry's tickers once).
- The HTTP and framework layer is not modelled: controller, API annotations, exception-to-status mapping, configuration, bean validation and logging.
- Negative quantities, which only a request bypassing validation can carry, cannot be expressed: quantities are natural numbers. A null price on a LIMIT request is not modelled either.
- The null-pointer dereference at `OrderProcessor.java:95` cannot be reached from `processBuyOrder` and `processSellOrder`, which check the queue first. An absent queue reads as an empty one.
- MatchingProofs.ProcessConserves: requires a positive incoming quantity. A zero-quantity order that crosses removes the head without filling anything.
