/**
  The order processor as an object: the BUY and SELL registries are fields
  the methods update in place. Every method is proved to leave the registry
  (and return the values) that the functions of `Matching` compute, so the
  properties proved in `MatchingProofs` hold of the processor.
*/
module Processor {
  import opened Results
  import opened Orders
  import opened Matching
  import opened MatchingProofs

  class OrderProcessor {
    /** Whether the order-type enum declares MARKET before LIMIT (see `Orders.KindRank`). */
    const marketFirst: bool
    /** Ticker to BUY queue. */
    var buyMap: Book
    /** Ticker to SELL queue. */
    var sellMap: Book

    function State(): Registry
      reads this
    {
      Registry(buyMap, sellMap)
    }

    constructor(marketFirst: bool)
      ensures this.marketFirst == marketFirst
      ensures State() == Registry(map[], map[])
    {
      this.marketFirst := marketFirst;
      buyMap := map[];
      sellMap := map[];
    }

    /** Replace (or create) the queue of `side` for ticker `t`. */
    method SetQueue(side: Side, t: string, q: seq<Order>)
      modifies this
      ensures State() == WithQueue(old(State()), side, t, q)
    {
      if side == Buy {
        buyMap := buyMap[t := q];
      } else {
        sellMap := sellMap[t := q];
      }
    }

    /** The queue's value-based `remove(x)`; reports whether an equal element was there. */
    method RemoveFromQueue(side: Side, t: string, x: Order) returns (removed: bool)
      modifies this
      ensures var q := Queue(old(State()), side, t);
        && removed == (FirstSame(q, x) < |q|)
        && State() == WithQueue(old(State()), side, t, RemoveSame(q, x))
    {
      var q := Queue(State(), side, t);
      removed := FirstSame(q, x) < |q|;
      SetQueue(side, t, RemoveSame(q, x));
    }

    /** The queue's `removeIf` by order id; reports whether anything was removed. */
    method RemoveIf(side: Side, t: string, id: int64) returns (removed: bool)
      modifies this
      ensures var q := Queue(old(State()), side, t);
        && removed == HasId(q, id)
        && State() == WithQueue(old(State()), side, t, RemoveId(q, id))
    {
      var q := Queue(State(), side, t);
      removed := HasId(q, id);
      SetQueue(side, t, RemoveId(q, id));
    }

    /** `process`: dispatch on the order's side. Returns the incoming order as matching left it. */
    method Process(order: Order) returns (incoming: Order)
      modifies this
      ensures Run(State(), incoming) == Matching.Process(old(State()), order, marketFirst)
    {
      match order.side {
        case Buy => incoming := ProcessBuyOrder(order);
        case Sell => incoming := ProcessSellOrder(order);
      }
    }

    /** `processSellOrder`: rest when no BUY order is waiting for the ticker, match otherwise. */
    method ProcessSellOrder(order: Order) returns (incoming: Order)
      requires order.side == Sell
      modifies this
      ensures Run(State(), incoming) == Matching.Process(old(State()), order, marketFirst)
    {
      var buyOrders := if order.ticker in buyMap then buyMap[order.ticker] else [];
      if |buyOrders| == 0 {
        ProcessFirstOrder(order, Sell);
        incoming := order;
      } else {
        incoming := ProcessIncrementalOrders(order);
      }
    }

    /** `processBuyOrder`: rest when no SELL order is waiting for the ticker, match otherwise. */
    method ProcessBuyOrder(order: Order) returns (incoming: Order)
      requires order.side == Buy
      modifies this
      ensures Run(State(), incoming) == Matching.Process(old(State()), order, marketFirst)
    {
      var sellOrders := if order.ticker in sellMap then sellMap[order.ticker] else [];
      if |sellOrders| == 0 {
        ProcessFirstOrder(order, Buy);
        incoming := order;
      } else {
        incoming := ProcessIncrementalOrders(order);
      }
    }

    /** `processFirstOrder`: add the order to the `side` registry's queue for its ticker, created on demand. */
    method ProcessFirstOrder(order: Order, side: Side)
      modifies this
      ensures State() == WithQueue(old(State()), side, order.ticker, Queue(old(State()), side, order.ticker) + [order])
    {
      var q := Queue(State(), side, order.ticker);
      SetQueue(side, order.ticker, q + [order]);
    }

    /**
      `processIncrementalOrders`: match against the opposite queue's head, then
      call itself again while the order has quantity left and was not rested.
    */
    method ProcessIncrementalOrders(order: Order) returns (incoming: Order)
      modifies this
      ensures Run(State(), incoming) == Incremental(old(State()), order, marketFirst)
      decreases |Queue(State(), Opposite(order.side), order.ticker)|
    {
      var opp := Opposite(order.side);
      var q := Queue(State(), opp, order.ticker);
      incoming := order;
      if |q| > 0 {
        var i := BestIndex(q, opp, marketFirst);
        var unmatched;
        incoming, unmatched := ProcessOrder(order, i);
        if incoming.quantity > 0 && !unmatched {
          incoming := ProcessIncrementalOrders(incoming);
        }
      }
    }

    /**
      `processOrder` against the element at `i` of the opposite queue (the
      peeked head). Returns the incoming order as mutated and whether it was
      rested without a match. Single-threaded, removal of the zeroed head
      always succeeds, so the retry branch is never taken.
    */
    method ProcessOrder(order: Order, i: nat) returns (incoming: Order, unmatched: bool)
      requires i < |Queue(State(), Opposite(order.side), order.ticker)|
      modifies this
      ensures StepResult(State(), incoming, unmatched, false) == Step(old(State()), order, i, true)
    {
      var opp, t := Opposite(order.side), order.ticker;
      ghost var reg := State();
      var q := Queue(State(), opp, t);
      var h := q[i];
      unmatched := false;
      if Crosses(order, h) {
        if order.quantity > 0 && order.quantity > h.quantity {
          incoming := order.(quantity := order.quantity - h.quantity);
          var h1 := h.(quantity := 0);
          SetQueue(opp, t, q[i := h1]);
          WithQueueFrame(reg, opp, t, q[i := h1]);
          assert SameOrder(q[i := h1][i], h1);
          var removed := RemoveFromQueue(opp, t, h1);
          WithQueueTwice(reg, opp, t, q[i := h1], RemoveSame(q[i := h1], h1));
          assert State() == TakeHead(reg, order, i);
          if removed {
            if |Queue(State(), opp, t)| == 0 {
              ProcessFirstOrder(incoming, order.side);
              assert State() == Rest(TakeHead(reg, order, i), incoming);
            }
          }
        } else if order.quantity > 0 && order.quantity < h.quantity {
          SetQueue(opp, t, q[i := h.(quantity := h.quantity - order.quantity)]);
          incoming := order.(quantity := 0);
          assert State() == ReduceHead(reg, order, i);
        } else {
          incoming := order.(quantity := 0);
          var h1 := h.(quantity := 0);
          SetQueue(opp, t, q[i := h1]);
          WithQueueFrame(reg, opp, t, q[i := h1]);
          assert SameOrder(q[i := h1][i], h1);
          var removed := RemoveFromQueue(opp, t, h1);
          WithQueueTwice(reg, opp, t, q[i := h1], RemoveSame(q[i := h1], h1));
          assert State() == TakeHead(reg, order, i);
        }
      } else {
        ProcessFirstOrder(order, order.side);
        incoming := order;
        unmatched := true;
        assert State() == Rest(reg, order);
      }
    }

    /** `retrieveOrderBook`: the ticker's BUY orders then its SELL orders; fails when both are empty. */
    method RetrieveOrderBook(stockName: string) returns (r: Result<seq<Order>>)
      ensures r == Retrieve(State(), stockName)
    {
      var orderBook: seq<Order> := [];
      if stockName in buyMap && |buyMap[stockName]| > 0 {
        orderBook := orderBook + buyMap[stockName];
      }
      assert orderBook == Queue(State(), Buy, stockName);
      if stockName in sellMap && |sellMap[stockName]| > 0 {
        orderBook := orderBook + sellMap[stockName];
      }
      assert orderBook == Queue(State(), Buy, stockName) + Queue(State(), Sell, stockName);
      if |orderBook| == 0 {
        r := NotFound(BOOK_MISSING + stockName);
      } else {
        r := Ok(orderBook);
      }
    }

    /**
      One of `deleteOrder`'s loops: `removeIf` by id on every queue of the
      `side` registry, in the order `keys`; each queue's outcome overwrites
      the flag, which starts as `init`.
    */
    method RemoveIdFromBook(side: Side, keys: seq<string>, id: int64, init: bool) returns (removed: bool)
      requires Enumerates(keys, BookOf(State(), side))
      modifies this
      ensures BookOf(State(), side) == RemoveIdAll(BookOf(old(State()), side), id)
      ensures BookOf(State(), Opposite(side)) == BookOf(old(State()), Opposite(side))
      ensures removed == LastScanned(BookOf(old(State()), side), keys, id, init)
    {
      ghost var m := BookOf(State(), side);
      removed := init;
      var k := 0;
      while k < |keys|
        invariant 0 <= k <= |keys|
        invariant BookOf(State(), side) == Scanned(m, keys[..k], id)
        invariant BookOf(State(), Opposite(side)) == BookOf(old(State()), Opposite(side))
        invariant removed == LastScanned(m, keys[..k], id, init)
      {
        ScannedStep(m, keys, k, id);
        removed := RemoveIf(side, keys[k], id);
        k := k + 1;
      }
      assert keys[..k] == keys;
      ScannedAll(m, keys, id);
    }

    /**
      `deleteOrder`: `removeIf` by id on every BUY queue in the order
      `buyKeys`, then on every SELL queue in the order `sellKeys`; succeeds
      when the last queue scanned held the id.
    */
    method DeleteOrder(orderId: int64, buyKeys: seq<string>, sellKeys: seq<string>) returns (r: Result<OrderResponse>)
      requires Enumerates(buyKeys, buyMap) && Enumerates(sellKeys, sellMap)
      modifies this
      ensures Deletion(State(), r) == Delete(old(State()), orderId, buyKeys, sellKeys)
    {
      var orderIdRemoved := RemoveIdFromBook(Buy, buyKeys, orderId, false);
      orderIdRemoved := RemoveIdFromBook(Sell, sellKeys, orderId, orderIdRemoved);
      if orderIdRemoved {
        r := Ok(OrderResponse(None, SUCCESS));
      } else {
        r := NotFound(DELETE_MISSING);
      }
    }

    /** The public `processUpdate`: replace the order with the entity's id in the queue of the entity's side. */
    method ProcessUpdate(entity: Order) returns (r: Result<()>)
      modifies this
      ensures var u := Update(old(State()), entity);
        && (u.Ok? ==> r == Ok(()) && State() == u.value)
        && (u.NotFound? ==> r == NotFound(u.message) && State() == old(State()))
    {
      match entity.side {
        case Buy => r := ProcessUpdateQueue(entity, Buy);
        case Sell => r := ProcessUpdateQueue(entity, Sell);
      }
    }

    /**
      The private `processUpdate(entity, queue)` on the queue of `side`: fails
      when the queue is absent or empty or holds no order with the entity's id;
      otherwise removes (by entity equality) the first order with that id and
      adds the entity.
    */
    method ProcessUpdateQueue(entity: Order, side: Side) returns (r: Result<()>)
      modifies this
      ensures var u := UpdateIn(old(State()), side, entity);
        && (u.Ok? ==> r == Ok(()) && State() == u.value)
        && (u.NotFound? ==> r == NotFound(u.message) && State() == old(State()))
    {
      var q := Queue(State(), side, entity.ticker);
      if |q| > 0 {
        var j := FirstWithId(q, entity.orderId);
        if j < |q| {
          ghost var reg := State();
          var _ := RemoveFromQueue(side, entity.ticker, q[j]);
          WithQueueFrame(reg, side, entity.ticker, RemoveSame(q, q[j]));
          var q2 := Queue(State(), side, entity.ticker);
          SetQueue(side, entity.ticker, q2 + [entity]);
          WithQueueTwice(reg, side, entity.ticker, RemoveSame(q, q[j]), RemoveSame(q, q[j]) + [entity]);
          r := Ok(());
        } else {
          r := NotFound(UPDATE_MISSING);
        }
      } else {
        r := NotFound(UPDATE_MISSING);
      }
    }
  }

  /** The book after `removeIf` by id on the queues of the tickers in `keys`. */
  function Scanned(m: Book, keys: seq<string>, id: int64): Book
  {
    map t | t in m :: if t in keys then RemoveId(m[t], id) else m[t]
  }

  /** Scanning one more ticker of an enumeration removes the id from that ticker's untouched queue. */
  lemma ScannedStep(m: Book, keys: seq<string>, k: nat, id: int64)
    requires Enumerates(keys, m) && k < |keys|
    ensures keys[k] in Scanned(m, keys[..k], id) && Scanned(m, keys[..k], id)[keys[k]] == m[keys[k]]
    ensures Scanned(m, keys[..k + 1], id) == Scanned(m, keys[..k], id)[keys[k] := RemoveId(m[keys[k]], id)]
    ensures LastScanned(m, keys[..k + 1], id, false) == HasId(m[keys[k]], id)
  {
    assert keys[k] in keys;
    assert keys[k] !in keys[..k];
    assert keys[..k + 1] == keys[..k] + [keys[k]];
  }

  /** Scanning a whole enumeration is `removeIf` on every queue. */
  lemma ScannedAll(m: Book, keys: seq<string>, id: int64)
    requires Enumerates(keys, m)
    ensures Scanned(m, keys, id) == RemoveIdAll(m, id)
  {
  }
}
