/**
  The order book service: turns a trade request into a trade order entity and
  hands it to the processor. The random id and the clock are parameters:
  `randomId` is what the random generator would return, `now` the current
  time in milliseconds.
*/
module Service {
  import opened Results
  import opened Orders
  import opened Matching
  import opened MatchingProofs
  import opened Processor

  /** The request body of create and update. */
  datatype TradeRequest = TradeRequest(stockTicker: string, price: real, quantity: nat, tradeType: Side, orderType: Kind)

  /** The price every MARKET order is given, whatever the request says. */
  const MARKET_PRICE: real := -1.0

  /**
    `createTradeOrder(orderId, request)`: the given id, or a random one when
    absent; the request's ticker, quantity, side and kind; the current time;
    the request's price for a LIMIT order and the sentinel for a MARKET one.
  */
  function CreateTradeOrder(orderId: Option<int64>, req: TradeRequest, randomId: int64, now: int64): Order
  {
    Order(if orderId.Some? then orderId.value else randomId,
          req.stockTicker, now,
          if req.orderType == Market then MARKET_PRICE else req.price,
          req.quantity, req.tradeType, req.orderType)
  }

  /** `createTradeOrder(request)`: the creation path, with no id supplied. */
  function NewTradeOrder(req: TradeRequest, randomId: int64, now: int64): (o: Order)
    ensures o.orderId == randomId
  {
    CreateTradeOrder(None, req, randomId, now)
  }

  /** The request an order entity carries, read back from its fields. */
  function RequestOf(o: Order): TradeRequest
  {
    TradeRequest(o.ticker, o.price, o.quantity, o.side, o.kind)
  }

  /**
    Round trip: the entity carries the request back unchanged for a LIMIT
    order; for a MARKET order everything but the price, which is the sentinel.
    The trade time is the clock value.
  */
  lemma CreateTradeOrderRoundTrip(orderId: Option<int64>, req: TradeRequest, randomId: int64, now: int64)
    ensures RequestOf(CreateTradeOrder(orderId, req, randomId, now))
      == if req.orderType == Market then req.(price := MARKET_PRICE) else req
    ensures CreateTradeOrder(orderId, req, randomId, now).tradeTime == now
  {
  }

  /** The id is the supplied one when there is one; only its absence draws on the generator. */
  lemma CreateTradeOrderId(orderId: Option<int64>, req: TradeRequest, randomId: int64, randomId2: int64, now: int64)
    ensures orderId.Some? ==> CreateTradeOrder(orderId, req, randomId, now).orderId == orderId.value
    ensures orderId.Some? ==> CreateTradeOrder(orderId, req, randomId, now) == CreateTradeOrder(orderId, req, randomId2, now)
    ensures orderId.None? ==> CreateTradeOrder(orderId, req, randomId, now).orderId == randomId
  {
  }

  /** A MARKET order's entity does not depend on the price in the request. */
  lemma MarketPriceIgnored(orderId: Option<int64>, req: TradeRequest, p: real, randomId: int64, now: int64)
    requires req.orderType == Market
    ensures CreateTradeOrder(orderId, req, randomId, now) == CreateTradeOrder(orderId, req.(price := p), randomId, now)
    ensures CreateTradeOrder(orderId, req, randomId, now).price == MARKET_PRICE
  {
  }

  /**
    A MARKET order crosses every head, so when the opposite queue has orders
    the created order fills something at once.
  */
  lemma MarketOrderFills(reg: Registry, req: TradeRequest, randomId: int64, now: int64, marketFirst: bool)
    requires Valid(reg) && req.orderType == Market && req.quantity > 0
    requires |Queue(reg, Opposite(req.tradeType), req.stockTicker)| > 0
    ensures var o := NewTradeOrder(req, randomId, now);
      Matching.Process(reg, o, marketFirst).incoming.quantity < req.quantity
  {
    var o := NewTradeOrder(req, randomId, now);
    var q := Queue(reg, Opposite(o.side), o.ticker);
    assert Crosses(o, q[BestIndex(q, Opposite(o.side), marketFirst)]);
    ProcessFillsWhenCross(reg, o, marketFirst);
  }

  /**
    The update path keeps the id but stamps the current time, so the updated
    order queues behind every order of the same kind and price placed before `now`.
  */
  lemma UpdateRestampsTime(orderId: int64, req: TradeRequest, now: int64, a: Order, side: Side, marketFirst: bool)
    requires a.kind == req.orderType && a.tradeTime < now
    requires a.price == CreateTradeOrder(Some(orderId), req, 0, now).price
    ensures var e := CreateTradeOrder(Some(orderId), req, 0, now);
      e.orderId == orderId && Precedes(side, marketFirst, a, e) && !Precedes(side, marketFirst, e, a)
  {
  }

  class OrderBookService {
    const processor: OrderProcessor

    constructor(processor: OrderProcessor)
      ensures this.processor == processor
    {
      this.processor := processor;
    }

    /** `stockOrder(request)`: create the order, match or rest it, answer with its id. */
    method StockOrder(req: TradeRequest, randomId: int64, now: int64) returns (response: OrderResponse)
      modifies processor
      ensures response == OrderResponse(Some(randomId), SUCCESS)
      ensures processor.State()
        == Matching.Process(old(processor.State()), NewTradeOrder(req, randomId, now), processor.marketFirst).registry
    {
      var order := NewTradeOrder(req, randomId, now);
      var _ := processor.Process(order);
      response := OrderResponse(Some(order.orderId), SUCCESS);
    }

    /**
      `stockOrder(orderId, request)`: replace the resting order carrying
      `orderId`; the processor's failure propagates unchanged. No random id is
      drawn on this path (`CreateTradeOrderId`), so 0 stands for it.
    */
    method StockOrderUpdate(orderId: int64, req: TradeRequest, now: int64) returns (r: Result<OrderResponse>)
      modifies processor
      ensures var u := Update(old(processor.State()), CreateTradeOrder(Some(orderId), req, 0, now));
        && (u.Ok? ==> r == Ok(OrderResponse(Some(orderId), SUCCESS)) && processor.State() == u.value)
        && (u.NotFound? ==> r == NotFound(u.message) && processor.State() == old(processor.State()))
    {
      var entity := CreateTradeOrder(Some(orderId), req, 0, now);
      var outcome := processor.ProcessUpdate(entity);
      match outcome {
        case Ok(_) => r := Ok(OrderResponse(Some(entity.orderId), SUCCESS));
        case NotFound(message) => r := NotFound(message);
      }
    }

    /** `retrieveOrderBook`: passed through to the processor. */
    method RetrieveOrderBook(stockName: string) returns (r: Result<seq<Order>>)
      ensures r == Retrieve(processor.State(), stockName)
    {
      r := processor.RetrieveOrderBook(stockName);
    }

    /** `deleteOrder`: passed through to the processor. */
    method DeleteOrder(orderId: int64, buyKeys: seq<string>, sellKeys: seq<string>) returns (r: Result<OrderResponse>)
      requires Enumerates(buyKeys, processor.buyMap) && Enumerates(sellKeys, processor.sellMap)
      modifies processor
      ensures Deletion(processor.State(), r) == Delete(old(processor.State()), orderId, buyKeys, sellKeys)
    {
      r := processor.DeleteOrder(orderId, buyKeys, sellKeys);
    }
  }
}
