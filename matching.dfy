/**
  The engine's state and its four operations as functions of that state:
  the registry of BUY and SELL side queues per ticker, the matching of a new
  order, the in-place replacement of a resting order, the cancellation by id
  and the book snapshot. `Processor.OrderProcessor` is proved to compute
  exactly these functions; `MatchingProofs` proves what they promise.
*/
module Matching {
  import opened Results
  import opened Orders

  /** Ticker to side queue. Entries are created on demand and never removed. */
  type Book = map<string, seq<Order>>

  datatype Registry = Registry(buyMap: Book, sellMap: Book)

  const UPDATE_MISSING: string := "Order doesn't exists for updation"
  const DELETE_MISSING: string := "OrderId doesn't exist for removal"
  const BOOK_MISSING: string := "No Order book exist for "

  function BookOf(reg: Registry, side: Side): Book
  {
    if side == Buy then reg.buyMap else reg.sellMap
  }

  /** The queue for (`side`, `t`); an absent entry reads as an empty queue. */
  function Queue(reg: Registry, side: Side, t: string): seq<Order>
  {
    var m := BookOf(reg, side);
    if t in m then m[t] else []
  }

  /** The registry with the queue for (`side`, `t`) set to `q`, creating the entry if absent. */
  function WithQueue(reg: Registry, side: Side, t: string, q: seq<Order>): (r: Registry)
    ensures BookOf(r, side) == BookOf(reg, side)[t := q]
    ensures BookOf(r, Opposite(side)) == BookOf(reg, Opposite(side))
  {
    if side == Buy then reg.(buyMap := reg.buyMap[t := q]) else reg.(sellMap := reg.sellMap[t := q])
  }

  /** `processFirstOrder`: add the order to its own side's queue, created on demand. */
  function Rest(reg: Registry, o: Order): Registry
  {
    WithQueue(reg, o.side, o.ticker, Queue(reg, o.side, o.ticker) + [o])
  }

  /** The crossing test of `processOrder` against the opposite head `h`. */
  predicate Crosses(o: Order, h: Order)
  {
    (o.side == Buy && o.price >= h.price) || (o.side == Sell && o.price <= h.price) || o.kind == Market
  }

  /**
    Outcome of one `processOrder` call: the registry, the incoming order as
    mutated, `unmatched` (its return value: the head did not cross and the
    order was rested) and `retried` (removal of the head failed and both
    quantities were rolled back before the order is processed again).
  */
  datatype StepResult = StepResult(registry: Registry, incoming: Order, unmatched: bool, retried: bool)

  /**
    The head at `i` of the opposite queue filled completely: its quantity is
    set to zero in place, then the queue's value-based `remove` takes out the
    first element equal to it.
  */
  function TakeHead(reg: Registry, o: Order, i: nat): (r: Registry)
    requires i < |Queue(reg, Opposite(o.side), o.ticker)|
    ensures |Queue(r, Opposite(o.side), o.ticker)| == |Queue(reg, Opposite(o.side), o.ticker)| - 1
  {
    var q := Queue(reg, Opposite(o.side), o.ticker);
    var h1 := q[i].(quantity := 0);
    assert SameOrder(q[i := h1][i], h1);
    WithQueue(reg, Opposite(o.side), o.ticker, RemoveSame(q[i := h1], h1))
  }

  /** The head at `i` of the opposite queue filled partly by `o`: its quantity drops in place. */
  function ReduceHead(reg: Registry, o: Order, i: nat): Registry
    requires i < |Queue(reg, Opposite(o.side), o.ticker)|
    requires o.quantity < Queue(reg, Opposite(o.side), o.ticker)[i].quantity
  {
    var q := Queue(reg, Opposite(o.side), o.ticker);
    WithQueue(reg, Opposite(o.side), o.ticker, q[i := q[i].(quantity := q[i].quantity - o.quantity)])
  }

  /**
    `processOrder(o, queue, queue[i])`. `removeOk` is what removal of the
    zeroed head reports: a concurrent matcher that took the head first makes
    it false. A sequential run always passes true
    (`MatchingProofs.RemovalFindsHead`).
  */
  function Step(reg: Registry, o: Order, i: nat, removeOk: bool): (s: StepResult)
    requires i < |Queue(reg, Opposite(o.side), o.ticker)|
    ensures s.incoming == o.(quantity := s.incoming.quantity)
    ensures removeOk && s.incoming.quantity > 0 && !s.unmatched ==>
              |Queue(s.registry, Opposite(o.side), o.ticker)| < |Queue(reg, Opposite(o.side), o.ticker)|
  {
    var opp := Opposite(o.side);
    var h := Queue(reg, opp, o.ticker)[i];
    if !Crosses(o, h) then
      StepResult(Rest(reg, o), o, true, false)
    else if o.quantity > 0 && o.quantity > h.quantity then
      if !removeOk then StepResult(reg, o, false, true)
      else
        var o1 := o.(quantity := o.quantity - h.quantity);
        var reg1 := TakeHead(reg, o, i);
        if |Queue(reg1, opp, o.ticker)| == 0 then StepResult(Rest(reg1, o1), o1, false, false)
        else StepResult(reg1, o1, false, false)
    else if o.quantity > 0 && o.quantity < h.quantity then
      StepResult(ReduceHead(reg, o, i), o.(quantity := 0), false, false)
    else if !removeOk then StepResult(reg, o, false, true)
    else StepResult(TakeHead(reg, o, i), o.(quantity := 0), false, false)
  }

  /** Registry after matching, and the incoming order as matching left it. */
  datatype Run = Run(registry: Registry, incoming: Order)

  /**
    `processIncrementalOrders`: match against the opposite head until the
    order is filled, rested, or the opposite queue is empty.
  */
  function Incremental(reg: Registry, o: Order, marketFirst: bool): Run
    decreases |Queue(reg, Opposite(o.side), o.ticker)|
  {
    var q := Queue(reg, Opposite(o.side), o.ticker);
    if |q| == 0 then Run(reg, o)
    else
      var s := Step(reg, o, BestIndex(q, Opposite(o.side), marketFirst), true);
      if s.incoming.quantity > 0 && !s.unmatched then Incremental(s.registry, s.incoming, marketFirst)
      else Run(s.registry, s.incoming)
  }

  /** `process`: rest the order when the opposite queue is absent or empty, match otherwise. */
  function Process(reg: Registry, o: Order, marketFirst: bool): Run
  {
    if |Queue(reg, Opposite(o.side), o.ticker)| == 0 then Run(Rest(reg, o), o)
    else Incremental(reg, o, marketFirst)
  }

  /** `retrieveOrderBook`: the BUY queue's orders then the SELL queue's; fails on an empty book. */
  function Retrieve(reg: Registry, stockName: string): (r: Result<seq<Order>>)
    ensures r.NotFound? <==> Queue(reg, Buy, stockName) == [] && Queue(reg, Sell, stockName) == []
    ensures r.Ok? ==> multiset(r.value) == multiset(Queue(reg, Buy, stockName)) + multiset(Queue(reg, Sell, stockName))
    ensures r.NotFound? ==> r.message == BOOK_MISSING + stockName
  {
    var book := Queue(reg, Buy, stockName) + Queue(reg, Sell, stockName);
    if |book| == 0 then NotFound(BOOK_MISSING + stockName) else Ok(book)
  }

  /**
    The private `processUpdate(entity, queue)` on the queue of `side` for the
    entity's ticker: remove (by entity equality) the first order carrying the
    entity's id, then add the entity.
  */
  function UpdateIn(reg: Registry, side: Side, e: Order): Result<Registry>
  {
    var q := Queue(reg, side, e.ticker);
    if |q| == 0 then NotFound(UPDATE_MISSING)
    else
      var j := FirstWithId(q, e.orderId);
      if j == |q| then NotFound(UPDATE_MISSING)
      else Ok(WithQueue(reg, side, e.ticker, RemoveSame(q, q[j]) + [e]))
  }

  /** The public `processUpdate`: searches the queue of the entity's own side. */
  function Update(reg: Registry, e: Order): Result<Registry>
  {
    UpdateIn(reg, e.side, e)
  }

  /** `keys` lists every key of `m` exactly once: one iteration order of the map's entries. */
  ghost predicate Enumerates(keys: seq<string>, m: Book)
  {
    && (forall i, j :: 0 <= i < j < |keys| ==> keys[i] != keys[j])
    && (forall t :: t in keys <==> t in m)
  }

  /** `removeIf` by id on every queue of a book. */
  function RemoveIdAll(m: Book, id: int64): (r: Book)
    ensures r.Keys == m.Keys
  {
    map t | t in m :: RemoveId(m[t], id)
  }

  /**
    The success flag after scanning `m` in the order `keys`, starting from
    `init`: each queue's `removeIf` result overwrites it, so the last queue wins.
  */
  function LastScanned(m: Book, keys: seq<string>, id: int64, init: bool): bool
    requires forall k :: 0 <= k < |keys| ==> keys[k] in m
  {
    if |keys| == 0 then init else HasId(m[keys[|keys| - 1]], id)
  }

  datatype Deletion = Deletion(registry: Registry, result: Result<OrderResponse>)

  /**
    `deleteOrder(id)` with the BUY entries scanned in the order `buyKeys`, then
    the SELL entries in the order `sellKeys`. The removals happen whatever the
    outcome; the outcome is that of the last queue scanned.
  */
  function Delete(reg: Registry, id: int64, buyKeys: seq<string>, sellKeys: seq<string>): Deletion
    requires Enumerates(buyKeys, reg.buyMap) && Enumerates(sellKeys, reg.sellMap)
  {
    var flag := LastScanned(reg.sellMap, sellKeys, id, LastScanned(reg.buyMap, buyKeys, id, false));
    Deletion(Registry(RemoveIdAll(reg.buyMap, id), RemoveIdAll(reg.sellMap, id)),
             if flag then Ok(OrderResponse(None, SUCCESS)) else NotFound(DELETE_MISSING))
  }

  /**
    The registry invariant: every resting order sits in the queue of its own
    side and ticker and has a positive quantity.
  */
  ghost predicate ValidBook(m: Book, side: Side)
  {
    forall t, o :: t in m && o in m[t] ==> o.side == side && o.ticker == t && o.quantity > 0
  }

  ghost predicate Valid(reg: Registry)
  {
    ValidBook(reg.buyMap, Buy) && ValidBook(reg.sellMap, Sell)
  }
}
