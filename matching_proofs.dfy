/**
  What the matching engine promises, proved about the functions of `Matching`.
*/
module MatchingProofs {
  import opened Results
  import opened Orders
  import opened Matching

  function Min(a: nat, b: nat): nat
  {
    if a <= b then a else b
  }

  /**
    `reg2` differs from `reg` at most in the queues of ticker `t`, and the key
    sets only grew (by `t` at most): no registry entry is ever removed.
  */
  ghost predicate OnlyTickerChanged(reg: Registry, reg2: Registry, t: string)
  {
    && reg.buyMap.Keys <= reg2.buyMap.Keys <= reg.buyMap.Keys + {t}
    && reg.sellMap.Keys <= reg2.sellMap.Keys <= reg.sellMap.Keys + {t}
    && (forall side: Side, u: string :: u != t ==> Queue(reg2, side, u) == Queue(reg, side, u))
  }

  // ------------------------------------------------------------ queue head

  /** The head of a queue precedes every element under the queue's comparator. */
  lemma HeadIsMinimal(q: seq<Order>, side: Side, marketFirst: bool, j: nat)
    requires j < |q|
    ensures var h := q[BestIndex(q, side, marketFirst)];
      KindRank(h.kind, marketFirst) <= KindRank(q[j].kind, marketFirst)
      && (KindRank(h.kind, marketFirst) == KindRank(q[j].kind, marketFirst) ==>
            if side == Buy then h.price <= q[j].price else h.price >= q[j].price)
  {
  }

  /**
    Among orders of the same kind and price, an order with a later trade time
    is never the head while an earlier one rests.
  */
  lemma EarlierOrderMatchesFirst(q: seq<Order>, side: Side, marketFirst: bool, a: nat, b: nat)
    requires a < |q| && b < |q|
    requires q[a].kind == q[b].kind && q[a].price == q[b].price && q[a].tradeTime < q[b].tradeTime
    ensures BestIndex(q, side, marketFirst) != b
  {
  }

  /** An order of the later-ranked kind (LIMIT when `marketFirst`) is never the head while one of the earlier-ranked kind rests, whatever the prices. */
  lemma KindRankDominatesPrice(q: seq<Order>, side: Side, marketFirst: bool, a: nat, b: nat)
    requires a < |q| && b < |q|
    requires KindRank(q[a].kind, marketFirst) < KindRank(q[b].kind, marketFirst)
    ensures BestIndex(q, side, marketFirst) != b
  {
  }

  // ------------------------------------------------------------ removal

  /** The value-based removal of the zeroed head finds an element: `remove` reports success. */
  lemma RemovalFindsHead(q: seq<Order>, i: nat, h1: Order)
    requires i < |q|
    ensures FirstSame(q[i := h1], h1) <= i
    ensures |RemoveSame(q[i := h1], h1)| == |q| - 1
  {
    assert SameOrder(q[i := h1][i], h1);
  }

  /**
    When every other resting order has a positive quantity, the element that
    value-based removal takes out is the zeroed head itself.
  */
  lemma ZeroedHeadRemovedExactly(q: seq<Order>, i: nat, h1: Order)
    requires i < |q| && h1.quantity == 0
    requires forall k :: 0 <= k < |q| && k != i ==> q[k].quantity > 0
    ensures RemoveSame(q[i := h1], h1) == RemoveAt(q, i)
  {
    var q1 := q[i := h1];
    assert SameOrder(q1[i], h1);
    var j := FirstSame(q1, h1);
    assert j == i;
    assert RemoveAt(q1, i) == RemoveAt(q, i) by {
      assert q1[..i] == q[..i];
      assert q1[i + 1..] == q[i + 1..];
    }
  }

  /** Removing an element equal to `x` lowers the total by exactly `x`'s quantity. */
  lemma TotalRemoveSame(q: seq<Order>, x: Order)
    ensures Total(RemoveSame(q, x)) + (if FirstSame(q, x) < |q| then x.quantity else 0) == Total(q)
  {
    var j := FirstSame(q, x);
    if j < |q| {
      TotalRemoveAt(q, j);
    }
  }

  // ------------------------------------------------------------ one step

  lemma WithQueueFrame(reg: Registry, side: Side, t: string, q: seq<Order>)
    ensures var r := WithQueue(reg, side, t, q);
      && Queue(r, side, t) == q
      && Queue(r, Opposite(side), t) == Queue(reg, Opposite(side), t)
      && OnlyTickerChanged(reg, r, t)
  {
  }

  /** Setting the same queue twice keeps only the second value. */
  lemma WithQueueTwice(reg: Registry, side: Side, t: string, q1: seq<Order>, q2: seq<Order>)
    ensures WithQueue(WithQueue(reg, side, t, q1), side, t, q2) == WithQueue(reg, side, t, q2)
  {
  }

  lemma OnlyTickerChangedTrans(a: Registry, b: Registry, c: Registry, t: string)
    requires OnlyTickerChanged(a, b, t) && OnlyTickerChanged(b, c, t)
    ensures OnlyTickerChanged(a, c, t)
  {
  }

  /** Resting appends the order to its own queue and touches nothing else. */
  lemma RestFrame(reg: Registry, o: Order)
    ensures var r := Rest(reg, o);
      && Queue(r, o.side, o.ticker) == Queue(reg, o.side, o.ticker) + [o]
      && Queue(r, Opposite(o.side), o.ticker) == Queue(reg, Opposite(o.side), o.ticker)
      && OnlyTickerChanged(reg, r, o.ticker)
  {
    WithQueueFrame(reg, o.side, o.ticker, Queue(reg, o.side, o.ticker) + [o]);
  }

  /**
    Taking the head out lowers the opposite total by the head's quantity and
    leaves the incoming order's own side alone.
  */
  lemma TakeHeadFrame(reg: Registry, o: Order, i: nat)
    requires i < |Queue(reg, Opposite(o.side), o.ticker)|
    ensures var q := Queue(reg, Opposite(o.side), o.ticker);
      var r := TakeHead(reg, o, i);
      && Total(Queue(r, Opposite(o.side), o.ticker)) + q[i].quantity == Total(q)
      && Queue(r, o.side, o.ticker) == Queue(reg, o.side, o.ticker)
      && OnlyTickerChanged(reg, r, o.ticker)
  {
    var opp, t := Opposite(o.side), o.ticker;
    var q := Queue(reg, opp, t);
    var h1 := q[i].(quantity := 0);
    var q2 := RemoveSame(q[i := h1], h1);
    TotalUpdate(q, i, h1);
    TotalRemoveSame(q[i := h1], h1);
    RemovalFindsHead(q, i, h1);
    assert Total(q2) + q[i].quantity == Total(q);
    assert Opposite(opp) == o.side;
    WithQueueFrame(reg, opp, t, q2);
  }

  /** Under the registry invariant, the element taken out is exactly the head. */
  lemma TakeHeadExact(reg: Registry, o: Order, i: nat)
    requires Valid(reg)
    requires i < |Queue(reg, Opposite(o.side), o.ticker)|
    ensures Queue(TakeHead(reg, o, i), Opposite(o.side), o.ticker) == RemoveAt(Queue(reg, Opposite(o.side), o.ticker), i)
  {
    var opp, t := Opposite(o.side), o.ticker;
    var q := Queue(reg, opp, t);
    ValidQueue(reg, opp, t);
    forall k | 0 <= k < |q| && k != i ensures q[k].quantity > 0 {
      assert q[k] in q;
    }
    ZeroedHeadRemovedExactly(q, i, q[i].(quantity := 0));
    WithQueueFrame(reg, opp, t, RemoveSame(q[i := q[i].(quantity := 0)], q[i].(quantity := 0)));
  }

  /** Reducing the head lowers the opposite total by the incoming quantity, in place. */
  lemma ReduceHeadFrame(reg: Registry, o: Order, i: nat)
    requires i < |Queue(reg, Opposite(o.side), o.ticker)|
    requires o.quantity < Queue(reg, Opposite(o.side), o.ticker)[i].quantity
    ensures var q := Queue(reg, Opposite(o.side), o.ticker);
      var r := ReduceHead(reg, o, i);
      && Queue(r, Opposite(o.side), o.ticker) == q[i := q[i].(quantity := q[i].quantity - o.quantity)]
      && Total(Queue(r, Opposite(o.side), o.ticker)) + o.quantity == Total(q)
      && Queue(r, o.side, o.ticker) == Queue(reg, o.side, o.ticker)
      && OnlyTickerChanged(reg, r, o.ticker)
  {
    var opp, t := Opposite(o.side), o.ticker;
    var q := Queue(reg, opp, t);
    var q2 := q[i := q[i].(quantity := q[i].quantity - o.quantity)];
    TotalUpdate(q, i, q[i].(quantity := q[i].quantity - o.quantity));
    assert Opposite(opp) == o.side;
    WithQueueFrame(reg, opp, t, q2);
  }

  /** The three crossing branches of `Step`, one lemma each. */
  lemma StepFillLarger(reg: Registry, o: Order, i: nat)
    requires i < |Queue(reg, Opposite(o.side), o.ticker)|
    requires Crosses(o, Queue(reg, Opposite(o.side), o.ticker)[i])
    requires o.quantity > Queue(reg, Opposite(o.side), o.ticker)[i].quantity
    ensures var q := Queue(reg, Opposite(o.side), o.ticker);
      var s := Step(reg, o, i, true);
      && !s.unmatched && !s.retried
      && s.incoming.quantity == o.quantity - q[i].quantity
      && Total(Queue(s.registry, Opposite(o.side), o.ticker)) + q[i].quantity == Total(q)
      && Queue(s.registry, o.side, o.ticker)
           == Queue(reg, o.side, o.ticker) + (if Queue(s.registry, Opposite(o.side), o.ticker) == [] then [s.incoming] else [])
      && OnlyTickerChanged(reg, s.registry, o.ticker)
  {
    TakeHeadFrame(reg, o, i);
    if |Queue(TakeHead(reg, o, i), Opposite(o.side), o.ticker)| == 0 {
      StepLargerEmptied(reg, o, i);
    } else {
      StepLargerKept(reg, o, i);
    }
  }

  /** The larger branch when the opposite queue still has orders: the remainder goes on matching. */
  lemma StepLargerKept(reg: Registry, o: Order, i: nat)
    requires i < |Queue(reg, Opposite(o.side), o.ticker)|
    requires Crosses(o, Queue(reg, Opposite(o.side), o.ticker)[i])
    requires o.quantity > Queue(reg, Opposite(o.side), o.ticker)[i].quantity
    requires |Queue(TakeHead(reg, o, i), Opposite(o.side), o.ticker)| > 0
    ensures Step(reg, o, i, true)
      == StepResult(TakeHead(reg, o, i), o.(quantity := o.quantity - Queue(reg, Opposite(o.side), o.ticker)[i].quantity), false, false)
  {
  }

  /** The larger branch when taking the head emptied the opposite queue: the remainder rests. */
  lemma StepLargerEmptied(reg: Registry, o: Order, i: nat)
    requires i < |Queue(reg, Opposite(o.side), o.ticker)|
    requires Crosses(o, Queue(reg, Opposite(o.side), o.ticker)[i])
    requires o.quantity > Queue(reg, Opposite(o.side), o.ticker)[i].quantity
    requires |Queue(TakeHead(reg, o, i), Opposite(o.side), o.ticker)| == 0
    ensures var q := Queue(reg, Opposite(o.side), o.ticker);
      var s := Step(reg, o, i, true);
      && !s.unmatched && !s.retried
      && s.incoming == o.(quantity := o.quantity - q[i].quantity)
      && Queue(s.registry, Opposite(o.side), o.ticker) == []
      && Total(q) == q[i].quantity
      && Queue(s.registry, o.side, o.ticker) == Queue(reg, o.side, o.ticker) + [s.incoming]
      && OnlyTickerChanged(reg, s.registry, o.ticker)
  {
    var t := o.ticker;
    var o1 := o.(quantity := o.quantity - Queue(reg, Opposite(o.side), t)[i].quantity);
    var reg1 := TakeHead(reg, o, i);
    assert Step(reg, o, i, true) == StepResult(Rest(reg1, o1), o1, false, false);
    TakeHeadFrame(reg, o, i);
    assert Queue(reg1, Opposite(o.side), t) == [];
    RestFrame(reg1, o1);
    OnlyTickerChangedTrans(reg, reg1, Rest(reg1, o1), t);
  }

  lemma StepFillSmaller(reg: Registry, o: Order, i: nat)
    requires i < |Queue(reg, Opposite(o.side), o.ticker)|
    requires Crosses(o, Queue(reg, Opposite(o.side), o.ticker)[i])
    requires 0 < o.quantity < Queue(reg, Opposite(o.side), o.ticker)[i].quantity
    ensures var q := Queue(reg, Opposite(o.side), o.ticker);
      var s := Step(reg, o, i, true);
      && s == StepResult(ReduceHead(reg, o, i), o.(quantity := 0), false, false)
      && Total(Queue(s.registry, Opposite(o.side), o.ticker)) + o.quantity == Total(q)
      && Queue(s.registry, o.side, o.ticker) == Queue(reg, o.side, o.ticker)
      && OnlyTickerChanged(reg, s.registry, o.ticker)
  {
    ReduceHeadFrame(reg, o, i);
  }

  lemma StepFillEqual(reg: Registry, o: Order, i: nat)
    requires i < |Queue(reg, Opposite(o.side), o.ticker)|
    requires Crosses(o, Queue(reg, Opposite(o.side), o.ticker)[i])
    requires o.quantity == Queue(reg, Opposite(o.side), o.ticker)[i].quantity
    ensures var q := Queue(reg, Opposite(o.side), o.ticker);
      var s := Step(reg, o, i, true);
      && s == StepResult(TakeHead(reg, o, i), o.(quantity := 0), false, false)
      && Total(Queue(s.registry, Opposite(o.side), o.ticker)) + o.quantity == Total(q)
      && Queue(s.registry, o.side, o.ticker) == Queue(reg, o.side, o.ticker)
      && OnlyTickerChanged(reg, s.registry, o.ticker)
  {
    TakeHeadFrame(reg, o, i);
  }

  /**
    Step arithmetic: a crossing step fills min(incoming, head) from both
    orders, conserving quantity; the incoming order is rested only when it
    emptied the opposite queue with quantity left over; nothing else changes.
  */
  lemma StepFill(reg: Registry, o: Order, i: nat)
    requires i < |Queue(reg, Opposite(o.side), o.ticker)|
    requires Crosses(o, Queue(reg, Opposite(o.side), o.ticker)[i]) && o.quantity > 0
    ensures var q := Queue(reg, Opposite(o.side), o.ticker);
      var s := Step(reg, o, i, true);
      var f := Min(o.quantity, q[i].quantity);
      && !s.unmatched && !s.retried
      && s.incoming.quantity == o.quantity - f
      && Total(Queue(s.registry, Opposite(o.side), o.ticker)) + f == Total(q)
      && Queue(s.registry, o.side, o.ticker)
           == Queue(reg, o.side, o.ticker)
              + (if s.incoming.quantity > 0 && Queue(s.registry, Opposite(o.side), o.ticker) == [] then [s.incoming] else [])
      && OnlyTickerChanged(reg, s.registry, o.ticker)
  {
    var h := Queue(reg, Opposite(o.side), o.ticker)[i];
    if o.quantity > h.quantity {
      StepFillLarger(reg, o, i);
    } else if o.quantity < h.quantity {
      StepFillSmaller(reg, o, i);
    } else {
      StepFillEqual(reg, o, i);
    }
  }

  /**
    Head outcome: when the head's quantity reaches zero, exactly the head
    leaves the opposite queue; when the incoming order is smaller, the head
    stays in place with the reduced quantity, the incoming order ends at zero
    and is inserted nowhere.
  */
  lemma StepHeadOutcome(reg: Registry, o: Order, i: nat)
    requires Valid(reg)
    requires i < |Queue(reg, Opposite(o.side), o.ticker)|
    requires Crosses(o, Queue(reg, Opposite(o.side), o.ticker)[i]) && o.quantity > 0
    ensures var q := Queue(reg, Opposite(o.side), o.ticker);
      var s := Step(reg, o, i, true);
      && (q[i].quantity <= o.quantity ==> Queue(s.registry, Opposite(o.side), o.ticker) == RemoveAt(q, i))
      && (o.quantity < q[i].quantity ==>
            && Queue(s.registry, Opposite(o.side), o.ticker) == q[i := q[i].(quantity := q[i].quantity - o.quantity)]
            && s.incoming.quantity == 0
            && Queue(s.registry, o.side, o.ticker) == Queue(reg, o.side, o.ticker))
  {
    var opp, t := Opposite(o.side), o.ticker;
    var h := Queue(reg, opp, t)[i];
    var s := Step(reg, o, i, true);
    if h.quantity <= o.quantity {
      TakeHeadExact(reg, o, i);
      var reg1 := TakeHead(reg, o, i);
      if o.quantity > h.quantity && |Queue(reg1, opp, t)| == 0 {
        RestFrame(reg1, o.(quantity := o.quantity - h.quantity));
      }
    } else {
      ReduceHeadFrame(reg, o, i);
    }
  }

  /**
    Rollback on failed removal: when removal of the head reports failure, both
    quantities are as before the step and the registry is untouched; the
    order is then processed again. Steps that remove nothing do not depend on it.
  */
  lemma StepRollback(reg: Registry, o: Order, i: nat)
    requires i < |Queue(reg, Opposite(o.side), o.ticker)|
    ensures var h := Queue(reg, Opposite(o.side), o.ticker)[i];
      if Crosses(o, h) && !(o.quantity > 0 && o.quantity < h.quantity)
      then Step(reg, o, i, false) == StepResult(reg, o, false, true)
      else Step(reg, o, i, false) == Step(reg, o, i, true)
  {
  }

  /** A head that does not cross rests the incoming order unchanged, and matching stops. */
  lemma StepRestsWithoutCross(reg: Registry, o: Order, i: nat, removeOk: bool)
    requires i < |Queue(reg, Opposite(o.side), o.ticker)|
    requires !Crosses(o, Queue(reg, Opposite(o.side), o.ticker)[i])
    ensures var s := Step(reg, o, i, removeOk);
      s.unmatched && s.incoming == o
      && Queue(s.registry, o.side, o.ticker) == Queue(reg, o.side, o.ticker) + [o]
      && Queue(s.registry, Opposite(o.side), o.ticker) == Queue(reg, Opposite(o.side), o.ticker)
  {
  }

  // ------------------------------------------------------------ the matching loop

  /**
    The loop as a whole: quantity removed from the opposite queue equals
    quantity filled; the remainder, if any, is rested exactly once on the
    order's own side; only the order's ticker is touched.
  */
  lemma {:induction false} IncrementalConserves(reg: Registry, o: Order, marketFirst: bool)
    requires o.quantity > 0
    requires |Queue(reg, Opposite(o.side), o.ticker)| > 0
    ensures var run := Incremental(reg, o, marketFirst);
      && run.incoming == o.(quantity := run.incoming.quantity)
      && run.incoming.quantity <= o.quantity
      && Total(Queue(reg, Opposite(o.side), o.ticker))
           == Total(Queue(run.registry, Opposite(o.side), o.ticker)) + (o.quantity - run.incoming.quantity)
      && Queue(run.registry, o.side, o.ticker)
           == Queue(reg, o.side, o.ticker) + (if run.incoming.quantity > 0 then [run.incoming] else [])
      && OnlyTickerChanged(reg, run.registry, o.ticker)
    decreases |Queue(reg, Opposite(o.side), o.ticker)|
  {
    var opp, t := Opposite(o.side), o.ticker;
    var q := Queue(reg, opp, t);
    var i := BestIndex(q, opp, marketFirst);
    var s := Step(reg, o, i, true);
    var run := Incremental(reg, o, marketFirst);
    if !Crosses(o, q[i]) {
      assert s == StepResult(Rest(reg, o), o, true, false);
      assert run == Run(Rest(reg, o), o);
      WithQueueFrame(reg, o.side, t, Queue(reg, o.side, t) + [o]);
    } else {
      StepFill(reg, o, i);
      if s.incoming.quantity > 0 {
        assert run == Incremental(s.registry, s.incoming, marketFirst);
        if |Queue(s.registry, opp, t)| > 0 {
          IncrementalConserves(s.registry, s.incoming, marketFirst);
          OnlyTickerChangedTrans(reg, s.registry, run.registry, t);
        } else {
          assert run == Run(s.registry, s.incoming);
        }
      } else {
        assert run == Run(s.registry, s.incoming);
      }
    }
  }

  /**
    Loop exit for `processIncrementalOrders`: matching goes on against the
    next opposite head until the incoming order is filled, so an order left
    with quantity faces an empty opposite queue or a head it does not cross.
  */
  lemma {:induction false} IncrementalExit(reg: Registry, o: Order, marketFirst: bool)
    requires o.quantity > 0
    ensures var run := Incremental(reg, o, marketFirst);
      var q := Queue(run.registry, Opposite(o.side), o.ticker);
      run.incoming.quantity > 0 ==>
        |q| == 0 || !Crosses(run.incoming, q[BestIndex(q, Opposite(o.side), marketFirst)])
    decreases |Queue(reg, Opposite(o.side), o.ticker)|
  {
    var opp, t := Opposite(o.side), o.ticker;
    var q := Queue(reg, opp, t);
    if |q| > 0 {
      var i := BestIndex(q, opp, marketFirst);
      var s := Step(reg, o, i, true);
      var run := Incremental(reg, o, marketFirst);
      if !Crosses(o, q[i]) {
        StepRestsWithoutCross(reg, o, i, true);
        assert run == Run(s.registry, s.incoming);
      } else {
        StepFill(reg, o, i);
        if s.incoming.quantity > 0 {
          assert run == Incremental(s.registry, s.incoming, marketFirst);
          IncrementalExit(s.registry, s.incoming, marketFirst);
        } else {
          assert run == Run(s.registry, s.incoming);
        }
      }
    }
  }

  /** Loop exit for `process`: an order left with quantity faces no crossing opposite head. */
  lemma ProcessExit(reg: Registry, o: Order, marketFirst: bool)
    requires o.quantity > 0
    ensures var run := Process(reg, o, marketFirst);
      var q := Queue(run.registry, Opposite(o.side), o.ticker);
      run.incoming.quantity > 0 ==>
        |q| == 0 || !Crosses(run.incoming, q[BestIndex(q, Opposite(o.side), marketFirst)])
  {
    if |Queue(reg, Opposite(o.side), o.ticker)| == 0 {
      RestFrame(reg, o);
    } else {
      IncrementalExit(reg, o, marketFirst);
    }
  }

  /**
    Conservation for `process`: what the opposite side lost is what the
    incoming order filled; the remainder is rested exactly once, and only when
    positive; other tickers are untouched and no entry is removed.
  */
  lemma ProcessConserves(reg: Registry, o: Order, marketFirst: bool)
    requires o.quantity > 0
    ensures var run := Process(reg, o, marketFirst);
      && run.incoming == o.(quantity := run.incoming.quantity)
      && run.incoming.quantity <= o.quantity
      && Total(Queue(reg, Opposite(o.side), o.ticker))
           == Total(Queue(run.registry, Opposite(o.side), o.ticker)) + (o.quantity - run.incoming.quantity)
      && Queue(run.registry, o.side, o.ticker)
           == Queue(reg, o.side, o.ticker) + (if run.incoming.quantity > 0 then [run.incoming] else [])
      && OnlyTickerChanged(reg, run.registry, o.ticker)
  {
    if |Queue(reg, Opposite(o.side), o.ticker)| > 0 {
      IncrementalConserves(reg, o, marketFirst);
    }
  }

  /**
    Crossing and resting: when the opposite queue is absent or empty, or its
    head does not cross, `process` rests the order unchanged on its own side
    and changes nothing else.
  */
  lemma ProcessRestsWithoutCross(reg: Registry, o: Order, marketFirst: bool)
    requires var q := Queue(reg, Opposite(o.side), o.ticker);
      |q| == 0 || !Crosses(o, q[BestIndex(q, Opposite(o.side), marketFirst)])
    ensures Process(reg, o, marketFirst) == Run(Rest(reg, o), o)
  {
  }

  /**
    When the opposite head crosses, `process` fills something: the incoming
    order's quantity strictly drops and the opposite queue's total with it.
  */
  lemma ProcessFillsWhenCross(reg: Registry, o: Order, marketFirst: bool)
    requires Valid(reg) && o.quantity > 0
    requires var q := Queue(reg, Opposite(o.side), o.ticker);
      |q| > 0 && Crosses(o, q[BestIndex(q, Opposite(o.side), marketFirst)])
    ensures var run := Process(reg, o, marketFirst);
      run.incoming.quantity < o.quantity
      && Total(Queue(run.registry, Opposite(o.side), o.ticker)) < Total(Queue(reg, Opposite(o.side), o.ticker))
  {
    var opp, t := Opposite(o.side), o.ticker;
    var q := Queue(reg, opp, t);
    var i := BestIndex(q, opp, marketFirst);
    assert q[i] in BookOf(reg, opp)[t];
    assert q[i].quantity > 0;
    var s := Step(reg, o, i, true);
    StepFill(reg, o, i);
    assert s.incoming.quantity < o.quantity;
    var run := Process(reg, o, marketFirst);
    assert run == Incremental(reg, o, marketFirst);
    if s.incoming.quantity > 0 {
      assert run == Incremental(s.registry, s.incoming, marketFirst);
      if |Queue(s.registry, opp, t)| > 0 {
        IncrementalConserves(s.registry, s.incoming, marketFirst);
      }
    } else {
      assert run == Run(s.registry, s.incoming);
    }
    ProcessConserves(reg, o, marketFirst);
  }

  /** An order with nothing on the opposite side rests at the back of its own queue. */
  lemma ProcessRestsOnEmptyOpposite(reg: Registry, o: Order, marketFirst: bool)
    requires Queue(reg, Opposite(o.side), o.ticker) == []
    ensures Matching.Process(reg, o, marketFirst)
      == Run(WithQueue(reg, o.side, o.ticker, Queue(reg, o.side, o.ticker) + [o]), o)
  {
  }

  /**
    Price-time priority: two BUY orders of the same kind and price rest in
    arrival order; a crossing SELL of the first one's quantity fills that one
    completely and leaves the later one untouched.
  */
  lemma FirstOfEqualBuysMatchesFirst(b1: Order, b2: Order, s: Order, marketFirst: bool)
    requires b1.side == Buy && b2.side == Buy && s.side == Sell
    requires b2.ticker == b1.ticker && s.ticker == b1.ticker
    requires b2.kind == b1.kind && b2.price == b1.price && b1.tradeTime <= b2.tradeTime
    requires s.price <= b1.price && s.quantity == b1.quantity > 0
    ensures var reg := Matching.Process(Matching.Process(Registry(map[], map[]), b1, marketFirst).registry, b2, marketFirst).registry;
      && reg == Registry(map[b1.ticker := [b1, b2]], map[])
      && Matching.Process(reg, s, marketFirst) == Run(Registry(map[b1.ticker := [b2]], map[]), s.(quantity := 0))
  {
    var t := b1.ticker;
    ProcessRestsOnEmptyOpposite(Registry(map[], map[]), b1, marketFirst);
    assert [] + [b1] == [b1];
    ProcessRestsOnEmptyOpposite(Registry(map[t := [b1]], map[]), b2, marketFirst);
    assert [b1] + [b2] == [b1, b2];
    SellMatchesFirstBuy(b1, b2, s, marketFirst);
  }

  lemma SellMatchesFirstBuy(b1: Order, b2: Order, s: Order, marketFirst: bool)
    requires b1.side == Buy && b2.side == Buy && s.side == Sell
    requires b2.ticker == b1.ticker && s.ticker == b1.ticker
    requires b2.kind == b1.kind && b2.price == b1.price && b1.tradeTime <= b2.tradeTime
    requires s.price <= b1.price && s.quantity == b1.quantity > 0
    ensures Matching.Process(Registry(map[b1.ticker := [b1, b2]], map[]), s, marketFirst)
      == Run(Registry(map[b1.ticker := [b2]], map[]), s.(quantity := 0))
  {
    var t := b1.ticker;
    var reg := Registry(map[t := [b1, b2]], map[]);
    var q := [b1, b2];
    assert Queue(reg, Buy, t) == q;
    assert BestIndex(q, Buy, marketFirst) == 0 by {
      assert q[..1] == [b1];
      assert Precedes(Buy, marketFirst, b1, b2);
    }
    StepFillEqual(reg, s, 0);
    TakeFirstOfPair(b1, b2, s);
    var after := Registry(map[t := [b2]], map[]);
    assert Step(reg, s, 0, true) == StepResult(after, s.(quantity := 0), false, false);
  }

  lemma TakeFirstOfPair(b1: Order, b2: Order, s: Order)
    requires b1.side == Buy && s.side == Sell && s.ticker == b1.ticker
    ensures TakeHead(Registry(map[b1.ticker := [b1, b2]], map[]), s, 0) == Registry(map[b1.ticker := [b2]], map[])
  {
    var t := b1.ticker;
    var q := [b1, b2];
    var reg := Registry(map[t := q], map[]);
    var h1 := b1.(quantity := 0);
    assert Queue(reg, Buy, t) == q;
    assert q[0 := h1] == [h1, b2];
    assert RemoveSame([h1, b2], h1) == [b2] by {
      assert FirstSame([h1, b2], h1) == 0;
      assert [h1, b2][..0] + [h1, b2][1..] == [b2];
    }
    assert WithQueue(reg, Buy, t, [b2]) == Registry(map[t := [b2]], map[]);
  }

  // ------------------------------------------------------------ the invariant

  lemma ValidWithQueue(reg: Registry, side: Side, t: string, q: seq<Order>)
    requires Valid(reg)
    requires forall x :: x in q ==> x.side == side && x.ticker == t && x.quantity > 0
    ensures Valid(WithQueue(reg, side, t, q))
  {
  }

  lemma ValidQueue(reg: Registry, side: Side, t: string)
    requires Valid(reg)
    ensures forall x :: x in Queue(reg, side, t) ==> x.side == side && x.ticker == t && x.quantity > 0
  {
  }

  /** A queue whose orders all belong to (`side`, `t`) and are positive, after removing the head. */
  lemma RemoveAtKeepsMembers(q: seq<Order>, i: nat)
    requires i < |q|
    ensures forall x :: x in RemoveAt(q, i) ==> x in q
  {
    assert multiset(RemoveAt(q, i)) <= multiset(q);
  }

  /** Taking out the head keeps the invariant, and so does resting the remainder afterwards. */
  lemma TakeHeadPreservesValid(reg: Registry, o: Order, i: nat)
    requires Valid(reg)
    requires i < |Queue(reg, Opposite(o.side), o.ticker)|
    ensures Valid(TakeHead(reg, o, i))
  {
    var opp, t := Opposite(o.side), o.ticker;
    var q := Queue(reg, opp, t);
    ValidQueue(reg, opp, t);
    TakeHeadExact(reg, o, i);
    RemoveAtKeepsMembers(q, i);
    WithQueueFrame(reg, opp, t, RemoveAt(q, i));
    ValidWithQueue(reg, opp, t, RemoveAt(q, i));
  }

  lemma ReduceHeadPreservesValid(reg: Registry, o: Order, i: nat)
    requires Valid(reg)
    requires i < |Queue(reg, Opposite(o.side), o.ticker)|
    requires o.quantity < Queue(reg, Opposite(o.side), o.ticker)[i].quantity
    ensures Valid(ReduceHead(reg, o, i))
  {
    var opp, t := Opposite(o.side), o.ticker;
    var q := Queue(reg, opp, t);
    ValidQueue(reg, opp, t);
    assert q[i] in q;
    var q2 := q[i := q[i].(quantity := q[i].quantity - o.quantity)];
    forall x | x in q2 ensures x.side == opp && x.ticker == t && x.quantity > 0 {
      var k :| 0 <= k < |q2| && q2[k] == x;
      assert k != i ==> q2[k] == q[k] && q[k] in q;
    }
    ValidWithQueue(reg, opp, t, q2);
  }

  lemma RestPreservesValid(reg: Registry, o: Order)
    requires Valid(reg) && o.quantity > 0
    ensures Valid(Rest(reg, o))
  {
    ValidQueue(reg, o.side, o.ticker);
    ValidWithQueue(reg, o.side, o.ticker, Queue(reg, o.side, o.ticker) + [o]);
  }

  lemma StepPreservesValid(reg: Registry, o: Order, i: nat)
    requires Valid(reg) && o.quantity > 0
    requires i < |Queue(reg, Opposite(o.side), o.ticker)|
    ensures Valid(Step(reg, o, i, true).registry)
  {
    var h := Queue(reg, Opposite(o.side), o.ticker)[i];
    var r := Step(reg, o, i, true).registry;
    if !Crosses(o, h) {
      assert r == Rest(reg, o);
      RestPreservesValid(reg, o);
    } else if o.quantity < h.quantity {
      assert r == ReduceHead(reg, o, i);
      ReduceHeadPreservesValid(reg, o, i);
    } else if o.quantity == h.quantity {
      assert r == TakeHead(reg, o, i);
      TakeHeadPreservesValid(reg, o, i);
    } else {
      TakeHeadPreservesValid(reg, o, i);
      var reg1 := TakeHead(reg, o, i);
      var o1 := o.(quantity := o.quantity - h.quantity);
      if |Queue(reg1, Opposite(o.side), o.ticker)| == 0 {
        assert r == Rest(reg1, o1);
        RestPreservesValid(reg1, o1);
      } else {
        assert r == reg1;
      }
    }
  }

  lemma {:induction false} IncrementalPreservesValid(reg: Registry, o: Order, marketFirst: bool)
    requires Valid(reg) && o.quantity > 0
    ensures Valid(Incremental(reg, o, marketFirst).registry)
    decreases |Queue(reg, Opposite(o.side), o.ticker)|
  {
    var q := Queue(reg, Opposite(o.side), o.ticker);
    if |q| > 0 {
      var i := BestIndex(q, Opposite(o.side), marketFirst);
      var s := Step(reg, o, i, true);
      StepPreservesValid(reg, o, i);
      if s.incoming.quantity > 0 && !s.unmatched {
        IncrementalPreservesValid(s.registry, s.incoming, marketFirst);
      }
    }
  }

  /**
    No zero-quantity residency: when every resting order has a positive
    quantity and sits in its own side and ticker's queue, `process` of a
    positive-quantity order keeps it so.
  */
  lemma ProcessPreservesValid(reg: Registry, o: Order, marketFirst: bool)
    requires Valid(reg) && o.quantity > 0
    ensures Valid(Process(reg, o, marketFirst).registry)
  {
    if |Queue(reg, Opposite(o.side), o.ticker)| == 0 {
      ValidQueue(reg, o.side, o.ticker);
      ValidWithQueue(reg, o.side, o.ticker, Queue(reg, o.side, o.ticker) + [o]);
    } else {
      IncrementalPreservesValid(reg, o, marketFirst);
    }
  }

  // ------------------------------------------------------------ retrieve

  /** The snapshot lists the ticker's BUY orders first and its SELL orders after them. */
  lemma RetrieveSplitsBySide(reg: Registry, stockName: string)
    requires Valid(reg)
    requires Retrieve(reg, stockName).Ok?
    ensures var book := Retrieve(reg, stockName).value;
      var nb := |Queue(reg, Buy, stockName)|;
      && nb <= |book|
      && (forall k :: 0 <= k < |book| ==> book[k].ticker == stockName)
      && (forall k :: 0 <= k < nb ==> book[k].side == Buy)
      && (forall k :: nb <= k < |book| ==> book[k].side == Sell)
  {
    var b, s := Queue(reg, Buy, stockName), Queue(reg, Sell, stockName);
    ValidQueue(reg, Buy, stockName);
    ValidQueue(reg, Sell, stockName);
    var book := b + s;
    forall k | 0 <= k < |book|
      ensures book[k].ticker == stockName
      ensures k < |b| ==> book[k].side == Buy
      ensures k >= |b| ==> book[k].side == Sell
    {
      if k < |b| { assert book[k] == b[k] && b[k] in b; } else { assert book[k] == s[k - |b|] && s[k - |b|] in s; }
    }
  }

  /** An order `process` leaves resting shows up in its ticker's book. */
  lemma RetrieveSeesRestedOrder(reg: Registry, o: Order, marketFirst: bool)
    requires o.quantity > 0
    requires Process(reg, o, marketFirst).incoming.quantity > 0
    ensures var run := Process(reg, o, marketFirst);
      Retrieve(run.registry, o.ticker).Ok? && run.incoming in Retrieve(run.registry, o.ticker).value
  {
    var run := Process(reg, o, marketFirst);
    ProcessConserves(reg, o, marketFirst);
    var own := Queue(run.registry, o.side, o.ticker);
    assert run.incoming in own by { assert own[|own| - 1] == run.incoming; }
    assert run.incoming in Queue(run.registry, Buy, o.ticker) + Queue(run.registry, Sell, o.ticker);
  }

  // ------------------------------------------------------------ update

  /** `processUpdate` fails exactly when no order in the entity's own side and ticker queue carries its id. */
  lemma UpdateNotFoundIff(reg: Registry, e: Order)
    ensures Update(reg, e).NotFound? <==> !HasId(Queue(reg, e.side, e.ticker), e.orderId)
    ensures Update(reg, e).NotFound? ==> Update(reg, e).message == UPDATE_MISSING
  {
    var q := Queue(reg, e.side, e.ticker);
    var j := FirstWithId(q, e.orderId);
    if HasId(q, e.orderId) {
      var k :| 0 <= k < |q| && q[k].orderId == e.orderId;
      assert j <= k;
    }
  }

  /**
    A successful `processUpdate` swaps one order equal (entity equality) to
    the first order with the id for the new entity: the queue keeps its size,
    the entity is in it, no matching runs (the other side is untouched) and
    nothing else changes.
  */
  lemma UpdateReplaces(reg: Registry, e: Order)
    requires Update(reg, e).Ok?
    ensures var q := Queue(reg, e.side, e.ticker);
      var q2 := Queue(Update(reg, e).value, e.side, e.ticker);
      var j := FirstWithId(q, e.orderId);
      var x := q[FirstSame(q, q[j])];
      && j < |q| && SameOrder(x, q[j])
      && |q2| == |q|
      && e in q2
      && multiset(q2) == multiset(q) - multiset{x} + multiset{e}
      && BookOf(Update(reg, e).value, Opposite(e.side)) == BookOf(reg, Opposite(e.side))
      && OnlyTickerChanged(reg, Update(reg, e).value, e.ticker)
  {
    var q := Queue(reg, e.side, e.ticker);
    var j := FirstWithId(q, e.orderId);
    assert SameOrder(q[j], q[j]);
    var i := FirstSame(q, q[j]);
    assert i <= j;
    var r := RemoveAt(q, i);
    assert RemoveSame(q, q[j]) == r;
    var q2 := r + [e];
    var reg2 := WithQueue(reg, e.side, e.ticker, q2);
    assert Update(reg, e) == Ok(reg2);
    WithQueueFrame(reg, e.side, e.ticker, q2);
    assert multiset(q2) == multiset(r) + multiset{e};
    assert multiset(r) == multiset(q) - multiset{q[i]};
    assert q2[|r|] == e;
  }

  /** When no earlier order is equal to the matched one, the order replaced is the one carrying the id. */
  lemma UpdateReplacesMatched(reg: Registry, e: Order)
    requires Update(reg, e).Ok?
    requires var q := Queue(reg, e.side, e.ticker);
      forall k :: 0 <= k < FirstWithId(q, e.orderId) ==> !SameOrder(q[k], q[FirstWithId(q, e.orderId)])
    ensures var q := Queue(reg, e.side, e.ticker);
      var q2 := Queue(Update(reg, e).value, e.side, e.ticker);
      multiset(q2) == multiset(q) - multiset{q[FirstWithId(q, e.orderId)]} + multiset{e}
  {
    var q := Queue(reg, e.side, e.ticker);
    var j := FirstWithId(q, e.orderId);
    UpdateReplaces(reg, e);
    assert SameOrder(q[j], q[j]);
    assert FirstSame(q, q[j]) == j;
  }

  /**
    Because removal uses entity equality, an update can take out a different
    order: two resting BUY orders equal in every field but their ids, and an
    update of the second one removes the first and keeps the second.
  */
  lemma UpdateMayRemoveAnother()
    ensures var a := Order(1, "HDFC", 100, 10.0, 10, Buy, Limit);
      var b := Order(2, "HDFC", 100, 10.0, 10, Buy, Limit);
      var e := Order(2, "HDFC", 200, 12.0, 5, Buy, Limit);
      var reg := Registry(map["HDFC" := [a, b]], map[]);
      Update(reg, e) == Ok(Registry(map["HDFC" := [b, e]], map[]))
  {
    var a := Order(1, "HDFC", 100, 10.0, 10, Buy, Limit);
    var b := Order(2, "HDFC", 100, 10.0, 10, Buy, Limit);
    var q := [a, b];
    assert FirstWithId(q, 2) == 1 by {
      assert q[1..] == [b];
      assert FirstWithId(q[1..], 2) == 0;
    }
    var e := Order(2, "HDFC", 200, 12.0, 5, Buy, Limit);
    var reg := Registry(map["HDFC" := [a, b]], map[]);
    assert Queue(reg, Buy, "HDFC") == q;
    assert q[1] == b;
    assert SameOrder(q[0], b);
    assert FirstSame(q, b) == 0;
    assert RemoveAt(q, 0) == [b];
    assert RemoveSame(q, q[1]) == [b];
    assert [b] + [e] == [b, e];
    assert reg.buyMap["HDFC" := [b, e]] == map["HDFC" := [b, e]];
  }

  lemma UpdatePreservesValid(reg: Registry, e: Order)
    requires Valid(reg) && e.quantity > 0
    requires Update(reg, e).Ok?
    ensures Valid(Update(reg, e).value)
  {
    var q := Queue(reg, e.side, e.ticker);
    var j := FirstWithId(q, e.orderId);
    var r := RemoveSame(q, q[j]);
    ValidQueue(reg, e.side, e.ticker);
    assert forall x :: x in r ==> x in q by {
      assert multiset(r) <= multiset(q);
    }
    ValidWithQueue(reg, e.side, e.ticker, r + [e]);
  }

  // ------------------------------------------------------------ delete

  /** After `deleteOrder(id)` no queue holds an order with that id, and every other order stays. */
  lemma DeleteRemovesEveryCopy(reg: Registry, id: int64, buyKeys: seq<string>, sellKeys: seq<string>, side: Side, t: string)
    requires Enumerates(buyKeys, reg.buyMap) && Enumerates(sellKeys, reg.sellMap)
    ensures var reg2 := Delete(reg, id, buyKeys, sellKeys).registry;
      && reg2.buyMap.Keys == reg.buyMap.Keys && reg2.sellMap.Keys == reg.sellMap.Keys
      && !HasId(Queue(reg2, side, t), id)
      && (forall x :: x in Queue(reg2, side, t) <==> x in Queue(reg, side, t) && x.orderId != id)
      && (forall x :: multiset(Queue(reg2, side, t))[x] == if x.orderId == id then 0 else multiset(Queue(reg, side, t))[x])
  {
    var reg2 := Delete(reg, id, buyKeys, sellKeys).registry;
    forall x ensures multiset(Queue(reg2, side, t))[x] == if x.orderId == id then 0 else multiset(Queue(reg, side, t))[x] {
      if t in BookOf(reg, side) {
        RemoveIdMultiset(Queue(reg, side, t), id, x);
      }
    }
  }

  lemma RemoveIdAllNoop(m: Book, id: int64)
    requires forall t :: t in m ==> !HasId(m[t], id)
    ensures RemoveIdAll(m, id) == m
  {
    forall t | t in m ensures RemoveIdAll(m, id)[t] == m[t] {
      RemoveIdAbsent(m[t], id);
    }
  }

  lemma LastScannedNone(m: Book, keys: seq<string>, id: int64, init: bool)
    requires forall k :: 0 <= k < |keys| ==> keys[k] in m
    requires forall t :: t in m ==> !HasId(m[t], id)
    ensures LastScanned(m, keys, id, init) == (init && |keys| == 0)
  {
  }

  /** Delete fails, and changes nothing, when no queue held the id. */
  lemma DeleteFailsWhenAbsent(reg: Registry, id: int64, buyKeys: seq<string>, sellKeys: seq<string>)
    requires Enumerates(buyKeys, reg.buyMap) && Enumerates(sellKeys, reg.sellMap)
    requires forall side: Side, t: string :: !HasId(Queue(reg, side, t), id)
    ensures Delete(reg, id, buyKeys, sellKeys) == Deletion(reg, NotFound(DELETE_MISSING))
  {
    forall t | t in reg.buyMap ensures !HasId(reg.buyMap[t], id) {
      assert Queue(reg, Buy, t) == reg.buyMap[t];
    }
    forall t | t in reg.sellMap ensures !HasId(reg.sellMap[t], id) {
      assert Queue(reg, Sell, t) == reg.sellMap[t];
    }
    RemoveIdAllNoop(reg.buyMap, id);
    RemoveIdAllNoop(reg.sellMap, id);
    LastScannedNone(reg.buyMap, buyKeys, id, false);
    LastScannedNone(reg.sellMap, sellKeys, id, false);
  }

  /**
    Delete reports success only when the last queue it scanned held the id:
    the last SELL queue when the SELL registry has entries, else the last BUY queue.
  */
  lemma DeleteSuccessMeansFound(reg: Registry, id: int64, buyKeys: seq<string>, sellKeys: seq<string>)
    requires Enumerates(buyKeys, reg.buyMap) && Enumerates(sellKeys, reg.sellMap)
    ensures Delete(reg, id, buyKeys, sellKeys).result.Ok? <==>
      if |sellKeys| > 0 then HasId(reg.sellMap[sellKeys[|sellKeys| - 1]], id)
      else |buyKeys| > 0 && HasId(reg.buyMap[buyKeys[|buyKeys| - 1]], id)
    ensures Delete(reg, id, buyKeys, sellKeys).result.Ok? ==>
      exists side: Side, t: string :: HasId(Queue(reg, side, t), id)
  {
    if Delete(reg, id, buyKeys, sellKeys).result.Ok? {
      if |sellKeys| > 0 {
        assert HasId(Queue(reg, Sell, sellKeys[|sellKeys| - 1]), id);
      } else {
        assert HasId(Queue(reg, Buy, buyKeys[|buyKeys| - 1]), id);
      }
    }
  }

  /** A repeated delete of the same id fails, whatever order the entries are scanned in. */
  lemma DeleteTwiceFails(reg: Registry, id: int64, buyKeys: seq<string>, sellKeys: seq<string>,
                         buyKeys2: seq<string>, sellKeys2: seq<string>)
    requires Enumerates(buyKeys, reg.buyMap) && Enumerates(sellKeys, reg.sellMap)
    requires var reg2 := Delete(reg, id, buyKeys, sellKeys).registry;
      Enumerates(buyKeys2, reg2.buyMap) && Enumerates(sellKeys2, reg2.sellMap)
    ensures var reg2 := Delete(reg, id, buyKeys, sellKeys).registry;
      Delete(reg2, id, buyKeys2, sellKeys2) == Deletion(reg2, NotFound(DELETE_MISSING))
  {
    var reg2 := Delete(reg, id, buyKeys, sellKeys).registry;
    forall side: Side, t: string ensures !HasId(Queue(reg2, side, t), id) {
      DeleteRemovesEveryCopy(reg, id, buyKeys, sellKeys, side, t);
    }
    DeleteFailsWhenAbsent(reg2, id, buyKeys2, sellKeys2);
  }

  /**
    The success flag is overwritten by each queue scanned: a BUY order is
    cancelled, yet the call fails because the one SELL entry (empty) was
    scanned last.
  */
  lemma DeleteFlagOverwritten()
    ensures var o := Order(7, "HDFC", 100, 10.0, 10, Buy, Limit);
      var reg := Registry(map["HDFC" := [o]], map["HDFC" := []]);
      Delete(reg, 7, ["HDFC"], ["HDFC"])
        == Deletion(Registry(map["HDFC" := []], map["HDFC" := []]), NotFound(DELETE_MISSING))
  {
    var o := Order(7, "HDFC", 100, 10.0, 10, Buy, Limit);
    assert HasId([o], 7) by { assert [o][0].orderId == 7; }
    var reg := Registry(map["HDFC" := [o]], map["HDFC" := []]);
    assert RemoveIdAll(reg.buyMap, 7) == map["HDFC" := []];
    assert RemoveIdAll(reg.sellMap, 7) == map["HDFC" := []];
  }

  lemma DeletePreservesValid(reg: Registry, id: int64, buyKeys: seq<string>, sellKeys: seq<string>)
    requires Valid(reg)
    requires Enumerates(buyKeys, reg.buyMap) && Enumerates(sellKeys, reg.sellMap)
    ensures Valid(Delete(reg, id, buyKeys, sellKeys).registry)
  {
  }
}
