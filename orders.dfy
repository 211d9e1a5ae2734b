/**
  The trade order entity, its value equality, the queue comparators and the
  queue primitives (peek, value-based remove, remove-by-id) the engine uses.

  A side queue is a `seq<Order>`: the model's own arrangement of the priority
  queue's elements, not its heap array. Where the code's choice depends on
  the array order (`peek` among tied orders, the element `remove` finds,
  `findFirst`, the iteration of a snapshot), the model takes the first
  element in this arrangement instead.
*/
module Orders {
  import opened Results

  /** Java `long`. */
  newtype int64 = x: int | -0x8000_0000_0000_0000 <= x < 0x8000_0000_0000_0000

  datatype Side = Buy | Sell

  datatype Kind = Limit | Market

  /** One trade order entity; `price` is an exact decimal, `quantity` a non-negative integer. */
  datatype Order = Order(
    orderId: int64,
    ticker: string,
    tradeTime: int64,
    price: real,
    quantity: nat,
    side: Side,
    kind: Kind)

  /** The response body of create, update and delete. */
  datatype OrderResponse = OrderResponse(orderId: Option<int64>, response: string)

  const SUCCESS: string := "Successful execution"

  function Opposite(s: Side): Side
  {
    if s == Buy then Sell else Buy
  }

  /**
    Entity equality: every field except `orderId` and `kind` takes part.
    Value-based queue removal finds its victim with this equality.
  */
  predicate SameOrder(a: Order, b: Order)
  {
    a.ticker == b.ticker && a.tradeTime == b.tradeTime && a.price == b.price
    && a.quantity == b.quantity && a.side == b.side
  }

  // ---------------------------------------------------------------- comparator

  /**
    Position of an order kind in the order-type enum. The enum's declaration is
    not part of this model, so `marketFirst` says whether MARKET is declared
    before LIMIT; the two values cover every possible enum order.
  */
  function KindRank(k: Kind, marketFirst: bool): nat
  {
    if (k == Market) == marketFirst then 0 else 1
  }

  /**
    Price component of the comparator of the queues on `side`: BUY queues sort
    price ascending, SELL queues price descending.
  */
  predicate PriceBefore(side: Side, p: real, q: real)
  {
    if side == Buy then p < q else p > q
  }

  /**
    `compare(a, b) <= 0` for the comparator of the queues on `side`:
    kind rank first, then price (direction by side), then trade time ascending.
  */
  predicate Precedes(side: Side, marketFirst: bool, a: Order, b: Order)
  {
    var ra, rb := KindRank(a.kind, marketFirst), KindRank(b.kind, marketFirst);
    ra < rb
    || (ra == rb && (PriceBefore(side, a.price, b.price)
                     || (a.price == b.price && a.tradeTime <= b.tradeTime)))
  }

  lemma PrecedesTotal(side: Side, marketFirst: bool, a: Order, b: Order)
    ensures Precedes(side, marketFirst, a, b) || Precedes(side, marketFirst, b, a)
  {
  }

  lemma PrecedesTransitive(side: Side, marketFirst: bool, a: Order, b: Order, c: Order)
    requires Precedes(side, marketFirst, a, b) && Precedes(side, marketFirst, b, c)
    ensures Precedes(side, marketFirst, a, c)
  {
  }

  /**
    The element `peek` returns: an index of a comparator-minimal element. Among
    elements the comparator ties, the first in the queue's arrangement.
  */
  function BestIndex(q: seq<Order>, side: Side, marketFirst: bool): (i: nat)
    requires |q| > 0
    ensures i < |q|
    ensures forall j :: 0 <= j < |q| ==> Precedes(side, marketFirst, q[i], q[j])
    ensures forall j :: 0 <= j < i ==> !Precedes(side, marketFirst, q[j], q[i])
    decreases |q|
  {
    if |q| == 1 then 0
    else
      var k := BestIndex(q[..|q| - 1], side, marketFirst);
      if Precedes(side, marketFirst, q[k], q[|q| - 1]) then k else |q| - 1
  }

  // ---------------------------------------------------------------- quantities

  /** Sum of the quantities of the orders in a queue. */
  function Total(q: seq<Order>): nat
  {
    if |q| == 0 then 0 else q[0].quantity + Total(q[1..])
  }

  lemma {:induction false} TotalAppend(q: seq<Order>, x: Order)
    ensures Total(q + [x]) == Total(q) + x.quantity
  {
    if |q| == 0 {
      assert q + [x] == [x];
    } else {
      assert (q + [x])[1..] == q[1..] + [x];
      TotalAppend(q[1..], x);
    }
  }

  lemma {:induction false} TotalUpdate(q: seq<Order>, i: nat, x: Order)
    requires i < |q|
    ensures Total(q[i := x]) + q[i].quantity == Total(q) + x.quantity
  {
    if i > 0 {
      assert q[i := x][1..] == q[1..][i - 1 := x];
      TotalUpdate(q[1..], i - 1, x);
    } else {
      assert q[i := x][1..] == q[1..];
    }
  }

  lemma {:induction false} TotalRemoveAt(q: seq<Order>, i: nat)
    requires i < |q|
    ensures Total(RemoveAt(q, i)) + q[i].quantity == Total(q)
  {
    if i == 0 {
      assert RemoveAt(q, i) == q[1..];
    } else {
      assert RemoveAt(q, i)[0] == q[0];
      assert RemoveAt(q, i)[1..] == RemoveAt(q[1..], i - 1);
      TotalRemoveAt(q[1..], i - 1);
    }
  }

  // ---------------------------------------------------------------- removal

  /** The queue without its element at `i`. */
  function RemoveAt(q: seq<Order>, i: nat): (r: seq<Order>)
    requires i < |q|
    ensures |r| == |q| - 1
    ensures multiset(r) + multiset{q[i]} == multiset(q)
  {
    assert q == q[..i] + [q[i]] + q[i + 1..];
    q[..i] + q[i + 1..]
  }

  /** Index of the first element equal (entity equality) to `x`, or `|q|` when there is none. */
  function FirstSame(q: seq<Order>, x: Order): (j: nat)
    ensures j <= |q|
    ensures j < |q| ==> SameOrder(q[j], x)
    ensures forall k :: 0 <= k < j ==> !SameOrder(q[k], x)
  {
    if |q| == 0 then 0
    else if SameOrder(q[0], x) then 0
    else 1 + FirstSame(q[1..], x)
  }

  /**
    Value-based `remove(x)`: takes out the first element equal to `x` under
    entity equality, which need not be `x` itself; the queue is unchanged when
    no element is equal to `x`.
  */
  function RemoveSame(q: seq<Order>, x: Order): (r: seq<Order>)
    ensures forall k :: 0 <= k < |q| && SameOrder(q[k], x) ==> |r| == |q| - 1
    ensures (forall k :: 0 <= k < |q| ==> !SameOrder(q[k], x)) ==> r == q
    ensures multiset(r) <= multiset(q)
    ensures FirstSame(q, x) < |q| ==> multiset(r) + multiset{q[FirstSame(q, x)]} == multiset(q)
  {
    var j := FirstSame(q, x);
    if j < |q| then RemoveAt(q, j) else q
  }

  /** Some order in the queue carries `id`. */
  predicate HasId(q: seq<Order>, id: int64)
  {
    exists k :: 0 <= k < |q| && q[k].orderId == id
  }

  /** `removeIf(o -> o.orderId == id)`: drops every order carrying `id`, keeps the rest in order. */
  function RemoveId(q: seq<Order>, id: int64): (r: seq<Order>)
    ensures forall o :: o in r <==> o in q && o.orderId != id
    ensures |r| <= |q|
  {
    if |q| == 0 then []
    else
      assert q == [q[0]] + q[1..];
      if q[0].orderId == id then RemoveId(q[1..], id) else [q[0]] + RemoveId(q[1..], id)
  }

  /** After `removeIf` no order carrying `id` is left. */
  lemma RemoveIdClears(q: seq<Order>, id: int64)
    ensures !HasId(RemoveId(q, id), id)
  {
    var r := RemoveId(q, id);
    forall k | 0 <= k < |r| ensures r[k].orderId != id {
      assert r[k] in r;
    }
  }

  /**
    `removeIf` keeps every order not carrying `id` with all its copies, and
    drops every copy of an order carrying it.
  */
  lemma {:induction false} RemoveIdMultiset(q: seq<Order>, id: int64, o: Order)
    ensures multiset(RemoveId(q, id))[o] == if o.orderId == id then 0 else multiset(q)[o]
  {
    if |q| > 0 {
      RemoveIdMultiset(q[1..], id, o);
      assert q == [q[0]] + q[1..];
    }
  }

  /** `removeIf` leaves a queue without `id` as it was. */
  lemma {:induction false} RemoveIdAbsent(q: seq<Order>, id: int64)
    requires !HasId(q, id)
    ensures RemoveId(q, id) == q
  {
    if |q| > 0 {
      assert q[0].orderId != id;
      assert !HasId(q[1..], id) by {
        forall k | 0 <= k < |q[1..]| ensures q[1..][k].orderId != id {
          assert q[1..][k] == q[k + 1];
        }
      }
      RemoveIdAbsent(q[1..], id);
      assert q == [q[0]] + q[1..];
    }
  }

  /** `removeIf` shrinks a queue that holds `id`. */
  lemma {:induction false} RemoveIdShrinks(q: seq<Order>, id: int64)
    requires HasId(q, id)
    ensures |RemoveId(q, id)| < |q|
  {
    if q[0].orderId != id {
      var k :| 0 <= k < |q| && q[k].orderId == id;
      assert q[1..][k - 1].orderId == id;
      RemoveIdShrinks(q[1..], id);
    }
  }

  /** Index of the first order carrying `id` (`findFirst` over the queue), or `|q|`. */
  function FirstWithId(q: seq<Order>, id: int64): (j: nat)
    ensures j <= |q|
    ensures j < |q| ==> q[j].orderId == id
    ensures forall k :: 0 <= k < j ==> q[k].orderId != id
  {
    if |q| == 0 then 0
    else if q[0].orderId == id then 0
    else 1 + FirstWithId(q[1..], id)
  }
}
