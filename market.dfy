/** Vocabulary shared by the three order-book engines: sides, orders, trades,
    the crossing rule and the side-aware price order. */
module Market {

  datatype Option<T> = None | Some(value: T)

  /** The effect of an operation: a value, or Undefined where the source
      reads an indeterminate value (an uninitialised field, `begin()` of an
      empty container) and the language gives its behaviour no meaning. */
  datatype Behaviour<T> = Defined(value: T) | Undefined

  /** The side of an order; the source spells it "BUY" / "SELL". */
  datatype Side = Buy | Sell

  function Opposite(side: Side): (r: Side)
    ensures r != side
  {
    if side == Buy then Sell else Buy
  }

  /** A limit order (StockOrder). Prices are integer ticks (price * 10^4). */
  datatype Order = Order(id: int, symbol: string, side: Side, price: int, volume: int, timestamp: int)

  /** One execution (MatchedOrders): the passive order's price, the filled
      quantity, the incoming (aggressive) id and the resting (passive) id. */
  datatype Trade = Trade(symbol: string, price: int, volume: int, aggressor: int, passive: int)

  /** An incoming order on `side` limited at `limit` may trade against a
      resting order priced `resting`: a SELL needs resting >= limit, a BUY
      needs resting <= limit. */
  predicate Crosses(side: Side, limit: int, resting: int)
  {
    if side == Sell then resting >= limit else resting <= limit
  }

  /** Strict "better price" order of one side: bids descend, asks ascend.
      This is the order of the bid and ask price sets and of customComparator. */
  predicate PriceBefore(side: Side, a: int, b: int)
  {
    if side == Buy then a > b else a < b
  }

  /** Price-time order of resting orders: better price first, then the older
      timestamp. */
  predicate OrderBefore(side: Side, a: Order, b: Order)
  {
    PriceBefore(side, a.price, b.price) || (a.price == b.price && a.timestamp < b.timestamp)
  }

  /** Two orders have the same (price, timestamp) key. */
  predicate SameKey(a: Order, b: Order)
  {
    a.price == b.price && a.timestamp == b.timestamp
  }

  /** An aggregated price level in a snapshot: price and resting volume. */
  datatype Quote = Quote(price: int, volume: int)

  /** A snapshot row: bid and ask level, either may be missing ("" fields). */
  datatype Row = Row(bid: Option<Quote>, ask: Option<Quote>)

  /** The snapshot block of one symbol: its header and its rows. */
  datatype Block = Block(symbol: string, rows: seq<Row>)

  /** A parsed input command; the driver appends the command index as the
      arrival timestamp when it dispatches the command. */
  datatype Command =
    | Insert(id: int, symbol: string, side: Side, price: int, volume: nat)
    | Amend(id: int, price: int, volume: nat)
    | Pull(id: int)
    | Other

  /** Lemma: a resting price crosses an incoming one exactly when it is at
      least as good, in the resting side's order, as the incoming limit. */
  lemma CrossesIsNotWorse(side: Side, limit: int, resting: int)
    ensures Crosses(side, limit, resting) <==> !PriceBefore(Opposite(side), limit, resting)
  {
  }

  // ---------------------------------------------------------------- trade lists

  function Min(a: int, b: int): int
  {
    if a <= b then a else b
  }

  /** The total quantity of a list of trades. */
  function TradedVolume(ts: seq<Trade>): int
  {
    if ts == [] then 0 else ts[0].volume + TradedVolume(ts[1..])
  }

  lemma TradedVolumeCons(t: Trade, ts: seq<Trade>)
    ensures TradedVolume([t] + ts) == t.volume + TradedVolume(ts)
  {
    assert ([t] + ts)[1..] == ts;
  }

  /** The volume traded against the resting order `id` in `ts`. */
  function PassiveVolume(ts: seq<Trade>, id: int): int
  {
    if ts == [] then 0
    else (if ts[0].passive == id then ts[0].volume else 0) + PassiveVolume(ts[1..], id)
  }

  lemma PassiveVolumeCons(t: Trade, ts: seq<Trade>, id: int)
    ensures PassiveVolume([t] + ts, id) == (if t.passive == id then t.volume else 0) + PassiveVolume(ts, id)
  {
    assert ([t] + ts)[1..] == ts;
  }

  /** No volume is traded against an order that no trade names. */
  lemma PassiveVolumeAbsent(ts: seq<Trade>, id: int)
    requires forall i | 0 <= i < |ts| :: ts[i].passive != id
    ensures PassiveVolume(ts, id) == 0
  {
    if ts != [] {
      PassiveVolumeAbsent(ts[1..], id);
    }
  }

  /** Every trade of `ts` was made by the aggressor `id` in `symbol`, at a
      price that crosses the aggressor's `limit` on `side`. */
  predicate TradesOf(ts: seq<Trade>, id: int, symbol: string, side: Side, limit: int)
  {
    forall i | 0 <= i < |ts| ::
      ts[i].aggressor == id && ts[i].symbol == symbol && Crosses(side, limit, ts[i].price)
  }

  lemma TradesOfCons(t: Trade, ts: seq<Trade>, id: int, symbol: string, side: Side, limit: int)
    requires TradesOf([t], id, symbol, side, limit) && TradesOf(ts, id, symbol, side, limit)
    ensures TradesOf([t] + ts, id, symbol, side, limit)
  {
    forall i | 1 <= i < |[t] + ts| ensures ([t] + ts)[i] == ts[i - 1] {
    }
  }

  /** `a` is at least as good a resting price as `b` on `side`. */
  predicate NoWorse(side: Side, a: int, b: int)
  {
    a == b || PriceBefore(side, a, b)
  }

  /** Consecutive trades never move to a better resting price. */
  predicate Outward(side: Side, ts: seq<Trade>)
  {
    forall i | 0 <= i < |ts| - 1 :: NoWorse(side, ts[i].price, ts[i + 1].price)
  }

  /** A trade no better than the next keeps a list of trades moving outward. */
  lemma OutwardCons(side: Side, t: Trade, rest: seq<Trade>)
    requires Outward(side, rest)
    requires rest != [] ==> NoWorse(side, t.price, rest[0].price)
    ensures Outward(side, [t] + rest)
  {
    var all := [t] + rest;
    forall i | 0 <= i < |all| - 1
      ensures NoWorse(side, all[i].price, all[i + 1].price)
    {
      assert all[i + 1] == rest[i];
      if i > 0 { assert all[i] == rest[i - 1]; }
    }
  }

  lemma AppendAssoc(a: seq<Trade>, b: seq<Trade>, c: seq<Trade>)
    ensures a + b + c == a + (b + c)
  {
  }
}
