/** The state of optimized.cpp as a value, and each of its operations as a
    function of that state. The Engine class (optimized_engine.dfy) holds the
    same state in fields and is proved to follow these functions.

    optimized.cpp keeps
      orderLookUp        id -> StockOrder                      (orders)
      limitLookUp        symbol+side+price -> Limit            (levels)
      limitSetBuyLookUp  symbol -> prices, descending          (bids)
      limitSetSellLookUp symbol -> prices, ascending           (asks)
      allSymbols         every symbol that ever rested         (symbols)
    A Limit's doubly linked list is modelled by `queue`, the ids of its
    orders oldest first: queue[0] is the list's tailOrder (the next to
    trade) and the last id is its headOrder (the newest). */
module OptimizedBook {
  import opened Market
  import opened Sorted

  datatype LevelKey = LevelKey(symbol: string, side: Side, price: int)

  /** A price level. The source's Limit also declares a `side` field, which
      its constructor never sets and nothing reads; it is not modelled. */
  datatype Limit = Limit(limitPrice: int, totalVolume: int, size: int, queue: seq<int>)

  datatype Book = Book(
    orders: map<int, Order>,
    levels: map<LevelKey, Limit>,
    bids: map<string, seq<int>>,
    asks: map<string, seq<int>>,
    symbols: seq<string>)

  /** The book after a command, with the trades the command executed. */
  datatype Outcome = Outcome(book: Book, trades: seq<Trade>)

  const EmptyBook := Book(map[], map[], map[], map[], [])

  function KeyOf(o: Order): LevelKey
  {
    LevelKey(o.symbol, o.side, o.price)
  }

  /** The sorted price set of one side of a symbol (empty when never used). */
  function PriceSet(b: Book, side: Side, sym: string): seq<int>
  {
    if side == Buy then (if sym in b.bids then b.bids[sym] else [])
    else (if sym in b.asks then b.asks[sym] else [])
  }

  function WithPrices(b: Book, side: Side, sym: string, s: seq<int>): (r: Book)
    ensures r.orders == b.orders && r.levels == b.levels && r.symbols == b.symbols
    ensures forall sd, sy :: PriceSet(r, sd, sy) == if sd == side && sy == sym then s else PriceSet(b, sd, sy)
  {
    if side == Buy then b.(bids := b.bids[sym := s]) else b.(asks := b.asks[sym := s])
  }

  // ------------------------------------------------------------ level sums

  function Vol(orders: map<int, Order>, id: int): int
  {
    if id in orders then orders[id].volume else 0
  }

  /** The volume resting in a queue of ids. */
  function SumVolumes(orders: map<int, Order>, q: seq<int>): int
  {
    if q == [] then 0 else Vol(orders, q[0]) + SumVolumes(orders, q[1..])
  }

  predicate Distinct(q: seq<int>)
  {
    forall i, j | 0 <= i < j < |q| :: q[i] != q[j]
  }

  /** Unlinking `x` from a level's list. */
  function Remove(q: seq<int>, x: int): (r: seq<int>)
    ensures forall y :: y in r <==> y in q && y != x
  {
    if q == [] then [] else (if q[0] == x then [] else [q[0]]) + Remove(q[1..], x)
  }

  lemma DistinctTail(q: seq<int>)
    requires Distinct(q) && q != []
    ensures Distinct(q[1..]) && q[0] !in q[1..]
  {
    forall i, j | 0 <= i < j < |q[1..]| ensures q[1..][i] != q[1..][j] {
      assert q[1..][i] == q[i + 1] && q[1..][j] == q[j + 1];
    }
  }

  lemma DistinctAppend(q: seq<int>, x: int)
    requires Distinct(q) && x !in q
    ensures Distinct(q + [x])
  {
    forall i, j | 0 <= i < j < |q + [x]| ensures (q + [x])[i] != (q + [x])[j] {
      assert (q + [x])[i] == q[i];
      if j < |q| { assert (q + [x])[j] == q[j]; }
    }
  }

  lemma {:induction false} RemoveAbsent(q: seq<int>, x: int)
    requires x !in q
    ensures Remove(q, x) == q
  {
    if q != [] { RemoveAbsent(q[1..], x); }
  }

  lemma {:induction false} RemoveDistinct(q: seq<int>, x: int)
    requires Distinct(q)
    ensures Distinct(Remove(q, x))
    ensures |Remove(q, x)| == if x in q then |q| - 1 else |q|
  {
    if q != [] {
      DistinctTail(q);
      RemoveDistinct(q[1..], x);
      var r' := Remove(q[1..], x);
      if q[0] == x {
        RemoveAbsent(q[1..], x);
        assert Remove(q, x) == q[1..];
      } else {
        assert Remove(q, x) == [q[0]] + r';
        assert q[0] !in r';
        assert x in q <==> x in q[1..];
        forall i, j | 0 <= i < j < |[q[0]] + r'| ensures ([q[0]] + r')[i] != ([q[0]] + r')[j] {
          assert ([q[0]] + r')[j] == r'[j - 1];
          if i > 0 { assert ([q[0]] + r')[i] == r'[i - 1]; }
        }
      }
    }
  }

  lemma {:induction false} SumFrame(m: map<int, Order>, m': map<int, Order>, q: seq<int>)
    requires forall y | y in q :: Vol(m, y) == Vol(m', y)
    ensures SumVolumes(m, q) == SumVolumes(m', q)
  {
    if q != [] { SumFrame(m, m', q[1..]); }
  }

  lemma {:induction false} SumAppend(m: map<int, Order>, q: seq<int>, x: int)
    ensures SumVolumes(m, q + [x]) == SumVolumes(m, q) + Vol(m, x)
  {
    if q != [] {
      assert (q + [x])[1..] == q[1..] + [x];
      SumAppend(m, q[1..], x);
    } else {
      assert q + [x] == [x];
    }
  }

  lemma {:induction false} SumRemove(m: map<int, Order>, q: seq<int>, x: int)
    requires Distinct(q) && x in q
    ensures SumVolumes(m, Remove(q, x)) == SumVolumes(m, q) - Vol(m, x)
  {
    DistinctTail(q);
    if q[0] == x {
      RemoveAbsent(q[1..], x);
      assert Remove(q, x) == q[1..];
    } else {
      SumRemove(m, q[1..], x);
      var r := Remove(q, x);
      assert r == [q[0]] + Remove(q[1..], x);
      assert r[0] == q[0] && r[1..] == Remove(q[1..], x);
    }
  }

  lemma {:induction false} SumUpdate(m: map<int, Order>, q: seq<int>, x: int, o: Order)
    requires Distinct(q) && x in q
    ensures SumVolumes(m[x := o], q) == SumVolumes(m, q) - Vol(m, x) + o.volume
  {
    DistinctTail(q);
    if q[0] == x {
      SumFrame(m, m[x := o], q[1..]);
    } else {
      SumUpdate(m, q[1..], x, o);
    }
  }

  // ------------------------------------------------------------ invariant

  /** A registered order is stored under its own id, has a non-negative
      volume and is linked into the level of its symbol, side and price. */
  ghost predicate OrderOk(b: Book, id: int)
    requires id in b.orders
  {
    var o := b.orders[id];
    o.id == id && o.volume >= 0 && KeyOf(o) in b.levels && id in b.levels[KeyOf(o)].queue
  }

  /** A level exists only while it has members; it lists each member once;
      its size and totalVolume are the member count and the members' volume
      sum; its price is in its side's price set and its symbol is known. */
  ghost predicate LevelOk(b: Book, k: LevelKey)
    requires k in b.levels
  {
    var lv := b.levels[k];
    && lv.limitPrice == k.price
    && lv.queue != [] && lv.size == |lv.queue| && Distinct(lv.queue)
    && (forall i | 0 <= i < |lv.queue| :: lv.queue[i] in b.orders && KeyOf(b.orders[lv.queue[i]]) == k)
    && lv.totalVolume == SumVolumes(b.orders, lv.queue)
    && k.price in PriceSet(b, k.side, k.symbol)
    && k.symbol in b.symbols
  }

  ghost predicate OrdersOk(b: Book)
  {
    forall id {:trigger OrderOk(b, id)} | id in b.orders :: OrderOk(b, id)
  }

  ghost predicate LevelsOk(b: Book)
  {
    forall k {:trigger LevelOk(b, k)} | k in b.levels :: LevelOk(b, k)
  }

  /** Price sets are sorted best first and list only prices that have a level. */
  ghost predicate PricesOk(b: Book)
  {
    && (forall side, sym :: SortedPrices(side, PriceSet(b, side, sym)))
    && (forall side, sym, p | p in PriceSet(b, side, sym) :: LevelKey(sym, side, p) in b.levels)
  }

  ghost predicate Valid(b: Book)
  {
    OrdersOk(b) && LevelsOk(b) && PricesOk(b) && SortedSymbols(b.symbols)
  }

  /** The book invariant that no resting order has volume 0. */
  ghost predicate Positive(b: Book)
  {
    forall id | id in b.orders :: b.orders[id].volume > 0
  }

  /** No symbol's best bid reaches its best ask. */
  ghost predicate NotCrossed(b: Book)
  {
    forall sym | PriceSet(b, Buy, sym) != [] && PriceSet(b, Sell, sym) != [] ::
      PriceSet(b, Buy, sym)[0] < PriceSet(b, Sell, sym)[0]
  }

  lemma EmptyBookValid()
    ensures Valid(EmptyBook) && Positive(EmptyBook) && NotCrossed(EmptyBook)
  {
  }

  lemma InLevel(b: Book, k: LevelKey, y: int)
    requires k in b.levels && LevelOk(b, k) && y in b.levels[k].queue
    ensures y in b.orders && KeyOf(b.orders[y]) == k
  {
    var i :| 0 <= i < |b.levels[k].queue| && b.levels[k].queue[i] == y;
  }

  /** A level stays consistent when it, its members and its price entry are
      left as they were. */
  lemma LevelOkFrame(b: Book, b': Book, k: LevelKey)
    requires k in b.levels && LevelOk(b, k)
    requires k in b'.levels && b'.levels[k] == b.levels[k]
    requires forall y | y in b.levels[k].queue :: y in b'.orders && b'.orders[y] == b.orders[y]
    requires k.price in PriceSet(b', k.side, k.symbol) && k.symbol in b'.symbols
    ensures LevelOk(b', k)
  {
    var q := b.levels[k].queue;
    forall i | 0 <= i < |q| ensures q[i] in b'.orders && KeyOf(b'.orders[q[i]]) == k {
      assert q[i] in q;
    }
    SumFrame(b.orders, b'.orders, q);
  }

  // ------------------------------------------------------------ operations

  /** addOrder: register `o` and link it at the newest end of its level,
      creating the level and its price entry when needed. */
  function AddOrder(b: Book, o: Order): (r: Book)
    requires Valid(b)
    ensures r.orders == b.orders[o.id := o]
  {
    var k := KeyOf(o);
    var lv := if k in b.levels
      then b.levels[k].(totalVolume := b.levels[k].totalVolume + o.volume,
                        size := b.levels[k].size + 1,
                        queue := b.levels[k].queue + [o.id])
      else Limit(o.price, o.volume, 1, [o.id]);
    var b1 := b.(orders := b.orders[o.id := o], levels := b.levels[k := lv],
                 symbols := InsertSymbol(b.symbols, o.symbol));
    WithPrices(b1, o.side, o.symbol, InsertPrice(o.side, PriceSet(b, o.side, o.symbol), o.price))
  }

  /** removeOrder: unregister `o`, unlink it from its level, take its volume
      off the level total, and drop the level and its price when it empties. */
  function RemoveOrder(b: Book, o: Order): (r: Book)
    requires Valid(b) && o.id in b.orders && b.orders[o.id] == o
    ensures r.orders == b.orders - {o.id}
  {
    assert OrderOk(b, o.id);
    var k := KeyOf(o);
    var lv := b.levels[k];
    var lv' := lv.(totalVolume := lv.totalVolume - o.volume, size := lv.size - 1,
                   queue := Remove(lv.queue, o.id));
    var b1 := b.(orders := b.orders - {o.id});
    if lv'.size == 0 then
      WithPrices(b1.(levels := b.levels - {k}), o.side, o.symbol,
                 ErasePrice(o.side, PriceSet(b, o.side, o.symbol), o.price))
    else b1.(levels := b.levels[k := lv'])
  }

  /** The passive order `pid` gives up `q`: its volume and its level's total
      drop by `q`. */
  function Decrement(b: Book, pid: int, q: int): (r: Book)
    requires Valid(b) && pid in b.orders
    ensures r.orders.Keys == b.orders.Keys
  {
    assert OrderOk(b, pid);
    var p := b.orders[pid];
    var lv := b.levels[KeyOf(p)];
    b.(orders := b.orders[pid := p.(volume := p.volume - q)],
       levels := b.levels[KeyOf(p) := lv.(totalVolume := lv.totalVolume - q)])
  }

  /** One fill of the passive order `pid` for `q`; a passive order left with
      volume 0 is removed. */
  function Fill(b: Book, pid: int, q: int): (r: Book)
    requires Valid(b) && pid in b.orders && 0 <= q <= b.orders[pid].volume
    ensures Valid(r)
    ensures r.orders.Keys == if q == b.orders[pid].volume then b.orders.Keys - {pid} else b.orders.Keys
  {
    assert OrderOk(b, pid);
    var b1 := Decrement(b, pid, q);
    DecrementValid(b, pid, q);
    if b1.orders[pid].volume == 0 then
      RemoveOrderValid(b1, b1.orders[pid]);
      RemoveOrder(b1, b1.orders[pid])
    else b1
  }

  /** The end of matchOrder: a remaining volume rests, nothing else does. */
  function Rest(b: Book, o: Order): Book
    requires Valid(b)
  {
    if o.volume != 0 then AddOrder(b, o) else b
  }

  /** The resting order matchOrder would trade against next: the oldest order
      of the best opposite level. */
  function BestOpposite(b: Book, o: Order): (r: Option<int>)
    requires Valid(b)
    ensures r.None? <==> PriceSet(b, Opposite(o.side), o.symbol) == []
    ensures r.Some? ==>
      var k := LevelKey(o.symbol, Opposite(o.side), PriceSet(b, Opposite(o.side), o.symbol)[0]);
      && r.value in b.orders && KeyOf(b.orders[r.value]) == k
      && k in b.levels && b.levels[k].queue != [] && b.levels[k].queue[0] == r.value
  {
    var ps := PriceSet(b, Opposite(o.side), o.symbol);
    if ps == [] then None
    else
      var k := LevelKey(o.symbol, Opposite(o.side), ps[0]);
      assert LevelOk(b, k);
      InLevel(b, k, b.levels[k].queue[0]);
      Some(b.levels[k].queue[0])
  }

  /** matchOrder: while the opposite side has a level and its oldest order
      crosses, trade min(remaining, passive volume) at the passive price;
      then rest what is left. The trades are listed in the order they occur. */
  function Match(b: Book, o: Order): (r: Outcome)
    requires Valid(b) && o.id !in b.orders && o.volume >= 0
    ensures Valid(r.book)
    decreases o.volume, |b.orders|
  {
    match BestOpposite(b, o)
    case None =>
      AddOrderValid(b, o);
      Outcome(Rest(b, o), [])
    case Some(pid) =>
      var p := b.orders[pid];
      if !Crosses(o.side, o.price, p.price) then
        AddOrderValid(b, o);
        Outcome(Rest(b, o), [])
      else
        var q := Min(p.volume, o.volume);
        assert OrderOk(b, pid);
        var b' := Fill(b, pid, q);
        var o' := o.(volume := o.volume - q);
        var t := Trade(o.symbol, p.price, q, o.id, pid);
        if o'.volume == 0 then Outcome(b', [t])
        else
          CardRemove(b.orders, pid);
          var r' := Match(b', o');
          Outcome(r'.book, [t] + r'.trades)
  }

  /** matchOrder stops when the opposite side is empty or its best order does
      not cross: the remainder rests and there are no trades. */
  lemma MatchHalts(b: Book, o: Order)
    requires Valid(b) && o.id !in b.orders && o.volume >= 0
    requires BestOpposite(b, o).None? ||
             !Crosses(o.side, o.price, b.orders[BestOpposite(b, o).value].price)
    ensures Match(b, o) == Outcome(Rest(b, o), [])
  {
  }

  /** A round of matchOrder fills at most the passive volume and leaves the
      incoming id unregistered. */
  lemma MatchRoundFill(b: Book, o: Order, pid: int, q: int)
    requires Valid(b) && o.id !in b.orders && o.volume >= 0
    requires BestOpposite(b, o) == Some(pid)
    requires q == Min(b.orders[pid].volume, o.volume)
    ensures 0 <= q <= b.orders[pid].volume && q <= o.volume
    ensures o.id !in Fill(b, pid, q).orders
    ensures q == 0 && o.volume != 0 ==> |Fill(b, pid, q).orders| < |b.orders|
  {
    assert OrderOk(b, pid);
    if q == 0 && o.volume != 0 {
      assert Fill(b, pid, q).orders.Keys == b.orders.Keys - {pid};
      CardRemove(b.orders, pid);
    }
  }

  /** A round of matchOrder that uses up the incoming volume is its last. */
  lemma MatchRoundLast(b: Book, o: Order, pid: int, q: int, next: Order, t: Trade)
    requires Valid(b) && o.id !in b.orders && o.volume >= 0
    requires BestOpposite(b, o) == Some(pid) && Crosses(o.side, o.price, b.orders[pid].price)
    requires q == Min(b.orders[pid].volume, o.volume) && next == o.(volume := o.volume - q)
    requires t == Trade(o.symbol, b.orders[pid].price, q, o.id, pid)
    requires next.volume == 0
    ensures 0 <= q <= b.orders[pid].volume
    ensures Match(b, o) == Outcome(Fill(b, pid, q), [t])
  {
    assert OrderOk(b, pid);
  }

  /** A round of matchOrder that leaves incoming volume continues with the
      remainder against the filled book. */
  lemma MatchRoundMore(b: Book, o: Order, pid: int, q: int, next: Order, t: Trade)
    requires Valid(b) && o.id !in b.orders && o.volume >= 0
    requires BestOpposite(b, o) == Some(pid) && Crosses(o.side, o.price, b.orders[pid].price)
    requires q == Min(b.orders[pid].volume, o.volume) && next == o.(volume := o.volume - q)
    requires t == Trade(o.symbol, b.orders[pid].price, q, o.id, pid)
    requires next.volume != 0
    ensures 0 <= q <= b.orders[pid].volume
    ensures Match(b, o) == Outcome(Match(Fill(b, pid, q), next).book, [t] + Match(Fill(b, pid, q), next).trades)
  {
    assert OrderOk(b, pid);
    var p := b.orders[pid];
    assert Crosses(o.side, o.price, p.price) && q == Min(p.volume, o.volume);
    CardRemove(b.orders, pid);
  }

  /** processInsertQuery: a new order enters matching with the command index
      as its timestamp. */
  function InsertOrder(b: Book, id: int, symbol: string, side: Side, price: int, volume: nat, timestamp: int): (r: Outcome)
    requires Valid(b) && id !in b.orders
    ensures Valid(r.book)
  {
    Match(b, Order(id, symbol, side, price, volume, timestamp))
  }

  /** processAmendQuery for a registered id, as written: the same price and
      volume change nothing; the same price with a smaller volume updates the
      order and its level total in place; anything else removes the order and
      matches it again with the new price and volume, keeping its old
      timestamp. A smaller volume of 0 takes the in-place branch and leaves a
      resting order of volume 0. */
  function AmendOrderAsWritten(b: Book, id: int, price: int, volume: nat): (r: Outcome)
    requires Valid(b) && id in b.orders
    ensures Valid(r.book)
  {
    var cur := b.orders[id];
    assert OrderOk(b, id);
    if cur.volume == volume && cur.price == price then Outcome(b, [])
    else if cur.volume > volume && cur.price == price then
      AmendInPlaceValid(b, id, volume);
      Outcome(AmendInPlace(b, id, volume), [])
    else
      RemoveOrderValid(b, cur);
      Match(RemoveOrder(b, cur), cur.(volume := volume, price := price))
  }

  /** processAmendQuery with the in-place branch limited to a volume that
      stays positive: an amendment to volume 0 takes the remove-and-match
      branch, which does not rest a volume-0 order. */
  function AmendOrder(b: Book, id: int, price: int, volume: nat): (r: Outcome)
    requires Valid(b) && id in b.orders
    ensures Valid(r.book)
  {
    var cur := b.orders[id];
    assert OrderOk(b, id);
    if cur.volume == volume && cur.price == price then Outcome(b, [])
    else if cur.volume > volume > 0 && cur.price == price then
      AmendInPlaceValid(b, id, volume);
      Outcome(AmendInPlace(b, id, volume), [])
    else
      RemoveOrderValid(b, cur);
      Match(RemoveOrder(b, cur), cur.(volume := volume, price := price))
  }

  function AmendInPlace(b: Book, id: int, volume: int): Book
    requires Valid(b) && id in b.orders
  {
    assert OrderOk(b, id);
    var cur := b.orders[id];
    var lv := b.levels[KeyOf(cur)];
    b.(orders := b.orders[id := cur.(volume := volume)],
       levels := b.levels[KeyOf(cur) := lv.(totalVolume := lv.totalVolume - (cur.volume - volume))])
  }

  /** processPullQuery: a registered order is removed; an unknown id changes
      nothing. */
  function PullOrder(b: Book, id: int): (r: Book)
    requires Valid(b)
    ensures Valid(r)
  {
    if id in b.orders then
      assert OrderOk(b, id);
      RemoveOrderValid(b, b.orders[id]);
      RemoveOrder(b, b.orders[id])
    else b
  }


  // ------------------------------------------------------------ snapshot

  /** outPutPerSymbol prints a block for a symbol only when one of its sides
      has a price. */
  predicate HasLiquidity(b: Book, sym: string)
  {
    PriceSet(b, Buy, sym) != [] || PriceSet(b, Sell, sym) != []
  }

  /** The totalVolume of a level (0 where there is none). */
  function TotalAt(b: Book, k: LevelKey): int
  {
    if k in b.levels then b.levels[k].totalVolume else 0
  }

  function QuotesFor(b: Book, side: Side, sym: string, ps: seq<int>): (r: seq<Quote>)
    ensures |r| == |ps|
    ensures forall i | 0 <= i < |r| :: r[i] == Quote(ps[i], TotalAt(b, LevelKey(sym, side, ps[i])))
  {
    if ps == [] then []
    else [Quote(ps[0], TotalAt(b, LevelKey(sym, side, ps[0])))] + QuotesFor(b, side, sym, ps[1..])
  }

  /** The quotes outPutPerSymbol prints for one side of a symbol: the side's
      prices in set order, each with its level's totalVolume. */
  function LevelQuotes(b: Book, side: Side, sym: string): seq<Quote>
  {
    QuotesFor(b, side, sym, PriceSet(b, side, sym))
  }

  // ------------------------------------------------------------ commands

  /** One command of `run`, whose index `ts` becomes the timestamp of an
      INSERT; an AMEND takes processAmendQuery's branches as written. An
      INSERT of an id that is still resident, and an AMEND of an unknown id,
      change nothing; so does an unrecognised command. */
  function Step(b: Book, c: Command, ts: int): (r: Outcome)
    requires Valid(b)
    ensures Valid(r.book)
  {
    match c
    case Insert(id, symbol, side, price, volume) =>
      if id in b.orders then Outcome(b, [])
      else InsertOrder(b, id, symbol, side, price, volume, ts)
    case Amend(id, price, volume) =>
      if id in b.orders then AmendOrderAsWritten(b, id, price, volume) else Outcome(b, [])
    case Pull(id) => Outcome(PullOrder(b, id), [])
    case Other => Outcome(b, [])
  }

  /** Step with the corrected AMEND, whose in-place branch keeps volumes
      positive. */
  function StepFixed(b: Book, c: Command, ts: int): (r: Outcome)
    requires Valid(b)
    ensures Valid(r.book)
    ensures !c.Amend? ==> r == Step(b, c, ts)
  {
    match c
    case Amend(id, price, volume) =>
      if id in b.orders then AmendOrder(b, id, price, volume) else Outcome(b, [])
    case _ => Step(b, c, ts)
  }

  /** The command loop of `run` over its first `n` commands, each command
      stamped with its index: the book after them and every trade, in the
      order the trades occur. */
  function RunUpTo(b: Book, cs: seq<Command>, n: nat): (r: Outcome)
    requires Valid(b) && n <= |cs|
    ensures Valid(r.book)
  {
    if n == 0 then Outcome(b, [])
    else
      var before := RunUpTo(b, cs, n - 1);
      var s := Step(before.book, cs[n - 1], n - 1);
      Outcome(s.book, before.trades + s.trades)
  }

  /** RunUpTo with the corrected AMEND. */
  function RunFixedUpTo(b: Book, cs: seq<Command>, n: nat): (r: Outcome)
    requires Valid(b) && n <= |cs|
    ensures Valid(r.book)
  {
    if n == 0 then Outcome(b, [])
    else
      var before := RunFixedUpTo(b, cs, n - 1);
      var s := StepFixed(before.book, cs[n - 1], n - 1);
      Outcome(s.book, before.trades + s.trades)
  }

  // ------------------------------------------------------------ preservation

  lemma DecrementValid(b: Book, pid: int, q: int)
    requires Valid(b) && pid in b.orders && 0 <= q <= b.orders[pid].volume
    ensures Valid(Decrement(b, pid, q))
  {
    assert OrderOk(b, pid);
    var p := b.orders[pid];
    var k := KeyOf(p);
    var b' := Decrement(b, pid, q);
    assert OrdersOk(b') by {
      forall id | id in b'.orders ensures OrderOk(b', id) {
        assert OrderOk(b, id);
      }
    }
    assert LevelsOk(b') by {
      forall k2 | k2 in b'.levels ensures LevelOk(b', k2) {
        assert LevelOk(b, k2);
        var q2 := b.levels[k2].queue;
        if k2 == k {
          SumUpdate(b.orders, q2, pid, p.(volume := p.volume - q));
          forall i | 0 <= i < |q2| ensures q2[i] in b'.orders && KeyOf(b'.orders[q2[i]]) == k {
          }
        } else {
          forall y | y in q2 ensures y in b'.orders && b'.orders[y] == b.orders[y] {
            InLevel(b, k2, y);
          }
          LevelOkFrame(b, b', k2);
        }
      }
    }
    assert b'.levels.Keys == b.levels.Keys;
    assert forall sd, sy :: PriceSet(b', sd, sy) == PriceSet(b, sd, sy);
  }

  lemma AmendInPlaceValid(b: Book, id: int, volume: nat)
    requires Valid(b) && id in b.orders && volume < b.orders[id].volume
    ensures KeyOf(b.orders[id]) in b.levels
    ensures Valid(AmendInPlace(b, id, volume))
  {
    assert OrderOk(b, id);
    var d := b.orders[id].volume - volume;
    DecrementValid(b, id, d);
    assert AmendInPlace(b, id, volume) == Decrement(b, id, d);
  }

  lemma AddOrderValid(b: Book, o: Order)
    requires Valid(b) && o.id !in b.orders && o.volume >= 0
    ensures Valid(AddOrder(b, o))
  {
    var b' := AddOrder(b, o);
    var k := KeyOf(o);
    var s' := InsertPrice(o.side, PriceSet(b, o.side, o.symbol), o.price);
    assert forall sd, sy :: PriceSet(b', sd, sy) == if sd == o.side && sy == o.symbol then s' else PriceSet(b, sd, sy);
    assert forall k2 | k2 in b.levels :: k2.price in PriceSet(b', k2.side, k2.symbol) by {
      forall k2 | k2 in b.levels ensures k2.price in PriceSet(b', k2.side, k2.symbol) {
        assert LevelOk(b, k2);
      }
    }
    assert OrdersOk(b') by {
      forall id | id in b'.orders ensures OrderOk(b', id) {
        if id != o.id {
          assert OrderOk(b, id);
        }
      }
    }
    assert LevelsOk(b') by {
      forall k2 | k2 in b'.levels ensures LevelOk(b', k2) {
        if k2 == k {
          AddOrderOwnLevel(b, o);
        } else {
          AddOrderOtherLevel(b, o, k2);
        }
      }
    }
  }

  /** The level `o` joins, at its back, keeps its invariant. */
  lemma AddOrderOwnLevel(b: Book, o: Order)
    requires Valid(b) && o.id !in b.orders && o.volume >= 0
    ensures KeyOf(o) in AddOrder(b, o).levels && LevelOk(AddOrder(b, o), KeyOf(o))
  {
    var b' := AddOrder(b, o);
    var k := KeyOf(o);
    if k in b.levels {
      assert LevelOk(b, k);
      var q := b.levels[k].queue;
      assert o.id !in q by {
        if o.id in q { InLevel(b, k, o.id); }
      }
      DistinctAppend(q, o.id);
      forall y | y in q ensures Vol(b.orders, y) == Vol(b'.orders, y) {
      }
      SumFrame(b.orders, b'.orders, q);
      SumAppend(b'.orders, q, o.id);
      forall i | 0 <= i < |q + [o.id]| ensures (q + [o.id])[i] in b'.orders && KeyOf(b'.orders[(q + [o.id])[i]]) == k {
        if i < |q| {
          assert (q + [o.id])[i] == q[i];
          InLevel(b, k, q[i]);
        }
      }
    } else {
      assert SumVolumes(b'.orders, [o.id]) == o.volume;
    }
  }

  /** Every other level is untouched by addOrder. */
  lemma AddOrderOtherLevel(b: Book, o: Order, k2: LevelKey)
    requires Valid(b) && o.id !in b.orders && o.volume >= 0
    requires k2 in AddOrder(b, o).levels && k2 != KeyOf(o)
    ensures LevelOk(AddOrder(b, o), k2)
  {
    var b' := AddOrder(b, o);
    assert k2 in b.levels && b'.levels[k2] == b.levels[k2];
    assert LevelOk(b, k2);
    forall y | y in b.levels[k2].queue ensures y in b'.orders && b'.orders[y] == b.orders[y] {
      InLevel(b, k2, y);
    }
    LevelOkFrame(b, b', k2);
  }

  lemma RemoveOrderValid(b: Book, o: Order)
    requires Valid(b) && o.id in b.orders && b.orders[o.id] == o
    ensures KeyOf(o) in b.levels
    ensures Valid(RemoveOrder(b, o))
  {
    assert OrderOk(b, o.id);
    RemoveOrderPrices(b, o);
    RemoveOrderOrders(b, o);
    RemoveOrderLevels(b, o);
  }

  /** What removeOrder does to the price sets and the level map: the level
      goes, and its price with it, exactly when `o` was its last member. */
  lemma RemoveOrderPrices(b: Book, o: Order)
    requires Valid(b) && o.id in b.orders && b.orders[o.id] == o && OrderOk(b, o.id)
    ensures var b' := RemoveOrder(b, o);
      var erased := b.levels[KeyOf(o)].queue == [o.id];
      && b'.levels.Keys == (if erased then b.levels.Keys - {KeyOf(o)} else b.levels.Keys)
      && (forall sd, sy :: PriceSet(b', sd, sy) ==
            if erased && sd == o.side && sy == o.symbol
            then ErasePrice(o.side, PriceSet(b, o.side, o.symbol), o.price)
            else PriceSet(b, sd, sy))
      && PricesOk(b') && b'.symbols == b.symbols
  {
    var k := KeyOf(o);
    assert LevelOk(b, k);
    var q := b.levels[k].queue;
    RemoveDistinct(q, o.id);
    assert |Remove(q, o.id)| == 0 <==> q == [o.id] by {
      if |Remove(q, o.id)| == 0 {
        assert |q| == 1 && q[0] in q;
        assert q == [q[0]];
      }
    }
    if q == [o.id] {
      RemoveLastOfLevel(b, o);
    } else {
      RemoveOneOfLevel(b, o);
    }
  }

  /** removeOrder of a level's last member drops the level and its price. */
  lemma RemoveLastOfLevel(b: Book, o: Order)
    requires Valid(b) && o.id in b.orders && b.orders[o.id] == o && OrderOk(b, o.id)
    requires b.levels[KeyOf(o)].size == 1
    ensures var b' := RemoveOrder(b, o);
      && b'.levels == b.levels - {KeyOf(o)}
      && (forall sd, sy :: PriceSet(b', sd, sy) ==
            if sd == o.side && sy == o.symbol
            then ErasePrice(o.side, PriceSet(b, o.side, o.symbol), o.price)
            else PriceSet(b, sd, sy))
      && PricesOk(b') && b'.symbols == b.symbols
  {
    var k := KeyOf(o);
    var b' := RemoveOrder(b, o);
    assert b'.levels == b.levels - {k};
    forall side, sym, p | p in PriceSet(b', side, sym) ensures LevelKey(sym, side, p) in b'.levels {
      assert p in PriceSet(b, side, sym);
    }
  }

  /** removeOrder of one of several members keeps every level and price. */
  lemma RemoveOneOfLevel(b: Book, o: Order)
    requires Valid(b) && o.id in b.orders && b.orders[o.id] == o && OrderOk(b, o.id)
    requires b.levels[KeyOf(o)].size != 1
    ensures var b' := RemoveOrder(b, o);
      && b'.levels.Keys == b.levels.Keys
      && (forall sd, sy :: PriceSet(b', sd, sy) == PriceSet(b, sd, sy))
      && PricesOk(b') && b'.symbols == b.symbols
  {
    var b' := RemoveOrder(b, o);
    assert b'.levels.Keys == b.levels.Keys;
    assert b'.bids == b.bids && b'.asks == b.asks;
  }

  lemma RemoveOrderOrders(b: Book, o: Order)
    requires Valid(b) && o.id in b.orders && b.orders[o.id] == o && OrderOk(b, o.id)
    ensures OrdersOk(RemoveOrder(b, o))
  {
    var k := KeyOf(o);
    assert LevelOk(b, k);
    var q := b.levels[k].queue;
    RemoveDistinct(q, o.id);
    var b' := RemoveOrder(b, o);
    forall id | id in b'.orders ensures OrderOk(b', id) {
      assert OrderOk(b, id);
      if KeyOf(b.orders[id]) == k {
        assert id in Remove(q, o.id);
      }
    }
  }

  lemma RemoveOrderLevels(b: Book, o: Order)
    requires Valid(b) && o.id in b.orders && b.orders[o.id] == o && OrderOk(b, o.id)
    ensures LevelsOk(RemoveOrder(b, o))
  {
    RemoveOrderPrices(b, o);
    var b' := RemoveOrder(b, o);
    forall k2 | k2 in b'.levels ensures LevelOk(b', k2) {
      if k2 == KeyOf(o) {
        RemoveOrderOwnLevel(b, o);
      } else {
        RemoveOrderOtherLevel(b, o, k2);
      }
    }
  }

  /** The level `o` leaves, when it stays, keeps its invariant. */
  lemma RemoveOrderOwnLevel(b: Book, o: Order)
    requires Valid(b) && o.id in b.orders && b.orders[o.id] == o && OrderOk(b, o.id)
    requires KeyOf(o) in RemoveOrder(b, o).levels
    ensures LevelOk(RemoveOrder(b, o), KeyOf(o))
  {
    var k := KeyOf(o);
    assert LevelOk(b, k);
    var q := b.levels[k].queue;
    var q' := Remove(q, o.id);
    RemoveDistinct(q, o.id);
    var b' := RemoveOrder(b, o);
    assert b'.levels[k].queue == q';
    SumRemove(b.orders, q, o.id);
    forall y | y in q' ensures y in b'.orders && b'.orders[y] == b.orders[y] {
      InLevel(b, k, y);
    }
    SumFrame(b.orders, b'.orders, q');
    forall i | 0 <= i < |q'| ensures q'[i] in b'.orders && KeyOf(b'.orders[q'[i]]) == k {
      assert q'[i] in q';
      InLevel(b, k, q'[i]);
    }
  }

  /** Every other level is untouched by removeOrder. */
  lemma RemoveOrderOtherLevel(b: Book, o: Order, k2: LevelKey)
    requires Valid(b) && o.id in b.orders && b.orders[o.id] == o && OrderOk(b, o.id)
    requires k2 in RemoveOrder(b, o).levels && k2 != KeyOf(o)
    ensures LevelOk(RemoveOrder(b, o), k2)
  {
    var b' := RemoveOrder(b, o);
    assert k2 in b.levels && b'.levels[k2] == b.levels[k2];
    assert LevelOk(b, k2);
    forall y | y in b.levels[k2].queue ensures y in b'.orders && b'.orders[y] == b.orders[y] {
      InLevel(b, k2, y);
    }
    LevelOkFrame(b, b', k2);
  }

  lemma CardRemove(m: map<int, Order>, x: int)
    requires x in m
    ensures |(m - {x}).Keys| < |m.Keys|
  {
    assert (m - {x}).Keys == m.Keys - {x};
  }
}
