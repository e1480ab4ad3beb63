/** The order book of optimized.cpp as the program keeps it: the global
    registries become the fields of one `Engine` object, and every routine
    that updates them becomes a method proved to leave exactly the state
    the matching function of OptimizedBook describes. */
module OptimizedEngine {
  import opened Market
  import opened Sorted
  import opened Snapshot
  import opened OptimizedBook
  import opened OptimizedLaws

  class Engine {
    /** orderLookUp: every resting order by id. */
    var orders: map<int, Order>
    /** limitLookUp: every price level by (symbol, side, price). */
    var levels: map<LevelKey, Limit>
    /** limitSetBuyLookUp and limitSetSellLookUp: each symbol's prices, best first. */
    var bids: map<string, seq<int>>
    var asks: map<string, seq<int>>
    /** allSymbols, in lexicographic order. */
    var symbols: seq<string>
    /** finalResult: the trades reported so far, oldest first. */
    var results: seq<Trade>

    /** The registries as one book value. */
    function State(): Book
      reads this
    {
      Book(orders, levels, bids, asks, symbols)
    }

    constructor()
      ensures State() == EmptyBook && results == []
    {
      orders := map[];
      levels := map[];
      bids := map[];
      asks := map[];
      symbols := [];
      results := [];
    }

    /** removeOrder: the registry entry goes first, then the order leaves its
        level, and an emptied level takes its price with it. */
    method RemoveOrder(o: Order)
      requires Valid(State()) && o.id in orders && orders[o.id] == o
      modifies this
      ensures State() == OptimizedBook.RemoveOrder(old(State()), o)
      ensures results == old(results)
    {
      ghost var b := State();
      assert OrderOk(b, o.id);
      orders := orders - {o.id};
      var k := KeyOf(o);
      var lv := levels[k];
      lv := lv.(totalVolume := lv.totalVolume - o.volume, size := lv.size - 1,
                queue := Remove(lv.queue, o.id));
      if lv.size == 0 {
        levels := levels - {k};
        if o.side == Buy {
          var ps := if o.symbol in bids then bids[o.symbol] else [];
          bids := bids[o.symbol := ErasePrice(Buy, ps, o.price)];
        } else {
          var ps := if o.symbol in asks then asks[o.symbol] else [];
          asks := asks[o.symbol := ErasePrice(Sell, ps, o.price)];
        }
      } else {
        levels := levels[k := lv];
      }
    }

    /** addOrder: register the order, record its symbol, create its level
        empty when it has none, link the order at the newest end, count it
        into the level, and record the price in its side's set. */
    method AddOrder(o: Order)
      requires Valid(State())
      modifies this
      ensures State() == OptimizedBook.AddOrder(old(State()), o)
      ensures results == old(results)
    {
      LinkOrder(o);
      RecordPrice(o);
    }

    /** The registry and level half of addOrder. */
    method LinkOrder(o: Order)
      requires Valid(State())
      modifies this
      ensures var r := OptimizedBook.AddOrder(old(State()), o);
        orders == r.orders && levels == r.levels && symbols == r.symbols
      ensures bids == old(bids) && asks == old(asks) && results == old(results)
    {
      ghost var b := State();
      orders := orders[o.id := o];
      symbols := InsertSymbol(symbols, o.symbol);
      var k := KeyOf(o);
      if k !in levels {
        levels := levels[k := Limit(o.price, 0, 0, [])];
      }
      var lv := levels[k];
      levels := levels[k := lv.(totalVolume := lv.totalVolume + o.volume, size := lv.size + 1,
                               queue := lv.queue + [o.id])];
      assert k !in b.levels ==> [] + [o.id] == [o.id];
    }

    /** The price-set half of addOrder: set::insert into the side's set. */
    method RecordPrice(o: Order)
      requires SortedPrices(o.side, PriceSet(State(), o.side, o.symbol))
      modifies this
      ensures State() == WithPrices(old(State()), o.side, o.symbol,
        InsertPrice(o.side, PriceSet(old(State()), o.side, o.symbol), o.price))
      ensures results == old(results)
    {
      if o.side == Buy {
        var ps := if o.symbol in bids then bids[o.symbol] else [];
        bids := bids[o.symbol := InsertPrice(Buy, ps, o.price)];
      } else {
        var ps := if o.symbol in asks then asks[o.symbol] else [];
        asks := asks[o.symbol := InsertPrice(Sell, ps, o.price)];
      }
    }

    /** The passive order `pid` gives up `q` to the incoming order: its
        volume and its level's total drop by `q`, and at volume 0 it is
        removed. */
    method FillPassive(pid: int, q: int)
      requires Valid(State()) && pid in orders && 0 <= q <= orders[pid].volume
      modifies this
      ensures State() == Fill(old(State()), pid, q)
      ensures results == old(results)
    {
      ghost var b := State();
      assert OrderOk(b, pid);
      var p := orders[pid];
      orders := orders[pid := p.(volume := p.volume - q)];
      levels := levels[KeyOf(p) := levels[KeyOf(p)].(totalVolume := levels[KeyOf(p)].totalVolume - q)];
      assert State() == Decrement(b, pid, q);
      DecrementValid(b, pid, q);
      if orders[pid].volume == 0 {
        RemoveOrder(orders[pid]);
      }
    }

    /** One pass of matchOrder's loop: when the best opposite order crosses
        `cur`, trade min(remaining, passive volume) at the passive price and
        fill the passive order; otherwise report that matching stops here.
        `expected` is the outcome of the whole match and `matched` the trades
        made so far. */
    method MatchOnce(cur: Order, ghost expected: Outcome, ghost matched: seq<Trade>)
      returns (traded: bool, t: Trade, next: Order)
      requires Valid(State()) && cur.id !in orders && cur.volume >= 0
      requires expected == Outcome(Match(State(), cur).book, matched + Match(State(), cur).trades)
      modifies this
      ensures results == old(results) && Valid(State())
      ensures !traded ==> State() == old(State()) && expected == Outcome(Rest(State(), cur), matched)
      ensures traded ==>
        && next.id !in orders && 0 <= next.volume <= cur.volume && next.id == cur.id
        && (next.volume != 0 ==> next.volume < cur.volume || |orders| < |old(orders)|)
      ensures traded && next.volume == 0 ==> expected == Outcome(Rest(State(), next), matched + [t])
      ensures traded && next.volume != 0 ==>
        expected == Outcome(Match(State(), next).book, matched + [t] + Match(State(), next).trades)
    {
      ghost var b := State();
      var prices := if cur.side == Buy then asks else bids;
      if cur.symbol !in prices || prices[cur.symbol] == [] {
        MatchHalts(b, cur);
        return false, Trade(cur.symbol, 0, 0, cur.id, cur.id), cur;
      }
      var pid := BestOf(prices[cur.symbol][0], cur);
      var p := orders[pid];
      if !Crosses(cur.side, cur.price, p.price) {
        MatchHalts(b, cur);
        return false, Trade(cur.symbol, 0, 0, cur.id, cur.id), cur;
      }
      var q := Min(p.volume, cur.volume);
      t := Trade(cur.symbol, p.price, q, cur.id, pid);
      next := cur.(volume := cur.volume - q);
      MatchRoundFill(b, cur, pid, q);
      if next.volume == 0 {
        MatchRoundLast(b, cur, pid, q, next, t);
        FillPassive(pid, q);
      } else {
        MatchRoundMore(b, cur, pid, q, next, t);
        FillPassive(pid, q);
        AppendAssoc(matched, [t], Match(State(), next).trades);
      }
      traded := true;
    }

    /** matchOrder: trade the incoming order against the oldest order of the
        best opposite level while the prices cross, remove each passive order
        that reaches 0, rest any remainder, and append the trades to the
        results. */
    method MatchOrder(o: Order)
      requires Valid(State()) && o.id !in orders && o.volume >= 0
      modifies this
      ensures State() == Match(old(State()), o).book
      ensures results == old(results) + Match(old(State()), o).trades
    {
      ghost var expected := Match(State(), o);
      var cur := o;
      var matched: seq<Trade> := [];
      var going := true;
      while going
        invariant Valid(State()) && cur.id !in orders && cur.volume >= 0
        invariant going ==> expected == Outcome(Match(State(), cur).book, matched + Match(State(), cur).trades)
        invariant !going ==> expected == Outcome(Rest(State(), cur), matched)
        invariant results == old(results)
        decreases going, cur.volume, |orders|
      {
        var traded, t, next := MatchOnce(cur, expected, matched);
        if traded {
          cur := next;
          matched := matched + [t];
          going := cur.volume != 0;
        } else {
          going := false;
        }
      }
      if cur.volume != 0 {
        AddOrder(cur);
      }
      results := results + matched;
    }

    /** The tailOrder of the level at the best opposite price `best`. */
    method BestOf(best: int, o: Order) returns (pid: int)
      requires Valid(State())
      requires PriceSet(State(), Opposite(o.side), o.symbol) != []
      requires best == PriceSet(State(), Opposite(o.side), o.symbol)[0]
      ensures BestOpposite(State(), o) == Some(pid) && pid in orders
    {
      ghost var r := BestOpposite(State(), o);
      var k := LevelKey(o.symbol, Opposite(o.side), best);
      pid := levels[k].queue[0];
    }

    /** processInsertQuery: an order with a new id enters matching with
        `timestamp` as its arrival time; a resident id is refused. */
    method ProcessInsert(id: int, symbol: string, side: Side, price: int, volume: nat, timestamp: int)
      returns (accepted: bool)
      requires Valid(State())
      modifies this
      ensures accepted <==> id !in old(orders)
      ensures State() == Step(old(State()), Insert(id, symbol, side, price, volume), timestamp).book
      ensures results == old(results) + Step(old(State()), Insert(id, symbol, side, price, volume), timestamp).trades
    {
      if id in orders {
        return false;
      }
      MatchOrder(Order(id, symbol, side, price, volume, timestamp));
      return true;
    }

    /** processAmendQuery: the same price and volume change nothing; the same
        price and a smaller volume, 0 included, update the order and its
        level in place; anything else removes the order and matches it
        again. */
    method ProcessAmend(id: int, price: int, volume: nat) returns (known: bool)
      requires Valid(State())
      modifies this
      ensures known <==> id in old(orders)
      ensures State() == Step(old(State()), Amend(id, price, volume), 0).book
      ensures results == old(results) + Step(old(State()), Amend(id, price, volume), 0).trades
    {
      if id !in orders {
        return false;
      }
      ghost var b := State();
      assert OrderOk(b, id);
      var cur := orders[id];
      known := true;
      if cur.volume == volume && cur.price == price {
        return;
      }
      if cur.volume > volume && cur.price == price {
        orders := orders[id := cur.(volume := volume)];
        var k := KeyOf(cur);
        levels := levels[k := levels[k].(totalVolume := levels[k].totalVolume - (cur.volume - volume))];
        return;
      }
      RemoveOrderValid(b, cur);
      RemoveOrder(cur);
      MatchOrder(cur.(volume := volume, price := price));
    }

    /** processPullQuery: a registered order is removed. */
    method ProcessPull(id: int) returns (known: bool)
      requires Valid(State())
      modifies this
      ensures known <==> id in old(orders)
      ensures State() == PullOrder(old(State()), id)
      ensures results == old(results)
    {
      if id !in orders {
        return false;
      }
      assert OrderOk(State(), id);
      RemoveOrder(orders[id]);
      return true;
    }

    /** The dispatch of one command of `run`, whose index is `ts`. */
    method Dispatch(c: Command, ts: int)
      requires Valid(State())
      modifies this
      ensures State() == Step(old(State()), c, ts).book
      ensures results == old(results) + Step(old(State()), c, ts).trades
    {
      match c
      case Insert(id, symbol, side, price, volume) =>
        var _ := ProcessInsert(id, symbol, side, price, volume, ts);
      case Amend(id, price, volume) =>
        var _ := ProcessAmend(id, price, volume);
      case Pull(id) =>
        var _ := ProcessPull(id);
      case Other =>
    }

    /** outPutPerSymbol: for each symbol in lexicographic order that has a
        price on either side, a block whose rows pair the bid levels, best
        first, with the ask levels, best first, each showing its price and
        totalVolume. */
    method OutputPerSymbol() returns (blocks: seq<Block>)
      requires SortedSymbols(symbols)
      ensures forall j | 0 <= j < |blocks| :: blocks[j].symbol in symbols && Shows(State(), blocks[j])
      ensures forall s | s in symbols && HasLiquidity(State(), s) :: s in SymbolsOf(blocks)
      ensures SortedSymbols(SymbolsOf(blocks))
    {
      blocks := [];
      for i := 0 to |symbols|
        invariant forall j | 0 <= j < |blocks| :: blocks[j].symbol in symbols[..i]
        invariant forall j | 0 <= j < |blocks| :: Shows(State(), blocks[j])
        invariant forall s | s in symbols[..i] && HasLiquidity(State(), s) :: s in SymbolsOf(blocks)
        invariant SortedSymbols(SymbolsOf(blocks))
      {
        var s := symbols[i];
        var shown, blk := SymbolBlock(s);
        if shown {
          ghost var before := SymbolsOf(blocks);
          AppendInOrder(symbols, i, before);
          blocks := blocks + [blk];
          assert SymbolsOf(blocks) == before + [s];
        }
        assert symbols[..i + 1] == symbols[..i] + [s];
      }
      assert symbols[..|symbols|] == symbols;
    }

    /** One symbol of outPutPerSymbol: its block, when either side has a
        price. */
    method SymbolBlock(s: string) returns (shown: bool, blk: Block)
      ensures shown <==> HasLiquidity(State(), s)
      ensures shown ==> blk.symbol == s && Shows(State(), blk)
    {
      var buys := if s in bids then bids[s] else [];
      var sells := if s in asks then asks[s] else [];
      shown := buys != [] || sells != [];
      blk := Block(s, []);
      if shown {
        var rows := PairRows(LevelQuotes(State(), Buy, s), LevelQuotes(State(), Sell, s));
        blk := Block(s, rows);
      }
    }

    /** The command loop of run: each command in turn, with its index as its
        timestamp. From a book that is not crossed and whose orders are
        stamped before the first command, every command keeps those
        invariants, and a resting order carries the index of one of the
        commands. Resting volumes stay positive as long as no command is an
        AMEND to volume 0. */
    method RunCommands(cs: seq<Command>)
      requires Valid(State())
      requires NotCrossed(State()) && StampedBefore(State(), 0)
      modifies this
      ensures Valid(State())
      ensures State() == RunUpTo(old(State()), cs, |cs|).book
      ensures results == old(results) + RunUpTo(old(State()), cs, |cs|).trades
      ensures NotCrossed(State()) && StampedBefore(State(), |cs|)
      ensures old(Positive(State())) && (forall c | c in cs :: !AmendsToZero(c)) ==> Positive(State())
    {
      ghost var start := State();
      for i := 0 to |cs|
        invariant Valid(State())
        invariant State() == RunUpTo(start, cs, i).book
        invariant results == old(results) + RunUpTo(start, cs, i).trades
      {
        ghost var before := RunUpTo(start, cs, i).trades;
        ghost var made := Step(State(), cs[i], i).trades;
        Dispatch(cs[i], i);
        AppendAssoc(old(results), before, made);
      }
      RunKeepsInvariants(start, cs, |cs|);
    }

    /** run: the commands, then the snapshot; the result is the trades
        followed by the snapshot blocks. */
    method Run(cs: seq<Command>) returns (trades: seq<Trade>, report: seq<Block>)
      requires Valid(State())
      requires NotCrossed(State()) && StampedBefore(State(), 0)
      modifies this
      ensures State() == RunUpTo(old(State()), cs, |cs|).book
      ensures trades == old(results) + RunUpTo(old(State()), cs, |cs|).trades
      ensures NotCrossed(State())
      ensures old(Positive(State())) && (forall c | c in cs :: !AmendsToZero(c)) ==> Positive(State())
      ensures forall j | 0 <= j < |report| :: report[j].symbol in symbols && Shows(State(), report[j])
      ensures forall s | s in symbols && HasLiquidity(State(), s) :: s in SymbolsOf(report)
      ensures SortedSymbols(SymbolsOf(report))
    {
      RunCommands(cs);
      report := OutputPerSymbol();
      trades := results;
    }
  }

  /** A snapshot block shows the book's levels of its symbol: the symbol has
      a price on some side, and the rows pair its bid quotes with its ask
      quotes. */
  predicate Shows(b: Book, blk: Block)
  {
    && HasLiquidity(b, blk.symbol)
    && PairedRows(blk.rows, LevelQuotes(b, Buy, blk.symbol), LevelQuotes(b, Sell, blk.symbol))
  }
}
