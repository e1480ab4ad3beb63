/** basicversio.cpp: one std::set of orders per (symbol, side) key, ordered
    by customComparator, a registry of orders by id and the symbol set. The
    state is passed by reference between the functions of the source; here
    each operation takes the state and returns the new one. The model
    follows the code as written, including its defects; the corrected
    operations of the last sections are the ones the findings refer to. */
module BasicVersion {
  import opened Market
  import opened Sorted
  import opened Snapshot

  // ---------------------------------------------------------------- the comparator

  /** customComparator: the left operand's side chooses the order; "BUY"
      orders by price descending, any other side by price ascending, and
      equal prices by timestamp ascending. */
  function CustomComparator(a: Order, b: Order): bool
  {
    if a.side == Buy then
      if a.price > b.price then true
      else if a.price < b.price then false
      else a.timestamp < b.timestamp
    else
      if a.price < b.price then true
      else if a.price > b.price then false
      else a.timestamp < b.timestamp
  }

  /** On the orders of one side, customComparator is that side's price-time
      order, a strict order under which two orders are equivalent (and so
      one element of a std::set) exactly when they share (price, timestamp). */
  lemma ComparatorIsPriceTime(side: Side, a: Order, b: Order, c: Order)
    requires a.side == side && b.side == side
    ensures CustomComparator(a, b) <==> OrderBefore(side, a, b)
    ensures !CustomComparator(a, a)
    ensures CustomComparator(a, b) && CustomComparator(b, c) ==> CustomComparator(a, c)
    ensures !CustomComparator(a, b) && !CustomComparator(b, a) <==> SameKey(a, b)
  {
  }

  // ---------------------------------------------------------------- state

  /** A key of symbolLookUp, symbol + side; the side is "BUY" or "SELL", so
      the concatenation determines the pair. */
  type SetKey = (string, Side)

  function OwnKey(o: Order): SetKey
  {
    (o.symbol, o.side)
  }

  function OppKey(o: Order): SetKey
  {
    (o.symbol, Opposite(o.side))
  }

  /** orderLookUp, symbolLookUp and allSymbols. */
  datatype State = State(orders: map<int, Order>, sets: map<SetKey, seq<Order>>, symbols: seq<string>)

  datatype Outcome = Outcome(state: State, trades: seq<Trade>)

  /** The elements of the set at key `k`; none when the key is absent. */
  function Members(st: State, k: SetKey): seq<Order>
  {
    if k in st.sets then st.sets[k] else []
  }

  /** Every set is in its side's price-time order and holds orders of that
      side with no negative volume; the symbols are in std::set order. */
  predicate Valid(st: State)
  {
    && SortedSymbols(st.symbols)
    && forall k | k in st.sets :: TreeOk(k.1, st.sets[k])
  }

  function Empty(): (r: State)
    ensures Valid(r)
  {
    State(map[], map[], [])
  }

  /** `if (symbolLookUp[k].size() == 1) symbolLookUp.erase(k); else
      symbolLookUp[k].erase(o);`: a set of one element leaves the map
      whatever that element is; any other set loses the element with o's
      key, and operator[] creates it empty when the key is absent. */
  function Detach(st: State, k: SetKey, o: Order): (r: State)
    requires Valid(st)
    ensures Valid(r) && r.orders == st.orders && r.symbols == st.symbols
    ensures k in r.sets <==> |Members(st, k)| != 1
    ensures Members(r, k) == if |Members(st, k)| == 1 then [] else EraseKey(k.1, Members(st, k), o)
    ensures forall k' | k' != k :: (k' in r.sets <==> k' in st.sets) && Members(r, k') == Members(st, k')
  {
    var t := Members(st, k);
    if |t| == 1 then st.(sets := st.sets - {k})
    else
      EraseKeyOk(k.1, t, o);
      st.(sets := st.sets[k := EraseKey(k.1, t, o)])
  }

  /** `orderLookUp[o.orderId] = o; symbolLookUp[k].insert(o);`: the registry
      entry is overwritten, and the set gains `o` unless one of its elements
      already has o's key. */
  function Store(st: State, k: SetKey, o: Order): (r: State)
    requires Valid(st) && o.side == k.1 && o.volume >= 0
    ensures Valid(r) && r.symbols == st.symbols
    ensures r.orders == st.orders[o.id := o]
    ensures k in r.sets && Members(r, k) == InsertIfAbsent(k.1, Members(st, k), o)
    ensures forall k' | k' != k :: (k' in r.sets <==> k' in st.sets) && Members(r, k') == Members(st, k')
  {
    InsertIfAbsentOk(k.1, Members(st, k), o);
    State(st.orders[o.id := o], st.sets[k := InsertIfAbsent(k.1, Members(st, k), o)], st.symbols)
  }

  // ---------------------------------------------------------------- findMatch

  /** The opposite set of the incoming order is present and not empty. */
  predicate Ready(st: State, cur: Order)
  {
    OppKey(cur) in st.sets && st.sets[OppKey(cur)] != []
  }

  /** `*symbolLookUp[oppositeKey].begin()`: the best-priced, oldest order of
      the opposite side. */
  function Front(st: State, cur: Order): Order
    requires Ready(st, cur)
  {
    st.sets[OppKey(cur)][0]
  }

  /** The start of a round: the incoming order is detached from its own set,
      then the front from the opposite set. */
  function Taken(st: State, cur: Order): (r: State)
    requires Valid(st) && Ready(st, cur)
    ensures Valid(r) && r.orders == st.orders && r.symbols == st.symbols
    ensures OppKey(cur) in r.sets <==> |Members(st, OppKey(cur))| != 1
    ensures Members(r, OppKey(cur)) == Members(st, OppKey(cur))[1..]
    ensures OwnKey(cur) in r.sets <==> |Members(st, OwnKey(cur))| != 1
    ensures Members(r, OwnKey(cur)) ==
      if |Members(st, OwnKey(cur))| == 1 then [] else EraseKey(cur.side, Members(st, OwnKey(cur)), cur)
    ensures forall k | k != OwnKey(cur) && k != OppKey(cur) ::
      (k in r.sets <==> k in st.sets) && Members(r, k) == Members(st, k)
  {
    var s := Detach(st, OwnKey(cur), cur);
    EraseFront(Opposite(cur.side), st.sets[OppKey(cur)]);
    Detach(s, OppKey(cur), Front(st, cur))
  }

  /** After a fill of `q`: the front goes back into the opposite set, and
      into the registry, while it has volume left. */
  function AfterFill(st: State, cur: Order, q: int): (r: State)
    requires Valid(st) && Ready(st, cur) && 0 <= q <= Front(st, cur).volume
    ensures Valid(r) && r.symbols == st.symbols
    ensures var pm := Front(st, cur); var rest := Members(st, OppKey(cur))[1..];
      Members(r, OppKey(cur)) == if pm.volume == q then rest else [pm.(volume := pm.volume - q)] + rest
    ensures Front(st, cur).volume != q ==> OppKey(cur) in r.sets
    ensures OwnKey(cur) in r.sets <==> OwnKey(cur) in Taken(st, cur).sets
    ensures Members(r, OwnKey(cur)) == Members(Taken(st, cur), OwnKey(cur))
    ensures forall k | k != OwnKey(cur) && k != OppKey(cur) ::
      (k in r.sets <==> k in st.sets) && Members(r, k) == Members(st, k)
  {
    var pm := Front(st, cur).(volume := Front(st, cur).volume - q);
    var s := Taken(st, cur);
    if pm.volume != 0 then
      ReinsertFront(Opposite(cur.side), st.sets[OppKey(cur)], pm);
      Store(s, OppKey(cur), pm)
    else s
  }

  /** Trades put before those of an outcome, when it is defined. */
  function Prefix(ts: seq<Trade>, r: Behaviour<Outcome>): Behaviour<Outcome>
  {
    match r
    case Undefined => Undefined
    case Defined(o) => Defined(Outcome(o.state, ts + o.trades))
  }

  lemma PrefixPrefix(a: seq<Trade>, b: seq<Trade>, r: Behaviour<Outcome>)
    ensures Prefix(a, Prefix(b, r)) == Prefix(a + b, r)
  {
    if r.Defined? {
      assert a + (b + r.value.trades) == a + b + r.value.trades;
    }
  }

  /** The `while (true)` loop of findMatch, as written. It stops when the
      opposite key is absent; `begin()` of a present but empty opposite set
      is undefined. Otherwise both orders leave their sets; if the front does
      not cross, both go back (with their registry entries) and the loop
      stops. If it crosses, min(both volumes) trades at the front's price;
      the front goes back while it has volume left, and the incoming order
      while it has volume left, the loop then going on; an incoming order
      used up stops the loop. */
  function Loop(st: State, cur: Order): (r: Behaviour<Outcome>)
    requires Valid(st) && cur.volume >= 0
    ensures r.Defined? ==> Valid(r.value.state) && r.value.state.symbols == st.symbols
    decreases cur.volume, |Members(st, OppKey(cur))|
  {
    if OppKey(cur) !in st.sets then Defined(Outcome(st, []))
    else if st.sets[OppKey(cur)] == [] then Undefined
    else
      var pm := Front(st, cur);
      if !Crosses(cur.side, cur.price, pm.price) then
        Defined(Outcome(Store(Store(Taken(st, cur), OwnKey(cur), cur), OppKey(cur), pm), []))
      else
        var q := Min(pm.volume, cur.volume);
        var t := Trade(cur.symbol, pm.price, q, cur.id, pm.id);
        var next := cur.(volume := cur.volume - q);
        var s := AfterFill(st, cur, q);
        if next.volume != 0 then Prefix([t], Loop(Store(s, OwnKey(cur), next), next))
        else Defined(Outcome(s, [t]))
  }

  /** findMatch: the symbol joins allSymbols, the incoming order is
      registered and inserted into its set, then the loop runs. */
  function FindMatchSpec(st: State, cur: Order): (r: Behaviour<Outcome>)
    requires Valid(st) && cur.volume >= 0
    ensures r.Defined? ==> Valid(r.value.state)
  {
    Loop(Store(st.(symbols := InsertSymbol(st.symbols, cur.symbol)), OwnKey(cur), cur), cur)
  }

  // ---------------------------------------------------------------- the rounds of the loop

  /** With the opposite key absent, the loop stops at once. */
  lemma LoopAbsent(st: State, cur: Order)
    requires Valid(st) && cur.volume >= 0 && OppKey(cur) !in st.sets
    ensures Loop(st, cur) == Defined(Outcome(st, []))
  {
  }

  /** When the front does not cross, both orders go back and the loop stops. */
  lemma LoopNoCross(st: State, cur: Order)
    requires Valid(st) && cur.volume >= 0 && Ready(st, cur)
    requires !Crosses(cur.side, cur.price, Front(st, cur).price)
    ensures Loop(st, cur) ==
      Defined(Outcome(Store(Store(Taken(st, cur), OwnKey(cur), cur), OppKey(cur), Front(st, cur)), []))
  {
  }

  /** A fill that leaves incoming volume uses up the front and goes on with
      the remainder, back in its set. */
  lemma LoopMore(st: State, cur: Order)
    requires Valid(st) && cur.volume >= 0 && Ready(st, cur)
    requires Crosses(cur.side, cur.price, Front(st, cur).price) && Front(st, cur).volume < cur.volume
    ensures var pm := Front(st, cur); var next := cur.(volume := cur.volume - pm.volume);
      && Loop(st, cur) == Prefix([Trade(cur.symbol, pm.price, pm.volume, cur.id, pm.id)],
                                 Loop(Store(AfterFill(st, cur, pm.volume), OwnKey(cur), next), next))
      && AfterFill(st, cur, pm.volume) == Taken(st, cur)
      && Members(Store(Taken(st, cur), OwnKey(cur), next), OppKey(next)) == Members(st, OppKey(cur))[1..]
  {
    var pm := Front(st, cur);
    assert !(OppKey(cur) !in st.sets || st.sets[OppKey(cur)] == []);
    assert Min(pm.volume, cur.volume) == pm.volume;
  }

  /** A fill that uses up the incoming order stops the loop. */
  lemma LoopLast(st: State, cur: Order)
    requires Valid(st) && cur.volume >= 0 && Ready(st, cur)
    requires Crosses(cur.side, cur.price, Front(st, cur).price) && cur.volume <= Front(st, cur).volume
    ensures var pm := Front(st, cur);
      Loop(st, cur) == Defined(Outcome(AfterFill(st, cur, cur.volume), [Trade(cur.symbol, pm.price, cur.volume, cur.id, pm.id)]))
  {
  }

  /** findMatch, step by step: the incoming order is registered and
      inserted, then the rounds of the loop run until one stops it; the
      trades are collected as they are made. */
  method FindMatch(st: State, order: Order) returns (r: Behaviour<Outcome>)
    requires Valid(st) && order.volume >= 0
    ensures r == FindMatchSpec(st, order)
  {
    var s := st.(symbols := InsertSymbol(st.symbols, order.symbol));
    s := Store(s, OwnKey(order), order);
    ghost var expected := Loop(s, order);
    var cur := order;
    var trades: seq<Trade> := [];
    var going := true;
    r := Undefined;
    assert Prefix(trades, expected) == expected by {
      if expected.Defined? { assert [] + expected.value.trades == expected.value.trades; }
    }
    while going
      invariant Valid(s) && cur.volume >= 0
      invariant going ==> expected == Prefix(trades, Loop(s, cur))
      invariant !going ==> expected == r
      decreases going, cur.volume, |Members(s, OppKey(cur))|
    {
      var made, last;
      s, cur, made, going, last := Round(s, cur);
      if going {
        PrefixPrefix(trades, made, Loop(s, cur));
        trades := trades + made;
      } else {
        r := Prefix(trades, last);
      }
    }
  }

  /** One pass of the loop of findMatch. Either the loop goes on from the
      new state and incoming order after the trades `made`, or it stops with
      the outcome `last` of this pass. */
  method Round(s: State, cur: Order) returns (s': State, cur': Order, made: seq<Trade>, going: bool, last: Behaviour<Outcome>)
    requires Valid(s) && cur.volume >= 0
    ensures Valid(s') && cur'.volume >= 0
    ensures going ==> Loop(s, cur) == Prefix(made, Loop(s', cur'))
    ensures going ==>
      cur'.volume < cur.volume || (cur'.volume == cur.volume && |Members(s', OppKey(cur'))| < |Members(s, OppKey(cur))|)
    ensures !going ==> Loop(s, cur) == last
  {
    var okey := (cur.symbol, Opposite(cur.side));
    if okey !in s.sets {
      LoopAbsent(s, cur);
      return s, cur, [], false, Defined(Outcome(s, []));
    }
    if s.sets[okey] == [] {
      return s, cur, [], false, Undefined;
    }
    s', cur', made, going, last := Engage(s, cur);
  }

  /** A pass of the loop against a front: both orders leave their sets, and
      the pass goes on as the front crosses or not. */
  method Engage(s: State, cur: Order) returns (s': State, cur': Order, made: seq<Trade>, going: bool, last: Behaviour<Outcome>)
    requires Valid(s) && cur.volume >= 0 && Ready(s, cur)
    ensures Valid(s') && cur'.volume >= 0
    ensures going ==> Loop(s, cur) == Prefix(made, Loop(s', cur'))
    ensures going ==>
      || cur'.volume < cur.volume
      || (cur'.volume == cur.volume && OppKey(cur') == OppKey(cur) && |Members(s', OppKey(cur'))| < |Members(s, OppKey(cur))|)
    ensures !going ==> Loop(s, cur) == last
  {
    var key, okey := (cur.symbol, cur.side), (cur.symbol, Opposite(cur.side));
    var pm := s.sets[okey][0];
    s' := Detach(s, key, cur);
    s' := Detach(s', okey, pm);
    assert s' == Taken(s, cur);
    if !Crosses(cur.side, cur.price, pm.price) {
      LoopNoCross(s, cur);
      s' := Store(s', key, cur);
      s' := Store(s', okey, pm);
      return s', cur, [], false, Defined(Outcome(s', []));
    }
    var q := Min(pm.volume, cur.volume);
    cur' := cur.(volume := cur.volume - q);
    pm := pm.(volume := pm.volume - q);
    var t := Trade(cur.symbol, pm.price, q, cur.id, pm.id);
    if pm.volume != 0 {
      s' := Store(s', okey, pm);
    }
    assert s' == AfterFill(s, cur, q);
    if cur'.volume != 0 {
      LoopMore(s, cur);
      s' := Store(s', key, cur');
      made, going, last := [t], true, Undefined;
    } else {
      LoopLast(s, cur);
      made, going, last := [], false, Defined(Outcome(s', [t]));
    }
  }

  // ---------------------------------------------------------------- what findMatch guarantees

  /** Every trade of the loop names the incoming order as aggressor, is in
      its symbol, and is at a resting price its limit accepts. */
  lemma {:induction false} LoopTrades(st: State, cur: Order)
    requires Valid(st) && cur.volume >= 0
    ensures var r := Loop(st, cur); r.Defined? ==> TradesOf(r.value.trades, cur.id, cur.symbol, cur.side, cur.price)
    decreases cur.volume, |Members(st, OppKey(cur))|
  {
    if !Ready(st, cur) {
      if OppKey(cur) !in st.sets {
        LoopAbsent(st, cur);
      }
    } else if !Crosses(cur.side, cur.price, Front(st, cur).price) {
      LoopNoCross(st, cur);
    } else {
      var pm := Front(st, cur);
      if pm.volume < cur.volume {
        var next := cur.(volume := cur.volume - pm.volume);
        var s := Store(Taken(st, cur), OwnKey(cur), next);
        var t := Trade(cur.symbol, pm.price, pm.volume, cur.id, pm.id);
        LoopMore(st, cur);
        LoopTrades(s, next);
        if Loop(s, next).Defined? {
          assert TradesOf([t], cur.id, cur.symbol, cur.side, cur.price);
          TradesOfCons(t, Loop(s, next).value.trades, cur.id, cur.symbol, cur.side, cur.price);
        }
      } else {
        LoopLast(st, cur);
      }
    }
  }

  /** The own set after a round's detach holds nothing with the incoming
      order's key. */
  lemma TakenOwnFree(st: State, cur: Order, o: Order)
    requires Valid(st) && Ready(st, cur) && SameKey(o, cur)
    ensures !HasKey(Members(Taken(st, cur), OwnKey(cur)), o)
  {
    KeyAbsent(Members(Taken(st, cur), OwnKey(cur)), o);
  }

  /** A round whose front does not cross puts the incoming order back into
      its set, and the front back at the front of the opposite set. */
  lemma NoCrossRestores(st: State, cur: Order)
    requires Valid(st) && cur.volume >= 0 && Ready(st, cur)
    ensures var r := Store(Store(Taken(st, cur), OwnKey(cur), cur), OppKey(cur), Front(st, cur));
      && cur in Members(r, OwnKey(cur))
      && Members(r, OppKey(cur)) == Members(st, OppKey(cur))
  {
    var opp := Members(st, OppKey(cur));
    TakenOwnFree(st, cur, cur);
    ReinsertFront(Opposite(cur.side), opp, opp[0]);
    assert [opp[0]] + opp[1..] == opp;
  }

  /** A round that goes on puts the remainder back into its set. */
  lemma MoreRestores(st: State, cur: Order)
    requires Valid(st) && cur.volume >= 0 && Ready(st, cur) && Front(st, cur).volume < cur.volume
    ensures var next := cur.(volume := cur.volume - Front(st, cur).volume);
      next in Members(Store(Taken(st, cur), OwnKey(cur), next), OwnKey(next))
  {
    TakenOwnFree(st, cur, cur.(volume := cur.volume - Front(st, cur).volume));
  }

  /** Volume: the loop trades at most the incoming volume, and when the
      incoming order is not filled completely, its remainder is in its set. */
  lemma {:induction false} LoopFills(st: State, cur: Order)
    requires Valid(st) && cur.volume >= 0 && cur in Members(st, OwnKey(cur))
    ensures var r := Loop(st, cur);
      r.Defined? ==>
        var filled := TradedVolume(r.value.trades);
        && 0 <= filled <= cur.volume
        && (filled < cur.volume ==> cur.(volume := cur.volume - filled) in Members(r.value.state, OwnKey(cur)))
    decreases cur.volume, |Members(st, OppKey(cur))|
  {
    if !Ready(st, cur) {
      if OppKey(cur) !in st.sets {
        LoopAbsent(st, cur);
        assert cur.(volume := cur.volume - 0) == cur;
      }
    } else if !Crosses(cur.side, cur.price, Front(st, cur).price) {
      LoopNoCross(st, cur);
      NoCrossRestores(st, cur);
      assert cur.(volume := cur.volume - 0) == cur;
    } else {
      var pm := Front(st, cur);
      if pm.volume < cur.volume {
        var next := cur.(volume := cur.volume - pm.volume);
        var s := Store(Taken(st, cur), OwnKey(cur), next);
        var t := Trade(cur.symbol, pm.price, pm.volume, cur.id, pm.id);
        LoopMore(st, cur);
        MoreRestores(st, cur);
        LoopFills(s, next);
        var r := Loop(s, next);
        if r.Defined? {
          TradedVolumeCons(t, r.value.trades);
          var filled' := TradedVolume(r.value.trades);
          assert next.(volume := next.volume - filled') == cur.(volume := cur.volume - (pm.volume + filled'));
        }
      } else {
        var t := Trade(cur.symbol, pm.price, cur.volume, cur.id, pm.id);
        LoopLast(st, cur);
        TradedVolumeCons(t, []);
        assert [t] + [] == [t];
      }
    }
  }

  /** Price-time priority: the first fill is against the front of the
      opposite set, which precedes every other order there, for min(both
      volumes) at its price. */
  lemma LoopFirst(st: State, cur: Order)
    requires Valid(st) && cur.volume >= 0
    ensures var r := Loop(st, cur);
      r.Defined? && r.value.trades != [] ==>
        && Ready(st, cur)
        && var pm := Front(st, cur);
        && Crosses(cur.side, cur.price, pm.price)
        && r.value.trades[0] == Trade(cur.symbol, pm.price, Min(pm.volume, cur.volume), cur.id, pm.id)
        && forall x | x in Members(st, OppKey(cur))[1..] :: OrderBefore(Opposite(cur.side), pm, x)
  {
    if !Ready(st, cur) {
      if OppKey(cur) !in st.sets {
        LoopAbsent(st, cur);
      }
    } else if !Crosses(cur.side, cur.price, Front(st, cur).price) {
      LoopNoCross(st, cur);
    } else {
      TreeHeadBeforeRest(Opposite(cur.side), Members(st, OppKey(cur)));
      if Front(st, cur).volume < cur.volume {
        LoopMore(st, cur);
      } else {
        LoopLast(st, cur);
      }
    }
  }

  /** Price priority: consecutive fills never move to a better resting
      price. */
  lemma {:induction false} LoopOutward(st: State, cur: Order)
    requires Valid(st) && cur.volume >= 0
    ensures var r := Loop(st, cur); r.Defined? ==> Outward(Opposite(cur.side), r.value.trades)
    decreases cur.volume, |Members(st, OppKey(cur))|
  {
    if !Ready(st, cur) {
      if OppKey(cur) !in st.sets {
        LoopAbsent(st, cur);
      }
    } else if !Crosses(cur.side, cur.price, Front(st, cur).price) {
      LoopNoCross(st, cur);
    } else {
      var pm := Front(st, cur);
      if pm.volume < cur.volume {
        var side := Opposite(cur.side);
        var next := cur.(volume := cur.volume - pm.volume);
        var s := Store(Taken(st, cur), OwnKey(cur), next);
        var t := Trade(cur.symbol, pm.price, pm.volume, cur.id, pm.id);
        LoopMore(st, cur);
        LoopOutward(s, next);
        LoopFirst(s, next);
        if Loop(s, next).Defined? {
          var rest := Loop(s, next).value.trades;
          if rest != [] {
            var opp := Members(st, OppKey(cur));
            assert OrderBefore(side, opp[0], opp[1]);
          }
          OutwardCons(side, t, rest);
        }
      } else {
        LoopLast(st, cur);
      }
    }
  }

  /** The loop stops only when nothing more can trade: if the incoming order
      is not filled completely, the opposite set is absent or empty, or its
      front does not cross. */
  lemma {:induction false} LoopStops(st: State, cur: Order)
    requires Valid(st) && cur.volume >= 0
    ensures var r := Loop(st, cur);
      r.Defined? && TradedVolume(r.value.trades) < cur.volume ==>
        var opp := Members(r.value.state, OppKey(cur));
        opp == [] || !Crosses(cur.side, cur.price, opp[0].price)
    decreases cur.volume, |Members(st, OppKey(cur))|
  {
    if !Ready(st, cur) {
      if OppKey(cur) !in st.sets {
        LoopAbsent(st, cur);
      }
    } else if !Crosses(cur.side, cur.price, Front(st, cur).price) {
      LoopNoCross(st, cur);
      NoCrossRestores(st, cur);
    } else {
      var pm := Front(st, cur);
      if pm.volume < cur.volume {
        var next := cur.(volume := cur.volume - pm.volume);
        var s := Store(Taken(st, cur), OwnKey(cur), next);
        var t := Trade(cur.symbol, pm.price, pm.volume, cur.id, pm.id);
        LoopMore(st, cur);
        LoopStops(s, next);
        var r := Loop(s, next);
        if r.Defined? {
          TradedVolumeCons(t, r.value.trades);
        }
      } else {
        var t := Trade(cur.symbol, pm.price, cur.volume, cur.id, pm.id);
        LoopLast(st, cur);
        TradedVolumeCons(t, []);
        assert [t] + [] == [t];
      }
    }
  }

  /** findMatch as a whole: every trade is the incoming order's, at a price
      its limit accepts, in price order from the best opposite order, for
      no more than its volume. When the incoming order's key was free in its
      set and it is not filled completely, its remainder rests there and the
      opposite side has nothing left that crosses it. */
  lemma FindMatchTrades(st: State, cur: Order)
    requires Valid(st) && cur.volume >= 0
    ensures var r := FindMatchSpec(st, cur);
      r.Defined? ==>
        var filled := TradedVolume(r.value.trades);
        && TradesOf(r.value.trades, cur.id, cur.symbol, cur.side, cur.price)
        && Outward(Opposite(cur.side), r.value.trades)
        && 0 <= filled <= cur.volume
        && cur.symbol in r.value.state.symbols
        && (filled < cur.volume && !HasKey(Members(st, OwnKey(cur)), cur) ==>
              && cur.(volume := cur.volume - filled) in Members(r.value.state, OwnKey(cur))
              && var opp := Members(r.value.state, OppKey(cur));
                 opp == [] || !Crosses(cur.side, cur.price, opp[0].price))
  {
    var s := Store(st.(symbols := InsertSymbol(st.symbols, cur.symbol)), OwnKey(cur), cur);
    LoopTrades(s, cur);
    LoopOutward(s, cur);
    LoopStops(s, cur);
    if !HasKey(Members(st, OwnKey(cur)), cur) {
      LoopFills(s, cur);
    } else {
      FillsBound(s, cur);
    }
  }

  /** The bound on the volume traded, for any state. */
  lemma {:induction false} FillsBound(st: State, cur: Order)
    requires Valid(st) && cur.volume >= 0
    ensures var r := Loop(st, cur); r.Defined? ==> 0 <= TradedVolume(r.value.trades) <= cur.volume
    decreases cur.volume, |Members(st, OppKey(cur))|
  {
    if !Ready(st, cur) {
      if OppKey(cur) !in st.sets {
        LoopAbsent(st, cur);
      }
    } else if !Crosses(cur.side, cur.price, Front(st, cur).price) {
      LoopNoCross(st, cur);
    } else {
      var pm := Front(st, cur);
      if pm.volume < cur.volume {
        var next := cur.(volume := cur.volume - pm.volume);
        var s := Store(Taken(st, cur), OwnKey(cur), next);
        var t := Trade(cur.symbol, pm.price, pm.volume, cur.id, pm.id);
        LoopMore(st, cur);
        FillsBound(s, next);
        var r := Loop(s, next);
        if r.Defined? {
          TradedVolumeCons(t, r.value.trades);
        }
      } else {
        var t := Trade(cur.symbol, pm.price, cur.volume, cur.id, pm.id);
        LoopLast(st, cur);
        TradedVolumeCons(t, []);
        assert [t] + [] == [t];
      }
    }
  }

  // ---------------------------------------------------------------- AMEND and PULL

  /** The order an AMEND re-submits: the new price and volume, and the
      command's timestamp unless the volume shrinks. */
  function Amended(o: Order, price: int, volume: nat, ts: int): Order
  {
    o.(price := price, volume := volume, timestamp := if o.volume <= volume then ts else o.timestamp)
  }

  /** processAmendQuery up to its call of findMatch: the registered order is
      detached from its set (which loses its key outright when it holds one
      element), leaves the registry, and the amended order is registered and
      inserted. */
  function Requeued(st: State, id: int, price: int, volume: nat, ts: int): (r: State)
    requires Valid(st) && id in st.orders
    ensures Valid(r)
  {
    var o := st.orders[id];
    var s := Detach(st, OwnKey(o), o);
    Store(s.(orders := s.orders - {id}), OwnKey(o), Amended(o, price, volume, ts))
  }

  /** processAmendQuery, as written. An id that is not registered leaves the
      order to amend default-constructed, its price and volume indeterminate.
      The same price and volume change nothing; anything else re-submits the
      amended order to findMatch. */
  function AmendAsWritten(st: State, id: int, price: int, volume: nat, ts: int): (r: Behaviour<Outcome>)
    requires Valid(st)
    ensures r.Defined? ==> Valid(r.value.state)
  {
    if id !in st.orders then Undefined
    else
      var o := st.orders[id];
      if o.volume == volume && o.price == price then Defined(Outcome(st, []))
      else FindMatchSpec(Requeued(st, id, price, volume, ts), Amended(o, price, volume, ts))
  }

  /** processPullQuery, as written: a registered order leaves the registry
      and the element with its key leaves its set, operator[] creating the
      set empty when the key is absent; an emptied set stays in the map. An
      unknown id changes nothing. */
  function PullAsWritten(st: State, id: int): (r: State)
    requires Valid(st)
    ensures Valid(r)
  {
    if id !in st.orders then st
    else
      var o := st.orders[id];
      var k := OwnKey(o);
      EraseKeyOk(k.1, Members(st, k), o);
      State(st.orders - {id}, st.sets[k := EraseKey(k.1, Members(st, k), o)], st.symbols)
  }

  // ---------------------------------------------------------------- run

  /** One command of run, with its index `ts` as the timestamp. */
  function Step(st: State, c: Command, ts: int): (r: Behaviour<Outcome>)
    requires Valid(st)
    ensures r.Defined? ==> Valid(r.value.state)
  {
    match c
    case Insert(id, symbol, side, price, volume) => FindMatchSpec(st, Order(id, symbol, side, price, volume, ts))
    case Amend(id, price, volume) => AmendAsWritten(st, id, price, volume, ts)
    case Pull(id) => Defined(Outcome(PullAsWritten(st, id), []))
    case Other => Defined(Outcome(st, []))
  }

  /** The first `n` commands of run, from `st`: the final state and every
      trade in order, or Undefined from the first command that is. */
  function RunUpTo(st: State, cs: seq<Command>, n: nat): (r: Behaviour<Outcome>)
    requires Valid(st) && n <= |cs|
    ensures r.Defined? ==> Valid(r.value.state)
  {
    if n == 0 then Defined(Outcome(st, []))
    else match RunUpTo(st, cs, n - 1)
      case Undefined => Undefined
      case Defined(before) =>
        match Step(before.state, cs[n - 1], n - 1)
        case Undefined => Undefined
        case Defined(s) => Defined(Outcome(s.state, before.trades + s.trades))
  }

  // ---------------------------------------------------------------- AMEND and PULL rules

  /** AMEND of an unknown id is undefined, and AMEND to the registered price
      and volume changes nothing. Any other AMEND re-submits the order to
      findMatch with the new price and volume, keeping its timestamp (and so
      its place among orders at its price) exactly when the volume shrinks:
      it trades only at prices its new limit accepts and for no more than
      its new volume. */
  lemma AmendRules(st: State, id: int, price: int, volume: nat, ts: int)
    requires Valid(st)
    ensures id !in st.orders ==> AmendAsWritten(st, id, price, volume, ts).Undefined?
    ensures id in st.orders && st.orders[id].volume == volume && st.orders[id].price == price ==>
      AmendAsWritten(st, id, price, volume, ts) == Defined(Outcome(st, []))
    ensures id in st.orders && !(st.orders[id].volume == volume && st.orders[id].price == price) ==>
      var o := st.orders[id];
      var n := Amended(o, price, volume, ts);
      var r := AmendAsWritten(st, id, price, volume, ts);
      && n == Order(o.id, o.symbol, o.side, price, volume, if o.volume <= volume then ts else o.timestamp)
      && (n.timestamp == o.timestamp <==> o.volume > volume || o.timestamp == ts)
      && r == FindMatchSpec(Requeued(st, id, price, volume, ts), n)
      && (r.Defined? ==>
            && TradesOf(r.value.trades, o.id, o.symbol, o.side, price)
            && 0 <= TradedVolume(r.value.trades) <= volume)
  {
    if id in st.orders && !(st.orders[id].volume == volume && st.orders[id].price == price) {
      var o := st.orders[id];
      FindMatchTrades(Requeued(st, id, price, volume, ts), Amended(o, price, volume, ts));
    }
  }

  /** PULL of a registered order erases it from the registry and the element
      with its key from its set, keeping every other order and the key; an
      unknown id changes nothing. */
  lemma PullRemoves(st: State, id: int)
    requires Valid(st)
    ensures id !in st.orders ==> PullAsWritten(st, id) == st
    ensures id in st.orders ==>
      var o := st.orders[id];
      var r := PullAsWritten(st, id);
      && r.orders == st.orders - {id}
      && OwnKey(o) in r.sets
      && !HasKey(Members(r, OwnKey(o)), o)
      && (forall x :: x in Members(r, OwnKey(o)) <==> x in Members(st, OwnKey(o)) && !SameKey(x, o))
      && forall k | k != OwnKey(o) :: (k in r.sets <==> k in st.sets) && Members(r, k) == Members(st, k)
  {
    if id in st.orders {
      var o := st.orders[id];
      KeyAbsent(Members(PullAsWritten(st, id), OwnKey(o)), o);
    }
  }

  // ---------------------------------------------------------------- the procedures

  /** processAmendQuery, as written (see AmendAsWritten). */
  method ProcessAmend(st: State, id: int, price: int, volume: nat, ts: int) returns (r: Behaviour<Outcome>)
    requires Valid(st)
    ensures r == AmendAsWritten(st, id, price, volume, ts)
  {
    if id !in st.orders {
      return Undefined;
    }
    var o := st.orders[id];
    if o.volume == volume && o.price == price {
      return Defined(Outcome(st, []));
    }
    var key := (o.symbol, o.side);
    var s := Detach(st, key, o);
    s := s.(orders := s.orders - {id});
    var n := o.(price := price);
    if o.volume <= volume {
      n := n.(timestamp := ts);
    }
    n := n.(volume := volume);
    s := Store(s, key, n);
    r := FindMatch(s, n);
  }

  /** processPullQuery, as written (see PullAsWritten). */
  method ProcessPull(st: State, id: int) returns (r: State)
    requires Valid(st)
    ensures r == PullAsWritten(st, id)
  {
    if id !in st.orders {
      return st;
    }
    var o := st.orders[id];
    var key := (o.symbol, o.side);
    var t := Members(st, key);
    EraseKeyOk(o.side, t, o);
    r := State(st.orders - {id}, st.sets[key := EraseKey(o.side, t, o)], st.symbols);
  }

  /** One line of input: the branch of run() that handles its command. */
  method Dispatch(st: State, c: Command, ts: int) returns (step: Behaviour<Outcome>)
    requires Valid(st)
    ensures step == Step(st, c, ts)
  {
    match c {
      case Insert(id, symbol, side, price, volume) =>
        step := FindMatch(st, Order(id, symbol, side, price, volume, ts));
      case Amend(id, price, volume) =>
        step := ProcessAmend(st, id, price, volume, ts);
      case Pull(id) =>
        var p := ProcessPull(st, id);
        step := Defined(Outcome(p, []));
      case Other =>
        step := Defined(Outcome(st, []));
    }
  }

  /** The command loop of run, from the empty state: each command with its
      index as its timestamp, until the first undefined one. */
  method RunCommands(cs: seq<Command>) returns (r: Behaviour<Outcome>)
    ensures r == RunUpTo(Empty(), cs, |cs|)
  {
    r := Defined(Outcome(Empty(), []));
    var i := 0;
    while i < |cs| && r.Defined?
      invariant 0 <= i <= |cs| && r == RunUpTo(Empty(), cs, i)
      invariant r.Undefined? ==> i > 0
    {
      r := Advance(cs, i, r.value.state, r.value.trades);
      i := i + 1;
    }
    if i < |cs| {
      UndefinedStays(cs, i);
    }
  }

  /** One pass of run's loop: the command at index `i`, stamped `i`. */
  method Advance(cs: seq<Command>, i: nat, st: State, trades: seq<Trade>) returns (r: Behaviour<Outcome>)
    requires i < |cs| && Valid(st) && RunUpTo(Empty(), cs, i) == Defined(Outcome(st, trades))
    ensures r == RunUpTo(Empty(), cs, i + 1)
  {
    var step := Dispatch(st, cs[i], i);
    RunUpToNext(cs, i, st, trades);
    if step.Undefined? {
      return Undefined;
    }
    return Defined(Outcome(step.value.state, trades + step.value.trades));
  }

  /** RunUpTo one command further, from the outcome so far. */
  lemma RunUpToNext(cs: seq<Command>, i: nat, st: State, trades: seq<Trade>)
    requires i < |cs| && Valid(st) && RunUpTo(Empty(), cs, i) == Defined(Outcome(st, trades))
    ensures RunUpTo(Empty(), cs, i + 1) ==
      match Step(st, cs[i], i)
      case Undefined => Undefined
      case Defined(s) => Defined(Outcome(s.state, trades + s.trades))
  {
  }

  /** Once a command is undefined, so is the run. */
  lemma {:induction false} UndefinedStays(cs: seq<Command>, n: nat)
    requires 0 < n <= |cs| && RunUpTo(Empty(), cs, n) == Undefined
    ensures RunUpTo(Empty(), cs, |cs|) == Undefined
    decreases |cs| - n
  {
    if n < |cs| {
      UndefinedStays(cs, n + 1);
    }
  }

  // ---------------------------------------------------------------- the snapshot

  /** A snapshot block shows the sets of its symbol: the key of one side is
      present (its set may be empty), and the rows pair the bid volumes
      summed per price, best first, with the ask volumes summed per price,
      best first. */
  predicate Shows(st: State, blk: Block)
  {
    && ((blk.symbol, Buy) in st.sets || (blk.symbol, Sell) in st.sets)
    && PairedRows(blk.rows, Aggregate(Buy, Members(st, (blk.symbol, Buy))), Aggregate(Sell, Members(st, (blk.symbol, Sell))))
  }

  /** One symbol of the snapshot loop: its block, when the key of either
      side is present. */
  method SymbolBlock(st: State, s: string) returns (shown: bool, blk: Block)
    requires Valid(st)
    ensures shown <==> (s, Buy) in st.sets || (s, Sell) in st.sets
    ensures shown ==> blk.symbol == s && Shows(st, blk)
  {
    shown := (s, Buy) in st.sets || (s, Sell) in st.sets;
    blk := Block(s, []);
    if shown {
      var bids: seq<Quote> := [];
      var asks: seq<Quote> := [];
      if (s, Buy) in st.sets {
        bids := AggregateByPrice(Buy, st.sets[(s, Buy)]);
      }
      if (s, Sell) in st.sets {
        asks := AggregateByPrice(Sell, st.sets[(s, Sell)]);
      }
      var rows := PairRows(bids, asks);
      blk := Block(s, rows);
    }
  }

  /** The snapshot loop of run: for each symbol in lexicographic order with
      a key present, a header and the paired rows. */
  method Report(st: State) returns (blocks: seq<Block>)
    requires Valid(st)
    ensures forall j | 0 <= j < |blocks| :: blocks[j].symbol in st.symbols && Shows(st, blocks[j])
    ensures forall s | s in st.symbols && ((s, Buy) in st.sets || (s, Sell) in st.sets) :: s in SymbolsOf(blocks)
    ensures SortedSymbols(SymbolsOf(blocks))
  {
    blocks := [];
    var symbols := st.symbols;
    for i := 0 to |symbols|
      invariant forall j | 0 <= j < |blocks| :: blocks[j].symbol in symbols[..i] && Shows(st, blocks[j])
      invariant forall s | s in symbols[..i] && ((s, Buy) in st.sets || (s, Sell) in st.sets) :: s in SymbolsOf(blocks)
      invariant SortedSymbols(SymbolsOf(blocks))
    {
      var s := symbols[i];
      var shown, blk := SymbolBlock(st, s);
      if shown {
        ghost var taken := SymbolsOf(blocks);
        AppendInOrder(symbols, i, taken);
        blocks := blocks + [blk];
        assert SymbolsOf(blocks) == taken + [s];
      }
      assert symbols[..i + 1] == symbols[..i] + [s];
    }
    assert symbols[..|symbols|] == symbols;
  }

  /** run: the commands, then the snapshot; Undefined when a command is. */
  method Run(cs: seq<Command>) returns (r: Behaviour<(seq<Trade>, seq<Block>)>)
    ensures RunUpTo(Empty(), cs, |cs|).Undefined? <==> r.Undefined?
    ensures r.Defined? ==>
      var final := RunUpTo(Empty(), cs, |cs|).value;
      && r.value.0 == final.trades
      && (forall j | 0 <= j < |r.value.1| :: r.value.1[j].symbol in final.state.symbols && Shows(final.state, r.value.1[j]))
      && (forall s | s in final.state.symbols && ((s, Buy) in final.state.sets || (s, Sell) in final.state.sets) :: s in SymbolsOf(r.value.1))
      && SortedSymbols(SymbolsOf(r.value.1))
  {
    var m := RunCommands(cs);
    if m.Undefined? {
      return Undefined;
    }
    var blocks := Report(m.value.state);
    return Defined((m.value.trades, blocks));
  }

  // ---------------------------------------------------------------- PULL and AMEND, corrected

  /** No key of the map holds an empty set. */
  predicate NoEmptySets(st: State)
  {
    forall k | k in st.sets :: st.sets[k] != []
  }

  /** PULL as evidently intended: a set emptied by the erase leaves the map,
      as findMatch and AMEND remove a set they empty. */
  function PullFixed(st: State, id: int): (r: State)
    requires Valid(st)
    ensures Valid(r)
  {
    if id !in st.orders then st
    else
      var o := st.orders[id];
      var k := OwnKey(o);
      var e := EraseKey(k.1, Members(st, k), o);
      EraseKeyOk(k.1, Members(st, k), o);
      State(st.orders - {id}, if e == [] then st.sets - {k} else st.sets[k := e], st.symbols)
  }

  /** AMEND as evidently intended: an id that is not registered, or whose
      registered order no longer rests under its key (it was filled), is
      ignored after its error message; any other AMEND is as written. */
  function AmendFixed(st: State, id: int, price: int, volume: nat, ts: int): (r: Behaviour<Outcome>)
    requires Valid(st)
    ensures r.Defined? ==> Valid(r.value.state)
  {
    if id !in st.orders || !HasKey(Members(st, OwnKey(st.orders[id])), st.orders[id]) then Defined(Outcome(st, []))
    else AmendAsWritten(st, id, price, volume, ts)
  }

  function StepFixed(st: State, c: Command, ts: int): (r: Behaviour<Outcome>)
    requires Valid(st)
    ensures r.Defined? ==> Valid(r.value.state)
  {
    match c
    case Insert(id, symbol, side, price, volume) => FindMatchSpec(st, Order(id, symbol, side, price, volume, ts))
    case Amend(id, price, volume) => AmendFixed(st, id, price, volume, ts)
    case Pull(id) => Defined(Outcome(PullFixed(st, id), []))
    case Other => Defined(Outcome(st, []))
  }

  /** The first `n` commands of run with the corrected PULL and AMEND. */
  function RunFixedUpTo(st: State, cs: seq<Command>, n: nat): (r: Behaviour<Outcome>)
    requires Valid(st) && n <= |cs|
    ensures r.Defined? ==> Valid(r.value.state)
  {
    if n == 0 then Defined(Outcome(st, []))
    else match RunFixedUpTo(st, cs, n - 1)
      case Undefined => Undefined
      case Defined(before) =>
        match StepFixed(before.state, cs[n - 1], n - 1)
        case Undefined => Undefined
        case Defined(s) => Defined(Outcome(s.state, before.trades + s.trades))
  }

  lemma StoreKeepsSets(st: State, k: SetKey, o: Order)
    requires Valid(st) && o.side == k.1 && o.volume >= 0 && NoEmptySets(st)
    ensures NoEmptySets(Store(st, k, o))
  {
    var t := Members(st, k);
    if !HasKey(t, o) {
      assert o in InsertIfAbsent(k.1, t, o);
    }
  }

  lemma TakenKeepsSets(st: State, cur: Order)
    requires Valid(st) && Ready(st, cur) && NoEmptySets(st) && OwnKey(cur) in st.sets
    ensures NoEmptySets(Taken(st, cur))
  {
  }

  lemma AfterFillKeepsSets(st: State, cur: Order, q: int)
    requires Valid(st) && Ready(st, cur) && 0 <= q <= Front(st, cur).volume
    requires NoEmptySets(st) && OwnKey(cur) in st.sets
    ensures NoEmptySets(AfterFill(st, cur, q))
  {
    TakenKeepsSets(st, cur);
    if Front(st, cur).volume != q {
      StoreKeepsSets(Taken(st, cur), OppKey(cur), Front(st, cur).(volume := Front(st, cur).volume - q));
    }
  }

  /** From a map without empty sets, with the incoming order's key present,
      the loop never reaches begin() of an empty set, and leaves no empty
      set behind. */
  lemma {:induction false} LoopDefined(st: State, cur: Order)
    requires Valid(st) && cur.volume >= 0 && NoEmptySets(st) && OwnKey(cur) in st.sets
    ensures Loop(st, cur).Defined? && NoEmptySets(Loop(st, cur).value.state)
    decreases cur.volume, |Members(st, OppKey(cur))|
  {
    if OppKey(cur) !in st.sets {
      LoopAbsent(st, cur);
    } else {
      var pm := Front(st, cur);
      TakenKeepsSets(st, cur);
      if !Crosses(cur.side, cur.price, pm.price) {
        LoopNoCross(st, cur);
        StoreKeepsSets(Taken(st, cur), OwnKey(cur), cur);
        StoreKeepsSets(Store(Taken(st, cur), OwnKey(cur), cur), OppKey(cur), pm);
      } else if pm.volume < cur.volume {
        var next := cur.(volume := cur.volume - pm.volume);
        LoopMore(st, cur);
        StoreKeepsSets(Taken(st, cur), OwnKey(cur), next);
        LoopDefined(Store(Taken(st, cur), OwnKey(cur), next), next);
      } else {
        LoopLast(st, cur);
        AfterFillKeepsSets(st, cur, cur.volume);
      }
    }
  }

  /** From a map without empty sets, findMatch is defined and leaves no
      empty set. */
  lemma FindMatchDefined(st: State, cur: Order)
    requires Valid(st) && cur.volume >= 0 && NoEmptySets(st)
    ensures FindMatchSpec(st, cur).Defined? && NoEmptySets(FindMatchSpec(st, cur).value.state)
  {
    var s := st.(symbols := InsertSymbol(st.symbols, cur.symbol));
    StoreKeepsSets(s, OwnKey(cur), cur);
    LoopDefined(Store(s, OwnKey(cur), cur), cur);
  }

  /** The corrected PULL removes the order as PULL as written does, but
      leaves no empty set. */
  lemma PullFixedRemoves(st: State, id: int)
    requires Valid(st) && NoEmptySets(st)
    ensures NoEmptySets(PullFixed(st, id))
    ensures id !in st.orders ==> PullFixed(st, id) == st
    ensures id in st.orders ==>
      var o := st.orders[id];
      var r := PullFixed(st, id);
      && r.orders == st.orders - {id}
      && (forall x :: x in Members(r, OwnKey(o)) <==> x in Members(st, OwnKey(o)) && !SameKey(x, o))
      && forall k | k != OwnKey(o) :: (k in r.sets <==> k in st.sets) && Members(r, k) == Members(st, k)
  {
  }

  /** AMEND of a registered order leaves no empty set: the order's set is
      either left with other orders or erased, then receives the amended
      order. */
  lemma RequeuedKeepsSets(st: State, id: int, price: int, volume: nat, ts: int)
    requires Valid(st) && id in st.orders && NoEmptySets(st)
    ensures NoEmptySets(Requeued(st, id, price, volume, ts))
  {
    var o := st.orders[id];
    var k := OwnKey(o);
    var n := Amended(o, price, volume, ts);
    var s := Detach(st, k, o);
    var t := Members(s, k);
    var r := Requeued(st, id, price, volume, ts);
    if !HasKey(t, n) {
      assert n in InsertIfAbsent(k.1, t, n);
    }
    assert r.sets[k] != [];
  }

  /** With PULL and AMEND corrected, every command is defined and leaves no
      empty set, starting from a map without one. */
  lemma FixedStepDefined(st: State, c: Command, ts: int)
    requires Valid(st) && NoEmptySets(st)
    ensures StepFixed(st, c, ts).Defined? && NoEmptySets(StepFixed(st, c, ts).value.state)
  {
    match c
    case Insert(id, symbol, side, price, volume) =>
      FindMatchDefined(st, Order(id, symbol, side, price, volume, ts));
    case Amend(id, price, volume) =>
      if id in st.orders && HasKey(Members(st, OwnKey(st.orders[id])), st.orders[id]) {
        var o := st.orders[id];
        if !(o.volume == volume && o.price == price) {
          RequeuedKeepsSets(st, id, price, volume, ts);
          FindMatchDefined(Requeued(st, id, price, volume, ts), Amended(o, price, volume, ts));
        }
      }
    case Pull(id) =>
      PullFixedRemoves(st, id);
    case Other =>
  }

  /** With PULL and AMEND corrected, every run is defined: no command reaches
      begin() of an empty set or an uninitialised order. */
  lemma {:induction false} FixedRunDefined(cs: seq<Command>, n: nat)
    requires n <= |cs|
    ensures RunFixedUpTo(Empty(), cs, n).Defined? && NoEmptySets(RunFixedUpTo(Empty(), cs, n).value.state)
  {
    if n > 0 {
      FixedRunDefined(cs, n - 1);
      var before := RunFixedUpTo(Empty(), cs, n - 1).value;
      FixedStepDefined(before.state, cs[n - 1], n - 1);
    }
  }

  /** The corrected AMEND takes only the amended order out of its set: the
      state it passes to findMatch holds every other order resting under its
      key. Anything else it ignores. */
  lemma AmendFixedKeepsOthers(st: State, id: int, price: int, volume: nat, ts: int)
    requires Valid(st)
    ensures id !in st.orders || !HasKey(Members(st, OwnKey(st.orders[id])), st.orders[id]) ==>
      AmendFixed(st, id, price, volume, ts) == Defined(Outcome(st, []))
    ensures id in st.orders && HasKey(Members(st, OwnKey(st.orders[id])), st.orders[id]) ==>
      var o := st.orders[id];
      var k := OwnKey(o);
      && AmendFixed(st, id, price, volume, ts) == AmendAsWritten(st, id, price, volume, ts)
      && forall x | x in Members(st, k) && !SameKey(x, o) :: x in Members(Requeued(st, id, price, volume, ts), k)
  {
    if id in st.orders && HasKey(Members(st, OwnKey(st.orders[id])), st.orders[id]) {
      var o := st.orders[id];
      var k := OwnKey(o);
      var t := Members(st, k);
      var s := Detach(st, k, o);
      var n := Amended(o, price, volume, ts);
      forall x | x in t && !SameKey(x, o) ensures x in Members(Requeued(st, id, price, volume, ts), k) {
        assert x in Members(s, k);
        if !HasKey(Members(s, k), n) {
          assert x in InsertIfAbsent(k.1, Members(s, k), n);
        }
      }
    }
  }

  // ---------------------------------------------------------------- the defects, exhibited

  /** As written, PULL of the only bid of a symbol leaves an empty bid set
      under its key, so the snapshot shows the symbol's header with no rows;
      an ask for that symbol then reads begin() of the empty set. */
  lemma PullLeavesEmptySet()
    ensures var cs := [Insert(1, "A", Buy, 10, 1), Pull(1), Insert(2, "A", Sell, 10, 1)];
      && RunUpTo(Empty(), cs, 2) == Defined(Outcome(State(map[], map[("A", Buy) := []], ["A"]), []))
      && RunUpTo(Empty(), cs, 3) == Undefined
      && RunFixedUpTo(Empty(), cs, 3).Defined?
  {
    var cs := [Insert(1, "A", Buy, 10, 1), Pull(1), Insert(2, "A", Sell, 10, 1)];
    var o1 := Order(1, "A", Buy, 10, 1, 0);
    var o2 := Order(2, "A", Sell, 10, 1, 2);
    assert InsertSymbol([], "A") == ["A"];
    assert InsertSymbol(["A"], "A") == ["A"];
    assert InsertIfAbsent(Buy, [], o1) == [o1];
    assert InsertIfAbsent(Sell, [], o2) == [o2];
    var s1 := State(map[1 := o1], map[("A", Buy) := [o1]], ["A"]);
    assert Store(Empty().(symbols := ["A"]), ("A", Buy), o1) == s1;
    LoopAbsent(s1, o1);
    assert RunUpTo(Empty(), cs, 1) == Defined(Outcome(s1, [] + []));
    var none: seq<Trade> := [];
    assert none + none == none;
    var s2 := State(map[], map[("A", Buy) := []], ["A"]);
    assert EraseKey(Buy, [o1], o1) == [];
    assert PullAsWritten(s1, 1) == s2;
    assert Step(s1, cs[1], 1) == Defined(Outcome(s2, []));
    assert RunUpTo(Empty(), cs, 2) == Defined(Outcome(s2, [] + []));
    var s3 := State(map[2 := o2], map[("A", Buy) := [], ("A", Sell) := [o2]], ["A"]);
    assert Store(s2.(symbols := ["A"]), ("A", Sell), o2) == s3;
    assert Step(s2, cs[2], 2) == Undefined;
    FixedRunDefined(cs, 3);
  }

  /** As written, AMEND of an id never inserted reads an uninitialised order. */
  lemma AmendUnknownUndefined()
    ensures RunUpTo(Empty(), [Amend(1, 10, 1)], 1) == Undefined
    ensures RunFixedUpTo(Empty(), [Amend(1, 10, 1)], 1) == Defined(Outcome(Empty(), []))
  {
    var cs := [Amend(1, 10, 1)];
    assert StepFixed(Empty(), cs[0], 0) == Defined(Outcome(Empty(), []));
    assert RunFixedUpTo(Empty(), cs, 0) == Defined(Outcome(Empty(), []));
    var none: seq<Trade> := [];
    assert none + none == none;
    assert RunFixedUpTo(Empty(), cs, 1) == Defined(Outcome(Empty(), [] + []));
  }

  /** As written, a filled order stays in the registry with the volume it
      last rested with. AMEND of it finds its set holding one order (another
      one) and erases the set, then books the filled order again: a bid of 1
      at 10 filled by an ask of 1 at 10, a bid of 1 at 9, then AMEND of the
      first bid to 1 at 11 leave the first bid resting at 11 and the bid at 9
      gone from the book while still registered. */
  lemma AmendOfFilledDropsOther()
    ensures var cs := [Insert(1, "A", Buy, 10, 1), Insert(2, "A", Sell, 10, 1), Insert(3, "A", Buy, 9, 1), Amend(1, 11, 1)];
      var r := RunUpTo(Empty(), cs, 4);
      && r.Defined?
      && r.value.trades == [Trade("A", 10, 1, 2, 1)]
      && r.value.state.sets == map[("A", Buy) := [Order(1, "A", Buy, 11, 1, 3)]]
      && 3 in r.value.state.orders
  {
    var cs := [Insert(1, "A", Buy, 10, 1), Insert(2, "A", Sell, 10, 1), Insert(3, "A", Buy, 9, 1), Amend(1, 11, 1)];
    FilledSetup(cs);
    var s3 := State(map[1 := Order(1, "A", Buy, 10, 1, 0), 2 := Order(2, "A", Sell, 10, 1, 1), 3 := Order(3, "A", Buy, 9, 1, 2)],
                    map[("A", Buy) := [Order(3, "A", Buy, 9, 1, 2)]], ["A"]);
    AmendFilledBid(s3);
  }

  /** The first three commands of AmendOfFilledDropsOther. */
  lemma FilledSetup(cs: seq<Command>)
    requires cs == [Insert(1, "A", Buy, 10, 1), Insert(2, "A", Sell, 10, 1), Insert(3, "A", Buy, 9, 1), Amend(1, 11, 1)]
    ensures RunUpTo(Empty(), cs, 3) ==
      Defined(Outcome(State(map[1 := Order(1, "A", Buy, 10, 1, 0), 2 := Order(2, "A", Sell, 10, 1, 1), 3 := Order(3, "A", Buy, 9, 1, 2)],
                            map[("A", Buy) := [Order(3, "A", Buy, 9, 1, 2)]], ["A"]),
                      [Trade("A", 10, 1, 2, 1)]))
  {
    var o1 := Order(1, "A", Buy, 10, 1, 0);
    var o2 := Order(2, "A", Sell, 10, 1, 1);
    var t := Trade("A", 10, 1, 2, 1);
    var none: seq<Trade> := [];
    var s1 := State(map[1 := o1], map[("A", Buy) := [o1]], ["A"]);
    var s2 := State(map[1 := o1, 2 := o2], map[], ["A"]);
    assert cs[0] == Insert(1, "A", Buy, 10, 1) && cs[1] == Insert(2, "A", Sell, 10, 1) && cs[2] == Insert(3, "A", Buy, 9, 1);
    FirstBidRests();
    RunUpToNext(cs, 0, Empty(), none);
    assert none + none == none;
    SellFillsBid(s1);
    RunUpToNext(cs, 1, s1, none);
    assert none + [t] == [t];
    LowerBidRests(s2);
    RunUpToNext(cs, 2, s2, [t]);
    assert [t] + none == [t];
  }

  /** The first command of AmendOfFilledDropsOther rests the bid. */
  lemma FirstBidRests()
    ensures Step(Empty(), Insert(1, "A", Buy, 10, 1), 0) ==
      Defined(Outcome(State(map[1 := Order(1, "A", Buy, 10, 1, 0)], map[("A", Buy) := [Order(1, "A", Buy, 10, 1, 0)]], ["A"]), []))
  {
    var o1 := Order(1, "A", Buy, 10, 1, 0);
    assert InsertSymbol([], "A") == ["A"];
    assert InsertIfAbsent(Buy, [], o1) == [o1];
    var s1 := State(map[1 := o1], map[("A", Buy) := [o1]], ["A"]);
    assert Store(Empty().(symbols := ["A"]), ("A", Buy), o1) == s1;
    LoopAbsent(s1, o1);
  }

  /** The third command of AmendOfFilledDropsOther rests the bid at 9. */
  lemma LowerBidRests(s2: State)
    requires s2 == State(map[1 := Order(1, "A", Buy, 10, 1, 0), 2 := Order(2, "A", Sell, 10, 1, 1)], map[], ["A"])
    ensures Step(s2, Insert(3, "A", Buy, 9, 1), 2) ==
      Defined(Outcome(State(map[1 := Order(1, "A", Buy, 10, 1, 0), 2 := Order(2, "A", Sell, 10, 1, 1), 3 := Order(3, "A", Buy, 9, 1, 2)],
                            map[("A", Buy) := [Order(3, "A", Buy, 9, 1, 2)]], ["A"]), []))
  {
    var o3 := Order(3, "A", Buy, 9, 1, 2);
    var s3 := State(s2.orders[3 := o3], map[("A", Buy) := [o3]], ["A"]);
    assert InsertSymbol(["A"], "A") == ["A"];
    assert s2.(symbols := ["A"]) == s2;
    assert InsertIfAbsent(Buy, [], o3) == [o3];
    assert Store(s2, ("A", Buy), o3) == s3;
    LoopAbsent(s3, o3);
  }

  /** The second command of AmendOfFilledDropsOther: the ask fills the bid,
      and both sets leave the map. */
  lemma SellFillsBid(s1: State)
    requires s1 == State(map[1 := Order(1, "A", Buy, 10, 1, 0)], map[("A", Buy) := [Order(1, "A", Buy, 10, 1, 0)]], ["A"])
    ensures Step(s1, Insert(2, "A", Sell, 10, 1), 1) ==
      Defined(Outcome(State(map[1 := Order(1, "A", Buy, 10, 1, 0), 2 := Order(2, "A", Sell, 10, 1, 1)], map[], ["A"]),
                      [Trade("A", 10, 1, 2, 1)]))
  {
    var o1 := Order(1, "A", Buy, 10, 1, 0);
    var o2 := Order(2, "A", Sell, 10, 1, 1);
    assert InsertSymbol(["A"], "A") == ["A"];
    assert InsertIfAbsent(Sell, [], o2) == [o2];
    var p := State(map[1 := o1, 2 := o2], map[("A", Buy) := [o1], ("A", Sell) := [o2]], ["A"]);
    assert Store(s1, ("A", Sell), o2) == p;
    assert Front(p, o2) == o1;
    LoopLast(p, o2);
    assert Taken(p, o2) == State(map[1 := o1, 2 := o2], map[], ["A"]);
  }

  /** The last command of AmendOfFilledDropsOther: AMEND of the filled bid. */
  lemma AmendFilledBid(s3: State)
    requires s3 == State(map[1 := Order(1, "A", Buy, 10, 1, 0), 2 := Order(2, "A", Sell, 10, 1, 1), 3 := Order(3, "A", Buy, 9, 1, 2)],
                         map[("A", Buy) := [Order(3, "A", Buy, 9, 1, 2)]], ["A"])
    ensures Step(s3, Amend(1, 11, 1), 3) ==
      Defined(Outcome(State(map[1 := Order(1, "A", Buy, 11, 1, 3), 2 := Order(2, "A", Sell, 10, 1, 1), 3 := Order(3, "A", Buy, 9, 1, 2)],
                            map[("A", Buy) := [Order(1, "A", Buy, 11, 1, 3)]], ["A"]), []))
  {
    var n := Order(1, "A", Buy, 11, 1, 3);
    var s4 := State(map[1 := n, 2 := Order(2, "A", Sell, 10, 1, 1), 3 := Order(3, "A", Buy, 9, 1, 2)],
                    map[("A", Buy) := [n]], ["A"]);
    assert Amended(s3.orders[1], 11, 1, 3) == n;
    assert InsertIfAbsent(Buy, [], n) == [n];
    assert Requeued(s3, 1, 11, 1, 3) == s4;
    assert InsertSymbol(["A"], "A") == ["A"];
    assert InsertIfAbsent(Buy, [n], n) == [n];
    assert Store(s4, ("A", Buy), n) == s4;
    LoopAbsent(s4, n);
  }
}
