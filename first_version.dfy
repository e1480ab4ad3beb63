/** first_version.cpp: one ordered map of orders per side and symbol, keyed
    by (price, timestamp), a registry of orders by id and the symbol set.
    The state is passed by reference between the functions of the source;
    here each operation takes the state and returns the new one. The model
    follows the code as written, including its defects. */
module FirstVersion {
  import opened Market
  import opened Sorted
  import opened Snapshot

  // ---------------------------------------------------------------- keys and trees

  /** CompareBuyTree on (price, timestamp) keys. */
  function CompareBuyTree(lhs: (int, int), rhs: (int, int)): bool
  {
    if lhs.0 > rhs.0 then true
    else if lhs.0 < rhs.0 then false
    else lhs.1 < rhs.1
  }

  /** The default order of std::pair<float, int>, used by the ask tree. */
  function PairLess(lhs: (int, int), rhs: (int, int)): bool
  {
    lhs.0 < rhs.0 || (!(rhs.0 < lhs.0) && lhs.1 < rhs.1)
  }

  function Key(o: Order): (int, int)
  {
    (o.price, o.timestamp)
  }

  /** The bid tree is ordered by price descending, then timestamp ascending,
      and the ask tree by price ascending, then timestamp ascending: both are
      the side's price-time order, so begin() is the best-priced, oldest
      order. */
  lemma TreeOrders(a: Order, b: Order)
    ensures CompareBuyTree(Key(a), Key(b)) <==> OrderBefore(Buy, a, b)
    ensures PairLess(Key(a), Key(b)) <==> OrderBefore(Sell, a, b)
  {
  }

  /** CompareBuyTree is a strict order under which two keys are equivalent
      exactly when they are equal, as std::map requires. */
  lemma CompareBuyTreeStrict(x: (int, int), y: (int, int), z: (int, int))
    ensures !CompareBuyTree(x, x)
    ensures CompareBuyTree(x, y) && CompareBuyTree(y, z) ==> CompareBuyTree(x, z)
    ensures !CompareBuyTree(x, y) && !CompareBuyTree(y, x) <==> x == y
  {
  }

  // ---------------------------------------------------------------- state

  /** A registry entry: a copy of an order, or a default-constructed
      StockOrder whose volume alone was assigned (its price and timestamp
      are indeterminate). */
  datatype Entry = Stored(order: Order) | Blank(volume: int)

  /** Book: the bid tree and the ask tree of one symbol, each in its side's
      price-time order. */
  datatype Book = Book(buyTree: seq<Order>, sellTree: seq<Order>)

  /** orderLookUp, symbolLookUp and allSymbols. */
  datatype State = State(orders: map<int, Entry>, books: map<string, Book>, symbols: seq<string>)

  datatype Outcome = Outcome(state: State, trades: seq<Trade>)

  /** symbolLookUp[symbol].buyTree / .sellTree; operator[] yields an empty
      Book for a symbol not seen yet. */
  function Tree(st: State, symbol: string, side: Side): seq<Order>
  {
    if symbol !in st.books then []
    else if side == Buy then st.books[symbol].buyTree
    else st.books[symbol].sellTree
  }

  predicate Valid(st: State)
  {
    && SortedSymbols(st.symbols)
    && forall s | s in st.books :: TreeOk(Buy, st.books[s].buyTree) && TreeOk(Sell, st.books[s].sellTree)
  }

  function Empty(): (r: State)
    ensures Valid(r)
  {
    State(map[], map[], [])
  }

  /** Replaces one tree of one symbol. */
  function SetTree(st: State, symbol: string, side: Side, t: seq<Order>): (r: State)
    requires Valid(st) && TreeOk(side, t)
    ensures Valid(r)
    ensures Tree(r, symbol, side) == t
    ensures Tree(r, symbol, Opposite(side)) == Tree(st, symbol, Opposite(side))
    ensures forall s, sd | s != symbol :: Tree(r, s, sd) == Tree(st, s, sd)
    ensures r.orders == st.orders && r.symbols == st.symbols
  {
    var bk := if side == Buy then Book(t, Tree(st, symbol, Sell)) else Book(Tree(st, symbol, Buy), t);
    st.(books := st.books[symbol := bk])
  }

  /** Storing an order: `orderLookUp[id] = *curOrder` and
      `tree[make_pair(price, timestamp)] = *curOrder` on its own side. */
  function Rest(st: State, c: Order): (r: State)
    requires Valid(st) && c.volume >= 0
    ensures Valid(r)
    ensures r.orders == st.orders[c.id := Stored(c)]
    ensures Tree(r, c.symbol, c.side) == Upsert(c.side, Tree(st, c.symbol, c.side), c)
    ensures Tree(r, c.symbol, Opposite(c.side)) == Tree(st, c.symbol, Opposite(c.side))
    ensures forall s, sd | s != c.symbol :: Tree(r, s, sd) == Tree(st, s, sd)
    ensures r.symbols == st.symbols
  {
    UpsertOk(c.side, Tree(st, c.symbol, c.side), c);
    SetTree(st.(orders := st.orders[c.id := Stored(c)]), c.symbol, c.side, Upsert(c.side, Tree(st, c.symbol, c.side), c))
  }

  /** `orderLookUp[id].volume = v`: operator[] default-constructs a missing
      entry before its volume is assigned. */
  function WriteVolume(orders: map<int, Entry>, id: int, v: int): (r: map<int, Entry>)
    ensures r.Keys == orders.Keys + {id}
    ensures forall k | k in orders && k != id :: r[k] == orders[k]
    ensures id in orders && orders[id].Stored? ==> r[id] == Stored(orders[id].order.(volume := v))
    ensures !(id in orders && orders[id].Stored?) ==> r[id] == Blank(v)
  {
    if id !in orders then orders[id := Blank(v)]
    else match orders[id]
      case Stored(o) => orders[id := Stored(o.(volume := v))]
      case Blank(_) => orders[id := Blank(v)]
  }

  // ---------------------------------------------------------------- findMatch

  /** The opposite tree of an incoming order. */
  function Opp(st: State, cur: Order): (r: seq<Order>)
    ensures Valid(st) ==> TreeOk(Opposite(cur.side), r)
  {
    Tree(st, cur.symbol, Opposite(cur.side))
  }

  /** The bookkeeping of one fill of `q` against the front of the opposite
      tree, as written: the passive copy in the tree loses `q`; the passive's
      new volume is written into the INCOMING order's registry entry; a
      passive that reaches 0 leaves the tree, and the incoming id (not the
      passive one) is erased from the registry. */
  function Traded(st: State, cur: Order, q: int): (r: State)
    requires Valid(st) && Opp(st, cur) != [] && 0 <= q <= Opp(st, cur)[0].volume
    ensures Valid(r)
    ensures Tree(r, cur.symbol, cur.side) == Tree(st, cur.symbol, cur.side)
    ensures var opp := Opp(st, cur); var pm := opp[0];
      Opp(r, cur) == if pm.volume == q then opp[1..] else [pm.(volume := pm.volume - q)] + opp[1..]
    ensures var pm := Opp(st, cur)[0];
      r.orders == if pm.volume == q then WriteVolume(st.orders, cur.id, 0) - {cur.id}
                  else WriteVolume(st.orders, cur.id, pm.volume - q)
    ensures r.symbols == st.symbols
  {
    var opp := Opp(st, cur);
    var side := Opposite(cur.side);
    var pm := opp[0].(volume := opp[0].volume - q);
    var orders := WriteVolume(st.orders, cur.id, pm.volume);
    if pm.volume == 0 then
      SetTree(st.(orders := orders - {cur.id}), cur.symbol, side, opp[1..])
    else
      assert TreeOk(side, [pm] + opp[1..]) by {
        assert forall i | 1 <= i < |opp| :: ([pm] + opp[1..])[i] == opp[i];
      }
      SetTree(st.(orders := orders), cur.symbol, side, [pm] + opp[1..])
  }

  /** The loop of findMatch, as written: while the opposite tree is
      non-empty and its front order crosses, trade min(both volumes) at the
      passive price; after each fill the remaining incoming order is stored
      again under its (price, timestamp) key, and when it is used up the loop
      ends without removing that earlier copy. When nothing crosses, the
      incoming order is stored and the loop ends. */
  function Match(st: State, cur: Order): (r: Outcome)
    requires Valid(st) && cur.volume >= 0
    ensures Valid(r.state) && r.state.symbols == st.symbols
    decreases cur.volume, |Opp(st, cur)|
  {
    var opp := Opp(st, cur);
    if opp == [] || !Crosses(cur.side, cur.price, opp[0].price) then Outcome(Rest(st, cur), [])
    else
      var pm := opp[0];
      var q := Min(pm.volume, cur.volume);
      var t := Trade(cur.symbol, pm.price, q, cur.id, pm.id);
      var next := cur.(volume := cur.volume - q);
      var st2 := Traded(st, cur, q);
      if next.volume != 0 then
        var r := Match(Rest(st2, next), next);
        Outcome(r.state, [t] + r.trades)
      else Outcome(st2, [t])
  }

  /** findMatch: the symbol joins allSymbols, then the loop runs. */
  function FindMatchSpec(st: State, cur: Order): (r: Outcome)
    requires Valid(st) && cur.volume >= 0
    ensures Valid(r.state)
  {
    Match(st.(symbols := InsertSymbol(st.symbols, cur.symbol)), cur)
  }

  // ---------------------------------------------------------------- findMatch, corrected

  /** The bookkeeping of one fill as evidently intended: the passive order's
      own registry entry follows its tree copy, and a passive that reaches 0
      leaves both the tree and the registry (FilledRegistered). */
  function Filled(st: State, cur: Order, q: int): (r: State)
    requires Valid(st) && Opp(st, cur) != [] && 0 <= q <= Opp(st, cur)[0].volume
    ensures Valid(r)
    ensures Tree(r, cur.symbol, cur.side) == Tree(st, cur.symbol, cur.side)
    ensures var opp := Opp(st, cur); var pm := opp[0];
      Opp(r, cur) == if pm.volume == q then opp[1..] else [pm.(volume := pm.volume - q)] + opp[1..]
    ensures var pm := Opp(st, cur)[0];
      r.orders == if pm.volume == q then st.orders - {pm.id} else st.orders[pm.id := Stored(pm.(volume := pm.volume - q))]
    ensures forall s, sd | s != cur.symbol :: Tree(r, s, sd) == Tree(st, s, sd)
    ensures r.symbols == st.symbols
  {
    var opp := Opp(st, cur);
    var side := Opposite(cur.side);
    var pm := opp[0].(volume := opp[0].volume - q);
    if pm.volume == 0 then
      SetTree(st.(orders := st.orders - {pm.id}), cur.symbol, side, opp[1..])
    else
      assert TreeOk(side, [pm] + opp[1..]) by {
        assert forall i | 1 <= i < |opp| :: ([pm] + opp[1..])[i] == opp[i];
      }
      SetTree(st.(orders := st.orders[pm.id := Stored(pm)]), cur.symbol, side, [pm] + opp[1..])
  }

  /** The loop of findMatch as evidently intended: the incoming order is
      stored once, when the loop ends with volume left. */
  function MatchFixed(st: State, cur: Order): (r: Outcome)
    requires Valid(st) && cur.volume >= 0
    ensures Valid(r.state) && r.state.symbols == st.symbols
    decreases cur.volume, |Opp(st, cur)|
  {
    var opp := Opp(st, cur);
    if opp == [] || !Crosses(cur.side, cur.price, opp[0].price) then Outcome(Rest(st, cur), [])
    else
      var pm := opp[0];
      var q := Min(pm.volume, cur.volume);
      var t := Trade(cur.symbol, pm.price, q, cur.id, pm.id);
      var next := cur.(volume := cur.volume - q);
      var st2 := Filled(st, cur, q);
      if next.volume != 0 then
        var r := MatchFixed(st2, next);
        Outcome(r.state, [t] + r.trades)
      else Outcome(st2, [t])
  }

  // ---------------------------------------------------------------- AMEND and PULL

  /** Sets the volume of the element at position `i` of a tree: the key,
      and so the order of the tree, is unchanged. */
  function SetVolumeAt(side: Side, t: seq<Order>, i: nat, v: nat): (r: seq<Order>)
    requires TreeOk(side, t) && i < |t|
    ensures TreeOk(side, r)
    ensures |r| == |t| && r[i] == t[i].(volume := v)
    ensures forall j | 0 <= j < |t| && j != i :: r[j] == t[j]
  {
    t[i := t[i].(volume := v)]
  }

  /** processAmendQuery, as written. An id that is not registered, or whose
      entry was default-constructed, leaves the order to amend indeterminate.
      The resting copy is then looked up in the BID tree of the symbol
      whatever the order's side; where no bid has its key, operator[] inserts
      a default-constructed order and the copy read is indeterminate again.
      Otherwise: a volume no larger at the same price is set in place, keeping
      the (price, timestamp) key; anything else erases the order and matches
      it again with the new price and volume and the command's timestamp. */
  function AmendAsWritten(st: State, id: int, price: int, volume: nat, ts: int): (r: Behaviour<Outcome>)
    requires Valid(st)
    ensures r.Defined? ==> Valid(r.value.state)
  {
    if id !in st.orders || st.orders[id].Blank? then Undefined
    else
      var o := st.orders[id].order;
      var bids := Tree(st, o.symbol, Buy);
      match FindKey(bids, o)
      case None => Undefined
      case Some(i) =>
        var cur := bids[i];
        if volume <= cur.volume && cur.price == price then
          var st1 := st.(orders := st.orders[id := Stored(o.(volume := volume))]);
          Defined(Outcome(SetTree(st1, o.symbol, Buy, SetVolumeAt(Buy, bids, i, volume)), []))
        else
          EraseKeyOk(Buy, bids, cur);
          var st1 := SetTree(st.(orders := st.orders - {id}), o.symbol, Buy, EraseKey(Buy, bids, cur));
          Defined(FindMatchSpec(st1, cur.(volume := volume, price := price, timestamp := ts)))
  }

  /** processAmendQuery as evidently intended: the resting copy is looked up
      in the order's own tree; an id with no resting copy changes nothing. */
  function AmendOrder(st: State, id: int, price: int, volume: nat, ts: int): (r: Outcome)
    requires Valid(st)
    ensures Valid(r.state)
  {
    if id !in st.orders || st.orders[id].Blank? then Outcome(st, [])
    else
      var o := st.orders[id].order;
      var t := Tree(st, o.symbol, o.side);
      match FindKey(t, o)
      case None => Outcome(st, [])
      case Some(i) =>
        var cur := t[i];
        if volume <= cur.volume && cur.price == price then
          var st1 := st.(orders := st.orders[id := Stored(o.(volume := volume))]);
          Outcome(SetTree(st1, o.symbol, o.side, SetVolumeAt(o.side, t, i, volume)), [])
        else
          EraseKeyOk(o.side, t, cur);
          var st1 := SetTree(st.(orders := st.orders - {id}), o.symbol, o.side, EraseKey(o.side, t, cur));
          FindMatchSpec(st1, cur.(volume := volume, price := price, timestamp := ts))
  }

  /** processPullQuery, as written: a registered id leaves the registry and
      the element with its registered (price, timestamp) key leaves its side's
      tree; an unknown id changes nothing. A default-constructed entry has an
      indeterminate key. */
  function PullAsWritten(st: State, id: int): (r: Behaviour<State>)
    requires Valid(st)
    ensures r.Defined? ==> Valid(r.value)
  {
    if id !in st.orders then Defined(st)
    else match st.orders[id]
      case Blank(_) => Undefined
      case Stored(o) =>
        var t := Tree(st, o.symbol, o.side);
        EraseKeyOk(o.side, t, o);
        Defined(SetTree(st.(orders := st.orders - {id}), o.symbol, o.side, EraseKey(o.side, t, o)))
  }

  // ---------------------------------------------------------------- run

  /** One command of run, with its index `ts` as the timestamp. */
  function Step(st: State, c: Command, ts: int): (r: Behaviour<Outcome>)
    requires Valid(st)
    ensures r.Defined? ==> Valid(r.value.state)
  {
    match c
    case Insert(id, symbol, side, price, volume) =>
      Defined(FindMatchSpec(st, Order(id, symbol, side, price, volume, ts)))
    case Amend(id, price, volume) => AmendAsWritten(st, id, price, volume, ts)
    case Pull(id) =>
      (match PullAsWritten(st, id)
       case Defined(st') => Defined(Outcome(st', []))
       case Undefined => Undefined)
    case Other => Defined(Outcome(st, []))
  }

  /** The first `n` commands of run, from `st`: the final state and every
      trade in order, or Undefined from the first command that is. */
  function RunUpTo(st: State, cs: seq<Command>, n: nat): (r: Behaviour<Outcome>)
    requires Valid(st) && n <= |cs|
    ensures r.Defined? ==> Valid(r.value.state)
  {
    if n == 0 then Defined(Outcome(st, []))
    else match RunUpTo(st, cs, n - 1)
      case Undefined => Undefined
      case Defined(before) =>
        match Step(before.state, cs[n - 1], n - 1)
        case Undefined => Undefined
        case Defined(s) => Defined(Outcome(s.state, before.trades + s.trades))
  }

  // ---------------------------------------------------------------- what findMatch guarantees

  /** Every trade of findMatch names the incoming order as aggressor, is in
      its symbol, and is at a resting price its limit accepts. */
  lemma {:induction false} MatchTrades(st: State, cur: Order)
    requires Valid(st) && cur.volume >= 0
    ensures TradesOf(Match(st, cur).trades, cur.id, cur.symbol, cur.side, cur.price)
    decreases cur.volume, |Opp(st, cur)|
  {
    var opp := Opp(st, cur);
    if opp != [] && Crosses(cur.side, cur.price, opp[0].price) {
      var pm := opp[0];
      var q := Min(pm.volume, cur.volume);
      var t := Trade(cur.symbol, pm.price, q, cur.id, pm.id);
      var next := cur.(volume := cur.volume - q);
      assert TradesOf([t], cur.id, cur.symbol, cur.side, cur.price);
      if next.volume != 0 {
        var st3 := Rest(Traded(st, cur, q), next);
        MatchTrades(st3, next);
        TradesOfCons(t, Match(st3, next).trades, cur.id, cur.symbol, cur.side, cur.price);
      }
    }
  }

  /** Volume: the incoming order trades at most its volume, and when it is
      not filled completely its remainder is registered and rests in its own
      tree. */
  lemma {:induction false} MatchFills(st: State, cur: Order)
    requires Valid(st) && cur.volume >= 0
    ensures var r := Match(st, cur);
      var filled := TradedVolume(r.trades);
      var rem := cur.(volume := cur.volume - filled);
      && 0 <= filled <= cur.volume
      && (filled < cur.volume ==>
            cur.id in r.state.orders && r.state.orders[cur.id] == Stored(rem)
            && rem in Tree(r.state, cur.symbol, cur.side))
    decreases cur.volume, |Opp(st, cur)|
  {
    var opp := Opp(st, cur);
    if opp == [] || !Crosses(cur.side, cur.price, opp[0].price) {
      assert cur in Upsert(cur.side, Tree(st, cur.symbol, cur.side), cur);
    } else {
      var pm := opp[0];
      var q := Min(pm.volume, cur.volume);
      var t := Trade(cur.symbol, pm.price, q, cur.id, pm.id);
      var next := cur.(volume := cur.volume - q);
      if next.volume != 0 {
        MatchRoundMore(st, cur, q, t, next);
        var st3 := Rest(Traded(st, cur, q), next);
        MatchFills(st3, next);
        TradedVolumeCons(t, Match(st3, next).trades);
      } else {
        MatchRoundLast(st, cur, q, t, next);
        TradedVolumeCons(t, []);
      }
    }
  }

  /** Price-time priority: the first fill is against the front of the
      opposite tree, which precedes every other order there in price-time
      order, for min(both volumes) at its price. */
  lemma MatchFirst(st: State, cur: Order)
    requires Valid(st) && cur.volume >= 0
    ensures var r := Match(st, cur); var opp := Opp(st, cur);
      r.trades != [] ==>
        && opp != [] && Crosses(cur.side, cur.price, opp[0].price)
        && r.trades[0] == Trade(cur.symbol, opp[0].price, Min(opp[0].volume, cur.volume), cur.id, opp[0].id)
        && forall x | x in opp[1..] :: OrderBefore(Opposite(cur.side), opp[0], x)
  {
    var opp := Opp(st, cur);
    if opp != [] {
      assert TreeOk(Opposite(cur.side), opp);
      TreeHeadBeforeRest(Opposite(cur.side), opp);
    }
  }

  /** Price priority: consecutive fills never move to a better resting
      price. */
  lemma {:induction false} MatchOutward(st: State, cur: Order)
    requires Valid(st) && cur.volume >= 0
    ensures Outward(Opposite(cur.side), Match(st, cur).trades)
    decreases cur.volume, |Opp(st, cur)|
  {
    var opp := Opp(st, cur);
    if opp != [] && Crosses(cur.side, cur.price, opp[0].price) {
      var side := Opposite(cur.side);
      var pm := opp[0];
      var q := Min(pm.volume, cur.volume);
      var t := Trade(cur.symbol, pm.price, q, cur.id, pm.id);
      var next := cur.(volume := cur.volume - q);
      if next.volume != 0 {
        var st3 := Rest(Traded(st, cur, q), next);
        var rest := Match(st3, next).trades;
        MatchOutward(st3, next);
        MatchFirst(st3, next);
        if rest != [] && pm.volume == q {
          assert TreeOk(side, opp);
          assert OrderBefore(side, opp[0], opp[1]);
        }
        OutwardCons(side, t, rest);
        assert Match(st, cur).trades == [t] + rest;
      }
    }
  }

  /** findMatch stops only when nothing more can trade: if the incoming
      order is not filled completely, the opposite tree is empty or its front
      does not cross. */
  lemma {:induction false} MatchStops(st: State, cur: Order)
    requires Valid(st) && cur.volume >= 0
    ensures var r := Match(st, cur); var opp := Opp(r.state, cur);
      TradedVolume(r.trades) < cur.volume ==> opp == [] || !Crosses(cur.side, cur.price, opp[0].price)
    decreases cur.volume, |Opp(st, cur)|
  {
    var opp := Opp(st, cur);
    if opp != [] && Crosses(cur.side, cur.price, opp[0].price) {
      var pm := opp[0];
      var q := Min(pm.volume, cur.volume);
      var t := Trade(cur.symbol, pm.price, q, cur.id, pm.id);
      var next := cur.(volume := cur.volume - q);
      if next.volume != 0 {
        var st3 := Rest(Traded(st, cur, q), next);
        MatchStops(st3, next);
        TradedVolumeCons(t, Match(st3, next).trades);
      } else {
        assert Match(st, cur).trades == [t];
        TradedVolumeCons(t, []);
        assert [t] + [] == [t];
      }
    }
  }

  /** The defects of the loop are in its bookkeeping only: from states with
      the same opposite tree, the loop as written and the corrected loop make
      the same trades and leave the same opposite tree. */
  lemma {:induction false} SameTrades(st1: State, st2: State, cur: Order)
    requires Valid(st1) && Valid(st2) && cur.volume >= 0 && Opp(st1, cur) == Opp(st2, cur)
    ensures Match(st1, cur).trades == MatchFixed(st2, cur).trades
    ensures Opp(Match(st1, cur).state, cur) == Opp(MatchFixed(st2, cur).state, cur)
    decreases cur.volume, |Opp(st1, cur)|
  {
    var opp := Opp(st1, cur);
    if opp != [] && Crosses(cur.side, cur.price, opp[0].price) {
      var pm := opp[0];
      var q := Min(pm.volume, cur.volume);
      var next := cur.(volume := cur.volume - q);
      var t := Trade(cur.symbol, pm.price, q, cur.id, pm.id);
      var a := Traded(st1, cur, q);
      var b := Filled(st2, cur, q);
      assert Opp(a, cur) == Opp(b, cur);
      if next.volume != 0 {
        var a' := Rest(a, next);
        assert Opp(a', next) == Opp(b, next);
        SameTrades(a', b, next);
        assert Match(st1, cur) == Outcome(Match(a', next).state, [t] + Match(a', next).trades);
        assert MatchFixed(st2, cur) == Outcome(MatchFixed(b, next).state, [t] + MatchFixed(b, next).trades);
      } else {
        assert Match(st1, cur) == Outcome(a, [t]);
        assert MatchFixed(st2, cur) == Outcome(b, [t]);
      }
    } else {
      assert Match(st1, cur) == Outcome(Rest(st1, cur), []);
      assert MatchFixed(st2, cur) == Outcome(Rest(st2, cur), []);
    }
  }

  // ---------------------------------------------------------------- the uncrossed book

  /** No symbol's best bid reaches its best ask. */
  predicate NotCrossed(st: State)
  {
    forall s | s in st.books ::
      Tree(st, s, Buy) != [] && Tree(st, s, Sell) != [] ==> Tree(st, s, Buy)[0].price < Tree(st, s, Sell)[0].price
  }

  /** Storing an order whose price does not cross the opposite front keeps
      the book uncrossed. */
  lemma RestKeepsUncrossed(st: State, c: Order)
    requires Valid(st) && c.volume >= 0 && NotCrossed(st)
    requires Opp(st, c) == [] || !Crosses(c.side, c.price, Opp(st, c)[0].price)
    ensures NotCrossed(Rest(st, c))
  {
    var r := Rest(st, c);
    UpsertFront(c.side, Tree(st, c.symbol, c.side), c);
    forall s | s in r.books && Tree(r, s, Buy) != [] && Tree(r, s, Sell) != []
      ensures Tree(r, s, Buy)[0].price < Tree(r, s, Sell)[0].price
    {
      if s != c.symbol {
        assert s in st.books;
      }
    }
  }

  /** A fill only lowers or removes the opposite front, keeping the book
      uncrossed. */
  lemma FilledKeepsUncrossed(st: State, cur: Order, q: int)
    requires Valid(st) && Opp(st, cur) != [] && 0 <= q <= Opp(st, cur)[0].volume
    requires NotCrossed(st)
    ensures NotCrossed(Filled(st, cur, q))
  {
    var r := Filled(st, cur, q);
    var opp := Opp(st, cur);
    var side := Opposite(cur.side);
    if |opp| > 1 {
      assert TreeOk(side, opp);
      assert OrderBefore(side, opp[0], opp[1]);
    }
    forall s | s in r.books && Tree(r, s, Buy) != [] && Tree(r, s, Sell) != []
      ensures Tree(r, s, Buy)[0].price < Tree(r, s, Sell)[0].price
    {
      assert s in st.books;
    }
  }

  /** With the corrected bookkeeping, findMatch never crosses the book. */
  lemma {:induction false} FixedNotCrossed(st: State, cur: Order)
    requires Valid(st) && cur.volume >= 0 && NotCrossed(st)
    ensures NotCrossed(MatchFixed(st, cur).state)
    decreases cur.volume, |Opp(st, cur)|
  {
    var opp := Opp(st, cur);
    if opp == [] || !Crosses(cur.side, cur.price, opp[0].price) {
      RestKeepsUncrossed(st, cur);
    } else {
      var pm := opp[0];
      var q := Min(pm.volume, cur.volume);
      var next := cur.(volume := cur.volume - q);
      FilledKeepsUncrossed(st, cur, q);
      if next.volume != 0 {
        FixedNotCrossed(Filled(st, cur, q), next);
      }
    }
  }

  /** As written, an incoming order that rests after one fill and is then
      used up by a later fill leaves its earlier copy in its tree: two bids of
      2 and 3 at 10 and an ask of 4 at 10 trade 2 and 2, and leave the ask
      tree holding the ask with 2 while the bid tree holds the second bid
      with 1, both at 10. */
  lemma StaleCopyCrossesBook()
    ensures var cs := [Insert(1, "A", Buy, 10, 2), Insert(2, "A", Buy, 10, 3), Insert(3, "A", Sell, 10, 4)];
      var r := RunUpTo(Empty(), cs, 3);
      && r.Defined?
      && r.value.trades == [Trade("A", 10, 2, 3, 1), Trade("A", 10, 2, 3, 2)]
      && Tree(r.value.state, "A", Buy) == [Order(2, "A", Buy, 10, 1, 1)]
      && Tree(r.value.state, "A", Sell) == [Order(3, "A", Sell, 10, 2, 2)]
      && !NotCrossed(r.value.state)
  {
    var cs := [Insert(1, "A", Buy, 10, 2), Insert(2, "A", Buy, 10, 3), Insert(3, "A", Sell, 10, 4)];
    TwoBids(cs);
    var before := RunUpTo(Empty(), cs, 2).value;
    SellSweepsBids(before.state);
    var s := Step(before.state, cs[2], 2).value;
    assert RunUpTo(Empty(), cs, 3) == Defined(Outcome(s.state, before.trades + s.trades));
    assert "A" in s.state.books;
  }

  /** The first two commands of StaleCopyCrossesBook rest two bids at 10. */
  lemma TwoBids(cs: seq<Command>)
    requires cs == [Insert(1, "A", Buy, 10, 2), Insert(2, "A", Buy, 10, 3), Insert(3, "A", Sell, 10, 4)]
    ensures var r := RunUpTo(Empty(), cs, 2);
      && r.Defined? && r.value.trades == [] && r.value.state.symbols == ["A"]
      && Tree(r.value.state, "A", Buy) == [Order(1, "A", Buy, 10, 2, 0), Order(2, "A", Buy, 10, 3, 1)]
      && Tree(r.value.state, "A", Sell) == []
  {
    var o1 := Order(1, "A", Buy, 10, 2, 0);
    var o2 := Order(2, "A", Buy, 10, 3, 1);
    var st0 := Empty().(symbols := ["A"]);
    assert InsertSymbol([], "A") == ["A"];
    var st1 := Rest(st0, o1);
    assert Opp(st0, o1) == [];
    assert Upsert(Buy, [], o1) == [o1];
    assert Step(Empty(), cs[0], 0) == Defined(Outcome(st1, []));
    assert RunUpTo(Empty(), cs, 0) == Defined(Outcome(Empty(), []));
    assert RunUpTo(Empty(), cs, 1) == Defined(Outcome(st1, [] + []));
    assert InsertSymbol(["A"], "A") == ["A"];
    assert st1.(symbols := ["A"]) == st1;
    var st2 := Rest(st1, o2);
    assert Opp(st1, o2) == [];
    assert Upsert(Buy, [o1], o2) == [o1, o2];
    assert Step(st1, cs[1], 1) == Defined(Outcome(st2, []));
  }

  /** The third command of StaleCopyCrossesBook: the ask of 4 fills both
      bids, resting after the first fill and used up by the second. */
  lemma SellSweepsBids(st: State)
    requires Valid(st) && st.symbols == ["A"]
    requires Tree(st, "A", Buy) == [Order(1, "A", Buy, 10, 2, 0), Order(2, "A", Buy, 10, 3, 1)]
    requires Tree(st, "A", Sell) == []
    ensures var r := Step(st, Insert(3, "A", Sell, 10, 4), 2);
      && r.Defined?
      && r.value.trades == [Trade("A", 10, 2, 3, 1), Trade("A", 10, 2, 3, 2)]
      && Tree(r.value.state, "A", Buy) == [Order(2, "A", Buy, 10, 1, 1)]
      && Tree(r.value.state, "A", Sell) == [Order(3, "A", Sell, 10, 2, 2)]
  {
    var o2 := Order(2, "A", Buy, 10, 3, 1);
    var o3 := Order(3, "A", Sell, 10, 4, 2);
    var n1 := o3.(volume := 2);
    assert InsertSymbol(["A"], "A") == ["A"];
    assert st.(symbols := ["A"]) == st;
    var a := Traded(st, o3, 2);
    assert Tree(a, "A", Buy) == [o2];
    var st3 := Rest(a, n1);
    assert Upsert(Sell, [], n1) == [n1];
    var st4 := Traded(st3, n1, 2);
    assert Tree(st4, "A", Buy) == [o2.(volume := 1)];
    assert Match(st3, n1) == Outcome(st4, [Trade("A", 10, 2, 3, 2)]);
  }

  // ---------------------------------------------------------------- AMEND and PULL rules

  /** As written, AMEND of an ask is undefined: the copy is looked up in the
      bid tree, where no order has the ask's key. An ask of 2 at 10, then an
      AMEND of it to 1 at 10, stop the run. */
  lemma AmendOfAskUndefined()
    ensures RunUpTo(Empty(), [Insert(1, "A", Sell, 10, 2), Amend(1, 10, 1)], 2) == Undefined
  {
    var cs := [Insert(1, "A", Sell, 10, 2), Amend(1, 10, 1)];
    var o1 := Order(1, "A", Sell, 10, 2, 0);
    var st0 := Empty().(symbols := ["A"]);
    assert InsertSymbol([], "A") == ["A"];
    var st1 := Rest(st0, o1);
    assert Opp(st0, o1) == [];
    assert Step(Empty(), cs[0], 0) == Defined(Outcome(st1, []));
    assert RunUpTo(Empty(), cs, 0) == Defined(Outcome(Empty(), []));
    assert RunUpTo(Empty(), cs, 1) == Defined(Outcome(st1, [] + []));
    assert st1.orders[1] == Stored(o1);
    assert Tree(st1, "A", Buy) == [];
  }

  /** On a bid resting in its tree, AMEND as written does what the corrected
      AMEND does. */
  lemma AmendAgreesOnBids(st: State, id: int, price: int, volume: nat, ts: int)
    requires Valid(st) && id in st.orders && st.orders[id].Stored?
    requires st.orders[id].order.side == Buy
    requires HasKey(Tree(st, st.orders[id].order.symbol, Buy), st.orders[id].order)
    ensures AmendAsWritten(st, id, price, volume, ts) == Defined(AmendOrder(st, id, price, volume, ts))
  {
  }

  /** AMEND to the same price and a volume no larger than the resting one
      keeps the order's (price, timestamp) key and so its place in its tree:
      only its volume changes, and nothing trades. */
  lemma AmendKeepsPriority(st: State, id: int, price: int, volume: nat, ts: int)
    requires Valid(st) && id in st.orders && st.orders[id].Stored?
    ensures var o := st.orders[id].order;
      var t := Tree(st, o.symbol, o.side);
      var k := FindKey(t, o);
      var r := AmendOrder(st, id, price, volume, ts);
      var t' := Tree(r.state, o.symbol, o.side);
      k.Some? && volume <= t[k.value].volume && t[k.value].price == price ==>
        && r.trades == []
        && |t'| == |t|
        && (forall j | 0 <= j < |t| :: SameKey(t'[j], t[j]) && (j != k.value ==> t'[j] == t[j]))
        && t'[k.value].volume == volume
        && r.state.orders[id] == Stored(o.(volume := volume))
  {
  }

  /** Any other AMEND of a resting order removes it and matches it again
      as a new order with the new price and volume and the command's
      timestamp: it trades only at prices its new limit accepts, and a
      remainder rests, registered, with the new timestamp. */
  lemma AmendRequeues(st: State, id: int, price: int, volume: nat, ts: int)
    requires Valid(st) && id in st.orders && st.orders[id].Stored?
    ensures var o := st.orders[id].order;
      var t := Tree(st, o.symbol, o.side);
      var k := FindKey(t, o);
      k.Some? && !(volume <= t[k.value].volume && t[k.value].price == price) ==>
        var n := t[k.value].(volume := volume, price := price, timestamp := ts);
        var r := AmendOrder(st, id, price, volume, ts);
        var filled := TradedVolume(r.trades);
        && TradesOf(r.trades, n.id, n.symbol, n.side, price)
        && 0 <= filled <= volume
        && (filled < volume ==>
              n.id in r.state.orders && r.state.orders[n.id] == Stored(n.(volume := volume - filled))
              && n.(volume := volume - filled) in Tree(r.state, n.symbol, n.side))
  {
    var o := st.orders[id].order;
    var t := Tree(st, o.symbol, o.side);
    var k := FindKey(t, o);
    if k.Some? && !(volume <= t[k.value].volume && t[k.value].price == price) {
      var cur := t[k.value];
      EraseKeyOk(o.side, t, cur);
      var st1 := SetTree(st.(orders := st.orders - {id}), o.symbol, o.side, EraseKey(o.side, t, cur));
      var n := cur.(volume := volume, price := price, timestamp := ts);
      var st2 := st1.(symbols := InsertSymbol(st1.symbols, n.symbol));
      AmendOrderRematches(st, id, price, volume, ts, st1, n);
      MatchTrades(st2, n);
      MatchFills(st2, n);
    }
  }

  /** The re-queue branch of AmendOrder is findMatch on the book without the
      old copy. */
  lemma AmendOrderRematches(st: State, id: int, price: int, volume: nat, ts: int, st1: State, n: Order)
    requires Valid(st) && id in st.orders && st.orders[id].Stored?
    requires var o := st.orders[id].order;
      var t := Tree(st, o.symbol, o.side);
      var k := FindKey(t, o);
      && k.Some? && !(volume <= t[k.value].volume && t[k.value].price == price)
      && n == t[k.value].(volume := volume, price := price, timestamp := ts)
      && TreeOk(o.side, EraseKey(o.side, t, t[k.value]))
      && st1 == SetTree(st.(orders := st.orders - {id}), o.symbol, o.side, EraseKey(o.side, t, t[k.value]))
    ensures Valid(st1) && n.volume >= 0
    ensures AmendOrder(st, id, price, volume, ts) == Match(st1.(symbols := InsertSymbol(st1.symbols, n.symbol)), n)
  {
  }

  /** PULL of a registered order erases it from the registry and the element
      with its key from its tree, keeping every other order; an unknown id
      changes nothing; a default-constructed entry is undefined. */
  lemma PullRemoves(st: State, id: int)
    requires Valid(st)
    ensures id !in st.orders ==> PullAsWritten(st, id) == Defined(st)
    ensures id in st.orders && st.orders[id].Blank? ==> PullAsWritten(st, id).Undefined?
    ensures id in st.orders && st.orders[id].Stored? ==>
      var o := st.orders[id].order;
      var r := PullAsWritten(st, id);
      && r.Defined?
      && r.value.orders == st.orders - {id}
      && !HasKey(Tree(r.value, o.symbol, o.side), o)
      && (forall x :: x in Tree(r.value, o.symbol, o.side) <==> x in Tree(st, o.symbol, o.side) && !SameKey(x, o))
      && Tree(r.value, o.symbol, Opposite(o.side)) == Tree(st, o.symbol, Opposite(o.side))
  {
    if id in st.orders && st.orders[id].Stored? {
      var o := st.orders[id].order;
      var t := Tree(st, o.symbol, o.side);
      var e := EraseKey(o.side, t, o);
      assert !HasKey(e, o) by {
        forall j | 0 <= j < |e| ensures !SameKey(e[j], o) {
          assert e[j] in e;
        }
      }
    }
  }

  // ---------------------------------------------------------------- timestamps

  predicate TreeStamped(t: seq<Order>, n: int)
  {
    forall i | 0 <= i < |t| :: t[i].timestamp < n
  }

  /** Every resting order carries a timestamp below `n`. */
  predicate StampedBefore(st: State, n: int)
  {
    forall s | s in st.books :: TreeStamped(Tree(st, s, Buy), n) && TreeStamped(Tree(st, s, Sell), n)
  }

  lemma RestStamped(st: State, c: Order, n: int)
    requires Valid(st) && c.volume >= 0 && StampedBefore(st, n) && c.timestamp < n
    ensures StampedBefore(Rest(st, c), n)
  {
    var r := Rest(st, c);
    var u := Upsert(c.side, Tree(st, c.symbol, c.side), c);
    forall i | 0 <= i < |u| ensures u[i].timestamp < n {
      assert u[i] in u;
      if u[i] != c {
        var j :| 0 <= j < |Tree(st, c.symbol, c.side)| && Tree(st, c.symbol, c.side)[j] == u[i];
      }
    }
    forall s | s in r.books ensures TreeStamped(Tree(r, s, Buy), n) && TreeStamped(Tree(r, s, Sell), n) {
      if s != c.symbol { assert s in st.books; }
    }
  }

  lemma TradedStamped(st: State, cur: Order, q: int, n: int)
    requires Valid(st) && Opp(st, cur) != [] && 0 <= q <= Opp(st, cur)[0].volume
    requires StampedBefore(st, n)
    ensures StampedBefore(Traded(st, cur, q), n)
  {
    var r := Traded(st, cur, q);
    var opp := Opp(st, cur);
    StampedTree(st, cur.symbol, Opposite(cur.side), n);
    StampedTree(st, cur.symbol, cur.side, n);
    var opp' := Opp(r, cur);
    forall x | x in opp' ensures x.timestamp < n {
      var j :| 0 <= j < |opp'| && opp'[j] == x;
      if opp[0].volume != q && j == 0 {
        assert x.timestamp == opp[0].timestamp;
      } else {
        assert x in opp;
      }
    }
    TreeStampedSub(opp', opp', n);
    forall s | s in r.books ensures TreeStamped(Tree(r, s, Buy), n) && TreeStamped(Tree(r, s, Sell), n) {
      if s != cur.symbol { assert s in st.books; }
      else { assert Tree(r, s, Buy) == opp' || Tree(r, s, Sell) == opp'; }
    }
  }

  lemma StampedTree(st: State, s: string, side: Side, n: int)
    requires StampedBefore(st, n)
    ensures TreeStamped(Tree(st, s, side), n)
  {
  }

  /** A tree whose orders all carry a timestamp below `n` is stamped. */
  lemma TreeStampedSub(a: seq<Order>, b: seq<Order>, n: int)
    requires forall x | x in a :: x in b
    requires forall x | x in b :: x.timestamp < n
    ensures TreeStamped(a, n)
  {
    forall i | 0 <= i < |a| ensures a[i].timestamp < n {
      assert a[i] in b;
    }
  }

  /** findMatch stores only orders stamped before `n` when it starts from
      such a book with such an incoming order. */
  lemma {:induction false} MatchStamped(st: State, cur: Order, n: int)
    requires Valid(st) && cur.volume >= 0 && StampedBefore(st, n) && cur.timestamp < n
    ensures StampedBefore(Match(st, cur).state, n)
    decreases cur.volume, |Opp(st, cur)|
  {
    var opp := Opp(st, cur);
    if opp == [] || !Crosses(cur.side, cur.price, opp[0].price) {
      RestStamped(st, cur, n);
    } else {
      var q := Min(opp[0].volume, cur.volume);
      var next := cur.(volume := cur.volume - q);
      TradedStamped(st, cur, q, n);
      if next.volume != 0 {
        RestStamped(Traded(st, cur, q), next, n);
        MatchStamped(Rest(Traded(st, cur, q), next), next, n);
      }
    }
  }

  /** Every command stamps what it stores with its own index, so after the
      command with index `ts` every resting order is stamped before ts + 1. */
  lemma StepStamped(st: State, c: Command, ts: int)
    requires Valid(st) && StampedBefore(st, ts)
    ensures var r := Step(st, c, ts); r.Defined? ==> StampedBefore(r.value.state, ts + 1)
  {
    assert StampedBefore(st, ts + 1);
    match c
    case Insert(id, symbol, side, price, volume) =>
      var st1 := st.(symbols := InsertSymbol(st.symbols, symbol));
      assert StampedBefore(st1, ts + 1);
      MatchStamped(st1, Order(id, symbol, side, price, volume, ts), ts + 1);
    case Amend(id, price, volume) =>
      AmendStamped(st, id, price, volume, ts);
    case Pull(id) =>
      if id in st.orders && st.orders[id].Stored? {
        var o := st.orders[id].order;
        PullRemoves(st, id);
        var r := PullAsWritten(st, id).value;
        var t := Tree(st, o.symbol, o.side);
        StampedTree(st, o.symbol, o.side, ts + 1);
        forall x | x in t ensures x.timestamp < ts + 1 {
          var j :| 0 <= j < |t| && t[j] == x;
        }
        TreeStampedSub(Tree(r, o.symbol, o.side), t, ts + 1);
        StampedTree(st, o.symbol, Opposite(o.side), ts + 1);
        forall s | s in r.books ensures TreeStamped(Tree(r, s, Buy), ts + 1) && TreeStamped(Tree(r, s, Sell), ts + 1) {
          if s != o.symbol { assert s in st.books; }
        }
      }
    case Other =>
  }

  lemma AmendStamped(st: State, id: int, price: int, volume: nat, ts: int)
    requires Valid(st) && StampedBefore(st, ts)
    ensures var r := AmendAsWritten(st, id, price, volume, ts); r.Defined? ==> StampedBefore(r.value.state, ts + 1)
  {
    if id in st.orders && st.orders[id].Stored? {
      var o := st.orders[id].order;
      var bids := Tree(st, o.symbol, Buy);
      var k := FindKey(bids, o);
      if k.Some? {
        assert o.symbol in st.books;
        var cur := bids[k.value];
        if volume <= cur.volume && cur.price == price {
          var r := AmendAsWritten(st, id, price, volume, ts).value.state;
          forall s | s in r.books ensures TreeStamped(Tree(r, s, Buy), ts + 1) && TreeStamped(Tree(r, s, Sell), ts + 1) {
            if s != o.symbol { assert s in st.books; }
          }
        } else {
          EraseKeyOk(Buy, bids, cur);
          var e := EraseKey(Buy, bids, cur);
          var st1 := SetTree(st.(orders := st.orders - {id}), o.symbol, Buy, e);
          forall i | 0 <= i < |e| ensures e[i].timestamp < ts + 1 {
            assert e[i] in e;
          }
          forall s | s in st1.books ensures TreeStamped(Tree(st1, s, Buy), ts + 1) && TreeStamped(Tree(st1, s, Sell), ts + 1) {
            if s != o.symbol { assert s in st.books; }
          }
          var st2 := st1.(symbols := InsertSymbol(st1.symbols, cur.symbol));
          assert StampedBefore(st2, ts + 1);
          MatchStamped(st2, cur.(volume := volume, price := price, timestamp := ts), ts + 1);
        }
      }
    }
  }

  // ---------------------------------------------------------------- the procedures

  /** findMatch: `while (true)` over the opposite tree of the incoming order,
      with the bookkeeping of the source step by step; the trades are
      collected and returned when the loop ends. */
  method FindMatch(st: State, order: Order) returns (r: Outcome)
    requires Valid(st) && order.volume >= 0
    ensures r == FindMatchSpec(st, order)
  {
    var s := st.(symbols := InsertSymbol(st.symbols, order.symbol));
    ghost var expected := Match(s, order);
    var cur := order;
    var trades: seq<Trade> := [];
    var going := true;
    while going
      invariant Valid(s) && cur.volume >= 0
      invariant going ==> expected == Outcome(Match(s, cur).state, trades + Match(s, cur).trades)
      invariant !going ==> expected == Outcome(s, trades)
      decreases going, cur.volume, |Opp(s, cur)|
    {
      var opp := if cur.symbol !in s.books then []
        else if cur.side == Buy then s.books[cur.symbol].sellTree
        else s.books[cur.symbol].buyTree;
      assert opp == Opp(s, cur);
      if opp == [] || !Crosses(cur.side, cur.price, opp[0].price) {
        MatchHalts(s, cur);
        assert trades + [] == trades;
        s := Rest(s, cur);
        going := false;
      } else {
        ghost var before := s;
        var incoming := cur;
        var q := Min(opp[0].volume, cur.volume);
        var t := Trade(cur.symbol, opp[0].price, q, cur.id, opp[0].id);
        cur := cur.(volume := cur.volume - q);
        if cur.volume != 0 {
          MatchRoundMore(before, incoming, q, t, cur);
          s := Traded(s, incoming, q);
          s := Rest(s, cur);
          AppendAssoc(trades, [t], Match(s, cur).trades);
        } else {
          MatchRoundLast(before, incoming, q, t, cur);
          s := Traded(s, incoming, q);
          going := false;
        }
        trades := trades + [t];
      }
    }
    r := Outcome(s, trades);
  }

  /** With nothing crossing, the loop stores the incoming order and ends. */
  lemma MatchHalts(st: State, cur: Order)
    requires Valid(st) && cur.volume >= 0
    requires Opp(st, cur) == [] || !Crosses(cur.side, cur.price, Opp(st, cur)[0].price)
    ensures Match(st, cur) == Outcome(Rest(st, cur), [])
  {
  }

  /** A fill that leaves incoming volume continues the loop with the
      remainder, stored again, against the book after the fill. */
  lemma MatchRoundMore(st: State, cur: Order, q: int, t: Trade, next: Order)
    requires Valid(st) && cur.volume >= 0
    requires Opp(st, cur) != [] && Crosses(cur.side, cur.price, Opp(st, cur)[0].price)
    requires q == Min(Opp(st, cur)[0].volume, cur.volume) && next == cur.(volume := cur.volume - q)
    requires t == Trade(cur.symbol, Opp(st, cur)[0].price, q, cur.id, Opp(st, cur)[0].id)
    requires next.volume != 0
    ensures 0 <= q <= Opp(st, cur)[0].volume && next.volume >= 0
    ensures Match(st, cur) ==
      Outcome(Match(Rest(Traded(st, cur, q), next), next).state, [t] + Match(Rest(Traded(st, cur, q), next), next).trades)
  {
    var opp := Opp(st, cur);
    assert !(opp == [] || !Crosses(cur.side, cur.price, opp[0].price));
    assert q == Min(opp[0].volume, cur.volume);
  }

  /** A fill that uses up the incoming volume ends the loop. */
  lemma MatchRoundLast(st: State, cur: Order, q: int, t: Trade, next: Order)
    requires Valid(st) && cur.volume >= 0
    requires Opp(st, cur) != [] && Crosses(cur.side, cur.price, Opp(st, cur)[0].price)
    requires q == Min(Opp(st, cur)[0].volume, cur.volume) && next == cur.(volume := cur.volume - q)
    requires t == Trade(cur.symbol, Opp(st, cur)[0].price, q, cur.id, Opp(st, cur)[0].id)
    requires next.volume == 0
    ensures 0 <= q <= Opp(st, cur)[0].volume
    ensures Match(st, cur) == Outcome(Traded(st, cur, q), [t])
  {
  }

  /** processAmendQuery, as written (see AmendAsWritten). */
  method ProcessAmend(st: State, id: int, price: int, volume: nat, ts: int) returns (r: Behaviour<Outcome>)
    requires Valid(st)
    ensures r == AmendAsWritten(st, id, price, volume, ts)
  {
    if id !in st.orders || st.orders[id].Blank? {
      return Undefined;
    }
    var o := st.orders[id].order;
    var bids := Tree(st, o.symbol, Buy);
    var k := FindKey(bids, o);
    if k.None? {
      return Undefined;
    }
    var cur := bids[k.value];
    if volume <= cur.volume && cur.price == price {
      var s := st.(orders := st.orders[id := Stored(o.(volume := volume))]);
      s := SetTree(s, o.symbol, Buy, SetVolumeAt(Buy, bids, k.value, volume));
      return Defined(Outcome(s, []));
    }
    EraseKeyOk(Buy, bids, cur);
    var s := st.(orders := st.orders - {id});
    s := SetTree(s, o.symbol, Buy, EraseKey(Buy, bids, cur));
    var m := FindMatch(s, cur.(volume := volume, price := price, timestamp := ts));
    return Defined(m);
  }

  /** processPullQuery, as written (see PullAsWritten). */
  method ProcessPull(st: State, id: int) returns (r: Behaviour<State>)
    requires Valid(st)
    ensures r == PullAsWritten(st, id)
  {
    if id !in st.orders {
      return Defined(st);
    }
    if st.orders[id].Blank? {
      return Undefined;
    }
    var o := st.orders[id].order;
    var t := Tree(st, o.symbol, o.side);
    EraseKeyOk(o.side, t, o);
    var s := st.(orders := st.orders - {id});
    s := SetTree(s, o.symbol, o.side, EraseKey(o.side, t, o));
    return Defined(s);
  }

  /** One line of input: the branch of run() that handles its command. */
  method Dispatch(st: State, c: Command, ts: int) returns (step: Behaviour<Outcome>)
    requires Valid(st)
    ensures step == Step(st, c, ts)
  {
    match c {
      case Insert(id, symbol, side, price, volume) =>
        var m := FindMatch(st, Order(id, symbol, side, price, volume, ts));
        step := Defined(m);
      case Amend(id, price, volume) =>
        step := ProcessAmend(st, id, price, volume, ts);
      case Pull(id) =>
        var p := ProcessPull(st, id);
        step := if p.Defined? then Defined(Outcome(p.value, [])) else Undefined;
      case Other =>
        step := Defined(Outcome(st, []));
    }
  }

  /** The command loop of run, from the empty state: each command with its
      index as its timestamp, until the first undefined one. A resting order
      always carries the index of an earlier command. */
  method RunCommands(cs: seq<Command>) returns (r: Behaviour<Outcome>)
    ensures r == RunUpTo(Empty(), cs, |cs|)
  {
    r := Defined(Outcome(Empty(), []));
    var i := 0;
    while i < |cs| && r.Defined?
      invariant 0 <= i <= |cs| && r == RunUpTo(Empty(), cs, i)
      invariant r.Undefined? ==> i > 0
    {
      r := Advance(cs, i, r.value.state, r.value.trades);
      i := i + 1;
    }
    if i < |cs| {
      UndefinedStays(cs, i);
    }
  }

  /** One pass of run's loop: the command at index `i`, stamped `i`. */
  method Advance(cs: seq<Command>, i: nat, st: State, trades: seq<Trade>) returns (r: Behaviour<Outcome>)
    requires i < |cs| && Valid(st) && RunUpTo(Empty(), cs, i) == Defined(Outcome(st, trades))
    ensures r == RunUpTo(Empty(), cs, i + 1)
  {
    var step := Dispatch(st, cs[i], i);
    RunUpToNext(cs, i, st, trades);
    if step.Undefined? {
      return Undefined;
    }
    return Defined(Outcome(step.value.state, trades + step.value.trades));
  }

  /** RunUpTo one command further, from the outcome so far. */
  lemma RunUpToNext(cs: seq<Command>, i: nat, st: State, trades: seq<Trade>)
    requires i < |cs| && Valid(st) && RunUpTo(Empty(), cs, i) == Defined(Outcome(st, trades))
    ensures RunUpTo(Empty(), cs, i + 1) ==
      match Step(st, cs[i], i)
      case Undefined => Undefined
      case Defined(s) => Defined(Outcome(s.state, trades + s.trades))
  {
  }

  /** Once a command is undefined, so is the run. */
  lemma {:induction false} UndefinedStays(cs: seq<Command>, n: nat)
    requires 0 < n <= |cs| && RunUpTo(Empty(), cs, n) == Undefined
    ensures RunUpTo(Empty(), cs, |cs|) == Undefined
    decreases |cs| - n
  {
    if n < |cs| {
      UndefinedStays(cs, n + 1);
    }
  }

  // ---------------------------------------------------------------- the corrected engine

  /** findMatch with the bookkeeping of MatchFixed. */
  function FindMatchFixed(st: State, cur: Order): (r: Outcome)
    requires Valid(st) && cur.volume >= 0
    ensures Valid(r.state) && cur.symbol in r.state.symbols
  {
    MatchFixed(st.(symbols := InsertSymbol(st.symbols, cur.symbol)), cur)
  }

  /** processAmendQuery with both corrections: the resting copy is read from
      the order's own tree, as in AmendOrder, and a re-queued order is matched
      by FindMatchFixed. */
  function AmendFixed(st: State, id: int, price: int, volume: nat, ts: int): (r: Outcome)
    requires Valid(st)
    ensures Valid(r.state)
  {
    if id !in st.orders || st.orders[id].Blank? then Outcome(st, [])
    else
      var o := st.orders[id].order;
      var t := Tree(st, o.symbol, o.side);
      match FindKey(t, o)
      case None => Outcome(st, [])
      case Some(i) =>
        var cur := t[i];
        if volume <= cur.volume && cur.price == price then
          var st1 := st.(orders := st.orders[id := Stored(o.(volume := volume))]);
          Outcome(SetTree(st1, o.symbol, o.side, SetVolumeAt(o.side, t, i, volume)), [])
        else
          EraseKeyOk(o.side, t, cur);
          var st1 := SetTree(st.(orders := st.orders - {id}), o.symbol, o.side, EraseKey(o.side, t, cur));
          FindMatchFixed(st1, cur.(volume := volume, price := price, timestamp := ts))
  }

  /** One command of run with the corrected operations; a PULL of a
      default-constructed entry changes nothing. */
  function StepFixed(st: State, c: Command, ts: int): (r: Outcome)
    requires Valid(st)
    ensures Valid(r.state)
  {
    match c
    case Insert(id, symbol, side, price, volume) => FindMatchFixed(st, Order(id, symbol, side, price, volume, ts))
    case Amend(id, price, volume) => AmendFixed(st, id, price, volume, ts)
    case Pull(id) =>
      (match PullAsWritten(st, id)
       case Defined(st') => Outcome(st', [])
       case Undefined => Outcome(st, []))
    case Other => Outcome(st, [])
  }

  /** Every order of each tree of `r` has the price of an order of the same
      tree of `st`. */
  ghost predicate PricesWithin(st: State, r: State)
  {
    forall s, side, x | x in Tree(r, s, side) :: HasPrice(Tree(st, s, side), x.price)
  }

  ghost predicate HasPrice(t: seq<Order>, p: int)
  {
    exists y | y in t :: y.price == p
  }

  /** No order of a tree has a better price than its front. */
  lemma NoBetterThanFront(side: Side, t: seq<Order>, y: Order)
    requires TreeOk(side, t) && y in t
    ensures !PriceBefore(side, y.price, t[0].price)
  {
    if y != t[0] {
      var k :| 0 <= k < |t| && t[k] == y;
      assert OrderBefore(side, t[0], t[k]);
    }
  }

  /** A book whose trees only keep prices of an uncrossed book is uncrossed. */
  lemma WithinUncrossed(st: State, r: State)
    requires Valid(st) && Valid(r) && NotCrossed(st) && PricesWithin(st, r)
    ensures NotCrossed(r)
  {
    forall s | s in r.books && Tree(r, s, Buy) != [] && Tree(r, s, Sell) != []
      ensures Tree(r, s, Buy)[0].price < Tree(r, s, Sell)[0].price
    {
      var b := Tree(r, s, Buy)[0];
      assert b in Tree(r, s, Buy);
      assert HasPrice(Tree(st, s, Buy), b.price);
      var yb :| yb in Tree(st, s, Buy) && yb.price == b.price;
      var a := Tree(r, s, Sell)[0];
      assert a in Tree(r, s, Sell);
      assert HasPrice(Tree(st, s, Sell), a.price);
      var ya :| ya in Tree(st, s, Sell) && ya.price == a.price;
      assert s in st.books;
      NoBetterThanFront(Buy, Tree(st, s, Buy), yb);
      NoBetterThanFront(Sell, Tree(st, s, Sell), ya);
    }
  }

  /** Replacing one tree by one holding only prices of the old tree keeps
      the prices within those of `st`. */
  lemma SetTreeWithin(st: State, st0: State, symbol: string, side: Side, t: seq<Order>)
    requires Valid(st0) && st0.books == st.books && TreeOk(side, t)
    requires forall x | x in t :: HasPrice(Tree(st, symbol, side), x.price)
    ensures PricesWithin(st, SetTree(st0, symbol, side, t))
  {
    var r := SetTree(st0, symbol, side, t);
    forall s, sd, x | x in Tree(r, s, sd) ensures HasPrice(Tree(st, s, sd), x.price) {
      if s == symbol && sd == side {
        assert x in t;
      } else {
        if s == symbol {
          assert sd == Opposite(side);
        }
        assert Tree(st0, s, sd) == Tree(st, s, sd);
        assert Tree(r, s, sd) == Tree(st, s, sd);
        assert x in Tree(st, s, sd);
      }
    }
  }

  /** Erasing an order from its tree keeps the prices within the old ones. */
  lemma EraseWithin(st: State, orders: map<int, Entry>, o: Order)
    requires Valid(st)
    ensures TreeOk(o.side, EraseKey(o.side, Tree(st, o.symbol, o.side), o))
    ensures PricesWithin(st, SetTree(st.(orders := orders), o.symbol, o.side, EraseKey(o.side, Tree(st, o.symbol, o.side), o)))
  {
    var t := Tree(st, o.symbol, o.side);
    EraseKeyOk(o.side, t, o);
    SetTreeWithin(st, st.(orders := orders), o.symbol, o.side, EraseKey(o.side, t, o));
  }

  lemma FindMatchFixedUncrossed(st: State, cur: Order)
    requires Valid(st) && cur.volume >= 0 && NotCrossed(st)
    ensures NotCrossed(FindMatchFixed(st, cur).state)
  {
    var st' := st.(symbols := InsertSymbol(st.symbols, cur.symbol));
    assert forall s, sd :: Tree(st', s, sd) == Tree(st, s, sd);
    FixedNotCrossed(st', cur);
  }

  lemma AmendFixedUncrossed(st: State, id: int, price: int, volume: nat, ts: int)
    requires Valid(st) && NotCrossed(st)
    ensures NotCrossed(AmendFixed(st, id, price, volume, ts).state)
  {
    if id in st.orders && st.orders[id].Stored? {
      var o := st.orders[id].order;
      var t := Tree(st, o.symbol, o.side);
      var k := FindKey(t, o);
      if k.Some? {
        var cur := t[k.value];
        if volume <= cur.volume && cur.price == price {
          InPlaceUncrossed(st, id, k.value, volume);
        } else {
          RequeueUncrossed(st, id, o, cur, price, volume, ts);
        }
      }
    }
  }

  /** Erasing a resting order and matching it again keeps the book
      uncrossed. */
  lemma RequeueUncrossed(st: State, id: int, o: Order, cur: Order, price: int, volume: nat, ts: int)
    requires Valid(st) && NotCrossed(st) && cur.volume >= 0
    ensures TreeOk(o.side, EraseKey(o.side, Tree(st, o.symbol, o.side), cur))
    ensures NotCrossed(FindMatchFixed(SetTree(st.(orders := st.orders - {id}), o.symbol, o.side,
                                              EraseKey(o.side, Tree(st, o.symbol, o.side), cur)),
                                      cur.(volume := volume, price := price, timestamp := ts)).state)
  {
    var t := Tree(st, o.symbol, o.side);
    EraseKeyOk(o.side, t, cur);
    var st1 := SetTree(st.(orders := st.orders - {id}), o.symbol, o.side, EraseKey(o.side, t, cur));
    SetTreeWithin(st, st.(orders := st.orders - {id}), o.symbol, o.side, EraseKey(o.side, t, cur));
    WithinUncrossed(st, st1);
    FindMatchFixedUncrossed(st1, cur.(volume := volume, price := price, timestamp := ts));
  }

  /** Setting the volume of a resting order in place keeps the book
      uncrossed. */
  lemma InPlaceUncrossed(st: State, id: int, i: nat, volume: nat)
    requires Valid(st) && NotCrossed(st) && id in st.orders && st.orders[id].Stored?
    requires i < |Tree(st, st.orders[id].order.symbol, st.orders[id].order.side)|
    ensures var o := st.orders[id].order;
      var t := Tree(st, o.symbol, o.side);
      NotCrossed(SetTree(st.(orders := st.orders[id := Stored(o.(volume := volume))]), o.symbol, o.side, SetVolumeAt(o.side, t, i, volume)))
  {
    var o := st.orders[id].order;
    var t := Tree(st, o.symbol, o.side);
    var st1 := st.(orders := st.orders[id := Stored(o.(volume := volume))]);
    var t' := SetVolumeAt(o.side, t, i, volume);
    forall x | x in t' ensures HasPrice(t, x.price) {
      var j :| 0 <= j < |t'| && t'[j] == x;
      assert t[j] in t;
    }
    SetTreeWithin(st, st1, o.symbol, o.side, t');
    WithinUncrossed(st, SetTree(st1, o.symbol, o.side, t'));
  }

  /** Every corrected command keeps an uncrossed book uncrossed. */
  lemma StepFixedUncrossed(st: State, c: Command, ts: int)
    requires Valid(st) && NotCrossed(st)
    ensures NotCrossed(StepFixed(st, c, ts).state)
  {
    match c
    case Insert(id, symbol, side, price, volume) =>
      FindMatchFixedUncrossed(st, Order(id, symbol, side, price, volume, ts));
    case Amend(id, price, volume) =>
      AmendFixedUncrossed(st, id, price, volume, ts);
    case Pull(id) =>
      if id in st.orders && st.orders[id].Stored? {
        var o := st.orders[id].order;
        EraseWithin(st, st.orders - {id}, o);
        WithinUncrossed(st, PullAsWritten(st, id).value);
      }
    case Other =>
  }

  // ---------------------------------------------------------------- the registry

  /** The registry agrees with the trees: each registered id names an order
      resting under that id in its own side's tree of its symbol, and each
      resting order is registered as itself. */
  ghost predicate Registered(st: State)
  {
    && (forall id | id in st.orders :: Listed(st, id))
    && (forall s, sd, o | o in Tree(st, s, sd) :: Filed(st, s, sd, o))
  }

  /** The entry of `id` is a copy of an order with that id which rests in
      its own side's tree of its symbol. */
  ghost predicate Listed(st: State, id: int)
  {
    id in st.orders && st.orders[id].Stored? && st.orders[id].order.id == id
    && st.orders[id].order in Tree(st, st.orders[id].order.symbol, st.orders[id].order.side)
  }

  /** `o`, resting in the `sd` tree of `s`, belongs there and is registered
      as itself. */
  ghost predicate Filed(st: State, s: string, sd: Side, o: Order)
  {
    o.symbol == s && o.side == sd && o.id in st.orders && st.orders[o.id] == Stored(o)
  }

  /** The first command of the runs below rests a bid of `v` at 10. */
  lemma OneBid(cs: seq<Command>, v: nat)
    requires cs == [Insert(1, "A", Buy, 10, v), Insert(2, "A", Sell, 10, 2)]
    ensures var st1 := Rest(Empty().(symbols := ["A"]), Order(1, "A", Buy, 10, v, 0));
      && Tree(st1, "A", Buy) == [Order(1, "A", Buy, 10, v, 0)] && Tree(st1, "A", Sell) == []
      && st1.orders == map[1 := Stored(Order(1, "A", Buy, 10, v, 0))] && st1.symbols == ["A"]
      && RunUpTo(Empty(), cs, 1) == Defined(Outcome(st1, []))
  {
    var o1 := Order(1, "A", Buy, 10, v, 0);
    var st0 := Empty().(symbols := ["A"]);
    assert InsertSymbol([], "A") == ["A"];
    assert Opp(st0, o1) == [];
    var st1 := Rest(st0, o1);
    assert Upsert(Buy, [], o1) == [o1];
    assert Step(Empty(), cs[0], 0) == Defined(Outcome(st1, []));
    assert RunUpTo(Empty(), cs, 0) == Defined(Outcome(Empty(), []));
    var none: seq<Trade> := [];
    assert none + none == none;
  }

  /** The two commands of the runs below: a bid of `v` at 10 rests, and an
      ask of 2 at 10 then fills it. */
  lemma BidThenAsk(cs: seq<Command>, v: nat)
    requires cs == [Insert(1, "A", Buy, 10, v), Insert(2, "A", Sell, 10, 2)] && v >= 2
    ensures var st1 := Rest(Empty().(symbols := ["A"]), Order(1, "A", Buy, 10, v, 0));
      && Tree(st1, "A", Buy) == [Order(1, "A", Buy, 10, v, 0)] && Tree(st1, "A", Sell) == []
      && st1.orders == map[1 := Stored(Order(1, "A", Buy, 10, v, 0))]
      && RunUpTo(Empty(), cs, 2) == Defined(Outcome(Traded(st1, Order(2, "A", Sell, 10, 2, 1), 2), [Trade("A", 10, 2, 2, 1)]))
  {
    OneBid(cs, v);
    var o2 := Order(2, "A", Sell, 10, 2, 1);
    var st1 := Rest(Empty().(symbols := ["A"]), Order(1, "A", Buy, 10, v, 0));
    assert InsertSymbol(["A"], "A") == ["A"];
    assert st1.(symbols := ["A"]) == st1;
    var t := Trade("A", 10, 2, 2, 1);
    assert Match(st1, o2) == Outcome(Traded(st1, o2, 2), [t]);
    RunUpToNext(cs, 1, st1, []);
    var none: seq<Trade> := [];
    assert none + [t] == [t];
  }

  /** As written, a fill writes the passive order's remaining volume into
      the INCOMING order's registry entry. A bid of 5 at 10, then an ask of 2
      at 10: the bid rests with 3 but stays registered with 5, and the used-up
      ask is registered as a default-constructed entry with volume 3, so that
      a PULL of it is undefined. */
  lemma FillMisfilesVolume()
    ensures var cs := [Insert(1, "A", Buy, 10, 5), Insert(2, "A", Sell, 10, 2)];
      var r := RunUpTo(Empty(), cs, 2);
      && r.Defined?
      && r.value.trades == [Trade("A", 10, 2, 2, 1)]
      && Tree(r.value.state, "A", Buy) == [Order(1, "A", Buy, 10, 3, 0)]
      && r.value.state.orders == map[1 := Stored(Order(1, "A", Buy, 10, 5, 0)), 2 := Blank(3)]
      && PullAsWritten(r.value.state, 2) == Undefined
      && !Registered(r.value.state)
  {
    var cs := [Insert(1, "A", Buy, 10, 5), Insert(2, "A", Sell, 10, 2)];
    BidThenAsk(cs, 5);
    var o1 := Order(1, "A", Buy, 10, 5, 0);
    var st1 := Rest(Empty().(symbols := ["A"]), o1);
    var st2 := Traded(st1, Order(2, "A", Sell, 10, 2, 1), 2);
    assert Tree(st2, "A", Buy) == [o1.(volume := 3)];
    assert st2.orders == WriteVolume(st1.orders, 2, 3);
    assert o1.(volume := 3) in Tree(st2, "A", Buy);
  }

  /** As written, a passive order used up leaves its tree, but the id
      erased from the registry is the incoming one. A bid of 2 at 10, then an
      ask of 2 at 10: both trees are empty, the bid is still registered, and
      an AMEND of it is undefined. */
  lemma FillErasesIncomingId()
    ensures var cs := [Insert(1, "A", Buy, 10, 2), Insert(2, "A", Sell, 10, 2)];
      var r := RunUpTo(Empty(), cs, 2);
      && r.Defined?
      && r.value.trades == [Trade("A", 10, 2, 2, 1)]
      && Tree(r.value.state, "A", Buy) == [] && Tree(r.value.state, "A", Sell) == []
      && r.value.state.orders == map[1 := Stored(Order(1, "A", Buy, 10, 2, 0))]
      && AmendAsWritten(r.value.state, 1, 10, 1, 2) == Undefined
      && !Registered(r.value.state)
  {
    var cs := [Insert(1, "A", Buy, 10, 2), Insert(2, "A", Sell, 10, 2)];
    BidThenAsk(cs, 2);
    var o1 := Order(1, "A", Buy, 10, 2, 0);
    var o2 := Order(2, "A", Sell, 10, 2, 1);
    var st1 := Rest(Empty().(symbols := ["A"]), o1);
    var st2 := Traded(st1, o2, 2);
    assert Tree(st2, "A", Buy) == [];
    var w := WriteVolume(st1.orders, 2, 0);
    assert st2.orders == w - {2};
    assert (w - {2}).Keys == {1} && (w - {2})[1] == Stored(o1);
    assert 1 in st2.orders && !Listed(st2, 1);
  }

  /** Every tree other than the `side` tree of `symbol` is the same in `r`
      as in `st`. */
  ghost predicate OthersKept(st: State, r: State, symbol: string, side: Side)
  {
    forall s, sd | s != symbol || sd != side :: Tree(r, s, sd) == Tree(st, s, sd)
  }

  /** Erasing a registered order from the registry and from its tree keeps
      the two in step. */
  lemma ErasedRegistered(st: State, r: State, o: Order)
    requires Registered(st) && o.id in st.orders && st.orders[o.id] == Stored(o)
    requires r.orders == st.orders - {o.id}
    requires forall x :: x in Tree(r, o.symbol, o.side) <==> x in Tree(st, o.symbol, o.side) && x != o
    requires OthersKept(st, r, o.symbol, o.side)
    ensures Registered(r)
  {
    forall id | id in r.orders
      ensures Listed(r, id)
    {
      var e := st.orders[id].order;
      assert e in Tree(st, e.symbol, e.side) && e != o;
    }
    forall s, sd, x | x in Tree(r, s, sd)
      ensures Filed(r, s, sd, x)
    {
      assert x in Tree(st, s, sd) && x != o;
    }
  }

  /** Replacing a registered order by a copy with the same id, symbol and
      side, in the registry and in its tree alike, keeps the two in step. */
  lemma ReplacedRegistered(st: State, r: State, o: Order, n: Order)
    requires Registered(st) && o.id in st.orders && st.orders[o.id] == Stored(o)
    requires n.id == o.id && n.symbol == o.symbol && n.side == o.side
    requires r.orders == st.orders[o.id := Stored(n)]
    requires forall x :: x in Tree(r, o.symbol, o.side) <==> x == n || (x in Tree(st, o.symbol, o.side) && x != o)
    requires OthersKept(st, r, o.symbol, o.side)
    ensures Registered(r)
  {
    forall id | id in r.orders
      ensures Listed(r, id)
    {
      if id == o.id {
        assert r.orders[id] == Stored(n) && n in Tree(r, o.symbol, o.side);
      } else {
        var e := st.orders[id].order;
        assert r.orders[id] == st.orders[id] && e.id == id && e != o;
        assert e in Tree(st, e.symbol, e.side);
        if e.symbol == o.symbol && e.side == o.side {
          assert e in Tree(r, o.symbol, o.side);
        } else {
          assert Tree(r, e.symbol, e.side) == Tree(st, e.symbol, e.side);
        }
      }
    }
    forall s, sd, x | x in Tree(r, s, sd)
      ensures Filed(r, s, sd, x)
    {
      if x != n {
        assert x in Tree(st, s, sd) && x != o;
      }
    }
  }

  /** Storing an order under an id not registered, in the registry and in
      its tree alike, keeps the two in step. */
  lemma AddedRegistered(st: State, r: State, c: Order)
    requires Registered(st) && c.id !in st.orders
    requires r.orders == st.orders[c.id := Stored(c)]
    requires forall x :: x in Tree(r, c.symbol, c.side) <==> x == c || x in Tree(st, c.symbol, c.side)
    requires OthersKept(st, r, c.symbol, c.side)
    ensures Registered(r)
  {
    forall id | id in r.orders
      ensures Listed(r, id)
    {
      if id != c.id {
        var e := st.orders[id].order;
        assert e in Tree(st, e.symbol, e.side);
      }
    }
    forall s, sd, x | x in Tree(r, s, sd)
      ensures Filed(r, s, sd, x)
    {
      if x != c {
        assert x in Tree(st, s, sd);
      }
    }
  }

  /** The symbol list plays no part in the registry. */
  lemma RegisteredSymbols(st: State, symbols: seq<string>)
    requires Registered(st)
    ensures Registered(st.(symbols := symbols))
  {
    var r := st.(symbols := symbols);
    assert forall s, sd :: Tree(r, s, sd) == Tree(st, s, sd);
  }

  /** Two orders of a tree with the same key are the same order. */
  lemma KeyNamesOne(side: Side, t: seq<Order>, a: Order, b: Order)
    requires SortedTree(side, t) && a in t && b in t && SameKey(a, b)
    ensures a == b
  {
    var i :| 0 <= i < |t| && t[i] == a;
    var j :| 0 <= j < |t| && t[j] == b;
  }

  /** In a sorted tree erasing the key of one of its orders erases that
      order alone. */
  lemma EraseKeyDropsOne(side: Side, t: seq<Order>, o: Order)
    requires SortedTree(side, t) && o in t
    ensures forall x :: x in EraseKey(side, t, o) <==> x in t && x != o
  {
    forall x | x in t && SameKey(x, o) ensures x == o {
      KeyNamesOne(side, t, x, o);
    }
  }

  /** Setting the volume of the order at one place of a sorted tree replaces
      that order alone. */
  lemma SetVolumeReplacesOne(side: Side, t: seq<Order>, i: nat, v: nat)
    requires TreeOk(side, t) && i < |t|
    ensures forall x :: x in SetVolumeAt(side, t, i, v) <==> x == t[i].(volume := v) || (x in t && x != t[i])
  {
    var t' := SetVolumeAt(side, t, i, v);
    forall x | x in t && x != t[i] ensures x in t' {
      var j :| 0 <= j < |t| && t[j] == x;
      assert t'[j] == x;
    }
    forall x | x in t' && x != t[i].(volume := v) ensures x in t && x != t[i] {
      var j :| 0 <= j < |t'| && t'[j] == x;
      assert j != i && t[j] == x;
      if i < j {
        assert OrderBefore(side, t[i], t[j]);
      } else {
        assert OrderBefore(side, t[j], t[i]);
      }
    }
  }

  /** Replacing one tree frames every other tree. */
  lemma SetTreeOthers(st: State, st0: State, symbol: string, side: Side, t: seq<Order>)
    requires Valid(st0) && TreeOk(side, t) && st0.books == st.books
    ensures OthersKept(st, SetTree(st0, symbol, side, t), symbol, side)
  {
    forall s, sd | s != symbol || sd != side
      ensures Tree(SetTree(st0, symbol, side, t), s, sd) == Tree(st, s, sd)
    {
      if s == symbol {
        assert sd == Opposite(side);
      }
    }
  }

  /** Storing an order under an id not registered and a key its tree does
      not hold registers it and keeps the registry in step. */
  lemma RestRegistered(st: State, c: Order)
    requires Valid(st) && c.volume >= 0 && Registered(st)
    requires c.id !in st.orders && forall x | x in Tree(st, c.symbol, c.side) :: !SameKey(x, c)
    ensures Registered(Rest(st, c))
  {
    var r := Rest(st, c);
    forall s, sd | s != c.symbol || sd != c.side ensures Tree(r, s, sd) == Tree(st, s, sd) {
      if s == c.symbol {
        assert sd == Opposite(c.side);
      }
    }
    AddedRegistered(st, r, c);
  }

  /** The front of a sorted tree is not among the rest. */
  lemma FrontOnce(side: Side, t: seq<Order>)
    requires SortedTree(side, t) && t != []
    ensures forall x | x in t :: x in t[1..] <==> x != t[0]
  {
    TreeHeadBeforeRest(side, t);
    forall x | x in t ensures x in t[1..] <==> x != t[0] {
      var k :| 0 <= k < |t| && t[k] == x;
      if k > 0 {
        assert t[1..][k - 1] == x;
      }
    }
  }

  /** A fill changes the opposite tree of the incoming order alone. */
  lemma FilledOthers(st: State, cur: Order, q: int)
    requires Valid(st) && Opp(st, cur) != [] && 0 <= q <= Opp(st, cur)[0].volume
    ensures OthersKept(st, Filled(st, cur, q), cur.symbol, Opposite(cur.side))
  {
    var r := Filled(st, cur, q);
    forall s, sd | s != cur.symbol || sd != Opposite(cur.side) ensures Tree(r, s, sd) == Tree(st, s, sd) {
      if s == cur.symbol {
        assert sd == cur.side;
      }
    }
  }

  /** The corrected fill keeps the registry in step with the trees and
      registers no new id: a used-up passive order is erased from both, and
      a partly filled one has its volume set in both. */
  lemma FilledRegistered(st: State, cur: Order, q: int)
    requires Valid(st) && Opp(st, cur) != [] && 0 <= q <= Opp(st, cur)[0].volume
    requires Registered(st)
    ensures Registered(Filled(st, cur, q))
    ensures Filled(st, cur, q).orders.Keys <= st.orders.Keys
  {
    var r := Filled(st, cur, q);
    var opp := Opp(st, cur);
    var side := Opposite(cur.side);
    var pm := opp[0];
    assert pm in Tree(st, cur.symbol, side);
    assert pm.symbol == cur.symbol && pm.side == side;
    FrontOnce(side, opp);
    FilledOthers(st, cur, q);
    if pm.volume == q {
      ErasedRegistered(st, r, pm);
    } else {
      ReplacedRegistered(st, r, pm, pm.(volume := pm.volume - q));
    }
  }

  /** The corrected findMatch keeps the registry in step with the trees for
      an incoming order whose id is not registered and whose key its tree
      does not hold: a passive order used up leaves the registry, one partly
      filled is registered with its remaining volume, and the incoming order
      is registered only when it rests. */
  lemma {:induction false} MatchFixedRegistered(st: State, cur: Order)
    requires Valid(st) && cur.volume >= 0 && Registered(st)
    requires cur.id !in st.orders && forall x | x in Tree(st, cur.symbol, cur.side) :: !SameKey(x, cur)
    ensures Registered(MatchFixed(st, cur).state)
    decreases cur.volume, |Opp(st, cur)|
  {
    var opp := Opp(st, cur);
    if opp == [] || !Crosses(cur.side, cur.price, opp[0].price) {
      RestRegistered(st, cur);
    } else {
      var q := Min(opp[0].volume, cur.volume);
      var next := cur.(volume := cur.volume - q);
      var st2 := Filled(st, cur, q);
      FilledRegistered(st, cur, q);
      if next.volume != 0 {
        assert Tree(st2, next.symbol, next.side) == Tree(st, cur.symbol, cur.side);
        MatchFixedRegistered(st2, next);
        assert MatchFixed(st, cur).state == MatchFixed(st2, next).state;
      } else {
        assert MatchFixed(st, cur).state == st2;
      }
    }
  }

  /** Erasing the registered order `o` by its key, from its tree and the
      registry, as PULL and a re-queuing AMEND do, keeps the two in step. */
  lemma EraseRegistered(st: State, o: Order)
    requires Valid(st) && Registered(st) && o.id in st.orders && st.orders[o.id] == Stored(o)
    ensures TreeOk(o.side, EraseKey(o.side, Tree(st, o.symbol, o.side), o))
    ensures Registered(SetTree(st.(orders := st.orders - {o.id}), o.symbol, o.side,
      EraseKey(o.side, Tree(st, o.symbol, o.side), o)))
  {
    var t := Tree(st, o.symbol, o.side);
    assert o in t;
    EraseKeyOk(o.side, t, o);
    EraseKeyDropsOne(o.side, t, o);
    var r := SetTree(st.(orders := st.orders - {o.id}), o.symbol, o.side, EraseKey(o.side, t, o));
    SetTreeOthers(st, st.(orders := st.orders - {o.id}), o.symbol, o.side, EraseKey(o.side, t, o));
    ErasedRegistered(st, r, o);
  }

  /** An AMEND in place sets the volume of a registered order in its tree
      and its registry entry alike, keeping the two in step. */
  lemma InPlaceRegistered(st: State, o: Order, i: nat, volume: nat)
    requires Valid(st) && Registered(st) && o.id in st.orders && st.orders[o.id] == Stored(o)
    requires i < |Tree(st, o.symbol, o.side)| && Tree(st, o.symbol, o.side)[i] == o
    ensures Registered(SetTree(st.(orders := st.orders[o.id := Stored(o.(volume := volume))]),
      o.symbol, o.side, SetVolumeAt(o.side, Tree(st, o.symbol, o.side), i, volume)))
  {
    var t := Tree(st, o.symbol, o.side);
    assert o in t;
    var st0 := st.(orders := st.orders[o.id := Stored(o.(volume := volume))]);
    SetVolumeReplacesOne(o.side, t, i, volume);
    SetTreeOthers(st, st0, o.symbol, o.side, SetVolumeAt(o.side, t, i, volume));
    ReplacedRegistered(st, SetTree(st0, o.symbol, o.side, SetVolumeAt(o.side, t, i, volume)), o, o.(volume := volume));
  }

  /** A re-queuing AMEND erases a registered order and matches it again,
      with its new price and volume and the command's timestamp, keeping
      the registry in step when every resting order is older than the
      command. */
  lemma RequeueRegistered(st: State, o: Order, price: int, volume: nat, ts: int)
    requires Valid(st) && Registered(st) && o.id in st.orders && st.orders[o.id] == Stored(o)
    requires StampedBefore(st, ts)
    ensures TreeOk(o.side, EraseKey(o.side, Tree(st, o.symbol, o.side), o))
    ensures Registered(FindMatchFixed(
      SetTree(st.(orders := st.orders - {o.id}), o.symbol, o.side, EraseKey(o.side, Tree(st, o.symbol, o.side), o)),
      o.(volume := volume, price := price, timestamp := ts)).state)
  {
    var t := Tree(st, o.symbol, o.side);
    EraseRegistered(st, o);
    EraseKeyDropsOne(o.side, t, o);
    var st1 := SetTree(st.(orders := st.orders - {o.id}), o.symbol, o.side, EraseKey(o.side, t, o));
    var n := o.(volume := volume, price := price, timestamp := ts);
    var st2 := st1.(symbols := InsertSymbol(st1.symbols, o.symbol));
    RegisteredSymbols(st1, st2.symbols);
    StampedTree(st, o.symbol, o.side, ts);
    assert Tree(st2, n.symbol, n.side) == EraseKey(o.side, t, o);
    forall x | x in Tree(st2, n.symbol, n.side) ensures !SameKey(x, n) {
      var k :| 0 <= k < |t| && t[k] == x;
    }
    assert n.id !in st2.orders;
    MatchFixedRegistered(st2, n);
  }

  /** The corrected AMEND keeps the registry in step with the trees when
      every resting order is older than the command. */
  lemma AmendFixedRegistered(st: State, id: int, price: int, volume: nat, ts: int)
    requires Valid(st) && Registered(st) && StampedBefore(st, ts)
    ensures Registered(AmendFixed(st, id, price, volume, ts).state)
  {
    if id in st.orders && st.orders[id].Stored? {
      var o := st.orders[id].order;
      var t := Tree(st, o.symbol, o.side);
      assert o in t;
      match FindKey(t, o)
      case None =>
      case Some(i) =>
        assert t[i] in t;
        KeyNamesOne(o.side, t, t[i], o);
        if volume <= t[i].volume && t[i].price == price {
          InPlaceRegistered(st, o, i, volume);
        } else {
          RequeueRegistered(st, o, price, volume, ts);
        }
    }
  }

  /** Every corrected command keeps the registry in step with the trees,
      given what run provides: an INSERT names an id no live order has, and
      every resting order is older than the command. */
  lemma StepFixedRegistered(st: State, c: Command, ts: int)
    requires Valid(st) && Registered(st) && StampedBefore(st, ts)
    requires c.Insert? ==> c.id !in st.orders
    ensures Registered(StepFixed(st, c, ts).state)
  {
    match c
    case Insert(id, symbol, side, price, volume) =>
      var o := Order(id, symbol, side, price, volume, ts);
      var st1 := st.(symbols := InsertSymbol(st.symbols, symbol));
      RegisteredSymbols(st, st1.symbols);
      StampedTree(st, symbol, side, ts);
      forall x | x in Tree(st1, symbol, side) ensures !SameKey(x, o) {
        var k :| 0 <= k < |Tree(st, symbol, side)| && Tree(st, symbol, side)[k] == x;
      }
      MatchFixedRegistered(st1, o);
    case Amend(id, price, volume) =>
      AmendFixedRegistered(st, id, price, volume, ts);
    case Pull(id) =>
      if id in st.orders && st.orders[id].Stored? {
        EraseRegistered(st, st.orders[id].order);
      }
    case Other =>
  }

  // ---------------------------------------------------------------- the snapshot

  /** A snapshot block shows the trees of its symbol: one of them is not
      empty, and the rows pair the bid volumes summed per price, best first,
      with the ask volumes summed per price, best first. */
  predicate Shows(st: State, blk: Block)
  {
    && (Tree(st, blk.symbol, Buy) != [] || Tree(st, blk.symbol, Sell) != [])
    && PairedRows(blk.rows, Aggregate(Buy, Tree(st, blk.symbol, Buy)), Aggregate(Sell, Tree(st, blk.symbol, Sell)))
  }

  /** The snapshot loop of run: for each symbol in lexicographic order whose
      trees are not both empty, a header and the paired rows. */
  method Report(st: State) returns (blocks: seq<Block>)
    requires Valid(st)
    ensures forall j | 0 <= j < |blocks| :: blocks[j].symbol in st.symbols && Shows(st, blocks[j])
    ensures forall s | s in st.symbols && (Tree(st, s, Buy) != [] || Tree(st, s, Sell) != []) :: s in SymbolsOf(blocks)
    ensures SortedSymbols(SymbolsOf(blocks))
  {
    blocks := [];
    var symbols := st.symbols;
    for i := 0 to |symbols|
      invariant forall j | 0 <= j < |blocks| :: blocks[j].symbol in symbols[..i] && Shows(st, blocks[j])
      invariant forall s | s in symbols[..i] && (Tree(st, s, Buy) != [] || Tree(st, s, Sell) != []) :: s in SymbolsOf(blocks)
      invariant SortedSymbols(SymbolsOf(blocks))
    {
      var s := symbols[i];
      var shown, blk := SymbolBlock(st, s);
      if shown {
        ghost var taken := SymbolsOf(blocks);
        AppendInOrder(symbols, i, taken);
        blocks := blocks + [blk];
        assert SymbolsOf(blocks) == taken + [s];
      }
      assert symbols[..i + 1] == symbols[..i] + [s];
    }
    assert symbols[..|symbols|] == symbols;
  }

  /** One symbol of the snapshot loop: its block, when either tree holds an
      order. */
  method SymbolBlock(st: State, s: string) returns (shown: bool, blk: Block)
    requires Valid(st)
    ensures shown <==> Tree(st, s, Buy) != [] || Tree(st, s, Sell) != []
    ensures shown ==> blk.symbol == s && Shows(st, blk)
  {
    var buys := Tree(st, s, Buy);
    var sells := Tree(st, s, Sell);
    shown := buys != [] || sells != [];
    blk := Block(s, []);
    if shown {
      var bids := AggregateByPrice(Buy, buys);
      var asks := AggregateByPrice(Sell, sells);
      var rows := PairRows(bids, asks);
      blk := Block(s, rows);
    }
  }

  /** run: the commands, then the snapshot; Undefined when a command is. */
  method Run(cs: seq<Command>) returns (r: Behaviour<(seq<Trade>, seq<Block>)>)
    ensures RunUpTo(Empty(), cs, |cs|).Undefined? <==> r.Undefined?
    ensures r.Defined? ==>
      var final := RunUpTo(Empty(), cs, |cs|).value;
      && r.value.0 == final.trades
      && (forall j | 0 <= j < |r.value.1| :: r.value.1[j].symbol in final.state.symbols && Shows(final.state, r.value.1[j]))
      && (forall s | s in final.state.symbols && (Tree(final.state, s, Buy) != [] || Tree(final.state, s, Sell) != []) :: s in SymbolsOf(r.value.1))
      && SortedSymbols(SymbolsOf(r.value.1))
  {
    var m := RunCommands(cs);
    if m.Undefined? {
      return Undefined;
    }
    var blocks := Report(m.value.state);
    return Defined((m.value.trades, blocks));
  }
}
