/** What the operations of optimized.cpp guarantee, proved about the model
    in OptimizedBook: the trades matchOrder reports, volume conservation,
    price-time priority, the uncrossed book, and the AMEND and PULL rules. */
module OptimizedLaws {
  import opened Market
  import opened Sorted
  import opened OptimizedBook

  /** The ids of a level, oldest first; [] where no level exists. */
  function QueueAt(b: Book, k: LevelKey): seq<int>
  {
    if k in b.levels then b.levels[k].queue else []
  }

  predicate IsSuffix(a: seq<int>, b: seq<int>)
  {
    |a| <= |b| && a == b[|b| - |a|..]
  }

  // ------------------------------------------------------------ helpers on steps

  lemma FillOrders(b: Book, pid: int, q: int)
    requires Valid(b) && pid in b.orders && 0 <= q <= b.orders[pid].volume
    ensures var r := Fill(b, pid, q);
      && (q < b.orders[pid].volume ==> r.orders == b.orders[pid := b.orders[pid].(volume := b.orders[pid].volume - q)])
      && (q == b.orders[pid].volume ==> r.orders == b.orders - {pid})
  {
    assert OrderOk(b, pid);
    var b1 := Decrement(b, pid, q);
    if q == b.orders[pid].volume {
      assert b1.orders - {pid} == b.orders - {pid};
    }
  }

  /** A fill only removes prices; the price sets and symbols stay sorted. */
  lemma FillPrices(b: Book, pid: int, q: int)
    requires Valid(b) && pid in b.orders && 0 <= q <= b.orders[pid].volume
    ensures forall sd, sy, x | x in PriceSet(Fill(b, pid, q), sd, sy) :: x in PriceSet(b, sd, sy)
  {
    assert OrderOk(b, pid);
    var b1 := Decrement(b, pid, q);
    DecrementValid(b, pid, q);
    assert forall sd, sy :: PriceSet(b1, sd, sy) == PriceSet(b, sd, sy);
    if b1.orders[pid].volume == 0 {
      assert OrderOk(b1, pid);
      RemoveOrderPrices(b1, b1.orders[pid]);
    }
  }

  /** removeOrder unlinks the order from its own level and leaves every
      other level as it was. */
  lemma RemoveOrderQueues(b: Book, o: Order)
    requires Valid(b) && o.id in b.orders && b.orders[o.id] == o
    ensures forall k :: QueueAt(RemoveOrder(b, o), k) == Remove(QueueAt(b, k), o.id)
  {
    assert OrderOk(b, o.id);
    RemoveOrderPrices(b, o);
    var b' := RemoveOrder(b, o);
    forall k ensures QueueAt(b', k) == Remove(QueueAt(b, k), o.id) {
      if k == KeyOf(o) {
        var q := b.levels[k].queue;
        if q == [o.id] {
          assert Remove(q, o.id) == [] + Remove([], o.id);
        }
      } else if k in b.levels {
        if o.id in b.levels[k].queue {
          InLevel(b, k, o.id);
        }
        RemoveAbsent(b.levels[k].queue, o.id);
      }
    }
  }

  /** addOrder links the order at the newest end of its own level. */
  lemma AddOrderQueues(b: Book, o: Order)
    requires Valid(b)
    ensures forall k :: QueueAt(AddOrder(b, o), k) == if k == KeyOf(o) then QueueAt(b, k) + [o.id] else QueueAt(b, k)
  {
  }

  /** A fill of the oldest order of a level consumes that level from the
      front: every level afterwards is a suffix of what it was. */
  lemma FillQueues(b: Book, pid: int, q: int)
    requires Valid(b) && pid in b.orders && 0 <= q <= b.orders[pid].volume
    requires QueueAt(b, KeyOf(b.orders[pid])) != [] && QueueAt(b, KeyOf(b.orders[pid]))[0] == pid
    ensures forall k :: IsSuffix(QueueAt(Fill(b, pid, q), k), QueueAt(b, k))
  {
    assert OrderOk(b, pid);
    var b1 := Decrement(b, pid, q);
    DecrementValid(b, pid, q);
    assert forall k :: QueueAt(b1, k) == QueueAt(b, k);
    if b1.orders[pid].volume == 0 {
      assert OrderOk(b1, pid);
      RemoveOrderQueues(b1, b1.orders[pid]);
      forall k ensures IsSuffix(QueueAt(Fill(b, pid, q), k), QueueAt(b, k)) {
        var qk := QueueAt(b, k);
        if k == KeyOf(b.orders[pid]) {
          assert LevelOk(b, k);
          DistinctTail(qk);
          RemoveAbsent(qk[1..], pid);
          assert Remove(qk, pid) == qk[1..];
        } else if k in b.levels {
          assert LevelOk(b, k);
          if pid in qk { InLevel(b, k, pid); }
          RemoveAbsent(qk, pid);
        }
      }
    }
  }

  // ------------------------------------------------------------ matchOrder

  /** Every trade matchOrder reports names the incoming order as aggressor,
      is in its symbol, and is at a resting price its limit accepts. */
  lemma {:induction false} MatchTrades(b: Book, o: Order)
    requires Valid(b) && o.id !in b.orders && o.volume >= 0
    ensures TradesOf(Match(b, o).trades, o.id, o.symbol, o.side, o.price)
    decreases o.volume, |b.orders|
  {
    match BestOpposite(b, o)
    case None =>
    case Some(pid) =>
      var p := b.orders[pid];
      if Crosses(o.side, o.price, p.price) {
        var q := Min(p.volume, o.volume);
        assert OrderOk(b, pid);
        var o' := o.(volume := o.volume - q);
        var t := Trade(o.symbol, p.price, q, o.id, pid);
        assert TradesOf([t], o.id, o.symbol, o.side, o.price);
        if o'.volume != 0 {
          CardRemove(b.orders, pid);
          MatchTrades(Fill(b, pid, q), o');
          TradesOfCons(t, Match(Fill(b, pid, q), o').trades, o.id, o.symbol, o.side, o.price);
        }
      }
  }

  /** Volume is conserved: the incoming order's volume is what it traded
      plus what rests; it rests (under its own id, price, side and
      timestamp) exactly when it was not filled completely. */
  lemma {:induction false} MatchFills(b: Book, o: Order)
    requires Valid(b) && o.id !in b.orders && o.volume >= 0
    ensures FillsFrom(o, Match(b, o))
    decreases o.volume, |b.orders|
  {
    var best := BestOpposite(b, o);
    if best.None? || !Crosses(o.side, o.price, b.orders[best.value].price) {
      MatchHalts(b, o);
    } else {
      var pid := best.value;
      var p := b.orders[pid];
      var q := Min(p.volume, o.volume);
      var o' := o.(volume := o.volume - q);
      var t := Trade(o.symbol, p.price, q, o.id, pid);
      MatchRoundFill(b, o, pid, q);
      FillOrders(b, pid, q);
      if o'.volume == 0 {
        MatchRoundLast(b, o, pid, q, o', t);
        TradedVolumeCons(t, []);
      } else {
        MatchRoundMore(b, o, pid, q, o', t);
        assert OrderOk(b, pid);
        CardRemove(b.orders, pid);
        var r' := Match(Fill(b, pid, q), o');
        MatchFills(Fill(b, pid, q), o');
        TradedVolumeCons(t, r'.trades);
        assert FillsFrom(o, Outcome(r'.book, [t] + r'.trades));
      }
    }
  }

  /** The incoming order `o` traded `filled` in `r` and, exactly when that
      is short of its volume, rests with the rest of it. */
  predicate FillsFrom(o: Order, r: Outcome)
  {
    var filled := TradedVolume(r.trades);
    && 0 <= filled <= o.volume
    && (o.id in r.book.orders <==> filled < o.volume)
    && (o.id in r.book.orders ==> r.book.orders[o.id] == o.(volume := o.volume - filled))
  }

  /** Matching changes nothing of a resting order but its volume, which it
      only lowers; it never registers an order other than the incoming one. */
  lemma {:induction false} MatchOnlyFillsResting(b: Book, o: Order)
    requires Valid(b) && o.id !in b.orders && o.volume >= 0
    ensures var r := Match(b, o);
      forall id | id in r.book.orders && id != o.id ::
        id in b.orders && r.book.orders[id] == b.orders[id].(volume := r.book.orders[id].volume)
        && r.book.orders[id].volume <= b.orders[id].volume
    decreases o.volume, |b.orders|
  {
    match BestOpposite(b, o)
    case None =>
    case Some(pid) =>
      var p := b.orders[pid];
      if Crosses(o.side, o.price, p.price) {
        var q := Min(p.volume, o.volume);
        assert OrderOk(b, pid);
        var o' := o.(volume := o.volume - q);
        FillOrders(b, pid, q);
        if o'.volume != 0 {
          CardRemove(b.orders, pid);
          MatchOnlyFillsResting(Fill(b, pid, q), o');
        }
      }
  }

  /** Every trade of `ts` names an order of `orders` as passive. */
  predicate PassivesIn(ts: seq<Trade>, orders: map<int, Order>)
  {
    forall i | 0 <= i < |ts| :: ts[i].passive in orders
  }

  /** Every trade of a match names an order that rested before it. */
  lemma {:induction false} MatchPassives(b: Book, o: Order)
    requires Valid(b) && o.id !in b.orders && o.volume >= 0
    ensures PassivesIn(Match(b, o).trades, b.orders)
    decreases o.volume, |b.orders|
  {
    match BestOpposite(b, o)
    case None =>
    case Some(pid) =>
      var p := b.orders[pid];
      if Crosses(o.side, o.price, p.price) {
        var q := Min(p.volume, o.volume);
        assert OrderOk(b, pid);
        var o' := o.(volume := o.volume - q);
        FillOrders(b, pid, q);
        if o'.volume != 0 {
          CardRemove(b.orders, pid);
          var b' := Fill(b, pid, q);
          MatchPassives(b', o');
          var rest := Match(b', o').trades;
          var t := Trade(o.symbol, p.price, q, o.id, pid);
          assert Match(b, o).trades == [t] + rest;
          assert b'.orders.Keys <= b.orders.Keys;
          forall i | 1 <= i < |[t] + rest| ensures ([t] + rest)[i].passive in b.orders {
            assert ([t] + rest)[i] == rest[i - 1];
          }
        }
      }
  }

  /** Each order of `before` lost exactly the volume `ts` traded against
      it: what remains of it in `after`, or all of it when it is gone. */
  ghost predicate Accounted(before: map<int, Order>, after: map<int, Order>, ts: seq<Trade>)
  {
    forall id | id in before ::
      PassiveVolume(ts, id) == before[id].volume - (if id in after then after[id].volume else 0)
  }

  /** A fill of `t.volume` against `t.passive`, followed by trades that
      account for the rest, accounts for the whole. */
  lemma AccountRound(m0: map<int, Order>, m1: map<int, Order>, m2: map<int, Order>, t: Trade, rest: seq<Trade>)
    requires t.passive in m0 && 0 <= t.volume <= m0[t.passive].volume
    requires t.volume < m0[t.passive].volume ==>
      m1 == m0[t.passive := m0[t.passive].(volume := m0[t.passive].volume - t.volume)]
    requires t.volume == m0[t.passive].volume ==> m1 == m0 - {t.passive}
    requires Accounted(m1, m2, rest) && PassivesIn(rest, m1)
    requires t.passive !in m1 ==> t.passive !in m2
    ensures Accounted(m0, m2, [t] + rest)
  {
    forall id | id in m0
      ensures PassiveVolume([t] + rest, id) == m0[id].volume - (if id in m2 then m2[id].volume else 0)
    {
      PassiveVolumeCons(t, rest, id);
      if id !in m1 {
        PassiveVolumeAbsent(rest, id);
      }
    }
  }

  /** Each resting order loses exactly the volume traded against it: the
      trades that name it as passive add up to its drop, and an order that
      leaves the book was traded in full. */
  lemma {:induction false} MatchVolumeAccounts(b: Book, o: Order)
    requires Valid(b) && o.id !in b.orders && o.volume >= 0
    ensures Accounted(b.orders, Match(b, o).book.orders, Match(b, o).trades)
    decreases o.volume, |b.orders|
  {
    match BestOpposite(b, o)
    case None =>
    case Some(pid) =>
      var p := b.orders[pid];
      if Crosses(o.side, o.price, p.price) {
        var q := Min(p.volume, o.volume);
        assert OrderOk(b, pid);
        var o' := o.(volume := o.volume - q);
        var b' := Fill(b, pid, q);
        var t := Trade(o.symbol, p.price, q, o.id, pid);
        FillOrders(b, pid, q);
        if o'.volume != 0 {
          CardRemove(b.orders, pid);
          MatchVolumeAccounts(b', o');
          MatchOnlyFillsResting(b', o');
          MatchPassives(b', o');
          var r' := Match(b', o');
          assert Match(b, o) == Outcome(r'.book, [t] + r'.trades);
          AccountRound(b.orders, b'.orders, r'.book.orders, t, r'.trades);
        } else {
          assert Match(b, o) == Outcome(b', [t] + []);
          AccountRound(b.orders, b'.orders, b'.orders, t, []);
        }
      }
  }

  /** Under the book invariant that no resting order has volume 0, a
      positive incoming order reports only positive trades, and matching
      never leaves a volume-0 order resting. */
  lemma {:induction false} MatchPositive(b: Book, o: Order)
    requires Valid(b) && o.id !in b.orders && o.volume >= 0 && Positive(b)
    ensures Positive(Match(b, o).book)
    ensures o.volume > 0 ==> PositiveTrades(Match(b, o).trades)
    decreases o.volume, |b.orders|
  {
    var best := BestOpposite(b, o);
    if best.None? || !Crosses(o.side, o.price, b.orders[best.value].price) {
      MatchHalts(b, o);
    } else {
      var pid := best.value;
      var p := b.orders[pid];
      var q := Min(p.volume, o.volume);
      var o' := o.(volume := o.volume - q);
      var t := Trade(o.symbol, p.price, q, o.id, pid);
      MatchRoundFill(b, o, pid, q);
      FillOrders(b, pid, q);
      if o'.volume == 0 {
        MatchRoundLast(b, o, pid, q, o', t);
      } else {
        MatchRoundMore(b, o, pid, q, o', t);
        assert OrderOk(b, pid);
        CardRemove(b.orders, pid);
        MatchPositive(Fill(b, pid, q), o');
        PositiveTradesCons(t, Match(Fill(b, pid, q), o').trades);
      }
    }
  }

  /** Every trade of `ts` has a positive volume. */
  predicate PositiveTrades(ts: seq<Trade>)
  {
    forall i | 0 <= i < |ts| :: ts[i].volume > 0
  }

  lemma PositiveTradesCons(t: Trade, ts: seq<Trade>)
    requires t.volume > 0 && PositiveTrades(ts)
    ensures PositiveTrades([t] + ts)
  {
    forall i | 1 <= i < |[t] + ts| ensures ([t] + ts)[i] == ts[i - 1] {
    }
  }

  /** matchOrder stops only when nothing more can trade: if the incoming
      order rests, the opposite side of its symbol is empty or its best
      price does not cross the order's limit. */
  lemma {:induction false} MatchStopsWhenUncrossed(b: Book, o: Order)
    requires Valid(b) && o.id !in b.orders && o.volume >= 0
    ensures var r := Match(b, o);
      var ps := PriceSet(r.book, Opposite(o.side), o.symbol);
      o.id in r.book.orders ==> ps == [] || !Crosses(o.side, o.price, ps[0])
    decreases o.volume, |b.orders|
  {
    var best := BestOpposite(b, o);
    if best.None? || !Crosses(o.side, o.price, b.orders[best.value].price) {
      MatchHalts(b, o);
      RestOpposite(b, o);
    } else {
      var pid := best.value;
      var p := b.orders[pid];
      var q := Min(p.volume, o.volume);
      var o' := o.(volume := o.volume - q);
      var t := Trade(o.symbol, p.price, q, o.id, pid);
      MatchRoundFill(b, o, pid, q);
      if o'.volume == 0 {
        MatchRoundLast(b, o, pid, q, o', t);
      } else {
        MatchRoundMore(b, o, pid, q, o', t);
        assert OrderOk(b, pid);
        CardRemove(b.orders, pid);
        MatchStopsWhenUncrossed(Fill(b, pid, q), o');
      }
    }
  }

  /** Resting an order leaves the opposite side's prices as they were. */
  lemma RestOpposite(b: Book, o: Order)
    requires Valid(b)
    ensures PriceSet(Rest(b, o), Opposite(o.side), o.symbol) == PriceSet(b, Opposite(o.side), o.symbol)
  {
  }

  /** Time priority: matching consumes every level from its oldest order on,
      so each opposite level afterwards is a suffix of what it was. */
  lemma {:induction false} MatchConsumesOldestFirst(b: Book, o: Order)
    requires Valid(b) && o.id !in b.orders && o.volume >= 0
    ensures var r := Match(b, o);
      forall k: LevelKey | k.side != o.side :: IsSuffix(QueueAt(r.book, k), QueueAt(b, k))
    decreases o.volume, |b.orders|
  {
    var best := BestOpposite(b, o);
    if best.None? || !Crosses(o.side, o.price, b.orders[best.value].price) {
      MatchHalts(b, o);
      RestKeepsOpposite(b, o);
    } else {
      var pid := best.value;
      var p := b.orders[pid];
      var q := Min(p.volume, o.volume);
      var o' := o.(volume := o.volume - q);
      var t := Trade(o.symbol, p.price, q, o.id, pid);
      MatchRoundFill(b, o, pid, q);
      assert OrderOk(b, pid);
      FillQueues(b, pid, q);
      var b' := Fill(b, pid, q);
      if o'.volume == 0 {
        MatchRoundLast(b, o, pid, q, o', t);
      } else {
        MatchRoundMore(b, o, pid, q, o', t);
        CardRemove(b.orders, pid);
        MatchConsumesOldestFirst(b', o');
        var r := Match(b, o);
        forall k: LevelKey | k.side != o.side ensures IsSuffix(QueueAt(r.book, k), QueueAt(b, k)) {
          SuffixTransitive(QueueAt(r.book, k), QueueAt(b', k), QueueAt(b, k));
        }
      }
    }
  }

  /** Resting an order leaves every opposite-side level as it was. */
  lemma RestKeepsOpposite(b: Book, o: Order)
    requires Valid(b)
    ensures forall k: LevelKey | k.side != o.side :: IsSuffix(QueueAt(Rest(b, o), k), QueueAt(b, k))
  {
    forall k: LevelKey | k.side != o.side ensures IsSuffix(QueueAt(Rest(b, o), k), QueueAt(b, k)) {
      if o.volume != 0 {
        AddOrderQueues(b, o);
      }
      assert QueueAt(b, k)[|QueueAt(b, k)| - |QueueAt(b, k)|..] == QueueAt(b, k);
    }
  }

  lemma SuffixTransitive(a: seq<int>, b: seq<int>, c: seq<int>)
    requires IsSuffix(a, b) && IsSuffix(b, c)
    ensures IsSuffix(a, c)
  {
    assert c[|c| - |b|..][|b| - |a|..] == c[|c| - |a|..];
  }

  // ------------------------------------------------------------ uncrossed book

  /** Dropping prices never improves a side's best price, so a book that
      only loses prices stays uncrossed. */
  lemma ShrinkKeepsNotCrossed(b: Book, b': Book)
    requires PricesOk(b) && PricesOk(b') && NotCrossed(b)
    requires forall sd, sy, x | x in PriceSet(b', sd, sy) :: x in PriceSet(b, sd, sy)
    ensures NotCrossed(b')
  {
    forall sym | PriceSet(b', Buy, sym) != [] && PriceSet(b', Sell, sym) != []
      ensures PriceSet(b', Buy, sym)[0] < PriceSet(b', Sell, sym)[0]
    {
      FrontIsBest(Buy, PriceSet(b, Buy, sym), PriceSet(b', Buy, sym)[0]);
      FrontIsBest(Sell, PriceSet(b, Sell, sym), PriceSet(b', Sell, sym)[0]);
    }
  }

  /** Resting an order whose limit does not reach the opposite best price
      keeps the book uncrossed. */
  lemma RestKeepsNotCrossed(b: Book, o: Order)
    requires Valid(b) && NotCrossed(b)
    requires var ps := PriceSet(b, Opposite(o.side), o.symbol);
      ps == [] || !Crosses(o.side, o.price, ps[0])
    ensures NotCrossed(Rest(b, o))
  {
    if o.volume != 0 {
      var b' := AddOrder(b, o);
      var s := PriceSet(b, o.side, o.symbol);
      forall sym | PriceSet(b', Buy, sym) != [] && PriceSet(b', Sell, sym) != []
        ensures PriceSet(b', Buy, sym)[0] < PriceSet(b', Sell, sym)[0]
      {
        var opp := Opposite(o.side);
        if sym == o.symbol {
          var a := PriceSet(b, opp, sym);
          assert PriceSet(b', opp, sym) == a;
          var f := PriceSet(b', o.side, sym)[0];
          assert f in s || f == o.price;
          if f in s {
            FrontIsBest(o.side, s, f);
            assert PriceSet(b, Buy, sym) != [] && PriceSet(b, Sell, sym) != [];
            assert PriceSet(b, Buy, sym)[0] < PriceSet(b, Sell, sym)[0];
          }
        } else {
          assert PriceSet(b', Buy, sym) == PriceSet(b, Buy, sym);
          assert PriceSet(b', Sell, sym) == PriceSet(b, Sell, sym);
        }
      }
    }
  }

  lemma FillKeepsNotCrossed(b: Book, pid: int, q: int)
    requires Valid(b) && pid in b.orders && 0 <= q <= b.orders[pid].volume && NotCrossed(b)
    ensures NotCrossed(Fill(b, pid, q))
  {
    FillPrices(b, pid, q);
    ShrinkKeepsNotCrossed(b, Fill(b, pid, q));
  }

  /** matchOrder keeps every symbol's best bid below its best ask. */
  lemma {:induction false} MatchNotCrossed(b: Book, o: Order)
    requires Valid(b) && o.id !in b.orders && o.volume >= 0 && NotCrossed(b)
    ensures NotCrossed(Match(b, o).book)
    decreases o.volume, |b.orders|
  {
    var best := BestOpposite(b, o);
    if best.None? || !Crosses(o.side, o.price, b.orders[best.value].price) {
      MatchHalts(b, o);
      RestKeepsNotCrossed(b, o);
    } else {
      var pid := best.value;
      var p := b.orders[pid];
      var q := Min(p.volume, o.volume);
      var o' := o.(volume := o.volume - q);
      var t := Trade(o.symbol, p.price, q, o.id, pid);
      MatchRoundFill(b, o, pid, q);
      FillKeepsNotCrossed(b, pid, q);
      if o'.volume == 0 {
        MatchRoundLast(b, o, pid, q, o', t);
      } else {
        MatchRoundMore(b, o, pid, q, o', t);
        assert OrderOk(b, pid);
        CardRemove(b.orders, pid);
        MatchNotCrossed(Fill(b, pid, q), o');
      }
    }
  }


  // ------------------------------------------------------------ price priority

  /** The first trade of a match is against the oldest order of the best
      opposite level, at that level's price, for the smaller of the two
      volumes. */
  lemma MatchFirstPrice(b: Book, o: Order)
    requires Valid(b) && o.id !in b.orders && o.volume >= 0
    ensures var r := Match(b, o);
      var ps := PriceSet(b, Opposite(o.side), o.symbol);
      r.trades != [] ==>
        && ps != [] && r.trades[0].price == ps[0]
        && BestOpposite(b, o).Some? && r.trades[0].passive == BestOpposite(b, o).value
        && r.trades[0].volume == Min(b.orders[BestOpposite(b, o).value].volume, o.volume)
  {
    match BestOpposite(b, o)
    case None =>
    case Some(pid) =>
      assert OrderOk(b, pid);
  }

  /** Price priority: a match walks the opposite side from its best price
      outward, never trading at a better price after a worse one. */
  lemma {:induction false} MatchPricePriority(b: Book, o: Order)
    requires Valid(b) && o.id !in b.orders && o.volume >= 0
    ensures Outward(Opposite(o.side), Match(b, o).trades)
    decreases o.volume, |b.orders|
  {
    var best := BestOpposite(b, o);
    if best.None? || !Crosses(o.side, o.price, b.orders[best.value].price) {
      MatchHalts(b, o);
    } else {
      var pid := best.value;
      var p := b.orders[pid];
      var q := Min(p.volume, o.volume);
      var o' := o.(volume := o.volume - q);
      var t := Trade(o.symbol, p.price, q, o.id, pid);
      MatchRoundFill(b, o, pid, q);
      if o'.volume == 0 {
        MatchRoundLast(b, o, pid, q, o', t);
      } else {
        MatchRoundMore(b, o, pid, q, o', t);
        assert OrderOk(b, pid);
        CardRemove(b.orders, pid);
        MatchPricePriority(Fill(b, pid, q), o');
        PriorityRound(b, o, pid, q, o', t);
      }
    }
  }

  /** The step of MatchPricePriority: the trade against `pid` is at a price
      no worse than any later trade of the remainder's match. */
  lemma PriorityRound(b: Book, o: Order, pid: int, q: int, o': Order, t: Trade)
    requires Valid(b) && o.id !in b.orders && o.volume >= 0
    requires BestOpposite(b, o) == Some(pid) && Crosses(o.side, o.price, b.orders[pid].price)
    requires q == Min(b.orders[pid].volume, o.volume) && o' == o.(volume := o.volume - q)
    requires t == Trade(o.symbol, b.orders[pid].price, q, o.id, pid)
    requires 0 <= q <= b.orders[pid].volume
    requires o'.volume != 0 && o'.id !in Fill(b, pid, q).orders
    requires Outward(Opposite(o.side), Match(Fill(b, pid, q), o').trades)
    ensures Outward(Opposite(o.side), [t] + Match(Fill(b, pid, q), o').trades)
  {
    assert OrderOk(b, pid);
    var b' := Fill(b, pid, q);
    var side := Opposite(o.side);
    var rest := Match(b', o').trades;
    MatchFirstPrice(b', o');
    if rest != [] {
      FillPrices(b, pid, q);
      FrontIsBest(side, PriceSet(b, side, o.symbol), PriceSet(b', side, o.symbol)[0]);
    }
    OutwardCons(side, t, rest);
  }

  // ------------------------------------------------------------ AMEND and PULL

  /** An AMEND that keeps the price and lowers the volume (to a positive
      value) updates the order in place: nothing trades, the order keeps its
      timestamp and its place in its level, and the level total drops by the
      difference. Keeping both price and volume changes nothing. */
  lemma AmendReduceKeepsPriority(b: Book, id: int, volume: nat)
    requires Valid(b) && id in b.orders && 0 < volume <= b.orders[id].volume
    ensures var cur := b.orders[id];
      var r := AmendOrderAsWritten(b, id, cur.price, volume);
      && r.trades == []
      && r.book.orders == b.orders[id := cur.(volume := volume)]
      && (forall k :: QueueAt(r.book, k) == QueueAt(b, k))
      && KeyOf(cur) in b.levels && KeyOf(cur) in r.book.levels
      && r.book.levels[KeyOf(cur)].totalVolume == b.levels[KeyOf(cur)].totalVolume - (cur.volume - volume)
  {
    assert OrderOk(b, id);
    if volume == b.orders[id].volume {
      assert b.orders[id := b.orders[id].(volume := volume)] == b.orders;
    }
  }

  /** Any other AMEND cancels the order and submits it again at the new
      price and volume: when it does not trade, it rests at the newest end of
      the level of its new price, behind every order already there, with
      its old id, symbol, side and timestamp; every other level only loses
      the order. */
  lemma AmendRequeueLosesPriority(b: Book, id: int, price: int, volume: nat)
    requires Valid(b) && id in b.orders && volume > 0
    requires price != b.orders[id].price || volume > b.orders[id].volume
    requires var ps := PriceSet(b, Opposite(b.orders[id].side), b.orders[id].symbol);
      ps == [] || !Crosses(b.orders[id].side, price, ps[0])
    ensures var cur := b.orders[id];
      var n := cur.(price := price, volume := volume);
      var r := AmendOrderAsWritten(b, id, price, volume);
      && r.trades == []
      && r.book.orders == b.orders[id := n]
      && forall k :: QueueAt(r.book, k) ==
           if k == KeyOf(n) then Remove(QueueAt(b, k), id) + [id] else Remove(QueueAt(b, k), id)
  {
    var cur := b.orders[id];
    assert OrderOk(b, id);
    var n := cur.(price := price, volume := volume);
    var b1 := RemoveOrder(b, cur);
    RemoveOrderValid(b, cur);
    RemoveOrderQueues(b, cur);
    RemoveOrderPrices(b, cur);
    var opp := Opposite(cur.side);
    assert PriceSet(b1, opp, cur.symbol) == PriceSet(b, opp, cur.symbol);
    assert Match(b1, n).book == Rest(b1, n) && Match(b1, n).trades == [] by {
      match BestOpposite(b1, n)
      case None =>
      case Some(pid) =>
        assert b1.orders[pid].price == PriceSet(b1, opp, cur.symbol)[0];
    }
    AddOrderQueues(b1, n);
  }

  /** As written, an AMEND to volume 0 at an unchanged price leaves the
      order resting with volume 0, against the book invariant that no
      resting order has volume 0. */
  lemma AmendToZeroAsWritten(b: Book, id: int)
    requires Valid(b) && id in b.orders && b.orders[id].volume > 0
    ensures var r := AmendOrderAsWritten(b, id, b.orders[id].price, 0);
      id in r.book.orders && r.book.orders[id].volume == 0 && !Positive(r.book)
  {
  }

  /** With the in-place branch limited to positive volumes, AMEND keeps every
      resting volume positive, and an AMEND to volume 0 cancels the order. */
  lemma AmendKeepsPositive(b: Book, id: int, price: int, volume: nat)
    requires Valid(b) && Positive(b) && id in b.orders
    ensures Positive(AmendOrder(b, id, price, volume).book)
    ensures volume == 0 ==> id !in AmendOrder(b, id, price, volume).book.orders
  {
    var cur := b.orders[id];
    assert OrderOk(b, id);
    if !(cur.volume == volume && cur.price == price) && !(cur.volume > volume > 0 && cur.price == price) {
      RemoveOrderValid(b, cur);
      var b1 := RemoveOrder(b, cur);
      var n := cur.(volume := volume, price := price);
      MatchPositive(b1, n);
      MatchFills(b1, n);
    }
  }

  /** PULL of a registered order removes it from the registry and unlinks it
      from its level, leaving every other order and level as it was; PULL of
      an unknown id changes nothing, so a second PULL of the same id is a
      no-op. */
  lemma PullRemoves(b: Book, id: int)
    requires Valid(b)
    ensures var r := PullOrder(b, id);
      && r.orders == b.orders - {id}
      && (forall k :: QueueAt(r, k) == Remove(QueueAt(b, k), id))
      && PullOrder(r, id) == r
  {
    if id in b.orders {
      assert OrderOk(b, id);
      RemoveOrderQueues(b, b.orders[id]);
    } else {
      forall k ensures QueueAt(b, k) == Remove(QueueAt(b, k), id) {
        if k in b.levels {
          assert LevelOk(b, k);
          if id in QueueAt(b, k) { InLevel(b, k, id); }
          RemoveAbsent(QueueAt(b, k), id);
        }
      }
    }
  }

  // ------------------------------------------------------------ run

  /** Every resting order arrived before command index `ts`. */
  ghost predicate StampedBefore(b: Book, ts: int)
  {
    forall id | id in b.orders :: b.orders[id].timestamp < ts
  }

  lemma RemoveKeepsInvariants(b: Book, o: Order)
    requires Valid(b) && o.id in b.orders && b.orders[o.id] == o
    requires NotCrossed(b)
    ensures NotCrossed(RemoveOrder(b, o))
    ensures Positive(b) ==> Positive(RemoveOrder(b, o))
  {
    assert OrderOk(b, o.id);
    RemoveOrderValid(b, o);
    RemoveOrderPrices(b, o);
    ShrinkKeepsNotCrossed(b, RemoveOrder(b, o));
  }

  /** An AMEND to volume 0: the one command whose written form can rest a
      volume-0 order. */
  predicate AmendsToZero(c: Command)
  {
    c.Amend? && c.volume == 0
  }

  /** One command keeps the book's invariants: no symbol's best bid reaches
      its best ask, and every resting order carries the index of an earlier
      command as its timestamp; an inserted order that rests carries its own
      command index. Every resting volume stays positive unless the command
      is an AMEND to volume 0. */
  lemma StepKeepsInvariants(b: Book, c: Command, ts: int)
    requires Valid(b) && NotCrossed(b) && StampedBefore(b, ts)
    ensures var r := Step(b, c, ts);
      && NotCrossed(r.book) && StampedBefore(r.book, ts + 1)
      && (Positive(b) && !AmendsToZero(c) ==> Positive(r.book))
      && (c.Insert? && c.id !in b.orders && c.id in r.book.orders ==> r.book.orders[c.id].timestamp == ts)
  {
    match c
    case Insert(id, symbol, side, price, volume) =>
      if id !in b.orders {
        MatchKeepsInvariants(b, Order(id, symbol, side, price, volume, ts), ts);
      }
    case Amend(id, price, volume) =>
      if id in b.orders {
        AmendKeepsInvariants(b, id, price, volume, ts);
      }
    case Pull(id) =>
      if id in b.orders {
        assert OrderOk(b, id);
        RemoveKeepsInvariants(b, b.orders[id]);
      }
    case Other =>
  }

  /** A run of the commands as written, from an uncrossed book stamped
      before the first command, keeps the book uncrossed and every resting
      order stamped with an earlier command's index; resting volumes stay
      positive unless some command is an AMEND to volume 0. */
  lemma RunKeepsInvariants(b: Book, cs: seq<Command>, n: nat)
    requires Valid(b) && NotCrossed(b) && StampedBefore(b, 0) && n <= |cs|
    ensures var r := RunUpTo(b, cs, n);
      && NotCrossed(r.book) && StampedBefore(r.book, n)
      && (Positive(b) && (forall c | c in cs :: !AmendsToZero(c)) ==> Positive(r.book))
  {
    var cur := b;
    for i := 0 to n
      invariant Valid(cur) && cur == RunUpTo(b, cs, i).book
      invariant NotCrossed(cur) && StampedBefore(cur, i)
      invariant Positive(b) && (forall c | c in cs :: !AmendsToZero(c)) ==> Positive(cur)
    {
      StepKeepsInvariants(cur, cs[i], i);
      assert cs[i] in cs;
      cur := Step(cur, cs[i], i).book;
    }
  }

  /** Every corrected command keeps all three invariants, an AMEND to volume
      0 included. */
  lemma StepFixedKeepsInvariants(b: Book, c: Command, ts: int)
    requires Valid(b) && Positive(b) && NotCrossed(b) && StampedBefore(b, ts)
    ensures var r := StepFixed(b, c, ts);
      Positive(r.book) && NotCrossed(r.book) && StampedBefore(r.book, ts + 1)
  {
    if c.Amend? {
      if c.id in b.orders {
        AmendFixedKeepsInvariants(b, c.id, c.price, c.volume, ts);
      }
    } else {
      StepKeepsInvariants(b, c, ts);
    }
  }

  /** A run of corrected commands from a book that satisfies the invariants,
      stamped before the first command, keeps every resting volume positive
      and the book uncrossed. */
  lemma RunFixedKeepsInvariants(b: Book, cs: seq<Command>, n: nat)
    requires Valid(b) && Positive(b) && NotCrossed(b) && StampedBefore(b, 0) && n <= |cs|
    ensures var r := RunFixedUpTo(b, cs, n);
      Positive(r.book) && NotCrossed(r.book) && StampedBefore(r.book, n)
  {
    var cur := b;
    for i := 0 to n
      invariant Valid(cur) && cur == RunFixedUpTo(b, cs, i).book
      invariant Positive(cur) && NotCrossed(cur) && StampedBefore(cur, i)
    {
      StepFixedKeepsInvariants(cur, cs[i], i);
      cur := StepFixed(cur, cs[i], i).book;
    }
  }

  /** Matching an order stamped before `ts + 1` keeps the invariants. */
  lemma MatchKeepsInvariants(b: Book, o: Order, ts: int)
    requires Valid(b) && NotCrossed(b) && StampedBefore(b, ts)
    requires o.id !in b.orders && o.volume >= 0 && o.timestamp <= ts
    ensures var r := Match(b, o);
      && NotCrossed(r.book) && StampedBefore(r.book, ts + 1)
      && (Positive(b) ==> Positive(r.book))
      && (o.id in r.book.orders ==> r.book.orders[o.id].timestamp == o.timestamp)
  {
    if Positive(b) {
      MatchPositive(b, o);
    }
    MatchNotCrossed(b, o);
    MatchFills(b, o);
    MatchOnlyFillsResting(b, o);
  }

  /** The written and corrected AMEND differ only for a volume of 0. */
  lemma AmendAgreesAboveZero(b: Book, id: int, price: int, volume: nat)
    requires Valid(b) && id in b.orders && volume > 0
    ensures AmendOrderAsWritten(b, id, price, volume) == AmendOrder(b, id, price, volume)
  {
  }

  /** An AMEND of a registered order, as written, keeps the book uncrossed
      and its timestamps ordered, and keeps volumes positive when the new
      volume is. */
  lemma AmendKeepsInvariants(b: Book, id: int, price: int, volume: nat, ts: int)
    requires Valid(b) && NotCrossed(b) && StampedBefore(b, ts)
    requires id in b.orders
    ensures var r := AmendOrderAsWritten(b, id, price, volume);
      && NotCrossed(r.book) && StampedBefore(r.book, ts + 1)
      && (Positive(b) && volume > 0 ==> Positive(r.book))
  {
    var cur := b.orders[id];
    assert OrderOk(b, id);
    if Positive(b) && volume > 0 {
      AmendKeepsPositive(b, id, price, volume);
    }
    if !(cur.volume == volume && cur.price == price) && !(cur.volume > volume && cur.price == price) {
      RemoveOrderValid(b, cur);
      RemoveKeepsInvariants(b, cur);
      var b1 := RemoveOrder(b, cur);
      MatchKeepsInvariants(b1, cur.(volume := volume, price := price), ts);
    } else if cur.volume > volume && cur.price == price {
      var r := AmendOrderAsWritten(b, id, price, volume);
      assert forall sd, sy :: PriceSet(r.book, sd, sy) == PriceSet(b, sd, sy);
    }
  }

  /** The corrected AMEND of a registered order keeps all three invariants. */
  lemma AmendFixedKeepsInvariants(b: Book, id: int, price: int, volume: nat, ts: int)
    requires Valid(b) && Positive(b) && NotCrossed(b) && StampedBefore(b, ts)
    requires id in b.orders
    ensures var r := AmendOrder(b, id, price, volume);
      Positive(r.book) && NotCrossed(r.book) && StampedBefore(r.book, ts + 1)
  {
    var cur := b.orders[id];
    assert OrderOk(b, id);
    AmendKeepsPositive(b, id, price, volume);
    if !(cur.volume == volume && cur.price == price) && !(cur.volume > volume > 0 && cur.price == price) {
      RemoveOrderValid(b, cur);
      RemoveKeepsInvariants(b, cur);
      var b1 := RemoveOrder(b, cur);
      MatchKeepsInvariants(b1, cur.(volume := volume, price := price), ts);
    } else if cur.volume > volume > 0 && cur.price == price {
      var r := AmendOrder(b, id, price, volume);
      assert forall sd, sy :: PriceSet(r.book, sd, sy) == PriceSet(b, sd, sy);
    }
  }
}
