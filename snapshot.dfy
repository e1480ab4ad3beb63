/** The end-of-run report shared by the three engines: per-price aggregation
    of a side (the `map<float, int>` loops of first_version and basicversio)
    and the lock-step walk that pairs bid levels with ask levels. */
module Snapshot {
  import opened Market
  import opened Sorted

  predicate SortedQuotes(side: Side, qs: seq<Quote>)
  {
    forall i, j | 0 <= i < j < |qs| :: PriceBefore(side, qs[i].price, qs[j].price)
  }

  function Prices(qs: seq<Quote>): (r: seq<int>)
    ensures |r| == |qs| && forall i | 0 <= i < |qs| :: r[i] == qs[i].price
  {
    if qs == [] then [] else [qs[0].price] + Prices(qs[1..])
  }

  /** The volume a quote list shows at price `p` (0 when `p` is not listed). */
  function VolumeOf(qs: seq<Quote>, p: int): int
  {
    if qs == [] then 0 else (if qs[0].price == p then qs[0].volume else 0) + VolumeOf(qs[1..], p)
  }

  /** Total resting volume of the orders of `t` priced `p`. */
  function VolumeAt(t: seq<Order>, p: int): int
  {
    if t == [] then 0
    else VolumeAt(t[..|t| - 1], p) + (if t[|t| - 1].price == p then t[|t| - 1].volume else 0)
  }

  /** `level[p] += v` on an ordered map<price, volume>. */
  function AddVolume(side: Side, qs: seq<Quote>, p: int, v: int): (r: seq<Quote>)
    requires SortedQuotes(side, qs)
    ensures SortedQuotes(side, r)
    ensures forall x :: x in Prices(r) <==> x in Prices(qs) || x == p
    ensures forall x :: VolumeOf(r, x) == VolumeOf(qs, x) + (if x == p then v else 0)
  {
    if qs == [] then [Quote(p, v)]
    else if qs[0].price == p then
      NotListedAfterHead(side, qs);
      [Quote(p, qs[0].volume + v)] + qs[1..]
    else if PriceBefore(side, p, qs[0].price) then
      [Quote(p, v)] + qs
    else
      assert forall x | x in Prices(qs[1..]) :: PriceBefore(side, qs[0].price, x) by {
        forall x | x in Prices(qs[1..]) ensures PriceBefore(side, qs[0].price, x) {
          var k :| 0 <= k < |qs[1..]| && Prices(qs[1..])[k] == x;
          assert qs[k + 1].price == x;
        }
      }
      var r' := AddVolume(side, qs[1..], p, v);
      assert forall k | 0 <= k < |r'| :: r'[k].price in Prices(r') by {
        forall k | 0 <= k < |r'| ensures r'[k].price in Prices(r') {
          assert Prices(r')[k] == r'[k].price;
        }
      }
      [qs[0]] + r'
  }

  /** In a sorted quote list a price appears once: beyond the head, the head's
      price contributes nothing. */
  lemma NotListedAfterHead(side: Side, qs: seq<Quote>)
    requires SortedQuotes(side, qs) && qs != []
    ensures VolumeOf(qs[1..], qs[0].price) == 0
  {
    NotListed(side, qs[1..], qs[0].price);
  }

  lemma {:induction false} NotListed(side: Side, qs: seq<Quote>, p: int)
    requires SortedQuotes(side, qs)
    requires forall i | 0 <= i < |qs| :: PriceBefore(side, p, qs[i].price)
    ensures VolumeOf(qs, p) == 0
  {
    if qs != [] { NotListed(side, qs[1..], p); }
  }

  /** A listed quote carries the whole volume shown at its price. */
  lemma {:induction false} QuoteVolume(side: Side, qs: seq<Quote>, k: nat)
    requires SortedQuotes(side, qs) && k < |qs|
    ensures qs[k].volume == VolumeOf(qs, qs[k].price)
  {
    if k == 0 {
      NotListedAfterHead(side, qs);
    } else {
      QuoteVolume(side, qs[1..], k - 1);
      assert PriceBefore(side, qs[0].price, qs[k].price);
    }
  }

  /** The per-price totals of a side, accumulated order by order (the spec of
      the aggregation loop). */
  function Aggregate(side: Side, t: seq<Order>): (r: seq<Quote>)
    ensures SortedQuotes(side, r)
  {
    if t == [] then []
    else AddVolume(side, Aggregate(side, t[..|t| - 1]), t[|t| - 1].price, t[|t| - 1].volume)
  }

  /** Every price of the side is listed once, with the total resting volume
      of the orders at that price, in the side's price order. */
  lemma {:induction false} AggregateSpec(side: Side, t: seq<Order>)
    ensures forall x :: VolumeOf(Aggregate(side, t), x) == VolumeAt(t, x)
    ensures forall x :: x in Prices(Aggregate(side, t)) <==> exists i | 0 <= i < |t| :: t[i].price == x
  {
    if t != [] {
      var t' := t[..|t| - 1];
      AggregateSpec(side, t');
      forall x ensures x in Prices(Aggregate(side, t)) <==> exists i | 0 <= i < |t| :: t[i].price == x {
        if exists i | 0 <= i < |t'| :: t'[i].price == x {
          var i :| 0 <= i < |t'| && t'[i].price == x;
          assert t[i].price == x;
        }
        if exists i | 0 <= i < |t| :: t[i].price == x {
          var i :| 0 <= i < |t| && t[i].price == x;
          if i < |t'| { assert t'[i].price == x; }
        }
      }
    }
  }

  /** The aggregation loop (`for (it ...) side[it->price] += it->volume`). */
  method AggregateByPrice(side: Side, t: seq<Order>) returns (qs: seq<Quote>)
    ensures qs == Aggregate(side, t)
    ensures SortedQuotes(side, qs)
    ensures forall k | 0 <= k < |qs| :: qs[k].volume == VolumeAt(t, qs[k].price)
    ensures forall i | 0 <= i < |t| :: t[i].price in Prices(qs)
  {
    qs := [];
    var i := 0;
    while i < |t|
      invariant 0 <= i <= |t|
      invariant qs == Aggregate(side, t[..i])
    {
      assert t[..i + 1][..i] == t[..i];
      qs := AddVolume(side, qs, t[i].price, t[i].volume);
      i := i + 1;
    }
    assert t[..i] == t;
    AggregateSpec(side, t);
    forall k | 0 <= k < |qs| ensures qs[k].volume == VolumeAt(t, qs[k].price) {
      QuoteVolume(side, qs, k);
    }
  }

  function Max(a: nat, b: nat): nat
  {
    if a >= b then a else b
  }

  /** Row k pairs the k-th best bid level with the k-th best ask level; a
      side that has run out leaves its fields empty. */
  predicate PairedRows(rows: seq<Row>, bids: seq<Quote>, asks: seq<Quote>)
  {
    && |rows| == Max(|bids|, |asks|)
    && forall k | 0 <= k < |rows| ::
         rows[k].bid == (if k < |bids| then Some(bids[k]) else None) &&
         rows[k].ask == (if k < |asks| then Some(asks[k]) else None)
  }

  /** The snapshot rows of one symbol, by the lock-step walk over both sides. */
  method PairRows(bids: seq<Quote>, asks: seq<Quote>) returns (rows: seq<Row>)
    ensures PairedRows(rows, bids, asks)
  {
    var i, j := 0, 0;
    rows := [];
    while i < |bids| || j < |asks|
      invariant 0 <= i <= |bids| && 0 <= j <= |asks|
      invariant i == j || (i > j && j == |asks|) || (j > i && i == |bids|)
      invariant |rows| == Max(i, j)
      invariant forall k | 0 <= k < |rows| ::
        rows[k].bid == (if k < |bids| then Some(bids[k]) else None) &&
        rows[k].ask == (if k < |asks| then Some(asks[k]) else None)
      decreases |bids| - i + |asks| - j
    {
      if i < |bids| && j < |asks| {
        rows := rows + [Row(Some(bids[i]), Some(asks[j]))];
        i, j := i + 1, j + 1;
      } else if i < |bids| {
        rows := rows + [Row(Some(bids[i]), None)];
        i := i + 1;
      } else {
        rows := rows + [Row(None, Some(asks[j]))];
        j := j + 1;
      }
    }
  }

  /** The symbols of a snapshot, block by block. */
  function SymbolsOf(blocks: seq<Block>): (r: seq<string>)
    ensures |r| == |blocks|
    ensures forall j | 0 <= j < |r| :: r[j] == blocks[j].symbol
  {
    seq(|blocks|, j requires 0 <= j < |blocks| => blocks[j].symbol)
  }

  /** Symbols taken in order from a sorted list stay sorted. */
  lemma AppendInOrder(syms: seq<string>, i: int, taken: seq<string>)
    requires SortedSymbols(syms) && 0 <= i < |syms|
    requires SortedSymbols(taken) && forall x | x in taken :: x in syms[..i]
    ensures SortedSymbols(taken + [syms[i]])
  {
    forall j | 0 <= j < |taken|
      ensures LexLess(taken[j], syms[i])
    {
      assert taken[j] in syms[..i];
      var m :| 0 <= m < i && syms[m] == taken[j];
    }
  }
}
