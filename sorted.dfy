/** The ordered containers the engines use, as strictly sorted sequences:
    - a price set (std::set<float> / std::set<float, greater<float>>),
    - an order tree keyed by (price, timestamp) (first_version's maps and
      basicversio's std::set<StockOrder, customComparator>),
    - the symbol set std::set<string>, in lexicographic order. */
module Sorted {
  import opened Market

  // ---------------------------------------------------------------- price sets

  predicate SortedPrices(side: Side, s: seq<int>)
  {
    forall i, j | 0 <= i < j < |s| :: PriceBefore(side, s[i], s[j])
  }

  /** set::insert: adds `p` at its sorted place; a present price is kept once. */
  function InsertPrice(side: Side, s: seq<int>, p: int): (r: seq<int>)
    requires SortedPrices(side, s)
    ensures SortedPrices(side, r)
    ensures forall x :: x in r <==> x in s || x == p
    ensures p in s ==> r == s
  {
    if |s| == 0 then [p]
    else if s[0] == p then s
    else if PriceBefore(side, p, s[0]) then [p] + s
    else
      HeadBeforeRest(side, s);
      [s[0]] + InsertPrice(side, s[1..], p)
  }

  /** set::erase(value) */
  function ErasePrice(side: Side, s: seq<int>, p: int): (r: seq<int>)
    requires SortedPrices(side, s)
    ensures SortedPrices(side, r)
    ensures forall x :: x in r <==> x in s && x != p
    ensures |s| > 0 && s[0] == p ==> r == s[1..]
  {
    if |s| == 0 then []
    else if s[0] == p then s[1..]
    else
      HeadBeforeRest(side, s);
      [s[0]] + ErasePrice(side, s[1..], p)
  }

  lemma HeadBeforeRest(side: Side, s: seq<int>)
    requires SortedPrices(side, s) && |s| > 0
    ensures forall x | x in s[1..] :: PriceBefore(side, s[0], x)
  {
    forall x | x in s[1..] ensures PriceBefore(side, s[0], x) {
      var k :| 0 <= k < |s[1..]| && s[1..][k] == x;
      assert s[k + 1] == x;
    }
  }

  /** begin() of a non-empty sorted price set is its best price. */
  lemma FrontIsBest(side: Side, s: seq<int>, x: int)
    requires SortedPrices(side, s) && x in s
    ensures x == s[0] || PriceBefore(side, s[0], x)
  {
  }

  // ---------------------------------------------------------------- order trees

  predicate SortedTree(side: Side, t: seq<Order>)
  {
    forall i, j | 0 <= i < j < |t| :: OrderBefore(side, t[i], t[j])
  }

  predicate HasKey(t: seq<Order>, o: Order)
  {
    exists i | 0 <= i < |t| :: SameKey(t[i], o)
  }

  /** map::operator[](key) = value: the order keyed (price, timestamp) is
      replaced or inserted at its sorted place. */
  function Upsert(side: Side, t: seq<Order>, o: Order): (r: seq<Order>)
    requires SortedTree(side, t)
    ensures SortedTree(side, r)
    ensures forall x :: x in r <==> x == o || (x in t && !SameKey(x, o))
  {
    if |t| == 0 then [o]
    else if SameKey(t[0], o) then [o] + t[1..]
    else if OrderBefore(side, o, t[0]) then [o] + t
    else
      TreeHeadBeforeRest(side, t);
      [t[0]] + Upsert(side, t[1..], o)
  }

  /** After map::operator[] assignment the front is the new order or the
      old front. */
  lemma UpsertFront(side: Side, t: seq<Order>, o: Order)
    requires SortedTree(side, t)
    ensures Upsert(side, t, o)[0] == o || (t != [] && Upsert(side, t, o)[0] == t[0])
  {
  }

  lemma TreeHeadBeforeRest(side: Side, t: seq<Order>)
    requires SortedTree(side, t) && |t| > 0
    ensures forall x | x in t[1..] :: OrderBefore(side, t[0], x)
  {
    forall x | x in t[1..] ensures OrderBefore(side, t[0], x) {
      var k :| 0 <= k < |t[1..]| && t[1..][k] == x;
      assert t[k + 1] == x;
    }
  }

  /** set::insert(value): inserted only if no element has the same key. */
  function InsertIfAbsent(side: Side, t: seq<Order>, o: Order): (r: seq<Order>)
    requires SortedTree(side, t)
    ensures SortedTree(side, r)
    ensures HasKey(t, o) ==> r == t
    ensures !HasKey(t, o) ==> forall x :: x in r <==> x == o || x in t
  {
    if |t| == 0 then [o]
    else if SameKey(t[0], o) then t
    else if OrderBefore(side, o, t[0]) then
      assert !HasKey(t, o) by {
        forall i | 0 <= i < |t| ensures !SameKey(t[i], o) {
          if i > 0 { assert OrderBefore(side, t[0], t[i]); }
        }
      }
      [o] + t
    else
      TreeHeadBeforeRest(side, t);
      var r' := InsertIfAbsent(side, t[1..], o);
      assert HasKey(t, o) <==> HasKey(t[1..], o) by {
        if HasKey(t, o) {
          var i :| 0 <= i < |t| && SameKey(t[i], o);
          assert SameKey(t[1..][i - 1], o);
        }
        if HasKey(t[1..], o) {
          var i :| 0 <= i < |t[1..]| && SameKey(t[1..][i], o);
          assert SameKey(t[i + 1], o);
        }
      }
      [t[0]] + r'
  }

  /** map::erase(key) / set::erase(value): drops the element with o's key. */
  function EraseKey(side: Side, t: seq<Order>, o: Order): (r: seq<Order>)
    requires SortedTree(side, t)
    ensures SortedTree(side, r)
    ensures forall x :: x in r <==> x in t && !SameKey(x, o)
    ensures |r| == if HasKey(t, o) then |t| - 1 else |t|
  {
    if |t| == 0 then []
    else
      TreeHeadBeforeRest(side, t);
      var r' := EraseKey(side, t[1..], o);
      assert HasKey(t, o) <==> SameKey(t[0], o) || HasKey(t[1..], o) by {
        if HasKey(t, o) {
          var i :| 0 <= i < |t| && SameKey(t[i], o);
          if i > 0 { assert SameKey(t[1..][i - 1], o); }
        }
        if HasKey(t[1..], o) {
          var i :| 0 <= i < |t[1..]| && SameKey(t[1..][i], o);
          assert SameKey(t[i + 1], o);
        }
      }
      if SameKey(t[0], o) then
        assert !HasKey(t[1..], o) by {
          forall i | 0 <= i < |t[1..]| ensures !SameKey(t[1..][i], o) {
            assert OrderBefore(side, t[0], t[i + 1]);
          }
        }
        r'
      else [t[0]] + r'
  }

  /** map::find / set::find by (price, timestamp) key: the position of the
      element with o's key, if any. */
  function FindKey(t: seq<Order>, o: Order): (r: Option<nat>)
    ensures r.Some? ==> r.value < |t| && SameKey(t[r.value], o)
    ensures r.None? <==> !HasKey(t, o)
  {
    if |t| == 0 then None
    else if SameKey(t[0], o) then Some(0)
    else
      var r' := FindKey(t[1..], o);
      assert HasKey(t, o) ==> HasKey(t[1..], o) by {
        if HasKey(t, o) {
          var i :| 0 <= i < |t| && SameKey(t[i], o);
          assert SameKey(t[1..][i - 1], o);
        }
      }
      if r'.None? then None else Some(r'.value + 1)
  }

  /** A tree is sorted by its side's order, holds orders of that side, and
      no negative volume. */
  predicate TreeOk(side: Side, t: seq<Order>)
  {
    SortedTree(side, t) && forall i | 0 <= i < |t| :: t[i].side == side && t[i].volume >= 0
  }

  lemma UpsertOk(side: Side, t: seq<Order>, o: Order)
    requires TreeOk(side, t) && o.side == side && o.volume >= 0
    ensures TreeOk(side, Upsert(side, t, o))
  {
    var r := Upsert(side, t, o);
    forall i | 0 <= i < |r| ensures r[i].side == side && r[i].volume >= 0 {
      assert r[i] in r;
    }
  }

  lemma InsertIfAbsentOk(side: Side, t: seq<Order>, o: Order)
    requires TreeOk(side, t) && o.side == side && o.volume >= 0
    ensures TreeOk(side, InsertIfAbsent(side, t, o))
  {
    var r := InsertIfAbsent(side, t, o);
    forall i | 0 <= i < |r| ensures r[i].side == side && r[i].volume >= 0 {
      assert r[i] in r;
    }
  }

  lemma EraseKeyOk(side: Side, t: seq<Order>, o: Order)
    requires TreeOk(side, t)
    ensures TreeOk(side, EraseKey(side, t, o))
  {
    var r := EraseKey(side, t, o);
    forall i | 0 <= i < |r| ensures r[i].side == side && r[i].volume >= 0 {
      assert r[i] in r;
    }
  }

  /** Erasing the front's key from a sorted tree drops the front alone. */
  lemma {:induction false} EraseFront(side: Side, t: seq<Order>)
    requires SortedTree(side, t) && t != []
    ensures EraseKey(side, t, t[0]) == t[1..]
  {
    var o := t[0];
    assert forall i | 1 <= i < |t| :: !SameKey(t[i], o) by {
      forall i | 1 <= i < |t| ensures !SameKey(t[i], o) {
        assert OrderBefore(side, t[0], t[i]);
      }
    }
    EraseAbsent(side, t[1..], o);
  }

  /** Erasing a key no element has changes nothing. */
  lemma {:induction false} EraseAbsent(side: Side, t: seq<Order>, o: Order)
    requires SortedTree(side, t)
    requires forall i | 0 <= i < |t| :: !SameKey(t[i], o)
    ensures EraseKey(side, t, o) == t
  {
    if t != [] {
      EraseAbsent(side, t[1..], o);
      assert [t[0]] + t[1..] == t;
    }
  }

  /** Inserting an order with the old front's key into the rest of a sorted
      tree puts it at the front. */
  lemma ReinsertFront(side: Side, t: seq<Order>, o: Order)
    requires SortedTree(side, t) && t != [] && SameKey(o, t[0])
    ensures InsertIfAbsent(side, t[1..], o) == [o] + t[1..]
  {
    if |t| > 1 {
      assert OrderBefore(side, t[0], t[1]);
    }
  }

  /** No element of `t` has o's key. */
  lemma KeyAbsent(t: seq<Order>, o: Order)
    requires forall x | x in t :: !SameKey(x, o)
    ensures !HasKey(t, o)
  {
    forall i | 0 <= i < |t| ensures !SameKey(t[i], o) {
      assert t[i] in t;
    }
  }

  // ---------------------------------------------------------------- symbols

  /** std::string operator<: lexicographic order on characters. */
  predicate LexLess(a: string, b: string)
  {
    if |a| == 0 then |b| > 0
    else if |b| == 0 then false
    else if a[0] != b[0] then a[0] < b[0]
    else LexLess(a[1..], b[1..])
  }

  lemma {:induction false} LexIrreflexive(a: string)
    ensures !LexLess(a, a)
  {
    if |a| > 0 { LexIrreflexive(a[1..]); }
  }

  lemma {:induction false} LexTransitive(a: string, b: string, c: string)
    requires LexLess(a, b) && LexLess(b, c)
    ensures LexLess(a, c)
  {
    if |a| > 0 && |b| > 0 && |c| > 0 && a[0] == b[0] && b[0] == c[0] {
      LexTransitive(a[1..], b[1..], c[1..]);
    }
  }

  lemma {:induction false} LexTotal(a: string, b: string)
    ensures a == b || LexLess(a, b) || LexLess(b, a)
  {
    if |a| > 0 && |b| > 0 && a[0] == b[0] {
      LexTotal(a[1..], b[1..]);
      if a[1..] == b[1..] {
        assert a == [a[0]] + a[1..] && b == [b[0]] + b[1..];
      }
    }
  }

  predicate SortedSymbols(s: seq<string>)
  {
    forall i, j | 0 <= i < j < |s| :: LexLess(s[i], s[j])
  }

  /** allSymbols.insert(symbol) */
  function InsertSymbol(s: seq<string>, x: string): (r: seq<string>)
    requires SortedSymbols(s)
    ensures SortedSymbols(r)
    ensures forall y :: y in r <==> y in s || y == x
  {
    if |s| == 0 then [x]
    else if s[0] == x then s
    else if LexLess(x, s[0]) then
      forall j | 0 <= j < |s| ensures LexLess(x, s[j]) {
        if j > 0 { LexTransitive(x, s[0], s[j]); }
      }
      [x] + s
    else
      LexTotal(x, s[0]);
      assert forall y | y in s[1..] :: LexLess(s[0], y) by {
        forall y | y in s[1..] ensures LexLess(s[0], y) {
          var k :| 0 <= k < |s[1..]| && s[1..][k] == y;
          assert s[k + 1] == y;
        }
      }
      [s[0]] + InsertSymbol(s[1..], x)
  }
}
