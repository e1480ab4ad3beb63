/** The two text helpers of the command reader: splitString, which turns a
    command line into fields, and the precision check of convertToFloat. */
module Text {
  import opened Market

  /** Characters std::istringstream's operator>> skips between words. */
  predicate IsSpace(c: char)
  {
    c == ' ' || c == '\t' || c == '\n' || c == '\U{0B}' || c == '\U{0C}' || c == '\r'
  }

  /** A field separator of a command line: a comma or white space. */
  predicate IsSeparator(c: char)
  {
    c == ',' || IsSpace(c)
  }

  /** The line after every ',' has become ' ' (splitString's first loop). */
  function CommasToSpaces(s: string): (r: string)
    ensures |r| == |s|
    ensures forall i | 0 <= i < |s| :: r[i] == (if s[i] == ',' then ' ' else s[i])
  {
    if s == [] then [] else [if s[0] == ',' then ' ' else s[0]] + CommasToSpaces(s[1..])
  }

  /** The words operator>> extracts from `rest` while the word `cur` is being read. */
  function WordsFrom(cur: string, rest: string): seq<string>
    decreases |rest|
  {
    if rest == [] then (if cur == [] then [] else [cur])
    else if IsSpace(rest[0]) then (if cur == [] then [] else [cur]) + WordsFrom([], rest[1..])
    else WordsFrom(cur + [rest[0]], rest[1..])
  }

  function Words(s: string): seq<string>
  {
    WordsFrom([], s)
  }

  /** The characters of `s` that are not white space, in order. */
  function NonSpace(s: string): string
  {
    if s == [] then [] else (if IsSpace(s[0]) then [] else [s[0]]) + NonSpace(s[1..])
  }

  function Concat(ws: seq<string>): string
  {
    if ws == [] then [] else ws[0] + Concat(ws[1..])
  }

  predicate IsWord(w: string)
  {
    w != [] && forall c | c in w :: !IsSpace(c)
  }

  lemma ConcatAppend(a: seq<string>, b: seq<string>)
    ensures Concat(a + b) == Concat(a) + Concat(b)
  {
    if a != [] {
      assert (a + b)[1..] == a[1..] + b;
      ConcatAppend(a[1..], b);
      calc {
        Concat(a + b);
        a[0] + Concat(a[1..] + b);
        a[0] + (Concat(a[1..]) + Concat(b));
        (a[0] + Concat(a[1..])) + Concat(b);
        Concat(a) + Concat(b);
      }
    } else {
      assert a + b == b;
    }
  }

  /** What operator>> promises: every extracted field is a non-empty run of
      non-space characters, and together they are exactly the non-space
      characters of the line, in order. */
  lemma {:induction false} WordsFromSpec(cur: string, rest: string)
    requires forall c | c in cur :: !IsSpace(c)
    ensures forall i | 0 <= i < |WordsFrom(cur, rest)| :: IsWord(WordsFrom(cur, rest)[i])
    ensures Concat(WordsFrom(cur, rest)) == cur + NonSpace(rest)
    decreases |rest|
  {
    if rest == [] {
    } else if IsSpace(rest[0]) {
      WordsFromSpec([], rest[1..]);
      var pre: seq<string> := if cur == [] then [] else [cur];
      ConcatAppend(pre, WordsFrom([], rest[1..]));
      assert Concat(pre) == cur;
    } else {
      WordsFromSpec(cur + [rest[0]], rest[1..]);
      assert (cur + [rest[0]]) + NonSpace(rest[1..]) == cur + NonSpace(rest);
    }
  }

  /** splitString (two loops, as in the source): commas become spaces, then
      the line is cut into white-space separated fields. */
  method SplitString(s: string) returns (fields: seq<string>)
    ensures fields == Words(CommasToSpaces(s))
    ensures forall i | 0 <= i < |fields| :: fields[i] != [] && forall c | c in fields[i] :: !IsSeparator(c)
    ensures Concat(fields) == NonSpace(CommasToSpaces(s))
  {
    var t := s;
    for i := 0 to |t|
      invariant |t| == |s|
      invariant forall j | 0 <= j < i :: t[j] == (if s[j] == ',' then ' ' else s[j])
      invariant forall j | i <= j < |s| :: t[j] == s[j]
    {
      if t[i] == ',' {
        t := t[i := ' '];
      }
    }
    assert t == CommasToSpaces(s);
    fields := [];
    var cur: string := [];
    var i := 0;
    while i < |t|
      invariant 0 <= i <= |t|
      invariant fields + WordsFrom(cur, t[i..]) == Words(t)
    {
      assert t[i..][1..] == t[i + 1..];
      if IsSpace(t[i]) {
        if cur != [] {
          fields := fields + [cur];
          cur := [];
        }
      } else {
        cur := cur + [t[i]];
      }
      i := i + 1;
    }
    assert t[i..] == [];
    if cur != [] {
      fields := fields + [cur];
    }
    assert fields == Words(t);
    WordsFromSpec([], t);
    forall k, c | 0 <= k < |fields| && c in fields[k] ensures !IsSeparator(c) {
      assert IsWord(fields[k]);
      InConcat(fields, k, c);
      InNonSpace(t, c);
    }
  }

  lemma {:induction false} InConcat(ws: seq<string>, k: nat, c: char)
    requires k < |ws| && c in ws[k]
    ensures c in Concat(ws)
  {
    if k > 0 { InConcat(ws[1..], k - 1, c); }
  }

  lemma {:induction false} InNonSpace(s: string, c: char)
    requires c in NonSpace(s)
    ensures c in s && !IsSpace(c)
  {
    if s != [] && c !in (if IsSpace(s[0]) then [] else [s[0]]) {
      InNonSpace(s[1..], c);
    }
  }

  /** Position of the first '.' in `s`, if any (std::string::find). */
  function FindDot(s: string): (r: Option<nat>)
    ensures r.Some? ==> r.value < |s| && s[r.value] == '.' && '.' !in s[..r.value]
    ensures r.None? ==> '.' !in s
  {
    if s == [] then None
    else if s[0] == '.' then Some(0)
    else match FindDot(s[1..])
      case None => None
      case Some(k) =>
        assert s[..k + 1] == [s[0]] + s[1..][..k];
        Some(k + 1)
  }

  /** convertToFloat's diagnostic: more than four digits after the first '.'
      (a price written without '.' never triggers it). */
  predicate TooManyDecimals(s: string)
  {
    match FindDot(s)
    case None => false
    case Some(d) => |s| - d - 1 > 4
  }

  lemma TooManyDecimalsMeaning(s: string)
    ensures TooManyDecimals(s) <==>
      exists d | 0 <= d < |s| :: s[d] == '.' && '.' !in s[..d] && |s| - d - 1 > 4
  {
    match FindDot(s)
    case None =>
    case Some(d) =>
      if exists e | 0 <= e < |s| :: s[e] == '.' && '.' !in s[..e] && |s| - e - 1 > 4 {
        var e :| 0 <= e < |s| && s[e] == '.' && '.' !in s[..e] && |s| - e - 1 > 4;
      }
  }
}
