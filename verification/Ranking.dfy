/** The two orderings the analyzer produces.

    The unique words are sorted alphabetically by the natural order of Java
    strings, which compares their UTF-16 code units one by one and puts a
    proper prefix first. The table's entries are sorted by count, largest
    first. The displayed ranking sorts a stream over the table's entries,
    which promises no order among equal counts, so the ranking promises
    only a permutation ordered by count.
 */
module Ranking {
  import opened Frequency

  // ---------------------------------------------------------------------------
  // Alphabetical order

  predicate IsHighSurrogate(u: int) {
    0xD800 <= u < 0xDC00
  }

  predicate IsLowSurrogate(u: int) {
    0xDC00 <= u < 0xE000
  }

  /** The UTF-16 code units a Java string stores for one character: the
      character itself below U+10000, otherwise its surrogate pair, a high
      surrogate followed by a low one. */
  function CodeUnits(c: char): (u: seq<int>)
    ensures |u| == (if c as int < 0x1_0000 then 1 else 2)
    ensures forall k :: 0 <= k < |u| ==> 0 <= u[k] < 0x1_0000
    ensures IsHighSurrogate(u[0]) <==> |u| == 2
    ensures |u| == 2 ==> IsLowSurrogate(u[1])
  {
    var v := c as int;
    if v < 0x1_0000 then [v]
    else [0xD800 + (v - 0x1_0000) / 0x400, 0xDC00 + (v - 0x1_0000) % 0x400]
  }

  /** A string as the sequence of its UTF-16 code units. */
  function Utf16(s: string): (u: seq<int>)
    ensures |u| >= |s|
    decreases |s|
  {
    if |s| == 0 then [] else CodeUnits(s[0]) + Utf16(s[1..])
  }

  /** The character a code value stands for, or U+FFFD when it stands for
      none. */
  function UnitChar(n: int): char {
    if 0 <= n < 0xD800 || 0xE000 <= n < 0x11_0000 then n as char else '\U{FFFD}'
  }

  /** Reading UTF-16 code units back as characters: a high surrogate
      followed by a low one is one character, any other unit stands alone. */
  function FromUtf16(u: seq<int>): string
    decreases |u|
  {
    if |u| == 0 then []
    else if |u| >= 2 && IsHighSurrogate(u[0]) && IsLowSurrogate(u[1]) then
      [UnitChar(0x1_0000 + (u[0] - 0xD800) * 0x400 + (u[1] - 0xDC00))] + FromUtf16(u[2..])
    else
      [UnitChar(u[0])] + FromUtf16(u[1..])
  }

  lemma CharRoundTrip(c: char, rest: seq<int>)
    ensures FromUtf16(CodeUnits(c) + rest) == [c] + FromUtf16(rest)
  {
    var u := CodeUnits(c) + rest;
    if c as int < 0x1_0000 {
      assert u[1..] == rest;
    } else {
      assert u[2..] == rest;
    }
  }

  /** The encoding loses nothing: decoding the code units of a string gives
      the string back, so different strings have different code units. */
  lemma {:induction false} Utf16RoundTrip(s: string)
    ensures FromUtf16(Utf16(s)) == s
    decreases |s|
  {
    if |s| > 0 {
      CharRoundTrip(s[0], Utf16(s[1..]));
      Utf16RoundTrip(s[1..]);
      assert s == [s[0]] + s[1..];
    }
  }

  lemma {:induction false} Utf16Append(x: string, y: string)
    ensures Utf16(x + y) == Utf16(x) + Utf16(y)
    decreases |x|
  {
    if |x| > 0 {
      assert (x + y)[1..] == x[1..] + y;
      Utf16Append(x[1..], y);
    } else {
      assert x + y == y;
    }
  }

  /** Lexicographic order on code units, a proper prefix first. */
  predicate UnitsBelow(u: seq<int>, v: seq<int>)
    decreases |u|
  {
    if |u| == 0 then |v| > 0
    else if |v| == 0 then false
    else if u[0] != v[0] then u[0] < v[0]
    else UnitsBelow(u[1..], v[1..])
  }

  lemma {:induction false} UnitsIrreflexive(u: seq<int>)
    ensures !UnitsBelow(u, u)
    decreases |u|
  {
    if |u| > 0 {
      UnitsIrreflexive(u[1..]);
    }
  }

  lemma {:induction false} UnitsAsymmetric(u: seq<int>, v: seq<int>)
    requires UnitsBelow(u, v)
    ensures !UnitsBelow(v, u)
    decreases |u|
  {
    if |u| > 0 && u[0] == v[0] {
      UnitsAsymmetric(u[1..], v[1..]);
    }
  }

  lemma {:induction false} UnitsTransitive(u: seq<int>, v: seq<int>, w: seq<int>)
    requires UnitsBelow(u, v) && UnitsBelow(v, w)
    ensures UnitsBelow(u, w)
    decreases |u|
  {
    if |u| > 0 && u[0] == v[0] && v[0] == w[0] {
      UnitsTransitive(u[1..], v[1..], w[1..]);
    }
  }

  lemma {:induction false} UnitsTotal(u: seq<int>, v: seq<int>)
    requires u != v
    ensures UnitsBelow(u, v) || UnitsBelow(v, u)
    decreases |u|
  {
    if |u| > 0 && |v| > 0 && u[0] == v[0] {
      assert u == [u[0]] + u[1..] && v == [v[0]] + v[1..];
      UnitsTotal(u[1..], v[1..]);
    }
  }

  lemma {:induction false} UnitsPrefixBelow(u: seq<int>, w: seq<int>)
    requires |w| > 0
    ensures UnitsBelow(u, u + w)
    decreases |u|
  {
    if |u| > 0 {
      assert (u + w)[1..] == u[1..] + w;
      UnitsPrefixBelow(u[1..], w);
    }
  }

  /** a sorts before b in the natural order of Java strings: the strings
      compared code unit by code unit, a proper prefix first. A character above U+FFFF counts as its
      surrogate pair, so it sorts before the characters U+E000 to U+FFFF
      although its scalar value is larger. */
  function Below(a: string, b: string): (r: bool)
    ensures r ==> a != b
    ensures |a| < |b| && a == b[..|a|] ==> r
    ensures |a| > 0 && |b| > 0 && a[0] != b[0] && a[0] as int < 0x1_0000 && b[0] as int < 0x1_0000 ==>
              (r <==> a[0] < b[0])
    ensures |a| > 0 && |b| > 0 && a[0] as int >= 0x1_0000 && 0xE000 <= b[0] as int < 0x1_0000 ==> r
  {
    UnitsIrreflexive(Utf16(a));
    if |a| < |b| && a == b[..|a|] then
      assert b == a + b[|a|..];
      Utf16Append(a, b[|a|..]);
      UnitsPrefixBelow(Utf16(a), Utf16(b[|a|..]));
      UnitsBelow(Utf16(a), Utf16(b))
    else
      UnitsBelow(Utf16(a), Utf16(b))
  }

  lemma BelowAsymmetric(a: string, b: string)
    requires Below(a, b)
    ensures !Below(b, a)
  {
    UnitsAsymmetric(Utf16(a), Utf16(b));
  }

  lemma BelowTransitive(a: string, b: string, c: string)
    requires Below(a, b) && Below(b, c)
    ensures Below(a, c)
  {
    UnitsTransitive(Utf16(a), Utf16(b), Utf16(c));
  }

  /** Any two different strings are ordered one way or the other, because
      different strings have different code units. */
  lemma BelowTotal(a: string, b: string)
    requires a != b
    ensures Below(a, b) || Below(b, a)
  {
    Utf16RoundTrip(a);
    Utf16RoundTrip(b);
    UnitsTotal(Utf16(a), Utf16(b));
  }

  predicate StrictlyAscending(ws: seq<string>) {
    forall i, j :: 0 <= i < j < |ws| ==> Below(ws[i], ws[j])
  }

  /** Inserting a new word into an alphabetical list at its place. */
  function InsertWord(ws: seq<string>, w: string): (r: seq<string>)
    requires StrictlyAscending(ws)
    requires w !in ws
    ensures StrictlyAscending(r)
    ensures multiset(r) == multiset(ws) + multiset{w}
  {
    if |ws| == 0 then [w]
    else if Below(w, ws[0]) then
      BelowFirstInserted(ws, w);
      [w] + ws
    else
      var tail := InsertWord(ws[1..], w);
      assert ws == [ws[0]] + ws[1..];
      BelowTotal(w, ws[0]);
      FirstBelowInserted(ws, w, tail);
      [ws[0]] + tail
  }

  lemma BelowFirstInserted(ws: seq<string>, w: string)
    requires StrictlyAscending(ws)
    requires |ws| > 0 && Below(w, ws[0])
    ensures StrictlyAscending([w] + ws)
  {
    var r := [w] + ws;
    forall i, j | 0 <= i < j < |r|
      ensures Below(r[i], r[j])
    {
      if i == 0 {
        if j > 1 {
          BelowTransitive(w, ws[0], ws[j - 1]);
        }
      } else {
        assert r[i] == ws[i - 1] && r[j] == ws[j - 1];
      }
    }
  }

  lemma FirstBelowInserted(ws: seq<string>, w: string, tail: seq<string>)
    requires StrictlyAscending(ws)
    requires |ws| > 0 && Below(ws[0], w)
    requires StrictlyAscending(tail)
    requires multiset(tail) == multiset(ws[1..]) + multiset{w}
    ensures StrictlyAscending([ws[0]] + tail)
  {
    var r := [ws[0]] + tail;
    forall i, j | 0 <= i < j < |r|
      ensures Below(r[i], r[j])
    {
      if i == 0 {
        var x := r[j];
        assert x == tail[j - 1];
        assert x in multiset(tail);
        if x != w {
          assert x in multiset(ws[1..]);
          var k :| 0 <= k < |ws[1..]| && ws[1..][k] == x;
          assert x == ws[k + 1];
        }
      } else {
        assert r[i] == tail[i - 1] && r[j] == tail[j - 1];
      }
    }
  }

  /** The unique words copied into a list and sorted alphabetically. */
  method SortWords(unique: set<string>) returns (words: seq<string>)
    ensures StrictlyAscending(words)
    ensures forall w :: w in words <==> w in unique
    ensures |words| == |unique|
  {
    words := [];
    var remaining := unique;
    while remaining != {}
      invariant remaining <= unique
      invariant StrictlyAscending(words)
      invariant forall w :: w in words <==> w in unique && w !in remaining
      invariant |words| + |remaining| == |unique|
      decreases |remaining|
    {
      var w :| w in remaining;
      var next := InsertWord(words, w);
      assert forall x :: x in next <==> x in multiset(next);
      words := next;
      remaining := remaining - {w};
    }
  }

  /** The alphabetical list of a set of words is unique, so the insertion
      sort above and the library's sort yield the same list. */
  lemma {:induction false} AscendingUnique(a: seq<string>, b: seq<string>)
    requires StrictlyAscending(a) && StrictlyAscending(b)
    requires forall w :: w in a <==> w in b
    ensures a == b
    decreases |a|
  {
    if |a| == 0 {
      HeadIsElement(b);
    } else {
      assert a[0] in b && b[0] in a;
      if a[0] != b[0] {
        var i :| 0 <= i < |a| && a[i] == b[0];
        var j :| 0 <= j < |b| && b[j] == a[0];
        BelowAsymmetric(a[0], a[i]);
        assert false;
      }
      forall w
        ensures w in a[1..] <==> w in b[1..]
      {
        if w in a[1..] {
          var i :| 0 <= i < |a[1..]| && a[1..][i] == w;
          assert Below(a[0], a[i + 1]);
          assert a[i + 1] in a;
          var j :| 0 <= j < |b| && b[j] == w;
          assert j != 0;
          assert b[1..][j - 1] == w;
        }
        if w in b[1..] {
          var j :| 0 <= j < |b[1..]| && b[1..][j] == w;
          assert Below(b[0], b[j + 1]);
          assert b[j + 1] in b;
          var i :| 0 <= i < |a| && a[i] == w;
          assert i != 0;
          assert a[1..][i - 1] == w;
        }
      }
      AscendingUnique(a[1..], b[1..]);
      assert a == [a[0]] + a[1..] && b == [b[0]] + b[1..];
    }
  }

  lemma HeadIsElement<T>(s: seq<T>)
    ensures |s| > 0 ==> s[0] in s
  {
  }

  // ---------------------------------------------------------------------------
  // Ranking by count

  predicate ByCountDescending(es: seq<Entry>) {
    forall i, j :: 0 <= i < j < |es| ==> es[i].count >= es[j].count
  }

  /** Inserting an entry after every entry whose count is at least its own. */
  function InsertByCount(es: seq<Entry>, e: Entry): (r: seq<Entry>)
    requires ByCountDescending(es)
    ensures ByCountDescending(r)
    ensures multiset(r) == multiset(es) + multiset{e}
  {
    if |es| == 0 then [e]
    else if es[0].count < e.count then [e] + es
    else
      var tail := InsertByCount(es[1..], e);
      assert es == [es[0]] + es[1..];
      FirstAtLeastInserted(es, e, tail);
      [es[0]] + tail
  }

  lemma FirstAtLeastInserted(es: seq<Entry>, e: Entry, tail: seq<Entry>)
    requires ByCountDescending(es)
    requires |es| > 0 && es[0].count >= e.count
    requires ByCountDescending(tail)
    requires multiset(tail) == multiset(es[1..]) + multiset{e}
    ensures ByCountDescending([es[0]] + tail)
  {
    var r := [es[0]] + tail;
    forall i, j | 0 <= i < j < |r|
      ensures r[i].count >= r[j].count
    {
      if i == 0 {
        var x := r[j];
        assert x == tail[j - 1];
        assert x in multiset(tail);
        if x != e {
          assert x in multiset(es[1..]);
          var k :| 0 <= k < |es[1..]| && es[1..][k] == x;
          assert x == es[k + 1];
        }
      } else {
        assert r[i] == tail[i - 1] && r[j] == tail[j - 1];
      }
    }
  }

  /** The entries sorted by count, largest first, by insertion; the order
      among equal counts is not part of the contract. */
  method RankByCount(es: seq<Entry>) returns (ranked: seq<Entry>)
    ensures multiset(ranked) == multiset(es)
    ensures ByCountDescending(ranked)
  {
    ranked := [];
    var i := 0;
    while i < |es|
      invariant i <= |es|
      invariant ByCountDescending(ranked)
      invariant multiset(ranked) == multiset(es[..i])
    {
      assert es[..i + 1] == es[..i] + [es[i]];
      ranked := InsertByCount(ranked, es[i]);
      i := i + 1;
    }
    assert es[..i] == es;
  }

  /** Ranking the table's entries lists the table's entries again, once
      each: nothing is added or dropped. */
  lemma RankedListsEntries(es: seq<Entry>, ranked: seq<Entry>, freq: map<string, nat>)
    requires ListsEntries(es, freq)
    requires multiset(ranked) == multiset(es)
    ensures ListsEntries(ranked, freq)
    ensures |ranked| == |freq|
    ensures forall i, j :: 0 <= i < j < |ranked| ==> ranked[i].word != ranked[j].word
  {
    EntryCount(ranked, freq);
    ListsEntriesFacts(ranked, freq);
  }

  /** With pairwise distinct counts the ranking is forced: two listings of
      the same entries, both by descending count, are equal. */
  lemma {:induction false} DistinctCountsForceRanking(a: seq<Entry>, b: seq<Entry>)
    requires multiset(a) == multiset(b)
    requires ByCountDescending(a) && ByCountDescending(b)
    requires forall i, j :: 0 <= i < j < |a| ==> a[i].count != a[j].count
    ensures a == b
    decreases |a|
  {
    assert |a| == |multiset(a)| == |multiset(b)| == |b|;
    if |a| > 0 {
      LargestFirst(a, b);
      DropHead(a, b);
      DistinctCountsForceRanking(a[1..], b[1..]);
      assert a == [a[0]] + a[1..] && b == [b[0]] + b[1..];
    }
  }

  /** The entry with the largest count heads both listings. */
  lemma LargestFirst(a: seq<Entry>, b: seq<Entry>)
    requires multiset(a) == multiset(b)
    requires ByCountDescending(a) && ByCountDescending(b)
    requires forall i, j :: 0 <= i < j < |a| ==> a[i].count != a[j].count
    requires |a| > 0 && |b| > 0
    ensures a[0] == b[0]
  {
    assert a[0] in multiset(b) && b[0] in multiset(a);
    var i :| 0 <= i < |a| && a[i] == b[0];
    var j :| 0 <= j < |b| && b[j] == a[0];
    assert a[i].count == b[0].count >= b[j].count == a[0].count;
  }

  lemma DropHead<T>(a: seq<T>, b: seq<T>)
    requires multiset(a) == multiset(b)
    requires |a| > 0 && |b| > 0 && a[0] == b[0]
    ensures multiset(a[1..]) == multiset(b[1..])
  {
    assert a == [a[0]] + a[1..];
    assert b == [b[0]] + b[1..];
    assert multiset(a) == multiset{a[0]} + multiset(a[1..]);
    assert multiset(b) == multiset{a[0]} + multiset(b[1..]);
    forall x
      ensures multiset(a[1..])[x] == multiset(b[1..])[x]
    {
      assert multiset(a)[x] == multiset(b)[x];
    }
  }
}
