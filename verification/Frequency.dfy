/** Counting the tokens.

    The analyzer walks the tokens once, bumping a word -> count table
    (starting a word at 1 on its first occurrence) and adding each word to a
    set of unique words. Later it reads the table back as a list of entries,
    in whatever order the table yields them, and reports the sum of all
    counts as the word count.
 */
module Frequency {

  /** One entry of the frequency table: a word and its number of occurrences. */
  datatype Entry = Entry(word: string, count: nat)

  /** freq tallies the multiset ms exactly: a word is a key iff it occurs in
      ms, and its value is its number of occurrences there. */
  ghost predicate Counts(freq: map<string, nat>, ms: multiset<string>) {
    forall w :: (w in freq <==> w in ms) && (w in freq ==> freq[w] == ms[w])
  }

  /** The table's value for k, or d when k is not a key. */
  function GetOrDefault(m: map<string, nat>, k: string, d: nat): nat {
    if k in m then m[k] else d
  }

  /** The counting loop: one pass over the tokens, bumping the count of each
      token and recording it among the unique words. */
  method CountWords(toks: seq<string>) returns (freq: map<string, nat>, unique: set<string>)
    ensures Counts(freq, multiset(toks))
    ensures forall w :: w in freq ==> freq[w] >= 1
    ensures unique == freq.Keys
  {
    freq, unique := map[], {};
    var i := 0;
    while i < |toks|
      invariant i <= |toks|
      invariant Counts(freq, multiset(toks[..i]))
      invariant unique == freq.Keys
    {
      var word := toks[i];
      assert toks[..i + 1] == toks[..i] + [word];
      unique := unique + {word};
      freq := freq[word := GetOrDefault(freq, word, 0) + 1];
      i := i + 1;
    }
    assert toks[..i] == toks;
  }

  // ---------------------------------------------------------------------------
  // The table's entries

  predicate IsEntryOf(e: Entry, freq: map<string, nat>) {
    e.word in freq && freq[e.word] == e.count
  }

  /** es lists every entry of freq exactly once and nothing else, in some
      order. */
  ghost predicate ListsEntries(es: seq<Entry>, freq: map<string, nat>) {
    forall e :: multiset(es)[e] == (if IsEntryOf(e, freq) then 1 else 0)
  }

  /** The table's entries as a list: the order is the table's own and is
      left open, so each step takes any key not yet listed. */
  method EntrySet(freq: map<string, nat>) returns (es: seq<Entry>)
    ensures ListsEntries(es, freq)
  {
    es := [];
    var remaining := freq.Keys;
    while remaining != {}
      invariant remaining <= freq.Keys
      invariant forall e ::
        multiset(es)[e] == (if IsEntryOf(e, freq) && e.word !in remaining then 1 else 0)
      decreases |remaining|
    {
      var k :| k in remaining;
      es := es + [Entry(k, freq[k])];
      remaining := remaining - {k};
    }
  }

  /** What ListsEntries means position by position: every listed entry is
      an entry of the table, every key is listed, and no word is listed
      twice. */
  lemma ListsEntriesFacts(es: seq<Entry>, freq: map<string, nat>)
    requires ListsEntries(es, freq)
    ensures forall i :: 0 <= i < |es| ==> IsEntryOf(es[i], freq)
    ensures forall w :: w in freq ==> Entry(w, freq[w]) in es
    ensures forall i, j :: 0 <= i < j < |es| ==> es[i].word != es[j].word
  {
    forall i | 0 <= i < |es|
      ensures IsEntryOf(es[i], freq)
    {
      assert es[i] in multiset(es);
    }
    forall w | w in freq
      ensures Entry(w, freq[w]) in es
    {
      assert multiset(es)[Entry(w, freq[w])] == 1;
    }
    forall i, j | 0 <= i < j < |es|
      ensures es[i].word != es[j].word
    {
      if es[i].word == es[j].word {
        assert es[i] in multiset(es) && es[j] in multiset(es);
        assert es[i] == es[j];
        TwiceInMultiset(es, i, j);
        assert false;
      }
    }
  }

  lemma TwiceInMultiset<T>(s: seq<T>, i: nat, j: nat)
    requires i < j < |s|
    requires s[i] == s[j]
    ensures multiset(s)[s[i]] >= 2
  {
    assert s == s[..j] + [s[j]] + s[j + 1..];
    assert s[i] in multiset(s[..j]);
  }

  // ---------------------------------------------------------------------------
  // The word count

  /** Sum of the counts, in list order, as the stream over the table's
      values sums them. */
  function SumCounts(es: seq<Entry>): (total: nat)
    ensures forall i :: 0 <= i < |es| ==> es[i].count <= total
    ensures total == 0 <==> forall i :: 0 <= i < |es| ==> es[i].count == 0
  {
    if |es| == 0 then 0 else es[0].count + SumCounts(es[1..])
  }

  function Copies(w: string, c: nat): seq<string> {
    seq(c, _ => w)
  }

  lemma {:induction false} CopiesMultiset(w: string, c: nat)
    ensures forall v :: multiset(Copies(w, c))[v] == if v == w then c else 0
    decreases c
  {
    if c > 0 {
      CopiesMultiset(w, c - 1);
      assert Copies(w, c) == Copies(w, c - 1) + [w];
    }
  }

  /** Taking the first listed entry off the list leaves a listing of the
      table without that entry's word. */
  lemma DropFirstEntry(es: seq<Entry>, freq: map<string, nat>)
    requires ListsEntries(es, freq)
    requires |es| > 0
    ensures IsEntryOf(es[0], freq)
    ensures ListsEntries(es[1..], freq - {es[0].word})
  {
    var x := es[0];
    assert es == [x] + es[1..];
    assert multiset(es) == multiset{x} + multiset(es[1..]);
    assert x in multiset(es);
    var freq' := freq - {x.word};
    forall e
      ensures multiset(es[1..])[e] == (if IsEntryOf(e, freq') then 1 else 0)
    {
      assert multiset(es[1..])[e] == multiset(es)[e] - (if e == x then 1 else 0);
    }
  }

  /** The listing holds one entry per word of the table. */
  lemma {:induction false} EntryCount(es: seq<Entry>, freq: map<string, nat>)
    requires ListsEntries(es, freq)
    ensures |es| == |freq|
    decreases |es|
  {
    if |es| == 0 {
      forall w ensures w !in freq {
        assert multiset(es)[Entry(w, GetOrDefault(freq, w, 0))] == 0;
      }
      assert freq.Keys == {};
    } else {
      DropFirstEntry(es, freq);
      EntryCount(es[1..], freq - {es[0].word});
      assert (freq - {es[0].word}).Keys == freq.Keys - {es[0].word};
    }
  }

  /** Summing the counts of the table's entries, in any listing order,
      gives the size of the multiset the table tallies. */
  lemma {:induction false} SumIsTotal(es: seq<Entry>, freq: map<string, nat>, ms: multiset<string>)
    requires ListsEntries(es, freq)
    requires Counts(freq, ms)
    ensures SumCounts(es) == |ms|
    decreases |es|
  {
    if |es| == 0 {
      forall w ensures w !in ms {
        assert multiset(es)[Entry(w, GetOrDefault(freq, w, 0))] == 0;
      }
      assert ms == multiset{};
    } else {
      var x := es[0];
      DropFirstEntry(es, freq);
      var ms' := ms[x.word := 0];
      assert Counts(freq - {x.word}, ms');
      SumIsTotal(es[1..], freq - {x.word}, ms');
      CopiesMultiset(x.word, x.count);
      var c := multiset(Copies(x.word, x.count));
      assert ms == ms' + c by {
        forall v ensures ms[v] == (ms' + c)[v] {
        }
      }
      assert |c| == x.count;
    }
  }

  /** The reported word count: the values of the table summed in the
      table's own order. Whatever that order is, the sum is the size of the
      multiset the table tallies, so for the table built from the tokens it
      is the number of tokens. */
  method WordCount(freq: map<string, nat>) returns (total: nat)
    ensures forall ms :: Counts(freq, ms) ==> total == |ms|
  {
    var es := EntrySet(freq);
    total := SumCounts(es);
    forall ms | Counts(freq, ms)
      ensures total == |ms|
    {
      SumIsTotal(es, freq, ms);
    }
  }
}
