/** The analysis behind the Analyze button, as one synchronous pure step.

    The text is lowercased and split into tokens; the tokens are counted
    into a word -> count table while the unique words are collected; the
    unique words are sorted alphabetically; the table's entries are ranked
    by count, largest first; the word count is the sum of the counts; and
    each ranked entry is rendered as a `word : count` line.
 */
module Analyzer {
  import opened Tokenizer
  import opened Frequency
  import opened Ranking
  import opened Render
  import opened Wrappers

  datatype Analysis = Analysis(
    frequencies: map<string, nat>,
    sortedWords: seq<string>,
    ranked: seq<Entry>,
    wordCount: nat,
    lines: seq<string>)

  /** The tokens the analysis counts: those of the lowercased text. */
  function AnalyzedTokens(text: string): seq<string> {
    Tokens(Lower(text))
  }

  method AnalyzeText(text: string) returns (a: Analysis)
    // the table tallies the tokens of the lowercased text
    ensures Counts(a.frequencies, multiset(AnalyzedTokens(text)))
    ensures forall w :: w in a.frequencies ==> IsWord(w) && NoUpper(w) && a.frequencies[w] >= 1
    // the alphabetical list holds exactly the table's words
    ensures StrictlyAscending(a.sortedWords)
    ensures forall w :: w in a.sortedWords <==> w in a.frequencies
    // the ranking lists each entry of the table once, largest count first
    ensures ListsEntries(a.ranked, a.frequencies)
    ensures |a.ranked| == |a.frequencies|
    ensures ByCountDescending(a.ranked)
    // the word count is the number of tokens
    ensures a.wordCount == |AnalyzedTokens(text)|
    // one displayed line per ranked entry, rendering it and reading back as it
    ensures |a.lines| == |a.ranked|
    ensures forall i :: 0 <= i < |a.lines| ==> a.lines[i] == RenderEntry(a.ranked[i])
    ensures forall i :: 0 <= i < |a.lines| ==> ParseLine(a.lines[i]) == Some(a.ranked[i])
  {
    var lowered := Lower(text);
    var toks := Tokenize(lowered);
    var freq, unique := CountWords(toks);
    var words := SortWords(unique);
    var entries := EntrySet(freq);
    var ranked := RankByCount(entries);
    var total := WordCount(freq);
    RankedListsEntries(entries, ranked, freq);
    TableWords(text, freq);
    RankedWords(ranked, freq);
    RenderAllRoundTrip(ranked);
    a := Analysis(freq, words, ranked, total, RenderAll(ranked));
  }

  /** The words of the table are tokens of the lowercased text. */
  lemma TableWords(text: string, freq: map<string, nat>)
    requires Counts(freq, multiset(AnalyzedTokens(text)))
    ensures forall w :: w in freq ==> IsWord(w) && NoUpper(w)
  {
    var toks := AnalyzedTokens(text);
    LoweredTokensHaveNoUpper(text);
    forall w | w in freq
      ensures IsWord(w) && NoUpper(w)
    {
      assert w in multiset(toks);
      var i :| 0 <= i < |toks| && toks[i] == w;
    }
  }

  lemma RankedWords(ranked: seq<Entry>, freq: map<string, nat>)
    requires ListsEntries(ranked, freq)
    requires forall w :: w in freq ==> IsWord(w)
    ensures forall i :: 0 <= i < |ranked| ==> IsWord(ranked[i].word)
  {
    ListsEntriesFacts(ranked, freq);
  }

  /** Text made only of delimiters, the empty text among them, has no words:
      the table and the ranking are empty and the word count is 0. */
  lemma NoWordsInDelimiters(text: string)
    requires AllDelimiters(text)
    ensures AnalyzedTokens(text) == []
    ensures forall freq :: Counts(freq, multiset(AnalyzedTokens(text))) ==> freq == map[]
  {
    var l := Lower(text);
    forall i | 0 <= i < |l|
      ensures IsDelimiter(l[i])
    {
      LowerCharFacts(text[i]);
    }
    DelimitersThen(l, "");
    assert l + "" == l;
  }

  /** Counting a, b, a, c, b, a gives a:3, b:2, c:1. */
  lemma ExampleTable(freq: map<string, nat>)
    requires Counts(freq, multiset(["a", "b", "a", "c", "b", "a"]))
    ensures freq == map["a" := 3, "b" := 2, "c" := 1]
  {
  }

  /** Every ranking of the table a:3, b:2, c:1 is a:3, b:2, c:1: an
      instance of DistinctCountsForceRanking. */
  lemma ExampleRanking(ranked: seq<Entry>)
    requires ListsEntries(ranked, map["a" := 3, "b" := 2, "c" := 1])
    requires ByCountDescending(ranked)
    ensures ranked == [Entry("a", 3), Entry("b", 2), Entry("c", 1)]
  {
    var freq := map["a" := 3, "b" := 2, "c" := 1];
    EntryCount(ranked, freq);
    ListsEntriesFacts(ranked, freq);
    assert IsEntryOf(ranked[0], freq) && IsEntryOf(ranked[1], freq) && IsEntryOf(ranked[2], freq);
    assert ranked[0].word != ranked[1].word && ranked[1].word != ranked[2].word && ranked[0].word != ranked[2].word;
    assert ranked[0].count >= ranked[1].count >= ranked[2].count;
  }

  /** The text a loaded file puts in the text area: every line followed by
      a newline. */
  function LoadedText(lines: seq<string>): (text: string)
    ensures |text| == 0 <==> |lines| == 0
    ensures |lines| > 0 ==> text[|text| - 1] == '\n'
    ensures |text| >= |lines|
  {
    if |lines| == 0 then "" else lines[0] + "\n" + LoadedText(lines[1..])
  }

  function TokensOfLines(lines: seq<string>): seq<string> {
    if |lines| == 0 then [] else Tokens(lines[0]) + TokensOfLines(lines[1..])
  }

  /** A newline is a delimiter, so the tokens of a loaded file are the
      tokens of its lines, line after line: no word spans two lines. */
  lemma {:induction false} LoadedTextTokens(lines: seq<string>)
    ensures Tokens(LoadedText(lines)) == TokensOfLines(lines)
    decreases |lines|
  {
    if |lines| > 0 {
      LoadedTextTokens(lines[1..]);
      assert LoadedText(lines) == lines[0] + ['\n'] + LoadedText(lines[1..]);
      SplitAtDelimiter(lines[0], '\n', LoadedText(lines[1..]));
    }
  }
}
