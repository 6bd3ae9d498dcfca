# Word frequency analysis, modelled in Dafny

A model of the analysis behind the "Analyze" button of the word frequency
analyzer (`WordFrequencyAnalyzer.java`), together with the start/stop guard
of its typing-speed timer.

The analysis takes the text of the text area and

1. lowercases it;
2. splits it into tokens with a `StringTokenizer` over the delimiter set
   space, newline, tab, carriage return, form feed and `, . : ; ? ! " ' ( ) -`:
   every maximal run of other characters is one token, and no empty token
   is ever produced;
3. counts the tokens into a word -> count table, collecting the unique
   words alongside;
4. sorts the unique words alphabetically;
5. sorts the table's entries by count, largest first;
6. reports the word count as the sum of all counts;
7. renders each ranked entry as `word : count`.

The timer is either stopped or running; start on a running timer and stop
on a stopped timer are refused with an error alert and change nothing.

Modules, one per concern:

- `Tokenizer` (`Tokenizer.dfy`): the delimiter set, ASCII lowercasing, the
  reference split `Tokens`, the scanning loop `Tokenize`, and the lemmas
  that pin `Tokens` down as "maximal runs of non-delimiters, in order".
- `Frequency` (`Frequency.dfy`): the counting loop, the table's entry list
  in the table's own (unspecified) order, and the word count.
- `Ranking` (`Ranking.dfy`): the natural order of Java strings
  (`String.compareTo`, which compares UTF-16 code units, so a character
  above U+FFFF counts as its surrogate pair) and the alphabetical sort; the
  sort of entries by descending count.
- `Render` (`Render.dfy`): `word : count` lines, decimal counts, and the
  inverse that reads a line back.
- `Analyzer` (`Analyzer.dfy`): the whole analysis as one method.
- `Timer` (`Timer.dfy`): the start/stop guard.
- `Wrappers` (`Wrappers.dfy`): `Option`.

The order in which a `HashMap` yields its entries is unspecified, and the
analyzer breaks no ties between equal counts, so `EntrySet` may list the
entries in any order and `RankByCount` promises only a permutation of the
entries ordered by non-increasing count. No alphabetical tie-break is
assumed. As a consequence the ranking is not claimed to be the same on two
runs over the same text when counts tie; with pairwise distinct counts it is
forced (`Ranking.DistinctCountsForceRanking`).

## Model

| member | source | states |
|---|---|---|
| Tokenizer.Lower | WordFrequencyAnalyzer.java:113 | the lowercased text has the same length, no upper-case letter, its delimiters exactly where the original has them, and every other non-upper-case character unchanged |
| Tokenizer.LowerCharFacts | WordFrequencyAnalyzer.java:113 | lowercasing leaves no upper-case ASCII letter, and never turns a delimiter into a word character or back |
| Tokenizer.Tokens | WordFrequencyAnalyzer.java:118 | every token is non-empty and contains no delimiter character |
| Tokenizer.Tokenize | WordFrequencyAnalyzer.java:134-135 | the hasMoreTokens/nextToken loop (skip delimiters, take the longest run of non-delimiters) yields exactly the reference split `Tokens` |
| Tokenizer.ScanToken | WordFrequencyAnalyzer.java:135 | the token scan stops exactly at the first delimiter after its start, or at the end of the text, and passes only non-delimiters |
| Tokenizer.DelimitersThen | WordFrequencyAnalyzer.java:134-135 | a leading run of delimiters produces no token: empty tokens are never returned |
| Tokenizer.WordThen | WordFrequencyAnalyzer.java:134-135 | a word followed by a delimiter or the end of the text is returned whole, as the next token |
| Tokenizer.WordIsOneToken | WordFrequencyAnalyzer.java:118 | a string without delimiters is exactly one token: no character outside the delimiter set splits |
| Tokenizer.SplitAtDelimiter | WordFrequencyAnalyzer.java:118 | every delimiter character splits: the tokens of `a + [c] + b` are those of `a` followed by those of `b` |
| Tokenizer.TokensSegment | WordFrequencyAnalyzer.java:134-135 | the text is its tokens in left-to-right order, separated by delimiter runs that are non-empty between tokens |
| Tokenizer.SegmentationUnique | WordFrequencyAnalyzer.java:134-135 | any writing of the text as words separated by non-empty delimiter runs yields exactly its tokens, so the tokens are the maximal runs |
| Tokenizer.ConcatTokens | WordFrequencyAnalyzer.java:134-135 | the tokens concatenated are exactly the non-delimiter characters of the text, in order |
| Tokenizer.JoinThenTokens | WordFrequencyAnalyzer.java:118 | words joined with one delimiter between neighbours tokenize back to the same words |
| Tokenizer.LoweredTokensHaveNoUpper | WordFrequencyAnalyzer.java:113-118 | since the lowercased text is tokenized, no token contains an upper-case letter |
| Tokenizer.LowerCommutesWithTokens | WordFrequencyAnalyzer.java:113-118 | the tokens of the lowercased text are the lowercased tokens of the text: case never moves a token boundary |
| Tokenizer.ExampleSentence | WordFrequencyAnalyzer.java:113-118 | "Hello, hello world!" gives the tokens hello, hello, world |
| Frequency.CountWords | WordFrequencyAnalyzer.java:132-139 | a word is a key of the table iff it occurs among the tokens, its value is its number of occurrences (so at least 1), and the unique-word set equals the key set |
| Frequency.EntrySet | WordFrequencyAnalyzer.java:148 | the entry list holds each entry of the table exactly once and nothing else, in some order |
| Frequency.ListsEntriesFacts | WordFrequencyAnalyzer.java:148 | in such a list every entry is one of the table's, every key appears, and no word appears twice |
| Frequency.EntryCount | WordFrequencyAnalyzer.java:148 | such a list has one entry per key of the table |
| Frequency.SumIsTotal | WordFrequencyAnalyzer.java:158 | summing the counts of the entries, in any listing order, gives the number of items the table tallies |
| Frequency.SumCounts | WordFrequencyAnalyzer.java:158 | the sum of the counts is at least every single count, and is zero exactly when every count is zero |
| Frequency.WordCount | WordFrequencyAnalyzer.java:158 | the reported word count, the table's values summed in the table's own order, equals the number of items the table tallies, so the number of tokens it was built from |
| Ranking.Below | WordFrequencyAnalyzer.java:145 | the order the alphabetical sort uses: strict; a proper prefix comes first; two first characters below U+10000 compare by value; a character above U+FFFF, stored as a surrogate pair, comes before any character from U+E000 to U+FFFF |
| Ranking.Utf16RoundTrip | WordFrequencyAnalyzer.java:145 | the UTF-16 code units of a string decode back to the string, so different strings compare as different code-unit sequences |
| Ranking.BelowTransitive | WordFrequencyAnalyzer.java:145 | the code-unit order on strings is transitive |
| Ranking.BelowTotal | WordFrequencyAnalyzer.java:145 | any two different strings are ordered one way or the other |
| Ranking.BelowAsymmetric | WordFrequencyAnalyzer.java:145 | no two strings are each below the other |
| Ranking.SortWords | WordFrequencyAnalyzer.java:144-145 | the alphabetical list is strictly ascending and holds exactly the unique words, each once |
| Ranking.AscendingUnique | WordFrequencyAnalyzer.java:145 | two strictly ascending lists with the same words are equal, so any correct sort gives the same alphabetical list |
| Ranking.RankByCount | WordFrequencyAnalyzer.java:165-167 | the ranked list is a permutation of the entry list with non-increasing counts |
| Ranking.DistinctCountsForceRanking | WordFrequencyAnalyzer.java:165-167 | when the counts are pairwise distinct, any two rankings of the same entries by descending count are equal |
| Ranking.RankedListsEntries | WordFrequencyAnalyzer.java:148-149 | the ranked list again holds each entry of the table exactly once, one per distinct word |
| Render.Decimal | WordFrequencyAnalyzer.java:168 | a count is written with decimal digits only and no leading zero, zero as the single digit 0 |
| Render.RenderEntry | WordFrequencyAnalyzer.java:168 | a displayed line is the entry's word, then " : ", then digits without leading zero that read back as the entry's count |
| Render.DecimalRoundTrip | WordFrequencyAnalyzer.java:168 | the decimal form of a count reads back as the count |
| Render.RenderRoundTrip | WordFrequencyAnalyzer.java:168 | a rendered `word : count` line reads back as its entry, for every token word |
| Render.ParseDecimalRoundTrip | WordFrequencyAnalyzer.java:168 | every digit string without leading zero is the decimal form of its value, so the decimal form of a count is unique |
| Render.ParseLineExact | WordFrequencyAnalyzer.java:168 | a line that reads back as an entry is exactly that entry's rendering: no padding or other variant is accepted |
| Render.RenderAllRoundTrip | WordFrequencyAnalyzer.java:164-169 | the displayed list has one line per ranked entry, in ranked order, each reading back as its entry |
| Analyzer.AnalyzeText | WordFrequencyAnalyzer.java:112-169 | the whole analysis: table tallies the tokens of the lowercased text; keys are lowercase words with counts at least 1; alphabetical list holds exactly the keys; ranking lists each entry once by descending count; word count is the token count; one line per ranked entry, equal to that entry rendered as `word : count` and reading back as it |
| Analyzer.NoWordsInDelimiters | WordFrequencyAnalyzer.java:134-139 | a text of delimiters only, the empty text included, has no tokens and its table is empty |
| Analyzer.LoadedText | WordFrequencyAnalyzer.java:94-96 | the loaded text is empty exactly when the file has no lines, and otherwise ends with a newline: the last line is terminated too |
| Analyzer.LoadedTextTokens | WordFrequencyAnalyzer.java:91-97 | a loaded file's text has as tokens those of its lines, line after line: the newline after each line keeps words of different lines apart |
| Analyzer.ExampleTable | WordFrequencyAnalyzer.java:138 | counting a, b, a, c, b, a gives a:3, b:2, c:1 |
| Analyzer.ExampleRanking | WordFrequencyAnalyzer.java:165-167 | every ranking of a:3, b:2, c:1 is exactly a:3, b:2, c:1 |
| Timer.Start | WordFrequencyAnalyzer.java:181-189 | start is accepted exactly when the timer is stopped, is refused as "already running" otherwise, and leaves the timer running either way |
| Timer.Stop | WordFrequencyAnalyzer.java:192-204 | stop is accepted exactly when the timer is running, is refused as "not running" otherwise, and leaves the timer stopped either way |
| Timer.StepFacts | WordFrequencyAnalyzer.java:182-202 | a refused press changes nothing; an accepted press switches the state |
| Timer.AcceptedAlternate | WordFrequencyAnalyzer.java:182-202 | from a stopped timer, the accepted presses alternate start, stop, start, ..., and the timer runs exactly when an odd number were accepted |

## Left out

- The JavaFX window, its widgets, CSS, the list view and label updates, and
  the alert dialog (lines 43-84, 207-213): presentation only. The alert's
  text is kept as `Timer.Message`.
- Loading a file (lines 86-102): the file chooser, the reader and the
  I/O error path. The text it produces, each line followed by a newline
  (the last line too), is modelled as `Analyzer.LoadedText`; the analysis
  takes the text as a parameter.
- The single-thread executor and future (lines 114-116, 154-177): the
  analysis is modelled as one synchronous call. The caught exception path
  cannot be reached by the pure computation and is not modelled.
- The clock readings, the elapsed time and the words-per-minute figure
  (lines 183, 195-199): clock input and floating-point division. So is the
  `split("\\s+")` word count used only for that figure (line 198).
- The unused token queue and the first, discarded sort of the entry list
  (lines 124, 130, 136, 148-149): they have no observable effect; the ranking
  is modelled once, as displayed. The alphabetical list (lines 144-145) is
  computed but never displayed by the analyzer; it is modelled anyway.
- Tokenizer.LowerCharFacts: lowercasing is modelled for the ASCII letters
  A-Z only; `String.toLowerCase` also maps other Unicode letters, depends on
  the default locale and can change the length of the text.
- Ranking.RankByCount: does not promise any order among equal counts. The
  displayed ranking (lines 165-167) sorts a stream over the table's entry
  set, which is not ordered, so the library promises no stability there;
  stability is promised only for the discarded list sort of line 149. The
  model is an insertion sort rather than the library's merge sort.
- Integer width: counts and the word count are unbounded. A Java string has
  fewer than 2^31 characters and every token takes at least one of them, so
  the `int` counts and their sum cannot overflow in the analyzer either.
