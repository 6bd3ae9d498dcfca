/** Splitting the analysed text into words.

    The analyzer lowercases the whole text and hands it to a
    java.util.StringTokenizer with a fixed delimiter set; every maximal run
    of non-delimiter characters is one token and empty tokens are never
    produced. `Tokens` is the reference definition of that split,
    `Tokenize` is the scanning loop the tokenizer performs, and the lemmas
    characterise `Tokens` independently of its recursion: the text is the
    tokens in order separated by non-empty delimiter runs, every delimiter
    splits, nothing else does, and lowercasing commutes with the split.
 */
module Tokenizer {

  /** The delimiter set of the analyzer's StringTokenizer: space, newline,
      tab, carriage return, form feed, and , . : ; ? ! " ' ( ) - */
  const Delimiters: set<char> :=
    {' ', '\n', '\t', '\r', '\U{000C}', ',', '.', ':', ';', '?', '!', '"', '\'', '(', ')', '-'}

  predicate IsDelimiter(c: char) {
    c in Delimiters
  }

  predicate AllDelimiters(s: string) {
    forall i :: 0 <= i < |s| ==> IsDelimiter(s[i])
  }

  /** A word is a non-empty string without delimiters: the shape of every token. */
  predicate IsWord(w: string) {
    |w| > 0 && forall i :: 0 <= i < |w| ==> !IsDelimiter(w[i])
  }

  predicate AllWords(ws: seq<string>) {
    forall i :: 0 <= i < |ws| ==> IsWord(ws[i])
  }

  // ---------------------------------------------------------------------------
  // Lowercasing (String.toLowerCase, restricted to the ASCII letters)

  predicate IsUpper(c: char) {
    'A' <= c <= 'Z'
  }

  function LowerChar(c: char): char {
    if IsUpper(c) then (c as int + ('a' as int - 'A' as int)) as char else c
  }

  /** The text lowercased character by character: the same length, no
      upper-case letter left, delimiters exactly where they were, and every
      character that is not an upper-case letter unchanged. */
  function Lower(s: string): (r: string)
    ensures |r| == |s|
    ensures NoUpper(r)
    ensures forall i :: 0 <= i < |s| ==> (IsDelimiter(r[i]) <==> IsDelimiter(s[i]))
    ensures forall i :: 0 <= i < |s| ==> !IsUpper(s[i]) ==> r[i] == s[i]
  {
    seq(|s|, i requires 0 <= i < |s| => LowerChar(s[i]))
  }

  function LowerAll(ws: seq<string>): seq<string> {
    seq(|ws|, i requires 0 <= i < |ws| => Lower(ws[i]))
  }

  predicate NoUpper(s: string) {
    forall i :: 0 <= i < |s| ==> !IsUpper(s[i])
  }

  /** Lowercasing leaves no upper-case letter behind and never turns a
      delimiter into a word character or the other way round. */
  lemma LowerCharFacts(c: char)
    ensures !IsUpper(LowerChar(c))
    ensures IsDelimiter(LowerChar(c)) <==> IsDelimiter(c)
    ensures IsUpper(c) ==> LowerChar(c) as int == c as int + 32
    ensures !IsUpper(c) ==> LowerChar(c) == c
  {
  }

  // ---------------------------------------------------------------------------
  // The split

  /** Length of the run of non-delimiters that starts s. */
  function WordLength(s: string): (n: nat)
    ensures n <= |s|
    ensures forall k :: 0 <= k < n ==> !IsDelimiter(s[k])
    ensures n == |s| || IsDelimiter(s[n])
  {
    if |s| == 0 || IsDelimiter(s[0]) then 0 else 1 + WordLength(s[1..])
  }

  /** The tokens of s, left to right: every maximal run of non-delimiters. */
  function Tokens(s: string): (toks: seq<string>)
    ensures AllWords(toks)
    decreases |s|
  {
    if |s| == 0 then []
    else if IsDelimiter(s[0]) then Tokens(s[1..])
    else
      var n := WordLength(s);
      [s[..n]] + Tokens(s[n..])
  }

  /** The scanning loop of StringTokenizer as the analyzer drives it
      (hasMoreTokens / nextToken): skip delimiters, then take the longest
      run of non-delimiters as the next token. */
  method Tokenize(text: string) returns (toks: seq<string>)
    ensures toks == Tokens(text)
  {
    toks := [];
    var pos := 0;
    while pos < |text|
      invariant pos <= |text|
      invariant toks + Tokens(text[pos..]) == Tokens(text)
    {
      if IsDelimiter(text[pos]) {
        assert text[pos..][1..] == text[pos + 1..];
        pos := pos + 1;
      } else {
        var end := ScanToken(text, pos);
        TokenAt(text, pos, end);
        toks := toks + [text[pos..end]];
        pos := end;
      }
    }
  }

  /** StringTokenizer.scanToken: the end of the run of non-delimiters that
      starts at `start`. */
  method ScanToken(text: string, start: nat) returns (end: nat)
    requires start < |text| && !IsDelimiter(text[start])
    ensures start < end <= |text|
    ensures forall k :: start <= k < end ==> !IsDelimiter(text[k])
    ensures end == |text| || IsDelimiter(text[end])
  {
    end := start + 1;
    while end < |text| && !IsDelimiter(text[end])
      invariant start < end <= |text|
      invariant forall k :: start <= k < end ==> !IsDelimiter(text[k])
    {
      end := end + 1;
    }
  }

  /** A run found by ScanToken is the next token. */
  lemma TokenAt(text: string, start: nat, end: nat)
    requires start < end <= |text|
    requires forall k :: start <= k < end ==> !IsDelimiter(text[k])
    requires end == |text| || IsDelimiter(text[end])
    ensures Tokens(text[start..]) == [text[start..end]] + Tokens(text[end..])
  {
    var rest := text[start..];
    WordLengthIs(rest, end - start);
    assert rest[..end - start] == text[start..end];
    assert rest[end - start..] == text[end..];
  }

  /** WordLength is pinned down by its two defining facts. */
  lemma WordLengthIs(s: string, n: nat)
    requires n <= |s|
    requires forall k :: 0 <= k < n ==> !IsDelimiter(s[k])
    requires n == |s| || IsDelimiter(s[n])
    ensures WordLength(s) == n
  {
  }

  // ---------------------------------------------------------------------------
  // Building blocks: what a leading delimiter run and a leading word do

  lemma {:induction false} DelimitersThen(d: string, r: string)
    requires AllDelimiters(d)
    ensures Tokens(d + r) == Tokens(r)
    decreases |d|
  {
    if |d| == 0 {
      assert d + r == r;
    } else {
      assert (d + r)[0] == d[0];
      assert IsDelimiter(d[0]);
      assert (d + r)[1..] == d[1..] + r;
      assert AllDelimiters(d[1..]) by {
        forall i | 0 <= i < |d[1..]| ensures IsDelimiter(d[1..][i]) {
          assert d[1..][i] == d[i + 1];
        }
      }
      DelimitersThen(d[1..], r);
    }
  }

  lemma WordThen(w: string, r: string)
    requires IsWord(w)
    requires |r| == 0 || IsDelimiter(r[0])
    ensures Tokens(w + r) == [w] + Tokens(r)
  {
    var s := w + r;
    WordLengthIs(s, |w|);
    assert s[..|w|] == w;
    assert s[|w|..] == r;
  }

  /** A word on its own is exactly one token: no character outside the
      delimiter set splits. */
  lemma WordIsOneToken(w: string)
    requires IsWord(w)
    ensures Tokens(w) == [w]
  {
    WordThen(w, "");
    assert w + "" == w;
  }

  /** Every delimiter splits: the tokens on either side of it are kept apart
      and nothing else changes. */
  lemma {:induction false} SplitAtDelimiter(a: string, c: char, b: string)
    requires IsDelimiter(c)
    ensures Tokens(a + [c] + b) == Tokens(a) + Tokens(b)
    decreases |a|
  {
    var s := a + [c] + b;
    if |a| == 0 {
      assert s == [c] + b;
      assert s[1..] == b;
    } else if IsDelimiter(a[0]) {
      assert s[1..] == a[1..] + [c] + b;
      SplitAtDelimiter(a[1..], c, b);
    } else {
      var n := WordLength(a);
      WordLengthIs(s, n);
      assert s[..n] == a[..n];
      assert s[n..] == a[n..] + [c] + b;
      SplitAtDelimiter(a[n..], c, b);
    }
  }

  // ---------------------------------------------------------------------------
  // Maximal runs, stated without the recursion of Tokens

  /** gaps[0] + words[0] + gaps[1] + ... + words[n-1] + gaps[n] */
  function Interleave(gaps: seq<string>, words: seq<string>): string
    requires |gaps| == |words| + 1
    decreases |words|
  {
    if |words| == 0 then gaps[0] else gaps[0] + words[0] + Interleave(gaps[1..], words[1..])
  }

  /** s consists of the words in order, separated by runs of delimiters;
      only the leading and the trailing run may be empty. */
  predicate Segmentation(s: string, words: seq<string>, gaps: seq<string>) {
    && |gaps| == |words| + 1
    && AllWords(words)
    && (forall i :: 0 <= i < |gaps| ==> AllDelimiters(gaps[i]))
    && (forall i :: 0 < i < |words| ==> |gaps[i]| > 0)
    && s == Interleave(gaps, words)
  }

  /** The delimiter runs around and between the tokens of s. */
  function Gaps(s: string): (gaps: seq<string>)
    ensures |gaps| == |Tokens(s)| + 1
    ensures |s| > 0 && IsDelimiter(s[0]) ==> |gaps[0]| > 0
    decreases |s|
  {
    if |s| == 0 then [""]
    else if IsDelimiter(s[0]) then
      var g := Gaps(s[1..]);
      [[s[0]] + g[0]] + g[1..]
    else [""] + Gaps(s[WordLength(s)..])
  }

  /** The tokens of s, with the delimiter runs between them, rebuild s. */
  lemma {:induction false} TokensSegment(s: string)
    ensures Segmentation(s, Tokens(s), Gaps(s))
    decreases |s|
  {
    if |s| == 0 {
    } else if IsDelimiter(s[0]) {
      var s' := s[1..];
      TokensSegment(s');
      SegmentationAfterDelimiter(s[0], s', Tokens(s'), Gaps(s'));
      assert s == [s[0]] + s';
    } else {
      var n := WordLength(s);
      var s' := s[n..];
      TokensSegment(s');
      SegmentationAfterWord(s[..n], s', Tokens(s'), Gaps(s'));
      assert s == s[..n] + s';
    }
  }

  /** A delimiter in front joins the leading delimiter run. */
  lemma SegmentationAfterDelimiter(c: char, r: string, words: seq<string>, gaps: seq<string>)
    requires IsDelimiter(c)
    requires Segmentation(r, words, gaps)
    ensures Segmentation([c] + r, words, [[c] + gaps[0]] + gaps[1..])
  {
  }

  /** A word in front, followed by the end or by a delimiter run, becomes
      the first word. */
  lemma SegmentationAfterWord(w: string, r: string, words: seq<string>, gaps: seq<string>)
    requires IsWord(w)
    requires Segmentation(r, words, gaps)
    requires |words| == 0 || |gaps[0]| > 0
    ensures Segmentation(w + r, [w] + words, [""] + gaps)
  {
  }

  /** Any way of writing s as words separated by delimiter runs yields
      exactly the tokens of s: Tokens is the split into maximal runs. */
  lemma {:induction false} SegmentationUnique(s: string, words: seq<string>, gaps: seq<string>)
    requires Segmentation(s, words, gaps)
    ensures Tokens(s) == words
    decreases |words|
  {
    if |words| == 0 {
      DelimitersThen(gaps[0], "");
      assert gaps[0] + "" == gaps[0];
    } else {
      var rest := Interleave(gaps[1..], words[1..]);
      assert Segmentation(rest, words[1..], gaps[1..]) by {
        forall i | 0 < i < |words[1..]|
          ensures |gaps[1..][i]| > 0
        {
          assert gaps[1..][i] == gaps[i + 1];
        }
      }
      SegmentationUnique(rest, words[1..], gaps[1..]);
      if |words| > 1 {
        assert |gaps[1]| > 0;
        assert rest == gaps[1] + (words[1] + Interleave(gaps[2..], words[2..]));
        assert rest[0] == gaps[1][0];
      } else {
        assert rest == gaps[1];
      }
      WordThen(words[0], rest);
      assert s == gaps[0] + (words[0] + rest);
      DelimitersThen(gaps[0], words[0] + rest);
      assert [words[0]] + words[1..] == words;
    }
  }

  // ---------------------------------------------------------------------------
  // Round trips: the characters kept, and rejoining the tokens

  function Concat(ws: seq<string>): string {
    if |ws| == 0 then "" else ws[0] + Concat(ws[1..])
  }

  /** The non-delimiter characters of s, in order. */
  function Letters(s: string): string {
    if |s| == 0 then ""
    else if IsDelimiter(s[0]) then Letters(s[1..])
    else [s[0]] + Letters(s[1..])
  }

  lemma {:induction false} LettersAppend(a: string, b: string)
    ensures Letters(a + b) == Letters(a) + Letters(b)
    decreases |a|
  {
    if |a| == 0 {
      assert a + b == b;
    } else {
      assert (a + b)[0] == a[0];
      assert (a + b)[1..] == a[1..] + b;
      LettersAppend(a[1..], b);
      if !IsDelimiter(a[0]) {
        assert [a[0]] + Letters(a[1..]) + Letters(b) == [a[0]] + (Letters(a[1..]) + Letters(b));
      }
    }
  }

  lemma {:induction false} LettersOfWord(w: string)
    requires forall i :: 0 <= i < |w| ==> !IsDelimiter(w[i])
    ensures Letters(w) == w
    decreases |w|
  {
    if |w| > 0 {
      LettersOfWord(w[1..]);
      assert w == [w[0]] + w[1..];
    }
  }

  /** Concatenating the tokens gives back exactly the non-delimiter
      characters of the text, in order: nothing is lost or invented. */
  lemma {:induction false} ConcatTokens(s: string)
    ensures Concat(Tokens(s)) == Letters(s)
    decreases |s|
  {
    if |s| == 0 {
    } else if IsDelimiter(s[0]) {
      ConcatTokens(s[1..]);
    } else {
      var n := WordLength(s);
      ConcatTokens(s[n..]);
      var t := Tokens(s);
      assert t == [s[..n]] + Tokens(s[n..]);
      assert Concat(t) == s[..n] + Concat(Tokens(s[n..])) by {
        assert t[1..] == Tokens(s[n..]);
      }
      LettersAfterWord(s[..n], s[n..]);
      assert s == s[..n] + s[n..];
    }
  }

  lemma LettersAfterWord(w: string, r: string)
    requires forall i :: 0 <= i < |w| ==> !IsDelimiter(w[i])
    ensures Letters(w + r) == w + Letters(r)
  {
    LettersAppend(w, r);
    LettersOfWord(w);
  }

  /** The words joined with one delimiter character between neighbours. */
  function Join(ws: seq<string>, sep: char): string {
    if |ws| == 0 then ""
    else if |ws| == 1 then ws[0]
    else ws[0] + [sep] + Join(ws[1..], sep)
  }

  /** Joining words with single delimiters and tokenizing again returns
      the words. */
  lemma {:induction false} JoinThenTokens(ws: seq<string>, sep: char)
    requires AllWords(ws)
    requires IsDelimiter(sep)
    ensures Tokens(Join(ws, sep)) == ws
    decreases |ws|
  {
    if |ws| == 0 {
    } else if |ws| == 1 {
      WordIsOneToken(ws[0]);
    } else {
      var rest := [sep] + Join(ws[1..], sep);
      assert Join(ws, sep) == ws[0] + rest;
      WordThen(ws[0], rest);
      assert rest[1..] == Join(ws[1..], sep);
      JoinThenTokens(ws[1..], sep);
      assert [ws[0]] + ws[1..] == ws;
    }
  }

  // ---------------------------------------------------------------------------
  // Lowercasing and the split

  lemma {:induction false} TokensKeepNoUpper(s: string)
    requires NoUpper(s)
    ensures forall i :: 0 <= i < |Tokens(s)| ==> NoUpper(Tokens(s)[i])
    decreases |s|
  {
    if |s| == 0 {
    } else if IsDelimiter(s[0]) {
      TokensKeepNoUpper(s[1..]);
    } else {
      var n := WordLength(s);
      TokensKeepNoUpper(s[n..]);
      var t := Tokens(s);
      assert t[0] == s[..n];
      forall i | 1 <= i < |t|
        ensures NoUpper(t[i])
      {
        assert t[i] == Tokens(s[n..])[i - 1];
      }
    }
  }

  /** The analyzer tokenizes the lowercased text, so no token contains an
      upper-case letter. */
  lemma LoweredTokensHaveNoUpper(text: string)
    ensures forall i :: 0 <= i < |Tokens(Lower(text))| ==> NoUpper(Tokens(Lower(text))[i])
  {
    var s := Lower(text);
    forall i | 0 <= i < |s|
      ensures !IsUpper(s[i])
    {
      LowerCharFacts(text[i]);
    }
    TokensKeepNoUpper(s);
  }

  /** Lowercasing before the split gives the lowercased tokens of the
      original text: case never moves a token boundary. */
  lemma {:induction false} LowerCommutesWithTokens(s: string)
    ensures Tokens(Lower(s)) == LowerAll(Tokens(s))
    decreases |s|
  {
    var l := Lower(s);
    if |s| == 0 {
    } else {
      LowerCharFacts(s[0]);
      if IsDelimiter(s[0]) {
        assert l[1..] == Lower(s[1..]);
        LowerCommutesWithTokens(s[1..]);
      } else {
        var n := WordLength(s);
        LoweredWordLength(s);
        LowerCommutesWithTokens(s[n..]);
        LowerAllCons(s[..n], Tokens(s[n..]));
      }
    }
  }

  /** Lowercasing keeps the length of the leading word. */
  lemma LoweredWordLength(s: string)
    ensures WordLength(Lower(s)) == WordLength(s)
    ensures Lower(s)[..WordLength(s)] == Lower(s[..WordLength(s)])
    ensures Lower(s)[WordLength(s)..] == Lower(s[WordLength(s)..])
  {
    var l, n := Lower(s), WordLength(s);
    forall k | 0 <= k <= n && k < |s|
      ensures IsDelimiter(l[k]) <==> IsDelimiter(s[k])
    {
      LowerCharFacts(s[k]);
    }
    WordLengthIs(l, n);
  }

  lemma LowerAllCons(w: string, ws: seq<string>)
    ensures LowerAll([w] + ws) == [Lower(w)] + LowerAll(ws)
  {
  }

  // ---------------------------------------------------------------------------
  // A worked example

  /** Case folding and punctuation: "Hello, hello world!" gives the tokens
      hello, hello, world. */
  lemma ExampleSentence()
    ensures Tokens(Lower("Hello, hello world!")) == ["hello", "hello", "world"]
  {
    ExampleLowered();
    ExampleSegmentation();
    SegmentationUnique("hello, hello world!", ["hello", "hello", "world"], ["", ", ", " ", "!"]);
  }

  lemma ExampleLowered()
    ensures Lower("Hello, hello world!") == "hello, hello world!"
  {
  }

  lemma ExampleSegmentation()
    ensures Segmentation("hello, hello world!", ["hello", "hello", "world"], ["", ", ", " ", "!"])
  {
    ExampleInterleave();
    assert IsWord("hello") && IsWord("world");
    assert AllDelimiters(", ") && AllDelimiters(" ") && AllDelimiters("!");
  }

  lemma ExampleInterleave()
    ensures Interleave(["", ", ", " ", "!"], ["hello", "hello", "world"]) == "hello, hello world!"
  {
    var g, w := ["", ", ", " ", "!"], ["hello", "hello", "world"];
    assert Interleave(g[3..], w[3..]) == "!";
    assert Interleave(g[2..], w[2..]) == " world!";
    assert Interleave(g[1..], w[1..]) == ", hello world!";
  }
}
