/** Rendering a ranked entry for display as `word : count`.

    The count is written in decimal as Integer.toString writes a
    non-negative int: no sign, no leading zeros, "0" for zero. A token never
    contains a space or a colon (both are delimiters), so a rendered line
    can be read back: `ParseLine` is the inverse that shows the rendering
    loses nothing.
 */
module Render {
  import opened Wrappers
  import opened Frequency
  import Tokenizer

  predicate IsDigit(c: char) {
    '0' <= c <= '9'
  }

  predicate IsDigits(s: string) {
    |s| > 0 && forall i :: 0 <= i < |s| ==> IsDigit(s[i])
  }

  function DigitChar(d: nat): char
    requires d < 10
  {
    ('0' as int + d) as char
  }

  function DigitValue(c: char): nat
    requires IsDigit(c)
  {
    c as int - '0' as int
  }

  /** Decimal digits without a leading zero, except for the single digit
      of zero: the only form in which a count is ever written. */
  predicate IsCanonical(s: string) {
    IsDigits(s) && (s[0] == '0' ==> |s| == 1)
  }

  /** A non-negative int written in decimal, as Integer.toString writes it. */
  function Decimal(n: nat): (s: string)
    ensures IsCanonical(s)
    ensures s[0] == '0' ==> n == 0
  {
    if n < 10 then [DigitChar(n)] else Decimal(n / 10) + [DigitChar(n % 10)]
  }

  /** The value of a string of decimal digits. */
  function ParseDecimal(s: string): nat
    requires forall i :: 0 <= i < |s| ==> IsDigit(s[i])
  {
    if |s| == 0 then 0 else ParseDecimal(s[..|s| - 1]) * 10 + DigitValue(s[|s| - 1])
  }

  lemma {:induction false} DecimalRoundTrip(n: nat)
    ensures ParseDecimal(Decimal(n)) == n
  {
    if n >= 10 {
      DecimalRoundTrip(n / 10);
      var s := Decimal(n);
      assert s[..|s| - 1] == Decimal(n / 10);
    }
  }

  /** Every canonical digit string is the decimal form of its value: the
      inverse direction of DecimalRoundTrip. */
  lemma {:induction false} ParseDecimalRoundTrip(s: string)
    requires IsCanonical(s)
    ensures Decimal(ParseDecimal(s)) == s
    decreases |s|
  {
    var n := ParseDecimal(s);
    var p := s[..|s| - 1];
    if |s| == 1 {
      assert p == [];
    } else {
      ParseDecimalPositive(p);
      ParseDecimalRoundTrip(p);
      assert n / 10 == ParseDecimal(p) && n % 10 == DigitValue(s[|s| - 1]);
      assert s == p + [s[|s| - 1]];
    }
  }

  lemma {:induction false} ParseDecimalPositive(s: string)
    requires IsDigits(s) && s[0] != '0'
    ensures ParseDecimal(s) >= 1
    decreases |s|
  {
    if |s| > 1 {
      ParseDecimalPositive(s[..|s| - 1]);
    }
  }

  /** A ranked entry as displayed: its word, then " : ", then its count in
      decimal. */
  function RenderEntry(e: Entry): (line: string)
    ensures |line| > |e.word| + 3
    ensures line[..|e.word|] == e.word
    ensures line[|e.word|..|e.word| + 3] == " : "
    ensures IsCanonical(line[|e.word| + 3..])
    ensures ParseDecimal(line[|e.word| + 3..]) == e.count
  {
    DecimalRoundTrip(e.count);
    e.word + " : " + Decimal(e.count)
  }

  function RenderAll(es: seq<Entry>): (lines: seq<string>) {
    seq(|es|, i requires 0 <= i < |es| => RenderEntry(es[i]))
  }

  /** Index of the first space in s, or |s| when there is none. */
  function FirstSpace(s: string): (i: nat)
    ensures i <= |s|
    ensures forall k :: 0 <= k < i ==> s[k] != ' '
    ensures i < |s| ==> s[i] == ' '
  {
    if |s| == 0 || s[0] == ' ' then 0 else 1 + FirstSpace(s[1..])
  }

  /** Reads a displayed line back into an entry: the word up to the first
      space, then " : ", then the count in decimal without leading zeros. */
  function ParseLine(line: string): Option<Entry> {
    var i := FirstSpace(line);
    if i + 3 <= |line| && line[i..i + 3] == " : " && IsCanonical(line[i + 3..]) then
      Some(Entry(line[..i], ParseDecimal(line[i + 3..])))
    else
      None
  }

  /** Every entry whose word is a token can be read back from its line. */
  lemma RenderRoundTrip(e: Entry)
    requires Tokenizer.IsWord(e.word)
    ensures ParseLine(RenderEntry(e)) == Some(e)
  {
    var line := RenderEntry(e);
    var w := e.word;
    var n := |w|;
    assert forall k :: 0 <= k < n ==> line[k] == w[k];
    assert ' ' in Tokenizer.Delimiters;
    assert FirstSpace(line) == n by {
      FirstSpaceIs(line, n);
    }
    assert line[..n] == w;
    assert line[n..n + 3] == " : ";
    assert line[n + 3..] == Decimal(e.count);
    DecimalRoundTrip(e.count);
  }

  /** The reading is exact: a line that reads back as an entry is that
      entry's rendering, character for character. */
  lemma ParseLineExact(line: string, e: Entry)
    requires ParseLine(line) == Some(e)
    ensures line == RenderEntry(e)
  {
    var i := FirstSpace(line);
    ParseDecimalRoundTrip(line[i + 3..]);
    assert line == line[..i] + line[i..i + 3] + line[i + 3..];
  }

  lemma FirstSpaceIs(s: string, n: nat)
    requires n < |s| && s[n] == ' '
    requires forall k :: 0 <= k < n ==> s[k] != ' '
    ensures FirstSpace(s) == n
  {
  }

  /** The displayed list has one line per ranked entry, each reading back
      as that entry. */
  lemma RenderAllRoundTrip(es: seq<Entry>)
    requires forall i :: 0 <= i < |es| ==> Tokenizer.IsWord(es[i].word)
    ensures |RenderAll(es)| == |es|
    ensures forall i :: 0 <= i < |es| ==> ParseLine(RenderAll(es)[i]) == Some(es[i])
  {
    forall i | 0 <= i < |es|
      ensures ParseLine(RenderAll(es)[i]) == Some(es[i])
    {
      RenderRoundTrip(es[i]);
    }
  }
}
