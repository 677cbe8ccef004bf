/** What the CSV writer prints, and what the reader of .import makes of any text, said of the
    characters themselves. */
module CsvMeaning {
  import opened Bytes
  import opened Csv

  function CountQuotes(s: seq<Byte>): nat {
    multiset(s)[QUOTE]
  }

  lemma CountQuotesStep(s: seq<Byte>)
    requires s != []
    ensures CountQuotes(s) == CountQuotes(s[..|s| - 1]) + if s[|s| - 1] == QUOTE then 1 else 0
  {
    assert s == s[..|s| - 1] + [s[|s| - 1]];
    assert multiset(s) == multiset(s[..|s| - 1]) + multiset{s[|s| - 1]};
  }

  // ----- writing -----

  lemma {:induction false} DoubledLength(z: Field)
    ensures |Doubled(z)| == |z| + CountQuotes(z)
  {
    if z != [] {
      DoubledLength(z[..|z| - 1]);
      CountQuotesStep(z);
    }
  }

  /** Character k stands behind those before it and one more character for each quote among them;
      a quote is followed by a second one. */
  lemma {:induction false} DoubledAt(z: Field, k: nat)
    requires k < |z|
    ensures var at, text := k + CountQuotes(z[..k]), Doubled(z);
      at < |text| && text[at] == z[k] && (z[k] == QUOTE ==> at + 1 < |text| && text[at + 1] == QUOTE)
  {
    hide CountQuotes;
    var last := |z| - 1;
    DoubledLength(z[..last]);
    if k < last {
      DoubledAt(z[..last], k);
      assert z[..last][..k] == z[..k];
    }
  }

  // ----- reading: fields -----

  /** Text is within quotes if and only if it holds an odd number of them. */
  lemma {:induction false} InQuoteExactly(s: seq<Byte>)
    ensures InQuote(s) <==> CountQuotes(s) % 2 == 1
  {
    if s != [] {
      InQuoteExactly(s[..|s| - 1]);
      CountQuotesStep(s);
      hide CountQuotes;
    }
  }

  /** There is a separator at k that does not stand within quotes. */
  ghost predicate CutsAt(s: seq<Byte>, separator: Byte, k: nat) {
    k < |s| && s[k] == separator && CountQuotes(s[..k + 1]) % 2 == 0
  }

  /** A line without such a separator is one field; every such separator parts the fields before it
      from those behind it. */
  lemma SplitExactly(s: seq<Byte>, separator: Byte)
    ensures (forall k: nat :: !CutsAt(s, separator, k)) ==> Split(s, separator) == [s]
    ensures forall k: nat :: CutsAt(s, separator, k) ==>
      Split(s, separator) == Split(s[..k], separator) + Split(s[k + 1..], separator)
  {
    hide InQuote, Split, CountQuotes;
    if forall k: nat :: !CutsAt(s, separator, k) {
      forall i | 0 <= i < |s| && s[i] == separator ensures InQuote(s[..i + 1]) {
        assert !CutsAt(s, separator, i);
        InQuoteExactly(s[..i + 1]);
      }
      SplitSingle(s, separator);
    }
    forall k: nat | CutsAt(s, separator, k)
      ensures Split(s, separator) == Split(s[..k], separator) + Split(s[k + 1..], separator)
    {
      InQuoteExactly(s[..k + 1]);
      SplitAtCut(s[..k + 1], s[k + 1..], separator);
      assert s[..k + 1] + s[k + 1..] == s && s[..k + 1][..k] == s[..k];
    }
  }

  lemma {:induction false} SplitAtCut(head: seq<Byte>, t: seq<Byte>, separator: Byte)
    requires head != [] && head[|head| - 1] == separator && !InQuote(head)
    ensures Split(head + t, separator) == Split(head[..|head| - 1], separator) + Split(t, separator)
  {
    hide InQuote, Split;
    var s := head + t;
    if t == [] {
      assert s == head;
      SplitStep(head, separator);
      SplitNothing(separator);
    } else {
      assert s[..|s| - 1] == head + t[..|t| - 1];
      SplitAtCut(head, t[..|t| - 1], separator);
      InQuoteAppend(head, t);
      SplitStep(s, separator);
      SplitStep(t, separator);
      var front, back := Split(head[..|head| - 1], separator), Split(t[..|t| - 1], separator);
      assert front + (back + [[]]) == front + back + [[]];
      assert front + back != [] && (front + back)[|front + back| - 1] == back[|back| - 1];
    }
  }

  lemma SplitNothing(separator: Byte)
    ensures Split([], separator) == [[]]
  {
  }

  lemma SplitStep(s: seq<Byte>, separator: Byte)
    requires s != []
    ensures var before, c := Split(s[..|s| - 1], separator), s[|s| - 1];
      Split(s, separator) ==
      if !InQuote(s) && c == separator then before + [[]]
      else before[|before| - 1 := before[|before| - 1] + [c]]
  {
  }

  /** How many quotes s ends in. */
  function QuotesAtEnd(s: seq<Byte>): nat {
    if s == [] || s[|s| - 1] != QUOTE then 0 else 1 + QuotesAtEnd(s[..|s| - 1])
  }

  /** The characters of s, without the quotes that have an even number of quotes directly before them. */
  function EvenQuotesDropped(s: seq<Byte>): seq<Byte> {
    if s == [] then []
    else
      var before, c := s[..|s| - 1], s[|s| - 1];
      EvenQuotesDropped(before) + if c == QUOTE && QuotesAtEnd(before) % 2 == 0 then [] else [c]
  }

  lemma {:induction false} QuotesAtEndOfTail(s: seq<Byte>, n: nat)
    requires n <= |s|
    requires (n == 1 && s[0] != QUOTE) || (n == 2 && s[0] == QUOTE)
    ensures QuotesAtEnd(s) % 2 == QuotesAtEnd(s[n..]) % 2
  {
    var last := |s| - 1;
    if |s| > n {
      QuotesAtEndOfTail(s[..last], n);
      assert s[..last][n..] == s[n..][..last - n];
    } else {
      assert s[n..] == [] && QuotesAtEnd(s[..0]) == 0;
      if n == 2 { assert s[..1] == [QUOTE] && s[..1][..0] == s[..0]; }
    }
  }

  lemma {:induction false} UndoubledOneMore(s: seq<Byte>, c: Byte)
    ensures Undoubled(s + [c]) == Undoubled(s) + if c == QUOTE && QuotesAtEnd(s) % 2 == 0 then [] else [c]
    decreases |s|
  {
    if s == [] {
      assert s + [c] == [c] && [c][1..] == [];
    } else if s == [QUOTE] {
      assert [QUOTE, c][2..] == [] && s + [c] == [QUOTE, c] && [QUOTE][..0] == [];
      assert QuotesAtEnd([QUOTE]) == 1;
    } else {
      var n := if s[0] != QUOTE then 1 else 2;
      QuotesAtEndOfTail(s, n);
      hide QuotesAtEnd;
      assert (s + [c])[n..] == s[n..] + [c];
      UndoubledOneMore(s[n..], c);
    }
  }

  /** A field that begins with a quote loses it, and every further quote that has an even number of
      quotes directly before it, not counting the first; any other field is left as it is. */
  lemma DequotedExactly(s: seq<Byte>)
    ensures Dequoted(s) == if s != [] && s[0] == QUOTE then EvenQuotesDropped(s[1..]) else s
  {
    if s != [] { UndoubledDrops(s[1..]); }
  }

  lemma {:induction false} UndoubledDrops(s: seq<Byte>)
    ensures Undoubled(s) == EvenQuotesDropped(s)
  {
    if s != [] {
      var last := |s| - 1;
      UndoubledDrops(s[..last]);
      UndoubledOneMore(s[..last], s[last]);
      assert s == s[..last] + [s[last]];
      hide Undoubled, QuotesAtEnd;
    }
  }

  // ----- reading: lines -----

  /** A newline at the end of s that does not stand within quotes. */
  ghost predicate EndsInNewline(s: seq<Byte>) {
    s != [] && s[|s| - 1] == NEWLINE && CountQuotes(s) % 2 == 0
  }

  function Joined(lines: seq<seq<Byte>>): seq<Byte> {
    if lines == [] then [] else lines[0] + Joined(lines[1..])
  }

  /** Nothing shorter than this line is one. */
  ghost predicate IsLine(line: seq<Byte>) {
    line != [] && forall n :: 0 < n < |line| ==> !EndsInNewline(line[..n])
  }

  /** The text in lines: each ends in its first newline that is not quoted, only the last one need
      not have any. */
  ghost predicate AreLines(text: seq<Byte>, lines: seq<seq<Byte>>) {
    && Joined(lines) == text
    && forall i :: 0 <= i < |lines| ==> IsLine(lines[i]) && (i < |lines| - 1 ==> EndsInNewline(lines[i]))
  }

  /** A line without the newline that ends it, and without a carriage return before that. */
  ghost predicate IsContent(line: seq<Byte>, content: seq<Byte>) {
    if EndsInNewline(line) then
      line == content + [CARRIAGE_RETURN, NEWLINE] ||
      (line == content + [NEWLINE] && (content == [] || content[|content| - 1] != CARRIAGE_RETURN))
    else line == content
  }

  ghost predicate AreContents(lines: seq<seq<Byte>>, contents: seq<seq<Byte>>) {
    |contents| == |lines| && forall i :: 0 <= i < |lines| ==> IsContent(lines[i], contents[i])
  }

  lemma {:induction false} FirstLineEnd(s: seq<Byte>, n: nat)
    requires n < |s|
    ensures forall j :: n < j < LineEnd(s, n) ==> !EndsInNewline(s[..j])
    ensures LineEnd(s, n) < |s| ==> EndsInNewline(s[..LineEnd(s, n)])
    decreases |s| - n
  {
    InQuoteExactly(s[..n + 1]);
    hide CountQuotes, InQuote;
    if LineEnd(s, n) != n + 1 { FirstLineEnd(s, n + 1); }
  }

  lemma LineEndOfFirst(line: seq<Byte>, rest: seq<Byte>)
    requires IsLine(line) && (rest != [] ==> EndsInNewline(line))
    ensures LineEnd(line + rest, 0) == |line|
  {
    hide EndsInNewline;
    var s := line + rest;
    FirstLineEnd(s, 0);
    assert s[..|line|] == line;
    assert forall n :: 0 <= n <= |line| ==> s[..n] == line[..n];
  }

  lemma ContentOf(s: seq<Byte>)
    requires s != []
    ensures IsContent(s[..LineEnd(s, 0)], LineOf(s))
  {
    InQuoteExactly(s[..LineEnd(s, 0)]);
    hide CountQuotes, InQuote, LineEnd;
  }

  lemma ContentCases(line: seq<Byte>, content: seq<Byte>)
    requires IsContent(line, content) && EndsInNewline(line)
    ensures content ==
      if |line| > 1 && line[|line| - 2] == CARRIAGE_RETURN then line[..|line| - 2] else line[..|line| - 1]
  {
    hide EndsInNewline;
  }

  lemma ContentIsUnique(line: seq<Byte>, content: seq<Byte>, content': seq<Byte>)
    requires IsContent(line, content) && IsContent(line, content')
    ensures content == content'
  {
    hide EndsInNewline;
    if EndsInNewline(line) {
      ContentCases(line, content);
      ContentCases(line, content');
    }
  }

  /** Every text consists of lines. */
  lemma {:induction false} LinesOf(text: seq<Byte>) returns (lines: seq<seq<Byte>>, contents: seq<seq<Byte>>)
    ensures AreLines(text, lines) && AreContents(lines, contents)
    decreases |text|
  {
    if text == [] {
      lines, contents := [], [];
    } else {
      hide *;
      lines, contents := LinesOf(text[LineEnd(text, 0)..]);
      FirstLineBefore(text, lines, contents);
      lines, contents := [text[..LineEnd(text, 0)]] + lines, [LineOf(text)] + contents;
    }
  }

  lemma FirstLineBefore(text: seq<Byte>, lines: seq<seq<Byte>>, contents: seq<seq<Byte>>)
    requires text != [] && AreLines(text[LineEnd(text, 0)..], lines) && AreContents(lines, contents)
    ensures AreLines(text, [text[..LineEnd(text, 0)]] + lines)
    ensures AreContents([text[..LineEnd(text, 0)]] + lines, [LineOf(text)] + contents)
  {
    hide *;
    FirstIsLine(text);
    ContentOf(text);
    var e := LineEnd(text, 0);
    LineBefore(text[..e], LineOf(text), text[e..], lines, contents);
    assert text[..e] + text[e..] == text;
  }

  lemma LineBefore(line: seq<Byte>, content: seq<Byte>, rest: seq<Byte>,
      lines: seq<seq<Byte>>, contents: seq<seq<Byte>>)
    requires IsLine(line) && IsContent(line, content) && (rest != [] ==> EndsInNewline(line))
    requires AreLines(rest, lines) && AreContents(lines, contents)
    ensures AreLines(line + rest, [line] + lines) && AreContents([line] + lines, [content] + contents)
  {
    hide EndsInNewline, IsContent;
    assert lines != [] ==> lines[0] != [] && rest != [];
    assert ([line] + lines)[1..] == lines;
  }

  lemma FirstIsLine(text: seq<Byte>)
    requires text != []
    ensures var e := LineEnd(text, 0);
      IsLine(text[..e]) && (e < |text| ==> EndsInNewline(text[..e]))
  {
    FirstLineEnd(text, 0);
    hide EndsInNewline, LineEnd;
    var e := LineEnd(text, 0);
    assert forall n :: 0 < n < e ==> text[..e][..n] == text[..n];
  }

  /** All rows, or none: every line is split into its fields, which are counted and dequoted. */
  ghost predicate Yields(result: ImportResult, contents: seq<seq<Byte>>, separator: Byte, nCol: nat) {
    if exists i :: 0 <= i < |contents| && |Split(contents[i], separator)| != nCol then result == ColumnError
    else
      && result.Rows? && |result.rows| == |contents|
      && forall i :: 0 <= i < |contents| ==> result.rows[i] == DequotedAll(Split(contents[i], separator))
  }

  lemma YieldsOneMore(result: ImportResult, contents: seq<seq<Byte>>, separator: Byte, nCol: nat)
    requires contents != [] && Yields(result, contents[1..], separator, nCol)
    ensures var fields := Split(contents[0], separator);
      && (|fields| != nCol || result.ColumnError? ==> Yields(ColumnError, contents, separator, nCol))
      && (|fields| == nCol && result.Rows? ==>
            Yields(Rows([DequotedAll(fields)] + result.rows), contents, separator, nCol))
  {
    hide Split, DequotedAll;
    assert forall i :: 0 < i < |contents| ==> contents[1..][i - 1] == contents[i];
  }

  /** Importing yields the rows of the lines of the text, whatever it holds. */
  lemma {:induction false} ImportedExactly(text: seq<Byte>, lines: seq<seq<Byte>>, contents: seq<seq<Byte>>,
      separator: Byte, nCol: nat)
    requires AreLines(text, lines) && AreContents(lines, contents)
    ensures Yields(Imported(text, separator, nCol), contents, separator, nCol)
    decreases |lines|
  {
    if lines != [] {
      hide AreLines, AreContents, Split, DequotedAll, LineEnd, LineOf, Yields;
      FirstOfLines(text, lines, contents);
      ImportedExactly(Joined(lines[1..]), lines[1..], contents[1..], separator, nCol);
      YieldsOneMore(Imported(Joined(lines[1..]), separator, nCol), contents, separator, nCol);
    }
  }

  lemma FirstOfLines(text: seq<Byte>, lines: seq<seq<Byte>>, contents: seq<seq<Byte>>)
    requires AreLines(text, lines) && AreContents(lines, contents) && lines != []
    ensures contents != [] && text != [] && LineOf(text) == contents[0]
    ensures text[LineEnd(text, 0)..] == Joined(lines[1..])
    ensures AreLines(Joined(lines[1..]), lines[1..]) && AreContents(lines[1..], contents[1..])
  {
    hide EndsInNewline, LineEnd, LineOf, IsContent;
    var rest := Joined(lines[1..]);
    assert rest != [] ==> |lines| > 1;
    LineEndOfFirst(lines[0], rest);
    assert text[..|lines[0]|] == lines[0];
    ContentOf(text);
    ContentIsUnique(lines[0], contents[0], LineOf(text));
  }
}
