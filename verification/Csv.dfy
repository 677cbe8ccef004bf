/** CSV in sqlite/shell.c: the row writer of MODE_Csv against the reader of .import, for a
    separator of one character. The quoting is that of section 2, rules 5 to 7, of RFC 4180. */
module Csv {
  import opened Bytes

  type Field = seq<Byte>
  type Row = seq<Field>

  // ----- writing -----

  /** The table needCsvQuote. */
  predicate NeedCsvQuote(c: Byte) {
    c <= SPACE || c == QUOTE || c == APOSTROPHE || c >= DELETE
  }

  predicate MustQuote(z: Field, separator: Byte) {
    z == [] || exists i :: 0 <= i < |z| && (NeedCsvQuote(z[i]) || z[i] == separator)
  }

  /** Every quote is doubled. */
  function Doubled(z: Field): seq<Byte> {
    if z == [] then []
    else Doubled(z[..|z| - 1]) + if z[|z| - 1] == QUOTE then [QUOTE, QUOTE] else [z[|z| - 1]]
  }

  function FieldText(z: Field, separator: Byte): seq<Byte> {
    if MustQuote(z, separator) then [QUOTE] + Doubled(z) + [QUOTE] else z
  }

  function FieldsText(row: Row, separator: Byte): seq<Byte>
    requires row != []
  {
    var last := |row| - 1;
    if last == 0 then FieldText(row[0], separator)
    else FieldsText(row[..last], separator) + [separator] + FieldText(row[last], separator)
  }

  function RowText(row: Row, separator: Byte): seq<Byte>
    requires row != []
  {
    FieldsText(row, separator) + [NEWLINE]
  }

  function RowsText(rows: seq<Row>, separator: Byte): seq<Byte>
    requires forall i :: 0 <= i < |rows| ==> rows[i] != []
  {
    if rows == [] then [] else RowText(rows[0], separator) + RowsText(rows[1..], separator)
  }

  /** The meaning of MustQuote, in the numbers of the characters. */
  ghost predicate NeedsQuotes(z: Field, separator: Byte) {
    z == [] || exists i :: (0 <= i < |z| &&
      (z[i] <= 32 || z[i] == 34 || z[i] == 39 || z[i] >= 127 || z[i] == separator))
  }

  /** A field is put in quotes if and only if it is empty, holds the separator, or holds a control
      character, a space, a quote, an apostrophe or a byte from 127 on. Otherwise it is printed as
      it is, and does not begin with a quote. */
  lemma FieldTextExactly(z: Field, separator: Byte)
    ensures var text := FieldText(z, separator);
      && (NeedsQuotes(z, separator) ==> text == [QUOTE] + Doubled(z) + [QUOTE])
      && (!NeedsQuotes(z, separator) ==> text == z)
      && (text != [] && text[0] == QUOTE <==> NeedsQuotes(z, separator))
  {
  }

  /** output_csv, for a string that is not NULL. */
  method OutputCsv(z: array<Byte>, separator: Byte, bSep: bool, ghost s: Field) returns (out: seq<Byte>)
    requires HoldsString(z, s)
    ensures out == FieldText(s, separator) + if bSep then [separator] else []
    ensures out != [] && (out[0] == QUOTE <==> NeedsQuotes(s, separator))
    ensures !NeedsQuotes(s, separator) ==> out == s + if bSep then [separator] else []
  {
    FieldTextExactly(s, separator);
    hide NeedsQuotes;
    out := [];
    var i := 0;
    while z[i] != NUL
      invariant 0 <= i <= |s|
      invariant forall j :: 0 <= j < i ==> !(NeedCsvQuote(s[j]) || s[j] == separator)
      decreases |s| - i
    {
      assert z[i] == s[i];
      if NeedCsvQuote(z[i]) || z[i] == separator {
        i := 0;
        break;
      }
      i := i + 1;
    }
    assert i == 0 <==> MustQuote(s, separator);
    if i == 0 {
      out := out + [QUOTE];
      while z[i] != NUL
        invariant 0 <= i <= |s| && out == [QUOTE] + Doubled(s[..i])
        decreases |s| - i
      {
        assert s[..i + 1][..i] == s[..i] && s[i] == z[i];
        if z[i] == QUOTE { out := out + [QUOTE]; }
        out := out + [z[i]];
        i := i + 1;
      }
      assert s[..i] == s;
      out := out + [QUOTE];
    } else {
      out := out + z[..i];
    }
    if bSep { out := out + [separator]; }
  }

  /** The row writer of MODE_Csv. */
  method PrintRow(azArg: seq<array<Byte>>, separator: Byte, ghost row: Row) returns (out: seq<Byte>)
    requires |azArg| == |row| > 0 && forall i :: 0 <= i < |row| ==> HoldsString(azArg[i], row[i])
    ensures out == RowText(row, separator)
  {
    hide FieldText;
    out := [];
    for i := 0 to |azArg|
      invariant i == 0 ==> out == []
      invariant i > 0 ==> out == FieldsText(row[..i], separator) + if i < |azArg| then [separator] else []
    {
      var text := OutputCsv(azArg[i], separator, i < |azArg| - 1, row[i]);
      out := out + text;
      assert row[..i + 1][..i] == row[..i];
    }
    assert row[..|azArg|] == row;
    out := out + [NEWLINE];
  }

  // ----- reading: the meaning -----

  /** Whether an odd number of quotes precedes. */
  function InQuote(s: seq<Byte>): bool {
    if s == [] then false else InQuote(s[..|s| - 1]) != (s[|s| - 1] == QUOTE)
  }

  function StripNewline(s: seq<Byte>): seq<Byte>
    requires s != []
  {
    if |s| > 1 && s[|s| - 2] == CARRIAGE_RETURN then s[..|s| - 2] else s[..|s| - 1]
  }

  /** The line is cut at the separators that are not quoted. */
  function Split(s: seq<Byte>, separator: Byte): (fields: seq<seq<Byte>>)
    ensures fields != []
  {
    if s == [] then [[]]
    else
      var before, c := Split(s[..|s| - 1], separator), s[|s| - 1];
      if !InQuote(s) && c == separator then before + [[]]
      else before[|before| - 1 := before[|before| - 1] + [c]]
  }

  /** What is left of the text behind an opening quote. */
  function Undoubled(s: seq<Byte>): seq<Byte>
    decreases |s|
  {
    if s == [] then []
    else if s[0] != QUOTE then [s[0]] + Undoubled(s[1..])
    else if |s| == 1 then []
    else [s[1]] + Undoubled(s[2..])
  }

  function Dequoted(s: seq<Byte>): Field {
    if s != [] && s[0] == QUOTE then Undoubled(s[1..]) else s
  }

  function DequotedAll(fields: seq<seq<Byte>>): Row {
    seq(|fields|, i requires 0 <= i < |fields| => Dequoted(fields[i]))
  }

  // ----- round trip -----

  ghost predicate GoodSeparator(separator: Byte) {
    separator != NUL && separator != QUOTE && separator != NEWLINE
  }

  lemma {:induction false} InQuoteAppend(s: seq<Byte>, t: seq<Byte>)
    ensures InQuote(s + t) == (InQuote(s) != InQuote(t))
  {
    if t == [] {
      assert s + t == s;
    } else {
      assert (s + t)[..|s + t| - 1] == s + t[..|t| - 1];
      InQuoteAppend(s, t[..|t| - 1]);
    }
  }

  /** Text without an unquoted separator continues the last field. */
  lemma {:induction false} SplitContinues(s: seq<Byte>, t: seq<Byte>, separator: Byte)
    requires forall i :: 0 <= i < |t| && t[i] == separator ==> InQuote(s + t[..i + 1])
    ensures var before := Split(s, separator);
      Split(s + t, separator) == before[|before| - 1 := before[|before| - 1] + t]
  {
    hide InQuote, Split;
    var before := Split(s, separator);
    if t == [] {
      assert s + t == s;
      assert before[|before| - 1] + t == before[|before| - 1];
    } else {
      var t', c := t[..|t| - 1], t[|t| - 1];
      QuotedPrefix(s, t, separator);
      SplitContinues(s, t', separator);
      assert s + t == s + t' + [c];
      SplitOneMore(s + t', c, separator);
      assert before[|before| - 1] + t == before[|before| - 1] + t' + [c];
    }
  }

  lemma QuotedPrefix(s: seq<Byte>, t: seq<Byte>, separator: Byte)
    requires t != [] && forall i :: 0 <= i < |t| && t[i] == separator ==> InQuote(s + t[..i + 1])
    ensures var t' := t[..|t| - 1];
      && (forall i :: 0 <= i < |t'| && t'[i] == separator ==> InQuote(s + t'[..i + 1]))
      && (t[|t| - 1] == separator ==> InQuote(s + t' + [t[|t| - 1]]))
  {
    hide InQuote;
    var t' := t[..|t| - 1];
    forall i | 0 <= i < |t'| && t'[i] == separator ensures InQuote(s + t'[..i + 1]) {
      assert t'[..i + 1] == t[..i + 1];
    }
    assert s + t' + [t[|t| - 1]] == s + t[..|t|];
  }

  lemma SplitOneMore(s: seq<Byte>, c: Byte, separator: Byte)
    requires c == separator ==> InQuote(s + [c])
    ensures var before := Split(s, separator);
      Split(s + [c], separator) == before[|before| - 1 := before[|before| - 1] + [c]]
  {
    assert (s + [c])[..|s|] == s;
  }

  /** Within the quotes of a printed field, the parity of the quotes seen is odd at every
      character that is not a quote itself. */
  lemma {:induction false} DoubledParity(z: Field)
    ensures !InQuote(Doubled(z))
    ensures forall i :: 0 <= i < |Doubled(z)| && Doubled(z)[i] != QUOTE ==> !InQuote(Doubled(z)[..i + 1])
  {
    if z != [] {
      var before, c := Doubled(z[..|z| - 1]), z[|z| - 1];
      DoubledParity(z[..|z| - 1]);
      var added := if c == QUOTE then [QUOTE, QUOTE] else [c];
      InQuoteAppend(before, added);
      AddedParity(c);
      forall i | 0 <= i < |Doubled(z)| && Doubled(z)[i] != QUOTE ensures !InQuote(Doubled(z)[..i + 1]) {
        if i < |before| {
          assert Doubled(z)[..i + 1] == before[..i + 1];
        } else {
          assert c != QUOTE && i == |before|;
          assert Doubled(z)[..i + 1] == Doubled(z);
        }
      }
    }
  }

  lemma AddedParity(c: Byte)
    ensures !InQuote(if c == QUOTE then [QUOTE, QUOTE] else [c])
  {
    assert [c][..0] == [] && [QUOTE][..0] == [] && [QUOTE, QUOTE][..1] == [QUOTE];
    assert InQuote([c]) == (c == QUOTE);
    assert InQuote([QUOTE]);
    assert !InQuote([QUOTE, QUOTE]);
  }

  /** Every c in t is quoted. */
  ghost predicate Quotes(t: seq<Byte>, c: Byte) {
    forall i :: 0 <= i < |t| && t[i] == c ==> InQuote(t[..i + 1])
  }

  /** Text that can stand before a newline: all its quotes are closed, and its newlines quoted. */
  ghost predicate LineSafe(t: seq<Byte>) {
    t != [] && !InQuote(t) && t[|t| - 1] != CARRIAGE_RETURN && Quotes(t, NEWLINE)
  }

  /** A printed field leaves no quote open, and quotes its separators and newlines. */
  lemma FieldParity(z: Field, separator: Byte)
    requires separator != QUOTE
    ensures LineSafe(FieldText(z, separator)) && Quotes(FieldText(z, separator), separator)
  {
    var t := FieldText(z, separator);
    if MustQuote(z, separator) {
      var d := Doubled(z);
      DoubledParity(z);
      AddedParity(QUOTE);
      assert [QUOTE][..0] == [] && InQuote([QUOTE]);
      InQuoteAppend([QUOTE], d);
      InQuoteAppend([QUOTE] + d, [QUOTE]);
      forall i | 0 <= i < |t| && (t[i] == separator || t[i] == NEWLINE) ensures InQuote(t[..i + 1]) {
        assert t[..i + 1] == [QUOTE] + d[..i];
        InQuoteAppend([QUOTE], d[..i]);
      }
    } else {
      NoQuotes(z);
    }
  }

  lemma {:induction false} NoQuotes(s: seq<Byte>)
    requires QUOTE !in s
    ensures !InQuote(s)
  {
    if s != [] { NoQuotes(s[..|s| - 1]); }
  }

  lemma {:induction false} UndoubledAppend(s: seq<Byte>, z: Field)
    ensures Undoubled(Doubled(z) + s) == z + Undoubled(s)
    decreases |z|
  {
    if z == [] {
      assert Doubled(z) + s == s;
    } else {
      var last := |z| - 1;
      var c := z[last];
      var added := if c == QUOTE then [QUOTE, QUOTE] else [c];
      assert Doubled(z) + s == Doubled(z[..last]) + (added + s);
      UndoubledAppend(added + s, z[..last]);
      assert (added + s)[|added|..] == s;
      assert z == z[..last] + [c];
    }
  }

  /** The reader recovers the printed field. */
  lemma FieldRoundTrip(z: Field, separator: Byte)
    ensures Dequoted(FieldText(z, separator)) == z
  {
    if MustQuote(z, separator) {
      assert FieldText(z, separator)[1..] == Doubled(z) + [QUOTE];
      UndoubledAppend([QUOTE], z);
      assert Undoubled([QUOTE]) == [];
    }
  }

  function FieldTexts(row: Row, separator: Byte): seq<seq<Byte>> {
    seq(|row|, i requires 0 <= i < |row| => FieldText(row[i], separator))
  }

  /** A printed row quotes its newlines and leaves no quote open. */
  lemma {:induction false} RowIsSafe(row: Row, separator: Byte)
    requires row != [] && GoodSeparator(separator)
    ensures LineSafe(FieldsText(row, separator))
  {
    hide LineSafe, Quotes, FieldText;
    var last := |row| - 1;
    FieldParity(row[last], separator);
    if last > 0 {
      RowIsSafe(row[..last], separator);
      AppendKeepsSafe(FieldsText(row[..last], separator), FieldText(row[last], separator), separator);
    }
  }

  /** The printed row is cut into the printed fields. */
  lemma {:induction false} RowSplits(row: Row, separator: Byte)
    requires row != [] && GoodSeparator(separator)
    ensures Split(FieldsText(row, separator), separator) == FieldTexts(row, separator)
  {
    hide LineSafe, Quotes, Split, FieldText;
    var last := |row| - 1;
    var f := FieldText(row[last], separator);
    FieldParity(row[last], separator);
    if last == 0 {
      SplitSingle(f, separator);
    } else {
      RowSplits(row[..last], separator);
      RowIsSafe(row[..last], separator);
      AppendSplits(FieldsText(row[..last], separator), f, separator);
      assert FieldTexts(row, separator) == FieldTexts(row[..last], separator) + [f];
    }
  }

  /** A row is one line: all of it but the newline at its end is cut into the printed fields. */
  lemma RowIsOneLine(row: Row, separator: Byte)
    requires row != [] && GoodSeparator(separator)
    ensures var text := RowText(row, separator);
      && text[|text| - 1] == NEWLINE && LineEnd(text, 0) == |text|
      && Split(text[..|text| - 1], separator) == FieldTexts(row, separator)
  {
    hide LineSafe, Split, FieldTexts, FieldsText, LineEnd;
    RowIsSafe(row, separator);
    RowSplits(row, separator);
    var t := FieldsText(row, separator);
    assert RowText(row, separator)[..|t|] == t && t + [NEWLINE] + [] == t + [NEWLINE];
    FirstLineEnds(t, [], 0);
  }

  /** A field behind closed quotes continues the last part. */
  lemma SplitField(head: seq<Byte>, f: seq<Byte>, separator: Byte)
    requires !InQuote(head) && Quotes(f, separator)
    ensures var before := Split(head, separator);
      Split(head + f, separator) == before[|before| - 1 := before[|before| - 1] + f]
  {
    forall i | 0 <= i < |f| && f[i] == separator ensures InQuote(head + f[..i + 1]) {
      InQuoteAppend(head, f[..i + 1]);
    }
    SplitContinues(head, f, separator);
  }

  lemma SplitSingle(f: seq<Byte>, separator: Byte)
    requires Quotes(f, separator)
    ensures Split(f, separator) == [f]
  {
    SplitField([], f, separator);
    assert [] + f == f && Split([], separator) == [[]];
  }

  lemma AppendSplits(before: seq<Byte>, f: seq<Byte>, separator: Byte)
    requires GoodSeparator(separator) && LineSafe(before) && Quotes(f, separator)
    ensures Split(before + [separator] + f, separator) == Split(before, separator) + [f]
  {
    var head := before + [separator];
    assert head[..|before|] == before;
    assert !InQuote(head) && Split(head, separator) == Split(before, separator) + [[]];
    SplitField(head, f, separator);
    assert [] + f == f;
  }

  lemma AppendKeepsSafe(before: seq<Byte>, f: seq<Byte>, separator: Byte)
    requires GoodSeparator(separator) && LineSafe(before) && LineSafe(f)
    ensures LineSafe(before + [separator] + f)
  {
    var head := before + [separator];
    var t := head + f;
    assert head[..|before|] == before && !InQuote(head);
    InQuoteAppend(head, f);
    forall i | 0 <= i < |t| && t[i] == NEWLINE ensures InQuote(t[..i + 1]) {
      if i < |before| {
        assert t[..i + 1] == before[..i + 1];
      } else {
        var j := i - |head|;
        assert f[j] == NEWLINE && t[..i + 1] == head + f[..j + 1];
        InQuoteAppend(head, f[..j + 1]);
      }
    }
  }

  // ----- reading a file: the meaning -----

  /** The end of the first line of s, looked for from n on. */
  function LineEnd(s: seq<Byte>, n: nat): (e: nat)
    requires n < |s|
    ensures n < e <= |s|
    decreases |s| - n
  {
    if n + 1 == |s| || (s[n] == NEWLINE && !InQuote(s[..n + 1])) then n + 1 else LineEnd(s, n + 1)
  }

  /** The line without its newline; a file may end without one. */
  function LineOf(s: seq<Byte>): seq<Byte>
    requires s != []
  {
    var line := s[..LineEnd(s, 0)];
    if line[|line| - 1] == NEWLINE && !InQuote(line) then StripNewline(line) else line
  }

  datatype ImportResult = Rows(rows: seq<Row>) | ColumnError

  /** .import: all rows, or none if one of them has the wrong number of columns. */
  function Imported(s: seq<Byte>, separator: Byte, nCol: nat): ImportResult {
    if s == [] then Rows([])
    else
      var fields := Split(LineOf(s), separator);
      if |fields| != nCol then ColumnError
      else
        match Imported(s[LineEnd(s, 0)..], separator, nCol)
        case Rows(rows) => Rows([DequotedAll(fields)] + rows)
        case ColumnError => ColumnError
  }

  lemma {:induction false} FirstLineEnds(t: seq<Byte>, rest: seq<Byte>, n: nat)
    requires n <= |t| && LineSafe(t)
    ensures LineEnd(t + [NEWLINE] + rest, n) == |t| + 1
    decreases |t| - n
  {
    var s := t + [NEWLINE] + rest;
    if n == |t| {
      assert s[..n + 1] == t + [NEWLINE] && (t + [NEWLINE])[..|t|] == t;
    } else {
      assert s[n] == t[n] && s[..n + 1] == t[..n + 1];
      FirstLineEnds(t, rest, n + 1);
    }
  }

  /** Reading back any printed rows gives the same rows: fields may contain quotes, separators and
      newlines, and may be empty. */
  lemma {:induction false} CsvRoundTrip(rows: seq<Row>, separator: Byte, nCol: nat)
    requires GoodSeparator(separator) && nCol > 0 && forall i :: 0 <= i < |rows| ==> |rows[i]| == nCol
    ensures Imported(RowsText(rows, separator), separator, nCol) == Rows(rows)
  {
    hide FieldsText, FieldTexts, Split, DequotedAll, LineSafe, Imported, RowsText;
    if rows == [] {
      NothingImported(separator, nCol);
    } else {
      var t, rest := FieldsText(rows[0], separator), RowsText(rows[1..], separator);
      RowsTextStep(rows, separator);
      RowSplits(rows[0], separator);
      RowIsSafe(rows[0], separator);
      RowRoundTrip(rows[0], separator);
      FirstRow(t, rest, separator, nCol);
      CsvRoundTrip(rows[1..], separator, nCol);
      assert rows == [rows[0]] + rows[1..];
    }
  }

  lemma NothingImported(separator: Byte, nCol: nat)
    ensures Imported(RowsText([], separator), separator, nCol) == Rows([])
  {
  }

  lemma RowsTextStep(rows: seq<Row>, separator: Byte)
    requires rows != [] && forall i :: 0 <= i < |rows| ==> rows[i] != []
    ensures RowsText(rows, separator) == FieldsText(rows[0], separator) + [NEWLINE] + RowsText(rows[1..], separator)
  {
  }

  /** A safe line is read by itself. */
  lemma FirstRow(t: seq<Byte>, rest: seq<Byte>, separator: Byte, nCol: nat)
    requires LineSafe(t) && |Split(t, separator)| == nCol
    ensures Imported(t + [NEWLINE] + rest, separator, nCol) ==
      match Imported(rest, separator, nCol)
      case Rows(rows) => Rows([DequotedAll(Split(t, separator))] + rows)
      case ColumnError => ColumnError
  {
    hide Split, DequotedAll, LineSafe, LineEnd, LineOf;
    var s := t + [NEWLINE] + rest;
    FirstLineEnds(t, rest, 0);
    LineOfRow(t, rest);
    assert s[|t| + 1..] == rest;
  }

  lemma LineOfRow(t: seq<Byte>, rest: seq<Byte>)
    requires LineSafe(t)
    requires LineEnd(t + [NEWLINE] + rest, 0) == |t| + 1
    ensures LineOf(t + [NEWLINE] + rest) == t
  {
    assert (t + [NEWLINE] + rest)[..|t| + 1] == t + [NEWLINE];
    assert (t + [NEWLINE])[..|t|] == t;
  }

  lemma RowRoundTrip(row: Row, separator: Byte)
    ensures |FieldTexts(row, separator)| == |row| && DequotedAll(FieldTexts(row, separator)) == row
  {
    forall i | 0 <= i < |row| ensures DequotedAll(FieldTexts(row, separator))[i] == row[i] {
      FieldRoundTrip(row[i], separator);
    }
  }

  lemma QuoteAsSeparator()
    ensures Imported([97, QUOTE, 98, NEWLINE], QUOTE, 2) == ColumnError
  {
    var s := [97, QUOTE, 98, NEWLINE];
    QuoteOpensAtOne(s);
    hide InQuote, Split;
    assert LineEnd(s, 0) == LineEnd(s, 1) == LineEnd(s, 2) == LineEnd(s, 3) == 4;
    assert s[..4] == s && LineOf(s) == s;
    assert [] + s == s && |Split([], QUOTE)| == 1 by { NothingIsOneField(QUOTE); }
    forall i | 0 <= i < |s| && s[i] == QUOTE ensures InQuote([] + s[..i + 1]) {
      assert i == 1 && [] + s[..2] == s[..2];
    }
    SplitContinues([], s, QUOTE);
  }

  lemma NothingIsOneField(separator: Byte)
    ensures |Split([], separator)| == 1
  {
  }

  lemma QuoteOpensAtOne(s: seq<Byte>)
    requires |s| == 4 && s[0] != QUOTE && s[1] == QUOTE && s[2] != QUOTE && s[3] != QUOTE
    ensures !InQuote(s[..1]) && InQuote(s[..2]) && InQuote(s[..3]) && InQuote(s[..4])
  {
    assert s[..1][..0] == [] && s[..2][..1] == s[..1] && s[..3][..2] == s[..2] && s[..4][..3] == s[..3];
  }

  lemma NewlineAsSeparator()
    ensures Imported([97, NEWLINE, 98, NEWLINE], NEWLINE, 2) == ColumnError
  {
    var s := [97, NEWLINE, 98, NEWLINE];
    assert s[..1] == [97] && [97][..0] == [] && s[..2][..1] == [97] && !InQuote(s[..2]);
    hide InQuote, Split;
    assert LineEnd(s, 0) == LineEnd(s, 1) == 2;
    assert LineOf(s) == [97];
    OneFieldIsLeft();
  }

  lemma OneFieldIsLeft()
    ensures |Split([97], NEWLINE)| == 1
  {
    assert [97][..0] == [];
  }

  /** A quote or a newline as separator does not work: already two plain letters are not read back. */
  lemma BadSeparators(separator: Byte)
    requires separator == QUOTE || separator == NEWLINE
    ensures Imported(RowsText([[[97], [98]]], separator), separator, 2) == ColumnError
  {
    PlainRowText(separator);
    if separator == QUOTE { QuoteAsSeparator(); } else { NewlineAsSeparator(); }
  }

  lemma PlainRowText(separator: Byte)
    requires separator == QUOTE || separator == NEWLINE
    ensures RowsText([[[97], [98]]], separator) == [97, separator, 98, NEWLINE]
  {
    var row: Row := [[97], [98]];
    assert FieldText([97], separator) == [97] && FieldText([98], separator) == [98];
    assert row[..1] == [[97]] && FieldsText(row[..1], separator) == [97];
    assert [row][1..] == [] && RowsText([], separator) == [];
    assert RowText(row, separator) == [97, separator, 98, NEWLINE];
  }
}
