/** The .import command of sqlite/shell.c: lines are collected, split and dequoted in place. */
module CsvImport {
  import opened Bytes
  import opened Csv

  // ----- local_getline -----

  /** fgets takes at most max characters, and nothing behind a newline. */
  function ChunkLen(s: seq<Byte>, max: nat): (k: nat)
    ensures k <= max && k <= |s| && (k == 0 <==> s == [] || max == 0)
    ensures forall i :: 0 <= i < k - 1 ==> s[i] != NEWLINE
    ensures 0 < k < max && k < |s| ==> s[k - 1] == NEWLINE
  {
    if s == [] || max == 0 then 0
    else if s[0] == NEWLINE then 1
    else 1 + ChunkLen(s[1..], max - 1)
  }

  /** A chunk without an inner newline does not contain the end of the line, unless it ends there. */
  lemma {:induction false} ChunkKeepsLineEnd(s: seq<Byte>, n: nat, k: nat)
    requires k > 0 && n + k <= |s| && forall i :: n <= i < n + k - 1 ==> s[i] != NEWLINE
    ensures LineEnd(s, n) ==
            if n + k == |s| || (s[n + k - 1] == NEWLINE && !InQuote(s[..n + k])) then n + k else LineEnd(s, n + k)
    decreases k
  {
    if k > 1 { ChunkKeepsLineEnd(s, n + 1, k - 1); }
  }

  datatype Line = NoLine | Line(text: seq<Byte>)

  /** The inner loop of local_getline: the parity of quotes over the new characters. */
  method CountQuotes(s: seq<Byte>, n: nat, k: nat, inQuote: bool) returns (r: bool)
    requires n + k <= |s| && inQuote == InQuote(s[..n])
    ensures r == InQuote(s[..n + k])
  {
    r := inQuote;
    for i := n to n + k
      invariant r == InQuote(s[..i])
    {
      assert s[..i + 1][..i] == s[..i];
      if s[i] == QUOTE { r := !r; }
    }
  }

  /** n characters of s have been taken, and they do not contain the end of the line. */
  ghost predicate Reading(s: seq<Byte>, n: nat, inQuote: bool) {
    && n <= |s| && inQuote == InQuote(s[..n])
    && (n < |s| ==> LineEnd(s, 0) == LineEnd(s, n))
    && (0 < n == |s| ==> LineEnd(s, 0) == n && LineOf(s) == s)
  }

  lemma ReadChunk(s: seq<Byte>, n: nat, inQuote: bool, max: nat, inQuote': bool)
    requires Reading(s, n, inQuote) && n < |s| && max > 0
    requires inQuote' == InQuote(s[..n + ChunkLen(s[n..], max)])
    ensures var m := n + ChunkLen(s[n..], max);
      if s[m - 1] == NEWLINE && !inQuote' then LineEnd(s, 0) == m && LineOf(s) == StripNewline(s[..m])
      else Reading(s, m, inQuote')
  {
    hide ChunkLen, LineEnd, InQuote, StripNewline;
    var k := ChunkLen(s[n..], max);
    assert forall i :: n <= i < n + k - 1 ==> s[i] == s[n..][i - n];
    ChunkKeepsLineEnd(s, n, k);
    if n + k == |s| { assert s[..n + k] == s; }
  }

  lemma ReadingEnds(s: seq<Byte>, n: nat, inQuote: bool)
    requires Reading(s, n, inQuote)
    ensures n <= |s| && (0 < n == |s| ==> LineEnd(s, 0) == n && LineOf(s) == s)
  {
  }

  lemma StripIsShorter(s: seq<Byte>, n: nat)
    requires 0 < n <= |s|
    ensures StripNewline(s[..n]) == if n > 1 && s[n - 2] == CARRIAGE_RETURN then s[..n - 2] else s[..n - 1]
  {
  }

  /** local_getline with csvFlag, reading from pos on. */
  method LocalGetline(input: seq<Byte>, pos: nat) returns (line: Line, pos': nat)
    requires pos <= |input| && NulFree(input)
    ensures pos == |input| ==> line == NoLine && pos' == pos
    ensures pos < |input| ==> line == Line(LineOf(input[pos..])) && pos' == pos + LineEnd(input[pos..], 0)
  {
    hide InQuote, LineEnd, LineOf, ChunkLen, Reading, NulFree, StripNewline;
    var s := input[pos..];
    var nLine, n, inQuote := 100, 0, false;
    ReadingStarts(s);
    while true
      invariant n < nLine && n <= |s| && Reading(s, n, inQuote) && inQuote == InQuote(s[..n])
      decreases |s| - n
    {
      ReadingEnds(s, n, inQuote);
      if n + 100 > nLine {
        nLine := nLine * 2 + 100;
      }
      var k := ChunkLen(s[n..], nLine - n - 1);
      if k == 0 {
        pos' := pos + n;
        return if n == 0 then NoLine else Line(s[..n]), pos';
      }
      ghost var before := inQuote;
      inQuote := CountQuotes(s, n, k, inQuote);
      ReadChunk(s, n, before, nLine - n - 1, inQuote);
      n := n + k;
      if n > 0 && s[n - 1] == NEWLINE && !inQuote {
        pos' := pos + n;
        var length := n - 1;
        if length > 0 && s[length - 1] == CARRIAGE_RETURN { length := length - 1; }
        assert StripNewline(s[..n]) == s[..length] by { StripIsShorter(s, n); }
        return Line(s[..length]), pos';
      }
    }
  }

  lemma ReadingStarts(s: seq<Byte>)
    ensures s[..0] == [] && !InQuote([]) && Reading(s, 0, false)
  {
  }

  // ----- splitting in place -----

  /** The fields one after the other, with NULs where the separators were. */
  ghost function NulJoined(fields: seq<seq<Byte>>): seq<Byte>
    requires fields != []
  {
    var last := |fields| - 1;
    if last == 0 then fields[0] else NulJoined(fields[..last]) + [NUL] + fields[last]
  }

  /** Where field j begins. */
  ghost function StartOf(fields: seq<seq<Byte>>, j: nat): nat
    requires j <= |fields|
  {
    if j == 0 then 0 else StartOf(fields, j - 1) + |fields[j - 1]| + 1
  }

  lemma {:induction false} StartOfPrefix(fields: seq<seq<Byte>>, fields': seq<seq<Byte>>, j: nat)
    requires j <= |fields| && j <= |fields'| && forall i :: 0 <= i < j ==> fields[i] == fields'[i]
    ensures StartOf(fields, j) == StartOf(fields', j)
  {
    if j > 0 { StartOfPrefix(fields, fields', j - 1); }
  }

  lemma {:induction false} NulJoinedLength(fields: seq<seq<Byte>>)
    requires fields != []
    ensures |NulJoined(fields)| + 1 == StartOf(fields, |fields|)
  {
    var last := |fields| - 1;
    if last > 0 {
      NulJoinedLength(fields[..last]);
      StartOfPrefix(fields, fields[..last], last);
    }
  }

  /** Field j lies where it begins, and a NUL follows. */
  lemma {:induction false} FieldAt(fields: seq<seq<Byte>>, j: nat)
    requires j < |fields|
    ensures var t := NulJoined(fields) + [NUL];
      var start := StartOf(fields, j);
      start + |fields[j]| < |t| && t[start..start + |fields[j]|] == fields[j] && t[start + |fields[j]|] == NUL
  {
    var last := |fields| - 1;
    var t := NulJoined(fields) + [NUL];
    if last == 0 {
    } else if j == last {
      NulJoinedLength(fields[..last]);
      StartOfPrefix(fields, fields[..last], last);
    } else {
      var t' := NulJoined(fields[..last]) + [NUL];
      FieldAt(fields[..last], j);
      StartOfPrefix(fields, fields[..last], j);
      assert t[..|t'|] == t';
      assert t[StartOf(fields, j)..StartOf(fields, j) + |fields[j]|]
          == t[..|t'|][StartOf(fields, j)..StartOf(fields, j) + |fields[j]|];
    }
  }

  lemma ExtendLast(fields: seq<seq<Byte>>, c: Byte)
    requires fields != []
    ensures var last := |fields| - 1;
      NulJoined(fields[last := fields[last] + [c]]) == NulJoined(fields) + [c]
  {
    var last := |fields| - 1;
    var fields' := fields[last := fields[last] + [c]];
    assert fields'[..last] == fields[..last];
  }

  lemma AddEmpty(fields: seq<seq<Byte>>)
    requires fields != []
    ensures NulJoined(fields + [[]]) == NulJoined(fields) + [NUL]
    ensures StartOf(fields + [[]], |fields|) == |NulJoined(fields)| + 1
  {
    assert (fields + [[]])[..|fields|] == fields;
    NulJoinedLength(fields);
    StartOfPrefix(fields, fields + [[]], |fields|);
  }

  /** done holds these fields, separated by NULs, and azCol the beginnings of the first nCol. */
  ghost predicate LaidOut(fields: seq<seq<Byte>>, nCol: nat, done: seq<Byte>, azCol: seq<nat>, i: nat) {
    && i + 1 == |fields| && done == NulJoined(fields)
    && |azCol| == (if i + 1 < nCol then i + 1 else nCol)
    && forall j :: 0 <= j < |azCol| ==> azCol[j] == StartOf(fields, j)
  }

  /** The first characters, prefix, have been split: done is what the array holds in their place. */
  ghost predicate SplitUpTo(prefix: seq<Byte>, separator: Byte, nCol: nat, done: seq<Byte>, azCol: seq<nat>, i: nat) {
    LaidOut(Split(prefix, separator), nCol, done, azCol, i)
  }

  lemma LayOutEmpty(fields: seq<seq<Byte>>, nCol: nat, done: seq<Byte>, azCol: seq<nat>, i: nat)
    requires LaidOut(fields, nCol, done, azCol, i)
    ensures LaidOut(fields + [[]], nCol, done + [NUL], if i + 1 < nCol then azCol + [|done| + 1] else azCol, i + 1)
  {
    AddEmpty(fields);
    hide NulJoined, StartOf;
    var azCol' := if i + 1 < nCol then azCol + [|done| + 1] else azCol;
    forall j | 0 <= j < |azCol'| ensures azCol'[j] == StartOf(fields + [[]], j) {
      if j < |azCol| { StartOfPrefix(fields, fields + [[]], j); }
    }
  }

  lemma SplitSeparator(prefix: seq<Byte>, separator: Byte, nCol: nat, done: seq<Byte>, azCol: seq<nat>, i: nat)
    requires SplitUpTo(prefix, separator, nCol, done, azCol, i) && !InQuote(prefix + [separator])
    ensures SplitUpTo(prefix + [separator], separator, nCol, done + [NUL],
      if i + 1 < nCol then azCol + [|done| + 1] else azCol, i + 1)
  {
    hide LaidOut;
    assert (prefix + [separator])[..|prefix|] == prefix;
    LayOutEmpty(Split(prefix, separator), nCol, done, azCol, i);
  }

  lemma LayOutMore(fields: seq<seq<Byte>>, nCol: nat, done: seq<Byte>, azCol: seq<nat>, i: nat, c: Byte)
    requires LaidOut(fields, nCol, done, azCol, i)
    ensures LaidOut(fields[i := fields[i] + [c]], nCol, done + [c], azCol, i)
  {
    ExtendLast(fields, c);
    forall j | 0 <= j < |azCol| ensures azCol[j] == StartOf(fields[i := fields[i] + [c]], j) {
      StartOfPrefix(fields, fields[i := fields[i] + [c]], j);
    }
  }

  lemma SplitOther(prefix: seq<Byte>, separator: Byte, nCol: nat, done: seq<Byte>, azCol: seq<nat>, i: nat, c: Byte)
    requires SplitUpTo(prefix, separator, nCol, done, azCol, i) && (c == separator ==> InQuote(prefix + [c]))
    ensures SplitUpTo(prefix + [c], separator, nCol, done + [c], azCol, i)
  {
    assert i + 1 == |Split(prefix, separator)|;
    hide LaidOut;
    assert (prefix + [c])[..|prefix|] == prefix;
    LayOutMore(Split(prefix, separator), nCol, done, azCol, i, c);
  }

  lemma QuoteStep(prefix: seq<Byte>, c: Byte)
    ensures InQuote(prefix + [c]) == (InQuote(prefix) != (c == QUOTE))
  {
    assert (prefix + [c])[..|prefix|] == prefix;
  }

  /** The splitter of .import; columns beyond nCol are counted, but not recorded. */
  method SplitLine(z: array<Byte>, separator: Byte, nCol: nat, ghost s: seq<Byte>) returns (azCol: seq<nat>, i: nat)
    requires HoldsString(z, s) && nCol > 0
    modifies z
    ensures z[|s|] == NUL && SplitUpTo(s, separator, nCol, z[..|s|], azCol, i)
  {
    hide Split, NulJoined, StartOf, SplitUpTo, InQuote;
    var k, inQuote := 0, false;
    azCol, i := [0], 0;
    NothingSplit(separator, nCol);
    while z[k] != NUL
      invariant 0 <= k <= |s| && inQuote == InQuote(s[..k])
      invariant forall m :: k <= m < z.Length ==> z[m] == old(z[m])
      invariant SplitUpTo(s[..k], separator, nCol, z[..k], azCol, i)
      decreases |s| - k
    {
      ghost var prefix, done := s[..k], z[..k];
      var c := z[k];
      assert c == s[k] && s[..k + 1] == prefix + [c];
      QuoteStep(prefix, c);
      if c == QUOTE { inQuote := !inQuote; }
      if !inQuote && c == separator {
        SplitSeparator(prefix, separator, nCol, done, azCol, i);
        z[k] := NUL;
        i := i + 1;
        if i < nCol { azCol := azCol + [k + 1]; }
      } else {
        SplitOther(prefix, separator, nCol, done, azCol, i, c);
      }
      k := k + 1;
      assert z[..k] == done + [z[k - 1]];
    }
    assert s[..k] == s;
    z[k] := NUL;
    assert z[..k] == z[..|s|];
  }

  lemma NothingSplit(separator: Byte, nCol: nat)
    requires nCol > 0
    ensures !InQuote([]) && SplitUpTo([], separator, nCol, [], [0], 0)
  {
    assert StartOf([[]], 0) == 0;
  }

  // ----- dequoting in place -----

  /** The string f stands at start in z, with its terminator. */
  ghost predicate StringAt(z: array<Byte>, start: nat, f: seq<Byte>)
    reads z
  {
    start + |f| < z.Length && z[start..start + |f|] == f && z[start + |f|] == NUL && NulFree(f)
  }

  /** After j characters behind the opening quote, out has been written. */
  ghost predicate Undoubling(f: seq<Byte>, j: nat, out: seq<Byte>) {
    0 < j <= |f| && |out| < j && NulFree(out) && Undoubled(f[1..]) == out + Undoubled(f[j..])
  }

  lemma UndoublingStarts(f: seq<Byte>)
    requires f != []
    ensures Undoubling(f, 1, [])
  {
  }

  lemma UndoublingStep(f: seq<Byte>, j: nat, out: seq<Byte>)
    requires Undoubling(f, j, out) && NulFree(f) && j < |f|
    ensures f[j] != QUOTE ==> Undoubling(f, j + 1, out + [f[j]])
    ensures j + 1 == |f| && f[j] == QUOTE ==> Undoubling(f, j + 1, out)
    ensures j + 1 < |f| && f[j] == QUOTE ==> Undoubling(f, j + 2, out + [f[j + 1]])
  {
    assert f[j..][1..] == f[j + 1..];
    if j + 1 < |f| { assert f[j..][2..] == f[j + 2..]; }
  }

  lemma UndoublingEnds(f: seq<Byte>, out: seq<Byte>)
    requires Undoubling(f, |f|, out)
    ensures Undoubled(f[1..]) == out && |out| < |f| && NulFree(out)
  {
  }

  /** The dequoter of .import, for the field at start. */
  method DequoteField(z: array<Byte>, start: nat, ghost f: seq<Byte>)
    requires StringAt(z, start, f)
    modifies z
    ensures |Dequoted(f)| <= |f| && StringAt(z, start, Dequoted(f))
    ensures forall m :: 0 <= m < z.Length && !(start <= m <= start + |f|) ==> z[m] == old(z[m])
  {
    assert forall m :: 0 <= m < |f| ==> f[m] == z[start + m];
    if z[start] == QUOTE { UndoubleField(z, start, f); }
  }

  /** The loop stands at character j of f, which is not yet overwritten from there on; k characters
      have been written. */
  ghost predicate Undoing(z: array<Byte>, start: nat, f: seq<Byte>, j: nat, out: seq<Byte>)
    reads z
  {
    && start + |f| < z.Length && z[start + |f|] == NUL && NulFree(f)
    && |out| < j <= |f| && Undoubling(f, j, out) && z[start..start + |out|] == out
    && forall m :: j <= m < |f| ==> z[start + m] == f[m]
  }

  lemma UndoingStarts(z: array<Byte>, start: nat, f: seq<Byte>)
    requires StringAt(z, start, f) && f != []
    ensures Undoing(z, start, f, 1, [])
  {
    forall m | 1 <= m < |f| ensures z[start + m] == f[m] {
      assert z[start..start + |f|][m] == f[m];
    }
    UndoublingStarts(f);
    hide Undoubling;
  }

  lemma UndoingReads(z: array<Byte>, start: nat, f: seq<Byte>, j: nat, out: seq<Byte>)
    requires Undoing(z, start, f, j, out)
    ensures start + |f| < z.Length && |out| < j <= |f| && z[start..start + |out|] == out
    ensures z[start + j] == NUL <==> j == |f|
    ensures j == |f| ==> Undoubled(f[1..]) == out && NulFree(out)
  {
    if j == |f| { UndoublingEnds(f, out); }
  }

  /** The body of the loop: the character at j is written, or the one behind it if it is a quote. */
  method UndoubleCharacter(z: array<Byte>, start: nat, j: nat, k: nat, ghost f: seq<Byte>, ghost out: seq<Byte>)
      returns (j': nat, k': nat, ghost out': seq<Byte>)
    requires Undoing(z, start, f, j, out) && k == |out| && j < |f|
    modifies z
    ensures Undoing(z, start, f, j', out') && k' == |out'| && j' > j
    ensures forall m :: 0 <= m < z.Length && m != start + k ==> z[m] == old(z[m])
    ensures k' >= k
  {
    UndoublingStep(f, j, out);
    j', k', out' := j, k, out;
    if z[start + j'] == QUOTE {
      j' := j' + 1;
      if z[start + j'] == NUL { return; }
    }
    hide Undoubling;
    z[start + k] := z[start + j'];
    assert z[start..start + k] == out;
    out' := out + [f[j']];
    k' := k + 1;
    j' := j' + 1;
  }

  /** A quoted field: the closing quote and the first of each two quotes are skipped. */
  method UndoubleField(z: array<Byte>, start: nat, ghost f: seq<Byte>)
    requires StringAt(z, start, f) && f != [] && f[0] == QUOTE
    modifies z
    ensures |Undoubled(f[1..])| <= |f| && StringAt(z, start, Undoubled(f[1..]))
    ensures forall m :: 0 <= m < z.Length && !(start <= m <= start + |f|) ==> z[m] == old(z[m])
  {
    UndoingStarts(z, start, f);
    UndoingReads(z, start, f, 1, []);
    hide Undoubled, Undoing, NulFree;
    var j, k := 1, 0;
    ghost var out := [];
    while z[start + j] != NUL
      invariant Undoing(z, start, f, j, out) && k == |out| < j <= |f|
      invariant z[start + j] == NUL <==> j == |f|
      invariant forall m :: 0 <= m < start || start + |f| <= m < z.Length ==> z[m] == old(z[m])
      decreases |f| - j
    {
      j, k, out := UndoubleCharacter(z, start, j, k, f, out);
      UndoingReads(z, start, f, j, out);
    }
    UndoingReads(z, start, f, j, out);
    z[start + k] := NUL;
    assert z[start..start + k] == out;
  }

  /** The column that is bound: the string up to its terminator. */
  method ReadString(z: array<Byte>, start: nat, ghost f: seq<Byte>) returns (t: seq<Byte>)
    requires StringAt(z, start, f)
    ensures t == f
  {
    var n := 0;
    while z[start + n] != NUL
      invariant 0 <= n <= |f|
      decreases |f| - n
    {
      assert z[start + n] == f[n];
      n := n + 1;
    }
    t := z[start..start + n];
  }

  datatype RowResult = OneRow(row: Row) | WrongColumns

  lemma {:induction false} StartsInOrder(fields: seq<seq<Byte>>, i: nat, j: nat)
    requires i < j <= |fields|
    ensures StartOf(fields, i) + |fields[i]| < StartOf(fields, j)
  {
    if i + 1 < j { StartsInOrder(fields, i, j - 1); }
  }

  lemma {:induction false} FieldsAreNulFree(s: seq<Byte>, separator: Byte)
    requires NulFree(s)
    ensures forall j :: 0 <= j < |Split(s, separator)| ==> NulFree(Split(s, separator)[j])
  {
    if s != [] { FieldsAreNulFree(s[..|s| - 1], separator); }
  }

  ghost predicate AllStringsAt(z: array<Byte>, azCol: seq<nat>, fields: seq<seq<Byte>>, from: nat)
    requires |azCol| == |fields|
    reads z
  {
    forall j :: from <= j < |fields| ==> StringAt(z, azCol[j], fields[j])
  }

  /** The column that starts at azCol[i] is dequoted and taken; the later ones stay as they are. */
  method TakeColumn(z: array<Byte>, azCol: seq<nat>, i: nat, ghost fields: seq<seq<Byte>>) returns (column: Field)
    requires |azCol| == |fields| && i < |fields| && AllStringsAt(z, azCol, fields, i)
    requires forall j :: 0 <= j < |azCol| ==> azCol[j] == StartOf(fields, j)
    modifies z
    ensures column == Dequoted(fields[i]) && AllStringsAt(z, azCol, fields, i + 1)
  {
    hide Dequoted, StartOf;
    DequoteField(z, azCol[i], fields[i]);
    forall j | i < j < |fields| ensures StringAt(z, azCol[j], fields[j]) {
      StartsInOrder(fields, i, j);
    }
    column := ReadString(z, azCol[i], Dequoted(fields[i]));
  }

  /** Splits a line and takes its columns, if there are as many as expected. */
  method ImportRow(z: array<Byte>, separator: Byte, nCol: nat, ghost s: seq<Byte>) returns (r: RowResult)
    requires HoldsString(z, s) && nCol > 0
    modifies z
    ensures var fields := Split(s, separator);
      r == if |fields| == nCol then OneRow(DequotedAll(fields)) else WrongColumns
  {
    hide Split, Dequoted, StartOf, NulJoined;
    ghost var fields := Split(s, separator);
    var azCol, last := SplitLine(z, separator, nCol, s);
    assert z[..|s| + 1] == z[..|s|] + [NUL];
    if last + 1 != nCol { return WrongColumns; }
    FieldsAreNulFree(s, separator);
    forall j | 0 <= j < nCol ensures StringAt(z, azCol[j], fields[j]) {
      FieldInArray(z, s, fields, j);
    }
    var row: Row := [];
    for i := 0 to nCol
      invariant row == DequotedAll(fields)[..i]
      invariant AllStringsAt(z, azCol, fields, i)
    {
      var column := TakeColumn(z, azCol, i, fields);
      row := row + [column];
    }
    r := OneRow(row);
  }

  lemma FieldInArray(z: array<Byte>, s: seq<Byte>, fields: seq<seq<Byte>>, j: nat)
    requires j < |fields| && |s| < z.Length && z[..|s| + 1] == NulJoined(fields) + [NUL] && NulFree(fields[j])
    ensures StringAt(z, StartOf(fields, j), fields[j])
  {
    FieldAt(fields, j);
    var start := StartOf(fields, j);
    assert z[start..start + |fields[j]|] == z[..|s| + 1][start..start + |fields[j]|];
    assert z[start + |fields[j]|] == z[..|s| + 1][start + |fields[j]|];
  }

  /** .import, as far as it reads the file. */
  method Import(input: seq<Byte>, separator: Byte, nCol: nat) returns (result: ImportResult)
    requires NulFree(input) && nCol > 0
    ensures result == Imported(input, separator, nCol)
  {
    hide NulFree, LineEnd, LineOf, Imported, Split, DequotedAll;
    var pos, rows := 0, [];
    assert input[0..] == input;
    while true
      invariant pos <= |input|
      invariant Imported(input, separator, nCol) ==
        match Imported(input[pos..], separator, nCol)
        case Rows(more) => Rows(rows + more)
        case ColumnError => ColumnError
      decreases |input| - pos
    {
      ghost var rest := input[pos..];
      RestIsNulFree(input, pos);
      ImportedStep(rest, separator, nCol, rows);
      var line, pos' := LocalGetline(input, pos);
      if line == NoLine {
        assert rest == [] && rows + [] == rows;
        return Rows(rows);
      }
      var zLine := new Byte[|line.text| + 1](i requires 0 <= i <= |line.text| =>
        if i < |line.text| then line.text[i] else NUL);
      assert zLine[..|line.text|] == line.text;
      var r := ImportRow(zLine, separator, nCol, line.text);
      if r == WrongColumns { return ColumnError; }
      assert input[pos'..] == rest[LineEnd(rest, 0)..];
      rows := rows + [r.row];
      pos := pos';
    }
  }

  lemma RestIsNulFree(s: seq<Byte>, pos: nat)
    requires NulFree(s) && pos <= |s|
    ensures NulFree(s[pos..])
  {
  }

  lemma ImportedStep(s: seq<Byte>, separator: Byte, nCol: nat, rows: seq<Row>)
    requires NulFree(s)
    ensures s == [] ==> Imported(s, separator, nCol) == Rows([])
    ensures s != [] ==> NulFree(LineOf(s)) && 0 < LineEnd(s, 0) <= |s|
    ensures s != [] ==>
      var fields, rest := Split(LineOf(s), separator), Imported(s[LineEnd(s, 0)..], separator, nCol);
      if |fields| != nCol then Imported(s, separator, nCol) == ColumnError
      else var row := DequotedAll(fields);
        && Imported(s, separator, nCol) ==
           (match rest case Rows(more) => Rows([row] + more) case ColumnError => ColumnError)
        && (rest.Rows? ==> rows + ([row] + rest.rows) == rows + [row] + rest.rows)
  {
    hide Split, Dequoted;
  }
}
