/** C-style quoting in sqlite/shell.c: the printer output_c_string and the in-place decoder
    resolve_backslashes. */
module CStrings {
  import opened Bytes

  /** isprint in the C locale. */
  predicate IsPrint(c: Byte) {
    SPACE <= c < DELETE
  }

  function Escaped(c: Byte): seq<Byte> {
    if c == BACKSLASH then [BACKSLASH, BACKSLASH]
    else if c == TAB then [BACKSLASH, LETTER_T]
    else if c == NEWLINE then [BACKSLASH, LETTER_N]
    else if c == CARRIAGE_RETURN then [BACKSLASH, LETTER_R]
    else if !IsPrint(c) then [BACKSLASH, DIGIT_0 + c / 64, DIGIT_0 + c / 8 % 8, DIGIT_0 + c % 8]
    else [c]
  }

  function EscapedBody(z: seq<Byte>): seq<Byte> {
    if z == [] then [] else EscapedBody(z[..|z| - 1]) + Escaped(z[|z| - 1])
  }

  /** The branches of output_c_string. */
  method PrintCharacter(c: Byte) returns (text: seq<Byte>)
    ensures text == Escaped(c)
  {
    if c == BACKSLASH {
      text := [c, c];
    } else if c == TAB {
      text := [BACKSLASH, LETTER_T];
    } else if c == NEWLINE {
      text := [BACKSLASH, LETTER_N];
    } else if c == CARRIAGE_RETURN {
      text := [BACKSLASH, LETTER_R];
    } else if !IsPrint(c) {
      text := [BACKSLASH, DIGIT_0 + c / 64, DIGIT_0 + c / 8 % 8, DIGIT_0 + c % 8];
    } else {
      text := [c];
    }
  }

  /** output_c_string; out is what goes to the file. */
  method OutputCString(z: array<Byte>, ghost s: seq<Byte>) returns (out: seq<Byte>)
    requires HoldsString(z, s)
    ensures out == [QUOTE] + EscapedBody(s) + [QUOTE]
  {
    hide Escaped;
    out := [QUOTE];
    var i := 0;
    while z[i] != NUL
      invariant 0 <= i <= |s| && out == [QUOTE] + EscapedBody(s[..i])
      decreases |s| - i
    {
      var c := z[i];
      assert c == s[i] && s[..i + 1][..i] == s[..i];
      i := i + 1;
      var text := PrintCharacter(c);
      out := out + text;
    }
    assert s[..i] == s;
    out := out + [QUOTE];
  }

  // ----- decoding -----

  predicate IsOctal(c: Byte) {
    DIGIT_0 <= c <= DIGIT_7
  }

  /** The length of the first character or escape sequence of s. */
  function TokenLen(s: seq<Byte>): (n: nat)
    requires s != []
    ensures 0 < n <= |s|
  {
    if s[0] != BACKSLASH || |s| == 1 then 1
    else if !IsOctal(s[1]) || |s| == 2 || !IsOctal(s[2]) then 2
    else if |s| == 3 || !IsOctal(s[3]) then 3
    else 4
  }

  /** The character that it stands for; octal values wrap around at 256. */
  function TokenValue(s: seq<Byte>): Byte
    requires s != [] && s != [BACKSLASH]
  {
    if s[0] != BACKSLASH then s[0]
    else if s[1] == LETTER_N then NEWLINE
    else if s[1] == LETTER_T then TAB
    else if s[1] == LETTER_R then CARRIAGE_RETURN
    else if !IsOctal(s[1]) then s[1]
    else if TokenLen(s) == 2 then s[1] - DIGIT_0
    else if TokenLen(s) == 3 then (s[1] - DIGIT_0) * 8 + (s[2] - DIGIT_0)
    else ((s[1] - DIGIT_0) * 64 + (s[2] - DIGIT_0) * 8 + (s[3] - DIGIT_0)) % 256
  }

  /** The string ends within an escape sequence: behind its last token there is a lone backslash. */
  predicate EndsOpen(s: seq<Byte>)
    decreases |s|
  {
    s != [] && (s == [BACKSLASH] || EndsOpen(s[TokenLen(s)..]))
  }

  function Decoded(s: seq<Byte>): (t: seq<Byte>)
    requires !EndsOpen(s)
    ensures |t| <= |s|
    decreases |s|
  {
    if s == [] then [] else [TokenValue(s)] + Decoded(s[TokenLen(s)..])
  }

  /** The digits of an octal escape; i is the place of the backslash. */
  method DecodeOctal(z: array<Byte>, i: nat, ghost rest: seq<Byte>) returns (c: Byte, last: nat)
    requires |rest| > 1 && rest[0] == BACKSLASH && IsOctal(rest[1]) && i + |rest| < z.Length
    requires forall k :: 0 <= k < |rest| ==> z[i + k] == rest[k]
    requires z[i + |rest|] == NUL
    ensures c == TokenValue(rest) && last == i + TokenLen(rest) - 1
  {
    last := i + 1;
    c := z[i + 1] - DIGIT_0;
    if IsOctal(z[i + 2]) {
      last := i + 2;
      c := (c * 8 + z[i + 2] - DIGIT_0) % 256;
      assert |rest| > 2 && c == (rest[1] - DIGIT_0) * 8 + (rest[2] - DIGIT_0);
      if IsOctal(z[i + 3]) {
        last := i + 3;
        c := (c * 8 + z[i + 3] - DIGIT_0) % 256;
      }
    }
  }

  /** One pass of the loop of resolve_backslashes, up to the store: the character at i, and the
      index behind it. A lone backslash is followed by the terminator, which the C code skips. */
  method DecodeToken(z: array<Byte>, i: nat, ghost rest: seq<Byte>) returns (c: Byte, i': nat)
    requires rest != [] && i + |rest| < z.Length && NulFree(rest)
    requires z[i..i + |rest|] == rest && z[i + |rest|] == NUL
    ensures rest == [BACKSLASH] ==> i' == i + 2
    ensures rest != [BACKSLASH] ==> c == TokenValue(rest) && i' == i + TokenLen(rest)
  {
    assert forall k :: 0 <= k < |rest| ==> z[i + k] == z[i..i + |rest|][k] == rest[k];
    c, i' := z[i], i;
    if c == BACKSLASH {
      i' := i' + 1;
      c := z[i'];
      if c == LETTER_N {
        c := NEWLINE;
      } else if c == LETTER_T {
        c := TAB;
      } else if c == LETTER_R {
        c := CARRIAGE_RETURN;
      } else if IsOctal(c) {
        c, i' := DecodeOctal(z, i, rest);
      }
    }
    i' := i' + 1;
  }

  /** How many backslashes s ends in. */
  function TrailingBackslashes(s: seq<Byte>): nat {
    if s == [] || s[|s| - 1] != BACKSLASH then 0 else 1 + TrailingBackslashes(s[..|s| - 1])
  }

  lemma {:induction false} TrailingOfConcatenation(s: seq<Byte>, t: seq<Byte>)
    ensures TrailingBackslashes(t) <= |t|
    ensures TrailingBackslashes(s + t) ==
            TrailingBackslashes(t) + if TrailingBackslashes(t) == |t| then TrailingBackslashes(s) else 0
  {
    if t == [] {
      assert s + t == s;
    } else {
      assert (s + t)[..|s + t| - 1] == s + t[..|t| - 1];
      TrailingOfConcatenation(s, t[..|t| - 1]);
    }
  }

  /** An escape sequence is complete, so its backslashes at the end come in pairs. */
  lemma TokenEndsEven(s: seq<Byte>)
    requires s != [] && s != [BACKSLASH]
    ensures TrailingBackslashes(s[..TokenLen(s)]) % 2 == 0
  {
    var t := s[..TokenLen(s)];
    if |t| == 2 && t[1] == BACKSLASH {
      assert t[..1] == [BACKSLASH] && [BACKSLASH][..0] == [];
      assert TrailingBackslashes(t) == 1 + TrailingBackslashes([BACKSLASH]);
    }
  }

  /** The code reads behind the terminator exactly if the string ends in an odd number of
      backslashes. */
  lemma {:induction false} OpenMeansOddBackslashes(s: seq<Byte>)
    ensures EndsOpen(s) <==> TrailingBackslashes(s) % 2 == 1
    decreases |s|
  {
    if s == [BACKSLASH] {
      LoneBackslashIsOpen();
    } else if s != [] {
      OpenMeansOddBackslashes(s[TokenLen(s)..]);
      DecodedStep(s);
      TokenKeepsParity(s);
    }
  }

  lemma TokenKeepsParity(s: seq<Byte>)
    requires s != [] && s != [BACKSLASH]
    ensures TrailingBackslashes(s) % 2 == TrailingBackslashes(s[TokenLen(s)..]) % 2
  {
    TokenEndsEven(s);
    var t, rest := s[..TokenLen(s)], s[TokenLen(s)..];
    hide TokenLen, TrailingBackslashes;
    TrailingOfConcatenation(t, rest);
    assert s == t + rest;
  }

  lemma LoneBackslashIsOpen()
    ensures TrailingBackslashes([BACKSLASH]) == 1 && EndsOpen([BACKSLASH])
  {
    assert [BACKSLASH][..0] == [];
  }

  lemma DecodedStep(s: seq<Byte>)
    requires s != []
    ensures EndsOpen(s) <==> s == [BACKSLASH] || EndsOpen(s[TokenLen(s)..])
    ensures !EndsOpen(s) ==> Decoded(s) == [TokenValue(s)] + Decoded(s[TokenLen(s)..])
  {
  }

  lemma DecodedEnd()
    ensures !EndsOpen([]) && Decoded([]) == []
  {
  }

  /** i characters of s have been decoded, and the result written to the first j places. */
  ghost predicate Resolving(z: array<Byte>, s: seq<Byte>, i: nat, j: nat)
    reads z
  {
    && j <= i <= |s| < z.Length && NulFree(s) && z[i..|s|] == s[i..] && z[|s|] == NUL
    && (EndsOpen(s) <==> EndsOpen(s[i..]))
    && (!EndsOpen(s) ==> Decoded(s) == z[..j] + Decoded(s[i..]))
  }

  /** The body of the loop. */
  method ResolveToken(z: array<Byte>, i: nat, j: nat, ghost s: seq<Byte>) returns (overrun: bool, i': nat, j': nat)
    requires Resolving(z, s, i, j) && i < |s|
    modifies z
    ensures overrun ==> EndsOpen(s)
    ensures !overrun ==> Resolving(z, s, i', j') && i < i' && j' == j + 1
    ensures forall k :: 0 <= k < z.Length && k != j ==> z[k] == old(z[k])
  {
    hide TokenLen, TokenValue, EndsOpen, Decoded;
    ghost var rest, done := s[i..], z[..j];
    assert i + |rest| == |s| && NulFree(rest);
    DecodedStep(rest);
    var c, next := DecodeToken(z, i, rest);
    overrun, i', j' := z[next - 1] == NUL, next, j + 1;
    assert overrun <==> rest == [BACKSLASH] by { TokenEndsInside(z, i, rest, next); }
    if !overrun {
      assert s[next..] == rest[next - i..] && z[next..|s|] == s[next..];
      z[j] := c;
      assert z[..j + 1] == done + [c];
    }
  }

  lemma TokenEndsInside(z: array<Byte>, i: nat, rest: seq<Byte>, next: nat)
    requires rest != [] && NulFree(rest) && i + |rest| < z.Length && z[i..i + |rest|] == rest && z[i + |rest|] == NUL
    requires next == i + if rest == [BACKSLASH] then 2 else TokenLen(rest)
    ensures i < next <= z.Length && (z[next - 1] == NUL <==> rest == [BACKSLASH])
  {
    hide TokenLen;
    assert rest != [BACKSLASH] ==> z[next - 1] == rest[next - 1 - i];
  }

  /** resolve_backslashes. A string that ends in an odd number of backslashes makes the C code read
      behind the terminator; all others are decoded in place: what is written never overtakes what
      is read. */
  method ResolveBackslashes(z: array<Byte>, ghost s: seq<Byte>) returns (overrun: bool, length: nat)
    requires HoldsString(z, s)
    modifies z
    ensures overrun <==> TrailingBackslashes(s) % 2 == 1
    ensures overrun <==> EndsOpen(s)
    ensures !overrun ==> length <= |s| && z[..length] == Decoded(s) && z[length] == NUL
    ensures !overrun ==> forall k :: length < k < z.Length ==> z[k] == old(z[k])
  {
    OpenMeansOddBackslashes(s);
    hide TrailingBackslashes, TokenLen, TokenValue, EndsOpen, Decoded;
    var i: nat, j: nat := 0, 0;
    assert s[0..] == s && z[0..|s|] == s;
    while z[i] != NUL
      invariant Resolving(z, s, i, j) && (z[i] == NUL <==> i == |s|)
      invariant forall k :: j <= k < z.Length ==> z[k] == old(z[k])
      decreases |s| - i
    {
      overrun, i, j := ResolveToken(z, i, j, s);
      if overrun { return true, j; }
      ResolvingReads(z, s, i, j);
    }
    DecodedEnd();
    z[j] := NUL;
    overrun, length := false, j;
  }

  lemma ResolvingReads(z: array<Byte>, s: seq<Byte>, i: nat, j: nat)
    requires Resolving(z, s, i, j)
    ensures z[i] == NUL <==> i == |s|
  {
    if i < |s| { assert z[i..|s|][0] == s[i]; }
  }

  // ----- what every escape stands for -----

  ghost predicate IsOctalNumber(digits: seq<Byte>) {
    forall i :: 0 <= i < |digits| ==> DIGIT_0 <= digits[i] <= DIGIT_7
  }

  /** The number that the digits write in base eight. */
  ghost function BaseEight(digits: seq<Byte>): nat
    requires IsOctalNumber(digits)
  {
    if digits == [] then 0 else BaseEight(digits[..|digits| - 1]) * 8 + (digits[|digits| - 1] - DIGIT_0)
  }

  lemma BaseEightOf(digits: seq<Byte>)
    requires IsOctalNumber(digits)
    ensures |digits| == 1 ==> BaseEight(digits) == digits[0] - DIGIT_0
    ensures |digits| == 2 ==> BaseEight(digits) == (digits[0] - DIGIT_0) * 8 + (digits[1] - DIGIT_0)
    ensures |digits| == 3 ==>
      BaseEight(digits) == (digits[0] - DIGIT_0) * 64 + (digits[1] - DIGIT_0) * 8 + (digits[2] - DIGIT_0)
  {
    if 0 < |digits| <= 3 {
      assert BaseEight(digits[..1]) == digits[0] - DIGIT_0 by { assert digits[..1][..0] == []; }
      if |digits| > 1 {
        assert digits[..2][..1] == digits[..1];
        if |digits| > 2 { assert digits[..3][..2] == digits[..2]; }
      }
      assert digits[..|digits|] == digits;
    }
  }

  /** s begins with a token that stands for c, and goes on with rest. */
  ghost predicate DecodesTo(s: seq<Byte>, c: int, rest: seq<Byte>) {
    (EndsOpen(s) <==> EndsOpen(rest)) && (!EndsOpen(s) && !EndsOpen(rest) ==> Decoded(s) == [c] + Decoded(rest))
  }

  lemma TokenDecodes(s: seq<Byte>, rest: seq<Byte>)
    requires s != [] && s != [BACKSLASH] && s[TokenLen(s)..] == rest
    ensures DecodesTo(s, TokenValue(s), rest)
  {
  }

  /** One, two or three octal digits stand for the byte that they write in base eight, modulo 256;
      they end where the digits end, or with the third. */
  lemma OctalEscape(digits: seq<Byte>, rest: seq<Byte>)
    requires 1 <= |digits| <= 3 && IsOctalNumber(digits)
    requires |digits| == 3 || rest == [] || !(DIGIT_0 <= rest[0] <= DIGIT_7)
    ensures DecodesTo([BACKSLASH] + digits + rest, BaseEight(digits) % 256, rest)
  {
    OctalToken(digits, rest);
    hide *;
    TokenDecodes([BACKSLASH] + digits + rest, rest);
  }

  lemma OctalToken(digits: seq<Byte>, rest: seq<Byte>)
    requires 1 <= |digits| <= 3 && IsOctalNumber(digits)
    requires |digits| == 3 || rest == [] || !(DIGIT_0 <= rest[0] <= DIGIT_7)
    ensures var s := [BACKSLASH] + digits + rest;
      s != [BACKSLASH] && s[TokenLen(s)..] == rest && TokenValue(s) == BaseEight(digits) % 256
  {
    hide TokenValue, BaseEight;
    var s := [BACKSLASH] + digits + rest;
    assert s[0] == BACKSLASH && s[1] == digits[0] && (|digits| > 1 ==> s[2] == digits[1]);
    assert |digits| > 2 ==> s[3] == digits[2];
    assert rest != [] ==> s[1 + |digits|] == rest[0];
    assert s[1 + |digits|..] == rest;
    assert TokenLen(s) == 1 + |digits|;
    OctalTokenValue(digits, s);
  }

  lemma OctalTokenValue(digits: seq<Byte>, s: seq<Byte>)
    requires 1 <= |digits| <= 3 && IsOctalNumber(digits)
    requires |s| > |digits| && s[0] == BACKSLASH && s[1..1 + |digits|] == digits && TokenLen(s) == 1 + |digits|
    ensures TokenValue(s) == BaseEight(digits) % 256
  {
    BaseEightOf(digits);
    var t := s[1..1 + |digits|];
    assert s[1] == t[0] && (|digits| > 1 ==> s[2] == t[1]) && (|digits| > 2 ==> s[3] == t[2]);
    hide BaseEight, IsOctalNumber;
  }

  /** The letters n, t and r name control characters behind a backslash; any other character that
      is not a digit up to 7 stands for itself. */
  lemma CharacterEscape(c: Byte, rest: seq<Byte>)
    requires !(DIGIT_0 <= c <= DIGIT_7)
    ensures DecodesTo([BACKSLASH, c] + rest,
      if c == LETTER_N then NEWLINE else if c == LETTER_T then TAB else if c == LETTER_R then CARRIAGE_RETURN else c,
      rest)
  {
    assert ([BACKSLASH, c] + rest)[2..] == rest;
    hide EndsOpen, Decoded, DecodesTo;
    TokenDecodes([BACKSLASH, c] + rest, rest);
  }

  lemma PlainCharacter(c: Byte, rest: seq<Byte>)
    requires c != BACKSLASH
    ensures DecodesTo([c] + rest, c, rest)
  {
    assert ([c] + rest)[0] == c && ([c] + rest)[1..] == rest;
    hide EndsOpen, Decoded, DecodesTo;
    TokenDecodes([c] + rest, rest);
  }

  /** The printed form of a character: itself if it is printable and not a backslash, two
      characters if it has a name, and otherwise three octal digits that write it. */
  ghost predicate IsPrintedAs(c: Byte, text: seq<Byte>) {
    if 32 <= c <= 126 && c != BACKSLASH then text == [c]
    else
      && text != [] && text[0] == BACKSLASH
      && if c == BACKSLASH then text[1..] == [BACKSLASH]
         else if c == TAB then text[1..] == [LETTER_T]
         else if c == NEWLINE then text[1..] == [LETTER_N]
         else if c == CARRIAGE_RETURN then text[1..] == [LETTER_R]
         else |text| == 4 && IsOctalNumber(text[1..]) && BaseEight(text[1..]) == c
  }

  /** Every character of a string is printed by itself, in the form that it has to have. */
  lemma PrintsExactly(before: seq<Byte>, c: Byte, after: seq<Byte>)
    ensures IsPrintedAs(c, Escaped(c))
    ensures EscapedBody(before + [c] + after) == EscapedBody(before) + Escaped(c) + EscapedBody(after)
    ensures EscapedBody([]) == []
  {
    EscapedIsPrinted(c);
    hide Escaped;
    BodyAppend(before + [c], after);
    BodyAppend(before, [c]);
    assert [c][..0] == [];
    assert EscapedBody([c]) == EscapedBody([]) + Escaped(c);
  }

  lemma EscapedIsPrinted(c: Byte)
    ensures IsPrintedAs(c, Escaped(c))
  {
    hide BaseEight, IsOctalNumber;
    var digits := OctalDigits(c);
    assert ([BACKSLASH] + digits)[1..] == digits;
    if |Escaped(c)| == 4 { assert Escaped(c) == [BACKSLASH] + digits; }
  }

  lemma OctalDigits(c: Byte) returns (digits: seq<Byte>)
    ensures digits == [DIGIT_0 + c / 64, DIGIT_0 + c / 8 % 8, DIGIT_0 + c % 8]
    ensures IsOctalNumber(digits) && BaseEight(digits) == c
  {
    assert c / 64 * 64 + c / 8 % 8 * 8 + c % 8 == c && c / 64 <= 3;
    digits := [DIGIT_0 + c / 64, DIGIT_0 + c / 8 % 8, DIGIT_0 + c % 8];
    BaseEightOf(digits);
  }

  /** Plain text is printed as it is. */
  lemma {:induction false} PlainTextIsPrintedPlainly(z: seq<Byte>)
    requires forall i :: 0 <= i < |z| ==> 32 <= z[i] <= 126 && z[i] != BACKSLASH
    ensures EscapedBody(z) == z
  {
    hide Escaped;
    if z != [] {
      var last := |z| - 1;
      PlainTextIsPrintedPlainly(z[..last]);
      PlainIsPrintedPlainly(z[last]);
      assert z == z[..last] + [z[last]];
    }
  }

  lemma PlainIsPrintedPlainly(c: Byte)
    requires 32 <= c <= 126 && c != BACKSLASH
    ensures Escaped(c) == [c]
  {
  }

  // ----- round trip -----

  /** An escaped character is decoded to itself, whatever follows. */
  lemma EscapedDecodes(c: Byte, rest: seq<Byte>)
    requires c != NUL
    ensures var s := Escaped(c) + rest;
      s != [] && s != [BACKSLASH] && TokenLen(s) == |Escaped(c)| && s[TokenLen(s)..] == rest && TokenValue(s) == c
  {
    assert c / 64 * 64 + c / 8 % 8 * 8 + c % 8 == c;
    var e := Escaped(c);
    var s := e + rest;
    assert s[0] == e[0] && (|e| > 1 ==> s[1] == e[1]) && (|e| > 2 ==> s[2] == e[2] && s[3] == e[3]);
    assert s[|e|..] == rest;
  }

  lemma {:induction false} BodyAppend(z: seq<Byte>, t: seq<Byte>)
    ensures EscapedBody(z + t) == EscapedBody(z) + EscapedBody(t)
  {
    hide Escaped;
    if t == [] {
      assert z + t == z;
    } else {
      assert (z + t)[..|z + t| - 1] == z + t[..|t| - 1];
      BodyAppend(z, t[..|t| - 1]);
    }
  }

  lemma BodyStep(z: seq<Byte>)
    requires z != []
    ensures EscapedBody(z) == Escaped(z[0]) + EscapedBody(z[1..])
  {
    hide Escaped;
    BodyAppend([z[0]], z[1..]);
    assert [z[0]] + z[1..] == z && [z[0]][..0] == [];
    assert EscapedBody([z[0]]) == EscapedBody([]) + Escaped(z[0]);
  }

  /** Decoding the printed body of a string gives the string back. */
  lemma {:induction false} CStringRoundTrip(z: seq<Byte>)
    requires NulFree(z)
    ensures !EndsOpen(EscapedBody(z)) && Decoded(EscapedBody(z)) == z
  {
    if z == [] {
      DecodedEnd();
    } else {
      BodyStep(z);
      hide TokenLen, TokenValue, Escaped, EscapedBody, EndsOpen, Decoded;
      EscapedDecodes(z[0], EscapedBody(z[1..]));
      DecodedStep(Escaped(z[0]) + EscapedBody(z[1..]));
      CStringRoundTrip(z[1..]);
      assert z == [z[0]] + z[1..];
    }
  }

  /** What is printed is itself a string that can be decoded in place. */
  lemma {:induction false} EscapedIsNulFree(z: seq<Byte>)
    requires NulFree(z)
    ensures NulFree(EscapedBody(z))
  {
    if z != [] {
      EscapedIsNulFree(z[..|z| - 1]);
    }
  }

  /** Printer and in-place decoder together: they give the string back, whatever it contains. */
  method PrintAndResolve(z: array<Byte>, s: seq<Byte>) returns (decoded: array<Byte>)
    requires HoldsString(z, s)
    ensures HoldsString(decoded, s)
  {
    hide Escaped, EscapedBody, Decoded, EndsOpen, TrailingBackslashes;
    var out := OutputCString(z, s);
    ghost var body := EscapedBody(s);
    EscapedIsNulFree(s);
    CStringRoundTrip(s);
    var buffer := new Byte[|out| - 1](i requires 0 <= i < |out| - 1 => if i + 2 < |out| then out[i + 1] else NUL);
    assert buffer[..|body|] == body;
    var overrun, length := ResolveBackslashes(buffer, body);
    decoded := buffer;
  }
}
