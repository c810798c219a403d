/**
 JSON string literals by their characters: which literals parse_string takes and what they denote, said without
 its two passes. The texts of section 7 of RFC 8259 are among them.
 */
module Literals {
  import opened Bytes
  import opened Grammar
  import JsonString
  import RoundTrip
  import Utf8

  // ----- Characters -----

  /**
   A character: itself, a two-character escape, the literals of a scalar value, or \u with four bytes that are
   not all digits.
   */
  datatype Char =
    | Unescaped(b: byte)
    | Short(letter: byte)
    | Long(literal: seq<byte>, cp: nat)
    | Digitless(four: seq<byte>)

  predicate ShortLetter(letter: byte) {
    letter in [QUOTE, BACKSLASH, SLASH, LOWER_B, LOWER_F, LOWER_N, LOWER_R, LOWER_T]
  }

  /** The characters the parser takes: control characters may stand for themselves. */
  predicate LenientChar(c: Char) {
    match c
    case Unescaped(b) => b != NUL && b != BACKSLASH
    case Short(letter) => ShortLetter(letter)
    case Long(literal, cp) => Utf8.IsScalar(cp) && Utf8.SpellsScalar(literal, 0, cp, |literal|)
    case Digitless(four) => |four| == 4 && NulFree(four) && !Utf8.AllDigits(four, 0)
  }

  /** The characters of section 7; bytes from 0x80 on are those of longer UTF-8 sequences. */
  predicate ValidChar(c: Char)
    ensures ValidChar(c) ==> LenientChar(c)
  {
    match c
    case Unescaped(b) => b >= SPACE && b != QUOTE && b != BACKSLASH
    case Short(letter) => ShortLetter(letter)
    case Long(literal, cp) => Utf8.IsScalar(cp) && Utf8.SpellsScalar(literal, 0, cp, |literal|)
    case Digitless(_) => false
  }

  predicate LenientChars(cs: seq<Char>) {
    forall i :: 0 <= i < |cs| ==> LenientChar(cs[i])
  }

  predicate ValidChars(cs: seq<Char>)
    ensures ValidChars(cs) ==> LenientChars(cs)
  {
    forall i :: 0 <= i < |cs| ==> ValidChar(cs[i])
  }

  function CharText(c: Char): seq<byte> {
    match c
    case Unescaped(b) => [b]
    case Short(letter) => [BACKSLASH, letter]
    case Long(literal, _) => literal
    case Digitless(four) => [BACKSLASH, LOWER_U] + four
  }

  /** The UTF-8 bytes a character denotes; four bytes that are no digits count as the code point 0. */
  function CharBytes(c: Char): seq<byte>
    requires LenientChar(c)
  {
    match c
    case Unescaped(b) => [b]
    case Short(letter) =>
      [if letter == LOWER_B then BACKSPACE
       else if letter == LOWER_F then FORM_FEED
       else if letter == LOWER_N then NEWLINE
       else if letter == LOWER_R then CARRIAGE_RETURN
       else if letter == LOWER_T then TAB
       else letter]
    case Long(_, cp) => Utf8.EncodeUtf8(cp)
    case Digitless(_) => [NUL]
  }

  function CharsText(cs: seq<Char>): seq<byte> {
    if cs == [] then [] else CharText(cs[0]) + CharsText(cs[1..])
  }

  function CharsBytes(cs: seq<Char>): seq<byte>
    requires LenientChars(cs)
  {
    if cs == [] then [] else CharBytes(cs[0]) + CharsBytes(cs[1..])
  }

  // ----- Where a literal ends -----

  /** How many backslashes stand directly in front of a position. */
  function BackslashesBefore(s: seq<byte>, i: nat): nat
    requires i <= |s|
  {
    if i == 0 || s[i - 1] != BACKSLASH then 0 else 1 + BackslashesBefore(s, i - 1)
  }

  /** A quote behind an even number of backslashes ends the literal. */
  predicate IsClosing(s: seq<byte>, i: nat)
    requires i < |s|
  {
    s[i] == QUOTE && BackslashesBefore(s, i) % 2 == 0
  }

  /** From an opening quote to the first quote that ends the literal. */
  predicate IsLiteral(s: seq<byte>) {
    && |s| >= 2 && s[0] == QUOTE && IsClosing(s, |s| - 1)
    && forall i :: 0 < i < |s| - 1 ==> !IsClosing(s, i)
  }

  lemma {:induction false} BackslashesAgree(s: seq<byte>, t: seq<byte>, i: nat)
    requires i <= |s| && i <= |t| && s[..i] == t[..i]
    ensures BackslashesBefore(s, i) == BackslashesBefore(t, i)
  {
    if i > 0 {
      assert s[i - 1] == s[..i][i - 1] && t[i - 1] == t[..i][i - 1];
      assert s[..i - 1] == s[..i][..i - 1] && t[..i - 1] == t[..i][..i - 1];
      BackslashesAgree(s, t, i - 1);
    }
  }

  /** Between escapes the scan goes on to the quote that ends the literal. */
  lemma {:induction false} ScanFinds(s: seq<byte>, p: nat, end: nat)
    requires p <= end < |s| && BackslashesBefore(s, p) % 2 == 0
    requires IsClosing(s, end) && forall i :: p <= i < end ==> !IsClosing(s, i)
    ensures JsonString.Scan(s, p).Closed? && JsonString.Scan(s, p).end == end
    decreases end - p
  {
    if p < end {
      var step := if s[p] == BACKSLASH then 2 else 1;
      assert BackslashesBefore(s, p + 1) == if s[p] == BACKSLASH then BackslashesBefore(s, p) + 1 else 0;
      assert !IsClosing(s, p);
      assert step == 2 ==>
          BackslashesBefore(s, p + 2) == if s[p + 1] == BACKSLASH then BackslashesBefore(s, p) + 2 else 0;
      assert step == 2 ==> !IsClosing(s, p + 1);
      ScanFinds(s, p + step, end);
    }
  }

  /** And the quote it stops at is that one. */
  lemma {:induction false} ScanFound(s: seq<byte>, p: nat)
    requires JsonString.Scan(s, p).Closed? && BackslashesBefore(s, p) % 2 == 0
    ensures var end := JsonString.Scan(s, p).end;
            IsClosing(s, end) && forall i :: p <= i < end ==> !IsClosing(s, i)
    decreases |s| - p
  {
    if s[p] != QUOTE {
      var step := if s[p] == BACKSLASH then 2 else 1;
      assert BackslashesBefore(s, p + 1) == if s[p] == BACKSLASH then BackslashesBefore(s, p) + 1 else 0;
      assert step == 2 ==>
          BackslashesBefore(s, p + 2) == if s[p + 1] == BACKSLASH then BackslashesBefore(s, p) + 2 else 0;
      ScanFound(s, p + step);
      assert !IsClosing(s, p) && (step == 2 ==> !IsClosing(s, p + 1));
    }
  }

  lemma LiteralScans(literal: seq<byte>, rest: seq<byte>)
    requires IsLiteral(literal)
    ensures var r := JsonString.Scan(literal + rest, 1); r.Closed? && r.end == |literal| - 1
  {
    var s, end := literal + rest, |literal| - 1;
    forall i | 1 <= i <= end ensures IsClosing(s, i) <==> IsClosing(literal, i) {
      assert s[..i] == literal[..i];
      BackslashesAgree(s, literal, i);
    }
    assert s[0] == QUOTE;
    ScanFinds(s, 1, end);
  }

  lemma ScannedIsLiteral(s: seq<byte>)
    requires s != [] && s[0] == QUOTE && JsonString.Scan(s, 1).Closed?
    ensures IsLiteral(s[..JsonString.Scan(s, 1).end + 1])
  {
    var end := JsonString.Scan(s, 1).end;
    var t := s[..end + 1];
    ScanFound(s, 1);
    assert BackslashesBefore(s, 1) == 0;
    forall i | 1 <= i <= end ensures IsClosing(s, i) <==> IsClosing(t, i) {
      assert s[..i] == t[..i];
      BackslashesAgree(s, t, i);
    }
    assert t[0] == QUOTE && IsClosing(t, |t| - 1);
  }

  // ----- String tokens -----

  /** A literal's characters; the closing quote may be the letter of the last escape as well. */
  datatype StringToken = StringToken(chars: seq<Char>, overlaps: bool)

  function StringText(t: StringToken): seq<byte> {
    [QUOTE] + CharsText(t.chars) + (if t.overlaps then [] else [QUOTE])
  }

  /** The literals that parse_string takes. */
  predicate LenientString(t: StringToken) {
    && LenientChars(t.chars) && IsLiteral(StringText(t))
    && (t.overlaps ==> t.chars != [] && t.chars[|t.chars| - 1] == Short(QUOTE))
  }

  /** A string of section 7. */
  predicate ValidString(t: StringToken)
    ensures ValidString(t) ==> LenientString(t)
  {
    if !t.overlaps && ValidChars(t.chars) then
      ValidCharsClose(t.chars);
      assert t == StringToken(t.chars, false);
      true
    else false
  }

  /** The bytes the characters denote, as far as a C string can hold them. */
  function StringMeaning(t: StringToken): (r: seq<byte>)
    requires LenientString(t)
  {
    CString(CharsBytes(t.chars))
  }

  // ----- Reading a character -----

  /** A literal is read in the same way wherever it stands. */
  lemma UnitMoves(s: seq<byte>, p: nat, literal: seq<byte>, at: nat, unit: nat)
    requires JsonString.At(s, p, literal) && Utf8.SpellsUnit(literal, at, unit)
    ensures Utf8.SpellsUnit(s, p + at, unit)
  {
    assert forall i :: 0 <= i < |literal| ==> s[p + i] == s[p..p + |literal|][i] == literal[i];
    assert s[p + at] == literal[at] && s[p + at + 1] == literal[at + 1];
    assert s[p + at + 2] == literal[at + 2] && s[p + at + 3] == literal[at + 3];
    assert s[p + at + 4] == literal[at + 4] && s[p + at + 5] == literal[at + 5];
  }

  lemma ScalarMoves(s: seq<byte>, p: nat, literal: seq<byte>, cp: nat)
    requires JsonString.At(s, p, literal) && Utf8.SpellsScalar(literal, 0, cp, |literal|)
    ensures Utf8.SpellsScalar(s, p, cp, |literal|)
  {
    hide Utf8.SpellsUnit;
    if cp < 0x10000 {
      UnitMoves(s, p, literal, 0, cp);
    } else {
      UnitMoves(s, p, literal, 0, 0xD800 + (cp - 0x10000) / 0x400);
      UnitMoves(s, p, literal, 6, 0xDC00 + (cp - 0x10000) % 0x400);
    }
  }

  ghost predicate ScansAlong(s: seq<byte>, p: nat, q: nat) {
    && (JsonString.Scan(s, q).Closed? <==> JsonString.Scan(s, p).Closed?)
    && (JsonString.Scan(s, q).Closed? ==> JsonString.Scan(s, p).end == JsonString.Scan(s, q).end)
  }

  /** The scan steps over the six characters of a literal. */
  lemma UnitScans(s: seq<byte>, p: nat, unit: nat)
    requires Utf8.SpellsUnit(s, p, unit)
    ensures ScansAlong(s, p, p + 6)
  {
    Utf8.UnitIsHex4(s, p, unit);
    assert JsonString.Scan(s, p) == JsonString.Counted(JsonString.Scan(s, p + 2));
    assert JsonString.Scan(s, p + 2) == JsonString.Counted(JsonString.Scan(s, p + 3));
    assert JsonString.Scan(s, p + 3) == JsonString.Counted(JsonString.Scan(s, p + 4));
    assert JsonString.Scan(s, p + 4) == JsonString.Counted(JsonString.Scan(s, p + 5));
    assert JsonString.Scan(s, p + 5) == JsonString.Counted(JsonString.Scan(s, p + 6));
  }

  lemma LongScans(s: seq<byte>, p: nat, literal: seq<byte>, cp: nat)
    requires Utf8.SpellsScalar(literal, 0, cp, |literal|) && JsonString.At(s, p, literal)
    ensures ScansAlong(s, p, p + |literal|)
  {
    hide Utf8.SpellsUnit, JsonString.Scan, JsonString.At;
    ScalarMoves(s, p, literal, cp);
    if cp < 0x10000 {
      UnitScans(s, p, cp);
    } else {
      UnitScans(s, p, 0xD800 + (cp - 0x10000) / 0x400);
      UnitScans(s, p + 6, 0xDC00 + (cp - 0x10000) % 0x400);
    }
  }

  lemma LongReads(s: seq<byte>, p: nat, literal: seq<byte>, cp: nat, end: nat)
    requires Utf8.IsScalar(cp) && Utf8.SpellsScalar(literal, 0, cp, |literal|)
    requires JsonString.At(s, p, literal) && p + |literal| <= end < |s|
    ensures JsonString.Decode(s, p, end)
        == JsonString.After(Utf8.EncodeUtf8(cp), JsonString.Decode(s, p + |literal|, end))
  {
    hide Utf8.EncodeUtf8, Utf8.SpellsDigits, Utf8.Hex4, Utf8.SpellsInUtf8, JsonString.At;
    ScalarMoves(s, p, literal, cp);
    Utf8.ScalarLiteralsDecode(s, p, end, cp, |literal|);
    Utf8.EncodingSpells(cp);
    Utf8.SpellingIsOneToOne(Utf8.DecodeLiteral(s, p, end).bytes, Utf8.EncodeUtf8(cp), cp, cp);
  }

  /** Without digits a literal counts as the code point 0. */
  lemma DigitlessReads(s: seq<byte>, p: nat, four: seq<byte>, end: nat)
    requires LenientChar(Digitless(four))
    requires JsonString.At(s, p, [BACKSLASH, LOWER_U] + four) && p + 6 <= end < |s|
    ensures JsonString.Decode(s, p, end) == JsonString.After([NUL], JsonString.Decode(s, p + 6, end))
  {
    var text := [BACKSLASH, LOWER_U] + four;
    assert forall i :: 0 <= i < 6 ==> s[p + i] == s[p..p + 6][i] == text[i];
    assert s[p + 2] == four[0] && s[p + 3] == four[1] && s[p + 4] == four[2] && s[p + 5] == four[3];
    DigitlessIsZero(four, s, p + 2);
    ZeroReads(s, p, end);
  }

  lemma DigitlessIsZero(four: seq<byte>, s: seq<byte>, at: nat)
    requires |four| == 4 && !Utf8.AllDigits(four, 0) && at + 4 <= |s|
    requires s[at] == four[0] && s[at + 1] == four[1] && s[at + 2] == four[2] && s[at + 3] == four[3]
    ensures Utf8.Hex4(s, at) == 0
  {
    hide Utf8.AllDigits;
    Utf8.AllDigitsAreHex(four, 0);
  }

  lemma ZeroReads(s: seq<byte>, p: nat, end: nat)
    requires p + 6 <= end < |s| && s[p] == BACKSLASH && s[p + 1] == LOWER_U && Utf8.Hex4(s, p + 2) == 0
    ensures JsonString.Decode(s, p, end) == JsonString.After([NUL], JsonString.Decode(s, p + 6, end))
  {
    hide Utf8.Hex4;
    assert Utf8.EncodeUtf8(0) == [NUL];
  }

  /** A character is decoded to its bytes. */
  lemma CharReads(s: seq<byte>, p: nat, c: Char, end: nat)
    requires LenientChar(c)
    requires JsonString.At(s, p, CharText(c)) && p + |CharText(c)| <= end < |s|
    ensures JsonString.Decode(s, p, end) == JsonString.After(CharBytes(c), JsonString.Decode(s, p + |CharText(c)|, end))
  {
    match c {
      case Long(literal, cp) => LongReads(s, p, literal, cp, end);
      case Digitless(four) => DigitlessReads(s, p, four, end);
      case Unescaped(b) => assert s[p] == CharText(c)[0];
      case Short(letter) => assert s[p] == CharText(c)[0] && s[p + 1] == CharText(c)[1];
    }
  }

  /** The scan steps over a character of section 7. */
  lemma CharScans(s: seq<byte>, p: nat, c: Char)
    requires ValidChar(c) && JsonString.At(s, p, CharText(c))
    ensures ScansAlong(s, p, p + |CharText(c)|)
  {
    if c.Long? {
      LongScans(s, p, c.literal, c.cp);
    } else {
      var text := CharText(c);
      assert s[p] == text[0];
      assert |text| > 1 ==> s[p + 1] == text[1];
    }
  }

  // ----- Reading a string -----

  /** Where the decoding of the characters ends: at the closing quote, or behind it when it is the last letter. */
  ghost predicate DecodesTo(cs: seq<Char>, stop: nat, end: nat) {
    stop == end || (stop == end + 1 && cs != [] && cs[|cs| - 1] == Short(QUOTE))
  }

  lemma {:induction false} CharsRead(s: seq<byte>, p: nat, cs: seq<Char>, end: nat)
    requires LenientChars(cs) && JsonString.At(s, p, CharsText(cs)) && end < |s|
    requires DecodesTo(cs, p + |CharsText(cs)|, end)
    ensures JsonString.Decode(s, p, end) == JsonString.Run(CharsBytes(cs), true)
    decreases |cs|
  {
    hide JsonString.Decode, CharText, CharBytes, CharsText, CharsBytes, JsonString.At, LenientChar;
    if cs == [] {
      NoChars(s, end);
    } else {
      CharsSplit(cs);
      JsonString.AtConcat(s, p, CharText(cs[0]), CharsText(cs[1..]));
      if p + |CharText(cs[0])| > end {
        LastLetter(s, p, cs, end);
      } else {
        NoChars(s, end);
        assert |cs| == 1 ==> cs[1..] == [];
        CharsRead(s, p + |CharText(cs[0])|, cs[1..], end);
        CharReads(s, p, cs[0], end);
      }
    }
  }

  lemma NoChars(s: seq<byte>, end: nat)
    requires end < |s|
    ensures CharsText([]) == [] && JsonString.Run(CharsBytes([]), true) == JsonString.Decode(s, end, end)
  {
  }

  lemma CharsSplit(cs: seq<Char>)
    requires LenientChars(cs) && cs != []
    ensures CharsText(cs) == CharText(cs[0]) + CharsText(cs[1..])
    ensures LenientChar(cs[0]) && LenientChars(cs[1..])
    ensures JsonString.After(CharBytes(cs[0]), JsonString.Run(CharsBytes(cs[1..]), true))
        == JsonString.Run(CharsBytes(cs), true)
  {
    hide LenientChar, CharText, CharBytes;
  }

  lemma CharIsLong(c: Char)
    requires LenientChar(c)
    ensures CharText(c) != [] && (c.Short? ==> |CharText(c)| == 2)
  {
  }

  lemma {:induction false} CharsAreLong(cs: seq<Char>)
    requires LenientChars(cs) && cs != [] && cs[|cs| - 1].Short?
    ensures |CharsText(cs)| >= 2
    ensures |cs| > 1 ==> |CharsText(cs[1..])| >= 2
  {
    hide LenientChar, CharText;
    CharIsLong(cs[0]);
    if |cs| > 1 {
      CharsAreLong(cs[1..]);
    }
  }

  /** The closing quote as the letter of the last escape. */
  lemma LastLetter(s: seq<byte>, p: nat, cs: seq<Char>, end: nat)
    requires LenientChars(cs) && cs != [] && JsonString.At(s, p, CharsText(cs)) && end < |s|
    requires DecodesTo(cs, p + |CharsText(cs)|, end) && p + |CharText(cs[0])| > end
    ensures JsonString.Decode(s, p, end) == JsonString.Run(CharsBytes(cs), true)
  {
    hide JsonString.Decode, LenientChar, CharsText, CharsBytes, CharText;
    CharsSplit(cs);
    CharsAreLong(cs);
    assert cs == [Short(QUOTE)];
    OneQuote();
    assert s[p] == s[p..p + 2][0] == BACKSLASH && s[p + 1] == s[p..p + 2][1] == QUOTE;
    QuoteLetter(s, p);
  }

  lemma OneQuote()
    ensures LenientChars([Short(QUOTE)])
    ensures CharsText([Short(QUOTE)]) == [BACKSLASH, QUOTE] && CharsBytes([Short(QUOTE)]) == [QUOTE]
  {
    assert CharsText([Short(QUOTE)]) == [BACKSLASH, QUOTE] + [];
    assert CharsBytes([Short(QUOTE)]) == [QUOTE] + [];
  }

  lemma QuoteLetter(s: seq<byte>, p: nat)
    requires p + 1 < |s| && s[p] == BACKSLASH && s[p + 1] == QUOTE
    ensures JsonString.Decode(s, p, p + 1) == JsonString.Run([QUOTE], true)
  {
    assert JsonString.Decode(s, p + 2, p + 1) == JsonString.Run([], true);
  }

  /** The scan steps over the characters of section 7. */
  lemma {:induction false} CharsScan(s: seq<byte>, p: nat, cs: seq<Char>)
    requires ValidChars(cs) && JsonString.At(s, p, CharsText(cs))
    ensures ScansAlong(s, p, p + |CharsText(cs)|)
    decreases |cs|
  {
    hide JsonString.Scan, CharText, CharBytes, CharsBytes, JsonString.At, ValidChar;
    if cs != [] {
      assert ValidChar(cs[0]);
      JsonString.AtConcat(s, p, CharText(cs[0]), CharsText(cs[1..]));
      CharScans(s, p, cs[0]);
      CharsScan(s, p + |CharText(cs[0])|, cs[1..]);
    }
  }

  /** Characters of section 7 between quotes are a literal. */
  lemma ValidCharsClose(cs: seq<Char>)
    requires ValidChars(cs)
    ensures IsLiteral(StringText(StringToken(cs, false)))
  {
    hide IsLiteral, CharsText;
    var s := StringText(StringToken(cs, false));
    var end := 1 + |CharsText(cs)|;
    assert s[1..end] == CharsText(cs);
    CharsScan(s, 1, cs);
    assert s[..end + 1] == s;
    ScannedIsLiteral(s);
  }

  lemma StringStarts(t: StringToken)
    ensures StringText(t) != [] && StringText(t)[0] == QUOTE
  {
  }

  /** Every such literal is taken, whatever follows it, and gives what its characters denote. */
  lemma StringParses(t: StringToken, rest: seq<byte>)
    requires LenientString(t) && Ends(rest)
    ensures Ends(StringText(t) + rest) && (StringText(t) + rest)[0] == QUOTE
    ensures ParseText(StringText(t) + rest) == Parsed(StringMeaning(t), rest)
  {
    hide JsonString.Scan, JsonString.Decode, CharsText, CharsBytes, IsLiteral;
    var text := StringText(t);
    LiteralScans(text, rest);
    LiteralIsLong(text);
    var end := |text| - 1;
    assert (text + rest)[1..1 + |CharsText(t.chars)|] == CharsText(t.chars);
    CharsRead(text + rest, 1, t.chars, end);
    RoundTrip.Literal(text, rest);
  }

  lemma LiteralIsLong(s: seq<byte>)
    requires IsLiteral(s)
    ensures |s| >= 2
  {
  }

  lemma CharIsNulFree(c: Char)
    requires LenientChar(c)
    ensures NulFree(CharText(c))
  {
    hide Utf8.SpellsDigits;
    if c.Long? {
      LongIsNulFree(c.literal, c.cp);
    }
  }

  lemma UnitIsNulFree(s: seq<byte>, at: nat, unit: nat)
    requires Utf8.SpellsUnit(s, at, unit)
    ensures forall i :: at <= i < at + 6 ==> s[i] != NUL
  {
    hide Utf8.SpellsDigits, Utf8.Hex4, Utf8.IsHexDigit;
    Utf8.UnitIsHex4(s, at, unit);
    DigitIsNoNul(s[at + 2]);
    DigitIsNoNul(s[at + 3]);
    DigitIsNoNul(s[at + 4]);
    DigitIsNoNul(s[at + 5]);
  }

  lemma DigitIsNoNul(b: byte)
    ensures Utf8.IsHexDigit(b) ==> b != NUL
  {
  }

  lemma LongIsNulFree(literal: seq<byte>, cp: nat)
    requires Utf8.SpellsScalar(literal, 0, cp, |literal|)
    ensures NulFree(literal)
  {
    hide Utf8.SpellsUnit;
    if cp < 0x10000 {
      UnitIsNulFree(literal, 0, cp);
    } else {
      UnitIsNulFree(literal, 0, 0xD800 + (cp - 0x10000) / 0x400);
      UnitIsNulFree(literal, 6, 0xDC00 + (cp - 0x10000) % 0x400);
    }
  }

  lemma {:induction false} CharsAreNulFree(cs: seq<Char>)
    requires LenientChars(cs)
    ensures NulFree(CharsText(cs))
  {
    if cs != [] {
      CharIsNulFree(cs[0]);
      CharsAreNulFree(cs[1..]);
    }
  }

  // ----- What is taken is such a literal -----

  /** A literal in valid digits that decodes spells a scalar value. */
  lemma DecodedIsLong(s: seq<byte>, p: nat, end: nat) returns (c: Char)
    requires p < end < |s| && s[p] == BACKSLASH && s[p + 1] == LOWER_U
    requires Utf8.DecodeLiteral(s, p, end).Decoded? && Utf8.AllHex(s, p + 2)
    ensures c.Long? && LenientChar(c) && c.literal == s[p..p + Utf8.DecodeLiteral(s, p, end).length]
    ensures CharBytes(c) == Utf8.DecodeLiteral(s, p, end).bytes
  {
    hide Utf8.EncodeUtf8, Utf8.SpellsUnit, Utf8.SpellsInUtf8, Utf8.IsHexDigit, Utf8.HexDigitValue;
    var r := Utf8.DecodeLiteral(s, p, end);
    var literal := s[p..p + r.length];
    var first := Utf8.Hex4(s, p + 2);
    SameHex4(s, p, literal, 0);
    Utf8.UnitIsHex4(literal, 0, first);
    if r.length == 6 {
      c := Long(literal, first);
    } else {
      var second := Utf8.Hex4(s, p + 8);
      SameHex4(s, p, literal, 6);
      Utf8.UnitIsHex4(literal, 6, second);
      Utf8.SurrogateHalves(first, second);
      Utf8.PairSplit(first - 0xD800, second - 0xDC00);
      c := Long(literal, 0x10000 + (first - 0xD800) * 0x400 + (second - 0xDC00));
    }
  }

  lemma SameHex4(s: seq<byte>, p: nat, literal: seq<byte>, at: nat)
    requires JsonString.At(s, p, literal) && at + 6 <= |literal|
    ensures Utf8.AllHex(literal, at + 2) <==> Utf8.AllHex(s, p + at + 2)
    ensures Utf8.Hex4(literal, at + 2) == Utf8.Hex4(s, p + at + 2)
    ensures literal[at] == s[p + at] && literal[at + 1] == s[p + at + 1]
  {
    assert forall i :: 0 <= i < |literal| ==> s[p + i] == s[p..p + |literal|][i] == literal[i];
    assert s[p + at + 2] == literal[at + 2] && s[p + at + 3] == literal[at + 3];
    assert s[p + at + 4] == literal[at + 4] && s[p + at + 5] == literal[at + 5];
  }

  lemma DecodedIsDigitless(s: seq<byte>, p: nat, end: nat) returns (c: Char)
    requires p < end < |s| && s[p] == BACKSLASH && s[p + 1] == LOWER_U && NulFree(s[p..end])
    requires Utf8.DecodeLiteral(s, p, end).Decoded? && !Utf8.AllHex(s, p + 2)
    ensures LenientChar(c) && CharText(c) == s[p..p + 6] && Utf8.DecodeLiteral(s, p, end).length == 6
    ensures CharBytes(c) == Utf8.DecodeLiteral(s, p, end).bytes
  {
    var four := s[p + 2..p + 6];
    c := Digitless(four);
    assert forall i :: 0 <= i < 4 ==> four[i] == s[p..end][i + 2];
    assert four[0] == s[p + 2] && four[1] == s[p + 3] && four[2] == s[p + 4] && four[3] == s[p + 5];
    Utf8.AllDigitsAreHex(four, 0);
    assert Utf8.EncodeUtf8(0) == [NUL];
    assert [s[p], s[p + 1]] + four == s[p..p + 6];
  }

  /** The character at the front of what is decoded. */
  lemma FirstChar(s: seq<byte>, p: nat, end: nat) returns (c: Char)
    requires p < end < |s| && s[end] == QUOTE && NulFree(s[p..end]) && JsonString.Decode(s, p, end).ok
    ensures LenientChar(c) && CharText(c) != []
    ensures var q := p + |CharText(c)|;
            && (q <= end || (q == end + 1 && c == Short(QUOTE))) && CharText(c) == s[p..q]
            && JsonString.Decode(s, p, end) == JsonString.After(CharBytes(c), JsonString.Decode(s, q, end))
  {
    hide Utf8.DecodeLiteral, Utf8.SpellsScalar;
    assert s[p] == s[p..end][0] != NUL;
    if s[p] != BACKSLASH {
      c := Unescaped(s[p]);
    } else if JsonString.EscapedByte(s[p + 1]) != NUL {
      c := Short(s[p + 1]);
    } else if Utf8.AllHex(s, p + 2) {
      c := DecodedIsLong(s, p, end);
    } else {
      c := DecodedIsDigitless(s, p, end);
    }
  }

  lemma {:induction false} CharsTree(s: seq<byte>, p: nat, end: nat) returns (cs: seq<Char>, overlaps: bool)
    requires p <= end < |s| && s[end] == QUOTE && NulFree(s[p..end]) && JsonString.Decode(s, p, end).ok
    ensures LenientChars(cs) && CharsBytes(cs) == JsonString.Decode(s, p, end).out
    ensures overlaps ==> cs != [] && cs[|cs| - 1] == Short(QUOTE)
    ensures CharsText(cs) == s[p..if overlaps then end + 1 else end]
    decreases end + 1 - p
  {
    hide JsonString.Decode, CharText, CharBytes, LenientChar;
    if p == end {
      cs, overlaps := [], false;
      NoChars(s, end);
    } else {
      var c := FirstChar(s, p, end);
      var q := p + |CharText(c)|;
      if q > end {
        cs, overlaps := [c], true;
        PastTheEnd(s, end);
        assert CharsText(cs) == CharText(c) + [] && CharsBytes(cs) == CharBytes(c) + [];
      } else {
        var others;
        assert forall i :: 0 <= i < end - q ==> s[q..end][i] == s[p..end][i + q - p];
        others, overlaps := CharsTree(s, q, end);
        cs := [c] + others;
        assert cs[1..] == others;
        assert s[p..q] + s[q..if overlaps then end + 1 else end] == s[p..if overlaps then end + 1 else end];
      }
    }
  }

  lemma PastTheEnd(s: seq<byte>, end: nat)
    requires end < |s|
    ensures JsonString.Decode(s, end + 1, end) == JsonString.Run([], true)
  {
  }

  lemma SuffixIsTerminated(s: seq<byte>, k: nat)
    requires Terminated(s) && k < |s|
    ensures Terminated(s[k..])
  {
    assert s[k..][..|s| - k - 1] == s[..|s| - 1][k..];
  }

  /** What parse_string takes are the characters of such a literal. */
  lemma TextTree(s: seq<byte>) returns (t: StringToken)
    requires Terminated(s) && ParseText(s).Parsed?
    ensures LenientString(t) && s == StringText(t) + ParseText(s).rest && Terminated(ParseText(s).rest)
    ensures StringMeaning(t) == ParseText(s).value
  {
    hide JsonString.Scan, JsonString.Decode, IsLiteral, CharsText, CharsBytes;
    SuffixIsTerminated(s, |s| - |ParseText(s).rest|);
    var end := JsonString.Scan(s, 1).end;
    assert forall i :: 0 <= i < end - 1 ==> s[1..end][i] == s[..|s| - 1][i + 1];
    var cs, overlaps := CharsTree(s, 1, end);
    t := StringToken(cs, overlaps);
    ScannedIsLiteral(s);
    assert StringText(t) == s[..end + 1];
  }

  // ----- Unknown escapes -----

  /** Behind characters of section 7, a backslash and any letter but the eight and u end the parse, whatever follows. */
  lemma UnknownEscapeIsRefused(cs: seq<Char>, letter: byte, rest: seq<byte>)
    requires ValidChars(cs) && !ShortLetter(letter) && letter != LOWER_U
    ensures JsonString.ParseString([QUOTE] + CharsText(cs) + [BACKSLASH, letter] + rest) == JsonString.BadString
  {
    hide JsonString.Decode, CharsText;
    var s := [QUOTE] + CharsText(cs) + [BACKSLASH, letter] + rest;
    var p := 1 + |CharsText(cs)|;
    assert s[1..p] == CharsText(cs);
    CharsScan(s, 1, cs);
    if JsonString.Scan(s, 1).Closed? {
      var end := JsonString.Scan(s, 1).end;
      assert end == JsonString.Scan(s, p).end && end > p;
      UnknownEscapeEnds(s, 1, cs, end);
    }
  }

  lemma {:induction false} UnknownEscapeEnds(s: seq<byte>, p: nat, cs: seq<Char>, end: nat)
    requires LenientChars(cs) && JsonString.At(s, p, CharsText(cs)) && p + |CharsText(cs)| < end < |s|
    requires var q := p + |CharsText(cs)|;
             q + 1 < |s| && s[q] == BACKSLASH && !ShortLetter(s[q + 1]) && s[q + 1] != LOWER_U
    ensures !JsonString.Decode(s, p, end).ok
    decreases |cs|
  {
    hide CharText, CharBytes, JsonString.At, LenientChar;
    if cs != [] {
      hide JsonString.Decode;
      CharsSplit(cs);
      JsonString.AtConcat(s, p, CharText(cs[0]), CharsText(cs[1..]));
      UnknownEscapeEnds(s, p + |CharText(cs[0])|, cs[1..], end);
      CharReads(s, p, cs[0], end);
    }
  }
}
