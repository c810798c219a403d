/**
 UTF-16 escape literals and their UTF-8 form.
 */
module Utf8 {
  import opened Bytes

  // ----- The UTF-8 table of section 3 of RFC 3629, read as a relation -----

  /** A Unicode scalar value: a code point that is not a surrogate. */
  predicate IsScalar(cp: int) {
    0 <= cp <= 0x10FFFF && !(0xD800 <= cp <= 0xDFFF)
  }

  predicate IsTail(b: byte) {
    0x80 <= b <= 0xBF
  }

  /** The x bits of a byte whose marker bits are `mark`. */
  function Payload(b: byte, mark: int): int {
    b as int - mark
  }

  /**
   `s` is a row of the table: the marker bits are right, the x bits spell `cp`, and the row is the one for
   `cp`'s range.
   */
  predicate SpellsInUtf8(s: seq<byte>, cp: int) {
    || (|s| == 1 && cp <= 0x7F && cp == s[0])
    || (|s| == 2 && 0x80 <= cp <= 0x7FF
        && 0xC0 <= s[0] <= 0xDF && IsTail(s[1])
        && cp == Payload(s[0], 0xC0) * 0x40 + Payload(s[1], 0x80))
    || (|s| == 3 && 0x800 <= cp <= 0xFFFF
        && 0xE0 <= s[0] <= 0xEF && IsTail(s[1]) && IsTail(s[2])
        && cp == Payload(s[0], 0xE0) * 0x1000 + Payload(s[1], 0x80) * 0x40 + Payload(s[2], 0x80))
    || (|s| == 4 && 0x10000 <= cp <= 0x10FFFF
        && 0xF0 <= s[0] <= 0xF7 && IsTail(s[1]) && IsTail(s[2]) && IsTail(s[3])
        && cp == Payload(s[0], 0xF0) * 0x4_0000 + Payload(s[1], 0x80) * 0x1000
                 + Payload(s[2], 0x80) * 0x40 + Payload(s[3], 0x80))
  }

  /** The table determines the bytes from the code point and the code point from the bytes. */
  lemma SpellingIsOneToOne(s: seq<byte>, t: seq<byte>, cp: int, cq: int)
    requires SpellsInUtf8(s, cp) && SpellsInUtf8(t, cq)
    ensures s == t <==> cp == cq
  {
    if cp == cq {
      assert |s| == |t|;
      assert s[0] == t[0];
      assert |s| > 1 ==> s[1] == t[1];
      assert |s| > 2 ==> s[2] == t[2];
      assert |s| > 3 ==> s[3] == t[3];
    }
  }

  // ----- Hexadecimal literals -----

  /** The digits in the order of their values, in either case. */
  const LOWER_DIGITS: string := "0123456789abcdef"
  const UPPER_DIGITS: string := "0123456789ABCDEF"

  /** The byte is the digit with this value. */
  predicate IsDigitOf(b: byte, value: nat) {
    value < 16 && (b as int == LOWER_DIGITS[value] as int || b as int == UPPER_DIGITS[value] as int)
  }

  /** Four digits denote `unit`. */
  predicate DigitsDenote(b0: byte, b1: byte, b2: byte, b3: byte, unit: nat) {
    exists d0: nat, d1: nat, d2: nat, d3: nat ::
      && d0 < 16 && d1 < 16 && d2 < 16 && d3 < 16
      && IsDigitOf(b0, d0) && IsDigitOf(b1, d1) && IsDigitOf(b2, d2) && IsDigitOf(b3, d3)
      && unit == ((d0 * 16 + d1) * 16 + d2) * 16 + d3
  }

  predicate SpellsDigits(s: seq<byte>, at: nat, unit: nat)
    requires at + 4 <= |s|
  {
    DigitsDenote(s[at], s[at + 1], s[at + 2], s[at + 3], unit)
  }

  predicate IsHexDigit(b: byte) {
    || DIGIT_0 <= b <= DIGIT_9
    || UPPER_A <= b <= UPPER_F
    || LOWER_A <= b <= LOWER_F
  }

  function HexDigitValue(b: byte): (v: nat)
    requires IsHexDigit(b)
    ensures v < 16
  {
    if b <= DIGIT_9 then b as int - DIGIT_0
    else if b <= UPPER_F then 10 + b as int - UPPER_A
    else 10 + b as int - LOWER_A
  }

  /** Every one of the four bytes is a digit. */
  predicate AllDigits(s: seq<byte>, at: nat)
    requires at + 4 <= |s|
  {
    forall i :: at <= i < at + 4 ==> exists d: nat :: d < 16 && IsDigitOf(s[i], d)
  }

  lemma DigitTables(value: nat)
    requires value < 16
    ensures LOWER_DIGITS[value] as int == if value < 10 then 48 + value else 87 + value
    ensures UPPER_DIGITS[value] as int == if value < 10 then 48 + value else 55 + value
  {
    assert LOWER_DIGITS == ['0', '1', '2', '3', '4', '5', '6', '7', '8', '9', 'a', 'b', 'c', 'd', 'e', 'f'];
    assert UPPER_DIGITS == ['0', '1', '2', '3', '4', '5', '6', '7', '8', '9', 'A', 'B', 'C', 'D', 'E', 'F'];
  }

  /** A digit's value is its place in its table. */
  lemma DigitIsItsPlace(b: byte, value: nat)
    ensures IsDigitOf(b, value) <==> IsHexDigit(b) && HexDigitValue(b) == value
  {
    if value < 16 {
      DigitTables(value);
    }
  }

  predicate AllHex(s: seq<byte>, at: nat)
    requires at + 4 <= |s|
  {
    IsHexDigit(s[at]) && IsHexDigit(s[at + 1]) && IsHexDigit(s[at + 2]) && IsHexDigit(s[at + 3])
  }

  /** The number four hexadecimal digits denote; 0 when one of them is not a digit. */
  function Hex4(s: seq<byte>, at: nat): (h: nat)
    requires at + 4 <= |s|
    ensures h <= 0xFFFF
    ensures h != 0 ==> AllHex(s, at)
  {
    if AllHex(s, at) then
      HexDigitValue(s[at]) * 0x1000 + HexDigitValue(s[at + 1]) * 0x100
      + HexDigitValue(s[at + 2]) * 0x10 + HexDigitValue(s[at + 3])
    else
      0
  }

  lemma AllDigitsAreHex(s: seq<byte>, at: nat)
    requires at + 4 <= |s|
    ensures AllDigits(s, at) <==> AllHex(s, at)
  {
    hide IsDigitOf, IsHexDigit, HexDigitValue;
    forall i | at <= i < at + 4 ensures (exists d: nat :: d < 16 && IsDigitOf(s[i], d)) <==> IsHexDigit(s[i]) {
      if d: nat :| d < 16 && IsDigitOf(s[i], d) {
        DigitIsItsPlace(s[i], d);
      }
      if IsHexDigit(s[i]) {
        DigitIsItsPlace(s[i], HexDigitValue(s[i]));
      }
    }
  }

  /** The number is the one the four digits denote. */
  lemma Hex4IsSpelled(s: seq<byte>, at: nat, unit: nat)
    requires at + 4 <= |s|
    ensures SpellsDigits(s, at, unit) <==> AllHex(s, at) && Hex4(s, at) == unit
  {
    hide IsDigitOf, IsHexDigit, HexDigitValue;
    if SpellsDigits(s, at, unit) {
      var d0: nat, d1: nat, d2: nat, d3: nat :|
        && d0 < 16 && d1 < 16 && d2 < 16 && d3 < 16
        && IsDigitOf(s[at], d0) && IsDigitOf(s[at + 1], d1) && IsDigitOf(s[at + 2], d2) && IsDigitOf(s[at + 3], d3)
        && unit == ((d0 * 16 + d1) * 16 + d2) * 16 + d3;
      DigitIsItsPlace(s[at], d0);
      DigitIsItsPlace(s[at + 1], d1);
      DigitIsItsPlace(s[at + 2], d2);
      DigitIsItsPlace(s[at + 3], d3);
    }
    if AllHex(s, at) {
      DigitIsItsPlace(s[at], HexDigitValue(s[at]));
      DigitIsItsPlace(s[at + 1], HexDigitValue(s[at + 1]));
      DigitIsItsPlace(s[at + 2], HexDigitValue(s[at + 2]));
      DigitIsItsPlace(s[at + 3], HexDigitValue(s[at + 3]));
    }
  }

  /** parse_hex4: the accumulating loop, giving up with 0 on the first character that is no digit. */
  method ParseHex4(s: seq<byte>, at: nat) returns (h: nat)
    requires at + 4 <= |s|
    ensures h == Hex4(s, at)
    ensures if exists unit: nat :: SpellsDigits(s, at, unit) then SpellsDigits(s, at, h) else h == 0
  {
    forall unit: nat ensures SpellsDigits(s, at, unit) <==> AllHex(s, at) && Hex4(s, at) == unit {
      Hex4IsSpelled(s, at, unit);
    }
    hide SpellsDigits;
    h := 0;
    var i := 0;
    while i < 4
      invariant 0 <= i <= 4
      invariant i > 0 ==> IsHexDigit(s[at])
      invariant i > 1 ==> IsHexDigit(s[at + 1])
      invariant i > 2 ==> IsHexDigit(s[at + 2])
      invariant i > 3 ==> IsHexDigit(s[at + 3])
      invariant h == (if i == 0 then 0
                      else HexDigitValue(s[at]) * (if i == 1 then 0x10 else if i == 2 then 0x100 else 0x1000))
                     + (if i > 1 then HexDigitValue(s[at + 1]) * (if i == 2 then 0x10 else 0x100) else 0)
                     + (if i > 2 then HexDigitValue(s[at + 2]) * 0x10 else 0)
                     + (if i > 3 then HexDigitValue(s[at + 3]) else 0)
    {
      var c: int := s[at + i];
      if DIGIT_0 as int <= c <= DIGIT_9 as int {
        h := h + (c - DIGIT_0);
      } else if UPPER_A as int <= c <= UPPER_F as int {
        h := h + (10 + c - UPPER_A);
      } else if LOWER_A as int <= c <= LOWER_F as int {
        h := h + (10 + c - LOWER_A);
      } else {
        assert !AllHex(s, at);
        return 0;
      }
      if i < 3 {
        h := h * 16;
      }
      i := i + 1;
    }
  }

  // ----- One literal -----

  function EncodeUtf8(cp: nat): (s: seq<byte>)
    requires cp <= 0x10FFFF
    ensures |s| == Utf8Length(cp)
  {
    [FirstByte(cp)] + Tails(cp, Utf8Length(cp) - 1)
  }

  function FirstByte(cp: nat): (b: byte)
    requires cp <= 0x10FFFF
  {
    if cp < 0x80 then cp
    else if cp < 0x800 then 0xC0 + cp / 0x40
    else if cp < 0x10000 then 0xE0 + cp / 0x40 / 0x40
    else 0xF0 + cp / 0x40 / 0x40 / 0x40
  }

  function Utf8Length(cp: nat): (n: nat)
    ensures 1 <= n <= 4
  {
    if cp < 0x80 then 1 else if cp < 0x800 then 2 else if cp < 0x10000 then 3 else 4
  }

  /** The last `n` continuation bytes of `cp`, six bits each, lowest group last. */
  function Tails(cp: nat, n: nat): (s: seq<byte>)
    ensures |s| == n
  {
    if n == 0 then [] else Tails(cp / 0x40, n - 1) + [0x80 + cp % 0x40]
  }

  lemma EncodingSpells(cp: nat)
    requires cp <= 0x10FFFF
    ensures SpellsInUtf8(EncodeUtf8(cp), cp)
  {
    var q1, q2 := cp / 0x40, cp / 0x40 / 0x40;
    assert Tails(cp, 1) == [0x80 + cp % 0x40];
    assert Tails(cp, 2) == [0x80 + q1 % 0x40, 0x80 + cp % 0x40];
    assert Tails(cp, 3) == Tails(q1, 2) + [0x80 + cp % 0x40];
    assert Tails(q1, 2) == Tails(q2, 1) + [0x80 + q1 % 0x40];
  }

  datatype Literal = Malformed | Decoded(bytes: seq<byte>, length: nat)

  /** What utf16_literal_to_utf8 makes of the literal starting at `p`, the string ending at `end`. */
  function DecodeLiteral(s: seq<byte>, p: nat, end: nat): (r: Literal)
    requires p <= end <= |s|
    ensures r.Decoded? ==> (r.length == 6 && 1 <= |r.bytes| <= 3) || (r.length == 12 && |r.bytes| == 4)
    ensures r.Decoded? ==> p + r.length <= end
  {
    if end - p < 6 then Malformed
    else
      var first := Hex4(s, p + 2);
      if 0xDC00 <= first <= 0xDFFF then Malformed
      else if 0xD800 <= first <= 0xDBFF then
        if end - (p + 6) < 6 then Malformed
        else if s[p + 6] != BACKSLASH || s[p + 7] != LOWER_U then Malformed
        else
          var second := Hex4(s, p + 8);
          if second < 0xDC00 || second > 0xDFFF then Malformed
          else Decoded(EncodeUtf8(0x10000 + (first % 0x400) * 0x400 + second % 0x400), 12)
      else Decoded(EncodeUtf8(first), 6)
  }

  /** One turn of the tail loop: the low six bits go in front of the bytes already written. */
  method WriteTail(codepoint: nat, output: array<byte>, at: nat, next: nat)
    requires at < next <= output.Length
    modifies output
    ensures output[..at] == old(output[..at])
    ensures output[at..next] == [0x80 + codepoint % 0x40] + old(output[at + 1..next])
    ensures output[next..] == old(output[next..])
  {
    output[at] := 0x80 + codepoint % 0x40;
  }

  /** The tail loop of utf16_literal_to_utf8: everything but the first byte, which is left for last. */
  method WriteTails(cp: nat, utf8Length: nat, output: array<byte>, at: nat) returns (codepoint: nat)
    requires 1 <= utf8Length <= 4 && at + utf8Length <= output.Length
    modifies output
    ensures codepoint == Shifted(cp, utf8Length - 1)
    ensures output[..at] == old(output[..at])
    ensures output[at + 1..at + utf8Length] == Tails(cp, utf8Length - 1)
    ensures output[at + utf8Length..] == old(output[at + utf8Length..])
  {
    codepoint := cp;
    ghost var next := at + utf8Length;
    var position := utf8Length - 1;
    while position > 0
      invariant 0 <= position < utf8Length
      invariant codepoint == Shifted(cp, utf8Length - 1 - position)
      invariant Tails(cp, utf8Length - 1) == Tails(codepoint, position) + output[at + position + 1..next]
      invariant output[..at] == old(output[..at])
      invariant output[next..] == old(output[next..])
    {
      WriteTail(codepoint, output, at + position, at + utf8Length);
      codepoint := codepoint / 0x40;
      position := position - 1;
    }
  }

  /** The encoding half of utf16_literal_to_utf8: tail bytes last group first, then the first byte. */
  method WriteUtf8(cp: nat, output: array<byte>, at: nat) returns (next: nat)
    requires cp <= 0x10FFFF
    requires at + |EncodeUtf8(cp)| <= output.Length
    modifies output
    ensures next == at + |EncodeUtf8(cp)|
    ensures output[..] == old(output[..at]) + EncodeUtf8(cp) + old(output[next..])
  {
    var codepoint := cp;
    var utf8Length: nat;
    var firstByteMark := 0;
    if codepoint < 0x80 {
      utf8Length := 1;
    } else if codepoint < 0x800 {
      utf8Length, firstByteMark := 2, 0xC0;
    } else if codepoint < 0x10000 {
      utf8Length, firstByteMark := 3, 0xE0;
    } else if codepoint <= 0x10FFFF {
      utf8Length, firstByteMark := 4, 0xF0;
    } else {
      assert false; // "invalid unicode codepoint": no literal denotes more than U+10FFFF
    }
    assert utf8Length == Utf8Length(cp);
    assert FirstByte(cp) == firstByteMark + Shifted(cp, utf8Length - 1);
    next := at + utf8Length;

    codepoint := WriteTails(cp, utf8Length, output, at);
    ghost var tails := output[at + 1..next];
    if utf8Length > 1 {
      output[at] := firstByteMark + codepoint;
    } else {
      output[at] := codepoint;
    }
    assert output[at..next] == [FirstByte(cp)] + tails;
    assert output[..] == output[..at] + output[at..next] + output[next..];
  }

  /** utf16_literal_to_utf8: writes the encoding at `output[at..]`; length 0 reports a malformed literal. */
  method Utf16LiteralToUtf8(s: seq<byte>, p: nat, end: nat, output: array<byte>, at: nat)
    returns (sequenceLength: nat, next: nat)
    requires p <= end <= |s|
    requires DecodeLiteral(s, p, end).Decoded? ==> at + |DecodeLiteral(s, p, end).bytes| <= output.Length
    modifies output
    ensures DecodeLiteral(s, p, end).Malformed? ==> sequenceLength == 0 && output[..] == old(output[..])
    ensures var r := DecodeLiteral(s, p, end);
            r.Decoded? ==>
              && sequenceLength == r.length
              && next == at + |r.bytes| <= output.Length
              && output[..] == old(output[..at]) + r.bytes + old(output[next..])
  {
    hide EncodeUtf8, SpellsDigits, Hex4;
    next := at;
    if end - p < 6 {
      return 0, at;
    }
    var first := ParseHex4(s, p + 2);
    if 0xDC00 <= first <= 0xDFFF {
      return 0, at;
    }
    var codepoint: nat;
    if 0xD800 <= first <= 0xDBFF {
      sequenceLength := 12;
      if end - (p + 6) < 6 {
        return 0, at;
      }
      if s[p + 6] != BACKSLASH || s[p + 7] != LOWER_U {
        return 0, at;
      }
      var second := ParseHex4(s, p + 8);
      if second < 0xDC00 || second > 0xDFFF {
        return 0, at;
      }
      codepoint := 0x10000 + (first % 0x400) * 0x400 + second % 0x400;
    } else {
      sequenceLength := 6;
      codepoint := first;
    }
    next := WriteUtf8(codepoint, output, at);
  }

  /** `cp` with `n` groups of six bits shifted out. */
  ghost function Shifted(cp: nat, n: nat): nat {
    if n == 0 then cp
    else if n == 1 then cp / 0x40
    else if n == 2 then cp / 0x40 / 0x40
    else cp / 0x40 / 0x40 / 0x40
  }

  /** The masks and shifts that write a code point are the divisions and remainders written above. */
  lemma MasksAreRemainders(cp: bv32, mark: bv32)
    requires cp <= 0x10FFFF
    ensures (cp | 0x80) & 0xBF == 0x80 + cp % 0x40
    ensures cp >> 6 == cp / 0x40
    ensures cp < 0x80 ==> cp & 0x7F == cp
    ensures cp < 0x20 && mark <= 0xF0 && cp & mark == 0 ==> (cp | mark) & 0xFF == mark + cp
  {
  }

  /** So are those that put a surrogate pair together, and the shift of parse_hex4. */
  lemma PairMasksAreRemainders(high: bv32, low: bv32)
    requires high <= 0xFFFF && low <= 0xFFFF
    ensures ((high & 0x3FF) << 10) | (low & 0x3FF) == (high % 0x400) * 0x400 + low % 0x400
    ensures high <= 0xFFF ==> high << 4 == high * 0x10
  {
    assert high & 0x3FF == high % 0x400 && low & 0x3FF == low % 0x400;
    assert (high & 0x3FF) << 10 == (high & 0x3FF) * 0x400;
    assert ((high & 0x3FF) << 10) & (low & 0x3FF) == 0;
  }

  // ----- The code units of a scalar value -----

  /** `s[at..]` begins with the literal \uXXXX of the code unit `unit`, in digits of either case. */
  predicate SpellsUnit(s: seq<byte>, at: nat, unit: nat) {
    && at + 6 <= |s|
    && s[at] == BACKSLASH && s[at + 1] == LOWER_U
    && SpellsDigits(s, at + 2, unit)
  }

  /** A literal's digits are the ones parse_hex4 reads. */
  lemma UnitIsHex4(s: seq<byte>, at: nat, unit: nat)
    requires at + 6 <= |s|
    ensures SpellsUnit(s, at, unit)
       <==> s[at] == BACKSLASH && s[at + 1] == LOWER_U && AllHex(s, at + 2) && Hex4(s, at + 2) == unit
  {
    Hex4IsSpelled(s, at + 2, unit);
  }

  /** `s[at..]` begins with the UTF-16 literal(s) of `cp` and `length` is their total length. */
  predicate SpellsScalar(s: seq<byte>, at: nat, cp: nat, length: nat) {
    if cp < 0x10000 then
      length == 6 && SpellsUnit(s, at, cp)
    else
      && length == 12
      && SpellsUnit(s, at, 0xD800 + (cp - 0x10000) / 0x400)
      && SpellsUnit(s, at + 6, 0xDC00 + (cp - 0x10000) % 0x400)
  }

  lemma SurrogateHalves(high: nat, low: nat)
    requires 0xD800 <= high <= 0xDBFF && 0xDC00 <= low <= 0xDFFF
    ensures high % 0x400 == high - 0xD800 && low % 0x400 == low - 0xDC00
  {
  }

  lemma SurrogateSplit(cp: nat)
    requires 0x10000 <= cp <= 0x10FFFF
    ensures (cp - 0x10000) / 0x400 < 0x400
    ensures (cp - 0x10000) / 0x400 * 0x400 + (cp - 0x10000) % 0x400 == cp - 0x10000
  {
  }

  lemma PairSplit(high: nat, low: nat)
    requires low < 0x400
    ensures (high * 0x400 + low) / 0x400 == high && (high * 0x400 + low) % 0x400 == low
  {
  }

  /** Every scalar value written as one or two literals decodes to its RFC 3629 bytes, and nothing else is consumed. */
  lemma ScalarLiteralsDecode(s: seq<byte>, p: nat, end: nat, cp: nat, length: nat)
    requires IsScalar(cp) && SpellsScalar(s, p, cp, length)
    requires p + length <= end <= |s|
    ensures var r := DecodeLiteral(s, p, end);
            r.Decoded? && r.length == length && SpellsInUtf8(r.bytes, cp)
  {
    hide SpellsUnit, SpellsInUtf8, EncodeUtf8;
    EncodingSpells(cp);
    if cp < 0x10000 {
      UnitIsHex4(s, p, cp);
    } else {
      UnitIsHex4(s, p, 0xD800 + (cp - 0x10000) / 0x400);
      UnitIsHex4(s, p + 6, 0xDC00 + (cp - 0x10000) % 0x400);
      SurrogateSplit(cp);
      SurrogateHalves(Hex4(s, p + 2), Hex4(s, p + 8));
    }
  }

  /**
   A literal in valid digits is accepted exactly when it spells a scalar value: lone and misordered surrogates
   are refused.
   */
  lemma AcceptedLiteralsAreScalars(s: seq<byte>, p: nat, end: nat, unit: nat)
    requires p + 6 <= end <= |s|
    requires SpellsUnit(s, p, unit)
    requires p + 12 <= end && s[p + 6] == BACKSLASH && s[p + 7] == LOWER_U ==> AllHex(s, p + 8)
    ensures DecodeLiteral(s, p, end).Decoded? <==>
            exists cp: nat, length: nat :: IsScalar(cp) && p + length <= end && SpellsScalar(s, p, cp, length)
  {
    hide SpellsUnit, EncodeUtf8;
    var r := DecodeLiteral(s, p, end);
    UnitIsHex4(s, p, unit);
    if r.Decoded? {
      if r.length == 6 {
        assert IsScalar(unit) && SpellsScalar(s, p, unit, 6);
      } else {
        var second := Hex4(s, p + 8);
        SurrogateHalves(unit, second);
        var cp := 0x10000 + (unit - 0xD800) * 0x400 + (second - 0xDC00);
        PairSplit(unit - 0xD800, second - 0xDC00);
        UnitIsHex4(s, p + 6, second);
        assert IsScalar(cp) && SpellsScalar(s, p, cp, 12);
      }
    }
    forall cp: nat, length: nat | IsScalar(cp) && p + length <= end && SpellsScalar(s, p, cp, length)
      ensures r.Decoded?
    {
      ScalarLiteralsDecode(s, p, end, cp, length);
    }
  }
}
