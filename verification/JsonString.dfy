/**
 JSON string literals: the escaped form the printer writes, and the two passes of the parser
 over a literal (a scan for the closing quote that sizes the output, then the decoding).
 */
module JsonString {
  import opened Bytes
  import opened Utf8

  // ----- Printing -----

  function LowerHex(d: nat): (b: byte)
    requires d < 16
    ensures IsHexDigit(b) && HexDigitValue(b) == d
  {
    if d < 10 then DIGIT_0 + d else LOWER_A + (d - 10)
  }

  /** The letter of a one-character escape sequence, or NUL when `b` has none. */
  function EscapeLetter(b: byte): byte {
    if b == QUOTE then QUOTE
    else if b == BACKSLASH then BACKSLASH
    else if b == BACKSPACE then LOWER_B
    else if b == FORM_FEED then LOWER_F
    else if b == NEWLINE then LOWER_N
    else if b == CARRIAGE_RETURN then LOWER_R
    else if b == TAB then LOWER_T
    else NUL
  }

  /** \u00XX */
  function ControlEscape(b: byte): (r: seq<byte>)
    requires b < SPACE
  {
    [BACKSLASH, LOWER_U, DIGIT_0, DIGIT_0, LowerHex(b / 16), LowerHex(b % 16)]
  }

  function EscapeByte(b: byte): (r: seq<byte>) {
    if EscapeLetter(b) != NUL then [BACKSLASH, EscapeLetter(b)]
    else if b < SPACE then ControlEscape(b)
    else [b]
  }

  function Escape(s: seq<byte>): (r: seq<byte>)
    ensures |r| >= |s|
  {
    if s == [] then [] else EscapeByte(s[0]) + Escape(s[1..])
  }

  function Quoted(s: seq<byte>): (r: seq<byte>)
    ensures |r| == |Escape(s)| + 2
  {
    [QUOTE] + Escape(s) + [QUOTE]
  }

  lemma {:induction false} EscapeConcat(s: seq<byte>, t: seq<byte>)
    ensures Escape(s + t) == Escape(s) + Escape(t)
  {
    if s == [] {
      assert s + t == t;
    } else {
      assert (s + t)[1..] == s[1..] + t;
      EscapeConcat(s[1..], t);
    }
  }

  /** One more turn of either loop of the printer. */
  lemma EscapeStep(s: seq<byte>, i: nat)
    requires i < |s|
    ensures Escape(s[..i + 1]) == Escape(s[..i]) + EscapeByte(s[i])
    ensures Escape(s[i..]) == EscapeByte(s[i]) + Escape(s[i + 1..])
  {
    assert s[..i + 1] == s[..i] + [s[i]];
    EscapeConcat(s[..i], [s[i]]);
    assert Escape([s[i]]) == EscapeByte(s[i]) + Escape([]);
    assert s[i..][1..] == s[i + 1..];
  }

  lemma {:induction false} NothingEscaped(s: seq<byte>)
    requires |Escape(s)| == |s|
    ensures Escape(s) == s
  {
    if s != [] {
      NothingEscaped(s[1..]);
    }
  }

  lemma {:induction false} EscapeIsNulFree(s: seq<byte>)
    requires NulFree(s)
    ensures NulFree(Escape(s)) && NulFree(Quoted(s))
  {
    if s != [] {
      EscapeIsNulFree(s[1..]);
    }
  }

  // ----- The scan pass -----

  /** `units` counts the characters and escape pairs between the start and the closing quote at `end`. */
  datatype ScanResult = Unterminated | Closed(end: nat, units: nat)

  function Scan(s: seq<byte>, p: nat): (r: ScanResult)
    ensures r.Closed? ==> p <= r.end < |s| && s[r.end] == QUOTE && r.units <= r.end - p
    ensures r.Closed? && p < r.end ==> r.units > 0
    decreases |s| - p
  {
    if p >= |s| then Unterminated
    else if s[p] == QUOTE then Closed(p, 0)
    else if s[p] == BACKSLASH then
      if p + 1 >= |s| then Unterminated else Counted(Scan(s, p + 2))
    else Counted(Scan(s, p + 1))
  }

  function Counted(r: ScanResult): ScanResult {
    if r.Closed? then r.(units := r.units + 1) else r
  }

  // ----- The decode pass -----

  /** The bytes written until the pass ends, and whether it ended well. */
  datatype Run = Run(out: seq<byte>, ok: bool)

  function After(written: seq<byte>, r: Run): Run {
    Run(written + r.out, r.ok)
  }

  /** The byte an escape letter other than u stands for, or NUL when the letter is not one. */
  function EscapedByte(letter: byte): byte {
    if letter == LOWER_B then BACKSPACE
    else if letter == LOWER_F then FORM_FEED
    else if letter == LOWER_N then NEWLINE
    else if letter == LOWER_R then CARRIAGE_RETURN
    else if letter == LOWER_T then TAB
    else if letter == QUOTE || letter == BACKSLASH || letter == SLASH then letter
    else NUL
  }

  /** Decoding from `p`; after malformed digits `p` may step over `end`. */
  function Decode(s: seq<byte>, p: nat, end: nat): Run
    requires end < |s|
    decreases end + 1 - p
  {
    if p >= end then Run([], true)
    else if s[p] != BACKSLASH then After([s[p]], Decode(s, p + 1, end))
    else if EscapedByte(s[p + 1]) != NUL then After([EscapedByte(s[p + 1])], Decode(s, p + 2, end))
    else if s[p + 1] == LOWER_U then
      var literal := DecodeLiteral(s, p, end);
      if literal.Malformed? then Run([], false)
      else After(literal.bytes, Decode(s, p + literal.length, end))
    else Run([], false)
  }

  /** What parse_string makes of `s`: the C string it stores and where the cursor goes. */
  datatype StringResult = BadString | GoodString(text: seq<byte>, length: nat)

  function ParseString(s: seq<byte>): (r: StringResult)
    requires |s| > 0
    ensures r.GoodString? ==> 2 <= r.length <= |s| && s[r.length - 1] == QUOTE
    ensures r.GoodString? ==> NulFree(r.text)
  {
    if s[0] != QUOTE then BadString
    else match Scan(s, 1)
      case Unterminated => BadString
      case Closed(end, _) =>
        var run := Decode(s, 1, end);
        if run.ok then GoodString(CString(run.out), end + 1) else BadString
  }

  // ----- The output always fits -----

  ghost predicate UnitsLeft(s: seq<byte>, p: nat, end: nat, most: int) {
    Scan(s, p).Closed? && Scan(s, p).end == end && Scan(s, p).units <= most
  }

  /**
   `p` is where the decode pass can be with room for `room` more bytes: on a unit boundary of the scan pass, or
   (out of phase) on the second byte of an escape pair, when one byte of room is to spare.
   */
  ghost predicate DecodePoint(s: seq<byte>, p: nat, end: nat, room: nat) {
    || UnitsLeft(s, p, end, room)
    || (p < end && UnitsLeft(s, p + 1, end, room - 1))
    || p == end + 1
  }

  /** Whatever the literal contains, decoding from a point writes at most one byte per unit still to come. */
  lemma {:induction false} DecodeFits(s: seq<byte>, p: nat, end: nat, room: nat)
    requires end < |s| && s[end] == QUOTE
    requires DecodePoint(s, p, end, room)
    ensures |Decode(s, p, end).out| <= room
    decreases end + 1 - p
  {
    if p >= end {
    } else if s[p] != BACKSLASH {
      assert DecodePoint(s, p + 1, end, room - 1);
      DecodeFits(s, p + 1, end, room - 1);
    } else if EscapedByte(s[p + 1]) != NUL {
      assert DecodePoint(s, p + 2, end, room - 1);
      DecodeFits(s, p + 2, end, room - 1);
    } else if s[p + 1] == LOWER_U {
      var literal := DecodeLiteral(s, p, end);
      if literal.Decoded? {
        LiteralKeepsRoom(s, p, end, room);
        DecodeFits(s, p + literal.length, end, room - |literal.bytes|);
      }
    }
  }

  /** `n` bytes hold at least n/2 units; the last pair may stick out by one byte. */
  lemma {:induction false} BytesAhead(s: seq<byte>, p: nat, end: nat, most: int, n: nat) returns (units: nat)
    requires p + n <= end && UnitsLeft(s, p, end, most)
    ensures || (n <= 2 * units && UnitsLeft(s, p + n, end, most - units))
            || (n < 2 * units && p + n < end && UnitsLeft(s, p + n + 1, end, most - units))
    decreases n
  {
    units := 0;
    if n == 1 && s[p] == BACKSLASH {
      units := 1;
    } else if n > 0 {
      var step := if s[p] == BACKSLASH then 2 else 1;
      assert UnitsLeft(s, p + step, end, most - 1);
      units := BytesAhead(s, p + step, end, most - 1, n - step);
      units := units + 1;
    }
  }

  /** Hexadecimal digits are units of their own. */
  lemma {:induction false} DigitsAhead(s: seq<byte>, p: nat, end: nat, most: int, n: nat)
    requires p + n <= end < |s| && UnitsLeft(s, p, end, most)
    requires forall i :: p <= i < p + n ==> IsHexDigit(s[i])
    ensures UnitsLeft(s, p + n, end, most - n)
    decreases n
  {
    if n > 0 {
      DigitsAhead(s, p + 1, end, most - 1, n - 1);
    }
  }

  /** A literal in valid digits: its bytes are at most as many as its units. */
  lemma HexLiteralKeepsRoom(s: seq<byte>, p: nat, end: nat, most: int)
    requires p + 6 <= end < |s| && UnitsLeft(s, p + 2, end, most - 1)
    requires AllHex(s, p + 2) && DecodeLiteral(s, p, end).Decoded?
    ensures var r := DecodeLiteral(s, p, end);
            |r.bytes| <= 4 && |r.bytes| <= most && UnitsLeft(s, p + r.length, end, most - |r.bytes|)
  {
    hide Scan, EncodeUtf8, HexDigitValue;
    DigitsAhead(s, p + 2, end, most - 1, 4);
    if DecodeLiteral(s, p, end).length == 12 {
      assert AllHex(s, p + 8);
      PairAhead(s, p + 6, end, most - 5);
      DigitsAhead(s, p + 8, end, most - 6, 4);
    }
  }

  lemma PairAhead(s: seq<byte>, p: nat, end: nat, most: int)
    requires p + 2 <= end < |s| && UnitsLeft(s, p, end, most) && s[p] == BACKSLASH
    ensures UnitsLeft(s, p + 2, end, most - 1)
  {
  }

  /** A literal leaves room for the rest, even when its digits are malformed. */
  lemma LiteralKeepsRoom(s: seq<byte>, p: nat, end: nat, room: nat)
    requires end < |s| && s[end] == QUOTE && p < end
    requires DecodePoint(s, p, end, room)
    requires s[p] == BACKSLASH && s[p + 1] == LOWER_U
    requires DecodeLiteral(s, p, end).Decoded?
    ensures var r := DecodeLiteral(s, p, end);
            |r.bytes| <= room && DecodePoint(s, p + r.length, end, room - |r.bytes|)
  {
    assert UnitsLeft(s, p + 2, end, room - 1);
    hide Scan, EncodeUtf8, HexDigitValue;
    if AllHex(s, p + 2) {
      HexLiteralKeepsRoom(s, p, end, room);
    } else {
      var units := BytesAhead(s, p + 2, end, room - 1, 4);
    }
  }

  // ----- Round trip -----

  /** `text` stands in `s` at `p`. */
  ghost predicate At(s: seq<byte>, p: nat, text: seq<byte>) {
    p + |text| <= |s| && s[p..p + |text|] == text
  }

  lemma AtConcat(s: seq<byte>, p: nat, a: seq<byte>, b: seq<byte>)
    requires At(s, p, a + b)
    ensures At(s, p, a) && At(s, p + |a|, b)
  {
    assert s[p..p + |a|] == (a + b)[..|a|];
    assert s[p + |a|..p + |a| + |b|] == (a + b)[|a|..];
  }

  lemma ControlEscapeReads(s: seq<byte>, p: nat, b: byte, end: nat)
    requires NUL < b < SPACE && p + 6 <= end < |s| && At(s, p, ControlEscape(b))
    ensures DecodeLiteral(s, p, end) == Decoded([b], 6)
    ensures Scan(s, p + 6).Closed? ==> Scan(s, p).Closed? && Scan(s, p).end == Scan(s, p + 6).end
  {
    var e := ControlEscape(b);
    assert s[p] == e[0] && s[p + 1] == e[1] && s[p + 2] == e[2] && s[p + 3] == e[3] && s[p + 4] == e[4]
        && s[p + 5] == e[5];
    assert AllHex(s, p + 2) && Hex4(s, p + 2) == b;
    assert EncodeUtf8(b) == [b];
    assert Scan(s, p) == Counted(Scan(s, p + 2));
    assert Scan(s, p + 2) == Counted(Scan(s, p + 3));
    assert Scan(s, p + 4) == Counted(Scan(s, p + 5));
  }

  /** One printed character: the scan steps over it and the decoder gives it back. */
  lemma EscapedByteReads(s: seq<byte>, p: nat, b: byte, end: nat)
    requires b != NUL
    requires p + |EscapeByte(b)| <= end < |s| && At(s, p, EscapeByte(b))
    ensures var q := p + |EscapeByte(b)|;
            && (Scan(s, q).Closed? ==> Scan(s, p).Closed? && Scan(s, p).end == Scan(s, q).end)
            && Decode(s, p, end) == After([b], Decode(s, q, end))
  {
    var e := EscapeByte(b);
    assert s[p] == e[0];
    if EscapeLetter(b) != NUL {
      assert s[p + 1] == e[1];
      assert EscapedByte(e[1]) == b;
    } else if b < SPACE {
      ControlEscapeReads(s, p, b, end);
      assert s[p + 1] == e[1];
    }
  }

  /** The printed text of a NUL-free string, closed by a quote, scans to that quote and decodes to the string. */
  lemma {:induction false} EscapedTextReads(s: seq<byte>, p: nat, text: seq<byte>, end: nat)
    requires NulFree(text) && At(s, p, Escape(text))
    requires p + |Escape(text)| == end < |s| && s[end] == QUOTE
    ensures Scan(s, p).Closed? && Scan(s, p).end == end
    ensures Decode(s, p, end) == Run(text, true)
    decreases |text|
  {
    if text == [] {
      assert Escape(text) == [];
    } else {
      hide Scan, Decode, Escape, EscapeByte, At;
      var e := EscapeByte(text[0]);
      EscapeFirst(text);
      AtConcat(s, p, e, Escape(text[1..]));
      EscapedTextReads(s, p + |e|, text[1..], end);
      EscapedByteReads(s, p, text[0], end);
      AfterFirst(text);
    }
  }

  lemma EscapeFirst(text: seq<byte>)
    requires text != []
    ensures Escape(text) == EscapeByte(text[0]) + Escape(text[1..])
  {
  }

  lemma AfterFirst(text: seq<byte>)
    requires text != []
    ensures After([text[0]], Run(text[1..], true)) == Run(text, true)
  {
    assert [text[0]] + text[1..] == text;
  }

  /** parse_string undoes print_string_ptr, whatever follows the literal. */
  lemma QuotedParses(text: seq<byte>, rest: seq<byte>)
    requires NulFree(text)
    ensures ParseString(Quoted(text) + rest) == GoodString(text, |Quoted(text)|)
  {
    var s := Quoted(text) + rest;
    var end := 1 + |Escape(text)|;
    assert s[1..end] == Escape(text);
    EscapedTextReads(s, 1, text, end);
    CStringOfNulFree(text);
  }
}
