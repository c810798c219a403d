/**
 What the parser makes of a value depends on the value's own bytes only: with anything else behind it, it
 is read in the same way, unless a number meets more number characters. Hence no proper prefix of the print of a
 tree parses to the same tree.
 */
module Locality {
  import opened Bytes
  import opened JsonTree
  import opened Grammar
  import JsonNumber
  import JsonString
  import Render
  import RoundTrip
  import Utf8

  // ----- Strings -----

  /** Two texts agree up to and including a position. */
  ghost predicate Agree(s: seq<byte>, t: seq<byte>, end: nat) {
    end < |s| && end < |t| && forall i :: 0 <= i <= end ==> s[i] == t[i]
  }

  lemma {:induction false} ScanAgrees(s: seq<byte>, t: seq<byte>, p: nat)
    requires JsonString.Scan(s, p).Closed? && Agree(s, t, JsonString.Scan(s, p).end)
    ensures JsonString.Scan(t, p) == JsonString.Scan(s, p)
    decreases |s| - p
  {
    if s[p] == QUOTE {
    } else if s[p] == BACKSLASH {
      ScanAgrees(s, t, p + 2);
    } else {
      ScanAgrees(s, t, p + 1);
    }
  }

  lemma {:induction false} DecodeAgrees(s: seq<byte>, t: seq<byte>, p: nat, end: nat)
    requires Agree(s, t, end)
    ensures JsonString.Decode(t, p, end) == JsonString.Decode(s, p, end)
    decreases end + 1 - p
  {
    if p >= end {
    } else if s[p] != BACKSLASH {
      DecodeAgrees(s, t, p + 1, end);
    } else if JsonString.EscapedByte(s[p + 1]) != NUL {
      DecodeAgrees(s, t, p + 2, end);
    } else if s[p + 1] == LOWER_U {
      LiteralAgrees(s, t, p, end);
      var literal := Utf8.DecodeLiteral(s, p, end);
      if literal.Decoded? {
        DecodeAgrees(s, t, p + literal.length, end);
      }
    }
  }

  lemma LiteralAgrees(s: seq<byte>, t: seq<byte>, p: nat, end: nat)
    requires Agree(s, t, end) && p <= end
    ensures Utf8.DecodeLiteral(t, p, end) == Utf8.DecodeLiteral(s, p, end)
  {
    hide Utf8.EncodeUtf8, Utf8.HexDigitValue;
  }

  lemma TextFront(s: seq<byte>, other: seq<byte>) returns (c: seq<byte>)
    requires Ends(s) && Ends(other) && ParseText(s).Parsed?
    ensures s == c + ParseText(s).rest && c != [] && c[0] == QUOTE && Ends(c + other)
    ensures ParseText(c + other) == Parsed(ParseText(s).value, other)
  {
    hide JsonString.Scan, JsonString.Decode;
    var end := JsonString.Scan(s, 1).end;
    c := s[..end + 1];
    var t := c + other;
    assert Agree(s, t, end);
    ScanAgrees(s, t, 1);
    DecodeAgrees(s, t, 1, end);
    RoundTrip.Literal(c, other);
  }

  // ----- Numbers and names -----

  lemma NumberFront(s: seq<byte>, other: seq<byte>) returns (c: seq<byte>)
    requires Ends(s) && Ends(other) && ParseNumber(s).Parsed?
    requires !JsonNumber.IsNumberByte(ParseNumber(s).rest[0]) && !JsonNumber.IsNumberByte(other[0])
    ensures s == c + ParseNumber(s).rest && c != [] && Ends(c + other)
    ensures ParseNumber(c + other) == Parsed(ParseNumber(s).value, other)
  {
    hide JsonNumber.Strtod, JsonNumber.TokenLength;
    var length := JsonNumber.ReadNumber(s).1;
    c := s[..length];
    assert s[length] == ParseNumber(s).rest[0];
    assert JsonNumber.TokenLength(s, JsonNumber.NUMBER_LIMIT) == length;
    JsonNumber.TokenOfNumberBytes(c, other, JsonNumber.NUMBER_LIMIT);
    assert (c + other)[..length] == c;
    RoundTrip.Literal(c, other);
  }

  /** A value begins with a visible character. */
  lemma ParsedStarts(s: seq<byte>, depth: nat)
    requires Ends(s) && ParseValue(s, depth).Parsed?
    ensures s[0] > SPACE && s[0] != RBRACKET
  {
    hide ParseText, ParseNumber, ParseArray, ParseObject;
    assert StartsWith(s, TEXT_NULL) ==> s[..4][0] == TEXT_NULL[0];
    assert StartsWith(s, TEXT_FALSE) ==> s[..5][0] == TEXT_FALSE[0];
    assert StartsWith(s, TEXT_TRUE) ==> s[..4][0] == TEXT_TRUE[0];
  }

  // ----- White space -----

  lemma {:induction false} BlankFront(s: seq<byte>) returns (b: seq<byte>)
    requires Ends(s)
    ensures RoundTrip.Blank(b) && s == b + SkipWhitespace(s)
  {
    if |s| > 1 && s[0] <= SPACE {
      b := BlankFront(s[1..]);
      b := [s[0]] + b;
    } else {
      b := [];
    }
  }

  /** White space and then this character. */
  lemma BlankThen(b: seq<byte>, x: byte, t: seq<byte>)
    requires RoundTrip.Blank(b) && x > SPACE && Ends(t)
    ensures Ends([x] + t) && Ends(b + ([x] + t)) && SkipWhitespace(b + ([x] + t)) == [x] + t && Behind([x] + t) == t
    ensures !JsonNumber.IsNumberByte(x) ==> !JsonNumber.IsNumberByte((b + ([x] + t))[0])
  {
    RoundTrip.BehindOne(x, t);
    RoundTrip.SkipBlank(b, [x] + t);
  }

  /** The white space and the visible character in front of a text. */
  lemma ThenFront(s: seq<byte>, x: byte) returns (b: seq<byte>)
    requires Ends(s) && x > SPACE && SkipWhitespace(s)[0] == x
    ensures RoundTrip.Blank(b) && s == b + ([x] + Behind(SkipWhitespace(s)))
    ensures !JsonNumber.IsNumberByte(x) ==> !JsonNumber.IsNumberByte(s[0])
  {
    b := BlankFront(s);
    assert SkipWhitespace(s) == [x] + Behind(SkipWhitespace(s));
  }

  // ----- Values -----

  /** A number is followed by no number character, here and there: with one it would be read differently. */
  ghost predicate NumberEnds(r: Result<Json>, other: seq<byte>)
    requires r.Parsed? && r.rest != [] && other != []
  {
    r.value.Number? ==> !JsonNumber.IsNumberByte(r.rest[0]) && !JsonNumber.IsNumberByte(other[0])
  }

  /**
   The bytes of a value, and that they are read in the same way in front of any other text; of a number, in front
   of any text that does not continue it.
   */
  lemma {:induction false} ValueFront(s: seq<byte>, depth: nat, other: seq<byte>) returns (c: seq<byte>)
    requires Ends(s) && Ends(other) && ParseValue(s, depth).Parsed? && NumberEnds(ParseValue(s, depth), other)
    ensures s == c + ParseValue(s, depth).rest && c != [] && c[0] == s[0] && Ends(c + other)
    ensures ParseValue(c + other, depth) == Parsed(ParseValue(s, depth).value, other)
    decreases |s|, 1
  {
    hide ParseText, ParseNumber, ParseArray, ParseObject;
    if StartsWith(s, TEXT_NULL) {
      c := NameFront(s, Null, other, depth);
    } else if StartsWith(s, TEXT_FALSE) {
      c := NameFront(s, False, other, depth);
    } else if StartsWith(s, TEXT_TRUE) {
      c := NameFront(s, True, other, depth);
    } else if s[0] == QUOTE {
      c := TextFront(s, other);
      RoundTrip.NoLiteral(c + other);
    } else if s[0] == LBRACKET {
      c := ArrayFront(s, depth, other);
      RoundTrip.NoLiteral(c + other);
    } else if s[0] == LBRACE {
      c := ObjectFront(s, depth, other);
      RoundTrip.NoLiteral(c + other);
    } else {
      NumberIsNumber(s);
      c := NumberFront(s, other);
      assert (c + other)[0] == c[0] == s[0];
      RoundTrip.NoLiteral(c + other);
    }
  }

  lemma NumberIsNumber(s: seq<byte>)
    requires Ends(s)
    ensures ParseNumber(s).Parsed? ==> ParseNumber(s).value.Number?
  {
  }

  lemma NameFront(s: seq<byte>, v: Json, other: seq<byte>, depth: nat) returns (c: seq<byte>)
    requires v.Null? || v.False? || v.True?
    requires Ends(s) && Ends(other) && StartsWith(s, Render.Text(v, true, 0))
    ensures c != [] && s == c + ParseValue(s, depth).rest && c[0] == s[0] && Ends(c + other)
    ensures ParseValue(s, depth).Parsed? && ParseValue(c + other, depth) == Parsed(ParseValue(s, depth).value, other)
  {
    hide ParseText, ParseNumber, ParseArray, ParseObject;
    c := Render.Text(v, true, 0);
    assert s == c + s[|c|..];
    assert s[|s| - 1] == s[|c|..][|s| - |c| - 1];
    RoundTrip.LiteralsParse(v, s[|c|..], depth);
    RoundTrip.LiteralsParse(v, other, depth);
  }

  lemma {:induction false} ArrayFront(s: seq<byte>, depth: nat, other: seq<byte>) returns (c: seq<byte>)
    requires Ends(s) && Ends(other) && s[0] == LBRACKET && ParseArray(s, depth).Parsed?
    ensures s == c + ParseArray(s, depth).rest && c != [] && c[0] == LBRACKET && Ends(c + other)
    ensures ParseArray(c + other, depth) == Parsed(ParseArray(s, depth).value, other)
    decreases |s|, 0
  {
    hide ParseItems, SkipWhitespace;
    var first := SkipWhitespace(Behind(s));
    var b := BlankFront(Behind(s));
    var inner;
    if first[0] == RBRACKET {
      inner := [RBRACKET];
      BlankThen(b, RBRACKET, other);
      assert first == inner + Behind(first);
    } else {
      inner := ItemsFront(first, depth + 1, other);
      RoundTrip.SkipBlank(b, inner + other);
    }
    c := [LBRACKET] + b + inner;
    assert s == [LBRACKET] + Behind(s);
    FrontParts(LBRACKET, b, inner, other);
    FrontParts(LBRACKET, b, inner, ParseArray(s, depth).rest);
    RoundTrip.BehindOne(LBRACKET, b + (inner + other));
  }

  lemma FrontParts(x: byte, b: seq<byte>, inner: seq<byte>, rest: seq<byte>)
    ensures ([x] + b + inner) + rest == [x] + (b + (inner + rest))
  {
  }

  lemma ItemParts(c: seq<byte>, b: seq<byte>, x: byte, tail: seq<byte>)
    ensures c + (b + ([x] + tail)) == (c + b + [x]) + tail
  {
  }

  lemma NextParts(c: seq<byte>, b: seq<byte>, x: byte, b2: seq<byte>, inner: seq<byte>, rest: seq<byte>)
    ensures c + (b + ([x] + (b2 + (inner + rest)))) == (c + b + [x] + b2 + inner) + rest
  {
  }

  lemma {:induction false} ItemsFront(s: seq<byte>, depth: nat, other: seq<byte>) returns (c: seq<byte>)
    requires Ends(s) && Ends(other) && ParseItems(s, depth).Parsed?
    ensures s == c + ParseItems(s, depth).rest && c != [] && c[0] > SPACE && c[0] != RBRACKET && Ends(c + other)
    ensures ParseItems(c + other, depth) == Parsed(ParseItems(s, depth).value, other)
    decreases |s|, 2
  {
    hide ParseValue, SkipWhitespace;
    var item := ParseValue(s, depth);
    ParsedStarts(s, depth);
    var next := SkipWhitespace(item.rest);
    var b := ThenFront(item.rest, next[0]);
    if next[0] == RBRACKET {
      BlankThen(b, RBRACKET, other);
      var front := ValueFront(s, depth, b + ([RBRACKET] + other));
      c := front + b + [RBRACKET];
      ItemParts(front, b, RBRACKET, other);
      ItemParts(front, b, RBRACKET, Behind(next));
    } else {
      var following := SkipWhitespace(Behind(next));
      var b2 := BlankFront(Behind(next));
      var inner := ItemsFront(following, depth, other);
      RoundTrip.SkipBlank(b2, inner + other);
      BlankThen(b, COMMA, b2 + (inner + other));
      var front := ValueFront(s, depth, b + ([COMMA] + (b2 + (inner + other))));
      c := front + b + [COMMA] + b2 + inner;
      NextParts(front, b, COMMA, b2, inner, other);
      NextParts(front, b, COMMA, b2, inner, ParseItems(s, depth).rest);
    }
  }

  lemma {:induction false} ObjectFront(s: seq<byte>, depth: nat, other: seq<byte>) returns (c: seq<byte>)
    requires Ends(s) && Ends(other) && s[0] == LBRACE && ParseObject(s, depth).Parsed?
    ensures s == c + ParseObject(s, depth).rest && c != [] && c[0] == LBRACE && Ends(c + other)
    ensures ParseObject(c + other, depth) == Parsed(ParseObject(s, depth).value, other)
    decreases |s|, 0
  {
    hide ParseMembers, SkipWhitespace;
    var first := SkipWhitespace(Behind(s));
    var b := BlankFront(Behind(s));
    var inner;
    if first[0] == RBRACE {
      inner := [RBRACE];
      BlankThen(b, RBRACE, other);
      assert first == inner + Behind(first);
    } else {
      inner := MembersFront(first, depth + 1, other);
      RoundTrip.SkipBlank(b, inner + other);
    }
    c := [LBRACE] + b + inner;
    assert s == [LBRACE] + Behind(s);
    FrontParts(LBRACE, b, inner, other);
    FrontParts(LBRACE, b, inner, ParseObject(s, depth).rest);
    RoundTrip.BehindOne(LBRACE, b + (inner + other));
  }

  lemma {:induction false} MembersFront(s: seq<byte>, depth: nat, other: seq<byte>) returns (c: seq<byte>)
    requires Ends(s) && Ends(other) && ParseMembers(s, depth).Parsed?
    ensures s == c + ParseMembers(s, depth).rest && c != [] && c[0] == QUOTE && Ends(c + other)
    ensures ParseMembers(c + other, depth) == Parsed(ParseMembers(s, depth).value, other)
    decreases |s|, 3
  {
    hide ParseMember, SkipWhitespace;
    var member := ParseMember(s, depth);
    var next := SkipWhitespace(member.rest);
    var b := ThenFront(member.rest, next[0]);
    if next[0] == RBRACE {
      BlankThen(b, RBRACE, other);
      var front := MemberFront(s, depth, b + ([RBRACE] + other));
      c := front + b + [RBRACE];
      ItemParts(front, b, RBRACE, other);
      ItemParts(front, b, RBRACE, Behind(next));
    } else {
      var following := SkipWhitespace(Behind(next));
      var b2 := BlankFront(Behind(next));
      var inner := MembersFront(following, depth, other);
      RoundTrip.SkipBlank(b2, inner + other);
      BlankThen(b, COMMA, b2 + (inner + other));
      var front := MemberFront(s, depth, b + ([COMMA] + (b2 + (inner + other))));
      c := front + b + [COMMA] + b2 + inner;
      NextParts(front, b, COMMA, b2, inner, other);
      NextParts(front, b, COMMA, b2, inner, ParseMembers(s, depth).rest);
    }
  }

  lemma {:induction false} MemberFront(s: seq<byte>, depth: nat, other: seq<byte>) returns (c: seq<byte>)
    requires Ends(s) && Ends(other) && ParseMember(s, depth).Parsed?
    requires !JsonNumber.IsNumberByte(ParseMember(s, depth).rest[0]) && !JsonNumber.IsNumberByte(other[0])
    ensures s == c + ParseMember(s, depth).rest && c != [] && c[0] == QUOTE && Ends(c + other)
    ensures ParseMember(c + other, depth) == Parsed(ParseMember(s, depth).value, other)
    decreases |s|, 2
  {
    hide ParseValue, ParseText, SkipWhitespace;
    var name := ParseText(s);
    var colon := SkipWhitespace(name.rest);
    var start := SkipWhitespace(Behind(colon));
    var b := ThenFront(name.rest, COLON);
    var b2 := BlankFront(Behind(colon));
    ParsedStarts(start, depth);
    var inner := ValueFront(start, depth, other);
    RoundTrip.SkipBlank(b2, inner + other);
    BlankThen(b, COLON, b2 + (inner + other));
    var front := TextFront(s, b + ([COLON] + (b2 + (inner + other))));
    c := front + b + [COLON] + b2 + inner;
    NextParts(front, b, COLON, b2, inner, other);
    NextParts(front, b, COLON, b2, inner, ParseMember(s, depth).rest);
  }

  // ----- Prefixes of a print -----

  /** In front of more text a value that is no number is followed by that text as well. */
  lemma MoreIsLeft(p: seq<byte>, q: seq<byte>, depth: nat)
    requires Ends(p + [NUL]) && ParseValue(p + [NUL], depth).Parsed? && !ParseValue(p + [NUL], depth).value.Number?
    ensures Ends(p + q + [NUL])
    ensures var r := ParseValue(p + q + [NUL], depth);
            r.Parsed? && r.value == ParseValue(p + [NUL], depth).value && |r.rest| > |q|
  {
    hide ParseValue;
    var r := ParseValue(p + [NUL], depth);
    var kept := r.rest[..|r.rest| - 1];
    var c := ValueFront(p + [NUL], depth, kept + q + [NUL]);
    assert r.rest == kept + [NUL];
    assert p + [NUL] == (c + kept) + [NUL];
    assert p == (p + [NUL])[..|p|] == c + kept;
    assert c + (kept + q + [NUL]) == p + q + [NUL];
  }

  /** A nonempty proper prefix of a number's digits is a smaller number's. */
  lemma {:induction false} DigitsPrefix(n: nat, k: nat) returns (m: nat)
    requires 0 < k < |JsonNumber.Digits(n)|
    ensures 0 < m < n && JsonNumber.Digits(n)[..k] == JsonNumber.Digits(m)
  {
    var shorter := JsonNumber.Digits(n / 10);
    if k == |shorter| {
      m := n / 10;
    } else {
      m := DigitsPrefix(n / 10, k);
      assert JsonNumber.Digits(n)[..k] == shorter[..k];
    }
  }

  /** A proper prefix of an integer's text is a lone sign or another integer's text. */
  lemma DecimalPrefix(n: int, p: seq<byte>) returns (m: int)
    requires p != [] && p < JsonNumber.DecimalText(n) && p != [MINUS]
    ensures p == JsonNumber.DecimalText(m) && m != n && (JsonNumber.IsExact(n) ==> JsonNumber.IsExact(m))
  {
    hide JsonNumber.Digits;
    var text := JsonNumber.DecimalText(n);
    assert p == text[..|p|] && p[0] == text[0];
    if n < 0 {
      assert p == [MINUS] + p[1..];
      assert p[1..] == JsonNumber.Digits(-n)[..|p| - 1];
      var k: int := DigitsPrefix(-n, |p| - 1);
      m := -k;
    } else {
      m := DigitsPrefix(n, |p|);
    }
  }

  lemma LoneSign()
    ensures ParseValue([MINUS, NUL], 0) == Failed
  {
    assert JsonNumber.TokenLength([MINUS, NUL], JsonNumber.NUMBER_LIMIT) == 1;
    RoundTrip.NoLiteral([MINUS, NUL]);
  }

  lemma NumberPrefix(v: Json, p: seq<byte>, q: seq<byte>)
    requires v.Number? && Printable(v) && p + q == Render.Text(v, false, 0) && p != [] && q != []
    ensures Ends(p + [NUL])
    ensures var r := ParseValue(p + [NUL], 0); r.Parsed? ==> r.value != v
  {
    hide ParseValue, JsonNumber.DecimalText;
    if p == [MINUS] {
      LoneSign();
      assert p + [NUL] == [MINUS, NUL];
    } else {
      var m := DecimalPrefix(v.value.Floor, p);
      RoundTrip.NumberParses(m as real, [NUL], 0);
    }
  }

  /** A proper prefix of the print of a tree does not parse to that tree. */
  lemma PrefixIsAnotherTree(v: Json, p: seq<byte>, q: seq<byte>)
    requires Printable(v) && Plain(v) && p + q == Render.Text(v, false, 0) && q != []
    requires Terminated(p + [NUL])
    ensures var r := ParseDocument(p + [NUL], false); r.Parsed? ==> r.value != v
  {
    hide ParseValue, Render.Text, SkipWhitespace, Printable, Plain, Height;
    RoundTrip.FirstByte(v, false, 0);
    if p == [] {
      NothingThere();
      assert p + [NUL] == [NUL];
    } else {
      assert (p + q)[0] == p[0] == (p + [NUL])[0];
      RoundTrip.NothingToSkip(p + [NUL]);
      assert |p + [NUL]| >= 3 ==> (p + [NUL])[..3][0] == p[0];
      if v.Number? {
        NumberPrefix(v, p, q);
      } else if ParseValue(p + [NUL], 0).Parsed? && ParseValue(p + [NUL], 0).value == v {
        MoreIsLeft(p, q, 0);
        LastIsTerminator();
        RoundTrip.TextParses(v, false, 0, [NUL], 0);
      }
    }
  }

  lemma NothingThere()
    ensures ParseDocument([NUL], false) == Failed
  {
  }

  lemma LastIsTerminator()
    ensures Ends([NUL]) && !JsonNumber.IsNumberByte([NUL][0])
  {
  }
}
