/**
 The exact language of the parser: a text is accepted if and only if it is a lenient text with short numerals
 that is nested at most 1000 deep, and then its value is the one the lenient text denotes.
 */
module Language {
  import opened Bytes
  import opened Common
  import opened Conformance
  import opened Grammar
  import opened JsonTree
  import opened Literals
  import JsonNumber
  import Locality
  import RoundTrip

  // ----- Numbers -----

  /** The exponent strtod finds at a position, if there is one. */
  function ExponentAt(t: seq<byte>, p: nat): (e: Option<Exponent>)
    requires p <= |t|
    ensures e.Some? <==> JsonNumber.ExponentEnd(t, p) > p
    ensures e.Some? ==> ValidExponent(e.value)
  {
    var end := JsonNumber.ExponentEnd(t, p);
    if end > p then
      var digits := JsonNumber.SignEnd(t, p + 1);
      Some(Exponent(t[p], t[p + 1..digits], t[digits..end]))
    else None
  }

  lemma ExponentAtReads(t: seq<byte>, p: nat, m: real)
    requires p <= |t|
    ensures ExponentText(ExponentAt(t, p)) == t[p..JsonNumber.ExponentEnd(t, p)]
    ensures var e := ExponentAt(t, p); e.Some? ==> JsonNumber.Scaled(m, t, p) == Shifted(m, e.value)
  {
    hide JsonNumber.DigitRun, JsonNumber.DigitsValue, JsonNumber.Pow10;
  }

  /** The point and the digits behind it, if there is a point. */
  function FractionAt(t: seq<byte>, p: nat): (f: Option<seq<byte>>)
    requires p <= |t|
    ensures f.Some? <==> p < |t| && t[p] == POINT
    ensures f.Some? ==> Digits(f.value) && f.value == t[p + 1..JsonNumber.DigitRun(t, p + 1)]
    ensures p + |FractionText(f)| <= |t|
  {
    if p < |t| && t[p] == POINT then Some(t[p + 1..JsonNumber.DigitRun(t, p + 1)]) else None
  }

  /** The parts that strtod finds, with the digits in front of the point from w to e. */
  function NumeralFrom(t: seq<byte>, w: nat, e: nat): Numeral
    requires w <= e <= |t|
  {
    Numeral(w == 1, t[w..e], FractionAt(t, e), ExponentAt(t, e + |FractionText(FractionAt(t, e))|))
  }

  function NumeralAt(t: seq<byte>): Numeral
    requires t != [] && (t[0] == MINUS || JsonNumber.IsDigit(t[0]))
  {
    NumeralFrom(t, JsonNumber.SignEnd(t, 0), JsonNumber.DigitRun(t, JsonNumber.SignEnd(t, 0)))
  }

  lemma DigitRunIsDigits(t: seq<byte>, p: nat)
    requires p <= |t|
    ensures Digits(t[p..JsonNumber.DigitRun(t, p)])
  {
    hide JsonNumber.DigitRun;
  }

  lemma NumeralFromParts(t: seq<byte>, w: nat, e: nat)
    requires w <= e <= |t| && w <= 1 && Digits(t[w..e])
    ensures var n := NumeralFrom(t, w, e);
            && WholeStart(n) == w && WholeEnd(n) == e && n.whole == t[w..e] && Digits(n.whole)
            && n.fraction == FractionAt(t, e) && FractionEnd(n) <= |t| && n.exponent == ExponentAt(t, FractionEnd(n))
  {
    hide ExponentAt, FractionAt, Digits;
  }

  lemma NumeralAtParts(t: seq<byte>)
    requires t != [] && (t[0] == MINUS || JsonNumber.IsDigit(t[0]))
    ensures var n := NumeralAt(t);
            && WholeStart(n) == JsonNumber.SignEnd(t, 0) && WholeEnd(n) == JsonNumber.DigitRun(t, WholeStart(n)) <= |t|
            && n.whole == t[WholeStart(n)..WholeEnd(n)] && Digits(n.whole)
            && n.fraction == FractionAt(t, WholeEnd(n)) && FractionEnd(n) <= |t|
            && n.exponent == ExponentAt(t, FractionEnd(n))
  {
    hide JsonNumber.DigitRun, ExponentAt, FractionAt, Digits, NumeralFrom;
    DigitRunIsDigits(t, JsonNumber.SignEnd(t, 0));
    NumeralFromParts(t, JsonNumber.SignEnd(t, 0), JsonNumber.DigitRun(t, JsonNumber.SignEnd(t, 0)));
  }

  lemma NumeralAtHasDigits(t: seq<byte>)
    requires t != [] && (t[0] == MINUS || JsonNumber.IsDigit(t[0])) && JsonNumber.Strtod(t).1 > 0
    ensures LenientNumeral(NumeralAt(t))
    ensures WholeEnd(NumeralAt(t)) + 1 < FractionEnd(NumeralAt(t)) || NumeralAt(t).whole != []
  {
    hide JsonNumber.Mantissa, JsonNumber.Scaled, JsonNumber.ExponentEnd, JsonNumber.DigitsValue, ExponentAt, NumeralAt;
    NumeralAtParts(t);
  }

  lemma Joined(t: seq<byte>, w: nat, e: nat, f: nat, end: nat)
    requires w <= e <= f <= end <= |t|
    ensures t[..w] + t[w..e] + t[e..f] + t[f..end] == t[..end]
  {
  }

  /** What strtod reads is a lenient numeral with the value that it gives. */
  lemma StrtodNumeral(t: seq<byte>) returns (n: Numeral)
    requires t != [] && (t[0] == MINUS || JsonNumber.IsDigit(t[0])) && JsonNumber.Strtod(t).1 > 0
    ensures LenientNumeral(n) && NumeralText(n) == t[..JsonNumber.Strtod(t).1]
    ensures NumeralValue(n) == JsonNumber.Strtod(t).0
  {
    hide JsonNumber.DigitsValue, JsonNumber.DigitRun, JsonNumber.Pow10, JsonNumber.Mantissa, JsonNumber.Strtod;
    hide JsonNumber.ExponentEnd, JsonNumber.Scaled, Shifted, MantissaValue, LenientNumeral, ExponentAt, NumeralAt;
    n := NumeralAt(t);
    NumeralAtParts(t);
    var w, e, f := WholeStart(n), WholeEnd(n), FractionEnd(n);
    NumeralAtHasDigits(t);
    StrtodParts(t, w, e, f);
    MantissaIs(t, n);
    ExponentAtReads(t, f, MantissaValue(n));
    assert FractionText(n.fraction) == t[e..f];
    assert (if n.negative then [MINUS] else []) == t[..w];
    Joined(t, w, e, f, JsonNumber.ExponentEnd(t, f));
  }

  lemma NumberTree(s: seq<byte>) returns (n: Numeral)
    requires Ends(s) && (s[0] == MINUS || JsonNumber.IsDigit(s[0])) && ParseNumber(s).Parsed?
    ensures LenientNumeral(n) && |NumeralText(n)| <= JsonNumber.NUMBER_LIMIT
    ensures s == NumeralText(n) + ParseNumber(s).rest && ParseNumber(s).value == Number(NumeralValue(n))
  {
    hide JsonNumber.Strtod, NumeralText, NumeralValue;
    var token := s[..JsonNumber.TokenLength(s, JsonNumber.NUMBER_LIMIT)];
    n := StrtodNumeral(token);
    var length := JsonNumber.Strtod(token).1;
    assert token[..length] == s[..length];
  }

  // ----- Parts of a C string -----

  lemma Divided(c: seq<byte>, r: seq<byte>)
    requires Terminated(c + r) && Ends(r)
    ensures NulFree(c) && Terminated(r)
  {
    assert (c + r)[..|c + r| - 1] == c + r[..|r| - 1];
    NulFreeConcat(c, r[..|r| - 1]);
  }

  lemma BlankTree(s: seq<byte>) returns (b: seq<byte>)
    requires Terminated(s)
    ensures LenientBlank(b) && s == b + SkipWhitespace(s) && Terminated(SkipWhitespace(s))
  {
    hide SkipWhitespace;
    b := Locality.BlankFront(s);
    Divided(b, SkipWhitespace(s));
  }

  lemma OneBehind(s: seq<byte>)
    requires Terminated(s) && s[0] != NUL
    ensures s == [s[0]] + Behind(s) && Terminated(Behind(s))
  {
    assert s == [s[0]] + Behind(s);
    Divided([s[0]], Behind(s));
  }

  // ----- What is accepted is lenient -----

  /** The tokens of an accepted value. */
  lemma {:induction false} ValueTree(s: seq<byte>, depth: nat) returns (x: Syntax)
    requires Terminated(s) && ParseValue(s, depth).Parsed?
    ensures Lenient(x) && ShortNumerals(x)
    ensures s == Spell(x, ParseValue(s, depth).rest) && Terminated(ParseValue(s, depth).rest)
    ensures Meaning(x) == ParseValue(s, depth).value
    decreases |s|, 1
  {
    hide ParseText, ParseNumber, ParseArray, ParseObject, StringText, NumeralText;
    if StartsWith(s, TEXT_NULL) || StartsWith(s, TEXT_FALSE) || StartsWith(s, TEXT_TRUE) {
      x := NameTree(s, depth);
    } else if s[0] == QUOTE {
      var t := TextTree(s);
      x := Strg(t);
    } else if s[0] == LBRACKET {
      x := ArrayTree(s, depth);
    } else if s[0] == LBRACE {
      x := ObjectTree(s, depth);
    } else {
      var n := NumberTree(s);
      Divided(NumeralText(n), ParseNumber(s).rest);
      x := Numb(n);
    }
  }

  lemma NameTree(s: seq<byte>, depth: nat) returns (x: Syntax)
    requires Terminated(s) && (StartsWith(s, TEXT_NULL) || StartsWith(s, TEXT_FALSE) || StartsWith(s, TEXT_TRUE))
    ensures (x.NullName? || x.FalseName? || x.TrueName?) && ParseValue(s, depth).Parsed?
    ensures s == Spell(x, ParseValue(s, depth).rest) && Terminated(ParseValue(s, depth).rest)
    ensures Meaning(x) == ParseValue(s, depth).value
  {
    hide ParseText, ParseNumber, ParseArray, ParseObject;
    x := if StartsWith(s, TEXT_NULL) then NullName else if StartsWith(s, TEXT_FALSE) then FalseName else TrueName;
    var name := if x.NullName? then TEXT_NULL else if x.FalseName? then TEXT_FALSE else TEXT_TRUE;
    assert s == name + s[|name|..];
    assert |s| > |name|;
    Divided(name, s[|name|..]);
  }

  lemma {:induction false} ArrayTree(s: seq<byte>, depth: nat) returns (x: Syntax)
    requires Terminated(s) && s[0] == LBRACKET && ParseArray(s, depth).Parsed?
    ensures x.Arry? && Lenient(x) && ShortNumerals(x)
    ensures s == Spell(x, ParseArray(s, depth).rest) && Terminated(ParseArray(s, depth).rest)
    ensures Meaning(x) == ParseArray(s, depth).value
    decreases |s|, 0
  {
    hide ParseItems, SkipWhitespace, Elements;
    OneBehind(s);
    var b := BlankTree(Behind(s));
    var first := SkipWhitespace(Behind(s));
    if first[0] == RBRACKET {
      OneBehind(first);
      x := Arry(b, []);
    } else {
      var elements := ItemsTree(first, depth + 1, b);
      x := Arry([], elements);
    }
  }

  lemma {:induction false} ItemsTree(s: seq<byte>, depth: nat, before: seq<byte>) returns (elements: seq<Element>)
    requires Terminated(s) && LenientBlank(before) && ParseItems(s, depth).Parsed?
    ensures elements != [] && elements[0].before == before
    ensures forall i :: 0 <= i < |elements| ==> LenientElement(elements[i]) && ShortElement(elements[i])
    ensures s == Elements(elements, ParseItems(s, depth).rest) && Terminated(ParseItems(s, depth).rest)
    ensures Items(elements) == ParseItems(s, depth).value
    decreases |s|, 2
  {
    hide ParseValue, SkipWhitespace, Spell, Meaning, LenientBlank, Lenient;
    var x := ValueTree(s, depth);
    var after := BlankTree(ParseValue(s, depth).rest);
    var next := SkipWhitespace(ParseValue(s, depth).rest);
    OneBehind(next);
    var e := Element(before, x, after);
    if next[0] == RBRACKET {
      elements := [e];
    } else {
      var following := SkipWhitespace(Behind(next));
      var b := BlankTree(Behind(next));
      var others := ItemsTree(following, depth, b);
      elements := [e] + others;
      assert elements[1..] == others;
    }
  }

  lemma {:induction false} ObjectTree(s: seq<byte>, depth: nat) returns (x: Syntax)
    requires Terminated(s) && s[0] == LBRACE && ParseObject(s, depth).Parsed?
    ensures x.Objt? && Lenient(x) && ShortNumerals(x)
    ensures s == Spell(x, ParseObject(s, depth).rest) && Terminated(ParseObject(s, depth).rest)
    ensures Meaning(x) == ParseObject(s, depth).value
    decreases |s|, 0
  {
    hide ParseMembers, SkipWhitespace, Pairs;
    OneBehind(s);
    var b := BlankTree(Behind(s));
    var first := SkipWhitespace(Behind(s));
    if first[0] == RBRACE {
      OneBehind(first);
      x := Objt(b, []);
    } else {
      var pairs := MembersTree(first, depth + 1, b);
      x := Objt([], pairs);
    }
  }

  lemma {:induction false} MembersTree(s: seq<byte>, depth: nat, before: seq<byte>) returns (pairs: seq<Pair>)
    requires Terminated(s) && LenientBlank(before) && ParseMembers(s, depth).Parsed?
    ensures pairs != [] && pairs[0].before == before
    ensures forall i :: 0 <= i < |pairs| ==> LenientPair(pairs[i]) && ShortElement(pairs[i].element)
    ensures s == Pairs(pairs, ParseMembers(s, depth).rest) && Terminated(ParseMembers(s, depth).rest)
    ensures Members(pairs) == ParseMembers(s, depth).value
    decreases |s|, 3
  {
    hide ParseMember, SkipWhitespace, Spell, Meaning, LenientBlank, Lenient, StringText, StringMeaning;
    var p := MemberTree(s, depth, before);
    var next := SkipWhitespace(ParseMember(s, depth).rest);
    OneBehind(next);
    if next[0] == RBRACE {
      pairs := [p];
    } else {
      var following := SkipWhitespace(Behind(next));
      var b := BlankTree(Behind(next));
      var others := MembersTree(following, depth, b);
      pairs := [p] + others;
      assert pairs[1..] == others;
    }
  }

  /** One member, with the white space behind its value. */
  lemma {:induction false} MemberTree(s: seq<byte>, depth: nat, before: seq<byte>) returns (p: Pair)
    requires Terminated(s) && LenientBlank(before) && ParseMember(s, depth).Parsed?
    ensures p.before == before && LenientPair(p) && LenientElement(p.element) && ShortElement(p.element)
    ensures var next := SkipWhitespace(ParseMember(s, depth).rest);
            && Terminated(next)
            && s == StringText(p.name) + (p.gap + ([COLON] + (p.element.before +
                    Spell(p.element.value, p.element.after + next))))
    ensures ParseMember(s, depth).value == Member(StringMeaning(p.name), Meaning(p.element.value))
    decreases |s|, 2
  {
    hide ParseValue, ParseText, SkipWhitespace, Spell, Meaning, LenientBlank, Lenient, StringText;
    hide StringMeaning, LenientString;
    var name := TextTree(s);
    var gap := BlankTree(ParseText(s).rest);
    var colon := SkipWhitespace(ParseText(s).rest);
    OneBehind(colon);
    var between := BlankTree(Behind(colon));
    var start := SkipWhitespace(Behind(colon));
    var x := ValueTree(start, depth);
    var after := BlankTree(ParseValue(start, depth).rest);
    p := Pair(before, name, gap, Element(between, x, after));
  }

  // ----- The language with the terminator check -----

  predicate IsMark(mark: seq<byte>) {
    mark == [] || mark == BYTE_ORDER_MARK
  }

  /** What the parser can take: lenient, every numeral at most 63 characters, nested at most 1000 deep. */
  ghost predicate Fits(x: Syntax) {
    Lenient(x) && ShortNumerals(x) && Height(Meaning(x)) <= 1000
  }

  /** The text is this value with white space around it, behind this mark. */
  ghost predicate IsText(text: seq<byte>, mark: seq<byte>, e: Element) {
    IsMark(mark) && LenientElement(e) && Fits(e.value) && text == mark + TextOf(e)
  }

  lemma MarkTree(text: seq<byte>) returns (mark: seq<byte>)
    requires Terminated(text)
    ensures IsMark(mark) && text == mark + SkipMark(text) && Terminated(SkipMark(text))
  {
    mark := if SkipMark(text) == text then [] else BYTE_ORDER_MARK;
    Divided(mark, SkipMark(text));
  }

  lemma MarkIsSkipped(mark: seq<byte>, blank: seq<byte>, s: seq<byte>)
    requires IsMark(mark) && LenientBlank(blank) && |s| > 1 && s[0] < 0x80 && Terminated(blank + s)
    ensures Terminated(mark + (blank + s)) && SkipMark(mark + (blank + s)) == blank + s
  {
    FrontKeepsEnd(mark, blank + s);
    NoMark(blank, s);
    if mark == [] {
      assert mark + (blank + s) == blank + s;
    } else {
      RoundTrip.Literal(mark, blank + s);
    }
  }

  lemma SpellIsLong(x: Syntax, rest: seq<byte>)
    requires Lenient(x) && Terminated(rest)
    ensures Terminated(Spell(x, rest)) && |Spell(x, rest)| > 1
  {
    hide Spell;
    SpellStarts(x, rest);
    SpellEnds(x, rest);
  }

  lemma AcceptedIsText(text: seq<byte>) returns (mark: seq<byte>, e: Element)
    requires Terminated(text) && ParseDocument(text, true).Parsed?
    ensures IsText(text, mark, e)
  {
    hide ParseValue, SkipWhitespace, SkipMark, Spell, Meaning, Lenient, ShortNumerals, Height;
    mark := MarkTree(text);
    var before := BlankTree(SkipMark(text));
    var start := SkipWhitespace(SkipMark(text));
    var x := ValueTree(start, 0);
    RoundTrip.ValueIsPlain(start, 0);
    var after := BlankTree(ParseValue(start, 0).rest);
    OnlyTerminator(SkipWhitespace(ParseValue(start, 0).rest));
    e := Element(before, x, after);
  }

  lemma OnlyTerminator(s: seq<byte>)
    requires Terminated(s) && s[0] == NUL
    ensures s == [NUL]
  {
    FirstIsNoNul(s[..|s| - 1]);
  }

  lemma FirstIsNoNul(s: seq<byte>)
    ensures NulFree(s) && s != [] ==> s[0] != NUL
  {
  }

  lemma TextIsAccepted(text: seq<byte>, mark: seq<byte>, e: Element, requireNullTerminated: bool)
    requires IsText(text, mark, e)
    ensures Terminated(text)
    ensures var r := ParseDocument(text, requireNullTerminated); r.Parsed? && r.value == Meaning(e.value)
  {
    hide ParseValue, SkipWhitespace, SkipMark, Spell, Meaning, Lenient, ShortNumerals, Height;
    var tail := e.after + [NUL];
    EveryTextParses(e, requireNullTerminated);
    TailEnds(e);
    SpellIsLong(e.value, tail);
    SpellStarts(e.value, tail);
    MarkIsSkipped(mark, e.before, Spell(e.value, tail));
    MarkIsSkipped([], e.before, Spell(e.value, tail));
    assert [] + (e.before + Spell(e.value, tail)) == e.before + Spell(e.value, tail);
    ShortIsNotLong(e.value);
  }

  lemma ShortIsNotLong(x: Syntax)
    requires ShortNumerals(x)
    ensures !IsLongNumeral(x)
  {
  }

  /**
   With the terminator check a text is accepted if and only if it is a lenient value with short numerals, nested
   at most 1000 deep, with white space around it and perhaps a mark in front; and it gives what the value denotes.
   */
  lemma AcceptedIffText(text: seq<byte>)
    requires Terminated(text)
    ensures ParseDocument(text, true).Parsed? <==> exists mark, e :: IsText(text, mark, e)
    ensures forall mark, e :: IsText(text, mark, e) ==> ParseDocument(text, true).value == Meaning(e.value)
  {
    hide ParseDocument, IsText;
    if ParseDocument(text, true).Parsed? {
      var mark, e := AcceptedIsText(text);
    }
    forall mark, e | IsText(text, mark, e)
      ensures ParseDocument(text, true).Parsed? && Lenient(e.value)
          && ParseDocument(text, true).value == Meaning(e.value)
    {
      TextIsLenient(text, mark, e);
      TextIsAccepted(text, mark, e, true);
    }
  }

  lemma TextIsLenient(text: seq<byte>, mark: seq<byte>, e: Element)
    requires IsText(text, mark, e)
    ensures Lenient(e.value)
  {
  }

  // ----- The language without it -----

  /** The text begins, behind a mark and white space, with this value, and `tail` is what follows it. */
  ghost predicate Begins(text: seq<byte>, mark: seq<byte>, before: seq<byte>, x: Syntax, tail: seq<byte>) {
    IsMark(mark) && LenientBlank(before) && Fits(x) && Terminated(tail) && text == mark + (before + Spell(x, tail))
  }

  lemma AcceptedBegins(text: seq<byte>) returns (mark: seq<byte>, before: seq<byte>, x: Syntax, tail: seq<byte>)
    requires Terminated(text) && ParseDocument(text, false).Parsed?
    ensures Begins(text, mark, before, x, tail) && Lenient(x)
    ensures ParseDocument(text, false) == Parsed(Meaning(x), tail)
  {
    hide ParseValue, SkipWhitespace, SkipMark, Spell, Meaning, Lenient, ShortNumerals, Height;
    mark := MarkTree(text);
    before := BlankTree(SkipMark(text));
    var start := SkipWhitespace(SkipMark(text));
    x := ValueTree(start, 0);
    tail := ParseValue(start, 0).rest;
    RoundTrip.ValueIsPlain(start, 0);
  }

  lemma {:induction false} TokenCovers(text: seq<byte>, rest: seq<byte>, limit: nat)
    requires (forall i :: 0 <= i < |text| ==> JsonNumber.IsNumberByte(text[i])) && |text| <= limit
    ensures JsonNumber.TokenLength(text + rest, limit) >= |text|
  {
    if text != [] {
      assert (text + rest)[1..] == text[1..] + rest;
      TokenCovers(text[1..], rest, limit - 1);
    }
  }

  /** A numeral in front of anything makes parse_number find some number. */
  lemma SomeNumberParses(n: Numeral, tail: seq<byte>, depth: nat)
    requires LenientNumeral(n) && |NumeralText(n)| <= JsonNumber.NUMBER_LIMIT && Ends(tail)
    ensures Ends(NumeralText(n) + tail) && ParseValue(NumeralText(n) + tail, depth).Parsed?
  {
    hide JsonNumber.Strtod, NumeralText, LenientNumeral;
    var s := NumeralText(n) + tail;
    NumeralStarts(n);
    NumeralBytes(n);
    TokenCovers(NumeralText(n), tail, JsonNumber.NUMBER_LIMIT);
    var token := s[..JsonNumber.TokenLength(s, JsonNumber.NUMBER_LIMIT)];
    assert forall i :: 0 <= i < |NumeralText(n)| ==> token[i] == NumeralText(n)[i];
    SomeNumber(token);
    RoundTrip.NoLiteral(s);
  }

  /** A number in front of more number characters: the numeral that is read may be another one. */
  ghost predicate RunsOn(x: Syntax, tail: seq<byte>)
    requires tail != []
  {
    x.Numb? && (DIGIT_0 <= tail[0] <= DIGIT_9 || tail[0] in [PLUS, MINUS, POINT, LOWER_E, UPPER_E])
  }

  lemma BeginsIsAccepted(text: seq<byte>, mark: seq<byte>, before: seq<byte>, x: Syntax, tail: seq<byte>)
    requires Begins(text, mark, before, x, tail)
    ensures Terminated(text) && Lenient(x) && ParseDocument(text, false).Parsed?
    ensures !RunsOn(x, tail) ==> ParseDocument(text, false) == Parsed(Meaning(x), tail)
  {
    hide ParseValue, SkipWhitespace, SkipMark, Spell, Meaning, Lenient, Height;
    var s := Spell(x, tail);
    SpellIsLong(x, tail);
    SpellStarts(x, tail);
    BlankIsNulFree(before);
    FrontKeepsEnd(before, s);
    MarkIsSkipped(mark, before, s);
    RoundTrip.SkipBlank(before, s);
    LoadMeans(x);
    if RunsOn(x, tail) {
      NumberRunsOn(x, tail);
    } else {
      ValueParses(x, tail, 0);
    }
  }

  lemma NumberRunsOn(x: Syntax, tail: seq<byte>)
    requires Lenient(x) && ShortNumerals(x) && x.Numb? && Ends(tail)
    ensures Ends(Spell(x, tail)) && ParseValue(Spell(x, tail), 0).Parsed?
  {
    SomeNumberParses(x.numeral, tail, 0);
  }

  /**
   Without the check a text is accepted if and only if such a value stands at its front, whatever follows. The
   result is what some value at the front denotes; and it is what any of them denotes, with the rest behind it,
   unless that is a number with more number characters behind it.
   */
  lemma AcceptedIffBegins(text: seq<byte>)
    requires Terminated(text)
    ensures ParseDocument(text, false).Parsed? <==> exists mark, before, x, tail :: Begins(text, mark, before, x, tail)
    ensures ParseDocument(text, false).Parsed? ==>
              exists mark, before, x, tail ::
                Begins(text, mark, before, x, tail) && ParseDocument(text, false) == Parsed(Meaning(x), tail)
    ensures forall mark, before, x, tail :: Begins(text, mark, before, x, tail) && !RunsOn(x, tail) ==>
              ParseDocument(text, false) == Parsed(Meaning(x), tail)
  {
    hide ParseDocument;
    if ParseDocument(text, false).Parsed? {
      var mark, before, x, tail := AcceptedBegins(text);
    }
    forall mark, before, x, tail | Begins(text, mark, before, x, tail)
      ensures ParseDocument(text, false).Parsed?
      ensures !RunsOn(x, tail) ==> ParseDocument(text, false) == Parsed(Meaning(x), tail)
    {
      BeginsIsAccepted(text, mark, before, x, tail);
    }
  }

  // ----- It is more than the grammar -----

  const ZERO_ONE: seq<byte> := [DIGIT_0, DIGIT_0 + 1, NUL]

  /** A zero in front of a digit: accepted, with the check and without, and no text of the grammar. */
  lemma LeadingZeroIsAccepted()
    ensures Terminated(ZERO_ONE)
    ensures ParseDocument(ZERO_ONE, true).Parsed? && ParseDocument(ZERO_ONE, false).Parsed?
    ensures forall e :: ValidElement(e) ==> TextOf(e) != ZERO_ONE
  {
    hide ParseDocument, Meaning, IsText;
    var zeroOne := ZeroOneIsText();
    TextIsAccepted(ZERO_ONE, [], zeroOne, true);
    TextIsAccepted(ZERO_ONE, [], zeroOne, false);
    forall e | ValidElement(e) ensures TextOf(e) != ZERO_ONE {
      NoSuchText(e);
    }
  }

  lemma ZeroOneIsText() returns (e: Element)
    ensures IsText(ZERO_ONE, [], e)
  {
    var n := Numeral(false, [DIGIT_0, DIGIT_0 + 1], None, None);
    e := Element([], Numb(n), []);
    assert NumeralText(n) == [DIGIT_0, DIGIT_0 + 1];
    assert TextOf(e) == ZERO_ONE;
  }

  lemma NoSuchText(e: Element)
    requires ValidElement(e)
    ensures TextOf(e) != ZERO_ONE
  {
    hide NumeralText;
    var text := TextOf(e);
    if e.before != [] {
      assert text[0] == e.before[0];
    } else {
      assert text == Spell(e.value, e.after + [NUL]);
      match e.value {
        case Numb(n) =>
          NoSuchNumeral(n, e.after);
        case Strg(t) =>
          StringStarts(t);
          assert text[0] == StringText(t)[0];
        case NullName => assert text[0] == TEXT_NULL[0];
        case FalseName => assert text[0] == TEXT_FALSE[0];
        case TrueName => assert text[0] == TEXT_TRUE[0];
        case Arry(_, _) => assert text[0] == LBRACKET;
        case Objt(_, _) => assert text[0] == LBRACE;
      }
    }
  }

  lemma NoSuchNumeral(n: Numeral, after: seq<byte>)
    requires ValidNumeral(n) && IsBlank(after)
    ensures NumeralText(n) + (after + [NUL]) != ZERO_ONE
  {
    var t := NumeralText(n);
    NumeralShape(n);
    var s := t + (after + [NUL]);
    if n.negative {
      assert s[0] == MINUS;
    } else if |n.whole| > 1 {
      assert s[0] == n.whole[0];
    } else if n.fraction.Some? {
      assert s[1] == POINT;
    } else if n.exponent.Some? {
      assert s[1] == n.exponent.value.letter;
    } else {
      assert t == n.whole && s[1] == (after + [NUL])[0];
    }
  }
}
