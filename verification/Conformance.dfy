/**
 RFC 8259 as a reference for the parser: every text of its grammar, with any white space, any escapes
 and any numeral, is accepted and means what the grammar says. The walk is made for the lenient texts, of the
 same shape with the leaves that the parser takes, among which the texts of the grammar are.
 */
module Conformance {
  import opened Bytes
  import opened Common
  import opened JsonTree
  import opened Grammar
  import opened Literals
  import JsonNumber
  import RoundTrip

  // ----- Concrete syntax -----

  datatype Exponent = Exponent(letter: byte, sign: seq<byte>, digits: seq<byte>)

  /** A number (section 6). */
  datatype Numeral = Numeral(negative: bool, whole: seq<byte>, fraction: Option<seq<byte>>, exponent: Option<Exponent>)

  /** A value (section 3) with the white space inside it. */
  datatype Syntax =
    | NullName
    | FalseName
    | TrueName
    | Numb(numeral: Numeral)
    | Strg(token: StringToken)
    | Arry(open: seq<byte>, elements: seq<Element>)
    | Objt(open: seq<byte>, pairs: seq<Pair>)

  datatype Element = Element(before: seq<byte>, value: Syntax, after: seq<byte>)

  datatype Pair = Pair(before: seq<byte>, name: StringToken, gap: seq<byte>, element: Element)

  // ----- Numbers -----

  predicate Digits(s: seq<byte>) {
    forall i :: 0 <= i < |s| ==> DIGIT_0 <= s[i] <= DIGIT_9
  }

  /** The exponent part both demand. */
  predicate ValidExponent(e: Exponent) {
    && (e.letter == LOWER_E || e.letter == UPPER_E)
    && (e.sign == [] || e.sign == [PLUS] || e.sign == [MINUS])
    && e.digits != [] && Digits(e.digits)
  }

  /** What strtod takes once a digit or a minus has led parse_value to it. */
  predicate LenientNumeral(n: Numeral) {
    && Digits(n.whole) && (n.negative || n.whole != [])
    && (n.whole != [] || (n.fraction.Some? && n.fraction.value != []))
    && (n.fraction.Some? ==> Digits(n.fraction.value))
    && (n.exponent.Some? ==> ValidExponent(n.exponent.value))
  }

  /** What section 6 demands: digits around the point, and no zero in front of other digits. */
  predicate ValidNumeral(n: Numeral)
    ensures ValidNumeral(n) ==> LenientNumeral(n)
  {
    && n.whole != [] && Digits(n.whole) && (|n.whole| > 1 ==> n.whole[0] != DIGIT_0)
    && (n.fraction.Some? ==> n.fraction.value != [] && Digits(n.fraction.value))
    && (n.exponent.Some? ==> ValidExponent(n.exponent.value))
  }

  function ExponentText(e: Option<Exponent>): seq<byte> {
    if e.None? then [] else [e.value.letter] + e.value.sign + e.value.digits
  }

  function FractionText(f: Option<seq<byte>>): seq<byte> {
    if f.None? then [] else [POINT] + f.value
  }

  function NumeralText(n: Numeral): seq<byte> {
    (if n.negative then [MINUS] else []) + n.whole + FractionText(n.fraction) + ExponentText(n.exponent)
  }

  function MantissaValue(n: Numeral): real
    requires LenientNumeral(n)
  {
    var fraction :=
      if n.fraction.None? then 0.0
      else JsonNumber.DigitsValue(n.fraction.value) as real / JsonNumber.Pow10(|n.fraction.value|) as real;
    var magnitude := JsonNumber.DigitsValue(n.whole) as real + fraction;
    if n.negative then -magnitude else magnitude
  }

  /** A number times the power of ten of an exponent. */
  function Shifted(m: real, e: Exponent): real
    requires Digits(e.digits)
  {
    var power := JsonNumber.Pow10(JsonNumber.DigitsValue(e.digits)) as real;
    if e.sign == [MINUS] then m / power else m * power
  }

  /** The number a numeral denotes. */
  function NumeralValue(n: Numeral): real
    requires LenientNumeral(n)
  {
    if n.exponent.None? then MantissaValue(n) else Shifted(MantissaValue(n), n.exponent.value)
  }

  /** Where the parts of a numeral end in its text. */
  function WholeStart(n: Numeral): nat {
    if n.negative then 1 else 0
  }

  function WholeEnd(n: Numeral): nat {
    WholeStart(n) + |n.whole|
  }

  function FractionEnd(n: Numeral): nat {
    WholeEnd(n) + |FractionText(n.fraction)|
  }

  lemma NumeralShape(n: Numeral)
    requires LenientNumeral(n)
    ensures var t := NumeralText(n);
            && |t| == FractionEnd(n) + |ExponentText(n.exponent)|
            && (t[0] == MINUS <==> n.negative) && t[0] != PLUS
            && t[WholeStart(n)..WholeEnd(n)] == n.whole
            && t[WholeEnd(n)..FractionEnd(n)] == FractionText(n.fraction)
            && t[FractionEnd(n)..] == ExponentText(n.exponent)
  {
    var t := NumeralText(n);
    var sign: seq<byte> := if n.negative then [MINUS] else [];
    assert t == sign + n.whole + FractionText(n.fraction) + ExponentText(n.exponent);
    if !n.negative {
      assert JsonNumber.IsDigit(n.whole[0]) && t[0] == n.whole[0];
    }
  }

  /** The exponent part, at the end of a text. */
  lemma ExponentReads(t: seq<byte>, p: nat, e: Exponent, m: real)
    requires e.letter == LOWER_E || e.letter == UPPER_E
    requires e.sign == [] || e.sign == [PLUS] || e.sign == [MINUS]
    requires e.digits != [] && Digits(e.digits)
    requires p <= |t| && t[p..] == ExponentText(Some(e))
    ensures var digits := p + 1 + |e.sign|;
            && p + 1 < |t| && t[p] == e.letter
            && (t[p + 1] == MINUS <==> e.sign == [MINUS])
            && JsonNumber.SignEnd(t, p + 1) == digits && t[digits..|t|] == e.digits
            && JsonNumber.ExponentEnd(t, p) == |t|
    ensures JsonNumber.Scaled(m, t, p) == Shifted(m, e)
  {
    hide JsonNumber.DigitRun, JsonNumber.DigitsValue, JsonNumber.Pow10;
    var digits := p + 1 + |e.sign|;
    ExponentShape(t, p, e);
    JsonNumber.DigitRunStops(t, digits, |t|);
  }

  lemma ExponentShape(t: seq<byte>, p: nat, e: Exponent)
    requires e.digits != [] && Digits(e.digits) && |e.sign| <= 1
    requires p <= |t| && t[p..] == [e.letter] + e.sign + e.digits
    ensures var digits := p + 1 + |e.sign|;
            && p + 1 < |t| && t[p] == e.letter && t[p + 1] == (e.sign + e.digits)[0]
            && t[digits..|t|] == e.digits
            && forall i :: digits <= i < |t| ==> JsonNumber.IsDigit(t[i])
  {
    var x := [e.letter] + e.sign + e.digits;
    assert x[1..] == e.sign + e.digits;
    assert x[1 + |e.sign|..] == e.digits;
    assert t[p] == t[p..][0] && t[p + 1] == t[p..][1];
    assert t[p + 1 + |e.sign|..] == t[p..][1 + |e.sign|..];
    assert forall i :: p + 1 + |e.sign| <= i < |t| ==> t[i] == e.digits[i - p - 1 - |e.sign|];
  }

  /** The digits in front of the point. */
  lemma WholeReads(t: seq<byte>, w: nat, e: nat)
    requires w <= 1 && w <= e <= |t| && t != [] && Digits(t[w..e])
    requires (t[0] == MINUS <==> w == 1) && t[0] != PLUS
    requires e < |t| ==> !JsonNumber.IsDigit(t[e])
    ensures JsonNumber.SignEnd(t, 0) == w && JsonNumber.DigitRun(t, w) == e
  {
    assert forall i :: w <= i < e ==> t[i] == t[w..e][i - w];
    JsonNumber.DigitRunStops(t, w, e);
  }

  /** The point and the digits behind it. */
  lemma FractionReads(t: seq<byte>, e: nat, f: nat, fraction: seq<byte>)
    requires e <= f <= |t| && t[e..f] == [POINT] + fraction && Digits(fraction)
    requires f < |t| ==> !JsonNumber.IsDigit(t[f])
    ensures e < f && t[e] == POINT && JsonNumber.DigitRun(t, e + 1) == f && t[e + 1..f] == fraction
  {
    assert t[e] == t[e..f][0];
    assert t[e + 1..f] == t[e..f][1..] == fraction;
    assert forall i :: e + 1 <= i < f ==> t[i] == t[e + 1..f][i - e - 1];
    JsonNumber.DigitRunStops(t, e + 1, f);
  }

  lemma MantissaReads(t: seq<byte>, n: Numeral)
    requires LenientNumeral(n)
    requires FractionEnd(n) <= |t|
    requires (t[0] == MINUS <==> n.negative) && t[0] != PLUS
    requires t[WholeStart(n)..WholeEnd(n)] == n.whole
    requires t[WholeEnd(n)..FractionEnd(n)] == FractionText(n.fraction)
    requires FractionEnd(n) < |t| ==> t[FractionEnd(n)] == LOWER_E || t[FractionEnd(n)] == UPPER_E
    ensures JsonNumber.SignEnd(t, 0) == WholeStart(n)
    ensures JsonNumber.DigitRun(t, WholeStart(n)) == WholeEnd(n)
    ensures WholeEnd(n) < |t| && t[WholeEnd(n)] == POINT <==> n.fraction.Some?
    ensures n.fraction.Some? ==>
              && JsonNumber.DigitRun(t, WholeEnd(n) + 1) == FractionEnd(n)
              && t[WholeEnd(n) + 1..FractionEnd(n)] == n.fraction.value
  {
    hide JsonNumber.DigitRun, JsonNumber.SignEnd, JsonNumber.DigitsValue, Digits;
    if n.fraction.Some? {
      FractionReads(t, WholeEnd(n), FractionEnd(n), n.fraction.value);
    }
    WholeReads(t, WholeStart(n), WholeEnd(n));
  }

  lemma MantissaIs(t: seq<byte>, n: Numeral)
    requires LenientNumeral(n)
    requires FractionEnd(n) <= |t| && (t[0] == MINUS <==> n.negative)
    requires t[WholeStart(n)..WholeEnd(n)] == n.whole
    requires n.fraction.Some? ==> t[WholeEnd(n) + 1..FractionEnd(n)] == n.fraction.value
    requires forall i :: WholeStart(n) <= i < WholeEnd(n) ==> JsonNumber.IsDigit(t[i])
    requires forall i :: WholeEnd(n) < i < FractionEnd(n) ==> JsonNumber.IsDigit(t[i])
    ensures JsonNumber.Mantissa(t, WholeStart(n), WholeEnd(n), FractionEnd(n)) == MantissaValue(n)
  {
    hide JsonNumber.DigitsValue, JsonNumber.Pow10, Digits;
  }

  /** strtod in terms of the parts of a text that begins with a number. */
  lemma StrtodParts(t: seq<byte>, w: nat, e: nat, f: nat)
    requires t != [] && JsonNumber.SignEnd(t, 0) == w && JsonNumber.DigitRun(t, w) == e
    requires w < e || e + 1 < f
    requires f == if e < |t| && t[e] == POINT then JsonNumber.DigitRun(t, e + 1) else e
    ensures f <= |t| && (forall i :: e < i < f ==> JsonNumber.IsDigit(t[i]))
    ensures JsonNumber.ExponentEnd(t, f) > f ==>
              JsonNumber.Strtod(t)
                == (JsonNumber.Scaled(JsonNumber.Mantissa(t, w, e, f), t, f), JsonNumber.ExponentEnd(t, f))
    ensures JsonNumber.ExponentEnd(t, f) == f ==> JsonNumber.Strtod(t) == (JsonNumber.Mantissa(t, w, e, f), f)
  {
    hide JsonNumber.DigitRun, JsonNumber.SignEnd, JsonNumber.Mantissa, JsonNumber.Scaled, JsonNumber.ExponentEnd;
  }

  /** strtod reads a numeral as the number it denotes, to its end. */
  lemma NumeralReads(n: Numeral)
    requires LenientNumeral(n)
    ensures JsonNumber.Strtod(NumeralText(n)) == (NumeralValue(n), |NumeralText(n)|)
  {
    hide JsonNumber.DigitsValue, JsonNumber.DigitRun, JsonNumber.Pow10, JsonNumber.SignEnd, JsonNumber.Mantissa;
    hide NumeralText, JsonNumber.ExponentEnd, MantissaValue, JsonNumber.Strtod, JsonNumber.Scaled, Shifted;
    var t := NumeralText(n);
    NumeralShape(n);
    if n.exponent.Some? {
      ExponentReads(t, FractionEnd(n), n.exponent.value, MantissaValue(n));
    } else {
      NoExponent(t);
    }
    MantissaReads(t, n);
    StrtodParts(t, WholeStart(n), WholeEnd(n), FractionEnd(n));
    MantissaIs(t, n);
  }

  lemma NoExponent(t: seq<byte>)
    ensures JsonNumber.ExponentEnd(t, |t|) == |t|
  {
  }

  lemma NumeralBytes(n: Numeral)
    requires LenientNumeral(n)
    ensures forall i :: 0 <= i < |NumeralText(n)| ==> JsonNumber.IsNumberByte(NumeralText(n)[i])
  {
    assert forall i :: 0 <= i < |FractionText(n.fraction)| ==> JsonNumber.IsNumberByte(FractionText(n.fraction)[i]);
    assert forall i :: 0 <= i < |ExponentText(n.exponent)| ==> JsonNumber.IsNumberByte(ExponentText(n.exponent)[i]);
  }

  lemma NumberParses(n: Numeral, rest: seq<byte>, depth: nat)
    requires LenientNumeral(n) && |NumeralText(n)| <= JsonNumber.NUMBER_LIMIT
    requires Ends(rest) && !JsonNumber.IsNumberByte(rest[0])
    ensures Ends(NumeralText(n) + rest)
    ensures ParseValue(NumeralText(n) + rest, depth) == Parsed(Number(NumeralValue(n)), rest)
  {
    hide JsonNumber.Strtod, NumeralValue;
    var text := NumeralText(n);
    NumeralShape(n);
    NumeralReads(n);
    NumeralBytes(n);
    JsonNumber.TokenOfNumberBytes(text, rest, JsonNumber.NUMBER_LIMIT);
    RoundTrip.Literal(text, rest);
    assert (text + rest)[..|text|] == text && (text + rest)[0] == text[0];
    NumeralStarts(n);
    RoundTrip.NoLiteral(text + rest);
  }

  /** The numeral parse_number sees of one it cannot copy whole: the longest at the start of 63 characters. */
  function Cut(n: Numeral): (real, nat)
    requires |NumeralText(n)| > JsonNumber.NUMBER_LIMIT
  {
    JsonNumber.Strtod(NumeralText(n)[..JsonNumber.NUMBER_LIMIT])
  }

  lemma {:induction false} LimitIsReached(s: seq<byte>, limit: nat)
    requires limit <= |s| && forall i :: 0 <= i < limit ==> JsonNumber.IsNumberByte(s[i])
    ensures JsonNumber.TokenLength(s, limit) == limit
  {
    if limit > 0 {
      LimitIsReached(s[1..], limit - 1);
    }
  }

  /** A digit behind nothing, a sign, or a sign and a point. */
  predicate StartsNumber(t: seq<byte>) {
    && t != []
    && (|| JsonNumber.IsDigit(t[0])
        || (|t| > 1 && t[0] == MINUS && JsonNumber.IsDigit(t[1]))
        || (|t| > 2 && t[0] == MINUS && t[1] == POINT && JsonNumber.IsDigit(t[2])))
  }

  /** Whatever begins so holds a number. */
  lemma SomeNumber(t: seq<byte>)
    requires StartsNumber(t)
    ensures JsonNumber.Strtod(t).1 > 0
  {
    hide JsonNumber.DigitsValue, JsonNumber.Mantissa, JsonNumber.Scaled, JsonNumber.ExponentEnd;
    var w := JsonNumber.SignEnd(t, 0);
    if t[w] == POINT {
      assert JsonNumber.DigitRun(t, w) == w && JsonNumber.DigitRun(t, w + 1) > w + 1;
    } else {
      assert JsonNumber.DigitRun(t, w) > w;
    }
  }

  /** A numeral of more than 63 characters is cut, and the parser is left in front of a number character. */
  lemma LongNumberParses(n: Numeral, rest: seq<byte>, depth: nat)
    requires LenientNumeral(n) && |NumeralText(n)| > JsonNumber.NUMBER_LIMIT && Ends(rest)
    ensures Ends(NumeralText(n) + rest)
    ensures var r := ParseValue(NumeralText(n) + rest, depth);
            r.Parsed? && r.value == Number(Cut(n).0) && JsonNumber.IsNumberByte(r.rest[0])
  {
    hide JsonNumber.Strtod, NumeralText, JsonNumber.TokenLength;
    var text := NumeralText(n);
    var s := text + rest;
    NumeralShape(n);
    NumeralBytes(n);
    NumeralStarts(n);
    assert forall i :: 0 <= i < |text| ==> s[i] == text[i];
    LimitIsReached(s, JsonNumber.NUMBER_LIMIT);
    assert s[..JsonNumber.NUMBER_LIMIT] == text[..JsonNumber.NUMBER_LIMIT];
    SomeNumber(text[..JsonNumber.NUMBER_LIMIT]);
    RoundTrip.NoLiteral(s);
  }

  lemma NumeralStarts(n: Numeral)
    requires LenientNumeral(n)
    ensures StartsNumber(NumeralText(n))
  {
    var t := NumeralText(n);
    NumeralShape(n);
    if n.whole != [] {
      assert t[WholeStart(n)..WholeEnd(n)][0] == n.whole[0];
    } else {
      assert t[WholeEnd(n)..FractionEnd(n)][0] == POINT;
      assert t[WholeEnd(n)..FractionEnd(n)][1] == n.fraction.value[0];
    }
  }

  // ----- Values -----

  /** What the parser skips between tokens: any control character, NUL apart, and the space. */
  predicate LenientBlank(s: seq<byte>) {
    forall i :: 0 <= i < |s| ==> NUL < s[i] <= SPACE
  }

  /** ws of section 2. */
  predicate IsBlank(s: seq<byte>)
    ensures IsBlank(s) ==> LenientBlank(s)
  {
    forall i :: 0 <= i < |s| ==> s[i] in [SPACE, TAB, NEWLINE, CARRIAGE_RETURN]
  }

  /** The shape of the grammar with the leaves the parser takes. */
  predicate Lenient(x: Syntax) {
    match x
    case Numb(n) => LenientNumeral(n)
    case Strg(t) => LenientString(t)
    case Arry(open, elements) => LenientBlank(open) && forall i :: 0 <= i < |elements| ==> LenientElement(elements[i])
    case Objt(open, pairs) => LenientBlank(open) && forall i :: 0 <= i < |pairs| ==> LenientPair(pairs[i])
    case _ => true
  }

  predicate LenientElement(e: Element) {
    LenientBlank(e.before) && Lenient(e.value) && LenientBlank(e.after)
  }

  predicate LenientPair(p: Pair) {
    LenientBlank(p.before) && LenientString(p.name) && LenientBlank(p.gap) && LenientElement(p.element)
  }

  /** Is x a text of the grammar? */
  predicate Valid(x: Syntax)
    ensures Valid(x) ==> Lenient(x)
  {
    match x
    case Numb(n) => ValidNumeral(n)
    case Strg(t) => ValidString(t)
    case Arry(open, elements) => IsBlank(open) && forall i :: 0 <= i < |elements| ==> ValidElement(elements[i])
    case Objt(open, pairs) => IsBlank(open) && forall i :: 0 <= i < |pairs| ==> ValidPair(pairs[i])
    case _ => true
  }

  predicate ValidElement(e: Element)
    ensures ValidElement(e) ==> LenientElement(e)
  {
    IsBlank(e.before) && Valid(e.value) && IsBlank(e.after)
  }

  predicate ValidPair(p: Pair)
    ensures ValidPair(p) ==> LenientPair(p)
  {
    IsBlank(p.before) && ValidString(p.name) && IsBlank(p.gap) && ValidElement(p.element)
  }

  /** The text of x in front of `rest`. */
  function Spell(x: Syntax, rest: seq<byte>): seq<byte>
    decreases x, 1
  {
    match x
    case NullName => TEXT_NULL + rest
    case FalseName => TEXT_FALSE + rest
    case TrueName => TEXT_TRUE + rest
    case Numb(n) => NumeralText(n) + rest
    case Strg(t) => StringText(t) + rest
    case Arry(open, elements) =>
      [LBRACKET]
      + (if elements == [] then open + ([RBRACKET] + rest) else elements[0].before + Elements(elements, rest))
    case Objt(open, pairs) =>
      [LBRACE] + (if pairs == [] then open + ([RBRACE] + rest) else pairs[0].before + Pairs(pairs, rest))
  }

  /** From the first element to the closing bracket. */
  function Elements(elements: seq<Element>, rest: seq<byte>): seq<byte>
    requires elements != []
    decreases elements, 1
  {
    Spell(elements[0].value, elements[0].after + AfterElement(elements, rest))
  }

  function AfterElement(elements: seq<Element>, rest: seq<byte>): seq<byte>
    requires elements != []
    decreases elements, 0
  {
    if |elements| == 1 then [RBRACKET] + rest
    else [COMMA] + (elements[1].before + Elements(elements[1..], rest))
  }

  /** From the first name to the closing brace. */
  function Pairs(pairs: seq<Pair>, rest: seq<byte>): seq<byte>
    requires pairs != []
    decreases pairs, 1
  {
    StringText(pairs[0].name) + (pairs[0].gap + ([COLON] + (pairs[0].element.before +
    Spell(pairs[0].element.value, pairs[0].element.after + AfterPair(pairs, rest)))))
  }

  function AfterPair(pairs: seq<Pair>, rest: seq<byte>): seq<byte>
    requires pairs != []
    decreases pairs, 0
  {
    if |pairs| == 1 then [RBRACE] + rest
    else [COMMA] + (pairs[1].before + Pairs(pairs[1..], rest))
  }

  /** The value x denotes. */
  function Meaning(x: Syntax): Json
    requires Lenient(x)
    decreases x
  {
    match x
    case NullName => Null
    case FalseName => False
    case TrueName => True
    case Numb(n) => Number(NumeralValue(n))
    case Strg(t) => Str(StringMeaning(t))
    case Arry(_, elements) => Arr(Items(elements))
    case Objt(_, pairs) => Obj(Members(pairs))
  }

  function Items(elements: seq<Element>): (r: seq<Json>)
    requires forall i :: 0 <= i < |elements| ==> LenientElement(elements[i])
    ensures |r| == |elements|
    decreases elements
  {
    if elements == [] then []
    else assert LenientElement(elements[0]); [Meaning(elements[0].value)] + Items(elements[1..])
  }

  function Members(pairs: seq<Pair>): (r: seq<Member>)
    requires forall i :: 0 <= i < |pairs| ==> LenientPair(pairs[i])
    ensures |r| == |pairs|
    decreases pairs
  {
    if pairs == [] then []
    else
      assert LenientPair(pairs[0]) && LenientElement(pairs[0].element);
      [Member(StringMeaning(pairs[0].name), Meaning(pairs[0].element.value))] + Members(pairs[1..])
  }

  /** Does the parser copy every numeral of x whole? */
  predicate ShortNumerals(x: Syntax) {
    match x
    case Numb(n) => |NumeralText(n)| <= 63
    case Arry(_, elements) => forall i :: 0 <= i < |elements| ==> ShortElement(elements[i])
    case Objt(_, pairs) => forall i :: 0 <= i < |pairs| ==> ShortElement(pairs[i].element)
    case _ => true
  }

  predicate ShortElement(e: Element) {
    ShortNumerals(e.value)
  }

  /** How deep x is nested; more than any limit when one of its numerals is too long. */
  function Load(x: Syntax): nat
    decreases x
  {
    match x
    case Numb(n) => if |NumeralText(n)| <= JsonNumber.NUMBER_LIMIT then 0 else NESTING_LIMIT + 1
    case Arry(_, elements) => 1 + ElementsLoad(elements)
    case Objt(_, pairs) => 1 + PairsLoad(pairs)
    case _ => 0
  }

  function ElementsLoad(elements: seq<Element>): nat {
    if elements == [] then 0 else Max(Load(elements[0].value), ElementsLoad(elements[1..]))
  }

  function PairsLoad(pairs: seq<Pair>): nat {
    if pairs == [] then 0 else Max(Load(pairs[0].element.value), PairsLoad(pairs[1..]))
  }

  lemma {:induction false} LoadMeans(x: Syntax)
    requires Lenient(x)
    ensures if ShortNumerals(x) then Load(x) == Height(Meaning(x)) else Load(x) > NESTING_LIMIT
    decreases x, 1
  {
    match x {
      case Arry(_, elements) => ElementsLoadMeans(elements);
      case Objt(_, pairs) => PairsLoadMeans(pairs);
      case _ =>
    }
  }

  lemma {:induction false} ElementsLoadMeans(elements: seq<Element>)
    requires forall i :: 0 <= i < |elements| ==> LenientElement(elements[i])
    ensures if forall i :: 0 <= i < |elements| ==> ShortElement(elements[i])
            then ElementsLoad(elements) == HeightOfItems(Items(elements))
            else ElementsLoad(elements) > NESTING_LIMIT
    decreases elements, 0
  {
    hide Meaning, Load, ShortNumerals, Lenient, LenientBlank;
    if elements != [] {
      assert LenientElement(elements[0]);
      LoadMeans(elements[0].value);
      ElementsLoadMeans(elements[1..]);
      assert Items(elements)[1..] == Items(elements[1..]);
      assert forall i :: 0 < i < |elements| ==> elements[i] == elements[1..][i - 1];
    }
  }

  lemma {:induction false} PairsLoadMeans(pairs: seq<Pair>)
    requires forall i :: 0 <= i < |pairs| ==> LenientPair(pairs[i])
    ensures if forall i :: 0 <= i < |pairs| ==> ShortElement(pairs[i].element)
            then PairsLoad(pairs) == HeightOfMembers(Members(pairs))
            else PairsLoad(pairs) > NESTING_LIMIT
    decreases pairs, 0
  {
    hide Meaning, Load, ShortNumerals, Lenient, LenientBlank, LenientString, StringMeaning;
    if pairs != [] {
      assert LenientPair(pairs[0]) && LenientElement(pairs[0].element);
      LoadMeans(pairs[0].element.value);
      PairsLoadMeans(pairs[1..]);
      assert Members(pairs)[1..] == Members(pairs[1..]);
      assert forall i :: 0 < i < |pairs| ==> pairs[i] == pairs[1..][i - 1];
    }
  }

  // ----- The text is a C string -----

  lemma FrontKeepsEnd(a: seq<byte>, rest: seq<byte>)
    requires NulFree(a) && Terminated(rest)
    ensures Terminated(a + rest)
  {
    assert (a + rest)[..|a + rest| - 1] == a + rest[..|rest| - 1];
    NulFreeConcat(a, rest[..|rest| - 1]);
  }

  lemma BlankIsNulFree(s: seq<byte>)
    requires LenientBlank(s)
    ensures NulFree(s) && RoundTrip.Blank(s)
  {
  }

  lemma {:induction false} SpellEnds(x: Syntax, rest: seq<byte>)
    requires Lenient(x) && Terminated(rest)
    ensures Terminated(Spell(x, rest))
    decreases x, 1
  {
    match x {
      case NullName => FrontKeepsEnd(TEXT_NULL, rest);
      case FalseName => FrontKeepsEnd(TEXT_FALSE, rest);
      case TrueName => FrontKeepsEnd(TEXT_TRUE, rest);
      case Numb(n) =>
        NumeralBytes(n);
        FrontKeepsEnd(NumeralText(n), rest);
      case Strg(t) => StringEnds(t, rest);
      case Arry(open, elements) =>
        if elements == [] {
          ClosedEnds(open, RBRACKET, rest);
          FrontKeepsEnd([LBRACKET], open + ([RBRACKET] + rest));
        } else {
          ElementsEnd(elements, rest);
          ClosedEnds(elements[0].before, LBRACKET, Elements(elements, rest));
          BlankIsNulFree(elements[0].before);
          FrontKeepsEnd(elements[0].before, Elements(elements, rest));
          FrontKeepsEnd([LBRACKET], elements[0].before + Elements(elements, rest));
        }
      case Objt(open, pairs) =>
        if pairs == [] {
          ClosedEnds(open, RBRACE, rest);
          FrontKeepsEnd([LBRACE], open + ([RBRACE] + rest));
        } else {
          PairsEnd(pairs, rest);
          BlankIsNulFree(pairs[0].before);
          FrontKeepsEnd(pairs[0].before, Pairs(pairs, rest));
          FrontKeepsEnd([LBRACE], pairs[0].before + Pairs(pairs, rest));
        }
    }
  }

  lemma StringEnds(t: StringToken, rest: seq<byte>)
    requires LenientString(t) && Terminated(rest)
    ensures Terminated(StringText(t) + rest)
  {
    CharsAreNulFree(t.chars);
    FrontKeepsEnd(StringText(t), rest);
  }

  /** White space and a character in front of a text. */
  lemma ClosedEnds(blank: seq<byte>, b: byte, rest: seq<byte>)
    requires LenientBlank(blank) && b != NUL && Terminated(rest)
    ensures Terminated([b] + rest) && Terminated(blank + ([b] + rest))
  {
    FrontKeepsEnd([b], rest);
    BlankIsNulFree(blank);
    FrontKeepsEnd(blank, [b] + rest);
  }

  lemma {:induction false} ElementsEnd(elements: seq<Element>, rest: seq<byte>)
    requires elements != [] && (forall i :: 0 <= i < |elements| ==> LenientElement(elements[i]))
    requires Terminated(rest)
    ensures Terminated(AfterElement(elements, rest)) && Terminated(Elements(elements, rest))
    decreases elements, 0
  {
    if |elements| == 1 {
      FrontKeepsEnd([RBRACKET], rest);
    } else {
      ElementsEnd(elements[1..], rest);
      BlankIsNulFree(elements[1].before);
      FrontKeepsEnd(elements[1].before, Elements(elements[1..], rest));
      FrontKeepsEnd([COMMA], elements[1].before + Elements(elements[1..], rest));
    }
    BlankIsNulFree(elements[0].after);
    FrontKeepsEnd(elements[0].after, AfterElement(elements, rest));
    SpellEnds(elements[0].value, elements[0].after + AfterElement(elements, rest));
  }

  lemma {:induction false} PairsEnd(pairs: seq<Pair>, rest: seq<byte>)
    requires pairs != [] && (forall i :: 0 <= i < |pairs| ==> LenientPair(pairs[i]))
    requires Terminated(rest)
    ensures Terminated(AfterPair(pairs, rest)) && Terminated(Pairs(pairs, rest))
    decreases pairs, 0
  {
    if |pairs| == 1 {
      FrontKeepsEnd([RBRACE], rest);
    } else {
      PairsEnd(pairs[1..], rest);
      BlankIsNulFree(pairs[1].before);
      FrontKeepsEnd(pairs[1].before, Pairs(pairs[1..], rest));
      FrontKeepsEnd([COMMA], pairs[1].before + Pairs(pairs[1..], rest));
    }
    hide Spell, StringText, LenientString;
    var p := pairs[0];
    assert LenientPair(p) && LenientElement(p.element);
    BlankIsNulFree(p.element.after);
    FrontKeepsEnd(p.element.after, AfterPair(pairs, rest));
    SpellEnds(p.element.value, p.element.after + AfterPair(pairs, rest));
    ColonEnds(p, Spell(p.element.value, p.element.after + AfterPair(pairs, rest)));
  }

  /** A name, a colon and the white space around it in front of a text. */
  lemma ColonEnds(p: Pair, start: seq<byte>)
    requires LenientPair(p) && Terminated(start)
    ensures Terminated(p.element.before + start)
    ensures Terminated([COLON] + (p.element.before + start))
    ensures Terminated(p.gap + ([COLON] + (p.element.before + start)))
    ensures Terminated(StringText(p.name) + (p.gap + ([COLON] + (p.element.before + start))))
  {
    BlankIsNulFree(p.element.before);
    FrontKeepsEnd(p.element.before, start);
    ClosedEnds(p.gap, COLON, p.element.before + start);
    StringEnds(p.name, p.gap + ([COLON] + (p.element.before + start)));
  }

  // ----- The parser reads it -----

  /** A value begins with a visible character that no container could mistake for its end. */
  lemma SpellStarts(x: Syntax, rest: seq<byte>)
    requires Lenient(x)
    ensures Spell(x, rest) != [] && Spell(x, rest)[0] > SPACE && Spell(x, rest)[0] != RBRACKET
    ensures Spell(x, rest)[0] < 0x80
  {
    hide NumeralText, StringText;
    match x {
      case Numb(n) =>
        NumeralStarts(n);
      case Strg(t) =>
        StringStarts(t);
      case _ =>
    }
  }

  /** The parser is left in front of a number character, where no container can go on. */
  ghost predicate LeftInNumber<T>(r: Result<T>) {
    r.Parsed? && Ends(r.rest) && JsonNumber.IsNumberByte(r.rest[0])
  }

  /** What parsing makes of a text of this load; an overlong numeral is noticed only by what follows it. */
  ghost predicate Reads<T>(r: Result<T>, value: T, rest: seq<byte>, depth: nat, load: nat) {
    r == RoundTrip.Expected(value, rest, depth, load) || (load > NESTING_LIMIT && LeftInNumber(r))
  }

  /** Behind a value: white space and a character that is part of no number. */
  lemma AfterValue(blank: seq<byte>, b: byte, t: seq<byte>)
    requires LenientBlank(blank) && Ends([b] + t) && (b == COMMA || b == RBRACKET || b == RBRACE || b == COLON)
    ensures Ends(blank + ([b] + t)) && SkipWhitespace(blank + ([b] + t)) == [b] + t
    ensures !JsonNumber.IsNumberByte((blank + ([b] + t))[0])
  {
    BlankIsNulFree(blank);
    RoundTrip.SkipBlank(blank, [b] + t);
  }

  lemma NamesParse(x: Syntax, rest: seq<byte>, depth: nat)
    requires x.NullName? || x.FalseName? || x.TrueName?
    requires Ends(rest)
    ensures Ends(Spell(x, rest)) && ParseValue(Spell(x, rest), depth) == Parsed(Meaning(x), rest)
  {
    var name := if x.NullName? then TEXT_NULL else if x.FalseName? then TEXT_FALSE else TEXT_TRUE;
    RoundTrip.Literal(name, rest);
    assert (name + rest)[0] == name[0];
    assert (name + rest)[|name + rest| - 1] == rest[|rest| - 1];
  }

  /** An empty container with white space in it. */
  lemma EmptyParses(open: seq<byte>, rest: seq<byte>, depth: nat, isArray: bool)
    requires LenientBlank(open) && Ends(rest)
    ensures var x := if isArray then Arry(open, []) else Objt(open, []);
            && Ends(Spell(x, rest))
            && ParseValue(Spell(x, rest), depth) == RoundTrip.Expected(Meaning(x), rest, depth, 1)
  {
    hide ParseText, ParseNumber, ParseMembers, ParseItems, SkipWhitespace;
    BlankIsNulFree(open);
    if isArray {
      RoundTrip.BehindOne(RBRACKET, rest);
      RoundTrip.SkipBlank(open, [RBRACKET] + rest);
      RoundTrip.BehindOne(LBRACKET, open + ([RBRACKET] + rest));
      RoundTrip.NoLiteral([LBRACKET] + (open + ([RBRACKET] + rest)));
    } else {
      RoundTrip.BehindOne(RBRACE, rest);
      RoundTrip.SkipBlank(open, [RBRACE] + rest);
      RoundTrip.BehindOne(LBRACE, open + ([RBRACE] + rest));
      RoundTrip.NoLiteral([LBRACE] + (open + ([RBRACE] + rest)));
    }
  }

  lemma ArrayOpens(blank: seq<byte>, first: seq<byte>, depth: nat)
    requires LenientBlank(blank) && Ends(first) && first[0] > SPACE && first[0] != RBRACKET
    ensures Ends([LBRACKET] + (blank + first))
    ensures ParseValue([LBRACKET] + (blank + first), depth)
         == if depth >= NESTING_LIMIT then Failed else RoundTrip.AsArray(ParseItems(first, depth + 1))
  {
    hide ParseText, ParseNumber, ParseMembers, ParseItems, SkipWhitespace;
    BlankIsNulFree(blank);
    RoundTrip.SkipBlank(blank, first);
    RoundTrip.BehindOne(LBRACKET, blank + first);
    RoundTrip.NoLiteral([LBRACKET] + (blank + first));
  }

  /** In front of a number character neither loop goes on. */
  lemma ItemsStuck(s: seq<byte>, depth: nat)
    requires Ends(s) && LeftInNumber(ParseValue(s, depth))
    ensures ParseItems(s, depth) == Failed
  {
    hide ParseValue;
    RoundTrip.NothingToSkip(ParseValue(s, depth).rest);
  }

  lemma MembersStuck(s: seq<byte>, depth: nat)
    requires Ends(s) && LeftInNumber(ParseMember(s, depth))
    ensures ParseMembers(s, depth) == Failed
  {
    hide ParseMember;
    RoundTrip.NothingToSkip(ParseMember(s, depth).rest);
  }

  /** One turn of the loop of parse_array. */
  lemma ItemStep(s: seq<byte>, v: Json, after: seq<byte>, before: seq<byte>, others: seq<byte>, vs: seq<Json>,
                 rest: seq<byte>, depth: nat, load: nat, loads: nat)
    requires Ends(s) && LenientBlank(after) && LenientBlank(before) && Ends(others) && others[0] > SPACE
    requires Reads(ParseValue(s, depth), v, after + ([COMMA] + (before + others)), depth, load)
    requires ParseItems(others, depth) == RoundTrip.Expected(vs, rest, depth, loads)
    ensures ParseItems(s, depth) == RoundTrip.Expected([v] + vs, rest, depth, Max(load, loads))
  {
    hide ParseValue, SkipWhitespace;
    if load > NESTING_LIMIT && LeftInNumber(ParseValue(s, depth)) {
      ItemsStuck(s, depth);
    } else {
      BlankIsNulFree(before);
      RoundTrip.SkipBlank(before, others);
      RoundTrip.BehindOne(COMMA, before + others);
      AfterValue(after, COMMA, before + others);
    }
  }

  lemma ItemEnd(s: seq<byte>, v: Json, after: seq<byte>, rest: seq<byte>, depth: nat, load: nat)
    requires Ends(s) && LenientBlank(after) && Ends(rest)
    requires Reads(ParseValue(s, depth), v, after + ([RBRACKET] + rest), depth, load)
    ensures ParseItems(s, depth) == RoundTrip.Expected([v], rest, depth, load)
  {
    hide ParseValue, SkipWhitespace;
    if load > NESTING_LIMIT && LeftInNumber(ParseValue(s, depth)) {
      ItemsStuck(s, depth);
    } else {
      RoundTrip.BehindOne(RBRACKET, rest);
      AfterValue(after, RBRACKET, rest);
    }
  }

  /** One member: name, colon and value with the white space around them. */
  lemma MemberParses(p: Pair, start: seq<byte>, v: Json, after: seq<byte>, depth: nat, load: nat)
    requires LenientPair(p) && Ends(start) && start[0] > SPACE
    requires Reads(ParseValue(start, depth), v, after, depth, load)
    ensures Ends(StringText(p.name) + (p.gap + ([COLON] + (p.element.before + start))))
    ensures Reads(ParseMember(StringText(p.name) + (p.gap + ([COLON] + (p.element.before + start))), depth),
                  Member(StringMeaning(p.name), v), after, depth, load)
  {
    hide ParseValue, ParseText, SkipWhitespace, StringText;
    assert LenientElement(p.element);
    BlankIsNulFree(p.element.before);
    RoundTrip.SkipBlank(p.element.before, start);
    RoundTrip.BehindOne(COLON, p.element.before + start);
    AfterValue(p.gap, COLON, p.element.before + start);
    StringParses(p.name, p.gap + ([COLON] + (p.element.before + start)));
  }

  /** One turn of the loop of parse_object. */
  lemma MemberStep(s: seq<byte>, m: Member, after: seq<byte>, before: seq<byte>, others: seq<byte>, ms: seq<Member>,
                   rest: seq<byte>, depth: nat, load: nat, loads: nat)
    requires Ends(s) && LenientBlank(after) && LenientBlank(before) && Ends(others) && others[0] > SPACE
    requires Reads(ParseMember(s, depth), m, after + ([COMMA] + (before + others)), depth, load)
    requires ParseMembers(others, depth) == RoundTrip.Expected(ms, rest, depth, loads)
    ensures ParseMembers(s, depth) == RoundTrip.Expected([m] + ms, rest, depth, Max(load, loads))
  {
    hide ParseMember, SkipWhitespace;
    if load > NESTING_LIMIT && LeftInNumber(ParseMember(s, depth)) {
      MembersStuck(s, depth);
    } else {
      BlankIsNulFree(before);
      RoundTrip.SkipBlank(before, others);
      RoundTrip.BehindOne(COMMA, before + others);
      AfterValue(after, COMMA, before + others);
    }
  }

  lemma MemberEnds(s: seq<byte>, m: Member, after: seq<byte>, rest: seq<byte>, depth: nat, load: nat)
    requires Ends(s) && LenientBlank(after) && Ends(rest)
    requires Reads(ParseMember(s, depth), m, after + ([RBRACE] + rest), depth, load)
    ensures ParseMembers(s, depth) == RoundTrip.Expected([m], rest, depth, load)
  {
    hide ParseMember, SkipWhitespace;
    if load > NESTING_LIMIT && LeftInNumber(ParseMember(s, depth)) {
      MembersStuck(s, depth);
    } else {
      RoundTrip.BehindOne(RBRACE, rest);
      AfterValue(after, RBRACE, rest);
    }
  }

  /** Every value of the grammar parses to what it denotes, up to its end, exactly when its load fits the limit. */
  lemma {:induction false} ValueParses(x: Syntax, rest: seq<byte>, depth: nat)
    requires Lenient(x) && Terminated(rest) && depth <= NESTING_LIMIT
    requires x.Numb? ==> !JsonNumber.IsNumberByte(rest[0])
    ensures Terminated(Spell(x, rest))
    ensures Reads(ParseValue(Spell(x, rest), depth), Meaning(x), rest, depth, Load(x))
    ensures !x.Numb? ==> ParseValue(Spell(x, rest), depth) == RoundTrip.Expected(Meaning(x), rest, depth, Load(x))
    decreases x, 1
  {
    hide ParseValue;
    SpellEnds(x, rest);
    match x {
      case Numb(n) =>
        if |NumeralText(n)| <= JsonNumber.NUMBER_LIMIT {
          NumberParses(n, rest, depth);
        } else {
          LongNumberParses(n, rest, depth);
        }
      case Strg(t) => StringValueParses(t, rest, depth);
      case Arry(open, elements) => ArrayParses(open, elements, rest, depth);
      case Objt(open, pairs) => ObjectParses(open, pairs, rest, depth);
      case _ => NamesParse(x, rest, depth);
    }
  }

  lemma StringValueParses(t: StringToken, rest: seq<byte>, depth: nat)
    requires LenientString(t) && Ends(rest)
    ensures Ends(StringText(t) + rest)
    ensures ParseValue(StringText(t) + rest, depth) == Parsed(Str(StringMeaning(t)), rest)
  {
    hide ParseText, StringText, StringMeaning;
    StringParses(t, rest);
    RoundTrip.NoLiteral(StringText(t) + rest);
  }

  lemma {:induction false} ArrayParses(open: seq<byte>, elements: seq<Element>, rest: seq<byte>, depth: nat)
    requires Lenient(Arry(open, elements)) && Terminated(rest) && depth <= NESTING_LIMIT
    ensures Ends(Spell(Arry(open, elements), rest))
    ensures ParseValue(Spell(Arry(open, elements), rest), depth)
         == RoundTrip.Expected(Meaning(Arry(open, elements)), rest, depth, Load(Arry(open, elements)))
    decreases elements, 3
  {
    hide ParseValue, ParseItems, Elements;
    if elements == [] {
      EmptyParses(open, rest, depth, true);
    } else {
      var e := elements[0];
      assert LenientElement(e);
      ElementsEnd(elements, rest);
      ElementsStart(elements, rest);
      ArrayOpens(e.before, Elements(elements, rest), depth);
      if depth < NESTING_LIMIT {
        ElementsParse(elements, rest, depth + 1);
      }
    }
  }

  lemma ElementsStart(elements: seq<Element>, rest: seq<byte>)
    requires elements != [] && LenientElement(elements[0])
    ensures var s := Elements(elements, rest); s != [] && s[0] > SPACE && s[0] != RBRACKET
  {
    SpellStarts(elements[0].value, elements[0].after + AfterElement(elements, rest));
  }

  lemma {:induction false} ElementsParse(elements: seq<Element>, rest: seq<byte>, depth: nat)
    requires elements != [] && (forall i :: 0 <= i < |elements| ==> LenientElement(elements[i]))
    requires Terminated(rest) && depth <= NESTING_LIMIT
    ensures Ends(Elements(elements, rest))
    ensures ParseItems(Elements(elements, rest), depth)
         == RoundTrip.Expected(Items(elements), rest, depth, ElementsLoad(elements))
    decreases elements, 2
  {
    hide ParseValue, ParseItems, Spell, Meaning, Load, Reads, Lenient, SkipWhitespace, RoundTrip.Expected, LenientBlank;
    var e := elements[0];
    assert LenientElement(e);
    ElementsEnd(elements, rest);
    ElementFollowed(elements, rest);
    ValueParses(e.value, e.after + AfterElement(elements, rest), depth);
    var v := Meaning(e.value);
    if |elements| == 1 {
      assert Items(elements) == [v];
      ItemEnd(Elements(elements, rest), v, e.after, rest, depth, Load(e.value));
    } else {
      assert LenientElement(elements[1]);
      ElementsEnd(elements[1..], rest);
      ElementsStart(elements[1..], rest);
      ElementsParse(elements[1..], rest, depth);
      ItemStep(Elements(elements, rest), v, e.after, elements[1].before, Elements(elements[1..], rest),
               Items(elements[1..]),
               rest, depth, Load(e.value), ElementsLoad(elements[1..]));
      assert Items(elements)[1..] == Items(elements[1..]);
    }
  }

  lemma ElementFollowed(elements: seq<Element>, rest: seq<byte>)
    requires elements != [] && LenientElement(elements[0]) && Terminated(AfterElement(elements, rest))
    ensures Terminated(elements[0].after + AfterElement(elements, rest))
    ensures !JsonNumber.IsNumberByte((elements[0].after + AfterElement(elements, rest))[0])
  {
    BlankIsNulFree(elements[0].after);
    FrontKeepsEnd(elements[0].after, AfterElement(elements, rest));
  }

  lemma {:induction false} ObjectParses(open: seq<byte>, pairs: seq<Pair>, rest: seq<byte>, depth: nat)
    requires Lenient(Objt(open, pairs)) && Terminated(rest) && depth <= NESTING_LIMIT
    ensures Ends(Spell(Objt(open, pairs), rest))
    ensures ParseValue(Spell(Objt(open, pairs), rest), depth)
         == RoundTrip.Expected(Meaning(Objt(open, pairs)), rest, depth, Load(Objt(open, pairs)))
    decreases pairs, 3
  {
    hide ParseValue, ParseMembers, Pairs, StringText, LenientString, StringMeaning, LenientBlank, SkipWhitespace;
    if pairs == [] {
      EmptyParses(open, rest, depth, false);
    } else {
      var p := pairs[0];
      assert LenientPair(p);
      PairsEnd(pairs, rest);
      PairsStart(pairs, rest);
      BlankIsNulFree(p.before);
      RoundTrip.ObjectOpens(p.before, Pairs(pairs, rest), depth);
      if depth < NESTING_LIMIT {
        PairsParse(pairs, rest, depth + 1);
      }
    }
  }

  lemma PairsStart(pairs: seq<Pair>, rest: seq<byte>)
    requires pairs != [] && LenientPair(pairs[0])
    ensures Pairs(pairs, rest) != [] && Pairs(pairs, rest)[0] == QUOTE
  {
    hide Spell;
    StringStarts(pairs[0].name);
  }

  lemma {:induction false} PairsParse(pairs: seq<Pair>, rest: seq<byte>, depth: nat)
    requires pairs != [] && (forall i :: 0 <= i < |pairs| ==> LenientPair(pairs[i]))
    requires Terminated(rest) && depth <= NESTING_LIMIT
    ensures Ends(Pairs(pairs, rest))
    ensures ParseMembers(Pairs(pairs, rest), depth)
         == RoundTrip.Expected(Members(pairs), rest, depth, PairsLoad(pairs))
    decreases pairs, 2
  {
    hide ParseValue, ParseMembers, ParseMember, Spell, Meaning, Load, Reads, Lenient, SkipWhitespace;
    hide RoundTrip.Expected, LenientBlank;
    hide StringText, StringMeaning, LenientString;
    var p := pairs[0];
    assert LenientPair(p) && LenientElement(p.element);
    PairsEnd(pairs, rest);
    PairFollowed(pairs, rest);
    ValueParses(p.element.value, p.element.after + AfterPair(pairs, rest), depth);
    var v := Meaning(p.element.value);
    var start := Spell(p.element.value, p.element.after + AfterPair(pairs, rest));
    SpellStarts(p.element.value, p.element.after + AfterPair(pairs, rest));
    MemberParses(p, start, v, p.element.after + AfterPair(pairs, rest), depth, Load(p.element.value));
    var m := Member(StringMeaning(p.name), v);
    if |pairs| == 1 {
      assert Members(pairs) == [m];
      MemberEnds(Pairs(pairs, rest), m, p.element.after, rest, depth, Load(p.element.value));
    } else {
      assert LenientPair(pairs[1]);
      PairsEnd(pairs[1..], rest);
      PairsStart(pairs[1..], rest);
      PairsParse(pairs[1..], rest, depth);
      MemberStep(Pairs(pairs, rest), m, p.element.after, pairs[1].before, Pairs(pairs[1..], rest), Members(pairs[1..]),
                 rest, depth, Load(p.element.value), PairsLoad(pairs[1..]));
      assert Members(pairs)[1..] == Members(pairs[1..]);
    }
  }

  lemma PairFollowed(pairs: seq<Pair>, rest: seq<byte>)
    requires pairs != [] && LenientPair(pairs[0]) && Terminated(AfterPair(pairs, rest))
    ensures Terminated(pairs[0].element.after + AfterPair(pairs, rest))
    ensures !JsonNumber.IsNumberByte((pairs[0].element.after + AfterPair(pairs, rest))[0])
  {
    var e := pairs[0].element;
    assert LenientElement(e);
    BlankIsNulFree(e.after);
    FrontKeepsEnd(e.after, AfterPair(pairs, rest));
  }

  // ----- Documents -----

  /** JSON-text of section 2 as a C string: a value with white space around it. */
  function TextOf(e: Element): seq<byte> {
    e.before + Spell(e.value, e.after + [NUL])
  }

  /** A text that is nothing but a numeral the parser cannot copy whole. */
  predicate IsLongNumeral(x: Syntax) {
    x.Numb? && |NumeralText(x.numeral)| > JsonNumber.NUMBER_LIMIT
  }

  /**
   Every lenient text, so every text of the grammar, is a C string. With the terminator check it is accepted
   exactly when it is nested at most 1000 deep and each of its numerals has at most 63 characters, and gives the
   value the text denotes. Without the check the same holds of every text but a lone longer numeral, which gives
   the number at the start of its first 63 characters.
   */
  lemma EveryTextParses(e: Element, requireNullTerminated: bool)
    requires LenientElement(e)
    ensures Terminated(TextOf(e))
    ensures var r := ParseDocument(TextOf(e), requireNullTerminated);
            if IsLongNumeral(e.value) && !requireNullTerminated then
              r.Parsed? && r.value == Number(Cut(e.value.numeral).0)
            else
              && (r.Parsed? <==> Height(Meaning(e.value)) <= 1000 && ShortNumerals(e.value))
              && (r.Parsed? ==> r.value == Meaning(e.value))
  {
    hide ParseValue, SkipWhitespace, Spell, Meaning, Lenient, LenientBlank;
    var tail := e.after + [NUL];
    TailEnds(e);
    ValueParses(e.value, tail, 0);
    LoadMeans(e.value);
    SpellStarts(e.value, tail);
    BlankIsNulFree(e.before);
    FrontKeepsEnd(e.before, Spell(e.value, tail));
    RoundTrip.SkipBlank(e.before, Spell(e.value, tail));
    NoMark(e.before, Spell(e.value, tail));
    var r := ParseValue(Spell(e.value, tail), 0);
    if LeftInNumber(r) {
      RoundTrip.NothingToSkip(r.rest);
    }
    if IsLongNumeral(e.value) {
      LongNumeralAlone(e.value, tail);
    }
  }

  lemma LongNumeralAlone(x: Syntax, rest: seq<byte>)
    requires Lenient(x) && IsLongNumeral(x) && Ends(rest)
    ensures Ends(Spell(x, rest)) && !ShortNumerals(x)
    ensures var r := ParseValue(Spell(x, rest), 0); LeftInNumber(r) && r.value == Number(Cut(x.numeral).0)
  {
    LongNumberParses(x.numeral, rest, 0);
  }

  /** There are such numerals: 64 digits, a text of the grammar that the parser refuses or cuts. */
  lemma SixtyFourDigits()
    ensures var n := Numeral(false, Repeat(DIGIT_9, 64), None, None);
            var e := Element([], Numb(n), []);
            && ValidElement(e)
            && ParseDocument(TextOf(e), true) == Failed
            && ParseDocument(TextOf(e), false).Parsed?
  {
    var n := Numeral(false, Repeat(DIGIT_9, 64), None, None);
    var e := Element([], Numb(n), []);
    assert NumeralText(n) == Repeat(DIGIT_9, 64);
    assert Valid(e.value);
    EveryTextParses(e, true);
    EveryTextParses(e, false);
  }

  /** The white space at the end and the terminator. */
  lemma TailEnds(e: Element)
    requires LenientBlank(e.after)
    ensures Terminated(e.after + [NUL]) && !JsonNumber.IsNumberByte((e.after + [NUL])[0])
    ensures SkipWhitespace(e.after + [NUL]) == [NUL]
  {
    BlankIsNulFree(e.after);
    FrontKeepsEnd(e.after, [NUL]);
    BlanksEnd(e.after);
  }

  lemma {:induction false} BlanksEnd(blank: seq<byte>)
    requires RoundTrip.Blank(blank)
    ensures SkipWhitespace(blank + [NUL]) == [NUL]
  {
    if blank == [] {
      assert blank + [NUL] == [NUL];
    } else {
      assert (blank + [NUL])[1..] == blank[1..] + [NUL];
      BlanksEnd(blank[1..]);
    }
  }

  lemma NoMark(blank: seq<byte>, s: seq<byte>)
    requires LenientBlank(blank) && s != [] && s[0] < 0x80
    ensures !StartsWith(blank + s, BYTE_ORDER_MARK)
  {
    assert (blank + s)[0] == if blank == [] then s[0] else blank[0];
    assert |blank + s| >= 3 ==> (blank + s)[..3][0] == (blank + s)[0];
  }
}
