/**
 Minifying keeps the meaning: every text of the JSON grammar minifies to its own tokens without the white
 space between them, and the parser makes the same of both.
 */
module MinifyMeaning {
  import opened Bytes
  import opened Conformance
  import opened Grammar
  import opened Literals
  import opened Minify
  import Utf8

  // ----- The same tokens without white space -----

  function Squeeze(x: Syntax): Syntax
    decreases x
  {
    match x
    case Arry(_, elements) => Arry([], SqueezeElements(elements))
    case Objt(_, pairs) => Objt([], SqueezePairs(pairs))
    case _ => x
  }

  function SqueezeElements(elements: seq<Element>): (r: seq<Element>)
    ensures |r| == |elements|
    decreases elements
  {
    if elements == [] then [] else [Element([], Squeeze(elements[0].value), [])] + SqueezeElements(elements[1..])
  }

  function SqueezePairs(pairs: seq<Pair>): (r: seq<Pair>)
    ensures |r| == |pairs|
    decreases pairs
  {
    if pairs == [] then []
    else [Pair([], pairs[0].name, [], Element([], Squeeze(pairs[0].element.value), []))] + SqueezePairs(pairs[1..])
  }

  lemma {:induction false} SqueezeKeepsMeaning(x: Syntax)
    requires Valid(x)
    ensures Valid(Squeeze(x)) && Meaning(Squeeze(x)) == Meaning(x) && (ShortNumerals(Squeeze(x)) <==> ShortNumerals(x))
    decreases x, 1
  {
    match x {
      case Arry(_, elements) => SqueezeKeepsItems(elements);
      case Objt(_, pairs) => SqueezeKeepsMembers(pairs);
      case _ =>
    }
  }

  lemma {:induction false} SqueezeKeepsItems(elements: seq<Element>)
    requires forall i :: 0 <= i < |elements| ==> ValidElement(elements[i])
    ensures var t := SqueezeElements(elements);
            && (forall i :: 0 <= i < |t| ==> ValidElement(t[i]) && LenientElement(t[i]))
            && (forall i :: 0 <= i < |elements| ==> LenientElement(elements[i]))
            && Items(t) == Items(elements)
            && ((forall i :: 0 <= i < |t| ==> ShortElement(t[i])) <==>
                (forall i :: 0 <= i < |elements| ==> ShortElement(elements[i])))
    decreases elements, 0
  {
    hide Meaning, Valid, Lenient, ShortNumerals, Squeeze;
    if elements != [] {
      var t := SqueezeElements(elements);
      assert ValidElement(elements[0]);
      SqueezeKeepsMeaning(elements[0].value);
      SqueezeKeepsItems(elements[1..]);
      assert t[1..] == SqueezeElements(elements[1..]);
      assert forall i :: 0 < i < |t| ==> t[i] == t[1..][i - 1] && elements[i] == elements[1..][i - 1];
      assert ValidElement(t[0]) && (ShortElement(t[0]) <==> ShortElement(elements[0]));
    }
  }

  lemma {:induction false} SqueezeKeepsMembers(pairs: seq<Pair>)
    requires forall i :: 0 <= i < |pairs| ==> ValidPair(pairs[i])
    ensures var t := SqueezePairs(pairs);
            && (forall i :: 0 <= i < |t| ==> ValidPair(t[i]) && LenientPair(t[i]))
            && (forall i :: 0 <= i < |pairs| ==> LenientPair(pairs[i]))
            && Members(t) == Members(pairs)
            && ((forall i :: 0 <= i < |t| ==> ShortElement(t[i].element)) <==>
                (forall i :: 0 <= i < |pairs| ==> ShortElement(pairs[i].element)))
    decreases pairs, 0
  {
    hide Meaning, Valid, Lenient, ShortNumerals, Squeeze, StringMeaning, ValidPair, LenientPair, ShortElement;
    if pairs != [] {
      var t := SqueezePairs(pairs);
      ValueOfPair(pairs[0]);
      SqueezeKeepsMeaning(pairs[0].element.value);
      PairSqueezed(pairs[0]);
      SqueezeKeepsMembers(pairs[1..]);
      assert t[1..] == SqueezePairs(pairs[1..]);
      assert forall i :: 0 < i < |t| ==> t[i] == t[1..][i - 1] && pairs[i] == pairs[1..][i - 1];
    }
  }

  lemma ValueOfPair(p: Pair)
    requires ValidPair(p)
    ensures Valid(p.element.value) && LenientPair(p) && LenientString(p.name)
  {
  }

  lemma PairSqueezed(p: Pair)
    requires ValidPair(p) && Valid(Squeeze(p.element.value))
    requires ShortNumerals(Squeeze(p.element.value)) <==> ShortNumerals(p.element.value)
    ensures var q := Pair([], p.name, [], Element([], Squeeze(p.element.value), []));
            ValidPair(q) && LenientPair(q) && (ShortElement(q.element) <==> ShortElement(p.element))
  {
    hide Valid, Lenient, ShortNumerals, Squeeze, ValidString, LenientString;
    var q := Pair([], p.name, [], Element([], Squeeze(p.element.value), []));
    assert ValidElement(q.element);
  }

  // ----- A text and what follows it -----

  lemma {:induction false} SpellFront(x: Syntax, rest: seq<byte>)
    ensures Spell(x, rest) == Spell(x, []) + rest
    decreases x, 1
  {
    hide Elements, Pairs, StringText, NumeralText;
    match x {
      case Arry(open, elements) =>
        if elements != [] {
          ElementsFront(elements, rest);
          OpenFront(LBRACKET, elements[0].before, Elements(elements, []), rest);
        } else {
          OpenFront(LBRACKET, open, [RBRACKET] + [], rest);
        }
      case Objt(open, pairs) =>
        if pairs != [] {
          PairsFront(pairs, rest);
          OpenFront(LBRACE, pairs[0].before, Pairs(pairs, []), rest);
        } else {
          OpenFront(LBRACE, open, [RBRACE] + [], rest);
        }
      case _ =>
    }
  }

  lemma {:induction false} ElementsFront(elements: seq<Element>, rest: seq<byte>)
    requires elements != []
    ensures Elements(elements, rest) == Elements(elements, []) + rest
    decreases elements, 0
  {
    hide Spell;
    var e := elements[0];
    if |elements| > 1 {
      ElementsFront(elements[1..], rest);
      CommaFront(elements[1].before, Elements(elements[1..], []), rest);
    }
    assert AfterElement(elements, rest) == AfterElement(elements, []) + rest;
    SpellFront(e.value, e.after + AfterElement(elements, rest));
    SpellFront(e.value, e.after + AfterElement(elements, []));
    AfterFront(Spell(e.value, []), e.after, AfterElement(elements, []), rest);
  }

  lemma OpenFront(b: byte, blank: seq<byte>, inside: seq<byte>, rest: seq<byte>)
    ensures [b] + (blank + (inside + rest)) == ([b] + (blank + inside)) + rest
  {
  }

  lemma CommaFront(before: seq<byte>, others: seq<byte>, rest: seq<byte>)
    ensures [COMMA] + (before + (others + rest)) == ([COMMA] + (before + others)) + rest
  {
  }

  lemma AfterFront(value: seq<byte>, after: seq<byte>, tail: seq<byte>, rest: seq<byte>)
    ensures value + (after + (tail + rest)) == (value + (after + tail)) + rest
  {
  }

  lemma NameFront(name: seq<byte>, gap: seq<byte>, before: seq<byte>, start: seq<byte>, rest: seq<byte>)
    ensures name + (gap + ([COLON] + (before + (start + rest)))) == (name + (gap + ([COLON] + (before + start)))) + rest
  {
  }

  lemma {:induction false} PairsFront(pairs: seq<Pair>, rest: seq<byte>)
    requires pairs != []
    ensures Pairs(pairs, rest) == Pairs(pairs, []) + rest
    decreases pairs, 0
  {
    hide StringText, Spell;
    var e := pairs[0].element;
    if |pairs| > 1 {
      PairsFront(pairs[1..], rest);
      CommaFront(pairs[1].before, Pairs(pairs[1..], []), rest);
    }
    assert AfterPair(pairs, rest) == AfterPair(pairs, []) + rest;
    SpellFront(e.value, e.after + AfterPair(pairs, rest));
    SpellFront(e.value, e.after + AfterPair(pairs, []));
    AfterFront(Spell(e.value, []), e.after, AfterPair(pairs, []), rest);
    NameFront(StringText(pairs[0].name), pairs[0].gap, e.before, Spell(e.value, e.after + AfterPair(pairs, [])), rest);
  }

  // ----- Tokens stay, white space goes -----

  lemma BlankGoes(s: seq<byte>)
    requires IsBlank(s)
    ensures MinifiesTo(s, [])
  {
    BlankVanishes(s);
  }

  lemma UnitLength(u: seq<byte>, rest: seq<byte>)
    requires |u| == 6 && u[0] == BACKSLASH && u[1] == LOWER_U && Utf8.AllHex(u, 2)
    requires LiteralLength(rest) > 0
    ensures LiteralLength(u + rest) == 6 + LiteralLength(rest)
  {
    PlainBytesLength(u[2..], rest);
    assert (u + rest)[2..] == u[2..] + rest;
  }

  lemma CharLength(c: Char, rest: seq<byte>)
    requires ValidChar(c) && LiteralLength(rest) > 0
    ensures LiteralLength(CharText(c) + rest) == |CharText(c)| + LiteralLength(rest)
  {
    var t := CharText(c);
    match c {
      case Unescaped(b) => assert (t + rest)[1..] == rest;
      case Short(letter) => assert (t + rest)[2..] == rest;
      case Long(literal, cp) => LongLength(literal, cp, rest);
    }
  }

  lemma LongLength(literal: seq<byte>, cp: nat, rest: seq<byte>)
    requires Utf8.SpellsScalar(literal, 0, cp, |literal|) && LiteralLength(rest) > 0
    ensures LiteralLength(literal + rest) == |literal| + LiteralLength(rest)
  {
    hide LiteralLength, Utf8.Hex4, Utf8.SpellsUnit;
    if cp < 0x10000 {
      Utf8.UnitIsHex4(literal, 0, cp);
      UnitLength(literal, rest);
    } else {
      var first, second := literal[..6], literal[6..];
      Utf8.UnitIsHex4(literal, 0, 0xD800 + (cp - 0x10000) / 0x400);
      Utf8.UnitIsHex4(literal, 6, 0xDC00 + (cp - 0x10000) % 0x400);
      UnitLength(second, rest);
      UnitLength(first, second + rest);
      assert literal + rest == first + (second + rest);
    }
  }

  lemma FirstInFront(first: seq<byte>, others: seq<byte>, rest: seq<byte>)
    ensures first + others + [QUOTE] + rest == first + (others + [QUOTE] + rest)
  {
  }

  lemma {:induction false} CharsLength(cs: seq<Char>, rest: seq<byte>)
    requires ValidChars(cs)
    ensures LiteralLength(CharsText(cs) + [QUOTE] + rest) == |CharsText(cs)| + 1
  {
    var s := CharsText(cs) + [QUOTE] + rest;
    if cs != [] {
      hide LiteralLength, CharText, ValidChar, LenientChar;
      var others := CharsText(cs[1..]) + [QUOTE] + rest;
      CharsLength(cs[1..], rest);
      CharLength(cs[0], others);
      FirstInFront(CharText(cs[0]), CharsText(cs[1..]), rest);
    }
  }

  lemma StringStays(t: StringToken)
    requires ValidString(t)
    ensures MinifiesTo(StringText(t), StringText(t))
  {
    hide Minify.Minify, LiteralLength, CharsText;
    var q := StringText(t);
    assert q[1..] == CharsText(t.chars) + [QUOTE];
    forall rest
      ensures Minify.Minify(q + rest) == Prepend(q, Minify.Minify(rest))
    {
      CharsLength(t.chars, rest);
      LiteralStays(q, rest);
    }
  }

  lemma NumeralStays(n: Numeral)
    requires ValidNumeral(n)
    ensures MinifiesTo(NumeralText(n), NumeralText(n))
  {
    NumeralBytes(n);
    InertStays(NumeralText(n));
  }

  // ----- Values -----

  lemma {:induction false} ValueMinifies(x: Syntax)
    requires Valid(x)
    ensures MinifiesTo(Spell(x, []), Spell(Squeeze(x), []))
    decreases x, 1
  {
    hide MinifiesTo, Elements, Pairs;
    match x {
      case NullName => InertStays(TEXT_NULL); assert TEXT_NULL + [] == TEXT_NULL;
      case FalseName => InertStays(TEXT_FALSE); assert TEXT_FALSE + [] == TEXT_FALSE;
      case TrueName => InertStays(TEXT_TRUE); assert TEXT_TRUE + [] == TEXT_TRUE;
      case Numb(n) => NumeralStays(n); assert NumeralText(n) + [] == NumeralText(n);
      case Strg(t) => StringStays(t); assert StringText(t) + [] == StringText(t);
      case Arry(open, elements) =>
        if elements == [] {
          BracketsMinify(LBRACKET, open, [RBRACKET], [RBRACKET]);
        } else {
          assert ValidElement(elements[0]);
          ElementsMinify(elements);
          BracketsMinify(LBRACKET, elements[0].before, Elements(elements, []), Elements(SqueezeElements(elements), []));
        }
      case Objt(open, pairs) =>
        if pairs == [] {
          BracketsMinify(LBRACE, open, [RBRACE], [RBRACE]);
        } else {
          assert ValidPair(pairs[0]);
          PairsMinify(pairs);
          BracketsMinify(LBRACE, pairs[0].before, Pairs(pairs, []), Pairs(SqueezePairs(pairs), []));
        }
    }
  }

  /** A character that stays, white space that goes, and a text behind them. */
  lemma BracketsMinify(b: byte, blank: seq<byte>, from: seq<byte>, to: seq<byte>)
    requires IsInert(b) && IsBlank(blank)
    requires MinifiesTo(from, to) || (from == to && |from| == 1 && IsInert(from[0]))
    ensures MinifiesTo([b] + (blank + from), [b] + ([] + to))
    ensures MinifiesTo([b] + (blank + (from + [])), [b] + ([] + (to + [])))
  {
    if from == to && |from| == 1 && IsInert(from[0]) {
      InertByteStays(from[0]);
      assert from == [from[0]];
    }
    hide MinifiesTo;
    InertByteStays(b);
    BlankGoes(blank);
    Compose(blank, from, [], to);
    Compose([b], blank + from, [b], [] + to);
    assert from + [] == from && to + [] == to;
  }

  /** A value, white space that goes, and a text behind them. */
  lemma ValueThen(v: seq<byte>, v': seq<byte>, blank: seq<byte>, from: seq<byte>, to: seq<byte>)
    requires MinifiesTo(v, v') && IsBlank(blank) && MinifiesTo(from, to)
    ensures MinifiesTo(v + (blank + from), v' + ([] + to))
  {
    hide MinifiesTo;
    BlankGoes(blank);
    Compose(blank, from, [], to);
    Compose(v, blank + from, v', [] + to);
  }

  lemma {:induction false} ElementsMinify(elements: seq<Element>)
    requires elements != [] && (forall i :: 0 <= i < |elements| ==> ValidElement(elements[i]))
    ensures MinifiesTo(Elements(elements, []), Elements(SqueezeElements(elements), []))
    decreases elements, 0
  {
    hide MinifiesTo, Spell, Squeeze;
    var e, t := elements[0], SqueezeElements(elements);
    assert ValidElement(e);
    ValueMinifies(e.value);
    if |elements| == 1 {
      InertByteStays(RBRACKET);
      assert [RBRACKET] + [] == [RBRACKET];
    } else {
      assert ValidElement(elements[1]);
      ElementsMinify(elements[1..]);
      assert t[1..] == SqueezeElements(elements[1..]) && t[1].before == [];
      BracketsMinify(COMMA, elements[1].before, Elements(elements[1..], []), Elements(t[1..], []));
    }
    ValueThen(Spell(e.value, []), Spell(Squeeze(e.value), []), e.after, AfterElement(elements, []),
              AfterElement(t, []));
    SpellFront(e.value, e.after + AfterElement(elements, []));
    SpellFront(t[0].value, [] + AfterElement(t, []));
  }

  lemma {:induction false} PairsMinify(pairs: seq<Pair>)
    requires pairs != [] && (forall i :: 0 <= i < |pairs| ==> ValidPair(pairs[i]))
    ensures MinifiesTo(Pairs(pairs, []), Pairs(SqueezePairs(pairs), []))
    decreases pairs, 0
  {
    hide MinifiesTo, Spell, Squeeze, StringText, ValidString;
    var p, t := pairs[0], SqueezePairs(pairs);
    var e := p.element;
    assert ValidPair(p) && ValidElement(e);
    ValueMinifies(e.value);
    if |pairs| == 1 {
      InertByteStays(RBRACE);
      assert [RBRACE] + [] == [RBRACE];
    } else {
      assert ValidPair(pairs[1]);
      PairsMinify(pairs[1..]);
      assert t[1..] == SqueezePairs(pairs[1..]) && t[1].before == [];
      BracketsMinify(COMMA, pairs[1].before, Pairs(pairs[1..], []), Pairs(t[1..], []));
    }
    ValueThen(Spell(e.value, []), Spell(Squeeze(e.value), []), e.after, AfterPair(pairs, []), AfterPair(t, []));
    SpellFront(e.value, e.after + AfterPair(pairs, []));
    SpellFront(t[0].element.value, [] + AfterPair(t, []));
    var start := Spell(e.value, e.after + AfterPair(pairs, []));
    var start' := Spell(t[0].element.value, [] + AfterPair(t, []));
    BracketsMinify(COLON, e.before, start, start');
    StringStays(p.name);
    ValueThen(StringText(p.name), StringText(p.name), p.gap, [COLON] + (e.before + start), [COLON] + ([] + start'));
  }

  // ----- Documents -----

  function SqueezedText(e: Element): Element {
    Element([], Squeeze(e.value), [])
  }

  /** A text of the grammar minifies to its tokens alone, which are a text of the grammar again. */
  lemma TextMinifies(e: Element)
    requires ValidElement(e)
    ensures Minify.Minify(TextOf(e)) == Minified(Spell(Squeeze(e.value), []))
    ensures TextOf(SqueezedText(e)) == Spell(Squeeze(e.value), []) + [NUL]
  {
    hide MinifiesTo, Minify.Minify, Spell;
    var v, to := Spell(e.value, []), Spell(Squeeze(e.value), []);
    ValueMinifies(e.value);
    BlankGoes(e.before);
    BlankGoes(e.after);
    Compose(v, e.after, to, []);
    Compose(e.before, v + e.after, [], to + []);
    SpellFront(e.value, e.after + [NUL]);
    SpellFront(Squeeze(e.value), [] + [NUL]);
    assert TextOf(e) == (e.before + (v + e.after)) + [NUL];
    Apart(e.before + (v + e.after), [] + (to + []));
    assert [] + (to + []) == to;
  }

  lemma Apart(from: seq<byte>, to: seq<byte>)
    requires MinifiesTo(from, to)
    ensures Minify.Minify(from + [NUL]) == Minified(to)
  {
    AtTerminator([NUL]);
    assert to + [] == to;
  }

  /**
   For every text of the grammar of RFC 8259: cJSON_Minify stays inside it, and the parser, with or without
   the terminator check, accepts what is left exactly when it accepts the text, and makes the same value of it.
   */
  lemma MinifyKeepsMeaning(e: Element, requireNullTerminated: bool)
    requires ValidElement(e)
    ensures Terminated(TextOf(e)) && Minify.Minify(TextOf(e)).Minified?
    ensures var text := Minify.Minify(TextOf(e)).text + [NUL];
            && Terminated(text)
            && var before, after := ParseDocument(TextOf(e), requireNullTerminated),
                ParseDocument(text, requireNullTerminated);
               && (after.Parsed? <==> before.Parsed?)
               && (after.Parsed? ==> after.value == before.value)
  {
    hide ParseDocument, Minify.Minify, Spell, Meaning, Valid, Lenient, Squeeze, ShortNumerals;
    TextMinifies(e);
    SqueezeKeepsMeaning(e.value);
    SqueezeKeepsNumerals(e.value);
    EveryTextParses(e, requireNullTerminated);
    EveryTextParses(SqueezedText(e), requireNullTerminated);
  }

  lemma SqueezeKeepsNumerals(x: Syntax)
    ensures IsLongNumeral(Squeeze(x)) <==> IsLongNumeral(x)
    ensures x.Numb? ==> Squeeze(x) == x
  {
  }
}
