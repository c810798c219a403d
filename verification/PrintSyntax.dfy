/**
 The print of a tree as concrete syntax: its tokens and the white space between them, said apart from the print
 functions. So every print is a text of RFC 8259 that means its tree, with the layout given here, and its strings
 are as short as the grammar allows.
 */
module PrintSyntax {
  import opened Bytes
  import opened Common
  import opened Conformance
  import opened JsonTree
  import opened Literals
  import JsonNumber
  import JsonString
  import Render
  import RoundTrip
  import Utf8

  // ----- Strings -----

  function LowerDigit(value: nat): byte
    requires value < 16
  {
    Utf8.DigitTables(value);
    Utf8.LOWER_DIGITS[value] as int
  }

  /** A byte stands for itself where it may; else by its letter if it has one, else by its code. */
  function PrintedChar(b: byte): Char {
    if b == QUOTE || b == BACKSLASH then Short(b)
    else if b == BACKSPACE then Short(LOWER_B)
    else if b == TAB then Short(LOWER_T)
    else if b == NEWLINE then Short(LOWER_N)
    else if b == FORM_FEED then Short(LOWER_F)
    else if b == CARRIAGE_RETURN then Short(LOWER_R)
    else if b < SPACE then Long([BACKSLASH, LOWER_U, DIGIT_0, DIGIT_0, LowerDigit(b / 16), LowerDigit(b % 16)], b)
    else Unescaped(b)
  }

  function PrintedChars(text: seq<byte>): (cs: seq<Char>)
    ensures |cs| == |text|
  {
    if text == [] then [] else [PrintedChar(text[0])] + PrintedChars(text[1..])
  }

  lemma CharIsPrinted(b: byte)
    ensures ValidChar(PrintedChar(b)) && CharBytes(PrintedChar(b)) == [b]
    ensures CharText(PrintedChar(b)) == JsonString.EscapeByte(b)
  {
    if b < SPACE && JsonString.EscapeLetter(b) == NUL {
      ControlIsPrinted(b);
    }
  }

  lemma ControlIsPrinted(b: byte)
    requires b < SPACE && PrintedChar(b).Long?
    ensures ValidChar(PrintedChar(b)) && CharBytes(PrintedChar(b)) == [b]
    ensures CharText(PrintedChar(b)) == JsonString.ControlEscape(b)
  {
    var literal := PrintedChar(b).literal;
    Utf8.DigitTables(b / 16);
    Utf8.DigitTables(b % 16);
    assert Utf8.IsDigitOf(literal[4], b / 16) && Utf8.IsDigitOf(literal[5], b % 16);
    Utf8.DigitTables(0);
    assert Utf8.IsDigitOf(literal[2], 0) && Utf8.IsDigitOf(literal[3], 0);
    assert b == ((0 * 16 + 0) * 16 + b / 16) * 16 + b % 16;
    assert Utf8.SpellsDigits(literal, 2, b);
    assert Utf8.EncodeUtf8(b) == [b];
  }

  lemma {:induction false} CharsArePrinted(text: seq<byte>)
    ensures ValidChars(PrintedChars(text)) && CharsBytes(PrintedChars(text)) == text
    ensures CharsText(PrintedChars(text)) == JsonString.Escape(text)
  {
    hide ValidChar, LenientChar, CharText, CharBytes, JsonString.EscapeByte, PrintedChar;
    if text != [] {
      CharIsPrinted(text[0]);
      CharsArePrinted(text[1..]);
      assert PrintedChars(text)[1..] == PrintedChars(text[1..]);
    }
  }

  function PrintedString(text: seq<byte>): StringToken {
    StringToken(PrintedChars(text), false)
  }

  lemma StringIsPrinted(text: seq<byte>)
    requires NulFree(text)
    ensures ValidString(PrintedString(text)) && StringMeaning(PrintedString(text)) == text
    ensures StringText(PrintedString(text)) == JsonString.Quoted(text)
  {
    CharsArePrinted(text);
    CStringOfNulFree(text);
  }

  // ----- As short as can be -----

  lemma CharIsShortest(c: Char)
    requires ValidChar(c)
    ensures |JsonString.Escape(CharBytes(c))| <= |CharText(c)|
  {
    match c {
      case Unescaped(b) => EscapeOne(b);
      case Short(letter) => EscapeOne(CharBytes(c)[0]);
      case Long(literal, cp) => LongIsShortest(literal, cp);
      case Digitless(_) =>
    }
  }

  lemma EscapeOne(b: byte)
    ensures JsonString.Escape([b]) == JsonString.EscapeByte(b) && |JsonString.EscapeByte(b)| <= 6
  {
    assert JsonString.Escape([b]) == JsonString.EscapeByte(b) + JsonString.Escape([]);
  }

  lemma LongIsShortest(literal: seq<byte>, cp: nat)
    requires Utf8.IsScalar(cp) && Utf8.SpellsScalar(literal, 0, cp, |literal|)
    ensures |JsonString.Escape(Utf8.EncodeUtf8(cp))| <= |literal|
  {
    hide Utf8.SpellsUnit, Utf8.EncodeUtf8;
    var s := Utf8.EncodeUtf8(cp);
    Utf8.EncodingSpells(cp);
    if |s| == 1 {
      EscapeOne(s[0]);
      assert s == [s[0]];
    } else {
      HighBytesStay(s);
    }
  }

  lemma {:induction false} HighBytesStay(s: seq<byte>)
    requires forall i :: 0 <= i < |s| ==> s[i] >= 0x80
    ensures |JsonString.Escape(s)| == |s|
  {
    if s != [] {
      HighBytesStay(s[1..]);
    }
  }

  lemma {:induction false} CharsAreShortest(cs: seq<Char>)
    requires ValidChars(cs)
    ensures |JsonString.Escape(CharsBytes(cs))| <= |CharsText(cs)|
  {
    hide ValidChar, LenientChar, CharText, CharBytes, JsonString.Escape;
    if cs == [] {
      assert JsonString.Escape([]) == [] by { EscapeNothing(); }
    } else {
      assert ValidChar(cs[0]);
      CharIsShortest(cs[0]);
      CharsAreShortest(cs[1..]);
      JsonString.EscapeConcat(CharBytes(cs[0]), CharsBytes(cs[1..]));
    }
  }

  lemma EscapeNothing()
    ensures JsonString.Escape([]) == []
  {
  }

  /** No string of section 7 that means the same is shorter than the printed one. */
  lemma PrintIsShortest(t: StringToken)
    requires ValidString(t)
    ensures |JsonString.Quoted(StringMeaning(t))| <= |StringText(t)|
  {
    hide JsonString.Escape, CharsText, CharsBytes;
    var bytes := CharsBytes(t.chars);
    var kept := CString(bytes);
    CharsAreShortest(t.chars);
    assert bytes == kept + bytes[|kept|..];
    JsonString.EscapeConcat(kept, bytes[|kept|..]);
  }

  // ----- Numbers -----

  function PrintedNumeral(n: int): Numeral {
    Numeral(n < 0, JsonNumber.Digits(if n < 0 then -n else n), None, None)
  }

  lemma {:induction false} NoLeadingZero(n: nat)
    requires n > 0
    ensures JsonNumber.Digits(n)[0] != DIGIT_0
  {
    if n >= 10 {
      NoLeadingZero(n / 10);
    }
  }

  lemma NumberIsPrinted(n: int)
    ensures ValidNumeral(PrintedNumeral(n)) && NumeralValue(PrintedNumeral(n)) == n as real
    ensures NumeralText(PrintedNumeral(n)) == JsonNumber.DecimalText(n)
  {
    var magnitude: nat := if n < 0 then -n else n;
    JsonNumber.DigitsRead(magnitude);
    if magnitude > 0 {
      NoLeadingZero(magnitude);
    }
    assert JsonNumber.DecimalText(n) + [] + [] == JsonNumber.DecimalText(n);
  }

  // ----- Trees -----

  /** When formatting, a line of its own behind one tab per level. */
  function NewLine(fmt: bool, depth: nat): seq<byte> {
    if fmt then [NEWLINE] + seq(depth, _ => TAB) else []
  }

  /** The white space behind the value of the first member. */
  function ValueEnd(members: seq<Member>, fmt: bool, depth: nat): seq<byte>
    requires depth > 0
  {
    if |members| == 1 then NewLine(fmt, depth - 1) else []
  }

  /**
   The tokens of a print. Formatted, a space follows the commas of an array, every member of an object is on a line
   of its own with a tab behind its colon, and so is the closing brace.
   */
  function Tokens(v: Json, fmt: bool, depth: nat): Syntax
    requires Printable(v) && Plain(v)
    decreases v
  {
    match v
    case Null => NullName
    case False => FalseName
    case True => TrueName
    case Number(x) => Numb(PrintedNumeral(x.Floor))
    case Str(text) => Strg(PrintedString(text))
    case Arr(items) => Arry([], ItemTokens(items, fmt, depth + 1, true))
    case Obj(members) => Objt(NewLine(fmt, depth), MemberTokens(members, fmt, depth + 1))
  }

  function ItemTokens(items: seq<Json>, fmt: bool, depth: nat, first: bool): (r: seq<Element>)
    requires forall i :: 0 <= i < |items| ==> Printable(items[i]) && Plain(items[i])
    ensures |r| == |items|
    decreases items
  {
    if items == [] then []
    else
      [Element(if fmt && !first then [SPACE] else [], Tokens(items[0], fmt, depth), [])]
      + ItemTokens(items[1..], fmt, depth, false)
  }

  function MemberTokens(members: seq<Member>, fmt: bool, depth: nat): (r: seq<Pair>)
    requires depth > 0
    requires forall i :: 0 <= i < |members| ==> PrintableMember(members[i]) && Plain(members[i].value)
    ensures |r| == |members|
    decreases members
  {
    if members == [] then []
    else
      assert PrintableMember(members[0]);
      var value := Tokens(members[0].value, fmt, depth);
      var element := Element(if fmt then [TAB] else [], value, ValueEnd(members, fmt, depth));
      [Pair(NewLine(fmt, depth), PrintedString(members[0].key), [], element)] + MemberTokens(members[1..], fmt, depth)
  }

  lemma NewLineIs(fmt: bool, depth: nat)
    ensures NewLine(fmt, depth) == RoundTrip.LineBreak(fmt) + Render.Indent(fmt, depth) && IsBlank(NewLine(fmt, depth))
  {
  }

  /** The print of a tree, with anything behind it, is the spelling of its tokens, which mean the tree. */
  lemma {:induction false} TextIsSpelled(v: Json, fmt: bool, depth: nat, rest: seq<byte>)
    requires Printable(v) && Plain(v)
    ensures Valid(Tokens(v, fmt, depth)) && Meaning(Tokens(v, fmt, depth)) == v
    ensures Spell(Tokens(v, fmt, depth), rest) == Render.Text(v, fmt, depth) + rest
    decreases v, 3
  {
    match v {
      case Number(x) => NumberIsPrinted(x.Floor);
      case Str(text) => StringIsPrinted(text);
      case Arr(items) => ArrayIsSpelled(items, fmt, depth, rest);
      case Obj(members) => ObjectIsSpelled(members, fmt, depth, rest);
      case _ =>
    }
  }

  lemma {:induction false} ArrayIsSpelled(items: seq<Json>, fmt: bool, depth: nat, rest: seq<byte>)
    requires forall i :: 0 <= i < |items| ==> Printable(items[i]) && Plain(items[i])
    ensures Valid(Tokens(Arr(items), fmt, depth)) && Meaning(Tokens(Arr(items), fmt, depth)) == Arr(items)
    ensures Spell(Tokens(Arr(items), fmt, depth), rest) == Render.Text(Arr(items), fmt, depth) + rest
    decreases items, 2
  {
    hide Render.Text, Render.ItemsText, Elements, Printable, Plain;
    RoundTrip.ArrayTextShape(items, fmt, depth, rest);
    ItemsAreSpelled(items, fmt, depth + 1, true, rest);
    if items == [] {
      assert [LBRACKET] + ([] + ([RBRACKET] + rest)) == [LBRACKET, RBRACKET] + rest;
    } else {
      var inside := Elements(ItemTokens(items, fmt, depth + 1, true), rest);
      assert [LBRACKET] + ([] + inside) == [LBRACKET] + inside;
    }
  }

  lemma {:induction false} ItemsAreSpelled(items: seq<Json>, fmt: bool, depth: nat, first: bool, rest: seq<byte>)
    requires forall i :: 0 <= i < |items| ==> Printable(items[i]) && Plain(items[i])
    ensures var t := ItemTokens(items, fmt, depth, first);
            && (forall i :: 0 <= i < |t| ==> ValidElement(t[i]) && LenientElement(t[i]))
            && Items(t) == items
            && (items != [] ==> Elements(t, rest) == Render.ItemsText(items, fmt, depth) + ([RBRACKET] + rest))
    decreases items, 1
  {
    hide Render.Text, Spell, Tokens, Printable, Plain, Meaning, Valid, Lenient;
    if items != [] {
      var t := ItemTokens(items, fmt, depth, first);
      assert t[1..] == ItemTokens(items[1..], fmt, depth, false);
      ItemsAreSpelled(items[1..], fmt, depth, false, rest);
      assert t[0].after + AfterElement(t, rest) == AfterElement(t, rest);
      TextIsSpelled(items[0], fmt, depth, AfterElement(t, rest));
      assert forall i :: 0 < i < |t| ==> t[i] == t[1..][i - 1];
      assert ValidElement(t[0]);
      assert items == [items[0]] + items[1..];
      if |items| > 1 {
        RoundTrip.ItemsShape(items, fmt, depth, [RBRACKET] + rest);
        assert t[1].before == RoundTrip.Gap(fmt);
      }
    }
  }

  lemma {:induction false} ObjectIsSpelled(members: seq<Member>, fmt: bool, depth: nat, rest: seq<byte>)
    requires forall i :: 0 <= i < |members| ==> PrintableMember(members[i]) && Plain(members[i].value)
    requires Printable(Obj(members)) && Plain(Obj(members))
    ensures Valid(Tokens(Obj(members), fmt, depth)) && Meaning(Tokens(Obj(members), fmt, depth)) == Obj(members)
    ensures Spell(Tokens(Obj(members), fmt, depth), rest) == Render.Text(Obj(members), fmt, depth) + rest
    decreases members, 2
  {
    hide Render.Text, Pairs, NewLine, RoundTrip.FromKey, Printable, Plain, MemberTokens, Members;
    MembersAreSpelled(members, fmt, depth + 1, rest);
    NewLineIs(fmt, depth);
    ObjectSpelling(members, fmt, depth, rest);
  }

  lemma ObjectSpelling(members: seq<Member>, fmt: bool, depth: nat, rest: seq<byte>)
    requires forall i :: 0 <= i < |members| ==> PrintableMember(members[i]) && Plain(members[i].value)
    requires members != [] ==>
               Pairs(MemberTokens(members, fmt, depth + 1), rest)
               == RoundTrip.FromKey(members, fmt, depth + 1, Render.Indent(fmt, depth) + ([RBRACE] + rest))
    ensures Spell(Objt(NewLine(fmt, depth), MemberTokens(members, fmt, depth + 1)), rest)
         == Render.Text(Obj(members), fmt, depth) + rest
  {
    hide Render.Text, Pairs, NewLine, RoundTrip.FromKey, Printable, Plain, Tokens, Valid, Lenient, Meaning;
    hide MemberTokens, IsBlank, LenientBlank, Render.Indent, RoundTrip.LineBreak, Elements, PrintedString;
    NewLineIs(fmt, depth);
    NewLineIs(fmt, depth + 1);
    if members == [] {
      RoundTrip.EmptyObjectShape(fmt, depth, rest);
    } else {
      FirstPair(members, fmt, depth + 1);
      RoundTrip.ObjectTextShape(members, fmt, depth, rest);
    }
  }

  lemma FirstPair(members: seq<Member>, fmt: bool, depth: nat)
    requires depth > 0 && members != []
    requires forall i :: 0 <= i < |members| ==> PrintableMember(members[i]) && Plain(members[i].value)
    ensures var t := MemberTokens(members, fmt, depth);
            var m := members[0];
            var tab := if fmt then [TAB] else [];
            && PrintableMember(m)
            && t[0].before == NewLine(fmt, depth) && t[0].name == PrintedString(m.key) && t[0].gap == []
            && t[0].element == Element(tab, Tokens(m.value, fmt, depth), ValueEnd(members, fmt, depth))
            && t[1..] == MemberTokens(members[1..], fmt, depth)
  {
    hide Tokens, NewLine, PrintedString, Printable, Plain;
    assert PrintableMember(members[0]);
  }

  lemma FirstPairIsValid(members: seq<Member>, fmt: bool, depth: nat)
    requires depth > 0 && members != []
    requires forall i :: 0 <= i < |members| ==> PrintableMember(members[i]) && Plain(members[i].value)
    requires PrintableMember(members[0]) && Valid(Tokens(members[0].value, fmt, depth))
    ensures ValidPair(MemberTokens(members, fmt, depth)[0])
  {
    hide Tokens, NewLine, PrintedString, Printable, Plain, Valid, Lenient, ValidString, LenientString, MemberTokens;
    hide IsBlank, LenientBlank, Render.Indent, RoundTrip.LineBreak;
    FirstPair(members, fmt, depth);
    NewLineIs(fmt, depth);
    NewLineIs(fmt, depth - 1);
    TabIsBlank(fmt);
    StringIsPrinted(members[0].key);
  }

  lemma {:induction false} MembersAreSpelled(members: seq<Member>, fmt: bool, depth: nat, rest: seq<byte>)
    requires depth > 0
    requires forall i :: 0 <= i < |members| ==> PrintableMember(members[i]) && Plain(members[i].value)
    ensures var t := MemberTokens(members, fmt, depth);
            && (forall i :: 0 <= i < |t| ==> ValidPair(t[i]) && LenientPair(t[i]))
            && Members(t) == members
            && (members != [] ==>
                  Pairs(t, rest)
                  == RoundTrip.FromKey(members, fmt, depth, Render.Indent(fmt, depth - 1) + ([RBRACE] + rest)))
    decreases members, 1
  {
    hide Render.Text, Spell, Tokens, Printable, Plain, Meaning, Valid, Lenient, NewLine, ValidPair, LenientPair;
    hide StringText, StringMeaning, PrintedString, MemberTokens, Pairs, RoundTrip.FromKey, RoundTrip.FromEnd;
    var t := MemberTokens(members, fmt, depth);
    if members != [] {
      var m, tail := members[0], Render.Indent(fmt, depth - 1) + ([RBRACE] + rest);
      FirstPair(members, fmt, depth);
      MembersAreSpelled(members[1..], fmt, depth, rest);
      EndIsSpelled(members, fmt, depth, rest);
      TextIsSpelled(m.value, fmt, depth, RoundTrip.FromEnd(members, fmt, depth, tail));
      FirstPairIsValid(members, fmt, depth);
      FirstPairSpells(members, fmt, depth, rest);
      assert forall i :: 0 < i < |t| ==> t[i] == t[1..][i - 1];
      StringIsPrinted(m.key);
      assert members == [m] + members[1..];
    }
  }

  lemma TabIsBlank(fmt: bool)
    ensures IsBlank(if fmt then [TAB] else []) && IsBlank([])
  {
  }

  /** What follows a member's value. */
  lemma EndIsSpelled(members: seq<Member>, fmt: bool, depth: nat, rest: seq<byte>)
    requires depth > 0 && members != []
    requires forall i :: 0 <= i < |members| ==> PrintableMember(members[i]) && Plain(members[i].value)
    requires var tail := Render.Indent(fmt, depth - 1) + ([RBRACE] + rest);
             |members| > 1 ==>
               Pairs(MemberTokens(members[1..], fmt, depth), rest) == RoundTrip.FromKey(members[1..], fmt, depth, tail)
    ensures var t, tail := MemberTokens(members, fmt, depth), Render.Indent(fmt, depth - 1) + ([RBRACE] + rest);
            t[0].element.after + AfterPair(t, rest) == RoundTrip.FromEnd(members, fmt, depth, tail)
  {
    hide Render.Text, Tokens, NewLine, RoundTrip.FromKey, Pairs, MemberTokens, Printable, Plain, Render.Indent;
    hide PrintedString;
    NewLineIs(fmt, depth);
    NewLineIs(fmt, depth - 1);
    FirstPair(members, fmt, depth);
    if |members| > 1 {
      FirstPair(members[1..], fmt, depth);
    }
  }

  /** A member's name, colon and value, and what follows. */
  lemma FirstPairSpells(members: seq<Member>, fmt: bool, depth: nat, rest: seq<byte>)
    requires depth > 0 && members != []
    requires forall i :: 0 <= i < |members| ==> PrintableMember(members[i]) && Plain(members[i].value)
    requires var t, tail := MemberTokens(members, fmt, depth), Render.Indent(fmt, depth - 1) + ([RBRACE] + rest);
             && PrintableMember(members[0])
             && t[0].element.after + AfterPair(t, rest) == RoundTrip.FromEnd(members, fmt, depth, tail)
             && Spell(Tokens(members[0].value, fmt, depth), RoundTrip.FromEnd(members, fmt, depth, tail))
                == Render.Text(members[0].value, fmt, depth) + RoundTrip.FromEnd(members, fmt, depth, tail)
    ensures Pairs(MemberTokens(members, fmt, depth), rest)
         == RoundTrip.FromKey(members, fmt, depth, Render.Indent(fmt, depth - 1) + ([RBRACE] + rest))
  {
    hide Render.Text, Spell, Tokens, Printable, Plain, NewLine, StringText, PrintedString, MemberTokens;
    hide RoundTrip.FromEnd, Render.Indent;
    FirstPair(members, fmt, depth);
    StringIsPrinted(members[0].key);
    var value := Render.Text(members[0].value, fmt, depth)
      + RoundTrip.FromEnd(members, fmt, depth, Render.Indent(fmt, depth - 1) + ([RBRACE] + rest));
    assert [] + ([COLON] + (RoundTrip.KeyGap(fmt) + value)) == [COLON] + (RoundTrip.KeyGap(fmt) + value);
  }

  /** A raw text is printed as it stands, the only item of an array for example. */
  lemma RawIsVerbatim(text: seq<byte>, fmt: bool)
    requires NulFree(text)
    ensures Printable(Arr([Raw(text)])) && Render.Text(Arr([Raw(text)]), fmt, 0) == [LBRACKET] + text + [RBRACKET]
  {
    assert Render.ItemsText([Raw(text)], fmt, 1) == Render.Text(Raw(text), fmt, 1);
  }

  /** Both prints of a tree are texts of RFC 8259 that mean the tree. */
  lemma PrintIsGrammar(v: Json, fmt: bool)
    requires Printable(v) && Plain(v)
    ensures var e := Element([], Tokens(v, fmt, 0), []);
            ValidElement(e) && Meaning(e.value) == v && TextOf(e) == RoundTrip.Document(v, fmt)
  {
    hide Tokens, Spell, Meaning, Valid, Lenient, Printable, Plain, Render.Text;
    TextIsSpelled(v, fmt, 0, [] + [NUL]);
    assert [] + [NUL] == [NUL];
  }
}
