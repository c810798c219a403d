/**
 Parsing undoes printing, formatted or not, up to the nesting limit.
 */
module RoundTrip {
  import opened Bytes
  import opened JsonTree
  import opened Render
  import opened Grammar
  import Common
  import JsonNumber
  import JsonString

  predicate Blank(s: seq<byte>) {
    forall i :: 0 <= i < |s| ==> s[i] <= SPACE
  }

  lemma {:induction false} SkipBlank(blank: seq<byte>, s: seq<byte>)
    requires Blank(blank) && Ends(s) && s[0] > SPACE
    ensures Ends(blank + s) && SkipWhitespace(blank + s) == s
  {
    if blank == [] {
      assert blank + s == s;
    } else {
      assert (blank + s)[1..] == blank[1..] + s;
      SkipBlank(blank[1..], s);
    }
  }

  lemma NothingToSkip(s: seq<byte>)
    requires Ends(s) && s[0] > SPACE
    ensures SkipWhitespace(s) == s
  {
  }

  lemma BehindOne(b: byte, s: seq<byte>)
    requires Ends(s) && b != NUL
    ensures Ends([b] + s) && Behind([b] + s) == s
  {
  }

  lemma Literal(text: seq<byte>, rest: seq<byte>)
    ensures StartsWith(text + rest, text) && (text + rest)[|text|..] == rest
  {
  }

  /** A value neither starts with white space nor is it empty. */
  lemma FirstByte(v: Json, fmt: bool, d: nat)
    requires Printable(v) && Plain(v)
    ensures |Text(v, fmt, d)| > 0 && SPACE < Text(v, fmt, d)[0] < 0x80 && Text(v, fmt, d)[0] != RBRACKET
  {
    match v {
      case Arr(items) => assert Text(v, fmt, d)[0] == LBRACKET;
      case Obj(members) => assert InsideText(members, fmt, d)[0] == LBRACE;
      case Number(x) =>
        var n := x.Floor;
        assert n < 0 ==> JsonNumber.DecimalText(n)[0] == MINUS;
      case _ =>
    }
  }

  /** The first byte tells that none of the three literals begins here. */
  lemma NoLiteral(s: seq<byte>)
    requires |s| > 0 && s[0] != TEXT_NULL[0] && s[0] != TEXT_FALSE[0] && s[0] != TEXT_TRUE[0]
    ensures !StartsWith(s, TEXT_NULL) && !StartsWith(s, TEXT_FALSE) && !StartsWith(s, TEXT_TRUE)
  {
    assert |s| >= 4 ==> s[..4][0] == s[0];
    assert |s| >= 5 ==> s[..5][0] == s[0];
  }

  // ----- Strings and numbers -----

  lemma QuotedTextParses(text: seq<byte>, rest: seq<byte>)
    requires NulFree(text) && Ends(rest)
    ensures Ends(JsonString.Quoted(text) + rest)
    ensures ParseText(JsonString.Quoted(text) + rest) == Parsed(text, rest)
  {
    JsonString.QuotedParses(text, rest);
    Literal(JsonString.Quoted(text), rest);
  }

  lemma NumberParses(x: real, rest: seq<byte>, depth: nat)
    requires IsExactNumber(x) && Ends(rest) && !JsonNumber.IsNumberByte(rest[0])
    ensures Ends(JsonNumber.DecimalText(x.Floor) + rest)
    ensures ParseValue(JsonNumber.DecimalText(x.Floor) + rest, depth) == Parsed(Number(x), rest)
  {
    var text := JsonNumber.DecimalText(x.Floor);
    JsonNumber.DecimalTextReads(x.Floor, rest);
    Literal(text, rest);
    assert (text + rest)[0] == text[0];
    NoLiteral(text + rest);
  }

  lemma LiteralsParse(v: Json, rest: seq<byte>, depth: nat)
    requires v.Null? || v.False? || v.True?
    requires Ends(rest)
    ensures Ends(Text(v, true, 0) + rest)
    ensures ParseValue(Text(v, true, 0) + rest, depth) == Parsed(v, rest)
  {
    var text := Text(v, true, 0);
    Literal(text, rest);
    assert (text + rest)[0] == text[0];
    assert (text + rest)[|text + rest| - 1] == rest[|rest| - 1];
  }

  lemma StringParses(text: seq<byte>, rest: seq<byte>, depth: nat)
    requires NulFree(text) && Ends(rest)
    ensures Ends(JsonString.Quoted(text) + rest)
    ensures ParseValue(JsonString.Quoted(text) + rest, depth) == Parsed(Str(text), rest)
  {
    QuotedTextParses(text, rest);
    assert (JsonString.Quoted(text) + rest)[0] == QUOTE;
    NoLiteral(JsonString.Quoted(text) + rest);
  }

  // ----- One step of each loop of the parser -----

  function AsArray(r: Result<seq<Json>>): Result<Json> {
    if r.Failed? then Failed else Parsed(Arr(r.value), r.rest)
  }

  lemma ArrayOpens(first: seq<byte>, depth: nat)
    requires Ends(first) && first[0] > SPACE && first[0] != RBRACKET
    ensures Ends([LBRACKET] + first)
    ensures ParseValue([LBRACKET] + first, depth)
         == if depth >= NESTING_LIMIT then Failed else AsArray(ParseItems(first, depth + 1))
  {
    BehindOne(LBRACKET, first);
    NoLiteral([LBRACKET] + first);
    assert ParseValue([LBRACKET] + first, depth) == ParseArray([LBRACKET] + first, depth);
  }

  lemma EmptyArrayParses(rest: seq<byte>, depth: nat)
    requires Ends(rest)
    ensures Ends([LBRACKET, RBRACKET] + rest)
    ensures ParseValue([LBRACKET, RBRACKET] + rest, depth)
         == if depth >= NESTING_LIMIT then Failed else Parsed(Arr([]), rest)
  {
    BehindOne(RBRACKET, rest);
    BehindOne(LBRACKET, [RBRACKET] + rest);
    assert [LBRACKET, RBRACKET] + rest == [LBRACKET] + ([RBRACKET] + rest);
    var s := [LBRACKET] + ([RBRACKET] + rest);
    NoLiteral(s);
    assert ParseValue(s, depth) == ParseArray(s, depth);
    assert SkipWhitespace([RBRACKET] + rest) == [RBRACKET] + rest;
  }

  /** What parsing at depth `depth` makes of a text whose tree has height `height`. */
  function Expected<T>(value: T, rest: seq<byte>, depth: nat, height: nat): Result<T> {
    if depth + height <= NESTING_LIMIT then Parsed(value, rest) else Failed
  }

  lemma LastItem(s: seq<byte>, v: Json, rest: seq<byte>, depth: nat, height: nat)
    requires Ends(s) && Ends(rest)
    requires ParseValue(s, depth) == Expected(v, [RBRACKET] + rest, depth, height)
    ensures ParseItems(s, depth) == Expected([v], rest, depth, height)
  {
    BehindOne(RBRACKET, rest);
  }

  lemma NextItem(s: seq<byte>, v: Json, blank: seq<byte>, others: seq<byte>, vs: seq<Json>, rest: seq<byte>,
                 depth: nat, height: nat, heights: nat)
    requires Ends(s) && Blank(blank) && Ends(others) && others[0] > SPACE
    requires ParseValue(s, depth) == Expected(v, [COMMA] + (blank + others), depth, height)
    requires ParseItems(others, depth) == Expected(vs, rest, depth, heights)
    ensures ParseItems(s, depth) == Expected([v] + vs, rest, depth, Max(height, heights))
  {
    SkipBlank(blank, others);
    BehindOne(COMMA, blank + others);
  }

  // ----- Trees -----

  /**
   The printed text of `v`, followed by anything that cannot continue a number, parses to `v` and stops at its
   end.
   */
  lemma {:induction false} TextParses(v: Json, fmt: bool, d: nat, rest: seq<byte>, depth: nat)
    requires Printable(v) && Plain(v) && depth <= NESTING_LIMIT
    requires Ends(rest) && !JsonNumber.IsNumberByte(rest[0])
    ensures Ends(Text(v, fmt, d) + rest)
    ensures ParseValue(Text(v, fmt, d) + rest, depth) == Expected(v, rest, depth, Height(v))
    decreases v, 0
  {
    hide ParseValue, ItemsText, MembersText, InsideText;
    match v {
      case Null => LiteralsParse(v, rest, depth);
      case False => LiteralsParse(v, rest, depth);
      case True => LiteralsParse(v, rest, depth);
      case Number(x) => NumberParses(x, rest, depth);
      case Str(text) => StringParses(text, rest, depth);
      case Arr(items) => ArrayParses(items, fmt, d, rest, depth);
      case Obj(members) => ObjectParses(members, fmt, d, rest, depth);
    }
  }

  lemma {:induction false} ArrayParses(items: seq<Json>, fmt: bool, d: nat, rest: seq<byte>, depth: nat)
    requires forall i :: 0 <= i < |items| ==> Printable(items[i]) && Plain(items[i])
    requires Ends(rest) && depth <= NESTING_LIMIT
    ensures Ends(Text(Arr(items), fmt, d) + rest)
    ensures ParseValue(Text(Arr(items), fmt, d) + rest, depth)
         == Expected(Arr(items), rest, depth, 1 + HeightOfItems(items))
    decreases items, 2
  {
    hide ParseValue, ParseItems, SkipWhitespace, Printable, Plain, Text, ItemsText;
    var first := ItemsText(items, fmt, d + 1) + ([RBRACKET] + rest);
    ArrayTextShape(items, fmt, d, rest);
    if items == [] {
      EmptyArrayParses(rest, depth);
    } else {
      ItemsStart(items, fmt, d + 1, [RBRACKET] + rest);
      ArrayOpens(first, depth);
      if depth < NESTING_LIMIT {
        ItemsParse(items, fmt, d + 1, rest, depth + 1);
      }
    }
  }

  lemma ArrayTextShape(items: seq<Json>, fmt: bool, d: nat, rest: seq<byte>)
    requires forall i :: 0 <= i < |items| ==> Printable(items[i])
    ensures Text(Arr(items), fmt, d) + rest == [LBRACKET] + (ItemsText(items, fmt, d + 1) + ([RBRACKET] + rest))
    ensures items == [] ==> Text(Arr(items), fmt, d) + rest == [LBRACKET, RBRACKET] + rest
  {
  }

  lemma ItemsStart(items: seq<Json>, fmt: bool, d: nat, tail: seq<byte>)
    requires items != [] && forall i :: 0 <= i < |items| ==> Printable(items[i]) && Plain(items[i])
    requires tail != [] && (Ends(tail) || Ends(tail[1..]))
    ensures var s := ItemsText(items, fmt, d) + tail;
            Ends(s) && s[0] > SPACE && s[0] != RBRACKET
  {
    FirstByte(items[0], fmt, d);
    var s := ItemsText(items, fmt, d) + tail;
    assert s[0] == Text(items[0], fmt, d)[0];
    assert s[|s| - 1] == tail[|tail| - 1];
  }

  /** The text of several items: the first, a comma, perhaps a blank, the others. */
  lemma ItemsShape(items: seq<Json>, fmt: bool, d: nat, tail: seq<byte>)
    requires |items| > 1 && forall i :: 0 <= i < |items| ==> Printable(items[i])
    ensures ItemsText(items, fmt, d) + tail
         == Text(items[0], fmt, d) + ([COMMA] + (Gap(fmt) + (ItemsText(items[1..], fmt, d) + tail)))
  {
    assert ItemSeparator(fmt) == [COMMA] + Gap(fmt);
    RegroupItem(Text(items[0], fmt, d), [COMMA], Gap(fmt), ItemsText(items[1..], fmt, d), tail);
  }

  function Gap(fmt: bool): seq<byte> {
    if fmt then [SPACE] else []
  }

  lemma RegroupItem(a: seq<byte>, b: seq<byte>, c: seq<byte>, d: seq<byte>, e: seq<byte>)
    ensures (a + (b + c) + d) + e == a + (b + (c + (d + e)))
  {
  }

  lemma {:induction false} ItemsParse(items: seq<Json>, fmt: bool, d: nat, rest: seq<byte>, depth: nat)
    requires items != [] && forall i :: 0 <= i < |items| ==> Printable(items[i]) && Plain(items[i])
    requires Ends(rest) && depth <= NESTING_LIMIT
    ensures Ends(ItemsText(items, fmt, d) + ([RBRACKET] + rest))
    ensures ParseItems(ItemsText(items, fmt, d) + ([RBRACKET] + rest), depth)
         == Expected(items, rest, depth, HeightOfItems(items))
    decreases items, 1
  {
    hide ParseValue, ParseItems, SkipWhitespace, Text, Printable, Plain, Height, Expected, Gap;
    var tail := [RBRACKET] + rest;
    var text := Text(items[0], fmt, d);
    BehindOne(RBRACKET, rest);
    if |items| == 1 {
      assert items == [items[0]];
      TextParses(items[0], fmt, d, tail, depth);
      LastItem(text + tail, items[0], rest, depth, Height(items[0]));
    } else {
      var others := ItemsText(items[1..], fmt, d) + tail;
      ItemsStart(items[1..], fmt, d, tail);
      ItemsShape(items, fmt, d, tail);
      GapIsBlank(fmt);
      SkipBlank(Gap(fmt), others);
      BehindOne(COMMA, Gap(fmt) + others);
      var following := [COMMA] + (Gap(fmt) + others);
      TextParses(items[0], fmt, d, following, depth);
      ItemsParse(items[1..], fmt, d, rest, depth);
      NextItem(text + following, items[0], Gap(fmt), others, items[1..], rest, depth,
               Height(items[0]), HeightOfItems(items[1..]));
      assert items == [items[0]] + items[1..];
    }
  }

  lemma GapIsBlank(fmt: bool)
    ensures Blank(Gap(fmt))
  {
  }

  // ----- Objects -----

  function LineBreak(fmt: bool): seq<byte> {
    if fmt then [NEWLINE] else []
  }

  function KeyGap(fmt: bool): seq<byte> {
    if fmt then [TAB] else []
  }

  /** The text of the members from the first key on (behind its indentation), with `tail` behind them. */
  function FromKey(members: seq<Member>, fmt: bool, d: nat, tail: seq<byte>): seq<byte>
    requires members != [] && forall i :: 0 <= i < |members| ==> PrintableMember(members[i])
    decreases members, 1
  {
    assert PrintableMember(members[0]);
    var value := Text(members[0].value, fmt, d) + FromEnd(members, fmt, d, tail);
    JsonString.Quoted(members[0].key) + ([COLON] + (KeyGap(fmt) + value))
  }

  /** What follows the first value. */
  function FromEnd(members: seq<Member>, fmt: bool, d: nat, tail: seq<byte>): seq<byte>
    requires members != [] && forall i :: 0 <= i < |members| ==> PrintableMember(members[i])
    decreases members, 0
  {
    if |members| == 1 then
      LineBreak(fmt) + tail
    else
      [COMMA] + ((LineBreak(fmt) + Indent(fmt, d)) + FromKey(members[1..], fmt, d, tail))
  }

  lemma {:induction false} MembersShape(members: seq<Member>, fmt: bool, d: nat, tail: seq<byte>)
    requires members != [] && forall i :: 0 <= i < |members| ==> PrintableMember(members[i])
    ensures MembersText(members, fmt, d) + tail == Indent(fmt, d) + FromKey(members, fmt, d, tail)
    decreases members
  {
    var m, last := members[0], |members| == 1;
    var end := MemberEnd(fmt, last) + (MembersText(members[1..], fmt, d) + tail);
    assert end == FromEnd(members, fmt, d, tail) by {
      if last {
        assert MembersText(members[1..], fmt, d) + tail == tail;
      } else {
        MembersShape(members[1..], fmt, d, tail);
        CommaShape(fmt, Indent(fmt, d), FromKey(members[1..], fmt, d, tail));
      }
    }
    assert KeySeparator(fmt) == [COLON] + KeyGap(fmt);
    RegroupMember(Indent(fmt, d), JsonString.Quoted(m.key), [COLON], KeyGap(fmt), Text(m.value, fmt, d),
                  MemberEnd(fmt, last), MembersText(members[1..], fmt, d), tail);
  }

  lemma CommaShape(fmt: bool, indent: seq<byte>, others: seq<byte>)
    ensures MemberEnd(fmt, false) + (indent + others) == [COMMA] + ((LineBreak(fmt) + indent) + others)
  {
  }

  lemma RegroupMember(a: seq<byte>, b: seq<byte>, c: seq<byte>, d: seq<byte>, e: seq<byte>, f: seq<byte>,
                      g: seq<byte>, h: seq<byte>)
    ensures (((a + b + (c + d)) + e + f) + g) + h == a + (b + (c + (d + (e + (f + (g + h))))))
  {
  }

  function AsObject(r: Result<seq<Member>>): Result<Json> {
    if r.Failed? then Failed else Parsed(Obj(r.value), r.rest)
  }

  lemma ObjectOpens(blank: seq<byte>, first: seq<byte>, depth: nat)
    requires Blank(blank) && Ends(first) && first[0] > SPACE && first[0] != RBRACE
    ensures Ends([LBRACE] + (blank + first))
    ensures ParseValue([LBRACE] + (blank + first), depth)
         == if depth >= NESTING_LIMIT then Failed else AsObject(ParseMembers(first, depth + 1))
  {
    hide ParseText, ParseNumber, ParseMembers, ParseArray, SkipWhitespace;
    var s := [LBRACE] + (blank + first);
    SkipBlank(blank, first);
    BehindOne(LBRACE, blank + first);
    NoLiteral(s);
    assert ParseValue(s, depth) == ParseObject(s, depth);
  }

  lemma EmptyObjectParses(blank: seq<byte>, rest: seq<byte>, depth: nat)
    requires Blank(blank) && Ends(rest)
    ensures Ends([LBRACE] + (blank + ([RBRACE] + rest)))
    ensures ParseValue([LBRACE] + (blank + ([RBRACE] + rest)), depth)
         == if depth >= NESTING_LIMIT then Failed else Parsed(Obj([]), rest)
  {
    hide ParseText, ParseNumber, ParseMembers, ParseArray, SkipWhitespace;
    var s := [LBRACE] + (blank + ([RBRACE] + rest));
    BehindOne(RBRACE, rest);
    SkipBlank(blank, [RBRACE] + rest);
    BehindOne(LBRACE, blank + ([RBRACE] + rest));
    NoLiteral(s);
    assert ParseValue(s, depth) == ParseObject(s, depth);
  }

  lemma OneMember(key: seq<byte>, blank: seq<byte>, start: seq<byte>, v: Json, after: seq<byte>, depth: nat,
                  height: nat)
    requires NulFree(key) && Blank(blank) && Ends(start) && start[0] > SPACE
    requires ParseValue(start, depth) == Expected(v, after, depth, height)
    ensures Ends(JsonString.Quoted(key) + ([COLON] + (blank + start)))
    ensures ParseMember(JsonString.Quoted(key) + ([COLON] + (blank + start)), depth)
         == Expected(Member(key, v), after, depth, height)
  {
    hide ParseValue, ParseText, SkipWhitespace, JsonString.Quoted;
    SkipBlank(blank, start);
    BehindOne(COLON, blank + start);
    NothingToSkip([COLON] + (blank + start));
    QuotedTextParses(key, [COLON] + (blank + start));
  }

  lemma LastMember(s: seq<byte>, m: Member, blank: seq<byte>, rest: seq<byte>, depth: nat, height: nat)
    requires Ends(s) && Blank(blank) && Ends(rest)
    requires ParseMember(s, depth) == Expected(m, blank + ([RBRACE] + rest), depth, height)
    ensures ParseMembers(s, depth) == Expected([m], rest, depth, height)
  {
    hide ParseMember, SkipWhitespace;
    BehindOne(RBRACE, rest);
    SkipBlank(blank, [RBRACE] + rest);
  }

  lemma NextMember(s: seq<byte>, m: Member, blank: seq<byte>, others: seq<byte>, ms: seq<Member>, rest: seq<byte>,
                   depth: nat, height: nat, heights: nat)
    requires Ends(s) && Blank(blank) && Ends(others) && others[0] > SPACE
    requires ParseMember(s, depth) == Expected(m, [COMMA] + (blank + others), depth, height)
    requires ParseMembers(others, depth) == Expected(ms, rest, depth, heights)
    ensures ParseMembers(s, depth) == Expected([m] + ms, rest, depth, Max(height, heights))
  {
    hide ParseMember, SkipWhitespace;
    SkipBlank(blank, others);
    BehindOne(COMMA, blank + others);
    NothingToSkip([COMMA] + (blank + others));
  }

  /** Nothing in the text from a key on, up to a final `tail`, upsets the scanners. */
  lemma FromKeyStart(members: seq<Member>, fmt: bool, d: nat, tail: seq<byte>)
    requires members != [] && forall i :: 0 <= i < |members| ==> PrintableMember(members[i])
    requires Ends(tail)
    ensures var s := FromKey(members, fmt, d, tail); Ends(s) && s[0] == QUOTE
    ensures Ends(FromEnd(members, fmt, d, tail))
    decreases members
  {
    if |members| > 1 {
      FromKeyStart(members[1..], fmt, d, tail);
    }
  }

  lemma FirstMember(members: seq<Member>, fmt: bool, d: nat, tail: seq<byte>, depth: nat)
    requires members != []
    requires forall i :: 0 <= i < |members| ==> PrintableMember(members[i]) && Plain(members[i].value)
    requires Ends(tail)
    requires var after := FromEnd(members, fmt, d, tail);
             var start := Text(members[0].value, fmt, d) + after;
             Ends(start) && ParseValue(start, depth)
               == Expected(members[0].value, after, depth, Height(members[0].value))
    ensures Ends(FromKey(members, fmt, d, tail))
    ensures ParseMember(FromKey(members, fmt, d, tail), depth)
         == Expected(members[0], FromEnd(members, fmt, d, tail), depth, Height(members[0].value))
  {
    hide ParseValue, ParseMember, Text, FromEnd;
    var m, after := members[0], FromEnd(members, fmt, d, tail);
    FirstByte(m.value, fmt, d);
    OneMember(m.key, KeyGap(fmt), Text(m.value, fmt, d) + after, m.value, after, depth, Height(m.value));
  }

  /** From the first member on: what follows it is the end of the object or the other members. */
  lemma BehindFirstMember(members: seq<Member>, fmt: bool, d: nat, blank: seq<byte>, rest: seq<byte>, depth: nat,
                          s: seq<byte>)
    requires members != [] && (forall i :: 0 <= i < |members| ==> PrintableMember(members[i]))
    requires Blank(blank) && Ends(rest) && Ends(s)
    requires blank != [] ==> blank[0] == TAB
    requires var tail := blank + ([RBRACE] + rest);
             && ParseMember(s, depth)
                 == Expected(members[0], FromEnd(members, fmt, d, tail), depth, Height(members[0].value))
             && (|members| > 1 ==>
                   && Ends(FromKey(members[1..], fmt, d, tail))
                   && ParseMembers(FromKey(members[1..], fmt, d, tail), depth)
                   == Expected(members[1..], rest, depth, HeightOfMembers(members[1..])))
    ensures ParseMembers(s, depth) == Expected(members, rest, depth, HeightOfMembers(members))
  {
    hide ParseMembers, ParseMember, SkipWhitespace, Text, FromKey, Printable, Height, Expected;
    var m := members[0];
    if |members| == 1 {
      assert members == [m];
      Common.Regroup(LineBreak(fmt), blank, [RBRACE] + rest);
      LastMember(s, m, LineBreak(fmt) + blank, rest, depth, Height(m.value));
    } else {
      var others := FromKey(members[1..], fmt, d, blank + ([RBRACE] + rest));
      FromKeyStart(members[1..], fmt, d, blank + ([RBRACE] + rest));
      NextMember(s, m, LineBreak(fmt) + Indent(fmt, d), others, members[1..], rest, depth,
                 Height(m.value), HeightOfMembers(members[1..]));
      assert members == [m] + members[1..];
    }
  }

  lemma {:induction false} MembersParse(members: seq<Member>, fmt: bool, d: nat, blank: seq<byte>, rest: seq<byte>,
                                        depth: nat)
    requires members != []
    requires forall i :: 0 <= i < |members| ==> PrintableMember(members[i]) && Plain(members[i].value)
    requires Blank(blank) && Ends(rest) && depth <= NESTING_LIMIT
    requires blank != [] ==> blank[0] == TAB
    ensures Ends(FromKey(members, fmt, d, blank + ([RBRACE] + rest)))
    ensures ParseMembers(FromKey(members, fmt, d, blank + ([RBRACE] + rest)), depth)
         == Expected(members, rest, depth, HeightOfMembers(members))
    decreases members, 1
  {
    hide ParseValue, ParseMembers, ParseMember, SkipWhitespace, Text, FromKey, Printable, Plain, Height, Expected;
    var tail := blank + ([RBRACE] + rest);
    FromKeyStart(members, fmt, d, tail);
    TextParses(members[0].value, fmt, d, FromEnd(members, fmt, d, tail), depth);
    FirstMember(members, fmt, d, tail, depth);
    if |members| > 1 {
      MembersParse(members[1..], fmt, d, blank, rest, depth);
    }
    BehindFirstMember(members, fmt, d, blank, rest, depth, FromKey(members, fmt, d, tail));
  }

  lemma ObjectTextShape(members: seq<Member>, fmt: bool, d: nat, rest: seq<byte>)
    requires members != [] && forall i :: 0 <= i < |members| ==> PrintableMember(members[i])
    ensures Text(Obj(members), fmt, d) + rest
         == [LBRACE] + ((LineBreak(fmt) + Indent(fmt, d + 1))
                        + FromKey(members, fmt, d + 1, Indent(fmt, d) + ([RBRACE] + rest)))
  {
    var tail := Indent(fmt, d) + ([RBRACE] + rest);
    MembersShape(members, fmt, d + 1, tail);
    ObjectShape(LineBreak(fmt), MembersText(members, fmt, d + 1), Indent(fmt, d), rest);
    Common.Regroup(LineBreak(fmt), Indent(fmt, d + 1), FromKey(members, fmt, d + 1, tail));
    assert ObjectOpening(fmt) == [LBRACE] + LineBreak(fmt);
  }

  lemma EmptyObjectShape(fmt: bool, d: nat, rest: seq<byte>)
    ensures Text(Obj([]), fmt, d) + rest == [LBRACE] + ((LineBreak(fmt) + Indent(fmt, d)) + ([RBRACE] + rest))
  {
    ObjectShape(LineBreak(fmt), [], Indent(fmt, d), rest);
    assert [] + (Indent(fmt, d) + ([RBRACE] + rest)) == Indent(fmt, d) + ([RBRACE] + rest);
    Common.Regroup(LineBreak(fmt), Indent(fmt, d), [RBRACE] + rest);
    assert ObjectOpening(fmt) == [LBRACE] + LineBreak(fmt);
  }

  lemma {:induction false} ObjectParses(members: seq<Member>, fmt: bool, d: nat, rest: seq<byte>, depth: nat)
    requires forall i :: 0 <= i < |members| ==> PrintableMember(members[i]) && Plain(members[i].value)
    requires Ends(rest) && depth <= NESTING_LIMIT
    ensures Ends(Text(Obj(members), fmt, d) + rest)
    ensures ParseValue(Text(Obj(members), fmt, d) + rest, depth)
         == Expected(Obj(members), rest, depth, 1 + HeightOfMembers(members))
    decreases members, 2
  {
    hide ParseValue, ParseMembers, SkipWhitespace, FromKey;
    var blank := Indent(fmt, d);
    var tail := blank + ([RBRACE] + rest);
    if members == [] {
      EmptyObjectShape(fmt, d, rest);
      EmptyObjectParses(LineBreak(fmt) + blank, rest, depth);
    } else {
      hide Text;
      BehindOne(RBRACE, rest);
      FromKeyStart(members, fmt, d + 1, tail);
      ObjectTextShape(members, fmt, d, rest);
      ObjectOpens(LineBreak(fmt) + Indent(fmt, d + 1), FromKey(members, fmt, d + 1, tail), depth);
      if depth < NESTING_LIMIT {
        MembersParse(members, fmt, d + 1, blank, rest, depth + 1);
      }
    }
  }

  lemma ObjectShape(linebreak: seq<byte>, members: seq<byte>, blank: seq<byte>, rest: seq<byte>)
    ensures (([LBRACE] + linebreak) + members + blank + [RBRACE]) + rest
         == [LBRACE] + (linebreak + (members + (blank + ([RBRACE] + rest))))
  {
  }

  // ----- Documents -----

  /** A printed tree as the C string that is handed back. */
  function Document(v: Json, fmt: bool): (r: seq<byte>)
    requires Printable(v)
    ensures Terminated(r)
  {
    TextIsNulFree(v, fmt, 0);
    assert (Text(v, fmt, 0) + [NUL])[..|Text(v, fmt, 0)|] == Text(v, fmt, 0);
    Text(v, fmt, 0) + [NUL]
  }

  lemma DocumentStarts(v: Json, fmt: bool)
    requires Printable(v) && Plain(v)
    ensures var s := Document(v, fmt);
            Ends(s) && SkipWhitespace(s) == s && !StartsWith(s, BYTE_ORDER_MARK)
  {
    var s := Document(v, fmt);
    FirstByte(v, fmt, 0);
    assert s[0] == Text(v, fmt, 0)[0];
    assert |s| >= 3 ==> s[..3][0] == s[0];
    NothingToSkip(s);
  }

  /** cJSON_ParseWithOpts on either print of a tree: the same tree, and the end of the parse is the terminator. */
  lemma DocumentRoundTrip(v: Json, fmt: bool, requireNullTerminated: bool)
    requires Printable(v) && Plain(v)
    ensures ParseDocument(Document(v, fmt), requireNullTerminated) == Expected(v, [NUL], 0, Height(v))
  {
    hide ParseValue, SkipWhitespace, Text;
    DocumentStarts(v, fmt);
    TextParses(v, fmt, 0, [NUL], 0);
    SkipNothing();
  }

  lemma SkipNothing()
    ensures SkipWhitespace([NUL]) == [NUL]
  {
  }

  // ----- What any text parses to -----

  lemma {:induction false} ValueIsPlain(s: seq<byte>, depth: nat)
    requires Ends(s) && depth <= NESTING_LIMIT
    ensures var r := ParseValue(s, depth); r.Parsed? ==> Plain(r.value) && depth + Height(r.value) <= NESTING_LIMIT
    decreases |s|, 0
  {
    hide JsonString.ParseString, JsonNumber.ReadNumber, SkipWhitespace, ParseItems, ParseMembers;
    if !ParseValue(s, depth).Parsed? {
    } else if s[0] == LBRACKET {
      NoLiteral(s);
      if depth < NESTING_LIMIT {
        ItemsArePlain(SkipWhitespace(Behind(s)), depth + 1);
      }
    } else if s[0] == LBRACE {
      NoLiteral(s);
      if depth < NESTING_LIMIT {
        MembersArePlain(SkipWhitespace(Behind(s)), depth + 1);
      }
    }
  }

  lemma {:induction false} ItemsArePlain(s: seq<byte>, depth: nat)
    requires Ends(s) && depth <= NESTING_LIMIT
    ensures var r := ParseItems(s, depth);
            r.Parsed? ==>
              && (forall i :: 0 <= i < |r.value| ==> Plain(r.value[i]))
              && depth + HeightOfItems(r.value) <= NESTING_LIMIT
    decreases |s|, 1
  {
    hide ParseValue, SkipWhitespace;
    var r := ParseItems(s, depth);
    if r.Parsed? {
      ValueIsPlain(s, depth);
      var next := SkipWhitespace(ParseValue(s, depth).rest);
      if next[0] == COMMA {
        var following := SkipWhitespace(Behind(next));
        ItemsArePlain(following, depth);
        assert r.value[1..] == ParseItems(following, depth).value;
      }
    }
  }

  lemma {:induction false} MembersArePlain(s: seq<byte>, depth: nat)
    requires Ends(s) && depth <= NESTING_LIMIT
    ensures var r := ParseMembers(s, depth);
            r.Parsed? ==>
              && (forall i :: 0 <= i < |r.value| ==> NulFree(r.value[i].key) && Plain(r.value[i].value))
              && depth + HeightOfMembers(r.value) <= NESTING_LIMIT
    decreases |s|, 2
  {
    hide ParseMember, ParseValue, SkipWhitespace;
    var r := ParseMembers(s, depth);
    if r.Parsed? {
      MemberIsPlain(s, depth);
      var next := SkipWhitespace(ParseMember(s, depth).rest);
      if next[0] == COMMA {
        var following := SkipWhitespace(Behind(next));
        MembersArePlain(following, depth);
        assert r.value[1..] == ParseMembers(following, depth).value;
      }
    }
  }

  lemma {:induction false} MemberIsPlain(s: seq<byte>, depth: nat)
    requires Ends(s) && depth <= NESTING_LIMIT
    ensures var r := ParseMember(s, depth);
            r.Parsed? ==>
              NulFree(r.value.key) && Plain(r.value.value) && depth + Height(r.value.value) <= NESTING_LIMIT
    decreases |s|, 1
  {
    hide ParseValue, SkipWhitespace, ParseText;
    var name := ParseText(s);
    if name.Parsed? {
      var colon := SkipWhitespace(name.rest);
      if colon[0] == COLON {
        ValueIsPlain(SkipWhitespace(Behind(colon)), depth);
      }
    }
  }

  /** Whatever text is parsed, the tree holds C strings only and is nested at most 1000 deep. */
  lemma DocumentIsPlain(text: seq<byte>, requireNullTerminated: bool)
    requires Terminated(text)
    ensures var r := ParseDocument(text, requireNullTerminated);
            r.Parsed? ==> Plain(r.value) && Height(r.value) <= NESTING_LIMIT
  {
    ValueIsPlain(SkipWhitespace(SkipMark(text)), 0);
  }

  /** So a parsed tree whose numbers print exactly survives printing, either way, and parsing. */
  lemma ReparseIsStable(text: seq<byte>, requireNullTerminated: bool, fmt: bool)
    requires Terminated(text)
    requires ParseDocument(text, requireNullTerminated).Parsed?
    requires ExactNumbers(ParseDocument(text, requireNullTerminated).value)
    ensures var v := ParseDocument(text, requireNullTerminated).value;
            Printable(v) && ParseDocument(Document(v, fmt), true) == Parsed(v, [NUL])
  {
    var v := ParseDocument(text, requireNullTerminated).value;
    DocumentIsPlain(text, requireNullTerminated);
    PlainIsPrintable(v);
    DocumentRoundTrip(v, fmt, true);
  }
}
