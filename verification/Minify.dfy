/**
 cJSON_Minify: removing white space and comments from a text, in place.
 */
module Minify {
  import opened Bytes
  import opened JsonTree
  import opened Render
  import JsonNumber
  import JsonString
  import RoundTrip
  import Utf8

  /** The text left over, or Overrun when an unclosed string or comment makes the scan pass the terminator. */
  datatype Outcome = Overrun | Minified(text: seq<byte>)

  function Prepend(front: seq<byte>, r: Outcome): Outcome {
    if r.Minified? then Minified(front + r.text) else Overrun
  }

  predicate IsSpace(b: byte) {
    b == SPACE || b == TAB || b == CARRIAGE_RETURN || b == NEWLINE
  }

  /** The end of a double-slash comment: the line break or the terminator. */
  function LineEnd(s: seq<byte>): (r: seq<byte>)
    ensures |r| <= |s|
    ensures |s| > 0 && s[0] == SLASH ==> |r| < |s|
  {
    if s == [] || s[0] == NUL || s[0] == NEWLINE then s else LineEnd(s[1..])
  }

  /** What follows a block comment; nothing when it is not closed. */
  function CommentEnd(s: seq<byte>): (r: seq<byte>)
    ensures |r| <= |s|
    ensures |s| > 1 && s[0] == SLASH ==> |r| < |s|
  {
    if |s| < 2 || s[0] == NUL then []
    else if s[0] == ASTERISK && s[1] == SLASH then s[2..]
    else CommentEnd(s[1..])
  }

  /** The length of the rest of a string literal up to and including its closing quote, or 0 when it is not closed. */
  function LiteralLength(s: seq<byte>): (n: nat)
    ensures n <= |s|
  {
    if s == [] || s[0] == NUL then 0
    else if s[0] == QUOTE then 1
    else if s[0] == BACKSLASH then
      if |s| < 2 || s[1] == NUL || LiteralLength(s[2..]) == 0 then 0 else 2 + LiteralLength(s[2..])
    else
      if LiteralLength(s[1..]) == 0 then 0 else 1 + LiteralLength(s[1..])
  }

  /** Minifying what is left of a text; the terminator ends it. */
  function Minify(s: seq<byte>): Outcome
    decreases |s|
  {
    if s == [] then Overrun
    else if s[0] == NUL then Minified([])
    else if IsSpace(s[0]) then Minify(s[1..])
    else if s[0] == SLASH && |s| > 1 && s[1] == SLASH then Minify(LineEnd(s))
    else if s[0] == SLASH && |s| > 1 && s[1] == ASTERISK then Minify(CommentEnd(s))
    else if s[0] == QUOTE then
      var n := LiteralLength(s[1..]);
      if n == 0 then Overrun else Prepend(s[..1 + n], Minify(s[1 + n..]))
    else Prepend([s[0]], Minify(s[1..]))
  }

  // ----- The loop -----

  /**
   cJSON_Minify. `into` never gets ahead of the reading position, so every byte is read before it is overwritten.
   */
  method MinifyInPlace(json: array<byte>)
    requires Minify(json[..]).Minified?
    modifies json
    ensures var text := Minify(old(json[..])).text;
            |text| < json.Length && json[..|text| + 1] == text + [NUL]
  {
    hide Minify;
    ghost var original := json[..];
    ghost var whole := Minify(original);
    var read, into := 0, 0;
    assert original[0..] == original && json[0..] == original;
    PrependNothing(whole);
    NotEmpty(original);
    while json[read] != NUL
      invariant into <= read < json.Length
      invariant json[read..] == original[read..]
      invariant whole == Prepend(json[..into], Minify(original[read..]))
      decreases json.Length - read
    {
      ghost var written, was := json[..into], json[..];
      assert was[read..] == original[read..];
      ghost var before := read;
      ghost var piece;
      read, into, piece := MinifyStep(json, read, into);
      assert was[read..] == was[before..][read - before..] == original[before..][read - before..] == original[read..];
      PrependTwice(written, piece, Minify(original[read..]));
    }
    assert original[read..][0] == NUL;
    AtTerminator(original[read..]);
    ghost var text := json[..into];
    json[into] := NUL;
    assert whole == Minified(text + []) && text + [] == text;
    assert json[..into + 1] == text + [NUL];
  }

  lemma NotEmpty(s: seq<byte>)
    requires Minify(s).Minified?
    ensures s != []
  {
  }

  lemma AtTerminator(s: seq<byte>)
    requires |s| > 0 && s[0] == NUL
    ensures Minify(s) == Minified([])
  {
  }

  /** One turn of the loop; what it writes is the part of the result that the bytes it reads stand for. */
  method MinifyStep(json: array<byte>, at: nat, into: nat) returns (read: nat, next: nat, ghost piece: seq<byte>)
    requires into <= at < json.Length && json[at] != NUL && Minify(json[at..]).Minified?
    modifies json
    ensures at < read < json.Length && into <= next <= read
    ensures json[read..] == old(json[read..])
    ensures json[..next] == old(json[..into]) + piece
    ensures Minify(old(json[at..])) == Prepend(piece, Minify(old(json[read..])))
  {
    hide Minify, LiteralLength, LineEnd, CommentEnd;
    var c := json[at];
    Step(json[at..]);
    assert json[at..][1] == json[at + 1];
    next, piece := into, [];
    assert json[..into] == json[..into] + [];
    if IsSpace(c) {
      read := at + 1;
      assert json[at..][1..] == json[read..];
    } else if c == SLASH && json[at + 1] == SLASH {
      read := SkipLine(json, at);
    } else if c == SLASH && json[at + 1] == ASTERISK {
      read := SkipComment(json, at);
    } else if c == QUOTE {
      assert json[at..][1..] == json[at + 1..];
      read, next := CopyLiteral(json, at, into);
      piece := old(json[at..read]);
      assert old(json[at..])[..read - at] == piece;
      assert old(json[at..])[read - at..] == old(json[read..]);
    } else {
      assert json[at..][1..] == json[at + 1..];
      ghost var source := json[..];
      read, next := CopyByte(json, at, into, source, at, json[..into]);
      piece := [c];
      assert source[at..read] == piece && source[read..] == old(json[read..]);
    }
  }

  /** The cases of Minify, one piece of output each. */
  lemma Step(s: seq<byte>)
    requires |s| > 0 && s[0] != NUL && Minify(s).Minified?
    ensures |s| > 1
    ensures IsSpace(s[0]) ==> s[1..] != [] && Minify(s) == Prepend([], Minify(s[1..]))
    ensures s[0] == SLASH && s[1] == SLASH ==> LineEnd(s) != [] && Minify(s) == Prepend([], Minify(LineEnd(s)))
    ensures s[0] == SLASH && s[1] == ASTERISK ==> CommentEnd(s) != [] && Minify(s) == Prepend([], Minify(CommentEnd(s)))
    ensures s[0] == QUOTE ==>
              var n := LiteralLength(s[1..]);
              0 < n && 1 + n < |s| && Minify(s) == Prepend(s[..1 + n], Minify(s[1 + n..]))
    ensures !IsSpace(s[0]) && s[0] != QUOTE && !(s[0] == SLASH && (s[1] == SLASH || s[1] == ASTERISK)) ==>
              Minify(s) == Prepend([s[0]], Minify(s[1..]))
  {
    PrependNothing(Minify(s));
  }

  lemma PrependNothing(r: Outcome)
    ensures Prepend([], r) == r
  {
    if r.Minified? {
      assert [] + r.text == r.text;
    }
  }

  lemma PrependTwice(a: seq<byte>, b: seq<byte>, r: Outcome)
    ensures Prepend(a, Prepend(b, r)) == Prepend(a + b, r)
  {
    if r.Minified? {
      assert a + (b + r.text) == a + b + r.text;
    }
  }

  /** Over a double-slash comment. */
  method SkipLine(json: array<byte>, at: nat) returns (read: nat)
    requires at < json.Length && LineEnd(json[at..]) != []
    ensures at <= read < json.Length && json[read..] == LineEnd(json[at..])
  {
    read := at;
    while json[read] != NUL && json[read] != NEWLINE
      invariant at <= read < json.Length
      invariant LineEnd(json[read..]) == LineEnd(json[at..])
      decreases json.Length - read
    {
      assert json[read..][1..] == json[read + 1..];
      read := read + 1;
    }
  }

  /** Over a block comment. */
  method SkipComment(json: array<byte>, at: nat) returns (read: nat)
    requires at < json.Length && CommentEnd(json[at..]) != []
    ensures at <= read < json.Length && json[read..] == CommentEnd(json[at..])
  {
    read := at;
    while json[read] != NUL && !(json[read] == ASTERISK && json[read + 1] == SLASH)
      invariant at <= read && read + 1 < json.Length
      invariant CommentEnd(json[read..]) == CommentEnd(json[at..])
      decreases json.Length - read
    {
      assert json[read..][1..] == json[read + 1..];
      read := read + 1;
    }
    assert json[read..][2..] == json[read + 2..];
    read := read + 2;
  }

  /** A string literal: copied up to its closing quote, escape sequences two bytes at a time. */
  method CopyLiteral(json: array<byte>, at: nat, into: nat) returns (read: nat, next: nat)
    requires into <= at < json.Length && json[at] == QUOTE && LiteralLength(json[at + 1..]) > 0
    modifies json
    ensures read == at + 1 + LiteralLength(old(json[at + 1..])) <= json.Length
    ensures next == into + (read - at)
    ensures json[..next] == old(json[..into]) + old(json[at..read])
    ensures json[read..] == old(json[read..])
  {
    hide LiteralLength;
    ghost var source, head := json[..], json[..into];
    ghost var length := LiteralLength(json[at + 1..]);
    assert source[at + 1..] == json[at + 1..];
    read, next := CopyByte(json, at, into, source, at, head);
    while json[read] != NUL && json[read] != QUOTE
      invariant at < read < json.Length && next == into + (read - at)
      invariant json[..next] == head + source[at..read]
      invariant json[read..] == source[read..]
      invariant LiteralLength(source[read..]) > 0 && at + 1 + length == read + LiteralLength(source[read..])
      decreases json.Length - read
    {
      LiteralStep(source, read);
      read, next := CopyUnit(json, read, next, source, at, head);
    }
    LiteralCloses(source, read);
    read, next := CopyByte(json, read, next, source, at, head);
    assert source[at..read] == old(json[at..read]);
  }

  lemma LiteralStep(s: seq<byte>, i: nat)
    requires i < |s| && s[i] != NUL && s[i] != QUOTE && LiteralLength(s[i..]) > 0
    ensures s[i] != BACKSLASH ==>
        i + 1 < |s| && LiteralLength(s[i + 1..]) > 0 && LiteralLength(s[i..]) == 1 + LiteralLength(s[i + 1..])
    ensures s[i] == BACKSLASH ==>
        i + 2 < |s| && LiteralLength(s[i + 2..]) > 0 && LiteralLength(s[i..]) == 2 + LiteralLength(s[i + 2..])
  {
    assert s[i..][1..] == s[i + 1..];
    if s[i] == BACKSLASH {
      assert s[i..][2..] == s[i + 2..];
    }
  }

  lemma LiteralCloses(s: seq<byte>, i: nat)
    requires i < |s| && (s[i] == NUL || s[i] == QUOTE) && LiteralLength(s[i..]) > 0
    ensures s[i] == QUOTE && LiteralLength(s[i..]) == 1
  {
  }

  /** One byte moved down, behind `head` and the bytes of `source` from `start` on that were moved before. */
  method CopyByte(json: array<byte>, at: nat, into: nat, ghost source: seq<byte>, ghost start: nat,
                  ghost head: seq<byte>)
    returns (read: nat, next: nat)
    requires into <= at < json.Length == |source| && start <= at
    requires json[at..] == source[at..]
    requires json[..into] == head + source[start..at]
    modifies json
    ensures read == at + 1 && next == into + 1
    ensures json[..next] == head + source[start..read]
    ensures json[read..] == source[read..]
  {
    assert json[at] == source[at..][0] == source[at];
    json[into] := json[at];
    read, next := at + 1, into + 1;
    assert json[read..] == old(json[at..])[1..] == source[at..][1..];
    assert source[start..read] == source[start..at] + [source[at]];
  }

  /** A character of a literal: one byte, or a backslash with the byte behind it. */
  method CopyUnit(json: array<byte>, at: nat, into: nat, ghost source: seq<byte>, ghost start: nat,
                  ghost head: seq<byte>)
    returns (read: nat, next: nat)
    requires into <= at < json.Length == |source| && start <= at
    requires source[at] == BACKSLASH ==> at + 1 < |source|
    requires json[at..] == source[at..]
    requires json[..into] == head + source[start..at]
    modifies json
    ensures read == (if source[at] == BACKSLASH then at + 2 else at + 1) && next == into + (read - at)
    ensures json[..next] == head + source[start..read]
    ensures json[read..] == source[read..]
  {
    assert json[at] == source[at..][0] == source[at];
    read, next := at, into;
    if json[at] == BACKSLASH {
      read, next := CopyByte(json, read, next, source, start, head);
    }
    read, next := CopyByte(json, read, next, source, start, head);
  }

  // ----- Minifying a formatted print -----

  /** Wherever it stands, `from` is minified to `to`, and the scan goes on right behind it. */
  ghost predicate MinifiesTo(from: seq<byte>, to: seq<byte>) {
    forall rest :: Minify(from + rest) == Prepend(to, Minify(rest))
  }

  lemma Compose(a: seq<byte>, b: seq<byte>, a': seq<byte>, b': seq<byte>)
    requires MinifiesTo(a, a') && MinifiesTo(b, b')
    ensures MinifiesTo(a + b, a' + b')
  {
    hide Minify;
    forall rest
      ensures Minify(a + b + rest) == Prepend(a' + b', Minify(rest))
    {
      assert a + b + rest == a + (b + rest);
      PrependTwice(a', b', Minify(rest));
    }
  }

  lemma Nothing()
    ensures MinifiesTo([], [])
  {
    forall rest
      ensures Minify([] + rest) == Prepend([], Minify(rest))
    {
      assert [] + rest == rest;
      PrependNothing(Minify(rest));
    }
  }

  /** The characters that stand for themselves. */
  predicate IsInert(b: byte) {
    b != NUL && !IsSpace(b) && b != SLASH && b != QUOTE
  }

  lemma {:induction false} InertStays(s: seq<byte>)
    requires forall i :: 0 <= i < |s| ==> IsInert(s[i])
    ensures MinifiesTo(s, s)
  {
    if s == [] {
      Nothing();
    } else {
      InertByteStays(s[0]);
      InertStays(s[1..]);
      Compose([s[0]], s[1..], [s[0]], s[1..]);
      assert [s[0]] + s[1..] == s;
    }
  }

  lemma InertByteStays(b: byte)
    requires IsInert(b)
    ensures MinifiesTo([b], [b])
  {
    forall rest
      ensures Minify([b] + rest) == Prepend([b], Minify(rest))
    {
      assert ([b] + rest)[1..] == rest;
    }
  }

  lemma {:induction false} BlankVanishes(s: seq<byte>)
    requires forall i :: 0 <= i < |s| ==> IsSpace(s[i])
    ensures MinifiesTo(s, [])
  {
    if s == [] {
      Nothing();
    } else {
      BlankVanishes(s[1..]);
      forall rest
        ensures Minify(s + rest) == Prepend([], Minify(rest))
      {
        assert (s + rest)[1..] == s[1..] + rest;
      }
    }
  }

  lemma {:induction false} EscapedLength(text: seq<byte>, rest: seq<byte>)
    requires NulFree(text)
    ensures LiteralLength(JsonString.Escape(text) + [QUOTE] + rest) == |JsonString.Escape(text)| + 1
  {
    var s := JsonString.Escape(text) + [QUOTE] + rest;
    if text != [] {
      var e := JsonString.EscapeByte(text[0]);
      var others := JsonString.Escape(text[1..]) + [QUOTE] + rest;
      EscapedLength(text[1..], rest);
      assert s == e + others;
      EscapedByteLength(text[0], others);
    }
  }

  lemma EscapedByteLength(b: byte, rest: seq<byte>)
    requires b != NUL && LiteralLength(rest) > 0
    ensures LiteralLength(JsonString.EscapeByte(b) + rest) == |JsonString.EscapeByte(b)| + LiteralLength(rest)
  {
    var e := JsonString.EscapeByte(b);
    if |e| == 1 {
      assert (e + rest)[1..] == rest;
    } else if |e| == 2 {
      assert (e + rest)[2..] == rest;
    } else {
      PlainBytesLength(e[2..], rest);
      assert (e + rest)[2..] == e[2..] + rest;
    }
  }

  lemma {:induction false} PlainBytesLength(s: seq<byte>, rest: seq<byte>)
    requires forall i :: 0 <= i < |s| ==> Utf8.IsHexDigit(s[i])
    requires LiteralLength(rest) > 0
    ensures LiteralLength(s + rest) == |s| + LiteralLength(rest)
  {
    if s == [] {
      assert s + rest == rest;
    } else {
      assert (s + rest)[1..] == s[1..] + rest;
      PlainBytesLength(s[1..], rest);
    }
  }

  /** A quoted literal at the front of a text is copied. */
  lemma LiteralStays(q: seq<byte>, rest: seq<byte>)
    requires |q| > 1 && q[0] == QUOTE && LiteralLength(q[1..] + rest) == |q| - 1
    ensures Minify(q + rest) == Prepend(q, Minify(rest))
  {
    hide LiteralLength;
    var s := q + rest;
    assert s[1..] == q[1..] + rest;
    assert s[..|q|] == q && s[|q|..] == rest;
  }

  lemma QuotedStays(text: seq<byte>)
    requires NulFree(text)
    ensures MinifiesTo(JsonString.Quoted(text), JsonString.Quoted(text))
  {
    hide Minify, LiteralLength, JsonString.Escape;
    var q := JsonString.Quoted(text);
    assert q[1..] == JsonString.Escape(text) + [QUOTE];
    forall rest
      ensures Minify(q + rest) == Prepend(q, Minify(rest))
    {
      EscapedLength(text, rest);
      LiteralStays(q, rest);
    }
  }

  /** Minifying turns either print of a tree without Raw items into its unformatted print, byte for byte. */
  lemma {:induction false} FormattingVanishes(v: Json, fmt: bool, d: nat, e: nat)
    requires Printable(v) && Plain(v)
    ensures MinifiesTo(Text(v, fmt, d), Text(v, false, e))
    decreases v, 0
  {
    match v {
      case Null => InertStays(TEXT_NULL);
      case False => InertStays(TEXT_FALSE);
      case True => InertStays(TEXT_TRUE);
      case Number(x) =>
        JsonNumber.DecimalTextIsNumber(x.Floor);
        InertStays(JsonNumber.DecimalText(x.Floor));
      case Str(text) => QuotedStays(text);
      case Arr(items) =>
        ItemsFormattingVanishes(items, fmt, d + 1, e + 1);
        InertStays([LBRACKET]);
        InertStays([RBRACKET]);
        Compose([LBRACKET], ItemsText(items, fmt, d + 1), [LBRACKET], ItemsText(items, false, e + 1));
        Compose([LBRACKET] + ItemsText(items, fmt, d + 1), [RBRACKET], [LBRACKET] + ItemsText(items, false, e + 1),
                [RBRACKET]);
      case Obj(members) =>
        ObjectFormattingVanishes(members, fmt, d, e);
    }
  }

  lemma {:induction false} ItemsFormattingVanishes(items: seq<Json>, fmt: bool, d: nat, e: nat)
    requires forall i :: 0 <= i < |items| ==> Printable(items[i]) && Plain(items[i])
    ensures MinifiesTo(ItemsText(items, fmt, d), ItemsText(items, false, e))
    decreases items, 1
  {
    hide MinifiesTo, Text;
    if items == [] {
      Nothing();
    } else {
      var first, first' := Text(items[0], fmt, d), Text(items[0], false, e);
      FormattingVanishes(items[0], fmt, d, e);
      if |items| > 1 {
        ItemsFormattingVanishes(items[1..], fmt, d, e);
        CommaStays(fmt);
        Compose(first, ItemSeparator(fmt), first', ItemSeparator(false));
        Compose(first + ItemSeparator(fmt), ItemsText(items[1..], fmt, d),
                first' + ItemSeparator(false), ItemsText(items[1..], false, e));
      }
    }
  }

  /** A character followed by blanks. */
  lemma InertThenBlank(b: byte, blank: seq<byte>)
    requires IsInert(b) && forall i :: 0 <= i < |blank| ==> IsSpace(blank[i])
    ensures MinifiesTo([b] + blank, [b])
  {
    InertByteStays(b);
    BlankVanishes(blank);
    Compose([b], blank, [b], []);
    assert [b] + [] == [b];
  }

  lemma CommaStays(fmt: bool)
    ensures MinifiesTo(ItemSeparator(fmt), ItemSeparator(false))
  {
    var blank := if fmt then [SPACE] else [];
    InertThenBlank(COMMA, blank);
    assert [COMMA] + blank == ItemSeparator(fmt);
  }

  lemma {:induction false} ObjectFormattingVanishes(members: seq<Member>, fmt: bool, d: nat, e: nat)
    requires forall i :: 0 <= i < |members| ==> PrintableMember(members[i]) && Plain(members[i].value)
    ensures MinifiesTo(Text(Obj(members), fmt, d), Text(Obj(members), false, e))
    decreases members, 2
  {
    hide MinifiesTo;
    MembersFormattingVanishes(members, fmt, d + 1, e + 1);
    var blank := if fmt then [NEWLINE] else [];
    InertThenBlank(LBRACE, blank);
    assert [LBRACE] + blank == ObjectOpening(fmt);
    BlankVanishes(Indent(fmt, d));
    InertByteStays(RBRACE);
    Compose(ObjectOpening(fmt), MembersText(members, fmt, d + 1), ObjectOpening(false),
            MembersText(members, false, e + 1));
    Compose(InsideText(members, fmt, d), Indent(fmt, d), InsideText(members, false, e), Indent(false, e));
    Compose(InsideText(members, fmt, d) + Indent(fmt, d), [RBRACE], InsideText(members, false, e) + Indent(false, e),
            [RBRACE]);
  }

  lemma {:induction false} MembersFormattingVanishes(members: seq<Member>, fmt: bool, d: nat, e: nat)
    requires forall i :: 0 <= i < |members| ==> PrintableMember(members[i]) && Plain(members[i].value)
    ensures MinifiesTo(MembersText(members, fmt, d), MembersText(members, false, e))
    decreases members, 1
  {
    hide MinifiesTo, MemberText;
    if members == [] {
      Nothing();
    } else {
      var last := |members| == 1;
      MemberFormattingVanishes(members[0], fmt, d, e, last);
      MembersFormattingVanishes(members[1..], fmt, d, e);
      Compose(MemberText(members[0], fmt, d, last), MembersText(members[1..], fmt, d),
              MemberText(members[0], false, e, last), MembersText(members[1..], false, e));
    }
  }

  lemma {:induction false} MemberFormattingVanishes(m: Member, fmt: bool, d: nat, e: nat, last: bool)
    requires PrintableMember(m) && Plain(m.value)
    ensures MinifiesTo(MemberText(m, fmt, d, last), MemberText(m, false, e, last))
    decreases m, 0
  {
    hide MinifiesTo, Text;
    KeyFormattingVanishes(m.key, fmt, d, e);
    FormattingVanishes(m.value, fmt, d, e);
    EndFormattingVanishes(fmt, last);
    Compose(KeyText(m.key, fmt, d), Text(m.value, fmt, d), KeyText(m.key, false, e), Text(m.value, false, e));
    Compose(KeyText(m.key, fmt, d) + Text(m.value, fmt, d), MemberEnd(fmt, last),
            KeyText(m.key, false, e) + Text(m.value, false, e), MemberEnd(false, last));
  }

  lemma KeyFormattingVanishes(key: seq<byte>, fmt: bool, d: nat, e: nat)
    requires NulFree(key)
    ensures MinifiesTo(KeyText(key, fmt, d), KeyText(key, false, e))
  {
    hide MinifiesTo, JsonString.Quoted;
    BlankVanishes(Indent(fmt, d));
    QuotedStays(key);
    var blank := if fmt then [TAB] else [];
    InertThenBlank(COLON, blank);
    assert [COLON] + blank == KeySeparator(fmt);
    Compose(Indent(fmt, d), JsonString.Quoted(key), [], JsonString.Quoted(key));
    Compose(Indent(fmt, d) + JsonString.Quoted(key), KeySeparator(fmt), [] + JsonString.Quoted(key),
            KeySeparator(false));
  }

  lemma EndFormattingVanishes(fmt: bool, last: bool)
    ensures MinifiesTo(MemberEnd(fmt, last), MemberEnd(false, last))
  {
    hide MinifiesTo;
    var blank := if fmt then [NEWLINE] else [];
    if last {
      BlankVanishes(blank);
      assert MemberEnd(fmt, last) == blank;
      assert MemberEnd(false, last) == [];
    } else {
      InertThenBlank(COMMA, blank);
      assert MemberEnd(fmt, last) == [COMMA] + blank;
      assert MemberEnd(false, last) == [COMMA];
    }
  }

  /** cJSON_Minify of what cJSON_Print returns is what cJSON_PrintUnformatted returns, which it leaves as it is. */
  lemma DocumentMinifies(v: Json, fmt: bool)
    requires Printable(v) && Plain(v)
    ensures Minify(RoundTrip.Document(v, fmt)) == Minified(Text(v, false, 0))
  {
    hide Text;
    FormattingVanishes(v, fmt, 0, 0);
    AtTerminator([NUL]);
    assert Text(v, false, 0) + [] == Text(v, false, 0);
  }
}
