/**
 The text of a tree, formatted or not, as one expression: the specification of every print function.
 */
module Render {
  import opened Bytes
  import opened JsonTree
  import JsonNumber
  import JsonString

  function Tabs(n: nat): seq<byte> {
    Repeat(TAB, n)
  }

  function ItemSeparator(fmt: bool): seq<byte> {
    if fmt then [COMMA, SPACE] else [COMMA]
  }

  function ObjectOpening(fmt: bool): seq<byte> {
    if fmt then [LBRACE, NEWLINE] else [LBRACE]
  }

  function KeySeparator(fmt: bool): seq<byte> {
    if fmt then [COLON, TAB] else [COLON]
  }

  function Indent(fmt: bool, depth: nat): seq<byte> {
    if fmt then Tabs(depth) else []
  }

  /** What ends a member: a comma unless it is the last one, and the line when formatting. */
  function MemberEnd(fmt: bool, last: bool): seq<byte> {
    (if last then [] else [COMMA]) + (if fmt then [NEWLINE] else [])
  }

  /** The text of `v` printed at nesting depth `depth`. */
  function Text(v: Json, fmt: bool, depth: nat): (r: seq<byte>)
    requires Printable(v)
    decreases v
  {
    match v
    case Null => TEXT_NULL
    case False => TEXT_FALSE
    case True => TEXT_TRUE
    case Number(x) => JsonNumber.DecimalText(x.Floor)
    case Str(text) => JsonString.Quoted(text)
    case Raw(text) => text
    case Arr(items) => [LBRACKET] + ItemsText(items, fmt, depth + 1) + [RBRACKET]
    case Obj(members) =>
      InsideText(members, fmt, depth) + Indent(fmt, depth) + [RBRACE]
  }

  /** An object up to its closing brace. */
  function InsideText(members: seq<Member>, fmt: bool, depth: nat): (r: seq<byte>)
    requires forall i :: 0 <= i < |members| ==> PrintableMember(members[i])
    decreases members, 1
  {
    ObjectOpening(fmt) + MembersText(members, fmt, depth + 1)
  }

  function ItemsText(items: seq<Json>, fmt: bool, depth: nat): (r: seq<byte>)
    requires forall i :: 0 <= i < |items| ==> Printable(items[i])
    decreases items
  {
    if items == [] then []
    else if |items| == 1 then Text(items[0], fmt, depth)
    else Text(items[0], fmt, depth) + ItemSeparator(fmt) + ItemsText(items[1..], fmt, depth)
  }

  function MembersText(members: seq<Member>, fmt: bool, depth: nat): (r: seq<byte>)
    requires forall i :: 0 <= i < |members| ==> PrintableMember(members[i])
    decreases members, 0
  {
    if members == [] then []
    else MemberText(members[0], fmt, depth, |members| == 1) + MembersText(members[1..], fmt, depth)
  }

  function MemberText(m: Member, fmt: bool, depth: nat, last: bool): (r: seq<byte>)
    requires PrintableMember(m)
    decreases m
  {
    KeyText(m.key, fmt, depth) + Text(m.value, fmt, depth) + MemberEnd(fmt, last)
  }

  function KeyText(key: seq<byte>, fmt: bool, depth: nat): seq<byte> {
    Indent(fmt, depth) + JsonString.Quoted(key) + KeySeparator(fmt)
  }

  /** What one turn of the loop over `items` prints: the item, and the separator unless it is the last. */
  function ItemPiece(items: seq<Json>, i: nat, fmt: bool, depth: nat): seq<byte>
    requires i < |items| && Printable(items[i])
  {
    Text(items[i], fmt, depth) + (if i + 1 < |items| then ItemSeparator(fmt) else [])
  }

  lemma ItemsTextStep(items: seq<Json>, i: nat, fmt: bool, depth: nat)
    requires i < |items| && forall k :: 0 <= k < |items| ==> Printable(items[k])
    ensures ItemsText(items[i..], fmt, depth) == ItemPiece(items, i, fmt, depth) + ItemsText(items[i + 1..], fmt, depth)
  {
    assert items[i..][1..] == items[i + 1..];
  }

  function MemberPiece(members: seq<Member>, i: nat, fmt: bool, depth: nat): seq<byte>
    requires i < |members| && PrintableMember(members[i])
  {
    MemberText(members[i], fmt, depth, i + 1 == |members|)
  }

  lemma MembersTextStep(members: seq<Member>, i: nat, fmt: bool, depth: nat)
    requires i < |members| && forall k :: 0 <= k < |members| ==> PrintableMember(members[k])
    ensures MembersText(members[i..], fmt, depth)
         == MemberPiece(members, i, fmt, depth) + MembersText(members[i + 1..], fmt, depth)
  {
    assert members[i..][1..] == members[i + 1..];
  }

  // ----- No NUL in the text: strlen finds its end -----

  lemma {:induction false} TextIsNulFree(v: Json, fmt: bool, depth: nat)
    requires Printable(v)
    ensures NulFree(Text(v, fmt, depth))
    decreases v
  {
    match v {
      case Number(x) => JsonNumber.DecimalTextIsNumber(x.Floor);
      case Str(text) => JsonString.EscapeIsNulFree(text);
      case Arr(items) =>
        ItemsTextIsNulFree(items, fmt, depth + 1);
        BracketedIsNulFree(ItemsText(items, fmt, depth + 1));
      case Obj(members) =>
        MembersTextIsNulFree(members, fmt, depth + 1);
        BracedIsNulFree(MembersText(members, fmt, depth + 1), fmt, depth);
      case _ =>
    }
  }

  lemma BracketedIsNulFree(inside: seq<byte>)
    requires NulFree(inside)
    ensures NulFree([LBRACKET] + inside + [RBRACKET])
  {
  }

  lemma BracedIsNulFree(inside: seq<byte>, fmt: bool, depth: nat)
    requires NulFree(inside)
    ensures NulFree(ObjectOpening(fmt) + inside + Indent(fmt, depth) + [RBRACE])
  {
    NulFreeConcat(ObjectOpening(fmt), inside);
    NulFreeConcat(ObjectOpening(fmt) + inside, Indent(fmt, depth));
    NulFreeConcat(ObjectOpening(fmt) + inside + Indent(fmt, depth), [RBRACE]);
  }

  lemma {:induction false} ItemsTextIsNulFree(items: seq<Json>, fmt: bool, depth: nat)
    requires forall i :: 0 <= i < |items| ==> Printable(items[i])
    ensures NulFree(ItemsText(items, fmt, depth))
    decreases items
  {
    if items != [] {
      TextIsNulFree(items[0], fmt, depth);
      ItemsTextIsNulFree(items[1..], fmt, depth);
    }
  }

  lemma {:induction false} MembersTextIsNulFree(members: seq<Member>, fmt: bool, depth: nat)
    requires forall i :: 0 <= i < |members| ==> PrintableMember(members[i])
    ensures NulFree(MembersText(members, fmt, depth))
    decreases members
  {
    if members != [] {
      var m, last := members[0], |members| == 1;
      JsonString.EscapeIsNulFree(m.key);
      TextIsNulFree(m.value, fmt, depth);
      KeyTextIsNulFree(m.key, fmt, depth);
      NulFreeConcat(KeyText(m.key, fmt, depth), Text(m.value, fmt, depth));
      NulFreeConcat(KeyText(m.key, fmt, depth) + Text(m.value, fmt, depth), MemberEnd(fmt, last));
      MembersTextIsNulFree(members[1..], fmt, depth);
      NulFreeConcat(MemberText(m, fmt, depth, last), MembersText(members[1..], fmt, depth));
    }
  }

  lemma KeyTextIsNulFree(key: seq<byte>, fmt: bool, depth: nat)
    requires NulFree(JsonString.Quoted(key))
    ensures NulFree(KeyText(key, fmt, depth))
  {
    NulFreeConcat(Indent(fmt, depth), JsonString.Quoted(key));
    NulFreeConcat(Indent(fmt, depth) + JsonString.Quoted(key), KeySeparator(fmt));
  }
}
