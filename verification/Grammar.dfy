/**
 What the parser accepts, as functions on the text that is still to be read. A text always ends in a NUL,
 which no function reads past.
 */
module Grammar {
  import opened Bytes
  import opened JsonTree
  import JsonNumber
  import JsonString

  const NESTING_LIMIT: nat := 1000
  const BYTE_ORDER_MARK: seq<byte> := [0xEF, 0xBB, 0xBF]

  predicate Ends(s: seq<byte>) {
    |s| > 0 && s[|s| - 1] == NUL
  }

  predicate StartsWith(s: seq<byte>, prefix: seq<byte>) {
    |prefix| <= |s| && s[..|prefix|] == prefix
  }

  /** The text behind one character; the final NUL is never passed. */
  function Behind(s: seq<byte>): (r: seq<byte>)
    requires Ends(s) && s[0] != NUL
    ensures Ends(r) && |r| == |s| - 1
  {
    s[1..]
  }

  datatype Result<T> = Failed | Parsed(value: T, rest: seq<byte>)

  /** buffer_skip_whitespace: never moves off the last byte. */
  function SkipWhitespace(s: seq<byte>): (r: seq<byte>)
    requires Ends(s)
    ensures Ends(r) && |r| <= |s|
    ensures r[0] > SPACE || |r| == 1
  {
    if |s| > 1 && s[0] <= SPACE then SkipWhitespace(s[1..]) else s
  }

  lemma SkipTwice(s: seq<byte>)
    requires Ends(s)
    ensures SkipWhitespace(SkipWhitespace(s)) == SkipWhitespace(s)
  {
  }

  /** parse_number. */
  function ParseNumber(s: seq<byte>): (r: Result<Json>)
    requires Ends(s)
    ensures r.Parsed? ==> Ends(r.rest) && |r.rest| < |s|
  {
    var (value, length) := JsonNumber.ReadNumber(s);
    if length == 0 then Failed
    else
      assert length == |s| ==> JsonNumber.IsNumberByte(s[|s| - 1]);
      Parsed(Number(value), s[length..])
  }

  /** parse_string, as a value and as a name. */
  function ParseText(s: seq<byte>): (r: Result<seq<byte>>)
    requires Ends(s)
    ensures r.Parsed? ==> Ends(r.rest) && |r.rest| < |s| && NulFree(r.value)
  {
    match JsonString.ParseString(s)
    case BadString => Failed
    case GoodString(text, length) => Parsed(text, s[length..])
  }

  /** parse_value at nesting depth `depth`. */
  function ParseValue(s: seq<byte>, depth: nat): (r: Result<Json>)
    requires Ends(s)
    ensures r.Parsed? ==> Ends(r.rest) && |r.rest| < |s|
    decreases |s|, 2
  {
    if StartsWith(s, TEXT_NULL) then Parsed(Null, s[4..])
    else if StartsWith(s, TEXT_FALSE) then Parsed(False, s[5..])
    else if StartsWith(s, TEXT_TRUE) then Parsed(True, s[4..])
    else if s[0] == QUOTE then
      var text := ParseText(s);
      if text.Parsed? then Parsed(Str(text.value), text.rest) else Failed
    else if s[0] == MINUS || JsonNumber.IsDigit(s[0]) then ParseNumber(s)
    else if s[0] == LBRACKET then ParseArray(s, depth)
    else if s[0] == LBRACE then ParseObject(s, depth)
    else Failed
  }

  /** parse_array; `s` begins with the opening bracket. */
  function ParseArray(s: seq<byte>, depth: nat): (r: Result<Json>)
    requires Ends(s) && s[0] == LBRACKET
    ensures r.Parsed? ==> Ends(r.rest) && |r.rest| < |s|
    decreases |s|, 1
  {
    if depth >= NESTING_LIMIT then Failed
    else
      var first := SkipWhitespace(Behind(s));
      if first[0] == RBRACKET then
        Parsed(Arr([]), Behind(first))
      else
        var items := ParseItems(first, depth + 1);
        if items.Failed? then Failed else Parsed(Arr(items.value), items.rest)
  }

  /** The elements from `s` on, and the closing bracket. */
  function ParseItems(s: seq<byte>, depth: nat): (r: Result<seq<Json>>)
    requires Ends(s)
    ensures r.Parsed? ==> Ends(r.rest) && |r.rest| < |s|
    decreases |s|, 3
  {
    var item := ParseValue(s, depth);
    if item.Failed? then Failed
    else
      var next := SkipWhitespace(item.rest);
      if next[0] == COMMA then
        var following := SkipWhitespace(Behind(next));
        var others := ParseItems(following, depth);
        if others.Failed? then Failed else Parsed([item.value] + others.value, others.rest)
      else if next[0] == RBRACKET then
        Parsed([item.value], Behind(next))
      else Failed
  }

  /** parse_object; `s` begins with the opening brace. */
  function ParseObject(s: seq<byte>, depth: nat): (r: Result<Json>)
    requires Ends(s) && s[0] == LBRACE
    ensures r.Parsed? ==> Ends(r.rest) && |r.rest| < |s|
    decreases |s|, 1
  {
    if depth >= NESTING_LIMIT then Failed
    else
      var first := SkipWhitespace(Behind(s));
      if first[0] == RBRACE then
        Parsed(Obj([]), Behind(first))
      else
        var members := ParseMembers(first, depth + 1);
        if members.Failed? then Failed else Parsed(Obj(members.value), members.rest)
  }

  /** The members from `s` on, and the closing brace. */
  function ParseMembers(s: seq<byte>, depth: nat): (r: Result<seq<Member>>)
    requires Ends(s)
    ensures r.Parsed? ==> Ends(r.rest) && |r.rest| < |s|
    decreases |s|, 4
  {
    var member := ParseMember(s, depth);
    if member.Failed? then Failed
    else
      var next := SkipWhitespace(member.rest);
      if next[0] == COMMA then
        var following := SkipWhitespace(Behind(next));
        var others := ParseMembers(following, depth);
        if others.Failed? then Failed else Parsed([member.value] + others.value, others.rest)
      else if next[0] == RBRACE then
        Parsed([member.value], Behind(next))
      else Failed
  }

  /** A name, a colon and a value. */
  function ParseMember(s: seq<byte>, depth: nat): (r: Result<Member>)
    requires Ends(s)
    ensures r.Parsed? ==> Ends(r.rest) && |r.rest| < |s|
    decreases |s|, 3
  {
    var name := ParseText(s);
    if name.Failed? then Failed
    else
      var colon := SkipWhitespace(name.rest);
      if colon[0] != COLON then Failed
      else
        var start := SkipWhitespace(Behind(colon));
        var value := ParseValue(start, depth);
        if value.Failed? then Failed else Parsed(Member(name.value, value.value), value.rest)
  }

  /** skip_utf8_bom. */
  function SkipMark(text: seq<byte>): (r: seq<byte>)
    requires Ends(text)
    ensures Ends(r) && |r| <= |text|
  {
    if |text| > 4 && StartsWith(text, BYTE_ORDER_MARK) then text[3..] else text
  }

  /** cJSON_ParseWithOpts on a NUL-terminated text; `rest` begins at the reported end of the parse. */
  function ParseDocument(text: seq<byte>, requireNullTerminated: bool): (r: Result<Json>)
    requires Terminated(text)
  {
    var item := ParseValue(SkipWhitespace(SkipMark(text)), 0);
    if item.Failed? then Failed
    else if requireNullTerminated then
      var end := SkipWhitespace(item.rest);
      if end[0] == NUL then Parsed(item.value, end) else Failed
    else item
  }
}
