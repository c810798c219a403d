/**
 The parser: a cursor over a NUL-terminated text, and the recursive-descent functions that move it.
 */
module Parser {
  import opened Bytes
  import opened Common
  import opened JsonTree
  import Grammar
  import JsonNumber
  import JsonString
  import Utf8

  /** parse_buffer. The cursor never leaves the text while parsing succeeds. */
  class ParseBuffer {
    const content: seq<byte>
    var offset: nat
    var depth: nat

    ghost predicate Valid()
      reads this
    {
      Grammar.Ends(content) && offset < |content| && depth <= Grammar.NESTING_LIMIT
    }

    /** buffer_at_offset: the text still to be read. */
    function Rest(): (s: seq<byte>)
      requires Valid()
      reads this
      ensures Grammar.Ends(s) && |s| == |content| - offset && s[0] == content[offset]
    {
      content[offset..]
    }

    constructor (content: seq<byte>)
      requires Grammar.Ends(content)
      ensures Valid() && this.content == content && offset == 0 && depth == 0
    {
      this.content, this.offset, this.depth := content, 0, 0;
    }

    /** Steps over one character that is not the terminator. */
    method Step()
      requires Valid() && content[offset] != NUL
      modifies this`offset
      ensures Valid() && Rest() == Grammar.Behind(old(Rest()))
    {
      assert content[offset..][1..] == content[offset + 1..];
      offset := offset + 1;
    }

    /** buffer_skip_whitespace. */
    method SkipWhitespace()
      requires Valid()
      modifies this`offset
      ensures Valid() && Rest() == Grammar.SkipWhitespace(old(Rest()))
    {
      ghost var skipped := Grammar.SkipWhitespace(Rest());
      while offset < |content| && content[offset] <= 32
        invariant offset <= |content|
        invariant offset < |content| ==> Grammar.SkipWhitespace(content[offset..]) == skipped
        invariant offset == |content| ==> skipped == content[|content| - 1..]
        decreases |content| - offset
      {
        assert offset + 1 < |content| ==> content[offset..][1..] == content[offset + 1..];
        offset := offset + 1;
      }
      if offset == |content| {
        offset := offset - 1;
      }
    }

    /** skip_utf8_bom. */
    method SkipUtf8Bom()
      requires Valid()
      modifies this`offset
      ensures Valid() && Rest() == Grammar.SkipMark(old(Rest()))
    {
      if offset + 4 < |content| && Grammar.StartsWith(Rest(), Grammar.BYTE_ORDER_MARK) {
        Skip(3);
      }
    }

    // ----- Numbers -----

    /** parse_number: hands the number characters, at most 63 of them, to strtod. */
    method ParseNumber() returns (ok: bool, item: Json)
      requires Valid()
      modifies this`offset
      ensures var r := Grammar.ParseNumber(old(Rest()));
              && (ok <==> r.Parsed?)
              && (ok ==> item == r.value && Valid() && Rest() == r.rest)
    {
      hide JsonNumber.Strtod;
      var number := CopyNumber(Rest());
      var (value, length) := JsonNumber.Strtod(number);
      assert JsonNumber.ReadNumber(Rest()) == (value, length);
      if length == 0 {
        return false, Null;
      }
      Skip(length);
      return true, Number(value);
    }

    // ----- Strings -----

    /** parse_string: positions are relative to the opening quote. */
    method ParseString() returns (ok: bool, valuestring: seq<byte>)
      requires Valid()
      modifies this`offset
      ensures var r := Grammar.ParseText(old(Rest()));
              && (ok <==> r.Parsed?)
              && (ok ==> valuestring == r.value && Valid() && Rest() == r.rest)
    {
      valuestring := [];
      var s := Rest();
      if s[0] != QUOTE {
        return false, valuestring;
      }
      var closed, inputEnd, skippedBytes := ScanString(s);
      if !closed {
        return false, valuestring;
      }
      var allocationLength := inputEnd - skippedBytes;
      var output := new byte[allocationLength + 1];
      var decoded, length := DecodeString(s, inputEnd, output);
      if !decoded {
        return false, valuestring;
      }
      output[length] := NUL;
      CStringOfPrefix(output[..], length);
      assert content[offset..][inputEnd + 1..] == content[offset + inputEnd + 1..];
      offset := offset + inputEnd + 1;
      return true, CString(output[..]);
    }

    // ----- Values -----

    /** parse_value. */
    method ParseValue() returns (ok: bool, item: Json)
      requires Valid()
      modifies this
      ensures var r := Grammar.ParseValue(old(Rest()), old(depth));
              && (ok <==> r.Parsed?)
              && (ok ==> item == r.value && Valid() && Rest() == r.rest && depth == old(depth))
      decreases |content| - offset, 2
    {
      item := Null;
      var s := Rest();
      if Grammar.StartsWith(s, TEXT_NULL) {
        Skip(4);
        return true, Null;
      }
      if Grammar.StartsWith(s, TEXT_FALSE) {
        Skip(5);
        return true, False;
      }
      if Grammar.StartsWith(s, TEXT_TRUE) {
        Skip(4);
        return true, True;
      }
      if content[offset] == QUOTE {
        var text;
        ok, text := ParseString();
        item := Str(text);
        return;
      }
      if content[offset] == MINUS || DIGIT_0 <= content[offset] <= DIGIT_9 {
        ok, item := ParseNumber();
        return;
      }
      if content[offset] == LBRACKET {
        ok, item := ParseArray();
        return;
      }
      if content[offset] == LBRACE {
        ok, item := ParseObject();
        return;
      }
      return false, item;
    }

    method Skip(n: nat)
      requires Valid() && offset + n < |content|
      modifies this`offset
      ensures Valid() && Rest() == old(Rest())[n..]
    {
      assert content[offset..][n..] == content[offset + n..];
      offset := offset + n;
    }

    // ----- Arrays -----

    /** parse_array. */
    method ParseArray() returns (ok: bool, item: Json)
      requires Valid() && content[offset] == LBRACKET
      modifies this
      ensures var r := Grammar.ParseArray(old(Rest()), old(depth));
              && (ok <==> r.Parsed?)
              && (ok ==> item == r.value && Valid() && Rest() == r.rest && depth == old(depth))
      decreases |content| - offset, 1
    {
      hide Grammar.ParseItems, Grammar.SkipWhitespace;
      item := Null;
      if depth >= Grammar.NESTING_LIMIT {
        return false, item;
      }
      depth := depth + 1;
      Step();
      SkipWhitespace();
      var head: seq<Json> := [];
      if content[offset] != RBRACKET {
        Grammar.SkipTwice(Grammar.Behind(old(Rest())));
        ok, head := ParseItems();
        if !ok {
          return;
        }
      } else {
        // empty array
        Step();
      }
      depth := depth - 1;
      return true, Arr(head);
    }

    /** The next value behind the current character, with the blanks on both sides of it. */
    method ParseNextValue() returns (ok: bool, item: Json)
      requires Valid() && offset + 1 < |content|
      modifies this
      ensures var r := Grammar.ParseValue(Grammar.SkipWhitespace(old(content[offset + 1..])), old(depth));
              && (ok <==> r.Parsed?)
              && (ok ==> item == r.value && Valid() && Rest() == Grammar.SkipWhitespace(r.rest) && depth == old(depth)
                         && offset > old(offset))
      decreases |content| - (offset + 1), 3
    {
      hide Grammar.ParseValue, Grammar.SkipWhitespace;
      offset := offset + 1;
      SkipWhitespace();
      ok, item := ParseValue();
      if ok {
        SkipWhitespace();
      }
    }

    /** The loop of parse_array and the closing bracket; the step back in front of the first element comes first. */
    method ParseItems() returns (ok: bool, head: seq<Json>)
      requires Valid() && offset > 0 && Grammar.SkipWhitespace(Rest()) == Rest()
      modifies this
      ensures var r := Grammar.ParseItems(old(Rest()), old(depth));
              && (ok <==> r.Parsed?)
              && (ok ==> head == r.value && Valid() && Rest() == r.rest && depth == old(depth))
      decreases |content| - offset, 4
    {
      hide Grammar.ParseItems, Grammar.ParseValue, Grammar.SkipWhitespace;
      ghost var start, d, whole := offset, depth, Grammar.ParseItems(Rest(), depth);
      assert whole.Parsed? ==> [] + whole.value == whole.value;
      offset := offset - 1;
      head := [];
      var more := true;
      while more
        invariant depth == d
        invariant offset + 1 >= start
        invariant Valid()
        invariant more ==> offset + 1 < |content|
        invariant more ==> whole == Appended(head, Grammar.ParseItems(Grammar.SkipWhitespace(content[offset + 1..]), d))
        invariant !more ==>
            whole ==
            if content[offset] == RBRACKET then Grammar.Parsed(head, Grammar.Behind(Rest())) else Grammar.Failed
        decreases |content| - offset, more
      {
        ghost var s := Grammar.SkipWhitespace(content[offset + 1..]);
        var item;
        ok, item := ParseNextValue();
        NextItem(s, head, d);
        if !ok {
          return false, head;
        }
        head := head + [item];
        more := content[offset] == COMMA;
        assert more ==> content[offset..][1..] == content[offset + 1..];
      }
      if content[offset] != RBRACKET {
        return false, head;
      }
      Step();
      return true, head;
    }

    // ----- Objects -----

    /** parse_object. */
    method ParseObject() returns (ok: bool, item: Json)
      requires Valid() && content[offset] == LBRACE
      modifies this
      ensures var r := Grammar.ParseObject(old(Rest()), old(depth));
              && (ok <==> r.Parsed?)
              && (ok ==> item == r.value && Valid() && Rest() == r.rest && depth == old(depth))
      decreases |content| - offset, 1
    {
      hide Grammar.ParseMembers, Grammar.SkipWhitespace;
      item := Null;
      if depth >= Grammar.NESTING_LIMIT {
        return false, item;
      }
      depth := depth + 1;
      Step();
      SkipWhitespace();
      var head: seq<Member> := [];
      if content[offset] != RBRACE {
        Grammar.SkipTwice(Grammar.Behind(old(Rest())));
        ok, head := ParseMembers();
        if !ok {
          return;
        }
      } else {
        // empty object
        Step();
      }
      depth := depth - 1;
      return true, Obj(head);
    }

    /** One turn of the loop of parse_object: the name, the colon, the value, and the blanks around them. */
    method ParseNextMember() returns (ok: bool, member: Member)
      requires Valid() && offset + 1 < |content|
      modifies this
      ensures var r := Grammar.ParseMember(Grammar.SkipWhitespace(old(content[offset + 1..])), old(depth));
              && (ok <==> r.Parsed?)
              && (ok ==> member == r.value && Valid() && Rest() == Grammar.SkipWhitespace(r.rest) && depth == old(depth)
                         && offset > old(offset))
      decreases |content| - (offset + 1), 4
    {
      hide Grammar.ParseValue, Grammar.ParseText, Grammar.SkipWhitespace;
      offset := offset + 1;
      SkipWhitespace();
      var name;
      ok, name := ParseString();
      member := Member(name, Null);
      if !ok {
        return;
      }
      SkipWhitespace();
      if content[offset] != COLON {
        return false, member;
      }
      assert content[offset..][1..] == content[offset + 1..];
      var value;
      ok, value := ParseNextValue();
      member := Member(name, value);
    }

    /** The loop of parse_object and the closing brace; the step back in front of the first name comes first. */
    method ParseMembers() returns (ok: bool, head: seq<Member>)
      requires Valid() && offset > 0 && Grammar.SkipWhitespace(Rest()) == Rest()
      modifies this
      ensures var r := Grammar.ParseMembers(old(Rest()), old(depth));
              && (ok <==> r.Parsed?)
              && (ok ==> head == r.value && Valid() && Rest() == r.rest && depth == old(depth))
      decreases |content| - offset, 5
    {
      hide Grammar.ParseMembers, Grammar.ParseMember, Grammar.SkipWhitespace;
      ghost var start, d, whole := offset, depth, Grammar.ParseMembers(Rest(), depth);
      assert whole.Parsed? ==> [] + whole.value == whole.value;
      offset := offset - 1;
      head := [];
      var more := true;
      while more
        invariant depth == d
        invariant offset + 1 >= start
        invariant Valid()
        invariant more ==> offset + 1 < |content|
        invariant more ==>
            whole == Appended(head, Grammar.ParseMembers(Grammar.SkipWhitespace(content[offset + 1..]), d))
        invariant !more ==>
            whole ==
            if content[offset] == RBRACE then Grammar.Parsed(head, Grammar.Behind(Rest())) else Grammar.Failed
        decreases |content| - offset, more
      {
        ghost var s := Grammar.SkipWhitespace(content[offset + 1..]);
        var member;
        ok, member := ParseNextMember();
        NextMember(s, head, d);
        if !ok {
          return false, head;
        }
        head := head + [member];
        more := content[offset] == COMMA;
        assert more ==> content[offset..][1..] == content[offset + 1..];
      }
      if content[offset] != RBRACE {
        return false, head;
      }
      Step();
      return true, head;
    }
  }

  /** The copying loop of parse_number. */
  method CopyNumber(s: seq<byte>) returns (number: seq<byte>)
    ensures number == s[..JsonNumber.TokenLength(s, JsonNumber.NUMBER_LIMIT)]
  {
    number := [];
    var i := 0;
    while i < 63 && i < |s| && JsonNumber.IsNumberByte(s[i])
      invariant i <= 63 && i <= |s|
      invariant number == s[..i]
      invariant JsonNumber.TokenLength(s, 63) == i + JsonNumber.TokenLength(s[i..], 63 - i)
      decreases 63 - i
    {
      assert s[i..][1..] == s[i + 1..];
      number := number + [s[i]];
      i := i + 1;
    }
  }

  function Appended<T>(front: seq<T>, r: Grammar.Result<seq<T>>): Grammar.Result<seq<T>> {
    if r.Failed? then Grammar.Failed else Grammar.Parsed(front + r.value, r.rest)
  }

  /** The outcome of the array loop once the item behind `front` is parsed. */
  function AfterItem(front: seq<Json>, item: Grammar.Result<Json>, depth: nat): Grammar.Result<seq<Json>>
    requires item.Parsed? ==> Grammar.Ends(item.rest)
  {
    if item.Failed? then Grammar.Failed
    else
      var next := Grammar.SkipWhitespace(item.rest);
      if next[0] == COMMA then
        Appended(front + [item.value], Grammar.ParseItems(Grammar.SkipWhitespace(Grammar.Behind(next)), depth))
      else if next[0] == RBRACKET then Grammar.Parsed(front + [item.value], Grammar.Behind(next))
      else Grammar.Failed
  }

  /** What one turn of the array loop does to the outcome of the whole loop. */
  lemma NextItem(s: seq<byte>, front: seq<Json>, depth: nat)
    requires Grammar.Ends(s)
    ensures Appended(front, Grammar.ParseItems(s, depth)) == AfterItem(front, Grammar.ParseValue(s, depth), depth)
  {
    hide Grammar.ParseValue, Grammar.SkipWhitespace;
    var r := Grammar.ParseValue(s, depth);
    if r.Parsed? {
      var next := Grammar.SkipWhitespace(r.rest);
      if next[0] == COMMA {
        var others := Grammar.ParseItems(Grammar.SkipWhitespace(Grammar.Behind(next)), depth);
        if others.Parsed? {
          assert front + ([r.value] + others.value) == (front + [r.value]) + others.value;
        }
      }
    }
  }

  /** The outcome of the object loop once the member behind `front` is parsed. */
  function AfterMember(front: seq<Member>, member: Grammar.Result<Member>, depth: nat): Grammar.Result<seq<Member>>
    requires member.Parsed? ==> Grammar.Ends(member.rest)
  {
    if member.Failed? then Grammar.Failed
    else
      var next := Grammar.SkipWhitespace(member.rest);
      if next[0] == COMMA then
        Appended(front + [member.value], Grammar.ParseMembers(Grammar.SkipWhitespace(Grammar.Behind(next)), depth))
      else if next[0] == RBRACE then Grammar.Parsed(front + [member.value], Grammar.Behind(next))
      else Grammar.Failed
  }

  lemma NextMember(s: seq<byte>, front: seq<Member>, depth: nat)
    requires Grammar.Ends(s)
    ensures Appended(front, Grammar.ParseMembers(s, depth)) == AfterMember(front, Grammar.ParseMember(s, depth), depth)
  {
    hide Grammar.ParseMember, Grammar.SkipWhitespace;
    var r := Grammar.ParseMember(s, depth);
    if r.Parsed? {
      var next := Grammar.SkipWhitespace(r.rest);
      if next[0] == COMMA {
        var others := Grammar.ParseMembers(Grammar.SkipWhitespace(Grammar.Behind(next)), depth);
        if others.Parsed? {
          assert front + ([r.value] + others.value) == (front + [r.value]) + others.value;
        }
      }
    }
  }

  /** The scan pass of parse_string. */
  method ScanString(s: seq<byte>) returns (closed: bool, inputEnd: nat, skippedBytes: nat)
    requires |s| > 0
    ensures closed <==> JsonString.Scan(s, 1).Closed?
    ensures closed ==>
              && skippedBytes < inputEnd
              && JsonString.Scan(s, 1) == JsonString.Closed(inputEnd, inputEnd - 1 - skippedBytes)
  {
    inputEnd, skippedBytes := 1, 0;
    while inputEnd < |s| && s[inputEnd] != QUOTE
      invariant 1 <= inputEnd <= |s| && 0 <= skippedBytes < inputEnd
      invariant JsonString.Scan(s, 1) == Counted(JsonString.Scan(s, inputEnd), inputEnd - 1 - skippedBytes)
      decreases |s| - inputEnd
    {
      if s[inputEnd] == BACKSLASH {
        if inputEnd + 1 >= |s| {
          return false, inputEnd, skippedBytes;
        }
        skippedBytes := skippedBytes + 1;
        inputEnd := inputEnd + 1;
      }
      inputEnd := inputEnd + 1;
    }
    if inputEnd >= |s| || s[inputEnd] != QUOTE {
      return false, inputEnd, skippedBytes;
    }
    return true, inputEnd, skippedBytes;
  }

  function Counted(r: JsonString.ScanResult, units: nat): JsonString.ScanResult {
    if r.Closed? then JsonString.Closed(r.end, r.units + units) else r
  }

  /** The decode pass of parse_string: the output the scan pass has sized holds every byte and the terminator. */
  method DecodeString(s: seq<byte>, inputEnd: nat, output: array<byte>) returns (ok: bool, length: nat)
    requires inputEnd < |s| && s[inputEnd] == QUOTE
    requires JsonString.Scan(s, 1).Closed? && JsonString.Scan(s, 1).end == inputEnd
    requires output.Length == JsonString.Scan(s, 1).units + 2
    modifies output
    ensures ok == JsonString.Decode(s, 1, inputEnd).ok
    ensures length < output.Length
    ensures ok ==> output[..length] == JsonString.Decode(s, 1, inputEnd).out
  {
    hide JsonString.Scan;
    ghost var whole := JsonString.Decode(s, 1, inputEnd);
    JsonString.DecodeFits(s, 1, inputEnd, JsonString.Scan(s, 1).units);
    var p := 1;
    length := 0;
    ok := true;
    while p < inputEnd
      invariant 1 <= p <= inputEnd + 1 && length < output.Length && ok
      invariant whole == JsonString.After(output[..length], JsonString.Decode(s, p, inputEnd))
      invariant length + |JsonString.Decode(s, p, inputEnd).out| + 2 <= output.Length
      decreases inputEnd + 1 - p
    {
      hide JsonString.Decode;
      ghost var written, run := output[..length], JsonString.Decode(s, p, inputEnd);
      ghost var bytes;
      ok, p, length, bytes := DecodeStep(s, p, inputEnd, output, length);
      if !ok {
        return;
      }
      Regroup(written, bytes, JsonString.Decode(s, p, inputEnd).out);
    }
  }

  /** One turn of the decode loop, at `p` in the literal and `at` in the output. */
  method DecodeStep(s: seq<byte>, p: nat, inputEnd: nat, output: array<byte>, at: nat)
    returns (ok: bool, next: nat, length: nat, ghost bytes: seq<byte>)
    requires p < inputEnd < |s|
    requires at + |JsonString.Decode(s, p, inputEnd).out| < output.Length
    modifies output
    ensures !ok ==> !JsonString.Decode(s, p, inputEnd).ok && length == at
    ensures ok ==> p < next <= inputEnd + 1
    ensures ok ==> JsonString.Decode(s, p, inputEnd) == JsonString.After(bytes, JsonString.Decode(s, next, inputEnd))
    ensures ok ==> length == at + |bytes| && output[..length] == old(output[..at]) + bytes
  {
    ok, next, length, bytes := false, p, at, [];
    if s[p] != BACKSLASH {
      output[at] := s[p];
      ok, next, length, bytes := true, p + 1, at + 1, [s[p]];
    } else {
      var c := JsonString.EscapedByte(s[p + 1]);
      if c != NUL {
        output[at] := c;
        ok, next, length, bytes := true, p + 2, at + 1, [c];
      } else if s[p + 1] == LOWER_U {
        var sequenceLength, end := Utf8.Utf16LiteralToUtf8(s, p, inputEnd, output, at);
        if sequenceLength != 0 {
          ok, next, length, bytes := true, p + sequenceLength, end, Utf8.DecodeLiteral(s, p, inputEnd).bytes;
        }
      }
    }
  }

  lemma {:induction false} CStringOfPrefix(s: seq<byte>, n: nat)
    requires n < |s| && s[n] == NUL
    ensures CString(s) == CString(s[..n])
  {
    if n > 0 && s[0] != NUL {
      assert s[..n][1..] == s[1..][..n - 1];
      CStringOfPrefix(s[1..], n - 1);
    }
  }

  // ----- The parse functions of the interface -----

  /** cJSON_ParseWithOpts (cJSON_Parse passes false): the item and the position the parse ended at. */
  method ParseWithOpts(value: seq<byte>, requireNullTerminated: bool) returns (ok: bool, item: Json, end: nat)
    requires Terminated(value)
    ensures var r := Grammar.ParseDocument(value, requireNullTerminated);
            && (ok <==> r.Parsed?)
            && (ok ==> item == r.value && end < |value| && value[end..] == r.rest)
  {
    hide Grammar.ParseValue, Grammar.SkipWhitespace, Grammar.SkipMark;
    item, end := Null, 0;
    var buffer := new ParseBuffer(value);
    assert value[0..] == value;
    buffer.SkipUtf8Bom();
    buffer.SkipWhitespace();
    ok, item := buffer.ParseValue();
    if !ok {
      return;
    }
    if requireNullTerminated {
      buffer.SkipWhitespace();
      if buffer.content[buffer.offset] != NUL {
        return false, item, end;
      }
    }
    end := buffer.offset;
  }
}
