/**
 The printer: a growing (or fixed) buffer, and the functions that render a tree into it.
 */
module Printer {
  import opened Bytes
  import opened Common
  import opened JsonTree
  import opened Render
  import JsonNumber
  import JsonString

  /**
   printbuffer. `length` is the size of `buffer`, `offset` the end of the text already printed.
   `reserved` is the end of the span that the last call of Ensure granted; every write is checked against it.
   */
  class PrintBuffer {
    var buffer: array<byte>
    var length: nat
    var offset: nat
    var depth: nat
    const noalloc: bool
    const format: bool
    ghost var reserved: nat

    ghost predicate Valid()
      reads this
    {
      length == buffer.Length && length <= INT_MAX && (offset == 0 || offset < length)
    }

    /** How large the buffer can ever be. */
    ghost function Capacity(): int
      reads this
    {
      if noalloc then length else INT_MAX
    }

    ghost function Printed(): seq<byte>
      requires Valid()
      reads this, buffer
    {
      buffer[..offset]
    }

    ghost predicate Holds(text: seq<byte>)
      reads this, buffer
    {
      |text| <= buffer.Length && buffer[..|text|] == text
    }

    /** `text`, NUL-terminated, follows what was printed `before`, and two bytes of the buffer are left for it. */
    ghost predicate Follows(before: seq<byte>, text: seq<byte>)
      reads this, buffer
    {
      && Holds(before + text + [NUL])
      && |before| <= offset <= |before| + |text|
      && |before| + |text| + 2 <= length
    }

    constructor (buffer: array<byte>, noalloc: bool, format: bool)
      requires buffer.Length <= INT_MAX
      ensures Valid() && Printed() == [] && depth == 0
      ensures this.buffer == buffer && length == buffer.Length
      ensures this.noalloc == noalloc && this.format == format
    {
      this.buffer, this.length, this.offset, this.depth := buffer, buffer.Length, 0, 0;
      this.noalloc, this.format := noalloc, format;
      this.reserved := 0;
    }

    /** ensure: makes room for `needed` bytes and one more behind `offset`, doubling the buffer if it may grow. */
    method Ensure(needed: nat) returns (ok: bool)
      requires Valid()
      modifies this`buffer, this`length, this`reserved
      ensures Valid() && Capacity() == old(Capacity())
      ensures ok <==> offset + needed + 1 <= Capacity()
      ensures ok ==> reserved == offset + needed < length
      ensures buffer == old(buffer) || (fresh(buffer) && !noalloc)
      ensures Printed() == old(Printed())
    {
      if length > 0 && offset >= length {
        return false;
      }
      if needed > INT_MAX {
        return false;
      }
      var wanted := needed + offset + 1;
      if wanted <= length {
        reserved := offset + needed;
        return true;
      }
      if noalloc {
        return false;
      }
      var newsize: nat;
      if wanted > INT_MAX / 2 {
        if wanted <= INT_MAX {
          newsize := INT_MAX;
        } else {
          return false;
        }
      } else {
        newsize := wanted * 2;
      }
      var moved := Reallocate(buffer, newsize);
      assert moved[..offset] == moved[..buffer.Length][..offset] == buffer[..offset];
      buffer := moved;
      length := newsize;
      reserved := offset + needed;
      return true;
    }

    /** The stores of the print functions: `text` at index `at`, inside the reserved span. */
    method Put(at: nat, text: seq<byte>)
      requires Valid()
      requires offset <= at && at + |text| <= reserved < length
      modifies buffer
      ensures buffer[..at] == old(buffer[..at])
      ensures buffer[at..at + |text|] == text
      ensures buffer[..at + |text|] == old(buffer[..at]) + text
    {
      forall i | 0 <= i < |text| {
        buffer[at + i] := text[i];
      }
      assert buffer[at..at + |text|] == text;
      assert buffer[..at + |text|] == buffer[..at] + buffer[at..at + |text|];
    }

    /** update_offset: strlen from `offset` on; `end` is a NUL it cannot miss. */
    method UpdateOffset(ghost end: nat)
      requires Valid() && offset <= end < length && buffer[end] == NUL
      modifies this`offset
      ensures old(offset) <= offset <= end && buffer[offset] == NUL
      ensures forall i :: old(offset) <= i < offset ==> buffer[i] != NUL
    {
      while buffer[offset] != NUL
        invariant old(offset) <= offset <= end
        invariant forall i :: old(offset) <= i < offset ==> buffer[i] != NUL
        decreases end - offset
      {
        offset := offset + 1;
      }
    }

    /** update_offset after a print function: the text becomes part of what is printed. */
    method Advance(ghost before: seq<byte>, ghost text: seq<byte>)
      requires Valid() && Follows(before, text) && NulFree(text)
      modifies this`offset
      ensures Valid() && Printed() == before + text
    {
      ghost var all := before + text + [NUL];
      ghost var end := |before| + |text|;
      assert buffer[..|all|][end] == NUL;
      assert forall i :: |before| <= i < end ==> buffer[..|all|][i] == text[i - |before|];
      UpdateOffset(end);
      assert offset == end;
      assert buffer[..end] == buffer[..|all|][..end] == before + text;
    }

    // ----- Strings -----

    /** The byte `b` escaped, at `at`; sprintf's terminator may be written behind it. */
    method PutEscaped(at: nat, b: byte) returns (next: nat)
      requires Valid() && b != NUL
      requires offset <= at && at + |JsonString.EscapeByte(b)| + 1 <= reserved < length
      modifies buffer
      ensures next == at + |JsonString.EscapeByte(b)|
      ensures buffer[..next] == old(buffer[..at]) + JsonString.EscapeByte(b)
    {
      if b > 31 && b != QUOTE && b != BACKSLASH {
        Put(at, [b]);
        next := at + 1;
      } else {
        Put(at, [BACKSLASH]);
        var letter := JsonString.EscapeLetter(b);
        if letter != NUL {
          Put(at + 1, [letter]);
          next := at + 2;
        } else {
          PutHex(at + 1, b);
          next := at + 6;
        }
      }
    }

    /** sprintf("u%04x"), terminator included. */
    method PutHex(at: nat, b: byte)
      requires Valid() && b < SPACE
      requires offset <= at && at + 6 <= reserved < length
      modifies buffer
      ensures buffer[..at + 5] == old(buffer[..at]) + JsonString.ControlEscape(b)[1..]
    {
      Put(at, JsonString.ControlEscape(b)[1..]);
      Put(at + 5, [NUL]);
    }

    /** print_string_ptr: counts the escapes, reserves exactly that much, writes the literal. */
    method PrintStringPtr(input: seq<byte>) returns (ok: bool)
      requires Valid() && NulFree(input)
      modifies this`buffer, this`length, this`reserved, buffer
      ensures Valid() && Capacity() == old(Capacity())
      ensures buffer == old(buffer) || (fresh(buffer) && !noalloc)
      ensures ok <==> offset + |JsonString.Quoted(input)| + 2 <= Capacity()
      ensures ok ==> Follows(old(Printed()), JsonString.Quoted(input))
    {
      var escapeCharacters := CountEscapes(input);
      var outputLength := |input| + escapeCharacters;
      ok := Ensure(outputLength + 3);
      if !ok {
        return;
      }
      PutQuoted(input, escapeCharacters);
    }

    /** The part of print_string_ptr behind the reservation. */
    method PutQuoted(input: seq<byte>, escapeCharacters: nat)
      requires Valid() && NulFree(input)
      requires |input| + escapeCharacters == |JsonString.Escape(input)|
      requires offset + |input| + escapeCharacters + 3 <= reserved < length
      modifies buffer
      ensures Holds(old(Printed()) + JsonString.Quoted(input) + [NUL])
    {
      hide JsonString.Escape;
      QuotedParts(Printed(), JsonString.Escape(input));
      Put(offset, [QUOTE]);
      PutBody(input, escapeCharacters);
      Put(offset + |input| + escapeCharacters + 1, [QUOTE, NUL]);
    }

    /** The characters between the quotes: copied when no character has to be escaped. */
    method PutBody(input: seq<byte>, escapeCharacters: nat)
      requires Valid() && NulFree(input)
      requires |input| + escapeCharacters == |JsonString.Escape(input)|
      requires offset + 1 + |JsonString.Escape(input)| + 1 <= reserved < length
      modifies buffer
      ensures buffer[..offset + 1 + |JsonString.Escape(input)|] == old(buffer[..offset + 1]) + JsonString.Escape(input)
    {
      if escapeCharacters == 0 {
        assert JsonString.Escape(input) == input by {
          JsonString.NothingEscaped(input);
        }
        Put(offset + 1, input);
      } else {
        PutAllEscaped(input);
      }
    }

    /** The second loop of print_string_ptr. */
    method PutAllEscaped(input: seq<byte>)
      requires Valid() && NulFree(input)
      requires offset + 1 + |JsonString.Escape(input)| + 1 <= reserved < length
      modifies buffer
      ensures buffer[..offset + 1 + |JsonString.Escape(input)|] == old(buffer[..offset + 1]) + JsonString.Escape(input)
    {
      ghost var head := buffer[..offset + 1];
      var i, at := 0, offset + 1;
      assert input[..0] == [] && input[0..] == input;
      while i < |input|
        invariant 0 <= i <= |input|
        invariant at > offset && at + |JsonString.Escape(input[i..])| == offset + 1 + |JsonString.Escape(input)|
        invariant buffer[..at] == head + JsonString.Escape(input[..i])
      {
        at := PutNextEscaped(input, i, at, head);
        i := i + 1;
      }
      assert input[..i] == input && input[i..] == [];
    }

    /** One turn of that loop. */
    method PutNextEscaped(input: seq<byte>, i: nat, at: nat, ghost head: seq<byte>) returns (next: nat)
      requires Valid() && NulFree(input) && i < |input| && offset < at
      requires at + |JsonString.Escape(input[i..])| < reserved < length
      requires buffer[..at] == head + JsonString.Escape(input[..i])
      modifies buffer
      ensures next > offset && next + |JsonString.Escape(input[i + 1..])| == at + |JsonString.Escape(input[i..])|
      ensures buffer[..next] == head + JsonString.Escape(input[..i + 1])
    {
      hide JsonString.Escape, JsonString.EscapeByte;
      JsonString.EscapeStep(input, i);
      next := PutEscaped(at, input[i]);
    }

    // ----- Values -----

    /** The cases null, false and true of print_value. */
    method PrintLiteral(text: seq<byte>) returns (ok: bool)
      requires Valid()
      modifies this`buffer, this`length, this`reserved, buffer
      ensures Valid() && Capacity() == old(Capacity())
      ensures buffer == old(buffer) || (fresh(buffer) && !noalloc)
      ensures ok <==> offset + |text| + 2 <= Capacity()
      ensures ok ==> Follows(old(Printed()), text)
    {
      ok := Ensure(|text| + 1);
      if ok {
        ghost var before := Printed();
        Put(offset, text + [NUL]);
        assert before + (text + [NUL]) == before + text + [NUL];
      }
    }

    /** print_number: unlike the other print functions it moves `offset` itself. */
    method PrintNumber(value: real) returns (ok: bool)
      requires Valid() && IsExactNumber(value)
      modifies this`buffer, this`length, this`reserved, this`offset, buffer
      ensures Valid() && Capacity() == old(Capacity())
      ensures buffer == old(buffer) || (fresh(buffer) && !noalloc)
      ensures ok <==> old(offset) + |JsonNumber.DecimalText(value.Floor)| + 2 <= Capacity()
      ensures ok ==> Follows(old(Printed()), JsonNumber.DecimalText(value.Floor))
    {
      var number := JsonNumber.DecimalText(value.Floor);
      JsonNumber.DecimalTextLength(value.Floor);
      if |number| > 25 {
        assert false; // the text of an exact integer never overruns the temporary buffer
      }
      ok := Ensure(|number| + 1);
      if ok {
        PutNumber(number);
        offset := offset + |number|;
      }
    }

    /** The copying loop of print_number, and its terminator. */
    method PutNumber(number: seq<byte>)
      requires Valid() && offset + |number| + 1 <= reserved < length
      modifies buffer
      ensures Holds(old(Printed()) + number + [NUL])
    {
      for i := 0 to |number|
        invariant buffer[..offset + i] == old(Printed()) + number[..i]
      {
        Put(offset + i, [number[i]]);
        assert number[..i + 1] == number[..i] + [number[i]];
      }
      assert number[..|number|] == number;
      Put(offset + |number|, [NUL]);
    }

    /** print_value. */
    method PrintValue(v: Json) returns (ok: bool)
      requires Valid() && Printable(v)
      modifies this, buffer
      ensures Valid() && Capacity() == old(Capacity())
      ensures buffer == old(buffer) || (fresh(buffer) && !noalloc)
      ensures ok <==> old(offset) + |Text(v, format, old(depth))| + 2 <= Capacity()
      ensures ok ==> depth == old(depth) && Follows(old(Printed()), Text(v, format, old(depth)))
      decreases v, 1
    {
      hide ItemsText, MembersText, InsideText, JsonString.Escape;
      match v {
        case Null => ok := PrintLiteral(TEXT_NULL);
        case False => ok := PrintLiteral(TEXT_FALSE);
        case True => ok := PrintLiteral(TEXT_TRUE);
        case Number(value) => ok := PrintNumber(value);
        case Raw(text) => ok := PrintLiteral(text);
        case Str(text) => ok := PrintStringPtr(text);
        case Arr(items) => ok := PrintArray(items);
        case Obj(members) => ok := PrintObject(members);
      }
    }

    /** print_value of a child followed by update_offset. */
    method PrintChild(v: Json) returns (ok: bool)
      requires Valid() && Printable(v)
      modifies this, buffer
      ensures Valid() && Capacity() == old(Capacity())
      ensures buffer == old(buffer) || (fresh(buffer) && !noalloc)
      ensures ok <==> old(offset) + |Text(v, format, old(depth))| + 2 <= Capacity()
      ensures ok ==> depth == old(depth) && Printed() == old(Printed()) + Text(v, format, old(depth))
      decreases v, 2
    {
      ok := PrintValue(v);
      if ok {
        TextIsNulFree(v, format, old(depth));
        Advance(old(Printed()), Text(v, format, old(depth)));
      }
    }

    // ----- Arrays -----

    /** One turn of the loop of print_array. */
    method PrintItem(items: seq<Json>, i: nat) returns (ok: bool)
      requires Valid() && i < |items| && Printable(items[i])
      modifies this, buffer
      ensures Valid() && Capacity() == old(Capacity())
      ensures buffer == old(buffer) || (fresh(buffer) && !noalloc)
      ensures ok <==> old(offset) + |ItemPiece(items, i, format, old(depth))| + 2 <= Capacity()
      ensures ok ==> depth == old(depth) && Printed() == old(Printed()) + ItemPiece(items, i, format, old(depth))
      decreases items, 3
    {
      ok := PrintChild(items[i]);
      if ok && i + 1 < |items| {
        ok := PutAndMove(ItemSeparator(format), 1, true);
      }
    }

    /** Reserves room for `text` and `spare` more bytes, writes it (with a terminator if asked) and moves behind it. */
    method PutAndMove(text: seq<byte>, spare: nat, terminate: bool) returns (ok: bool)
      requires Valid() && spare <= 1
      requires terminate ==> spare == 1
      requires spare == 0 ==> |text| > 0
      modifies this`buffer, this`length, this`reserved, this`offset, buffer
      ensures Valid() && Capacity() == old(Capacity())
      ensures buffer == old(buffer) || (fresh(buffer) && !noalloc)
      ensures ok <==> old(offset) + |text| + spare + 1 <= Capacity()
      ensures ok ==> Printed() == old(Printed()) + text
    {
      ok := Ensure(|text| + spare);
      if ok {
        Put(offset, text);
        if terminate {
          Put(offset + |text|, [NUL]);
        }
        offset := offset + |text|;
      }
    }

    /** The same turn, seen from the text `all` that the whole loop is to leave behind. */
    method PrintNextItem(items: seq<Json>, i: nat, ghost all: seq<byte>) returns (ok: bool)
      requires Valid() && i < |items| && forall k :: 0 <= k < |items| ==> Printable(items[k])
      requires Printed() + ItemsText(items[i..], format, depth) == all
      modifies this, buffer
      ensures Valid() && Capacity() == old(Capacity())
      ensures buffer == old(buffer) || (fresh(buffer) && !noalloc)
      ensures !ok ==> |all| + 2 > Capacity()
      ensures ok ==> offset + 2 <= Capacity()
      ensures ok ==> depth == old(depth) && Printed() + ItemsText(items[i + 1..], format, depth) == all
      decreases items, 4
    {
      hide ItemsText;
      ItemsTextStep(items, i, format, depth);
      Regroup(Printed(), ItemPiece(items, i, format, depth), ItemsText(items[i + 1..], format, depth));
      ok := PrintItem(items, i);
    }

    /** The loop of print_array. */
    method PrintItems(items: seq<Json>) returns (ok: bool)
      requires Valid() && forall i :: 0 <= i < |items| ==> Printable(items[i])
      modifies this, buffer
      ensures Valid() && Capacity() == old(Capacity())
      ensures buffer == old(buffer) || (fresh(buffer) && !noalloc)
      ensures ok <==> items == [] || old(offset) + |ItemsText(items, format, old(depth))| + 2 <= Capacity()
      ensures ok ==> depth == old(depth) && Printed() == old(Printed()) + ItemsText(items, format, old(depth))
      decreases items, 5
    {
      hide Text;
      ghost var all := old(Printed()) + ItemsText(items, format, depth);
      var i := 0;
      ok := true;
      assert items[0..] == items;
      while i < |items|
        invariant 0 <= i <= |items| && ok
        invariant Valid() && Capacity() == old(Capacity())
        invariant buffer == old(buffer) || (fresh(buffer) && !noalloc)
        invariant depth == old(depth)
        invariant Printed() + ItemsText(items[i..], format, depth) == all
        invariant i > 0 ==> offset + 2 <= Capacity()
      {
        ok := PrintNextItem(items, i, all);
        if !ok {
          return;
        }
        i := i + 1;
      }
      assert items[i..] == [];
    }

    /** print_array. */
    method PrintArray(items: seq<Json>) returns (ok: bool)
      requires Valid() && forall i :: 0 <= i < |items| ==> Printable(items[i])
      modifies this, buffer
      ensures Valid() && Capacity() == old(Capacity())
      ensures buffer == old(buffer) || (fresh(buffer) && !noalloc)
      ensures ok <==> old(offset) + |Text(Arr(items), format, old(depth))| + 2 <= Capacity()
      ensures ok ==> depth == old(depth) && Follows(old(Printed()), Text(Arr(items), format, old(depth)))
      decreases items, 6
    {
      hide ItemsText;
      ok := PutAndMove([LBRACKET], 0, false);
      if !ok {
        return;
      }
      depth := depth + 1;
      ok := PrintItems(items);
      if !ok {
        return;
      }
      ok := PrintLiteral([RBRACKET]);
      depth := depth - 1;
      ArrayParts(old(Printed()), ItemsText(items, format, old(depth) + 1));
    }

    // ----- Objects -----

    /** The tabs in front of a key or a closing brace. */
    method PutTabs(at: nat, n: nat)
      requires Valid() && offset <= at && at + n <= reserved < length
      modifies buffer
      ensures buffer[..at + n] == old(buffer[..at]) + Tabs(n)
    {
      for i := 0 to n
        invariant buffer[..at + i] == old(buffer[..at]) + Tabs(i)
      {
        Put(at + i, [TAB]);
        assert Tabs(i + 1) == Tabs(i) + [TAB];
      }
    }

    /** The indentation in front of a key. */
    method PrintIndent() returns (ok: bool)
      requires Valid()
      modifies this`buffer, this`length, this`reserved, this`offset, buffer
      ensures Valid() && Capacity() == old(Capacity())
      ensures buffer == old(buffer) || (fresh(buffer) && !noalloc)
      ensures ok <==> !format || old(offset) + depth + 1 <= Capacity()
      ensures ok ==> Printed() == old(Printed()) + Indent(format, depth)
    {
      ok := true;
      if format {
        ok := Ensure(depth);
        if ok {
          PutTabs(offset, depth);
          offset := offset + depth;
        }
      }
    }

    /** The key of a member: print_string_ptr and update_offset. */
    method PrintName(key: seq<byte>) returns (ok: bool)
      requires Valid() && NulFree(key)
      modifies this`buffer, this`length, this`reserved, this`offset, buffer
      ensures Valid() && Capacity() == old(Capacity())
      ensures buffer == old(buffer) || (fresh(buffer) && !noalloc)
      ensures ok <==> old(offset) + |JsonString.Quoted(key)| + 2 <= Capacity()
      ensures ok ==> Printed() == old(Printed()) + JsonString.Quoted(key)
    {
      ok := PrintStringPtr(key);
      if ok {
        JsonString.EscapeIsNulFree(key);
        Advance(old(Printed()), JsonString.Quoted(key));
      }
    }

    /** A member up to its value. */
    method PrintKey(key: seq<byte>) returns (ok: bool)
      requires Valid() && NulFree(key)
      modifies this`buffer, this`length, this`reserved, this`offset, buffer
      ensures Valid() && Capacity() == old(Capacity())
      ensures buffer == old(buffer) || (fresh(buffer) && !noalloc)
      ensures ok <==> old(offset) + |KeyText(key, format, depth)| + 1 <= Capacity()
      ensures ok ==> Printed() == old(Printed()) + KeyText(key, format, depth)
    {
      ok := PrintIndent();
      if !ok {
        return;
      }
      ok := PrintName(key);
      if !ok {
        return;
      }
      ok := PutAndMove(KeySeparator(format), 0, false);
      ThreeParts(old(Printed()), Indent(format, depth), JsonString.Quoted(key), KeySeparator(format));
    }

    /** One turn of the loop of print_object. */
    method PrintMember(members: seq<Member>, i: nat) returns (ok: bool)
      requires Valid() && i < |members| && PrintableMember(members[i])
      modifies this, buffer
      ensures Valid() && Capacity() == old(Capacity())
      ensures buffer == old(buffer) || (fresh(buffer) && !noalloc)
      ensures ok <==> old(offset) + |MemberPiece(members, i, format, old(depth))| + 2 <= Capacity()
      ensures ok ==> depth == old(depth) && Printed() == old(Printed()) + MemberPiece(members, i, format, old(depth))
      decreases members, 3
    {
      var m, last := members[i], i + 1 == |members|;
      ok := PrintKey(m.key);
      if !ok {
        return;
      }
      ok := PrintChild(m.value);
      if !ok {
        return;
      }
      ok := PutAndMove(MemberEnd(format, last), 1, true);
      ThreeParts(old(Printed()), KeyText(m.key, format, depth), Text(m.value, format, depth), MemberEnd(format, last));
    }

    /** The same turn, seen from the text `all` that the whole loop is to leave behind. */
    method PrintNextMember(members: seq<Member>, i: nat, ghost all: seq<byte>) returns (ok: bool)
      requires Valid() && i < |members| && forall k :: 0 <= k < |members| ==> PrintableMember(members[k])
      requires Printed() + MembersText(members[i..], format, depth) == all
      modifies this, buffer
      ensures Valid() && Capacity() == old(Capacity())
      ensures buffer == old(buffer) || (fresh(buffer) && !noalloc)
      ensures !ok ==> |all| + 2 > Capacity()
      ensures ok ==> offset + 2 <= Capacity()
      ensures ok ==> depth == old(depth) && Printed() + MembersText(members[i + 1..], format, depth) == all
      decreases members, 4
    {
      hide MembersText, MemberText;
      MembersTextStep(members, i, format, depth);
      Regroup(Printed(), MemberPiece(members, i, format, depth), MembersText(members[i + 1..], format, depth));
      ok := PrintMember(members, i);
    }

    /** The loop of print_object. */
    method PrintMembers(members: seq<Member>) returns (ok: bool)
      requires Valid() && forall i :: 0 <= i < |members| ==> PrintableMember(members[i])
      modifies this, buffer
      ensures Valid() && Capacity() == old(Capacity())
      ensures buffer == old(buffer) || (fresh(buffer) && !noalloc)
      ensures ok <==> members == [] || old(offset) + |MembersText(members, format, old(depth))| + 2 <= Capacity()
      ensures ok ==> depth == old(depth) && Printed() == old(Printed()) + MembersText(members, format, old(depth))
      decreases members, 5
    {
      hide MemberText;
      ghost var all := old(Printed()) + MembersText(members, format, depth);
      var i := 0;
      ok := true;
      assert members[0..] == members;
      while i < |members|
        invariant 0 <= i <= |members| && ok
        invariant Valid() && Capacity() == old(Capacity())
        invariant buffer == old(buffer) || (fresh(buffer) && !noalloc)
        invariant depth == old(depth)
        invariant Printed() + MembersText(members[i..], format, depth) == all
        invariant i > 0 ==> offset + 2 <= Capacity()
      {
        ok := PrintNextMember(members, i, all);
        if !ok {
          return;
        }
        i := i + 1;
      }
      assert members[i..] == [];
    }

    /** The closing brace of print_object, indented one level less than the members. */
    method PrintClosing() returns (ok: bool)
      requires Valid() && depth > 0
      modifies this`buffer, this`length, this`reserved, buffer
      ensures Valid() && Capacity() == old(Capacity())
      ensures buffer == old(buffer) || (fresh(buffer) && !noalloc)
      ensures ok <==> offset + |Indent(format, depth - 1)| + 3 <= Capacity()
      ensures ok ==> Follows(old(Printed()), Indent(format, depth - 1) + [RBRACE])
    {
      ok := Ensure(if format then depth + 1 else 2);
      if ok {
        ClosingParts(Printed(), Indent(format, depth - 1));
        var at := PutClosingTabs();
        Put(at, [RBRACE, NUL]);
      }
    }

    method PutClosingTabs() returns (at: nat)
      requires Valid() && depth > 0 && offset + |Indent(format, depth - 1)| <= reserved < length
      modifies buffer
      ensures at == offset + |Indent(format, depth - 1)|
      ensures buffer[..at] == old(Printed()) + Indent(format, depth - 1)
    {
      at := offset;
      if format {
        PutTabs(at, depth - 1);
        at := at + (depth - 1);
      }
    }

    /** print_object. */
    method PrintObject(members: seq<Member>) returns (ok: bool)
      requires Valid() && forall i :: 0 <= i < |members| ==> PrintableMember(members[i])
      modifies this, buffer
      ensures Valid() && Capacity() == old(Capacity())
      ensures buffer == old(buffer) || (fresh(buffer) && !noalloc)
      ensures ok <==> old(offset) + |Text(Obj(members), format, old(depth))| + 2 <= Capacity()
      ensures ok ==> depth == old(depth) && Follows(old(Printed()), Text(Obj(members), format, old(depth)))
      decreases members, 7
    {
      hide InsideText;
      ok := PrintInside(members);
      if !ok {
        return;
      }
      ok := PrintClosing();
      depth := depth - 1;
      ClosedParts(old(Printed()), InsideText(members, format, depth), Indent(format, depth));
    }

    /** print_object up to its closing brace; `depth` stays one deeper. */
    method PrintInside(members: seq<Member>) returns (ok: bool)
      requires Valid() && forall i :: 0 <= i < |members| ==> PrintableMember(members[i])
      modifies this, buffer
      ensures Valid() && Capacity() == old(Capacity())
      ensures buffer == old(buffer) || (fresh(buffer) && !noalloc)
      ensures ok <==> old(offset) + |InsideText(members, format, old(depth))| + 2 <= Capacity()
      ensures ok ==> depth == old(depth) + 1 && Printed() == old(Printed()) + InsideText(members, format, old(depth))
      decreases members, 6
    {
      hide MemberText;
      ok := PutAndMove(ObjectOpening(format), 1, false);
      if !ok {
        return;
      }
      depth := depth + 1;
      ok := PrintMembers(members);
      Regroup(old(Printed()), ObjectOpening(format), MembersText(members, format, old(depth) + 1));
    }
  }

  lemma QuotedParts(before: seq<byte>, escaped: seq<byte>)
    ensures before + [QUOTE] + escaped + [QUOTE, NUL] == before + ([QUOTE] + escaped + [QUOTE]) + [NUL]
  {
  }

  lemma ArrayParts(before: seq<byte>, items: seq<byte>)
    ensures before + [LBRACKET] + items + [RBRACKET] == before + ([LBRACKET] + items + [RBRACKET])
  {
  }

  lemma ThreeParts(before: seq<byte>, a: seq<byte>, b: seq<byte>, c: seq<byte>)
    ensures before + a + b + c == before + (a + b + c)
  {
  }

  lemma ClosingParts(before: seq<byte>, indent: seq<byte>)
    ensures before + indent + [RBRACE, NUL] == before + (indent + [RBRACE]) + [NUL]
  {
  }

  lemma ClosedParts(before: seq<byte>, inside: seq<byte>, indent: seq<byte>)
    ensures before + inside + (indent + [RBRACE]) == before + (inside + indent + [RBRACE])
  {
  }

  /** The first loop of print_string_ptr: the number of characters that escaping adds. */
  method CountEscapes(input: seq<byte>) returns (n: nat)
    ensures |input| + n == |JsonString.Escape(input)|
  {
    n := 0;
    for i := 0 to |input|
      invariant i + n == |JsonString.Escape(input[..i])|
    {
      JsonString.EscapeStep(input, i);
      if JsonString.EscapeLetter(input[i]) != NUL {
        n := n + 1;
      } else if input[i] < 32 {
        n := n + 5;
      }
    }
    assert input[..|input|] == input;
  }

  /** realloc: the old block is kept as far as the new one reaches, the rest of the new one is arbitrary. */
  method Reallocate(block: array<byte>, newsize: nat) returns (moved: array<byte>)
    ensures fresh(moved) && moved.Length == newsize
    ensures var kept := if newsize < block.Length then newsize else block.Length;
            moved[..kept] == block[..kept]
  {
    moved := new byte[newsize];
    forall i | 0 <= i < newsize && i < block.Length {
      moved[i] := block[i];
    }
  }

  // ----- The print functions of the interface -----

  /** print (cJSON_Print and cJSON_PrintUnformatted): the result is exactly as large as the text and its terminator. */
  method Print(item: Json, format: bool) returns (printed: array?<byte>)
    requires Printable(item)
    ensures printed != null <==> |Text(item, format, 0)| + 2 <= INT_MAX
    ensures printed != null ==> fresh(printed) && printed[..] == Text(item, format, 0) + [NUL]
  {
    hide Text;
    var block := new byte[256];
    var p := new PrintBuffer(block, false, format);
    var ok := p.PrintValue(item);
    if !ok {
      return null;
    }
    ghost var text := Text(item, format, 0);
    TextIsNulFree(item, format, 0);
    assert p.buffer[..|text| + 1] == text + [NUL];
    p.Advance([], text);
    assert p.offset == |text|;
    printed := Reallocate(p.buffer, p.offset + 1);
    assert printed[..] == printed[..|text| + 1] == text + [NUL];
  }

  /** A buffer that begins with a text and its NUL reads as that text. */
  lemma ReadsAs(buffer: array<byte>, text: seq<byte>)
    requires NulFree(text) && |text| < buffer.Length && buffer[..|text| + 1] == text + [NUL]
    ensures CString(buffer[..]) == text
  {
    assert buffer[..][..|text| + 1] == buffer[..|text| + 1];
    CStringOfText(buffer[..], text);
  }

  /** cJSON_PrintBuffered, with a guess of the size. */
  method PrintBuffered(item: Json, prebuffer: int, format: bool) returns (text: array?<byte>)
    requires Printable(item) && prebuffer <= INT_MAX
    ensures text != null <==> 0 <= prebuffer && |Text(item, format, 0)| + 2 <= INT_MAX
    ensures text != null ==> fresh(text) && CString(text[..]) == Text(item, format, 0)
  {
    if prebuffer < 0 {
      return null;
    }
    hide Text;
    var block := new byte[prebuffer];
    var p := new PrintBuffer(block, false, format);
    var ok := p.PrintValue(item);
    if !ok {
      return null;
    }
    TextIsNulFree(item, format, 0);
    ReadsAs(p.buffer, Text(item, format, 0));
    return p.buffer;
  }

  /**
   cJSON_PrintPreallocated: succeeds exactly when the `len` bytes of the caller hold the text, its terminator and
   one byte more. The header advises five bytes more than the text and its terminator need.
   */
  method PrintPreallocated(item: Json, buf: array<byte>, len: int, format: bool) returns (ok: bool)
    requires Printable(item)
    requires len <= INT_MAX && (0 <= len ==> buf.Length == len)
    modifies buf
    ensures ok <==> |Text(item, format, 0)| + 2 <= len
    ensures ok ==> CString(buf[..]) == Text(item, format, 0)
  {
    hide Text;
    if len < 0 {
      return false;
    }
    var p := new PrintBuffer(buf, true, format);
    ok := p.PrintValue(item);
    if ok {
      TextIsNulFree(item, format, 0);
      ReadsAs(buf, Text(item, format, 0));
    }
  }
}
