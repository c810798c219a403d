/**
 Unsigned 8-bit characters and NUL-terminated strings, as the C sources use them.
 */
module Bytes {

  type byte = b: int | 0 <= b < 256

  const NUL: byte := 0
  const BACKSPACE: byte := 8
  const TAB: byte := 9
  const NEWLINE: byte := 10
  const FORM_FEED: byte := 12
  const CARRIAGE_RETURN: byte := 13
  const SPACE: byte := 32
  const QUOTE: byte := 34        // "
  const ASTERISK: byte := 42     // *
  const PLUS: byte := 43         // +
  const COMMA: byte := 44        // ,
  const MINUS: byte := 45        // -
  const POINT: byte := 46        // .
  const SLASH: byte := 47        // /
  const DIGIT_0: byte := 48
  const DIGIT_9: byte := 57
  const COLON: byte := 58        // :
  const UPPER_A: byte := 65
  const UPPER_E: byte := 69
  const UPPER_F: byte := 70
  const UPPER_Z: byte := 90
  const LBRACKET: byte := 91     // [
  const BACKSLASH: byte := 92
  const RBRACKET: byte := 93     // ]
  const LOWER_A: byte := 97
  const LOWER_B: byte := 98
  const LOWER_E: byte := 101
  const LOWER_F: byte := 102
  const LOWER_N: byte := 110
  const LOWER_R: byte := 114
  const LOWER_T: byte := 116
  const LOWER_U: byte := 117
  const LBRACE: byte := 123      // {
  const RBRACE: byte := 125      // }

  const TEXT_NULL: seq<byte> := [110, 117, 108, 108]
  const TEXT_FALSE: seq<byte> := [102, 97, 108, 115, 101]
  const TEXT_TRUE: seq<byte> := [116, 114, 117, 101]

  const INT_MAX: int := 0x7FFF_FFFF
  const INT_MIN: int := -0x8000_0000

  predicate NulFree(s: seq<byte>) {
    forall i :: 0 <= i < |s| ==> s[i] != NUL
  }

  lemma NulFreeConcat(a: seq<byte>, b: seq<byte>)
    ensures NulFree(a + b) <==> NulFree(a) && NulFree(b)
  {
    if NulFree(a + b) {
      assert forall i :: 0 <= i < |a| ==> a[i] == (a + b)[i];
      assert forall i :: 0 <= i < |b| ==> b[i] == (a + b)[|a| + i];
    }
  }

  /** A C string together with its terminator: one NUL, at the very end. */
  predicate Terminated(s: seq<byte>) {
    |s| > 0 && s[|s| - 1] == NUL && NulFree(s[..|s| - 1])
  }

  /** The string a C reader sees in a buffer: everything before the first NUL. */
  function CString(s: seq<byte>): (r: seq<byte>)
    ensures NulFree(r)
    ensures r <= s
    ensures |r| < |s| ==> s[|r|] == NUL
  {
    if s == [] || s[0] == NUL then [] else [s[0]] + CString(s[1..])
  }

  lemma {:induction false} CStringOfNulFree(s: seq<byte>)
    requires NulFree(s)
    ensures CString(s) == s
  {
    if s != [] {
      CStringOfNulFree(s[1..]);
    }
  }

  /** A buffer that begins with a NUL-free text and its terminator reads as that text. */
  lemma {:induction false} CStringOfText(s: seq<byte>, text: seq<byte>)
    requires NulFree(text) && text + [NUL] <= s
    ensures CString(s) == text
  {
    assert s[0] == (text + [NUL])[0];
    if text != [] {
      assert (text + [NUL])[1..] == text[1..] + [NUL];
      CStringOfText(s[1..], text[1..]);
    }
  }

  function Repeat(b: byte, n: nat): (r: seq<byte>)
    ensures |r| == n
    ensures forall i :: 0 <= i < n ==> r[i] == b
  {
    seq(n, _ => b)
  }
}
