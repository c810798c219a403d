/**
 cJSON_Minify without its scan: a text is made of white space, comments, string literals and other
 characters, and minifying keeps the last two. The scan stays inside the text exactly when it can be
 divided in this way, that is, when every comment and every literal it comes to is closed.
 */
module MinifyPieces {
  import opened Bytes
  import opened Minify

  datatype Piece =
    | Blank(b: byte)
    | LineComment(body: seq<byte>)
    | BlockComment(body: seq<byte>)
    | Literal(units: seq<seq<byte>>)
    | Other(b: byte)

  /** Does a comment end here? */
  predicate Closes(s: seq<byte>, i: nat)
    requires i + 1 < |s|
  {
    s[i] == ASTERISK && s[i + 1] == SLASH
  }

  /** A character of a literal, or a backslash and the character behind it. */
  predicate IsUnit(u: seq<byte>) {
    || (|u| == 1 && u[0] != NUL && u[0] != QUOTE && u[0] != BACKSLASH)
    || (|u| == 2 && u[0] == BACKSLASH && u[1] != NUL)
  }

  function Units(units: seq<seq<byte>>): seq<byte> {
    if units == [] then [] else units[0] + Units(units[1..])
  }

  function PieceText(p: Piece): seq<byte> {
    match p
    case Blank(b) => [b]
    case LineComment(body) => [SLASH, SLASH] + body
    case BlockComment(body) => [SLASH] + body + [ASTERISK, SLASH]
    case Literal(units) => [QUOTE] + Units(units) + [QUOTE]
    case Other(b) => [b]
  }

  /**
   Can the piece stand in front of the text next? A line comment ends at a line break or at the end; a block
   comment at its first closing pair, whose asterisk may be the opening one; and a slash begins no comment.
   */
  predicate ValidPiece(p: Piece, next: seq<byte>) {
    match p
    case Blank(b) => IsSpace(b)
    case LineComment(body) => NulFree(body) && (forall i :: 0 <= i < |body| ==> body[i] != NEWLINE)
      && (next == [] || next[0] == NEWLINE)
    case BlockComment(body) =>
      && NulFree(body) && (body != [] ==> body[0] == ASTERISK)
      && forall i :: 0 <= i < |body| ==> !Closes(body + [ASTERISK, SLASH], i)
    case Literal(units) => forall i :: 0 <= i < |units| ==> IsUnit(units[i])
    case Other(b) =>
      && b != NUL && b != QUOTE && !IsSpace(b)
      && (b == SLASH ==> next == [] || (next[0] != SLASH && next[0] != ASTERISK))
  }

  function PiecesText(ps: seq<Piece>): seq<byte> {
    if ps == [] then [] else PieceText(ps[0]) + PiecesText(ps[1..])
  }

  predicate ValidPieces(ps: seq<Piece>) {
    ps == [] || (ValidPiece(ps[0], PiecesText(ps[1..])) && ValidPieces(ps[1..]))
  }

  /** What is left of the pieces: literals and other characters. */
  function Kept(ps: seq<Piece>): seq<byte> {
    if ps == [] then []
    else (if ps[0].Literal? || ps[0].Other? then PieceText(ps[0]) else []) + Kept(ps[1..])
  }

  // ----- Divided texts are minified -----

  lemma {:induction false} UnitsLength(units: seq<seq<byte>>, rest: seq<byte>)
    requires forall i :: 0 <= i < |units| ==> IsUnit(units[i])
    ensures LiteralLength(Units(units) + [QUOTE] + rest) == |Units(units)| + 1
  {
    var s := Units(units) + [QUOTE] + rest;
    if units != [] {
      var u, others := units[0], Units(units[1..]) + [QUOTE] + rest;
      UnitsLength(units[1..], rest);
      assert s == u + others;
      assert s[|u|..] == others;
    }
  }

  lemma LiteralIsKept(units: seq<seq<byte>>, rest: seq<byte>)
    requires forall i :: 0 <= i < |units| ==> IsUnit(units[i])
    ensures var q := PieceText(Literal(units)); Minify.Minify(q + rest) == Prepend(q, Minify.Minify(rest))
  {
    hide LiteralLength, Minify.Minify, Units;
    var q := PieceText(Literal(units));
    UnitsLength(units, rest);
    assert q[1..] == Units(units) + [QUOTE];
    LiteralStays(q, rest);
  }

  /** A line comment is removed up to the line break or the terminator. */
  lemma LineCommentGoes(body: seq<byte>, rest: seq<byte>)
    requires ValidPiece(LineComment(body), rest)
    ensures Minify.Minify([SLASH, SLASH] + body + (rest + [NUL])) == Minify.Minify(rest + [NUL])
  {
    hide LineEnd;
    var s := [SLASH, SLASH] + body + (rest + [NUL]);
    assert NulFree([SLASH, SLASH] + body);
    LineStops([SLASH, SLASH] + body, rest + [NUL]);
  }

  lemma {:induction false} LineStops(body: seq<byte>, rest: seq<byte>)
    requires NulFree(body) && forall i :: 0 <= i < |body| ==> body[i] != NEWLINE
    requires rest != [] && (rest[0] == NUL || rest[0] == NEWLINE)
    ensures LineEnd(body + rest) == rest
  {
    if body == [] {
      assert body + rest == rest;
    } else {
      assert (body + rest)[1..] == body[1..] + rest;
      LineStops(body[1..], rest);
    }
  }

  /** The scan finds the first closing pair. */
  lemma {:induction false} CommentEnds(body: seq<byte>, rest: seq<byte>)
    requires NulFree(body)
    requires forall i :: 0 <= i < |body| ==> !Closes(body + [ASTERISK, SLASH], i)
    ensures CommentEnd(body + [ASTERISK, SLASH] + rest) == rest
  {
    var s := body + [ASTERISK, SLASH] + rest;
    if body == [] {
      assert s[2..] == rest;
    } else {
      var shorter := body[1..] + [ASTERISK, SLASH];
      assert s[1..] == body[1..] + [ASTERISK, SLASH] + rest;
      assert (body + [ASTERISK, SLASH])[1..] == shorter;
      assert !Closes(body + [ASTERISK, SLASH], 0);
      forall i | 0 <= i < |body[1..]| ensures !Closes(shorter, i) {
        assert !Closes(body + [ASTERISK, SLASH], i + 1);
      }
      CommentEnds(body[1..], rest);
    }
  }

  /** A block comment is removed, whatever follows. */
  lemma BlockCommentGoes(body: seq<byte>, rest: seq<byte>)
    requires ValidPiece(BlockComment(body), rest)
    ensures Minify.Minify(PieceText(BlockComment(body)) + rest) == Minify.Minify(rest)
  {
    hide CommentEnd;
    var tail := body + [ASTERISK, SLASH] + rest;
    var s := PieceText(BlockComment(body)) + rest;
    assert s == [SLASH] + tail;
    CommentEnds(body, rest);
    SlashInFront(tail);
  }

  lemma SlashInFront(tail: seq<byte>)
    requires |tail| > 1 && tail[0] == ASTERISK
    ensures CommentEnd([SLASH] + tail) == CommentEnd(tail)
  {
    assert ([SLASH] + tail)[1..] == tail;
  }

  lemma ByteIsKept(b: byte, rest: seq<byte>)
    requires ValidPiece(Other(b), rest)
    ensures Minify.Minify([b] + (rest + [NUL])) == Prepend([b], Minify.Minify(rest + [NUL]))
  {
    assert ([b] + (rest + [NUL]))[1..] == rest + [NUL];
  }

  lemma BlankGoes(b: byte, rest: seq<byte>)
    requires IsSpace(b)
    ensures Minify.Minify([b] + rest) == Minify.Minify(rest)
  {
    assert ([b] + rest)[1..] == rest;
  }

  lemma {:induction false} PiecesMinify(ps: seq<Piece>)
    requires ValidPieces(ps)
    ensures Minify.Minify(PiecesText(ps) + [NUL]) == Minified(Kept(ps))
  {
    if ps == [] {
      AtTerminator([NUL]);
      assert [] + [NUL] == [NUL];
    } else {
      hide Minify.Minify, ValidPiece, PieceText;
      var p, rest := ps[0], PiecesText(ps[1..]);
      PiecesMinify(ps[1..]);
      assert PiecesText(ps) + [NUL] == PieceText(p) + (rest + [NUL]);
      PieceMinifies(p, rest);
      PrependNothing(Minify.Minify(rest + [NUL]));
    }
  }

  lemma PieceMinifies(p: Piece, rest: seq<byte>)
    requires ValidPiece(p, rest)
    ensures Minify.Minify(PieceText(p) + (rest + [NUL]))
         == Prepend(if p.Literal? || p.Other? then PieceText(p) else [], Minify.Minify(rest + [NUL]))
  {
    hide Minify.Minify;
    PrependNothing(Minify.Minify(rest + [NUL]));
    match p {
      case Blank(b) => BlankGoes(b, rest + [NUL]);
      case LineComment(body) => LineCommentGoes(body, rest);
      case BlockComment(body) => BlockCommentGoes(body, rest + [NUL]);
      case Literal(units) => LiteralIsKept(units, rest + [NUL]);
      case Other(b) => ByteIsKept(b, rest);
    }
  }

  // ----- Minified texts are divided -----

  lemma {:induction false} LineDivides(s: seq<byte>) returns (body: seq<byte>, rest: seq<byte>)
    requires NulFree(s)
    ensures s == body + rest && LineEnd(s + [NUL]) == rest + [NUL]
    ensures (forall i :: 0 <= i < |body| ==> body[i] != NEWLINE) && (rest == [] || rest[0] == NEWLINE)
  {
    if s == [] || s[0] == NEWLINE {
      body, rest := [], s;
    } else {
      body, rest := LineDivides(s[1..]);
      assert (s + [NUL])[1..] == s[1..] + [NUL];
      body := [s[0]] + body;
    }
  }

  lemma {:induction false} BlockDivides(s: seq<byte>) returns (body: seq<byte>, rest: seq<byte>)
    requires NulFree(s) && CommentEnd(s + [NUL]) != []
    ensures s == body + [ASTERISK, SLASH] + rest && CommentEnd(s + [NUL]) == rest + [NUL]
    ensures forall i :: 0 <= i < |body| ==> !Closes(body + [ASTERISK, SLASH], i)
  {
    var t := s + [NUL];
    assert s != [] && |s| > 1;
    if s[0] == ASTERISK && s[1] == SLASH {
      body, rest := [], s[2..];
      assert t[2..] == rest + [NUL];
    } else {
      assert t[1..] == s[1..] + [NUL];
      var shorter;
      shorter, rest := BlockDivides(s[1..]);
      body := [s[0]] + shorter;
      var closed := body + [ASTERISK, SLASH];
      assert closed[1..] == shorter + [ASTERISK, SLASH];
      assert closed[0] == s[0] && closed[1] == s[1];
      forall i | 0 <= i < |body| ensures !Closes(closed, i) {
        if i > 0 {
          assert !Closes(shorter + [ASTERISK, SLASH], i - 1);
          assert closed[i] == closed[1..][i - 1] && closed[i + 1] == closed[1..][i];
        }
      }
    }
  }

  lemma {:induction false} LiteralDivides(s: seq<byte>) returns (units: seq<seq<byte>>, rest: seq<byte>)
    requires NulFree(s) && LiteralLength(s + [NUL]) > 0
    ensures s == Units(units) + [QUOTE] + rest && LiteralLength(s + [NUL]) == |Units(units)| + 1
    ensures forall i :: 0 <= i < |units| ==> IsUnit(units[i])
  {
    var t := s + [NUL];
    if s[0] == QUOTE {
      units, rest := [], s[1..];
    } else {
      var u := if s[0] == BACKSLASH then s[..2] else s[..1];
      assert t[|u|..] == s[|u|..] + [NUL];
      var others;
      others, rest := LiteralDivides(s[|u|..]);
      units := [u] + others;
      assert units[1..] == others;
      assert s == u + s[|u|..];
    }
  }

  /** The pieces the scan goes through, when it stays inside the text. */
  lemma {:induction false} Divide(s: seq<byte>) returns (ps: seq<Piece>)
    requires NulFree(s) && Minify.Minify(s + [NUL]).Minified?
    ensures ValidPieces(ps) && PiecesText(ps) == s
    decreases |s|
  {
    if s == [] {
      return [];
    }
    var p, rest := FirstPiece(s);
    NulFreeConcat(PieceText(p), rest);
    var others := Divide(rest);
    ps := [p] + others;
    assert ps[1..] == others;
  }

  lemma FirstPiece(s: seq<byte>) returns (p: Piece, rest: seq<byte>)
    requires s != [] && NulFree(s) && Minify.Minify(s + [NUL]).Minified?
    ensures s == PieceText(p) + rest && ValidPiece(p, rest) && |rest| < |s|
    ensures Minify.Minify(rest + [NUL]).Minified?
  {
    hide LineEnd, CommentEnd, LiteralLength;
    var t := s + [NUL];
    assert t[1..] == s[1..] + [NUL];
    if IsSpace(s[0]) {
      p, rest := Blank(s[0]), s[1..];
    } else if s[0] == SLASH && |s| > 1 && s[1] == SLASH {
      p, rest := FirstLine(s);
    } else if s[0] == SLASH && |s| > 1 && s[1] == ASTERISK {
      p, rest := FirstBlock(s);
    } else if s[0] == QUOTE {
      p, rest := FirstLiteral(s);
    } else {
      p, rest := Other(s[0]), s[1..];
    }
  }

  lemma FirstLiteral(s: seq<byte>) returns (p: Piece, rest: seq<byte>)
    requires s != [] && NulFree(s) && s[0] == QUOTE && Minify.Minify(s + [NUL]).Minified?
    ensures p.Literal? && s == PieceText(p) + rest && ValidPiece(p, rest) && |rest| < |s|
    ensures Minify.Minify(rest + [NUL]).Minified?
  {
    hide LiteralLength, Units;
    var t := s + [NUL];
    assert t[1..] == s[1..] + [NUL];
    var units;
    units, rest := LiteralDivides(s[1..]);
    p := Literal(units);
    assert s == [QUOTE] + s[1..];
    assert t == PieceText(p) + (rest + [NUL]);
    assert t[|PieceText(p)|..] == rest + [NUL];
  }

  lemma FirstLine(s: seq<byte>) returns (p: Piece, rest: seq<byte>)
    requires |s| > 1 && NulFree(s) && s[0] == SLASH && s[1] == SLASH && Minify.Minify(s + [NUL]).Minified?
    ensures p.LineComment? && s == PieceText(p) + rest && ValidPiece(p, rest) && |rest| < |s|
    ensures Minify.Minify(rest + [NUL]).Minified?
  {
    hide LineEnd;
    var line;
    line, rest := LineDivides(s);
    assert |line| >= 2 by {
      assert s == line + rest;
    }
    p := LineComment(line[2..]);
    assert line == [SLASH, SLASH] + line[2..];
    NulFreeConcat(line, rest);
  }

  lemma FirstBlock(s: seq<byte>) returns (p: Piece, rest: seq<byte>)
    requires |s| > 1 && NulFree(s) && s[0] == SLASH && s[1] == ASTERISK && Minify.Minify(s + [NUL]).Minified?
    ensures p.BlockComment? && s == PieceText(p) + rest && ValidPiece(p, rest) && |rest| < |s|
    ensures Minify.Minify(rest + [NUL]).Minified?
  {
    hide CommentEnd;
    assert s + [NUL] == [SLASH] + (s[1..] + [NUL]);
    SlashInFront(s[1..] + [NUL]);
    var body;
    body, rest := BlockDivides(s[1..]);
    p := BlockComment(body);
    assert s == [SLASH] + s[1..];
    NulFreeConcat(body, [ASTERISK, SLASH] + rest);
    assert s[1..] == body + ([ASTERISK, SLASH] + rest);
  }

  /**
   On a C string the scan stays inside the text if and only if the text can be divided into closed pieces;
   and then it leaves the literals and the other characters, whichever division is taken.
   */
  lemma MinifiedIffDivided(s: seq<byte>)
    requires NulFree(s)
    ensures Minify.Minify(s + [NUL]).Minified? <==> exists ps :: ValidPieces(ps) && PiecesText(ps) == s
    ensures forall ps :: ValidPieces(ps) && PiecesText(ps) == s ==> Minify.Minify(s + [NUL]) == Minified(Kept(ps))
  {
    hide Minify.Minify, ValidPieces, PiecesText, Kept;
    if Minify.Minify(s + [NUL]).Minified? {
      var ps := Divide(s);
    }
    forall ps | ValidPieces(ps) && PiecesText(ps) == s
      ensures Minify.Minify(s + [NUL]) == Minified(Kept(ps))
    {
      PiecesMinify(ps);
    }
  }

  /** A quote alone is a text on which the scan runs past the terminator; so is a comment that is only opened. */
  lemma UnclosedOverruns()
    ensures Minify.Minify([QUOTE, NUL]) == Overrun
    ensures Minify.Minify([SLASH, ASTERISK, NUL]) == Overrun
  {
    assert [QUOTE, NUL][1..] == [NUL] && LiteralLength([NUL]) == 0;
    assert [SLASH, ASTERISK, NUL][1..] == [ASTERISK, NUL] && [ASTERISK, NUL][1..] == [NUL];
    assert CommentEnd([NUL]) == [] && CommentEnd([ASTERISK, NUL]) == [];
  }
}
