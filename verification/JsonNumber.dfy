/**
 Number texts: the decimal form of the integers that %1.15g prints exactly, and the strtod grammar the parser
 reads. A number is its exact decimal value; rounding to binary is not part of this model.
 */
module JsonNumber {
  import opened Bytes

  function Pow10(k: nat): (p: nat)
    ensures p > 0
  {
    if k == 0 then 1 else 10 * Pow10(k - 1)
  }

  /** Integers of at most 15 digits. */
  predicate IsExact(n: int) {
    n < Pow10(15) as int && -n < Pow10(15) as int
  }

  // ----- Printing -----

  function Digits(n: nat): (s: seq<byte>)
    ensures |s| > 0
    ensures forall i :: 0 <= i < |s| ==> DIGIT_0 <= s[i] <= DIGIT_9
  {
    if n < 10 then [DIGIT_0 + n] else Digits(n / 10) + [DIGIT_0 + n % 10]
  }

  /** sprintf("%1.15g") of an integer of at most 15 digits, and sprintf("%d"). */
  function DecimalText(n: int): (s: seq<byte>)
    ensures |s| > 0
  {
    if n < 0 then [MINUS] + Digits(-n) else Digits(n)
  }

  lemma {:induction false} DigitsLength(n: nat, k: nat)
    requires k > 0 && n < Pow10(k)
    ensures |Digits(n)| <= k
  {
    if n >= 10 {
      assert k > 1;
      DigitsLength(n / 10, k - 1);
    }
  }

  /** At most 16 characters, so the 26-byte buffer of print_number and the 63 bytes of parse_number hold them. */
  lemma DecimalTextLength(n: int)
    requires IsExact(n)
    ensures |DecimalText(n)| <= 16
  {
    DigitsLength(if n < 0 then -n else n, 15);
  }

  // ----- Reading -----

  predicate IsDigit(b: byte) {
    DIGIT_0 <= b <= DIGIT_9
  }

  /** The characters parse_number copies before it calls strtod. */
  predicate IsNumberByte(b: byte) {
    IsDigit(b) || b == PLUS || b == MINUS || b == LOWER_E || b == UPPER_E || b == POINT
  }

  const NUMBER_LIMIT: nat := 63

  /** The length of the longest prefix of number characters, cut off at `limit`. */
  function TokenLength(s: seq<byte>, limit: nat): (n: nat)
    ensures n <= limit && n <= |s|
    ensures forall i :: 0 <= i < n ==> IsNumberByte(s[i])
    ensures n == limit || n == |s| || !IsNumberByte(s[n])
  {
    if limit == 0 || s == [] || !IsNumberByte(s[0]) then 0 else 1 + TokenLength(s[1..], limit - 1)
  }

  /** The end of the digits that start at `p`. */
  function DigitRun(s: seq<byte>, p: nat): (q: nat)
    requires p <= |s|
    ensures p <= q <= |s|
    ensures forall i :: p <= i < q ==> IsDigit(s[i])
    ensures q < |s| ==> !IsDigit(s[q])
    decreases |s| - p
  {
    if p < |s| && IsDigit(s[p]) then DigitRun(s, p + 1) else p
  }

  function DigitsValue(s: seq<byte>): (v: nat)
    requires forall i :: 0 <= i < |s| ==> IsDigit(s[i])
  {
    if s == [] then 0
    else
      var last := s[|s| - 1];
      assert IsDigit(last);
      DigitsValue(s[..|s| - 1]) * 10 + (last as int - DIGIT_0)
  }

  function SignEnd(s: seq<byte>, p: nat): (q: nat)
    requires p <= |s|
    ensures p <= q <= |s|
  {
    if p < |s| && (s[p] == MINUS || s[p] == PLUS) then p + 1 else p
  }

  /** Where the exponent ends when digits follow the E (and its sign); otherwise the E is not part of the number. */
  function ExponentEnd(s: seq<byte>, p: nat): (q: nat)
    requires p <= |s|
    ensures p <= q <= |s|
  {
    if p < |s| && (s[p] == LOWER_E || s[p] == UPPER_E) then
      var digits := SignEnd(s, p + 1);
      if DigitRun(s, digits) > digits then DigitRun(s, digits) else p
    else
      p
  }

  function Scaled(mantissa: real, s: seq<byte>, p: nat): real
    requires p < |s| && p < ExponentEnd(s, p)
  {
    var digits := SignEnd(s, p + 1);
    var exponent := DigitsValue(s[digits..ExponentEnd(s, p)]);
    if s[p + 1] == MINUS then mantissa / Pow10(exponent) as real else mantissa * Pow10(exponent) as real
  }

  /** The number in front of an exponent: digits up to `wholeEnd`, and a point and digits up to `fractionEnd`. */
  function Mantissa(s: seq<byte>, whole: nat, wholeEnd: nat, fractionEnd: nat): real
    requires whole <= wholeEnd <= fractionEnd <= |s| && s != []
    requires forall i :: whole <= i < wholeEnd ==> IsDigit(s[i])
    requires forall i :: wholeEnd < i < fractionEnd ==> IsDigit(s[i])
  {
    var fraction :=
      if wholeEnd < fractionEnd then
        DigitsValue(s[wholeEnd + 1..fractionEnd]) as real / Pow10(fractionEnd - wholeEnd - 1) as real
      else 0.0;
    var magnitude := DigitsValue(s[whole..wholeEnd]) as real + fraction;
    if s[0] == MINUS then -magnitude else magnitude
  }

  /** strtod: the value of the longest numeral at the start of `s` and its length; length 0 if there is none. */
  function Strtod(s: seq<byte>): (r: (real, nat))
    ensures r.1 <= |s|
  {
    var whole := SignEnd(s, 0);
    var wholeEnd := DigitRun(s, whole);
    var hasPoint := wholeEnd < |s| && s[wholeEnd] == POINT;
    var fractionEnd := if hasPoint then DigitRun(s, wholeEnd + 1) else wholeEnd;
    if fractionEnd - whole == (if hasPoint then 1 else 0) then (0.0, 0)
    else
      var mantissa := Mantissa(s, whole, wholeEnd, fractionEnd);
      var end := ExponentEnd(s, fractionEnd);
      if end > fractionEnd then (Scaled(mantissa, s, fractionEnd), end) else (mantissa, fractionEnd)
  }

  /** The number parse_number finds at the start of `s`. */
  function ReadNumber(s: seq<byte>): (r: (real, nat))
    ensures r.1 <= |s|
    ensures forall i :: 0 <= i < r.1 ==> IsNumberByte(s[i])
  {
    Strtod(s[..TokenLength(s, NUMBER_LIMIT)])
  }

  /** The saturating conversion to valueint: truncation toward zero between INT_MIN and INT_MAX. */
  function ValueInt(x: real): (v: int)
    ensures INT_MIN <= v <= INT_MAX
  {
    if x >= INT_MAX as real then INT_MAX
    else if x <= INT_MIN as real then INT_MIN
    else if x >= 0.0 then x.Floor
    else -((-x).Floor)
  }

  /** Between the limits the fraction is cut off toward zero; at and beyond a limit the value is the limit. */
  lemma ValueIntSaturates(x: real)
    ensures ValueInt(x) == INT_MAX <==> x >= INT_MAX as real
    ensures ValueInt(x) == INT_MIN <==> x <= INT_MIN as real
    ensures INT_MIN as real < x < INT_MAX as real ==>
              && -1.0 < x - ValueInt(x) as real < 1.0
              && (x >= 0.0 ==> 0.0 <= ValueInt(x) as real <= x)
              && (x <= 0.0 ==> x <= ValueInt(x) as real <= 0.0)
  {
  }

  lemma ValueIntOfInt(n: int)
    requires INT_MIN <= n <= INT_MAX
    ensures ValueInt(n as real) == n
  {
    ValueIntSaturates(n as real);
  }

  // ----- Round trip -----

  lemma {:induction false} DigitsRead(n: nat)
    ensures DigitsValue(Digits(n)) == n
  {
    if n >= 10 {
      DigitsRead(n / 10);
      assert Digits(n)[..|Digits(n)| - 1] == Digits(n / 10);
    }
  }

  lemma {:induction false} TokenOfNumberBytes(text: seq<byte>, rest: seq<byte>, limit: nat)
    requires forall i :: 0 <= i < |text| ==> IsNumberByte(text[i])
    requires |text| <= limit
    requires rest != [] && !IsNumberByte(rest[0])
    ensures TokenLength(text + rest, limit) == |text|
  {
    if text == [] {
      assert text + rest == rest;
    } else {
      assert (text + rest)[1..] == text[1..] + rest;
      TokenOfNumberBytes(text[1..], rest, limit - 1);
    }
  }

  /** A run of digits ends at the first byte that is none. */
  lemma {:induction false} DigitRunStops(s: seq<byte>, p: nat, q: nat)
    requires p <= q <= |s| && (forall i :: p <= i < q ==> IsDigit(s[i])) && (q == |s| || !IsDigit(s[q]))
    ensures DigitRun(s, p) == q
    decreases q - p
  {
    if p < q {
      DigitRunStops(s, p + 1, q);
    }
  }

  /** A sign and digits to the end: the whole text is the number. */
  lemma SignedDigits(s: seq<byte>, whole: nat)
    requires whole <= 1 && whole < |s|
    requires (whole == 1) == (s[0] == MINUS) && s[0] != PLUS
    requires forall i :: whole <= i < |s| ==> IsDigit(s[i])
    ensures var magnitude := DigitsValue(s[whole..|s|]) as real;
            Strtod(s) == (if whole == 1 then -magnitude else magnitude, |s|)
  {
    hide DigitsValue, DigitRun;
    assert SignEnd(s, 0) == whole;
    DigitRunStops(s, whole, |s|);
    assert ExponentEnd(s, |s|) == |s|;
  }

  lemma DecimalTextIsNumber(n: int)
    ensures forall i :: 0 <= i < |DecimalText(n)| ==> IsNumberByte(DecimalText(n)[i])
    ensures Strtod(DecimalText(n)) == (n as real, |DecimalText(n)|)
  {
    hide Strtod, DigitsValue;
    var magnitude := if n < 0 then -n else n;
    var whole := if n < 0 then 1 else 0;
    DigitsRead(magnitude);
    assert DecimalText(n)[whole..|DecimalText(n)|] == Digits(magnitude);
    assert forall i :: whole <= i < |DecimalText(n)| ==> DecimalText(n)[i] == Digits(magnitude)[i - whole];
    SignedDigits(DecimalText(n), whole);
  }

  /**
   A printed integer is read back, and exactly its text is consumed, before anything that is not a number
   character.
   */
  lemma DecimalTextReads(n: int, rest: seq<byte>)
    requires IsExact(n)
    requires rest != [] && !IsNumberByte(rest[0])
    ensures ReadNumber(DecimalText(n) + rest) == (n as real, |DecimalText(n)|)
  {
    DecimalTextLength(n);
    DecimalTextIsNumber(n);
    TokenOfNumberBytes(DecimalText(n), rest, NUMBER_LIMIT);
    assert (DecimalText(n) + rest)[..|DecimalText(n)|] == DecimalText(n);
  }
}
