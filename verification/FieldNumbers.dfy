/**
 What the number fields of device data hold: the conversions between numbers and their text forms, stated by the
 numerals and not by the way they are computed.
 */
module FieldNumbers {
  import opened Bytes
  import opened Common
  import opened Conformance
  import DeviceData
  import JsonNumber
  import PrintSyntax

  // ----- Numbers with six decimals -----

  lemma SixDigitsDenote(n: nat)
    requires n < 1000000
    ensures Digits(DeviceData.SixDigits(n)) && JsonNumber.DigitsValue(DeviceData.SixDigits(n)) == n
  {
    hide DeviceData.SixDigits, JsonNumber.DigitsValue;
    SixDigitsAre(n);
    SixHorner(DeviceData.SixDigits(n));
    SixPlaces(n);
  }

  lemma SixDigitsAre(n: nat)
    requires n < 1000000
    ensures var s := DeviceData.SixDigits(n);
            && Digits(s)
            && s[0] == DIGIT_0 + n / 100000 % 10 && s[1] == DIGIT_0 + n / 10000 % 10 && s[2] == DIGIT_0 + n / 1000 % 10
            && s[3] == DIGIT_0 + n / 100 % 10 && s[4] == DIGIT_0 + n / 10 % 10 && s[5] == DIGIT_0 + n % 10
  {
    Powers();
  }

  lemma Powers()
    ensures JsonNumber.Pow10(0) == 1 && JsonNumber.Pow10(1) == 10 && JsonNumber.Pow10(2) == 100
    ensures JsonNumber.Pow10(3) == 1000 && JsonNumber.Pow10(4) == 10000 && JsonNumber.Pow10(5) == 100000
    ensures JsonNumber.Pow10(6) == 1000000
  {
  }

  lemma SixPlaces(n: nat)
    requires n < 1000000
    ensures n == (((((n / 100000 % 10) * 10 + n / 10000 % 10) * 10 + n / 1000 % 10) * 10 + n / 100 % 10) * 10
                  + n / 10 % 10) * 10 + n % 10
  {
    OnePlace(n, 1);
    OnePlace(n, 10);
    OnePlace(n, 100);
    OnePlace(n, 1000);
    OnePlace(n, 10000);
    assert n / 100000 % 10 == n / 100000;
  }

  lemma OnePlace(n: nat, p: nat)
    requires p == 1 || p == 10 || p == 100 || p == 1000 || p == 10000
    ensures n / p == (n / (p * 10)) * 10 + n / p % 10
  {
  }

  lemma SixHorner(s: seq<byte>)
    requires |s| == 6 && forall i :: 0 <= i < 6 ==> JsonNumber.IsDigit(s[i])
    ensures JsonNumber.DigitsValue(s)
         == (((((s[0] - DIGIT_0) as int * 10 + (s[1] - DIGIT_0) as int) * 10 + (s[2] - DIGIT_0) as int) * 10
              + (s[3] - DIGIT_0) as int) * 10 + (s[4] - DIGIT_0) as int) * 10 + (s[5] - DIGIT_0) as int
  {
    assert s[..5][..4] == s[..4] && s[..4][..3] == s[..3] && s[..3][..2] == s[..2] && s[..2][..1] == s[..1];
    assert s[..1][..0] == [];
    assert JsonNumber.DigitsValue(s[..1]) == (s[0] - DIGIT_0) as int;
    assert JsonNumber.DigitsValue(s[..2]) == JsonNumber.DigitsValue(s[..1]) * 10 + (s[1] - DIGIT_0) as int;
    assert JsonNumber.DigitsValue(s[..3]) == JsonNumber.DigitsValue(s[..2]) * 10 + (s[2] - DIGIT_0) as int;
    assert JsonNumber.DigitsValue(s[..4]) == JsonNumber.DigitsValue(s[..3]) * 10 + (s[3] - DIGIT_0) as int;
    assert JsonNumber.DigitsValue(s[..5]) == JsonNumber.DigitsValue(s[..4]) * 10 + (s[4] - DIGIT_0) as int;
  }

  /**
   The text of a number with six decimals is a numeral with six digits behind the point that denotes the nearest
   such number, at most half a millionth away, and in the middle between two the one with the even last digit; it
   has a minus exactly in front of a negative number.
   */
  lemma FixedIsNearest(x: real) returns (n: Numeral, millionths: int)
    ensures ValidNumeral(n) && NumeralText(n) == DeviceData.Fixed(x)
    ensures n.fraction.Some? && |n.fraction.value| == 6 && n.exponent.None? && (n.negative <==> x < 0.0)
    ensures NumeralValue(n) == millionths as real / 1000000.0
    ensures -0.5 <= millionths as real - x * 1000000.0 <= 0.5
    ensures millionths as real - x * 1000000.0 == 0.5 || millionths as real - x * 1000000.0 == -0.5 ==>
        millionths % 2 == 0
  {
    var magnitude := if x < 0.0 then -x else x;
    var m: int := DeviceData.Nearest(magnitude * 1000000.0);
    n := SixPlacesNumeral(x < 0.0, m);
    millionths := if x < 0.0 then -m else m;
    hide NumeralText, NumeralValue, DeviceData.Nearest, ValidNumeral, LenientNumeral, DeviceData.Fixed;
    NearestIsNear(magnitude * 1000000.0);
    SignKeepsDistance(x, magnitude, m);
    FixedIsNumeral(x < 0.0, m);
    FixedText(x, m);
  }

  function SixPlacesNumeral(negative: bool, m: nat): Numeral {
    Numeral(negative, JsonNumber.Digits(m / 1000000), Some(DeviceData.SixDigits(m % 1000000)), None)
  }

  lemma FixedIsNumeral(negative: bool, m: nat)
    ensures ValidNumeral(SixPlacesNumeral(negative, m))
    ensures NumeralValue(SixPlacesNumeral(negative, m)) == (if negative then -(m as int) else m) as real / 1000000.0
  {
    hide DeviceData.SixDigits, JsonNumber.Digits, JsonNumber.DigitsValue;
    JsonNumber.DigitsRead(m / 1000000);
    SixDigitsDenote(m % 1000000);
    WholeIsValid(m / 1000000);
    FixedValue(SixPlacesNumeral(negative, m), m);
  }

  lemma FixedText(x: real, m: nat)
    requires m == DeviceData.Nearest((if x < 0.0 then -x else x) * 1000000.0)
    ensures NumeralText(SixPlacesNumeral(x < 0.0, m)) == DeviceData.Fixed(x)
  {
    hide DeviceData.SixDigits, JsonNumber.Digits, DeviceData.Nearest;
    var sign: seq<byte> := if x < 0.0 then [MINUS] else [];
    var whole, six := JsonNumber.Digits(m / 1000000), DeviceData.SixDigits(m % 1000000);
    assert sign + whole + ([POINT] + six) + [] == sign + whole + [POINT] + six;
  }

  lemma SignKeepsDistance(x: real, magnitude: real, m: int)
    requires magnitude == if x < 0.0 then -x else x
    ensures var millionths := if x < 0.0 then -m else m;
            var d := millionths as real - x * 1000000.0;
            var e := m as real - magnitude * 1000000.0;
            (d == e || d == -e) && millionths % 2 == m % 2
  {
  }

  lemma NearestIsNear(x: real)
    requires x >= 0.0
    ensures var n := DeviceData.Nearest(x);
            -0.5 <= n as real - x <= 0.5 && (n as real - x == 0.5 || n as real - x == -0.5 ==> n % 2 == 0)
  {
  }

  lemma WholeIsValid(n: nat)
    ensures var s := JsonNumber.Digits(n); s != [] && Digits(s) && (|s| > 1 ==> s[0] != DIGIT_0)
  {
    if n > 0 {
      PrintSyntax.NoLeadingZero(n);
    }
  }

  lemma FixedValue(n: Numeral, m: nat)
    requires ValidNumeral(n) && n.exponent.None? && n.fraction.Some? && |n.fraction.value| == 6
    requires JsonNumber.DigitsValue(n.whole) == m / 1000000 && JsonNumber.DigitsValue(n.fraction.value) == m % 1000000
    ensures NumeralValue(n) == (if n.negative then -(m as int) else m) as real / 1000000.0
  {
    Powers();
    assert m == m / 1000000 * 1000000 + m % 1000000;
    assert (m / 1000000) as real + (m % 1000000) as real / 1000000.0 == m as real / 1000000.0;
  }

  // ----- atof and atoi -----

  /** The white space that strtod and strtol skip. */
  predicate IsFieldBlank(s: seq<byte>) {
    forall i :: 0 <= i < |s| ==> s[i] in [SPACE, TAB, NEWLINE, 11, FORM_FEED, CARRIAGE_RETURN]
  }

  lemma {:induction false} SpacesAreSkipped(blank: seq<byte>, s: seq<byte>)
    requires IsFieldBlank(blank) && (s != [] ==> s[0] !in [SPACE, TAB, NEWLINE, 11, FORM_FEED, CARRIAGE_RETURN])
    ensures DeviceData.SkipSpaces(blank + s) == s
  {
    if blank == [] {
      assert blank + s == s;
    } else {
      assert (blank + s)[1..] == blank[1..] + s;
      SpacesAreSkipped(blank[1..], s);
    }
  }

  /** Behind white space atof gives the number that a numeral denotes. */
  lemma AtofReads(blank: seq<byte>, n: Numeral)
    requires IsFieldBlank(blank) && LenientNumeral(n)
    ensures DeviceData.Atof(blank + NumeralText(n)) == NumeralValue(n)
  {
    hide JsonNumber.Strtod, NumeralText, NumeralValue, LenientNumeral;
    NumeralStarts(n);
    SpacesAreSkipped(blank, NumeralText(n));
    NumeralReads(n);
  }

  /** A signed run of digits, with anything behind it that is no digit. */
  function SignedText(sign: seq<byte>, digits: seq<byte>, tail: seq<byte>): seq<byte> {
    sign + digits + tail
  }

  lemma SignedIsRead(blank: seq<byte>, sign: seq<byte>, digits: seq<byte>, tail: seq<byte>)
    requires IsFieldBlank(blank) && (sign == [] || sign == [PLUS] || sign == [MINUS])
    requires digits != [] && Digits(digits) && (tail != [] ==> !Digits([tail[0]]))
    ensures var magnitude: int := JsonNumber.DigitsValue(digits);
            DeviceData.Decimal(blank + SignedText(sign, digits, tail))
            == if sign == [MINUS] then -magnitude else magnitude
  {
    hide JsonNumber.DigitsValue, JsonNumber.DigitRun, DeviceData.SkipSpaces;
    var t := SignedText(sign, digits, tail);
    var p := |sign|;
    assert t[p..p + |digits|] == digits;
    assert forall i :: p <= i < p + |digits| ==> t[i] == digits[i - p];
    assert t[0] == if sign == [] then digits[0] else sign[0];
    assert p + |digits| < |t| ==> t[p + |digits|] == tail[0] && [tail[0]][0] == tail[0];
    SpacesAreSkipped(blank, t);
    JsonNumber.DigitRunStops(t, p, p + |digits|);
  }

  lemma CutIsCongruent(wide: int)
    ensures ((wide - INT_MIN) % 0x1_0000_0000 + INT_MIN - wide) % 0x1_0000_0000 == 0
  {
  }

  /** Behind white space atoi gives the integer that the digits denote, clamped to 64 bits and cut to 32. */
  lemma AtoiReads(blank: seq<byte>, sign: seq<byte>, digits: seq<byte>, tail: seq<byte>)
    requires IsFieldBlank(blank) && (sign == [] || sign == [PLUS] || sign == [MINUS])
    requires digits != [] && Digits(digits) && (tail != [] ==> !Digits([tail[0]]))
    ensures var magnitude: int := JsonNumber.DigitsValue(digits);
            var denoted := if sign == [MINUS] then -magnitude else magnitude;
            var wide := if denoted > 0x7FFF_FFFF_FFFF_FFFF then 0x7FFF_FFFF_FFFF_FFFF
                        else if denoted < -0x8000_0000_0000_0000 then -0x8000_0000_0000_0000 else denoted;
            (DeviceData.Atoi(blank + SignedText(sign, digits, tail)) - wide) % 0x1_0000_0000 == 0
  {
    hide JsonNumber.DigitsValue, DeviceData.Decimal, SignedText;
    var s := blank + SignedText(sign, digits, tail);
    SignedIsRead(blank, sign, digits, tail);
    CutIsCongruent(DeviceData.Clamp(DeviceData.Decimal(s), -0x8000_0000_0000_0000, 0x7FFF_FFFF_FFFF_FFFF));
  }
}
