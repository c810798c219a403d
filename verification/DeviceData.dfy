/**
 Device data as the kit's callers see it, records of three C fields, and as the protocol carries it, a
 JSON array of objects: the two conversions and what survives the way there and back.
 */
module DeviceData {
  import opened Bytes
  import opened Common
  import opened JsonTree
  import opened Grammar
  import opened JsonNumber
  import Compare
  import JsonString
  import Locality
  import Render
  import RoundTrip

  const MAX_PARAM_NAME_LENGTH := 64
  const MAX_PARAM_VALUE_LENGTH := 2048

  const TYPE_INT := 0
  const TYPE_BOOL := 1
  const TYPE_FLOAT := 2
  const TYPE_TEXT := 3
  const TYPE_DATE := 4
  const TYPE_ENUM := 5
  const TYPE_STRUCT := 6
  const TYPE_ARRAY := 7
  const TYPE_DOUBLE := 8
  const TYPE_BUTT := 9

  /** leda_device_data_t with its two character arrays as the C strings they hold. */
  datatype Data = Data(kind: int, key: seq<byte>, value: seq<byte>)

  predicate WellFormed(d: Data) {
    NulFree(d.key) && |d.key| < MAX_PARAM_NAME_LENGTH && NulFree(d.value) && |d.value| < MAX_PARAM_VALUE_LENGTH
  }

  // ----- Type names -----

  /** A string literal of the source as the bytes it stands for. */
  function Ascii(s: string): (b: seq<byte>)
    requires forall i :: 0 <= i < |s| ==> 0 < s[i] as int < 128
    ensures |b| == |s| && NulFree(b)
    ensures forall i :: 0 <= i < |s| ==> b[i] == s[i] as int
  {
    seq(|s|, i requires 0 <= i < |s| => s[i] as int)
  }

  /** type_number_to_string. */
  function TypeName(kind: int): seq<byte> {
    if kind == TYPE_INT then Ascii("int")
    else if kind == TYPE_BOOL then Ascii("bool")
    else if kind == TYPE_FLOAT then Ascii("float")
    else if kind == TYPE_TEXT then Ascii("text")
    else if kind == TYPE_DATE then Ascii("date")
    else if kind == TYPE_ENUM then Ascii("enum")
    else if kind == TYPE_STRUCT then Ascii("struct")
    else if kind == TYPE_ARRAY then Ascii("array")
    else if kind == TYPE_DOUBLE then Ascii("double")
    else Ascii("invalid")
  }

  /** type_string_to_number. */
  function TypeNumber(name: seq<byte>): int {
    if name == Ascii("int") then TYPE_INT
    else if name == Ascii("bool") then TYPE_BOOL
    else if name == Ascii("float") then TYPE_FLOAT
    else if name == Ascii("text") then TYPE_TEXT
    else if name == Ascii("date") then TYPE_DATE
    else if name == Ascii("enum") then TYPE_ENUM
    else if name == Ascii("struct") then TYPE_STRUCT
    else if name == Ascii("array") then TYPE_ARRAY
    else if name == Ascii("double") then TYPE_DOUBLE
    else TYPE_BUTT
  }

  // ----- Numbers in text fields -----

  predicate IsSpace(b: byte) {
    b == SPACE || TAB <= b <= CARRIAGE_RETURN
  }

  function SkipSpaces(s: seq<byte>): seq<byte> {
    if s != [] && IsSpace(s[0]) then SkipSpaces(s[1..]) else s
  }

  /** strtol in base 10, before its range check. */
  function Decimal(s: seq<byte>): int {
    var t := SkipSpaces(s);
    var digits := SignEnd(t, 0);
    var magnitude: int := DigitsValue(t[digits..DigitRun(t, digits)]);
    if digits == 1 && t[0] == MINUS then -magnitude else magnitude
  }

  function Clamp(x: int, low: int, high: int): int {
    if x < low then low else if x > high then high else x
  }

  /** atoi as (int)strtol: the 64-bit result is clamped, and its low 32 bits are kept. */
  function Atoi(s: seq<byte>): (n: int)
    ensures INT_MIN <= n <= INT_MAX
  {
    var wide := Clamp(Decimal(s), -0x8000_0000_0000_0000, 0x7FFF_FFFF_FFFF_FFFF);
    (wide - INT_MIN) % 0x1_0000_0000 + INT_MIN
  }

  /** atof on decimal numerals. */
  function Atof(s: seq<byte>): real {
    Strtod(SkipSpaces(s)).0
  }

  function SixDigits(n: nat): (s: seq<byte>)
    ensures |s| == 6
  {
    seq(6, i requires 0 <= i < 6 => DIGIT_0 + (n / Pow10(5 - i)) % 10)
  }

  /** The nearest integer; in the middle between two, the even one. */
  function Nearest(x: real): (n: nat)
    requires x >= 0.0
  {
    var rest := x - x.Floor as real;
    if rest < 0.5 || (rest == 0.5 && x.Floor % 2 == 0) then x.Floor else x.Floor + 1
  }

  /** sprintf("%lf"): six decimals, rounded to the nearest. */
  function Fixed(x: real): seq<byte> {
    var millionths := Nearest((if x < 0.0 then -x else x) * 1000000.0);
    (if x < 0.0 then [MINUS] else []) + Digits(millionths / 1000000) + [POINT] + SixDigits(millionths % 1000000)
  }

  // ----- To JSON -----

  const IDENTIFIER: seq<byte> := Ascii("identifier")
  const TYPE: seq<byte> := Ascii("type")
  const VALUE: seq<byte> := Ascii("value")

  function CStr(s: seq<byte>): (t: seq<byte>)
    requires NulFree(s)
    ensures Terminated(t)
  {
    assert (s + [NUL])[..|s|] == s;
    s + [NUL]
  }

  /** The member "value"; None when the text of a structure or an array does not parse. */
  function ValueToJson(kind: int, value: seq<byte>): Option<Json>
    requires NulFree(value)
  {
    if kind == TYPE_INT || kind == TYPE_BOOL || kind == TYPE_ENUM then Some(Number(Atoi(value) as real))
    else if kind == TYPE_DOUBLE || kind == TYPE_FLOAT then Some(Number(Atof(value)))
    else if kind == TYPE_DATE || kind == TYPE_TEXT then Some(Str(value))
    else if kind == TYPE_ARRAY || kind == TYPE_STRUCT then
      var parsed := ParseDocument(CStr(value), false);
      if parsed.Parsed? then Some(parsed.value) else None
    else Some(Str(Ascii("invalid")))
  }

  function ItemOf(key: seq<byte>, kind: int, value: Json): Json {
    Obj([Member(IDENTIFIER, Str(key)), Member(TYPE, Str(TypeName(kind))), Member(VALUE, value)])
  }

  function ItemsToJson(data: seq<Data>): Option<seq<Json>>
    requires forall i :: 0 <= i < |data| ==> WellFormed(data[i])
  {
    if data == [] then Some([])
    else
      assert WellFormed(data[0]);
      var value := ValueToJson(data[0].kind, data[0].value);
      if value.None? then None
      else
        var others := ItemsToJson(data[1..]);
        if others.None? then None else Some([ItemOf(data[0].key, data[0].kind, value.value)] + others.value)
  }

  /** struct_data_to_json_data; None is its null pointer. */
  function ToJson(data: seq<Data>): Option<Json>
    requires forall i :: 0 <= i < |data| ==> WellFormed(data[i])
  {
    var items := ItemsToJson(data);
    if items.None? then None else Some(Arr(items.value))
  }

  // ----- From JSON -----

  /** A record of the result; None marks a field the code leaves as malloc made it. */
  datatype Record = Record(kind: Option<int>, key: seq<byte>, value: Option<seq<byte>>)

  /** Outside: a null pointer handed to snprintf, or a print of a number that Render does not describe. */
  datatype Conversion<T> = Converted(value: T) | Refused(code: int) | Outside

  /** snprintf("%s") into an array of this size. */
  function Truncated(s: seq<byte>, size: nat): (t: seq<byte>)
    requires size > 0
    ensures |t| < size
  {
    if |s| < size then s else s[..size - 1]
  }

  function Children(v: Json): seq<Json> {
    match v
    case Arr(items) => items
    case Obj(members) => seq(|members|, i requires 0 <= i < |members| => members[i].value)
    case _ => []
  }

  /** cJSON_GetObjectItem: the first member with this name in any case. */
  function Lookup(v: Json, name: seq<byte>): Option<Json> {
    if !v.Obj? then None
    else
      var i := Compare.Find(v.members, name, false);
      if i < |v.members| then Some(v.members[i].value) else None
  }

  /** valueint as the parser leaves it. */
  function IntOf(v: Json): int {
    match v
    case Number(x) => ValueInt(x)
    case True => 1
    case _ => 0
  }

  function NumberOf(v: Json): real {
    if v.Number? then v.value else 0.0
  }

  /** What is written into the value field. */
  function JsonToValue(kind: int, v: Json): Conversion<Option<seq<byte>>> {
    if kind == TYPE_INT || kind == TYPE_BOOL || kind == TYPE_ENUM then
      Converted(Some(Truncated(DecimalText(IntOf(v)), MAX_PARAM_VALUE_LENGTH)))
    else if kind == TYPE_FLOAT || kind == TYPE_DOUBLE then
      Converted(Some(Truncated(Fixed(NumberOf(v)), MAX_PARAM_VALUE_LENGTH)))
    else if kind == TYPE_TEXT || kind == TYPE_DATE then
      if v.Str? then Converted(Some(Truncated(v.text, MAX_PARAM_VALUE_LENGTH))) else Outside
    else if kind == TYPE_STRUCT || kind == TYPE_ARRAY then
      if !Printable(v) then Outside
      else if |Render.Text(v, false, 0)| + 2 > INT_MAX then Refused(LE_ERROR_ALLOCATING_MEM)
      else Converted(Some(Truncated(Render.Text(v, false, 0), MAX_PARAM_VALUE_LENGTH)))
    else Converted(None)
  }

  function ItemToRecord(item: Json): Conversion<Record> {
    if item.Str? then Converted(Record(None, Truncated(item.text, MAX_PARAM_NAME_LENGTH), None))
    else
      var identifier := Lookup(item, IDENTIFIER);
      if identifier.None? then Refused(LE_ERROR_INVALID_PARAM)
      else if !identifier.value.Str? then Outside
      else
        var name := Lookup(item, TYPE);
        if name.None? || !name.value.Str? then Refused(LE_ERROR_INVALID_PARAM)
        else
          var v := Lookup(item, VALUE);
          if v.None? then Refused(LE_ERROR_INVALID_PARAM)
          else
            var kind := TypeNumber(name.value.text);
            match JsonToValue(kind, v.value)
            case Converted(value) =>
              Converted(Record(Some(kind), Truncated(identifier.value.text, MAX_PARAM_NAME_LENGTH), value))
            case Refused(code) => Refused(code)
            case Outside => Outside
  }

  function ItemsToRecords(items: seq<Json>): Conversion<seq<Record>> {
    if items == [] then Converted([])
    else
      match ItemToRecord(items[0])
      case Converted(first) =>
        (match ItemsToRecords(items[1..])
         case Converted(others) => Converted([first] + others)
         case Refused(code) => Refused(code)
         case Outside => Outside)
      case Refused(code) => Refused(code)
      case Outside => Outside
  }

  /** json_data_to_struct_data. */
  function FromJson(json: Json): Conversion<seq<Record>> {
    ItemsToRecords(Children(json))
  }

  // ----- There and back -----

  /** Every name is read back as the type it names, and an unknown type's name as no type at all. */
  lemma NamesAreRead(kind: int)
    ensures TypeNumber(TypeName(kind)) == if TYPE_INT <= kind < TYPE_BUTT then kind else TYPE_BUTT
    ensures NulFree(TypeName(kind))
  {
    var name := TypeName(kind);
    assert |name| == 4 ==>
        name[0] == 'b' as int || name[0] == 't' as int || name[0] == 'd' as int || name[0] == 'e' as int;
    assert |name| == 5 ==> name[0] == 'f' as int || name[0] == 'a' as int;
    assert |name| == 6 ==> name[0] == 's' as int || name[0] == 'd' as int;
  }

  predicate IsInteger(kind: int) {
    kind == TYPE_INT || kind == TYPE_BOOL || kind == TYPE_ENUM
  }

  predicate IsFloat(kind: int) {
    kind == TYPE_FLOAT || kind == TYPE_DOUBLE
  }

  predicate IsNested(kind: int) {
    kind == TYPE_STRUCT || kind == TYPE_ARRAY
  }

  /** Every number that has to be printed on the way is one whose print is modelled, and prints fit an int. */
  ghost predicate ExactData(d: Data)
    requires NulFree(d.value)
  {
    && (IsFloat(d.kind) ==> IsExactNumber(Atof(d.value)))
    && (IsNested(d.kind) ==>
          var parsed := ParseDocument(CStr(d.value), false);
          parsed.Parsed? ==> Printable(parsed.value) && |Render.Text(parsed.value, false, 0)| + 2 <= INT_MAX)
  }

  /** And the text of a structure or an array parses. */
  ghost predicate Convertible(d: Data)
    requires NulFree(d.value)
  {
    ExactData(d) && (IsNested(d.kind) ==> ParseDocument(CStr(d.value), false).Parsed?)
  }

  /** The value field after the way there and back; an unknown type leaves it unwritten. */
  ghost function Normal(d: Data): Option<seq<byte>>
    requires NulFree(d.value) && Convertible(d)
  {
    if IsInteger(d.kind) then Some(DecimalText(Atoi(d.value)))
    else if IsFloat(d.kind) then Some(Truncated(Fixed(Atof(d.value)), MAX_PARAM_VALUE_LENGTH))
    else if d.kind == TYPE_TEXT || d.kind == TYPE_DATE then Some(d.value)
    else if IsNested(d.kind) then
      Some(Truncated(Render.Text(ParseDocument(CStr(d.value), false).value, false, 0), MAX_PARAM_VALUE_LENGTH))
    else None
  }

  /** The type after the way there and back. */
  function KindBack(kind: int): int {
    if TYPE_INT <= kind < TYPE_BUTT then kind else TYPE_BUTT
  }

  lemma LargePowers()
    ensures Pow10(15) == 1_000_000_000_000_000
  {
    assert Pow10(5) == 100_000;
    assert Pow10(10) == 10_000_000_000;
  }

  lemma IntegersFit(n: int)
    requires INT_MIN <= n <= INT_MAX
    ensures IsExactNumber(n as real) && ValueInt(n as real) == n
    ensures Truncated(DecimalText(n), MAX_PARAM_VALUE_LENGTH) == DecimalText(n)
  {
    LargePowers();
    ValueIntOfInt(n);
    DecimalTextLength(n);
  }

  ghost predicate ValueTrips(d: Data)
    requires NulFree(d.value) && Convertible(d)
  {
    var v := ValueToJson(d.kind, d.value);
    && v.Some? && Printable(v.value) && Plain(v.value)
    && JsonToValue(KindBack(d.kind), v.value) == Converted(Normal(d))
  }

  lemma NestedValueTrip(d: Data)
    requires WellFormed(d) && Convertible(d) && IsNested(d.kind)
    ensures ValueTrips(d)
  {
    hide ParseDocument, Printable, Plain, Height, Render.Text, Truncated;
    RoundTrip.DocumentIsPlain(CStr(d.value), false);
  }

  /** The value of one record on its way: a tree that prints, and back to its normal form. */
  lemma ValueTrip(d: Data)
    requires WellFormed(d) && Convertible(d)
    ensures ValueTrips(d)
  {
    hide ParseDocument, Fixed, Atoi, Atof;
    if IsNested(d.kind) {
      NestedValueTrip(d);
    } else if IsInteger(d.kind) {
      IntegersFit(Atoi(d.value));
    }
  }

  /** The three names are told apart in any case. */
  lemma LookupsFind(key: seq<byte>, kind: int, v: Json)
    ensures Lookup(ItemOf(key, kind, v), IDENTIFIER) == Some(Str(key))
    ensures Lookup(ItemOf(key, kind, v), TYPE) == Some(Str(TypeName(kind)))
    ensures Lookup(ItemOf(key, kind, v), VALUE) == Some(v)
  {
    var item := ItemOf(key, kind, v);
    assert |Compare.Fold(IDENTIFIER, false)| == 10 && |Compare.Fold(TYPE, false)| == 4
        && |Compare.Fold(VALUE, false)| == 5;
    assert item.members[0].key == IDENTIFIER && item.members[1].key == TYPE && item.members[2].key == VALUE;
    assert Compare.Find(item.members, IDENTIFIER, false) == 0;
    assert Compare.Find(item.members, TYPE, false) == 1;
    assert Compare.Find(item.members, VALUE, false) == 2;
  }

  ghost function TripOf(d: Data): Record
    requires NulFree(d.value) && Convertible(d)
  {
    Record(Some(KindBack(d.kind)), d.key, Normal(d))
  }

  lemma ItemTrip(d: Data)
    requires WellFormed(d) && Convertible(d)
    ensures var v := ValueToJson(d.kind, d.value);
            && v.Some?
            && var item := ItemOf(d.key, d.kind, v.value);
               && Printable(item) && Plain(item) && Height(item) == Height(v.value) + 1
               && ItemToRecord(item) == Converted(TripOf(d))
  {
    hide ValueToJson, JsonToValue, Normal, Convertible, TypeName, TypeNumber, Lookup, Printable, Plain, Height;
    ValueTrip(d);
    var v := ValueToJson(d.kind, d.value).value;
    NamesAreRead(d.kind);
    LookupsFind(d.key, d.kind, v);
    ItemIsPlain(d.key, d.kind, v);
  }

  lemma ItemIsPlain(key: seq<byte>, kind: int, v: Json)
    requires NulFree(key) && NulFree(TypeName(kind)) && Printable(v) && Plain(v)
    ensures var item := ItemOf(key, kind, v); Printable(item) && Plain(item) && Height(item) == Height(v) + 1
  {
    ThreeMembers(Member(IDENTIFIER, Str(key)), Member(TYPE, Str(TypeName(kind))), Member(VALUE, v));
  }

  lemma ThreeMembers(a: Member, b: Member, c: Member)
    requires PrintableMember(a) && PrintableMember(b) && PrintableMember(c)
    requires Plain(a.value) && Plain(b.value) && Plain(c.value)
    ensures Printable(Obj([a, b, c])) && Plain(Obj([a, b, c]))
    ensures Height(Obj([a, b, c])) == 1 + Max(Height(a.value), Max(Height(b.value), Height(c.value)))
  {
    ThreeHeights(a, b, c);
    assert forall i :: 0 <= i < 3 ==> [a, b, c][i] == a || [a, b, c][i] == b || [a, b, c][i] == c;
  }

  lemma ThreeHeights(a: Member, b: Member, c: Member)
    ensures HeightOfMembers([a, b, c]) == Max(Height(a.value), Max(Height(b.value), Height(c.value)))
  {
    assert [c][1..] == [] && HeightOfMembers([c]) == Height(c.value);
    assert [b, c][1..] == [c] && HeightOfMembers([b, c]) == Max(Height(b.value), HeightOfMembers([c]));
    assert [a, b, c][1..] == [b, c];
  }

  ghost predicate AllConvertible(data: seq<Data>) {
    forall i :: 0 <= i < |data| ==> WellFormed(data[i]) && Convertible(data[i])
  }

  /** How deep the JSON value of a record is nested. */
  ghost function ValueHeight(d: Data): nat
    requires NulFree(d.value) && ValueToJson(d.kind, d.value).Some?
  {
    Height(ValueToJson(d.kind, d.value).value)
  }

  lemma {:induction false} ItemsTrip(data: seq<Data>)
    requires AllConvertible(data)
    ensures var items := ItemsToJson(data);
            && items.Some? && |items.value| == |data|
            && (forall i :: 0 <= i < |data| ==> Printable(items.value[i]) && Plain(items.value[i]))
            && (forall i :: 0 <= i < |data| ==>
                  ValueToJson(data[i].kind, data[i].value).Some? && Height(items.value[i]) == ValueHeight(data[i]) + 1)
            && var records := ItemsToRecords(items.value);
               && records.Converted? && |records.value| == |data|
               && forall i :: 0 <= i < |data| ==> records.value[i] == TripOf(data[i])
  {
    hide ItemToRecord, ItemOf, ValueToJson, Convertible, Printable, Plain, Height;
    if data != [] {
      ItemTrip(data[0]);
      ItemsTrip(data[1..]);
      var items := ItemsToJson(data).value;
      var others := ItemsToJson(data[1..]).value;
      assert items[1..] == others;
      var records := ItemsToRecords(items).value;
      forall i | 0 < i < |data|
        ensures records[i] == TripOf(data[i]) && Printable(items[i]) && Plain(items[i])
        ensures ValueToJson(data[i].kind, data[i].value).Some? && Height(items[i]) == ValueHeight(data[i]) + 1
      {
        assert data[i] == data[1..][i - 1] && items[i] == others[i - 1];
      }
    }
  }

  lemma {:induction false} HeightIsBelow(items: seq<Json>, h: nat)
    requires forall i :: 0 <= i < |items| ==> Height(items[i]) <= h
    ensures HeightOfItems(items) <= h
  {
    hide Height;
    if items != [] {
      HeightIsBelow(items[1..], h);
    }
  }

  /**
   There and back: device data converted to JSON, printed either way, parsed and converted back gives
   the same types and keys, and every value in its normal form, exactly when the nesting fits the parser.
   */
  lemma DataTrip(data: seq<Data>, fmt: bool, requireNullTerminated: bool)
    requires AllConvertible(data)
    ensures ToJson(data).Some? && Printable(ToJson(data).value)
    ensures var parsed := ParseDocument(RoundTrip.Document(ToJson(data).value, fmt), requireNullTerminated);
            && (parsed.Parsed? ==> parsed.value == ToJson(data).value)
            && (parsed.Parsed? <==>
                  forall i :: 0 <= i < |data| ==>
                    ValueToJson(data[i].kind, data[i].value).Some? && ValueHeight(data[i]) + 2 <= NESTING_LIMIT)
    ensures var back := FromJson(ToJson(data).value);
            && back.Converted? && |back.value| == |data|
            && forall i :: 0 <= i < |data| ==> back.value[i] == TripOf(data[i])
  {
    hide ParseDocument, RoundTrip.Document, ItemsToJson, ItemsToRecords, TripOf, Convertible, ValueToJson;
    ItemsTrip(data);
    var items := ItemsToJson(data).value;
    RoundTrip.DocumentRoundTrip(ToJson(data).value, fmt, requireNullTerminated);
    if forall i :: 0 <= i < |data| ==> ValueHeight(data[i]) + 2 <= NESTING_LIMIT {
      HeightIsBelow(items, NESTING_LIMIT - 1);
    }
    if HeightOfItems(items) + 1 <= NESTING_LIMIT {
      forall i | 0 <= i < |data| ensures ValueHeight(data[i]) + 2 <= NESTING_LIMIT {
        assert Height(items[i]) <= HeightOfItems(items);
      }
    }
  }

  lemma {:induction false} ConversionNeedsValues(data: seq<Data>)
    requires forall i :: 0 <= i < |data| ==> WellFormed(data[i])
    ensures ToJson(data).Some? ==> forall i :: 0 <= i < |data| ==> ValueToJson(data[i].kind, data[i].value).Some?
  {
    hide ValueToJson, ItemOf;
    if data != [] && ToJson(data).Some? {
      ConversionNeedsValues(data[1..]);
      assert forall i :: 0 < i < |data| ==> data[i] == data[1..][i - 1];
    }
  }

  // ----- Items of every kind -----

  /** A member is found by its name in any case, the first such member. */
  lemma LookupIgnoresCase(members: seq<Member>, name: seq<byte>, i: nat)
    requires i < |members| && Compare.AlikeUpToCase(members[i].key, name)
    requires forall j :: 0 <= j < i ==> !Compare.AlikeUpToCase(members[j].key, name)
    ensures Lookup(Obj(members), name) == Some(members[i].value)
  {
    forall j | 0 <= j <= i
      ensures Compare.SameKey(members[j].key, name, false) <==> Compare.AlikeUpToCase(members[j].key, name)
    {
      Compare.SameKeyIs(members[j].key, name, false);
    }
  }

  predicate Lacks(item: Json, name: seq<byte>) {
    item.Obj? ==> forall j :: 0 <= j < |item.members| ==> !Compare.AlikeUpToCase(item.members[j].key, name)
  }

  lemma LackingIsNotFound(item: Json, name: seq<byte>)
    requires Lacks(item, name)
    ensures Lookup(item, name) == None
  {
    if item.Obj? {
      var i := Compare.Find(item.members, name, false);
      if i < |item.members| {
        Compare.SameKeyIs(item.members[i].key, name, false);
      }
    }
  }

  /** A string in the array is a key without type and value, cut to the key field. */
  lemma StringItemIsKey(text: seq<byte>)
    ensures match ItemToRecord(Str(text))
              case Converted(r) => r.kind == None && r.value == None && r.key <= text && |r.key| == Min(|text|, 63)
              case _ => false
  {
  }

  function Min(a: nat, b: nat): nat {
    if a < b then a else b
  }

  /** An item with the three members keeps its type, and its key as far as the key field holds it. */
  lemma ItemKeepsKeyAndType(item: Json, key: seq<byte>, kind: int, v: Json)
    requires !item.Str? && TYPE_INT <= kind < TYPE_BUTT
    requires Lookup(item, IDENTIFIER) == Some(Str(key)) && Lookup(item, TYPE) == Some(Str(TypeName(kind)))
    requires Lookup(item, VALUE) == Some(v)
    ensures match JsonToValue(kind, v)
              case Converted(value) =>
                && ItemToRecord(item).Converted?
                && var r := ItemToRecord(item).value;
                   r.kind == Some(kind) && r.value == value && r.key <= key && |r.key| == Min(|key|, 63)
              case Refused(code) => ItemToRecord(item) == Refused(code)
              case _ => ItemToRecord(item) == Outside
  {
    hide Lookup, JsonToValue, TypeName, TypeNumber;
    NamesAreRead(kind);
  }

  /** A text or date is cut to the value field; a null string in its place is outside the model. */
  lemma TextsAreCut(kind: int, v: Json)
    requires kind == TYPE_TEXT || kind == TYPE_DATE
    ensures match JsonToValue(kind, v)
              case Converted(value) =>
                v.Str? && value.Some? && value.value <= v.text && |value.value| == Min(|v.text|, 2047)
              case _ => !v.Str?
    ensures !v.Str? ==> JsonToValue(kind, v) == Outside
  {
  }

  /** A structure or an array prints into the field, cut to it, unless no buffer could hold the print. */
  lemma NestedAreCut(kind: int, v: Json)
    requires IsNested(kind) && Printable(v)
    ensures var text := Render.Text(v, false, 0);
            match JsonToValue(kind, v)
              case Converted(value) =>
                && |text| + 2 <= INT_MAX
                && value.Some? && value.value <= text && |value.value| == Min(|text|, 2047)
              case Refused(code) => |text| + 2 > INT_MAX && code == 100002
              case _ => false
  {
    hide Render.Text, Printable;
  }

  /** An object in place of the array counts as the array of its values, and a scalar as an empty one. */
  lemma ObjectCountsAsArray(json: Json, items: seq<Json>)
    requires match json
               case Obj(members) =>
                 |items| == |members| && forall i :: 0 <= i < |items| ==> items[i] == members[i].value
               case Arr(_) => false
               case _ => items == []
    ensures FromJson(json) == FromJson(Arr(items))
  {
    assert Children(json) == items;
  }

  /** Any other item without one of the three names is an invalid parameter, unless its identifier is no string. */
  lemma MissingMemberIsRefused(item: Json)
    requires !item.Str?
    requires Lookup(item, IDENTIFIER).Some? ==> Lookup(item, IDENTIFIER).value.Str?
    requires Lacks(item, IDENTIFIER) || Lacks(item, TYPE) || Lacks(item, VALUE)
    ensures ItemToRecord(item) == Refused(100001)
  {
    hide Lookup, Lacks;
    if Lacks(item, IDENTIFIER) {
      LackingIsNotFound(item, IDENTIFIER);
    } else if Lacks(item, TYPE) {
      LackingIsNotFound(item, TYPE);
    } else {
      LackingIsNotFound(item, VALUE);
    }
  }

  /** The first item that is not converted decides the result. */
  lemma {:induction false} FirstFailureDecides(before: seq<Json>, item: Json, after: seq<Json>)
    requires ItemsToRecords(before).Converted? && !ItemToRecord(item).Converted?
    ensures match ItemToRecord(item)
              case Refused(code) => FromJson(Arr(before + [item] + after)) == Refused(code)
              case _ => FromJson(Arr(before + [item] + after)) == Outside
  {
    hide ItemToRecord;
    var items := before + [item] + after;
    if before != [] {
      assert items[1..] == before[1..] + [item] + after;
      FirstFailureDecides(before[1..], item, after);
    }
  }

  /** A boolean in an integer field is 1 or 0, and whatever is no number and not true is 0. */
  lemma LiteralsAsIntegers(kind: int, v: Json)
    requires IsInteger(kind) && !v.Number?
    ensures JsonToValue(kind, v) == Converted(Some(Ascii(if v.True? then "1" else "0")))
  {
    assert DecimalText(if v.True? then 1 else 0) == Ascii(if v.True? then "1" else "0");
  }

  /** Whatever is no number is zero in a float or double field. */
  lemma OthersAsFloats(kind: int, v: Json)
    requires IsFloat(kind) && !v.Number?
    ensures JsonToValue(kind, v) == Converted(Some(Ascii("0.000000")))
  {
    FixedOfWhole(0);
    SixZeros();
    assert DecimalText(0) == [DIGIT_0];
    assert Ascii("0.000000") == [DIGIT_0] + [POINT] + SixDigits(0);
  }

  const NAMES: seq<string> := ["int", "bool", "float", "text", "date", "enum", "struct", "array", "double"]

  /** The names of the types on the wire. */
  lemma NamesOnTheWire(kind: int)
    ensures forall i :: 0 <= i < |NAMES| ==> forall j :: 0 <= j < |NAMES[i]| ==> 0 < NAMES[i][j] as int < 128
    ensures TypeName(kind) == if TYPE_INT <= kind < TYPE_BUTT then Ascii(NAMES[kind]) else Ascii("invalid")
  {
  }

  lemma {:induction false} NothingToEscape(s: seq<byte>)
    requires forall i :: 0 <= i < |s| ==> s[i] >= SPACE && s[i] != QUOTE && s[i] != BACKSLASH
    ensures JsonString.Escape(s) == s
  {
    if s != [] {
      NothingToEscape(s[1..]);
      assert s == [s[0]] + s[1..];
    }
  }

  const WIRE_KEY: seq<byte> := [LBRACE, QUOTE] + Ascii("identifier") + [QUOTE, COLON]
  const WIRE_TYPE: seq<byte> := [COMMA, QUOTE] + Ascii("type") + [QUOTE, COLON, QUOTE]
  const WIRE_VALUE: seq<byte> := [QUOTE, COMMA, QUOTE] + Ascii("value") + [QUOTE, COLON]
  const WIRE_END: seq<byte> := [RBRACE]

  /** One record on the wire. */
  lemma ItemOnTheWire(key: seq<byte>, kind: int, v: Json)
    requires NulFree(key) && Printable(v) && Printable(ItemOf(key, kind, v))
    ensures Render.Text(ItemOf(key, kind, v), false, 0)
         == WIRE_KEY + JsonString.Quoted(key) + WIRE_TYPE + TypeName(kind) + WIRE_VALUE
            + Render.Text(v, false, 1) + WIRE_END
  {
    NameIsPlain(kind);
    NamesAreRead(kind);
    hide TypeName, Printable, Render.Text, JsonString.Escape;
    NothingToEscape(IDENTIFIER);
    NothingToEscape(TYPE);
    NothingToEscape(VALUE);
    NothingToEscape(TypeName(kind));
    StringPrint(key);
    StringPrint(TypeName(kind));
    ThreeMembersPrint(Member(IDENTIFIER, Str(key)), Member(TYPE, Str(TypeName(kind))), Member(VALUE, v));
    WireParts(JsonString.Quoted(key), TypeName(kind), Render.Text(v, false, 1));
  }

  lemma StringPrint(text: seq<byte>)
    requires NulFree(text)
    ensures Printable(Str(text)) && Render.Text(Str(text), false, 1) == JsonString.Quoted(text)
  {
  }

  lemma NameIsPlain(kind: int)
    ensures forall i :: 0 <= i < |TypeName(kind)| ==>
              TypeName(kind)[i] >= SPACE && TypeName(kind)[i] != QUOTE && TypeName(kind)[i] != BACKSLASH
  {
    NamesOnTheWire(kind);
  }

  function Pair(m: Member): seq<byte>
    requires PrintableMember(m)
  {
    JsonString.Quoted(m.key) + [COLON] + Render.Text(m.value, false, 1)
  }

  lemma PairPrints(m: Member, last: bool)
    requires PrintableMember(m)
    ensures Render.MemberText(m, false, 1, last) == if last then Pair(m) else Pair(m) + [COMMA]
  {
    hide Render.Text, JsonString.Quoted;
  }

  lemma MembersPrint(m: Member, others: seq<Member>)
    requires PrintableMember(m) && forall i :: 0 <= i < |others| ==> PrintableMember(others[i])
    ensures Render.MembersText([m] + others, false, 1)
         == (if others == [] then Pair(m) else Pair(m) + [COMMA]) + Render.MembersText(others, false, 1)
  {
    hide Render.Text, Render.MemberText, Pair;
    assert ([m] + others)[1..] == others;
    PairPrints(m, others == []);
  }

  lemma ThreeMembersPrint(a: Member, b: Member, c: Member)
    requires PrintableMember(a) && PrintableMember(b) && PrintableMember(c) && Printable(Obj([a, b, c]))
    ensures Render.Text(Obj([a, b, c]), false, 0)
         == [LBRACE] + Pair(a) + [COMMA] + Pair(b) + [COMMA] + Pair(c) + [RBRACE]
  {
    hide Printable, Pair, Render.MembersText;
    MembersPrint(c, []);
    MembersPrint(b, [c]);
    MembersPrint(a, [b, c]);
    assert [c] + [] == [c] && [b] + [c] == [b, c] && [a] + [b, c] == [a, b, c];
    NoMembers();
    BracesPrint([a, b, c]);
  }

  lemma NoMembers()
    ensures Render.MembersText([], false, 1) == []
  {
  }

  lemma BracesPrint(members: seq<Member>)
    requires Printable(Obj(members))
    ensures Render.Text(Obj(members), false, 0) == [LBRACE] + Render.MembersText(members, false, 1) + [RBRACE]
  {
    hide Render.MembersText;
  }

  lemma WireParts(key: seq<byte>, name: seq<byte>, value: seq<byte>)
    ensures [LBRACE] + (([QUOTE] + IDENTIFIER + [QUOTE]) + [COLON] + key) + [COMMA]
            + (([QUOTE] + TYPE + [QUOTE]) + [COLON] + ([QUOTE] + name + [QUOTE])) + [COMMA]
            + (([QUOTE] + VALUE + [QUOTE]) + [COLON] + value) + [RBRACE]
         == WIRE_KEY + key + WIRE_TYPE + name + WIRE_VALUE + value + WIRE_END
  {
    WireLiterals();
    WireJoined([LBRACE], [QUOTE] + IDENTIFIER + [QUOTE], [COLON], key, [COMMA], [QUOTE] + TYPE + [QUOTE], [QUOTE], name,
             [QUOTE] + VALUE + [QUOTE], value, [RBRACE]);
  }

  lemma WireLiterals()
    ensures WIRE_KEY == [LBRACE] + ([QUOTE] + IDENTIFIER + [QUOTE]) + [COLON]
    ensures WIRE_TYPE == [COMMA] + ([QUOTE] + TYPE + [QUOTE]) + [COLON] + [QUOTE]
    ensures WIRE_VALUE == [QUOTE] + [COMMA] + ([QUOTE] + VALUE + [QUOTE]) + [COLON]
    ensures WIRE_END == [RBRACE]
  {
  }

  lemma WireJoined(open: seq<byte>, i: seq<byte>, c: seq<byte>, key: seq<byte>, comma: seq<byte>, t: seq<byte>,
                 q: seq<byte>, name: seq<byte>, v: seq<byte>, value: seq<byte>, close: seq<byte>)
    ensures open + (i + c + key) + comma + (t + c + (q + name + q)) + comma + (v + c + value) + close
         == (open + i + c) + key + (comma + t + c + q) + name + (q + comma + v + c) + value + close
  {
  }

  /** Data of an unknown type becomes the text "invalid". */
  lemma UnknownTypeIsInvalid(d: Data)
    requires NulFree(d.value) && !(TYPE_INT <= d.kind < TYPE_BUTT)
    ensures ValueToJson(d.kind, d.value) == Some(Str(Ascii("invalid")))
  {
  }

  // ----- When the trip is the identity -----

  function Unchanged(data: seq<Data>): seq<Record> {
    seq(|data|, i requires 0 <= i < |data| => Record(Some(data[i].kind), data[i].key, Some(data[i].value)))
  }

  /** Text and date values are always in normal form. */
  lemma TextsAreNormal(d: Data)
    requires WellFormed(d) && (d.kind == TYPE_TEXT || d.kind == TYPE_DATE)
    ensures Convertible(d) && Normal(d) == Some(d.value)
  {
  }

  /** The digits of a text that is nothing but a numeral. */
  lemma DecimalOfText(n: int)
    ensures Decimal(DecimalText(n)) == n
  {
    var t := DecimalText(n);
    var magnitude := if n < 0 then -n else n;
    DigitsRead(magnitude);
    assert SkipSpaces(t) == t;
    var digits := if n < 0 then 1 else 0;
    assert forall i :: digits <= i < |t| ==> t[i] == Digits(magnitude)[i - digits];
    DigitRunStops(t, digits, |t|);
    assert t[digits..|t|] == Digits(magnitude);
  }

  /** Integer values of every kind are in normal form exactly when they are the decimal text of an int. */
  lemma IntegersAreNormal(d: Data)
    requires WellFormed(d) && IsInteger(d.kind)
    ensures Convertible(d)
    ensures Normal(d) == Some(d.value) <==> exists n :: INT_MIN <= n <= INT_MAX && d.value == DecimalText(n)
  {
    if n :| INT_MIN <= n <= INT_MAX && d.value == DecimalText(n) {
      DecimalOfText(n);
      WrapKeeps(n);
    }
  }

  lemma WrapKeeps(n: int)
    requires INT_MIN <= n <= INT_MAX
    ensures (n - INT_MIN) % 0x1_0000_0000 + INT_MIN == n
  {
  }

  /** The unformatted print of a tree nested at most 998 deep is in normal form as a structure or an array. */
  lemma PrintsAreNormal(kind: int, key: seq<byte>, v: Json)
    requires kind == TYPE_STRUCT || kind == TYPE_ARRAY
    requires Printable(v) && Plain(v) && Height(v) + 2 <= NESTING_LIMIT
    requires |Render.Text(v, false, 0)| < 2048
    ensures var d := Data(kind, key, Render.Text(v, false, 0));
            && NulFree(d.value) && Convertible(d) && Normal(d) == Some(d.value)
            && ValueToJson(d.kind, d.value).Some? && ValueHeight(d) + 2 <= NESTING_LIMIT
  {
    hide ParseDocument, Printable, Plain, Height, Render.Text;
    Render.TextIsNulFree(v, false, 0);
    RoundTrip.DocumentRoundTrip(v, false, false);
    assert CStr(Render.Text(v, false, 0)) == RoundTrip.Document(v, false);
  }

  /** A whole number of at most 15 digits with its six zero decimals is in normal form as a float or double. */
  lemma WholeFloatsAreNormal(kind: int, key: seq<byte>, n: int)
    requires kind == TYPE_FLOAT || kind == TYPE_DOUBLE
    requires IsExact(n)
    ensures var d := Data(kind, key, DecimalText(n) + [POINT] + SixDigits(0));
            NulFree(d.value) && Convertible(d) && Normal(d) == Some(d.value)
  {
    hide Fixed, Strtod, Atof, DecimalText;
    var value := DecimalText(n) + [POINT] + SixDigits(0);
    FixedOfWhole(n);
    WholeFloatReads(n);
    DecimalTextLength(n);
    DecimalTextIsNumber(n);
    SixZeros();
  }

  lemma FixedOfWhole(n: int)
    ensures Fixed(n as real) == DecimalText(n) + [POINT] + SixDigits(0)
  {
    var magnitude := if n < 0 then -n else n;
    assert magnitude as real * 1000000.0 == (magnitude * 1000000) as real;
  }

  lemma SixZeros()
    ensures SixDigits(0) == [DIGIT_0, DIGIT_0, DIGIT_0, DIGIT_0, DIGIT_0, DIGIT_0]
    ensures DigitsValue(SixDigits(0)) == 0
  {
    ZerosAreZero(SixDigits(0));
  }

  lemma {:induction false} ZerosAreZero(s: seq<byte>)
    requires forall i :: 0 <= i < |s| ==> s[i] == DIGIT_0
    ensures DigitsValue(s) == 0
  {
    if s != [] {
      ZerosAreZero(s[..|s| - 1]);
    }
  }

  /** Digits from whole to end, a point, and only zeros behind it: strtod reads the whole number. */
  lemma PointedDigits(s: seq<byte>, whole: nat, end: nat)
    requires whole <= 1 && whole < end < |s|
    requires (whole == 1) == (s[0] == MINUS) && s[0] != PLUS
    requires (forall i :: whole <= i < end ==> IsDigit(s[i])) && s[end] == POINT
    requires forall i :: end < i < |s| ==> s[i] == DIGIT_0
    ensures Strtod(s).0 == DigitsValue(s[whole..end]) as real * (if whole == 1 then -1.0 else 1.0)
  {
    hide DigitsValue, DigitRun;
    assert SignEnd(s, 0) == whole;
    DigitRunStops(s, whole, end);
    DigitRunStops(s, end + 1, |s|);
    ZerosAreZero(s[end + 1..|s|]);
    assert ExponentEnd(s, |s|) == |s|;
  }

  lemma WholeFloatShape(n: int)
    ensures var s := DecimalText(n) + [POINT] + SixDigits(0);
            var whole := if n < 0 then 1 else 0;
            var end := |DecimalText(n)|;
            && whole < end < |s| && (whole == 1) == (s[0] == MINUS) && s[0] != PLUS && !IsSpace(s[0])
            && (forall i :: whole <= i < end ==> IsDigit(s[i])) && s[end] == POINT
            && (forall i :: end < i < |s| ==> s[i] == DIGIT_0)
            && s[whole..end] == Digits(if n < 0 then -n else n)
  {
    SixZeros();
  }

  lemma WholeFloatReads(n: int)
    ensures Atof(DecimalText(n) + [POINT] + SixDigits(0)) == n as real
  {
    hide Strtod, DigitsValue, DecimalText, SixDigits;
    var s := DecimalText(n) + [POINT] + SixDigits(0);
    WholeFloatShape(n);
    DigitsRead(if n < 0 then -n else n);
    assert SkipSpaces(s) == s;
    PointedDigits(s, if n < 0 then 1 else 0, |DecimalText(n)|);
  }

  /**
   The values each type is meant to hold: an int in decimal, a whole number with six decimals, the unformatted
   print of a tree, any text.
   */
  ghost predicate Canonical(d: Data) {
    && WellFormed(d) && TYPE_INT <= d.kind < TYPE_BUTT
    && (IsInteger(d.kind) ==> exists n :: INT_MIN <= n <= INT_MAX && d.value == DecimalText(n))
    && (IsFloat(d.kind) ==> exists n :: IsExact(n) && d.value == DecimalText(n) + [POINT] + SixDigits(0))
    && (IsNested(d.kind) ==>
          exists v :: Printable(v) && Plain(v) && Height(v) + 2 <= NESTING_LIMIT && d.value == Render.Text(v, false, 0))
  }

  lemma ScalarsAreFlat(d: Data)
    requires NulFree(d.value) && !IsNested(d.kind)
    ensures ValueToJson(d.kind, d.value).Some? && ValueHeight(d) == 0
  {
  }

  lemma CanonicalIsNormal(d: Data)
    requires Canonical(d)
    ensures Convertible(d) && Normal(d) == Some(d.value)
    ensures ValueToJson(d.kind, d.value).Some? && ValueHeight(d) + 2 <= NESTING_LIMIT
  {
    hide Convertible, Normal, Printable, Plain, Height, Render.Text, DecimalText, SixDigits, ParseDocument;
    hide ValueToJson, ValueHeight;
    if !IsNested(d.kind) {
      ScalarsAreFlat(d);
    }
    if IsInteger(d.kind) {
      IntegersAreNormal(d);
    } else if IsFloat(d.kind) {
      var n :| IsExact(n) && d.value == DecimalText(n) + [POINT] + SixDigits(0);
      WholeFloatsAreNormal(d.kind, d.key, n);
    } else if IsNested(d.kind) {
      var v :| Printable(v) && Plain(v) && Height(v) + 2 <= NESTING_LIMIT && d.value == Render.Text(v, false, 0);
      PrintsAreNormal(d.kind, d.key, v);
    } else {
      TextsAreNormal(d);
    }
  }

  /** A structure's or an array's value in normal form is the print of the tree it parses to, uncut. */
  lemma NormalNestedIsPrint(d: Data)
    requires WellFormed(d) && Convertible(d) && IsNested(d.kind) && Normal(d) == Some(d.value)
    ensures var v := ParseDocument(CStr(d.value), false).value; Plain(v) && d.value == Render.Text(v, false, 0)
  {
    hide ParseDocument, Printable, Plain, Height, Render.Text, DecimalText;
    var v := ParseDocument(CStr(d.value), false).value;
    RoundTrip.DocumentIsPlain(CStr(d.value), false);
    var text := Render.Text(v, false, 0);
    if |text| >= MAX_PARAM_VALUE_LENGTH {
      assert d.value + text[|d.value|..] == text;
      Locality.PrefixIsAnotherTree(v, d.value, text[|d.value|..]);
    }
  }

  /** An exact number with six decimals is a whole number with six zeros, and short enough for the field. */
  lemma FixedFits(n: int)
    requires IsExact(n)
    ensures Truncated(Fixed(n as real), MAX_PARAM_VALUE_LENGTH) == DecimalText(n) + [POINT] + SixDigits(0)
  {
    hide Fixed, DecimalText, SixDigits;
    FixedOfWhole(n);
    DecimalTextLength(n);
  }

  lemma NormalIsCanonical(d: Data)
    requires WellFormed(d) && Convertible(d) && Normal(d) == Some(d.value)
    requires ValueToJson(d.kind, d.value).Some? && ValueHeight(d) + 2 <= NESTING_LIMIT
    ensures Canonical(d)
  {
    hide Printable, Plain, Height, Render.Text, DecimalText, SixDigits, ParseDocument, Atoi, Atof, Fixed, Truncated;
    if IsInteger(d.kind) {
      IntegersAreNormal(d);
    } else if IsFloat(d.kind) {
      FixedFits(Atof(d.value).Floor);
    } else if IsNested(d.kind) {
      NormalNestedIsPrint(d);
      assert Printable(ParseDocument(CStr(d.value), false).value);
    }
  }

  /** Device data comes back from JSON, printed either way and parsed, as it was. */
  ghost predicate Survives(data: seq<Data>, fmt: bool, requireNullTerminated: bool)
    requires forall i :: 0 <= i < |data| ==> WellFormed(data[i])
  {
    && ToJson(data).Some? && Printable(ToJson(data).value)
    && var parsed := ParseDocument(RoundTrip.Document(ToJson(data).value, fmt), requireNullTerminated);
       parsed.Parsed? && FromJson(parsed.value) == Converted(Unchanged(data))
  }

  lemma CanonicalSurvives(data: seq<Data>, fmt: bool, requireNullTerminated: bool)
    requires forall i :: 0 <= i < |data| ==> WellFormed(data[i]) && Canonical(data[i])
    ensures Survives(data, fmt, requireNullTerminated)
  {
    hide Canonical, ToJson, FromJson, ParseDocument, RoundTrip.Document, Normal, Convertible, ValueToJson, ValueHeight;
    forall i | 0 <= i < |data|
      ensures WellFormed(data[i]) && Convertible(data[i]) && TripOf(data[i]) == Unchanged(data)[i]
      ensures ValueToJson(data[i].kind, data[i].value).Some? && ValueHeight(data[i]) + 2 <= NESTING_LIMIT
    {
      CanonicalIsNormal(data[i]);
      CanonicalKind(data[i]);
    }
    DataTrip(data, fmt, requireNullTerminated);
    assert FromJson(ToJson(data).value).value == Unchanged(data);
  }

  lemma CanonicalKind(d: Data)
    requires Canonical(d)
    ensures KindBack(d.kind) == d.kind
  {
  }

  lemma SurvivorsAreCanonical(data: seq<Data>, fmt: bool, requireNullTerminated: bool)
    requires forall i :: 0 <= i < |data| ==> WellFormed(data[i]) && ExactData(data[i])
    requires Survives(data, fmt, requireNullTerminated)
    ensures forall i :: 0 <= i < |data| ==> Canonical(data[i])
  {
    hide Canonical, ToJson, FromJson, ParseDocument, RoundTrip.Document, Normal, ExactData, ValueToJson, ValueHeight;
    hide Printable;
    ConversionNeedsValues(data);
    forall i | 0 <= i < |data| ensures Convertible(data[i]) {
      ValuesParse(data[i]);
    }
    DataTrip(data, fmt, requireNullTerminated);
    forall i | 0 <= i < |data| ensures Canonical(data[i]) {
      assert TripOf(data[i]) == Unchanged(data)[i];
      NormalIsCanonical(data[i]);
    }
  }

  lemma ValuesParse(d: Data)
    requires NulFree(d.value) && ExactData(d) && ValueToJson(d.kind, d.value).Some?
    ensures Convertible(d)
  {
    hide ParseDocument, ExactData;
  }

  /**
   Device data whose numbers are exact comes back as it was if and only if every record holds a canonical
   value for a known type; nothing is asked of the other records.
   */
  lemma SurvivesIffCanonical(data: seq<Data>, fmt: bool, requireNullTerminated: bool)
    requires forall i :: 0 <= i < |data| ==> WellFormed(data[i]) && ExactData(data[i])
    ensures Survives(data, fmt, requireNullTerminated) <==> forall i :: 0 <= i < |data| ==> Canonical(data[i])
  {
    hide Canonical, Survives, ExactData;
    if Survives(data, fmt, requireNullTerminated) {
      SurvivorsAreCanonical(data, fmt, requireNullTerminated);
    }
    if forall i :: 0 <= i < |data| ==> Canonical(data[i]) {
      CanonicalSurvives(data, fmt, requireNullTerminated);
    }
  }

  /** The integer "007" comes back as "7". */
  lemma LeadingZerosAreLost(key: seq<byte>, fmt: bool, requireNullTerminated: bool)
    requires NulFree(key) && |key| < MAX_PARAM_NAME_LENGTH
    ensures var d := Data(TYPE_INT, key, Ascii("007"));
            && WellFormed(d) && ToJson([d]).Some? && Printable(ToJson([d]).value)
            && var parsed := ParseDocument(RoundTrip.Document(ToJson([d]).value, fmt), requireNullTerminated);
               && parsed.Parsed?
               && FromJson(parsed.value) == Converted([Record(Some(TYPE_INT), key, Some(Ascii("7")))])
  {
    hide ToJson, FromJson, ParseDocument, RoundTrip.Document, Printable, ValueToJson, ValueHeight, Atoi, DecimalText;
    var d := Data(TYPE_INT, key, Ascii("007"));
    SevenIsSeven();
    ScalarsAreFlat(d);
    assert AllConvertible([d]);
    DataTrip([d], fmt, requireNullTerminated);
    var back := FromJson(ToJson([d]).value).value;
    assert back[0] == TripOf(d) == Record(Some(TYPE_INT), key, Some(Ascii("7")));
    assert back == [Record(Some(TYPE_INT), key, Some(Ascii("7")))];
  }

  lemma SevenIsSeven()
    ensures Atoi(Ascii("007")) == 7 && DecimalText(7) == Ascii("7")
  {
    var t := Ascii("007");
    assert SkipSpaces(t) == t;
    DigitRunStops(t, 0, 3);
    assert t[0..3] == [DIGIT_0, DIGIT_0, DIGIT_0 + 7];
    assert DigitsValue([DIGIT_0]) == 0;
    assert [DIGIT_0, DIGIT_0][..1] == [DIGIT_0] && DigitsValue([DIGIT_0, DIGIT_0]) == 0;
    assert [DIGIT_0, DIGIT_0, DIGIT_0 + 7][..2] == [DIGIT_0, DIGIT_0];
    assert DigitsValue(t[0..3]) == 7;
  }

  // ----- The conversion loops -----

  function Joined<T>(done: seq<T>, rest: Option<seq<T>>): Option<seq<T>> {
    if rest.None? then None else Some(done + rest.value)
  }

  lemma JoinedNothing<T>(rest: Option<seq<T>>)
    ensures Joined([], rest) == rest
  {
    if rest.Some? {
      assert [] + rest.value == rest.value;
    }
  }

  lemma JoinedStep<T>(done: seq<T>, x: T, rest: Option<seq<T>>)
    ensures Joined(done, if rest.None? then None else Some([x] + rest.value)) == Joined(done + [x], rest)
  {
    if rest.Some? {
      assert done + ([x] + rest.value) == (done + [x]) + rest.value;
    }
  }

  method StructDataToJsonData(data: seq<Data>) returns (root: Option<Json>)
    requires forall i :: 0 <= i < |data| ==> WellFormed(data[i])
    ensures root == ToJson(data)
  {
    hide ValueToJson, ItemOf;
    var items: seq<Json> := [];
    var i := 0;
    assert data[0..] == data;
    JoinedNothing(ItemsToJson(data));
    while i < |data|
      invariant 0 <= i <= |data|
      invariant ItemsToJson(data) == Joined(items, ItemsToJson(data[i..]))
    {
      assert data[i..][1..] == data[i + 1..] && WellFormed(data[i]);
      var value := ValueToJson(data[i].kind, data[i].value);
      if value.None? {
        return None;
      }
      JoinedStep(items, ItemOf(data[i].key, data[i].kind, value.value), ItemsToJson(data[i + 1..]));
      items := items + [ItemOf(data[i].key, data[i].kind, value.value)];
      i := i + 1;
    }
    assert data[|data|..] == [] && items + [] == items;
    return Some(Arr(items));
  }

  function Continued<T>(done: seq<T>, rest: Conversion<seq<T>>): Conversion<seq<T>> {
    if rest.Converted? then Converted(done + rest.value) else rest
  }

  lemma ContinuedNothing<T>(rest: Conversion<seq<T>>)
    ensures Continued([], rest) == rest
  {
    if rest.Converted? {
      assert [] + rest.value == rest.value;
    }
  }

  lemma ContinuedStep<T>(done: seq<T>, x: T, rest: Conversion<seq<T>>)
    ensures Continued(done, if rest.Converted? then Converted([x] + rest.value) else rest)
        == Continued(done + [x], rest)
  {
    if rest.Converted? {
      assert done + ([x] + rest.value) == (done + [x]) + rest.value;
    }
  }

  method JsonDataToStructData(json: Json) returns (result: Conversion<seq<Record>>)
    ensures result == FromJson(json)
  {
    hide ItemToRecord;
    var items := Children(json);
    if |items| == 0 {
      return Converted([]);
    }
    var records: seq<Record> := [];
    var i := 0;
    assert items[0..] == items;
    ContinuedNothing(ItemsToRecords(items));
    while i < |items|
      invariant 0 <= i <= |items|
      invariant ItemsToRecords(items) == Continued(records, ItemsToRecords(items[i..]))
    {
      assert items[i..][1..] == items[i + 1..];
      var record := ItemToRecord(items[i]);
      match record {
        case Converted(r) =>
          ContinuedStep(records, r, ItemsToRecords(items[i + 1..]));
          records := records + [r];
        case Refused(code) => return Refused(code);
        case Outside => return Outside;
      }
      i := i + 1;
    }
    assert items[|items|..] == [] && records + [] == records;
    return Converted(records);
  }
}
