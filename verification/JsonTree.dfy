/**
 A cJSON item and everything below it, as a value.
 */
module JsonTree {
  import opened Bytes
  import JsonNumber

  /** An item; `Raw` text is printed as it stands and is never produced by parsing. */
  datatype Json =
    | Null
    | False
    | True
    | Number(value: real)
    | Str(text: seq<byte>)
    | Raw(text: seq<byte>)
    | Arr(items: seq<Json>)
    | Obj(members: seq<Member>)

  /** A child of an object: its `string` field and the rest of it. */
  datatype Member = Member(key: seq<byte>, value: Json)

  predicate IsExactNumber(x: real) {
    x == x.Floor as real && JsonNumber.IsExact(x.Floor)
  }

  /** The trees whose print is modelled: C strings hold no NUL, numbers are integers of at most 15 digits. */
  predicate Printable(v: Json) {
    match v
    case Null | False | True => true
    case Number(x) => IsExactNumber(x)
    case Str(text) => NulFree(text)
    case Raw(text) => NulFree(text)
    case Arr(items) => forall i :: 0 <= i < |items| ==> Printable(items[i])
    case Obj(members) => forall i :: 0 <= i < |members| ==> PrintableMember(members[i])
  }

  predicate PrintableMember(m: Member) {
    NulFree(m.key) && Printable(m.value)
  }

  /** The trees parsing can produce: no Raw items, and every string and key a C string. */
  predicate Plain(v: Json) {
    match v
    case Str(text) => NulFree(text)
    case Raw(_) => false
    case Arr(items) => forall i :: 0 <= i < |items| ==> Plain(items[i])
    case Obj(members) => forall i :: 0 <= i < |members| ==> NulFree(members[i].key) && Plain(members[i].value)
    case _ => true
  }

  /** Every number is an integer of at most 15 digits. */
  predicate ExactNumbers(v: Json) {
    match v
    case Number(x) => IsExactNumber(x)
    case Arr(items) => forall i :: 0 <= i < |items| ==> ExactNumbers(items[i])
    case Obj(members) => forall i :: 0 <= i < |members| ==> ExactNumbers(members[i].value)
    case _ => true
  }

  lemma PlainIsPrintable(v: Json)
    requires Plain(v)
    ensures Printable(v) <==> ExactNumbers(v)
  {
  }

  function Max(a: nat, b: nat): nat {
    if a < b then b else a
  }

  /** How many arrays and objects are nested in each other. */
  function Height(v: Json): nat {
    match v
    case Arr(items) => 1 + HeightOfItems(items)
    case Obj(members) => 1 + HeightOfMembers(members)
    case _ => 0
  }

  function HeightOfItems(items: seq<Json>): (h: nat)
    ensures forall i :: 0 <= i < |items| ==> Height(items[i]) <= h
  {
    if items == [] then 0 else Max(Height(items[0]), HeightOfItems(items[1..]))
  }

  function HeightOfMembers(members: seq<Member>): (h: nat)
    ensures forall i :: 0 <= i < |members| ==> Height(members[i].value) <= h
  {
    if members == [] then 0 else Max(Height(members[0].value), HeightOfMembers(members[1..]))
  }
}
