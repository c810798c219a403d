/**
 cJSON_Compare, and what it decides: equality of trees with their objects read as maps.
 */
module Compare {
  import opened Bytes
  import opened JsonTree

  // ----- Keys -----

  function ToLower(b: byte): byte {
    if UPPER_A <= b <= UPPER_Z then b + 32 else b
  }

  /** A key as far as the chosen case rule tells keys apart. */
  function Fold(key: seq<byte>, caseSensitive: bool): (r: seq<byte>)
    ensures |r| == |key|
  {
    if caseSensitive then key else seq(|key|, i requires 0 <= i < |key| => ToLower(key[i]))
  }

  predicate SameKey(a: seq<byte>, b: seq<byte>, caseSensitive: bool) {
    Fold(a, caseSensitive) == Fold(b, caseSensitive)
  }

  /** The upper- and the lower-case form of one letter. */
  predicate CasesOfOneLetter(upper: byte, lower: byte) {
    65 <= upper <= 90 && lower == upper + 32
  }

  /** Keys of one length whose bytes agree, up to the case of letters. */
  predicate AlikeUpToCase(a: seq<byte>, b: seq<byte>) {
    && |a| == |b|
    && forall i :: 0 <= i < |a| ==> a[i] == b[i] || CasesOfOneLetter(a[i], b[i]) || CasesOfOneLetter(b[i], a[i])
  }

  /** The case rule: when it is sensitive only equal keys are the same, else those that differ in case only. */
  lemma SameKeyIs(a: seq<byte>, b: seq<byte>, caseSensitive: bool)
    ensures SameKey(a, b, caseSensitive) <==> if caseSensitive then a == b else AlikeUpToCase(a, b)
  {
    if !caseSensitive {
      if SameKey(a, b, false) {
        assert |Fold(a, false)| == |a| && |Fold(b, false)| == |b|;
        forall i | 0 <= i < |a|
          ensures a[i] == b[i] || CasesOfOneLetter(a[i], b[i]) || CasesOfOneLetter(b[i], a[i])
        {
          assert Fold(a, false)[i] == Fold(b, false)[i];
        }
      }
      if AlikeUpToCase(a, b) {
        assert forall i :: 0 <= i < |a| ==> Fold(a, false)[i] == Fold(b, false)[i];
      }
    }
  }

  /** get_object_item: the index of the first member with the key, or the number of members. */
  function Find(members: seq<Member>, key: seq<byte>, caseSensitive: bool): (r: nat)
    ensures r <= |members|
    ensures r < |members| ==> SameKey(members[r].key, key, caseSensitive)
    ensures forall i :: 0 <= i < r ==> !SameKey(members[i].key, key, caseSensitive)
  {
    if members == [] || SameKey(members[0].key, key, caseSensitive) then 0
    else 1 + Find(members[1..], key, caseSensitive)
  }

  // ----- The comparison -----

  /** cJSON_Compare of two trees that share no item. */
  predicate Compare(a: Json, b: Json, caseSensitive: bool)
    decreases Height(a) + Height(b), 1
  {
    match (a, b)
    case (Null, Null) => true
    case (False, False) => true
    case (True, True) => true
    case (Number(x), Number(y)) => x == y
    case (Str(s), Str(t)) => s == t
    case (Raw(s), Raw(t)) => s == t
    case (Arr(s), Arr(t)) =>
      && (forall i :: 0 <= i < |s| && i < |t| ==> Compare(s[i], t[i], caseSensitive))
      && |s| == |t|
    case (Obj(s), Obj(t)) => EachFound(s, t, caseSensitive) && EachFound(t, s, caseSensitive)
    case _ => false
  }

  /** One of the two loops over members: each finds a member of the other object that compares equal. */
  predicate EachFound(s: seq<Member>, t: seq<Member>, caseSensitive: bool)
    decreases 2 + HeightOfMembers(s) + HeightOfMembers(t), 0
  {
    forall i :: 0 <= i < |s| ==>
      var j := Find(t, s[i].key, caseSensitive);
      j < |t| && Compare(s[i].value, t[j].value, caseSensitive)
  }

  // ----- Its meaning -----

  /** A tree up to the order and the spelling of keys: an object is a map, the first member with a key counting. */
  datatype Meaning =
    | NullMeaning
    | FalseMeaning
    | TrueMeaning
    | NumberMeaning(value: real)
    | StrMeaning(text: seq<byte>)
    | RawMeaning(text: seq<byte>)
    | ArrMeaning(items: seq<Meaning>)
    | ObjMeaning(members: map<seq<byte>, Meaning>)

  function MeaningOf(v: Json, caseSensitive: bool): Meaning
    decreases v
  {
    match v
    case Null => NullMeaning
    case False => FalseMeaning
    case True => TrueMeaning
    case Number(x) => NumberMeaning(x)
    case Str(s) => StrMeaning(s)
    case Raw(s) => RawMeaning(s)
    case Arr(items) => ArrMeaning(seq(|items|, i requires 0 <= i < |items| => MeaningOf(items[i], caseSensitive)))
    case Obj(members) => ObjMeaning(MembersMeaning(members, caseSensitive))
  }

  function MembersMeaning(members: seq<Member>, caseSensitive: bool): map<seq<byte>, Meaning>
    decreases members
  {
    if members == [] then map[]
    else
      var key, value := Fold(members[0].key, caseSensitive), MeaningOf(members[0].value, caseSensitive);
      MembersMeaning(members[1..], caseSensitive)[key := value]
  }

  /** Members of one object whose keys are the same under the case rule have the same value. */
  predicate Consistent(v: Json, caseSensitive: bool)
    decreases v
  {
    match v
    case Arr(items) => forall i :: 0 <= i < |items| ==> Consistent(items[i], caseSensitive)
    case Obj(members) =>
      && (forall i :: 0 <= i < |members| ==> Consistent(members[i].value, caseSensitive))
      && (forall i, j :: 0 <= i < |members| && 0 <= j < |members| ==>
            SameKey(members[i].key, members[j].key, caseSensitive) ==>
            MeaningOf(members[i].value, caseSensitive) == MeaningOf(members[j].value, caseSensitive))
    case _ => true
  }

  predicate DistinctKeys(v: Json, caseSensitive: bool)
    decreases v
  {
    match v
    case Arr(items) => forall i :: 0 <= i < |items| ==> DistinctKeys(items[i], caseSensitive)
    case Obj(members) =>
      && (forall i :: 0 <= i < |members| ==> DistinctKeys(members[i].value, caseSensitive))
      && (forall i, j :: 0 <= i < j < |members| ==> !SameKey(members[i].key, members[j].key, caseSensitive))
    case _ => true
  }

  lemma {:induction false} DistinctIsConsistent(v: Json, caseSensitive: bool)
    requires DistinctKeys(v, caseSensitive)
    ensures Consistent(v, caseSensitive)
    decreases v
  {
    match v {
      case Arr(items) =>
        forall i | 0 <= i < |items|
          ensures Consistent(items[i], caseSensitive)
        {
          DistinctIsConsistent(items[i], caseSensitive);
        }
      case Obj(members) =>
        forall i | 0 <= i < |members|
          ensures Consistent(members[i].value, caseSensitive)
        {
          DistinctIsConsistent(members[i].value, caseSensitive);
        }
      case _ =>
    }
  }

  /** The map of an object, looked up by key. */
  lemma {:induction false} FindMeaning(members: seq<Member>, key: seq<byte>, caseSensitive: bool)
    ensures var j := Find(members, key, caseSensitive);
            var m := MembersMeaning(members, caseSensitive);
            && (j < |members| <==> Fold(key, caseSensitive) in m)
            && (j < |members| ==> m[Fold(key, caseSensitive)] == MeaningOf(members[j].value, caseSensitive))
  {
    if members != [] && !SameKey(members[0].key, key, caseSensitive) {
      FindMeaning(members[1..], key, caseSensitive);
      var j := Find(members[1..], key, caseSensitive);
      if j < |members[1..]| {
        assert members[1..][j] == members[j + 1];
      }
    }
  }

  lemma {:induction false} KeysOfMeaning(members: seq<Member>, folded: seq<byte>, caseSensitive: bool) returns (i: nat)
    requires folded in MembersMeaning(members, caseSensitive)
    ensures i < |members| && Fold(members[i].key, caseSensitive) == folded
  {
    if Fold(members[0].key, caseSensitive) == folded {
      i := 0;
    } else {
      i := KeysOfMeaning(members[1..], folded, caseSensitive);
      i := i + 1;
    }
  }

  /** The comparison succeeds exactly on consistent trees of the same meaning. */
  lemma {:induction false} CompareDecidesMeaning(a: Json, b: Json, caseSensitive: bool)
    ensures Compare(a, b, caseSensitive) <==>
            && Consistent(a, caseSensitive) && Consistent(b, caseSensitive)
            && MeaningOf(a, caseSensitive) == MeaningOf(b, caseSensitive)
    decreases Height(a) + Height(b)
  {
    hide EachFound, MembersMeaning, SameKey, HeightOfItems, HeightOfMembers;
    match (a, b) {
      case (Arr(s), Arr(t)) => ArraysCompare(s, t, caseSensitive);
      case (Obj(s), Obj(t)) => ObjectsCompare(s, t, caseSensitive);
      case _ =>
    }
  }

  /** Objects of one member compare by the case rule on the keys and by the values. */
  lemma OneMemberCompares(k: seq<byte>, x: Json, l: seq<byte>, y: Json, caseSensitive: bool)
    ensures Compare(Obj([Member(k, x)]), Obj([Member(l, y)]), caseSensitive) <==>
            && (if caseSensitive then k == l else AlikeUpToCase(k, l))
            && Compare(x, y, caseSensitive) && Compare(y, x, caseSensitive)
  {
    hide Fold;
    var s, t := [Member(k, x)], [Member(l, y)];
    SameKeyIs(k, l, caseSensitive);
    assert Find(t, k, caseSensitive) == if SameKey(l, k, caseSensitive) then 0 else 1;
    assert Find(s, l, caseSensitive) == if SameKey(k, l, caseSensitive) then 0 else 1;
  }

  lemma {:induction false} ArraysCompare(s: seq<Json>, t: seq<Json>, caseSensitive: bool)
    ensures Compare(Arr(s), Arr(t), caseSensitive) <==>
            && Consistent(Arr(s), caseSensitive) && Consistent(Arr(t), caseSensitive)
            && MeaningOf(Arr(s), caseSensitive) == MeaningOf(Arr(t), caseSensitive)
    decreases 2 + HeightOfItems(s) + HeightOfItems(t), 0
  {
    forall i | 0 <= i < |s| && i < |t|
      ensures Compare(s[i], t[i], caseSensitive) <==>
              && Consistent(s[i], caseSensitive) && Consistent(t[i], caseSensitive)
              && MeaningOf(s[i], caseSensitive) == MeaningOf(t[i], caseSensitive)
    {
      CompareDecidesMeaning(s[i], t[i], caseSensitive);
    }
    var x, y := MeaningOf(Arr(s), caseSensitive).items, MeaningOf(Arr(t), caseSensitive).items;
    assert |x| == |s| && |y| == |t|;
    assert forall i :: 0 <= i < |s| ==> x[i] == MeaningOf(s[i], caseSensitive);
    assert forall i :: 0 <= i < |t| ==> y[i] == MeaningOf(t[i], caseSensitive);
  }

  /** The same, said of meanings. */
  predicate Covered(s: seq<Member>, t: seq<Member>, caseSensitive: bool) {
    forall i :: 0 <= i < |s| ==>
      var j := Find(t, s[i].key, caseSensitive);
      && j < |t|
      && Consistent(s[i].value, caseSensitive) && Consistent(t[j].value, caseSensitive)
      && MeaningOf(s[i].value, caseSensitive) == MeaningOf(t[j].value, caseSensitive)
  }

  lemma {:induction false} LoopCovers(s: seq<Member>, t: seq<Member>, caseSensitive: bool)
    ensures Covered(s, t, caseSensitive) <==> EachFound(s, t, caseSensitive)
    decreases 2 + HeightOfMembers(s) + HeightOfMembers(t), 0
  {
    forall i | 0 <= i < |s| && Find(t, s[i].key, caseSensitive) < |t|
      ensures var j := Find(t, s[i].key, caseSensitive);
              Compare(s[i].value, t[j].value, caseSensitive) <==>
              && Consistent(s[i].value, caseSensitive) && Consistent(t[j].value, caseSensitive)
              && MeaningOf(s[i].value, caseSensitive) == MeaningOf(t[j].value, caseSensitive)
    {
      CompareDecidesMeaning(s[i].value, t[Find(t, s[i].key, caseSensitive)].value, caseSensitive);
    }
  }

  lemma {:induction false} ObjectsCompare(s: seq<Member>, t: seq<Member>, caseSensitive: bool)
    ensures Compare(Obj(s), Obj(t), caseSensitive) <==>
            && Consistent(Obj(s), caseSensitive) && Consistent(Obj(t), caseSensitive)
            && MeaningOf(Obj(s), caseSensitive) == MeaningOf(Obj(t), caseSensitive)
    decreases 2 + HeightOfMembers(s) + HeightOfMembers(t), 1
  {
    hide EachFound, Covered, MembersMeaning;
    LoopCovers(s, t, caseSensitive);
    LoopCovers(t, s, caseSensitive);
    if Covered(s, t, caseSensitive) && Covered(t, s, caseSensitive) {
      CoveredIsConsistent(s, t, caseSensitive);
      CoveredIsConsistent(t, s, caseSensitive);
      CoveredMeansEqual(s, t, caseSensitive);
    }
    if Consistent(Obj(s), caseSensitive) && Consistent(Obj(t), caseSensitive)
       && MembersMeaning(s, caseSensitive) == MembersMeaning(t, caseSensitive) {
      EqualMeansCovered(s, t, caseSensitive);
      EqualMeansCovered(t, s, caseSensitive);
    }
  }

  lemma CoveredIsConsistent(s: seq<Member>, t: seq<Member>, caseSensitive: bool)
    requires Covered(s, t, caseSensitive)
    ensures Consistent(Obj(s), caseSensitive)
  {
    forall i, j | 0 <= i < |s| && 0 <= j < |s| && SameKey(s[i].key, s[j].key, caseSensitive)
      ensures MeaningOf(s[i].value, caseSensitive) == MeaningOf(s[j].value, caseSensitive)
    {
      FindMeaning(t, s[i].key, caseSensitive);
      FindMeaning(t, s[j].key, caseSensitive);
    }
  }

  lemma CoveredKeys(s: seq<Member>, t: seq<Member>, caseSensitive: bool, folded: seq<byte>)
    requires Covered(s, t, caseSensitive) && folded in MembersMeaning(s, caseSensitive)
    ensures folded in MembersMeaning(t, caseSensitive)
    ensures MembersMeaning(t, caseSensitive)[folded] == MembersMeaning(s, caseSensitive)[folded]
  {
    var i := KeysOfMeaning(s, folded, caseSensitive);
    FindMeaning(s, s[i].key, caseSensitive);
    FindMeaning(t, s[i].key, caseSensitive);
    var k := Find(s, s[i].key, caseSensitive);
    assert SameKey(s[k].key, s[i].key, caseSensitive);
    FindMeaning(t, s[k].key, caseSensitive);
  }

  lemma CoveredMeansEqual(s: seq<Member>, t: seq<Member>, caseSensitive: bool)
    requires Covered(s, t, caseSensitive) && Covered(t, s, caseSensitive)
    ensures MembersMeaning(s, caseSensitive) == MembersMeaning(t, caseSensitive)
  {
    var x, y := MembersMeaning(s, caseSensitive), MembersMeaning(t, caseSensitive);
    forall folded | folded in x
      ensures folded in y && y[folded] == x[folded]
    {
      CoveredKeys(s, t, caseSensitive, folded);
    }
    forall folded | folded in y
      ensures folded in x
    {
      CoveredKeys(t, s, caseSensitive, folded);
    }
  }

  lemma EqualMeansCovered(s: seq<Member>, t: seq<Member>, caseSensitive: bool)
    requires Consistent(Obj(s), caseSensitive) && Consistent(Obj(t), caseSensitive)
    requires MembersMeaning(s, caseSensitive) == MembersMeaning(t, caseSensitive)
    ensures Covered(s, t, caseSensitive)
  {
    forall i | 0 <= i < |s|
      ensures var j := Find(t, s[i].key, caseSensitive);
              && j < |t|
              && Consistent(s[i].value, caseSensitive) && Consistent(t[j].value, caseSensitive)
              && MeaningOf(s[i].value, caseSensitive) == MeaningOf(t[j].value, caseSensitive)
    {
      FindMeaning(s, s[i].key, caseSensitive);
      FindMeaning(t, s[i].key, caseSensitive);
      assert SameKey(s[Find(s, s[i].key, caseSensitive)].key, s[i].key, caseSensitive);
    }
  }

  // ----- Consequences -----

  /** On trees with distinct keys the comparison is an equivalence; symmetry and transitivity need no hypothesis. */
  lemma {:induction false} CompareIsEquivalence(a: Json, b: Json, c: Json, caseSensitive: bool)
    ensures DistinctKeys(a, caseSensitive) ==> Compare(a, a, caseSensitive)
    ensures Compare(a, b, caseSensitive) <==> Compare(b, a, caseSensitive)
    ensures Compare(a, b, caseSensitive) && Compare(b, c, caseSensitive) ==> Compare(a, c, caseSensitive)
  {
    if DistinctKeys(a, caseSensitive) {
      DistinctIsConsistent(a, caseSensitive);
    }
    CompareDecidesMeaning(a, a, caseSensitive);
    CompareDecidesMeaning(a, b, caseSensitive);
    CompareDecidesMeaning(b, a, caseSensitive);
    CompareDecidesMeaning(b, c, caseSensitive);
    CompareDecidesMeaning(a, c, caseSensitive);
  }

  /** A tree equals a copy of itself exactly when it is consistent. */
  lemma {:induction false} CopyComparesEqual(v: Json, caseSensitive: bool)
    ensures Compare(v, v, caseSensitive) <==> Consistent(v, caseSensitive)
  {
    CompareDecidesMeaning(v, v, caseSensitive);
  }

  /** {"k":1,"k":2} does not compare equal to its copy. */
  lemma RepeatedKeyBreaksReflexivity(caseSensitive: bool)
    ensures var v := Obj([Member([107], Number(1.0)), Member([107], Number(2.0))]);
            !Compare(v, v, caseSensitive)
  {
    var v := Obj([Member([107], Number(1.0)), Member([107], Number(2.0))]);
    assert !Consistent(v, caseSensitive) by {
      assert SameKey(v.members[0].key, v.members[1].key, caseSensitive);
      assert MeaningOf(v.members[0].value, caseSensitive) != MeaningOf(v.members[1].value, caseSensitive);
    }
    CopyComparesEqual(v, caseSensitive);
  }
}
