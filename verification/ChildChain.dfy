/**
 The doubly linked chain of an item's children: appending, inserting, detaching, replacing, and deep copies.
 */
module ChildChain {
  import opened Bytes
  import opened JsonTree
  import Compare

  /** What an item is, apart from its children. */
  datatype Kind = Scalar(value: Json) | Array | Object

  /** cJSON. `kids` lists the children in order; `below` holds every item under this one. */
  class Item {
    var next: Item?
    var prev: Item?
    var child: Item?
    var kind: Kind
    var name: seq<byte>
    ghost var kids: seq<Item>
    ghost var below: set<Item>

    constructor (kind: Kind, name: seq<byte>)
      ensures this.kind == kind && this.name == name
      ensures next == null && prev == null && child == null && kids == [] && below == {}
    {
      this.kind, this.name := kind, name;
      next, prev, child := null, null, null;
      kids, below := [], {};
    }

    /** The children are distinct, prev and next are inverse to each other, and both ends are NULL. */
    ghost predicate Chained()
      reads `child, `kids, kids`next, kids`prev
    {
      this !in kids && child == Nth(kids, 0) && Linked(kids)
    }

    static ghost function Nth(items: seq<Item>, i: int): Item? {
      if 0 <= i < |items| then items[i] else null
    }

    /** An item that is in no chain. */
    ghost predicate Loose()
      reads `next, `prev
    {
      next == null && prev == null
    }

    static ghost function Opt(item: Item?): set<Item> {
      if item == null then {} else {item}
    }

    /** get_array_item: the child at an index, or NULL behind the last one. */
    method GetArrayItem(index: nat) returns (item: Item?)
      requires Chained()
      ensures item == Nth(kids, index)
    {
      item := child;
      var left := index;
      while item != null && left > 0
        invariant 0 <= left <= index
        invariant item == Nth(kids, index - left)
        decreases left
      {
        left := left - 1;
        item := item.next;
      }
    }

    /** add_item_to_array. */
    method Add(item: Item?) returns (ok: bool)
      requires Chained()
      requires item != null ==> item.Loose() && item !in kids && item != this
      modifies this`child, this`kids, kids`next, Opt(item)`prev
      ensures ok <==> item != null
      ensures Chained() && kids == if item == null then old(kids) else old(kids) + [item]
    {
      if item == null {
        return false;
      }
      if child == null {
        child := item;
      } else {
        var last := child;
        ghost var i := 0;
        while last.next != null
          invariant 0 <= i < |kids| && last == kids[i]
          decreases |kids| - i
        {
          last := last.next;
          i := i + 1;
        }
        assert i == |kids| - 1;
        // suffix_object
        last.next := item;
        item.prev := last;
      }
      kids := kids + [item];
      return true;
    }

    /** cJSON_InsertItemInArray: a negative index does nothing, one behind the end appends. */
    method InsertItemInArray(which: int, newitem: Item)
      requires Chained()
      requires newitem.Loose() && newitem !in kids && newitem != this
      modifies this`child, this`kids, kids`next, kids`prev, newitem`next, newitem`prev
      ensures Chained()
      ensures kids == if which < 0 then old(kids)
                      else if which < |old(kids)| then old(kids)[..which] + [newitem] + old(kids)[which..]
                      else old(kids) + [newitem]
    {
      if which < 0 {
        return;
      }
      var afterInserted := GetArrayItem(which);
      if afterInserted == null {
        var _ := Add(newitem);
        return;
      }
      ghost var was := kids;
      newitem.next := afterInserted;
      newitem.prev := afterInserted.prev;
      afterInserted.prev := newitem;
      if afterInserted == child {
        child := newitem;
      } else {
        newitem.prev.next := newitem;
      }
      kids := was[..which] + [newitem] + was[which..];
      assert forall i {:trigger was[i].next} :: 0 <= i < |was| ==>
          was[i].next == if i + 1 == which then newitem else Nth(was, i + 1);
      assert forall i {:trigger was[i].prev} :: 0 <= i < |was| ==>
          was[i].prev == if i == which then newitem else Nth(was, i - 1);
      Inserted(was, which, newitem);
    }

    /** cJSON_DetachItemViaPointer; `at` is where the item stands. */
    method DetachItemViaPointer(item: Item?, ghost at: nat) returns (detached: Item?)
      requires Chained()
      requires item != null ==> at < |kids| && kids[at] == item
      modifies this`child, this`kids, kids`next, kids`prev
      ensures detached == item && Chained()
      ensures item == null ==> kids == old(kids)
      ensures item != null ==> item.Loose() && kids == old(kids)[..at] + old(kids)[at + 1..]
    {
      if item == null {
        return null;
      }
      ghost var was := kids;
      if item.prev != null {
        item.prev.next := item.next;
      }
      if item.next != null {
        item.next.prev := item.prev;
      }
      if item == child {
        child := item.next;
      }
      item.prev := null;
      item.next := null;
      kids := was[..at] + was[at + 1..];
      assert forall i {:trigger was[i].next} :: 0 <= i < |was| && i != at ==>
          was[i].next == Nth(was, if i + 1 == at then at + 1 else i + 1);
      assert forall i {:trigger was[i].prev} :: 0 <= i < |was| && i != at ==>
          was[i].prev == Nth(was, if i - 1 == at then at - 1 else i - 1);
      Detached(was, at);
      return item;
    }

    /** cJSON_DetachItemFromArray. */
    method DetachItemFromArray(which: int) returns (detached: Item?)
      requires Chained()
      modifies this`child, this`kids, kids`next, kids`prev
      ensures Chained()
      ensures 0 <= which < |old(kids)| ==>
                && detached == old(kids)[which] && detached.Loose()
                && kids == old(kids)[..which] + old(kids)[which + 1..]
      ensures !(0 <= which < |old(kids)|) ==> detached == null && kids == old(kids)
    {
      if which < 0 {
        return null;
      }
      var item := GetArrayItem(which);
      detached := DetachItemViaPointer(item, which);
    }

    /** cJSON_ReplaceItemViaPointer; the replaced item is left loose (and then deleted). */
    method ReplaceItemViaPointer(item: Item?, replacement: Item?, ghost at: nat) returns (ok: bool)
      requires Chained()
      requires item != null ==> at < |kids| && kids[at] == item
      requires replacement != null && replacement != item ==>
          replacement.Loose() && replacement !in kids && replacement != this
      modifies this`child, this`kids, kids`next, kids`prev, Opt(replacement)`next, Opt(replacement)`prev
      ensures ok <==> item != null && replacement != null
      ensures Chained() && kids == if ok then old(kids)[at := replacement] else old(kids)
      ensures ok && item != replacement ==> item.Loose()
    {
      if replacement == null || item == null {
        return false;
      }
      if replacement == item {
        return true;
      }
      Splice(item, replacement, at);
      Replaced(kids, at, replacement);
      kids := kids[at := replacement];
      return true;
    }

    /** The pointer writes of the replacement. */
    method Splice(item: Item, replacement: Item, ghost at: nat)
      requires Chained() && at < |kids| && kids[at] == item
      requires replacement !in kids
      modifies this`child, kids`next, kids`prev, replacement`next, replacement`prev
      ensures child == if at == 0 then replacement else kids[0]
      ensures item.Loose() && replacement.next == Nth(kids, at + 1) && replacement.prev == Nth(kids, at - 1)
      ensures forall i {:trigger kids[i].next} :: 0 <= i < |kids| && i != at ==>
          kids[i].next == if i + 1 == at then replacement else Nth(kids, i + 1)
      ensures forall i {:trigger kids[i].prev} :: 0 <= i < |kids| && i != at ==>
          kids[i].prev == if i - 1 == at then replacement else Nth(kids, i - 1)
    {
      replacement.next := item.next;
      replacement.prev := item.prev;
      if replacement.next != null {
        replacement.next.prev := replacement;
      }
      if replacement.prev != null {
        replacement.prev.next := replacement;
      }
      if child == item {
        child := replacement;
      }
      item.next := null;
      item.prev := null;
    }

    // ----- Trees -----

    /** A whole tree: every item's children are chained, and no item occurs twice. */
    ghost predicate Valid()
      reads `child, `kids, `below, below
      decreases below
    {
      Shape() && Chained() && (forall k :: k in kids ==> k.Valid())
    }

    /** The children and what is below them are apart from each other and from this item. */
    ghost predicate Shape()
      reads `kids, `below, below
    {
      && this !in below
      && (forall k :: k in kids ==> k in below && k.below < below && k !in k.below)
      && (forall i, j :: 0 <= i < j < |kids| ==> kids[i].Whole() !! kids[j].Whole())
    }

    lemma MakeValid()
      requires Shape() && Chained() && (forall k :: k in kids ==> k.Valid())
      ensures Valid()
    {
    }

    lemma OpenValid()
      requires Valid()
      ensures Shape() && Chained() && (forall k :: k in kids ==> k.Valid())
    {
    }

    ghost function Whole(): set<Item>
      reads `below
    {
      {this} + below
    }

    /** The tree as a value. */
    ghost function Value(): Json
      requires Valid()
      reads `child, `kids, `below, `kind, below
      decreases below, |kids| + 1
    {
      match kind
      case Scalar(v) => v
      case Array => Arr(KidValues(0))
      case Object => Obj(KidMembers(0))
    }

    ghost function KidValues(i: nat): seq<Json>
      requires Valid() && i <= |kids|
      reads `child, `kids, `below, below
      decreases below, |kids| - i
    {
      if i == |kids| then [] else [kids[i].Value()] + KidValues(i + 1)
    }

    ghost function KidMembers(i: nat): seq<Member>
      requires Valid() && i <= |kids|
      reads `child, `kids, `below, below
      decreases below, |kids| - i
    {
      if i == |kids| then [] else [Member(kids[i].name, kids[i].Value())] + KidMembers(i + 1)
    }

    /** The kids of two trees agree one by one. */
    ghost predicate KidsAgree(other: Item, n: nat)
      requires Valid() && other.Valid() && n <= |kids| && n <= |other.kids|
      reads `child, `kids, `below, below, other`child, other`kids, other`below, other.below
    {
      forall i :: 0 <= i < n ==> kids[i].name == other.kids[i].name && kids[i].Value() == other.kids[i].Value()
    }

    lemma {:induction false} AgreeingKids(other: Item, i: nat)
      requires Valid() && other.Valid() && |kids| == |other.kids| && i <= |kids|
      requires KidsAgree(other, |kids|)
      ensures KidValues(i) == other.KidValues(i) && KidMembers(i) == other.KidMembers(i)
      decreases |kids| - i
    {
      hide Value, Valid;
      if i < |kids| {
        AgreeingKids(other, i + 1);
      }
    }

    /** The pointer writes that put `newchild` behind `last`, the last child so far; no subtree notices them. */
    method Crosswire(last: Item?, newchild: Item)
      requires Valid() && Shape() && last == Nth(kids, |kids| - 1)
      requires newchild.Valid() && newchild.Loose() && newchild.Whole() !! Whole()
      modifies `child, Opt(last)`next, newchild`prev
      ensures newchild.Valid() && newchild.Value() == old(newchild.Value())
      ensures forall k :: k in kids ==> k.Valid() && k.Value() == old(k.Value())
      ensures if last == null then child == newchild && newchild.prev == null
              else child == old(child) && last.next == newchild && newchild.prev == last
    {
      hide Value;
      OpenValid();
      forall k | k in kids
        ensures last != null ==> last !in k.below
      {
        var j :| 0 <= j < |kids| && kids[j] == k;
        assert j < |kids| - 1 ==> kids[j].Whole() !! kids[|kids| - 1].Whole();
      }
      if last != null {
        last.next := newchild;
        newchild.prev := last;
      } else {
        child := newchild;
      }
    }

    /** The same with the ghost state brought up to date. */
    method Attach(last: Item?, newchild: Item)
      requires Valid() && last == Nth(kids, |kids| - 1)
      requires newchild.Valid() && newchild.Loose() && newchild.Whole() !! Whole()
      modifies `child, `kids, `below, Opt(last)`next, newchild`prev
      ensures Valid() && kids == old(kids) + [newchild] && below == old(below) + newchild.Whole()
      ensures newchild.Value() == old(newchild.Value())
      ensures forall k :: k in old(kids) ==> k.Valid() && k.Value() == old(k.Value())
    {
      hide Value, Valid;
      OpenValid();
      newchild.OpenValid();
      Crosswire(last, newchild);
      Extend(newchild);
    }

    /** The ghost half of Attach. */
    ghost method Extend(newchild: Item)
      requires Shape() && (forall k :: k in kids ==> k.Valid())
      requires newchild.Valid() && newchild !in newchild.below && newchild.Whole() !! Whole()
      requires child == Nth(kids + [newchild], 0) && Linked(kids + [newchild])
      modifies `kids, `below
      ensures Valid() && kids == old(kids) + [newchild] && below == old(below) + newchild.Whole()
    {
      hide Linked;
      ghost var was := kids;
      kids := was + [newchild];
      below := below + newchild.Whole();
      assert forall i :: 0 <= i < |was| ==> kids[i] == was[i] && kids[i].Whole() !! newchild.Whole();
      MakeValid();
    }

    /** One turn of the loop of cJSON_Duplicate: the child at `i` is copied and put behind the copies before it. */
    method CopyChild(copy: Item, last: Item?, original: Item, ghost i: nat) returns (newchild: Item)
      requires Valid() && i < |kids| && original == kids[i]
      requires copy.Valid() && copy.Whole() !! Whole()
      requires |copy.kids| == i && last == Nth(copy.kids, i - 1)
      requires KidsAgree(copy, i)
      modifies copy`child, copy`kids, copy`below, Opt(last)`next
      ensures Valid() && copy.Valid()
      ensures copy.kids == old(copy.kids) + [newchild] && copy.below == old(copy.below) + newchild.Whole()
      ensures fresh(newchild) && fresh(newchild.below)
      ensures KidsAgree(copy, i + 1)
      decreases below, 0
    {
      hide Value, Valid;
      OpenValid();
      copy.OpenValid();
      newchild := original.Duplicate(true);
      assert last != null ==> last in copy.kids;
      AttachAgreeing(copy, last, newchild, i);
    }

    method AttachAgreeing(copy: Item, last: Item?, newchild: Item, ghost i: nat)
      requires Valid() && i < |kids| && (forall k :: k in kids ==> k in below && k.below <= below && k.Valid())
      requires copy.Valid() && copy.Whole() !! Whole() && Opt(last) <= copy.below
      requires |copy.kids| == i && last == Nth(copy.kids, i - 1)
      requires KidsAgree(copy, i)
      requires newchild.Valid() && newchild.Loose() && newchild.Whole() !! copy.Whole() && newchild.Whole() !! Whole()
      requires newchild.name == kids[i].name && newchild.Value() == kids[i].Value()
      modifies copy`child, copy`kids, copy`below, Opt(last)`next, newchild`prev
      ensures Valid() && copy.Valid()
      ensures copy.kids == old(copy.kids) + [newchild] && copy.below == old(copy.below) + newchild.Whole()
      ensures KidsAgree(copy, i + 1)
    {
      hide Value, Valid, Shape, Linked;
      copy.Attach(last, newchild);
      assert Valid();
      OpenValid();
      assert forall k :: k in kids ==> k.Value() == old(k.Value());
    }

    /** cJSON_Duplicate: a fresh tree of the same value, or just the item without its children. */
    method Duplicate(recurse: bool) returns (copy: Item)
      requires Valid()
      ensures fresh(copy) && fresh(copy.below) && copy.Loose() && copy.Valid()
      ensures copy.kind == kind && copy.name == name
      ensures recurse ==> copy.Value() == Value()
      ensures recurse ==>
                forall caseSensitive: bool :: Compare.Compare(Value(), copy.Value(), caseSensitive) <==>
                  Compare.Consistent(Value(), caseSensitive)
      ensures !recurse ==> copy.kids == []
      decreases below, 2
    {
      copy := new Item(kind, name);
      copy.MakeValid();
      if recurse {
        CopyChildren(copy);
        AgreeingKids(copy, 0);
        Compare.CopyComparesEqual(Value(), true);
        Compare.CopyComparesEqual(Value(), false);
      }
    }

    /** The loop of cJSON_Duplicate. */
    method CopyChildren(copy: Item)
      requires Valid() && copy.Valid() && copy.kids == [] && copy.below == {} && copy !in Whole()
      modifies copy`child, copy`kids, copy`below
      ensures Valid() && copy.Valid() && fresh(copy.below)
      ensures |copy.kids| == |kids| && KidsAgree(copy, |kids|)
      decreases below, 1
    {
      hide Valid, Value;
      var original := child;
      var last: Item? := null;
      ghost var i := 0;
      OpenValid();
      while original != null
        invariant i <= |kids| && original == Nth(kids, i)
        invariant Valid() && copy.Valid() && Chained() && Shape() && fresh(copy.below)
        invariant |copy.kids| == i && last == Nth(copy.kids, i - 1)
        invariant KidsAgree(copy, i)
        decreases |kids| - i
      {
        copy.OpenValid();
        var newchild := CopyChild(copy, last, original, i);
        OpenValid();
        last := newchild;
        original := original.next;
        i := i + 1;
      }
    }
  }

  ghost predicate Linked(kids: seq<Item>)
    reads kids`next, kids`prev
  {
    && (forall i, j :: 0 <= i < j < |kids| ==> kids[i] != kids[j])
    && (forall i {:trigger kids[i].prev} :: 0 <= i < |kids| ==> kids[i].prev == Item.Nth(kids, i - 1))
    && (forall i {:trigger kids[i].next} :: 0 <= i < |kids| ==> kids[i].next == Item.Nth(kids, i + 1))
  }

  lemma Inserted(was: seq<Item>, at: nat, item: Item)
    requires at < |was| && item !in was && (forall i, j :: 0 <= i < j < |was| ==> was[i] != was[j])
    requires forall i {:trigger was[i].next} :: 0 <= i < |was| ==>
        was[i].next == if i + 1 == at then item else Item.Nth(was, i + 1)
    requires forall i {:trigger was[i].prev} :: 0 <= i < |was| ==>
        was[i].prev == if i == at then item else Item.Nth(was, i - 1)
    requires item.next == was[at] && item.prev == Item.Nth(was, at - 1)
    ensures Linked(was[..at] + [item] + was[at..])
  {
    var now := was[..at] + [item] + was[at..];
    assert forall i :: 0 <= i < at ==> now[i] == was[i];
    assert forall i :: at < i < |now| ==> now[i] == was[i - 1];
  }

  lemma Detached(was: seq<Item>, at: nat)
    requires at < |was| && (forall i, j :: 0 <= i < j < |was| ==> was[i] != was[j])
    requires forall i {:trigger was[i].next} :: 0 <= i < |was| && i != at ==>
        was[i].next == Item.Nth(was, if i + 1 == at then at + 1 else i + 1)
    requires forall i {:trigger was[i].prev} :: 0 <= i < |was| && i != at ==>
        was[i].prev == Item.Nth(was, if i - 1 == at then at - 1 else i - 1)
    ensures Linked(was[..at] + was[at + 1..])
  {
    var now := was[..at] + was[at + 1..];
    assert forall i :: 0 <= i < at ==> now[i] == was[i];
    assert forall i :: at <= i < |now| ==> now[i] == was[i + 1];
  }

  lemma Replaced(was: seq<Item>, at: nat, item: Item)
    requires at < |was| && item !in was && (forall i, j :: 0 <= i < j < |was| ==> was[i] != was[j])
    requires forall i {:trigger was[i].next} :: 0 <= i < |was| && i != at ==>
        was[i].next == if i + 1 == at then item else Item.Nth(was, i + 1)
    requires forall i {:trigger was[i].prev} :: 0 <= i < |was| && i != at ==>
        was[i].prev == if i - 1 == at then item else Item.Nth(was, i - 1)
    requires item.next == Item.Nth(was, at + 1) && item.prev == Item.Nth(was, at - 1)
    ensures Linked(was[at := item])
  {
    var now := was[at := item];
    assert forall i :: 0 <= i < |now| && i != at ==> now[i] == was[i];
  }
}
