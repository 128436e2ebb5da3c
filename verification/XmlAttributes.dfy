/**
 TiXmlAttributeSet: the attributes of an element in a circular list around a sentinel.
 */
module XmlAttributes {
  import opened Options
  import opened XmlTree

  // ---------------------------------------------------------------- what it implements

  /** The value of a name. */
  function Lookup(attrs: seq<Attr>, name: string): Option<string> {
    if attrs == [] then None
    else if attrs[0].name == name then Some(attrs[0].value)
    else Lookup(attrs[1..], name)
  }

  function Names(attrs: seq<Attr>): seq<string> {
    if attrs == [] then [] else [attrs[0].name] + Names(attrs[1..])
  }

  /** The names but this one, in order. */
  function Others(names: seq<string>, name: string): seq<string> {
    if names == [] then []
    else (if names[0] == name then [] else [names[0]]) + Others(names[1..], name)
  }

  lemma {:induction false} NoneDropped(attrs: seq<Attr>, name: string)
    requires Lookup(attrs, name).None?
    ensures Others(Names(attrs), name) == Names(attrs)
  {
    if attrs != [] {
      NoneDropped(attrs[1..], name);
      assert ([attrs[0].name] + Names(attrs[1..]))[1..] == Names(attrs[1..]);
    }
  }

  function RemoveAttr(attrs: seq<Attr>, name: string): seq<Attr> {
    if attrs == [] then []
    else if attrs[0].name == name then attrs[1..]
    else [attrs[0]] + RemoveAttr(attrs[1..], name)
  }

  /** Setting overwrites in place or appends; every other name keeps its value. */
  lemma {:induction false} SetRefinesMap(attrs: seq<Attr>, name: string, value: string, other: string)
    ensures Lookup(SetAttr(attrs, name, value), other) == if other == name then Some(value) else Lookup(attrs, other)
    ensures Names(SetAttr(attrs, name, value))
            == if Lookup(attrs, name).Some? then Names(attrs) else Names(attrs) + [name]
  {
    if attrs != [] && attrs[0].name != name {
      SetRefinesMap(attrs[1..], name, value, other);
      assert ([attrs[0]] + SetAttr(attrs[1..], name, value))[1..] == SetAttr(attrs[1..], name, value);
    } else if attrs != [] {
      assert ([Attr(name, value)] + attrs[1..])[1..] == attrs[1..];
    }
  }

  lemma {:induction false} LookupNone(attrs: seq<Attr>, name: string)
    ensures Lookup(attrs, name).None? <==> forall i :: 0 <= i < |attrs| ==> attrs[i].name != name
  {
    if attrs != [] {
      LookupNone(attrs[1..], name);
      assert forall i :: 1 <= i < |attrs| ==> attrs[i] == attrs[1..][i - 1];
      if forall i :: 0 <= i < |attrs[1..]| ==> attrs[1..][i].name != name {
        assert attrs[0].name != name ==> forall i :: 0 <= i < |attrs| ==> attrs[i].name != name;
      }
    }
  }

  /** Removing drops one name; every other name keeps its value and its place. */
  lemma {:induction false} RemoveRefinesMap(attrs: seq<Attr>, name: string, other: string)
    requires UniqueNames(attrs)
    ensures Lookup(RemoveAttr(attrs, name), other) == if other == name then None else Lookup(attrs, other)
    ensures Names(RemoveAttr(attrs, name)) == Others(Names(attrs), name)
    ensures Lookup(attrs, name).None? ==> RemoveAttr(attrs, name) == attrs
  {
    if attrs != [] {
      LookupNone(attrs[1..], attrs[0].name);
      assert ([attrs[0].name] + Names(attrs[1..]))[1..] == Names(attrs[1..]);
      if attrs[0].name == name {
        NoneDropped(attrs[1..], name);
      } else {
        RemoveRefinesMap(attrs[1..], name, other);
        assert ([attrs[0]] + RemoveAttr(attrs[1..], name))[1..] == RemoveAttr(attrs[1..], name);
        assert attrs == [attrs[0]] + attrs[1..];
      }
    }
  }

  lemma {:induction false} RemoveAt(attrs: seq<Attr>, i: nat)
    requires UniqueNames(attrs) && i < |attrs|
    ensures RemoveAttr(attrs, attrs[i].name) == attrs[..i] + attrs[i + 1..]
  {
    if i > 0 {
      RemoveAt(attrs[1..], i - 1);
      assert attrs[..i] == [attrs[0]] + attrs[1..][..i - 1];
    }
  }

  lemma {:induction false} SetAt(attrs: seq<Attr>, i: nat, value: string)
    requires UniqueNames(attrs) && i < |attrs|
    ensures SetAttr(attrs, attrs[i].name, value) == attrs[i := Attr(attrs[i].name, value)]
  {
    if i > 0 {
      SetAt(attrs[1..], i - 1, value);
      assert attrs == [attrs[0]] + attrs[1..];
    }
  }

  /** Iteration with First and Next visits every attribute exactly when none after the first has
      both an empty name and an empty value; non-empty names are enough. */
  lemma VisitsAll(attrs: seq<Attr>)
    ensures Visible(attrs) == attrs <==> forall i :: 1 <= i < |attrs| ==> !BlankAttr(attrs[i])
    ensures (forall i :: 0 <= i < |attrs| ==> attrs[i].name != "") ==> Visible(attrs) == attrs
  {
    if attrs != [] {
      var k := FirstBlank(attrs, 1);
      assert |attrs[..k]| == k;
      assert attrs[..|attrs|] == attrs;
    }
  }

  // ---------------------------------------------------------------- the circular list

  /** TiXmlAttribute, as far as the set is concerned. */
  class Attribute {
    var name: string
    var value: string
    var prev: Attribute?
    var next: Attribute?

    constructor (name: string, value: string)
      ensures this.name == name && this.value == value && prev == null && next == null
    {
      this.name, this.value, prev, next := name, value, null, null;
    }
  }

  class AttributeSet {
    const sentinel: Attribute
    ghost var items: seq<Attribute>

    /** The ring: the sentinel, the attributes in order, the sentinel again. */
    ghost function Ring(i: nat): Attribute
      requires i <= |items| + 1
      reads this
    {
      if 0 < i <= |items| then items[i - 1] else sentinel
    }

    ghost predicate Joined(i: nat)
      requires i <= |items|
      reads this, sentinel, items
    {
      Ring(i).next == Ring(i + 1) && Ring(i + 1).prev == Ring(i)
    }

    ghost predicate Valid()
      reads this, sentinel, items
    {
      && sentinel !in items && sentinel.name == "" && sentinel.value == ""
      && (forall i, j :: 0 <= i < j < |items| ==> items[i] != items[j])
      && (forall i :: 0 <= i <= |items| ==> Joined(i))
      && UniqueNames(Contents())
    }

    ghost function Contents(): (r: seq<Attr>)
      reads this, items
      ensures |r| == |items|
    {
      seq(|items|, i requires 0 <= i < |items| reads this, items => Attr(items[i].name, items[i].value))
    }

    constructor ()
      ensures Valid() && Contents() == [] && fresh(sentinel)
    {
      sentinel := new Attribute("", "");
      items := [];
      new;
      sentinel.next := sentinel;
      sentinel.prev := sentinel;
      assert Joined(0);
    }

    method First() returns (r: Attribute?)
      requires Valid()
      ensures r == if items == [] then null else items[0]
    {
      assert Joined(0);
      r := if sentinel.next == sentinel then null else sentinel.next;
    }

    method Last() returns (r: Attribute?)
      requires Valid()
      ensures r == if items == [] then null else items[|items| - 1]
    {
      assert Joined(|items|);
      r := if sentinel.prev == sentinel then null else sentinel.prev;
    }

    /** TiXmlAttribute::Next, which recognises the sentinel by its empty name and value. */
    method Next(node: Attribute, ghost i: nat) returns (r: Attribute?)
      requires Valid() && i < |items| && items[i] == node
      ensures r == if i + 1 == |items| || BlankAttr(Contents()[i + 1]) then null else items[i + 1]
    {
      assert Joined(i + 1);
      var next := node.next;
      r := if next.value == "" && next.name == "" then null else next;
    }

    method Find(name: string) returns (r: Attribute?, ghost i: nat)
      requires Valid()
      ensures r == null <==> Lookup(Contents(), name).None?
      ensures r != null ==> i < |items| && items[i] == r && r.name == name
      ensures r != null ==> Lookup(Contents(), name) == Some(r.value)
    {
      LookupNone(Contents(), name);
      i := 0;
      assert Joined(0);
      var node := sentinel.next;
      while node != sentinel
        invariant i <= |items| && node == Ring(i + 1)
        invariant forall j :: 0 <= j < i ==> items[j].name != name
        decreases |items| - i
      {
        if node.name == name {
          LookupAt(Contents(), i);
          return node, i;
        }
        assert Joined(i + 1);
        node := node.next;
        i := i + 1;
      }
      assert i == |items|;
      return null, i;
    }

    /** The new attribute goes before the sentinel, that is, to the end. */
    method Add(addMe: Attribute)
      requires Valid() && addMe !in items && addMe != sentinel
      requires Lookup(Contents(), addMe.name).None?
      modifies this`items, addMe`prev, addMe`next, sentinel`prev, sentinel`next, items`next
      ensures Valid() && items == old(items) + [addMe]
      ensures Contents() == old(Contents()) + [Attr(addMe.name, addMe.value)]
    {
      LookupNone(Contents(), addMe.name);
      ghost var n := |items|;
      assert Joined(n);
      addMe.next := sentinel;
      addMe.prev := sentinel.prev;
      sentinel.prev.next := addMe;
      sentinel.prev := addMe;
      items := items + [addMe];
      forall i | 0 <= i <= n + 1 ensures Joined(i) {
        if i < n { assert old(Joined(i)); }
      }
      UniqueAdd(old(Contents()), Attr(addMe.name, addMe.value));
      assert Contents() == old(Contents()) + [Attr(addMe.name, addMe.value)];
    }

    /** Remove walks the ring to the attribute and takes it out. */
    method Remove(removeMe: Attribute)
      requires Valid() && removeMe in items
      modifies this`items, sentinel`prev, sentinel`next, items`prev, items`next
      ensures Valid() && removeMe.prev == null && removeMe.next == null
      ensures Contents() == RemoveAttr(old(Contents()), removeMe.name)
      ensures removeMe !in items && forall a <- items :: a in old(items)
    {
      ghost var i := 0;
      assert Joined(0);
      var node := sentinel.next;
      while node != sentinel && node != removeMe
        invariant i <= |items| && node == Ring(i + 1)
        invariant forall j :: 0 <= j < i ==> items[j] != removeMe
        decreases |items| - i
      {
        assert Joined(i + 1);
        node := node.next;
        i := i + 1;
      }
      RemoveAt(Contents(), i);
      TakeOut(node, i);
      assert forall a <- items :: a in old(items);
    }

    /** The pointer assignments of Remove. */
    method TakeOut(node: Attribute, ghost i: nat)
      requires Valid() && i < |items| && items[i] == node
      modifies this`items, sentinel`prev, sentinel`next, items`prev, items`next
      ensures Valid() && node.prev == null && node.next == null
      ensures items == old(items)[..i] + old(items)[i + 1..]
      ensures Contents() == old(Contents())[..i] + old(Contents())[i + 1..]
    {
      assert Joined(i) && Joined(i + 1);
      assert node.prev == Ring(i) && node.next == Ring(i + 2) && node == Ring(i + 1);
      node.prev.next := node.next;
      node.next.prev := node.prev;
      node.next := null;
      node.prev := null;
      items := items[..i] + items[i + 1..];
      OneLess(i);
      StillDistinct(i);
      LessContents(i);
    }

    twostate lemma StillDistinct(new i: nat)
      requires old(Valid()) && i < |old(items)| && items == old(items)[..i] + old(items)[i + 1..]
      ensures old(items)[i] !in items && forall x <- items :: x in old(items)
      ensures sentinel !in items && forall i, j :: 0 <= i < j < |items| ==> items[i] != items[j]
    {
    }

    twostate lemma LessContents(new i: nat)
      requires old(Valid()) && i < |old(items)| && items == old(items)[..i] + old(items)[i + 1..]
      requires forall x <- old(items) :: x.name == old(x.name) && x.value == old(x.value)
      ensures Contents() == old(Contents())[..i] + old(Contents())[i + 1..]
    {
    }

    /** The ring without entry `i`. */
    twostate lemma OneLess(i: nat)
      requires old(Valid()) && i < |old(items)| && items == old(items)[..i] + old(items)[i + 1..]
      requires forall x <- [sentinel] + old(items) :: x != old(items)[i] ==>
                 (x != old(Ring(i)) ==> x.next == old(x.next)) && (x != old(Ring(i + 2)) ==> x.prev == old(x.prev))
      requires old(Ring(i)).next == old(Ring(i + 2)) && old(Ring(i + 2)).prev == old(Ring(i))
      ensures forall j: nat :: j <= |items| ==> Joined(j)
    {
      assert forall k: nat :: k <= |old(items)| + 1 ==> old(Ring(k)) in [sentinel] + old(items);
      forall j: nat | j <= |items|
        ensures Joined(j)
      {
        if j < i {
          assert old(Joined(j)) && Ring(j) == old(Ring(j)) && Ring(j + 1) == old(Ring(j + 1));
        } else if j > i {
          assert old(Joined(j + 1)) && Ring(j) == old(Ring(j + 1)) && Ring(j + 1) == old(Ring(j + 2));
        } else {
          assert Ring(j) == old(Ring(j)) && Ring(j + 1) == old(Ring(j + 2));
        }
      }
    }

    /** TiXmlElement::SetAttribute. */
    method SetAttribute(name: string, value: string)
      requires Valid()
      modifies this`items, sentinel`prev, sentinel`next, items`next, items`value
      ensures Valid() && Contents() == SetAttr(old(Contents()), name, value)
      ensures forall a <- items :: a in old(items) || fresh(a)
    {
      var node, i := Find(name);
      if node != null {
        SetAt(Contents(), i, value);
        node.value := value;
        assert Contents() == old(Contents())[i := Attr(name, value)];
        forall j | 0 <= j <= |items| ensures Joined(j) { assert old(Joined(j)); }
        return;
      }
      LookupNone(Contents(), name);
      SetNew(Contents(), name, value);
      var attrib := new Attribute(name, value);
      Add(attrib);
    }

    /** TiXmlElement::RemoveAttribute. */
    method RemoveAttribute(name: string)
      requires Valid()
      modifies this`items, sentinel`prev, sentinel`next, items`prev, items`next
      ensures Valid() && Contents() == RemoveAttr(old(Contents()), name)
      ensures forall a <- items :: a in old(items)
    {
      RemoveRefinesMap(Contents(), name, name);
      var node, i := Find(name);
      if node != null {
        Remove(node);
      }
    }

    /** The loop `for (a = set.First(); a; a = a->Next())`. */
    method Visit() returns (seen: seq<Attr>)
      requires Valid()
      ensures seen == Visible(Contents())
    {
      seen := [];
      var a := First();
      ghost var all := Contents();
      while a != null
        invariant |seen| <= |all| && seen == all[..|seen|]
        invariant 0 < |seen| ==> FirstBlank(all, 1) == FirstBlank(all, |seen|)
        invariant a == null ==> seen == Visible(all)
        invariant a != null ==> |seen| < |items| && a == items[|seen|] && (0 < |seen| ==> !BlankAttr(all[|seen|]))
        decreases |all| - |seen|
      {
        ghost var i := |seen|;
        seen := seen + [Attr(a.name, a.value)];
        a := Next(a, i);
      }
    }
  }

  lemma UniqueAdd(attrs: seq<Attr>, a: Attr)
    requires UniqueNames(attrs) && forall i :: 0 <= i < |attrs| ==> attrs[i].name != a.name
    ensures UniqueNames(attrs + [a])
  {
  }

  lemma {:induction false} LookupAt(attrs: seq<Attr>, i: nat)
    requires UniqueNames(attrs) && i < |attrs|
    ensures Lookup(attrs, attrs[i].name) == Some(attrs[i].value)
  {
    if i > 0 { LookupAt(attrs[1..], i - 1); }
  }
}
