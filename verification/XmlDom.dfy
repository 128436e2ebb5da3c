/**
 The document object model: nodes on the heap, joined to their siblings, their parent and their
 first and last child by pointers.
 */
module XmlDom {
  import opened XmlTree

  /** TiXmlNode and the fields its subclasses add. `kids` is what the pointers mean. */
  class Node {
    const kind: Kind
    var value: string
    var cdata: bool
    var attributes: seq<Attr>
    var parent: Node?
    var prev: Node?
    var next: Node?
    var firstChild: Node?
    var lastChild: Node?
    ghost var kids: seq<Node>

    constructor (kind: Kind, value: string)
      ensures this.kind == kind && this.value == value && !cdata && attributes == []
      ensures parent == null && prev == null && next == null && firstChild == null && lastChild == null
      ensures kids == []
    {
      this.kind, this.value, cdata, attributes := kind, value, false, [];
      parent, prev, next, firstChild, lastChild := null, null, null, null, null;
      kids := [];
    }

    /** The forward walk from firstChild is `kids`, the backward walk from lastChild is `kids`
        reversed, and every child's parent is this node. */
    ghost predicate Linked()
      reads this, kids
    {
      && firstChild == Ahead(0)
      && lastChild == Behind(|kids|)
      && (forall i :: 0 <= i < |kids| ==> Placed(i))
      && this !in kids
      && (forall i, j :: 0 <= i < j < |kids| ==> kids[i] != kids[j])
    }

    ghost predicate Placed(i: nat)
      requires i < |kids|
      reads this, kids
    {
      kids[i].parent == this && kids[i].prev == Behind(i) && kids[i].next == Ahead(i + 1)
    }

    ghost function Ahead(i: nat): Node?
      reads this
    {
      if i < |kids| then kids[i] else null
    }

    ghost function Behind(i: nat): Node?
      reads this
    {
      if 0 < i <= |kids| then kids[i - 1] else null
    }

    static ghost function Some(a: Node?): set<Node> { if a == null then {} else {a} }

    /** A node whose children kept their links is still well linked. */
    twostate lemma StaysLinked()
      requires old(Linked()) && kids == old(kids) && firstChild == old(firstChild) && lastChild == old(lastChild)
      requires forall k <- kids :: k.parent == old(k.parent) && k.prev == old(k.prev) && k.next == old(k.next)
      ensures Linked()
    {
      forall i | 0 <= i < |kids| ensures Placed(i) {
        assert old(Placed(i)) && kids[i] in kids;
      }
    }

    /** Children `i` up to `j` gave way to `mid`, which is one new child or none, and the links of
        the neighbours, this node's ends and the new child were set to match. */
    twostate predicate Spliced(mid: seq<Node>, i: nat, j: nat)
      reads this, kids
    {
      && old(Linked()) && i <= j <= |old(kids)| && |mid| <= 1 && this !in mid
      && kids == old(kids)[..i] + mid + old(kids)[j..]
      && (var left, right := old(Behind(i)), old(Ahead(j));
          var first, last := if mid == [] then right else mid[0], if mid == [] then left else mid[0];
          && firstChild == (if i == 0 then first else old(firstChild))
          && lastChild == (if j == |old(kids)| then last else old(lastChild))
          && (forall k <- kids ::
                if k in mid then old(k.parent) == null && k.parent == this && k.prev == left && k.next == right
                else k.parent == this && k.prev == (if k == right then last else old(k.prev))
                                      && k.next == (if k == left then first else old(k.next))))
    }

    twostate lemma SplicePlaced(mid: seq<Node>, new i: nat, new j: nat, new m: nat)
      requires Spliced(mid, i, j) && m < |kids|
      ensures Placed(m)
    {
      var was, d := old(kids), j - i - |mid|;
      if m < i {
        assert kids[m] == was[m] && old(Placed(m));
        assert m > 0 ==> kids[m - 1] == was[m - 1];
        assert m + 1 < i ==> kids[m + 1] == was[m + 1];
        assert kids[m] !in mid by { KidOf(this, was[m]); }
      } else if m >= i + |mid| {
        assert kids[m] == was[m + d] && old(Placed(m + d));
        assert m > i + |mid| ==> kids[m - 1] == was[m + d - 1];
        assert m + 1 < |kids| ==> kids[m + 1] == was[m + d + 1];
        assert kids[m] !in mid by { KidOf(this, was[m + d]); }
      } else {
        assert kids[m] == mid[0];
      }
      assert i > 0 ==> kids[i - 1] == was[i - 1];
      assert j < |was| ==> kids[i + |mid|] == was[j];
    }

    twostate lemma SpliceLinked(mid: seq<Node>, new i: nat, new j: nat)
      requires Spliced(mid, i, j)
      ensures Linked()
    {
      forall m | 0 <= m < |kids| ensures Placed(m) {
        SplicePlaced(mid, i, j, m);
      }
      forall k <- mid ensures k !in old(kids) {
        assert k in kids;
        if k in old(kids) { KidOf(this, k); }
      }
      SpliceDistinct(old(kids), mid, i, j);
      SpliceIn(old(kids), mid, i, j);
    }

    method LinkEndChild(node: Node, ghost S: set<Node>) returns (r: Node?)
      requires WellLinked(S) && this in S && node in S && node != this && node.parent == null
      modifies this`firstChild, this`lastChild, this`kids, node`parent, node`prev, node`next, Some(lastChild)`next
      ensures WellLinked(S)
      ensures node.kind == DocumentKind ==> r == null && kids == old(kids) && node.parent == null
      ensures node.kind != DocumentKind ==> r == node && kids == old(kids) + [node] && node.parent == this
    {
      if node.kind == DocumentKind { return null; }
      assert NodeOk(this, S);
      ChildrenAreMine();
      node.parent := this;
      node.prev := lastChild;
      node.next := null;
      if lastChild != null {
        lastChild.next := node;
      } else {
        firstChild := node;
      }
      lastChild := node;
      kids := kids + [node];
      r := node;
      SpliceLinked([node], |old(kids)|, |old(kids)|);
      EditKeepsOthers(this, S, S, {node} + Some(old(lastChild)));
    }

    /** TiXmlElement::SetAttribute. */
    method SetAttribute(name: string, v: string)
      modifies this`attributes
      ensures attributes == SetAttr(old(attributes), name, v)
    {
      var i := 0;
      while i < |attributes| && attributes[i].name != name
        invariant i <= |attributes|
        invariant SetAttr(attributes, name, v) == attributes[..i] + SetAttr(attributes[i..], name, v)
      {
        assert attributes[i..][1..] == attributes[i + 1..];
        i := i + 1;
      }
      if i < |attributes| {
        assert attributes[i..][1..] == attributes[i + 1..];
        attributes := attributes[i := Attr(name, v)];
      } else {
        attributes := attributes + [Attr(name, v)];
      }
    }

    /** The attribute loop of TiXmlElement::CopyTo. */
    method CopyAttributes(target: Node)
      requires target != this && UniqueNames(attributes) && target.attributes == []
      modifies target`attributes
      ensures target.attributes == Visible(attributes)
    {
      var i := 0;
      while i < |attributes| && (i == 0 || !BlankAttr(attributes[i]))
        invariant i <= |attributes| && target.attributes == attributes[..i]
        invariant 0 < i ==> FirstBlank(attributes, 1) == FirstBlank(attributes, i)
      {
        SetNew(attributes[..i], attributes[i].name, attributes[i].value);
        target.SetAttribute(attributes[i].name, attributes[i].value);
        i := i + 1;
      }
    }

    /** Clone and CopyTo: everything new, nothing old touched. `N` is the set of new nodes. */
    method Clone(ghost t: Tree, ghost S: set<Node>) returns (clone: Node, ghost N: set<Node>)
      requires WellLinked(S) && Shows(this, t, S)
      ensures fresh(N) && clone in N && WellLinked(N) && clone.parent == null && clone.kind == kind
      ensures Shows(clone, CloneOf(t), N)
      decreases t, 0
    {
      assert NodeOk(this, S);
      clone := new Node(kind, value);
      N := {clone};
      clone.cdata := cdata;
      CopyAttributes(clone);
      assert NodeOk(clone, N);
      if kind == ElementKind || kind == DocumentKind {
        N := CopyChildren(clone, t.kids, S);
      }
    }

    /** One turn of the child loop of CopyTo: `LinkEndChild(node->Clone())`. */
    method LinkClone(node: Node, ghost t: Tree, ghost S: set<Node>, ghost done: seq<Tree>, ghost D: set<Node>)
      returns (ghost M: set<Node>)
      requires WellLinked(S) && Shows(node, t, S) && !t.Document?
      requires this !in S && this !in D && S !! D && WellLinked(D + {this}) && parent == null
      requires ShowsAll(kids, done, D)
      modifies this`firstChild, this`lastChild, this`kids, D`next
      ensures fresh(M) && this !in M && WellLinked(D + M + {this}) && WellLinked(S) && parent == null
      ensures ShowsAll(kids, done + [CloneOf(t)], D + M)
      decreases t, 1
    {
      var k;
      k, M := node.Clone(t, S);
      Together(D + {this}, M);
      assert D + {this} + M == D + M + {this};
      ShowsAppended(kids, done, D, k, CloneOf(t), M);
      assert NodeOk(this, D + {this});
      ChildrenAreMine();
      var r := LinkEndChild(k, D + M + {this});
    }

    /** The child loop of CopyTo. */
    method CopyChildren(target: Node, ghost ts: seq<Tree>, ghost S: set<Node>) returns (ghost N: set<Node>)
      requires WellLinked(S) && this in S && ShowsAll(kids, ts, S) && kind != TextKind
      requires target !in S && WellLinked({target}) && target.parent == null && target.kids == []
      modifies target`firstChild, target`lastChild, target`kids
      ensures target in N && fresh(N - {target}) && WellLinked(N) && target.parent == null
      ensures ShowsAll(target.kids, CloneAll(ts), N)
      decreases ts
    {
      assert NodeOk(this, S);
      ghost var D: set<Node> := {};
      ghost var i := 0;
      assert {} + {target} == {target};
      var node := firstChild;
      while node != null
        invariant i <= |ts| && node == Ahead(i)
        invariant WellLinked(S) && ShowsAll(kids, ts, S) && S !! D
        invariant target !in D && fresh(D) && WellLinked(D + {target}) && target.parent == null
        invariant ShowsAll(target.kids, CloneAll(ts)[..i], D)
        decreases |ts| - i
      {
        assert NodeOk(this, S) && Placed(i);
        ghost var M := target.LinkClone(node, ts[i], S, CloneAll(ts)[..i], D);
        D := D + M;
        NextClone(ts, i);
        node := node.next;
        i := i + 1;
      }
      N := D + {target};
      ShowsAllMore(target.kids, CloneAll(ts), D, N);
    }

    /** The place of a child among its siblings. */
    ghost function PlaceOf(k: Node): (i: nat)
      requires k in kids
      reads this
      ensures i < |kids| && kids[i] == k
    {
      var i :| 0 <= i < |kids| && kids[i] == k; i
    }

    /** InsertEndChild: a copy goes to the end; a document cannot be a child. Every finite tree
        stays one, even when `addThis` is this node or contains it. */
    method InsertEndChild(addThis: Node, ghost t: Tree, ghost S: set<Node>) returns (node: Node?, ghost N: set<Node>)
      requires WellLinked(S) && this in S && Shows(addThis, t, S)
      modifies this`firstChild, this`lastChild, this`kids, kids`next
      ensures fresh(N) && WellLinked(S + N)
      ensures t.Document? ==> node == null && kids == old(kids)
      ensures !t.Document? ==>
                node != null && node in N && Shows(node, CloneOf(t), N) && kids == old(kids) + [node]
      ensures kind == ElementKind || kind == DocumentKind ==>
                forall m <- S :: old(IsTree(m, S)) ==> IsTree(m, S + N)
    {
      if addThis.kind == DocumentKind {
        N := {};
        assert S + N == S;
        return null, N;
      }
      node, N := addThis.Clone(t, S);
      Together(S, N);
      assert NodeOk(this, S);
      ChildrenAreMine();
      node := LinkEndChild(node, S + N);
      if kind == ElementKind || kind == DocumentKind {
        TreesAfterInsert(this, node, t, |old(kids)|, S, N);
      }
    }

    /** The pointer assignments of InsertBeforeChild. */
    method LinkBefore(node: Node, beforeThis: Node)
      requires Linked() && node != this && node.parent == null && beforeThis in kids
      modifies this`firstChild, this`kids, node`parent, node`prev, node`next, kids`prev, kids`next
      ensures Linked()
      ensures var i := old(PlaceOf(beforeThis)); kids == old(kids)[..i] + [node] + old(kids)[i..]
    {
      ghost var i := PlaceOf(beforeThis);
      assert Placed(i);
      ChildrenAreMine();
      node.parent := this;
      node.next := beforeThis;
      node.prev := beforeThis.prev;
      if beforeThis.prev != null {
        beforeThis.prev.next := node;
      } else {
        firstChild := node;
      }
      beforeThis.prev := node;
      kids := kids[..i] + [node] + kids[i..];
      SpliceLinked([node], i, i);
    }

    /** The pointer assignments of InsertAfterChild. */
    method LinkAfter(node: Node, afterThis: Node)
      requires Linked() && node != this && node.parent == null && afterThis in kids
      modifies this`lastChild, this`kids, node`parent, node`prev, node`next, kids`prev, kids`next
      ensures Linked()
      ensures var i := old(PlaceOf(afterThis)) + 1; kids == old(kids)[..i] + [node] + old(kids)[i..]
    {
      ghost var i := PlaceOf(afterThis) + 1;
      assert Placed(i - 1);
      ChildrenAreMine();
      node.parent := this;
      node.prev := afterThis;
      node.next := afterThis.next;
      if afterThis.next != null {
        afterThis.next.prev := node;
      } else {
        lastChild := node;
      }
      afterThis.next := node;
      kids := kids[..i] + [node] + kids[i..];
      SpliceLinked([node], i, i);
    }

    /** InsertBeforeChild: a copy goes before `beforeThis`, if that is a child of this node. */
    method InsertBeforeChild(beforeThis: Node?, addThis: Node, ghost t: Tree, ghost S: set<Node>)
      returns (node: Node?, ghost N: set<Node>)
      requires WellLinked(S) && this in S && Shows(addThis, t, S) && (beforeThis != null ==> beforeThis in S)
      modifies this`firstChild, this`kids, kids`prev, kids`next
      ensures fresh(N) && WellLinked(S + N)
      ensures node == null <==> beforeThis == null || beforeThis !in old(kids) || addThis.kind == DocumentKind
      ensures node == null ==> kids == old(kids)
      ensures node != null ==>
                && node in N && Shows(node, CloneOf(t), N)
                && var i := old(PlaceOf(beforeThis)); kids == old(kids)[..i] + [node] + old(kids)[i..]
      ensures forall m <- S :: old(IsTree(m, S)) ==> IsTree(m, S + N)
    {
      assert NodeOk(this, S) && (beforeThis != null ==> NodeOk(beforeThis, S));
      ChildrenAreMine();
      N := {};
      assert S + N == S;
      if beforeThis == null || beforeThis.parent != this { return null, N; }
      if addThis.kind == DocumentKind { return null, N; }
      node, N := addThis.Clone(t, S);
      Together(S, N);
      ghost var i := PlaceOf(beforeThis);
      label Cloned:
      LinkBefore(node, beforeThis);
      SpliceKeepsOthers@Cloned(this, S + N, S + N, [node], i, i);
      TreesAfterInsert(this, node, t, i, S, N);
    }

    /** InsertAfterChild: a copy goes after `afterThis`, if that is a child of this node. */
    method InsertAfterChild(afterThis: Node?, addThis: Node, ghost t: Tree, ghost S: set<Node>)
      returns (node: Node?, ghost N: set<Node>)
      requires WellLinked(S) && this in S && Shows(addThis, t, S) && (afterThis != null ==> afterThis in S)
      modifies this`lastChild, this`kids, kids`prev, kids`next
      ensures fresh(N) && WellLinked(S + N)
      ensures node == null <==> afterThis == null || afterThis !in old(kids) || addThis.kind == DocumentKind
      ensures node == null ==> kids == old(kids)
      ensures node != null ==>
                && node in N && Shows(node, CloneOf(t), N)
                && var i := old(PlaceOf(afterThis)) + 1; kids == old(kids)[..i] + [node] + old(kids)[i..]
      ensures forall m <- S :: old(IsTree(m, S)) ==> IsTree(m, S + N)
    {
      assert NodeOk(this, S) && (afterThis != null ==> NodeOk(afterThis, S));
      ChildrenAreMine();
      N := {};
      assert S + N == S;
      if afterThis == null || afterThis.parent != this { return null, N; }
      if addThis.kind == DocumentKind { return null, N; }
      node, N := addThis.Clone(t, S);
      Together(S, N);
      ghost var i := PlaceOf(afterThis) + 1;
      label Cloned:
      LinkAfter(node, afterThis);
      SpliceKeepsOthers@Cloned(this, S + N, S + N, [node], i, i);
      TreesAfterInsert(this, node, t, i, S, N);
    }

    /** The pointers on the right of a changed place now lead back to `last`. */
    method MendRight(right: Node?, last: Node?)
      requires right != this
      modifies this`lastChild, Some(right)`prev
      ensures right != null ==> right.prev == last && lastChild == old(lastChild)
      ensures right == null ==> lastChild == last
    {
      if right != null {
        right.prev := last;
      } else {
        lastChild := last;
      }
    }

    /** The pointers on the left of a changed place now lead on to `first`. */
    method MendLeft(left: Node?, first: Node?)
      requires left != this
      modifies this`firstChild, Some(left)`next
      ensures left != null ==> left.next == first && firstChild == old(firstChild)
      ensures left == null ==> firstChild == first
    {
      if left != null {
        left.next := first;
      } else {
        firstChild := first;
      }
    }

    /** The pointer assignments of ReplaceChild. */
    method LinkInstead(node: Node, replaceThis: Node)
      requires Linked() && node != this && node.parent == null && replaceThis in kids
      modifies this`firstChild, this`lastChild, this`kids, node`parent, node`prev, node`next, kids`prev, kids`next
      ensures Linked()
      ensures var i := old(PlaceOf(replaceThis)); kids == old(kids)[i := node]
    {
      ghost var i := PlaceOf(replaceThis);
      assert Placed(i);
      ChildrenAreMine();
      node.next := replaceThis.next;
      node.prev := replaceThis.prev;
      MendRight(replaceThis.next, node);
      MendLeft(replaceThis.prev, node);
      node.parent := this;
      kids := kids[..i] + [node] + kids[i + 1..];
      SpliceLinked([node], i, i + 1);
      OneReplaced(old(kids), i, node);
    }

    /** The pointer assignments of RemoveChild. */
    method Unlink(removeThis: Node)
      requires Linked() && removeThis in kids
      modifies this`firstChild, this`lastChild, this`kids, kids`prev, kids`next
      ensures Linked()
      ensures var i := old(PlaceOf(removeThis)); kids == old(kids)[..i] + old(kids)[i + 1..]
    {
      ghost var i := PlaceOf(removeThis);
      assert Placed(i);
      ChildrenAreMine();
      MendRight(removeThis.next, removeThis.prev);
      MendLeft(removeThis.prev, removeThis.next);
      kids := kids[..i] + [] + kids[i + 1..];
      SpliceLinked([], i, i + 1);
    }

    /** ReplaceChild: a copy takes the place of `replaceThis`, which is deleted with all below it.
        `T` is what remains. There is no check that keeps a document out. */
    method ReplaceChild(replaceThis: Node, withThis: Node, ghost t: Tree, ghost u: Tree, ghost S: set<Node>)
      returns (node: Node?, ghost N: set<Node>, ghost T: set<Node>)
      requires WellLinked(S) && this in S && Shows(withThis, t, S) && Shows(replaceThis, u, S)
      modifies this`firstChild, this`lastChild, this`kids, kids`prev, kids`next
      ensures node == null <==> replaceThis !in old(kids)
      ensures node == null ==> kids == old(kids) && T == S
      ensures fresh(N) && WellLinked(T)
      ensures node != null ==>
                && node in N && Shows(node, CloneOf(t), N)
                && T == S - old(Below(replaceThis, u, S)) + N
                && kids == old(kids)[old(PlaceOf(replaceThis)) := node]
      ensures node == null || !t.Document? ==> forall m <- S :: m in T && old(IsTree(m, S)) ==> IsTree(m, T)
      ensures node != null && old(IsTree(this, S)) ==> (IsTree(this, T) <==> !t.Document?)
    {
      assert NodeOk(this, S) && NodeOk(replaceThis, S);
      ChildrenAreMine();
      N, T := {}, S;
      if replaceThis.parent != this { return null, N, T; }
      SubtreeDetached(this, replaceThis, u, S);
      ghost var B, i := Below(replaceThis, u, S), PlaceOf(replaceThis);
      node, N := withThis.Clone(t, S);
      Together(S, N);
      T := S - B + N;
      AddDetached(S - B, N, this);
      PutInstead(node, replaceThis, S + N, T);
      TreesAfterReplace(this, node, t, i, S, S - B, N);
    }

    /** A detached node takes the place of a child, and `T` is what remains of `S`. */
    method PutInstead(node: Node, replaceThis: Node, ghost S: set<Node>, ghost T: set<Node>)
      requires WellLinked(S) && T <= S && this in T && Detached(T, this)
      requires node in T && node != this && node.parent == null
      requires replaceThis in kids && forall n <- kids :: n in T <==> n != replaceThis
      modifies this`firstChild, this`lastChild, this`kids, node`parent, node`prev, node`next, kids`prev, kids`next
      ensures WellLinked(T)
      ensures var i := old(PlaceOf(replaceThis)); kids == old(kids)[i := node]
    {
      assert NodeOk(this, S);
      ghost var i := PlaceOf(replaceThis);
      LinkInstead(node, replaceThis);
      SpliceKeepsOthers(this, S, T, [node], i, i + 1);
    }

    /** RemoveChild: the child is deleted with all below it. `T` is what remains. */
    method RemoveChild(removeThis: Node, ghost u: Tree, ghost S: set<Node>) returns (ok: bool, ghost T: set<Node>)
      requires WellLinked(S) && this in S && Shows(removeThis, u, S)
      modifies this`firstChild, this`lastChild, this`kids, kids`prev, kids`next
      ensures ok <==> removeThis in old(kids)
      ensures !ok ==> kids == old(kids) && T == S
      ensures WellLinked(T)
      ensures ok ==>
                && T == S - old(Below(removeThis, u, S))
                && var i := old(PlaceOf(removeThis)); kids == old(kids)[..i] + old(kids)[i + 1..]
      ensures forall m <- S :: m in T && old(IsTree(m, S)) ==> IsTree(m, T)
    {
      assert NodeOk(this, S) && NodeOk(removeThis, S);
      ChildrenAreMine();
      if removeThis.parent != this { return false, S; }
      SubtreeDetached(this, removeThis, u, S);
      T := S - Below(removeThis, u, S);
      ghost var i := PlaceOf(removeThis);
      TakeAway(removeThis, S, T);
      AllStillTrees(this, [], [], i, i + 1, S, T, {});
      assert T + {} == T;
      ok := true;
    }

    /** A child is taken out, and `T` is what remains of `S`. */
    method TakeAway(removeThis: Node, ghost S: set<Node>, ghost T: set<Node>)
      requires WellLinked(S) && T <= S && this in T && Detached(T, this)
      requires removeThis in kids && forall n <- kids :: n in T <==> n != removeThis
      modifies this`firstChild, this`lastChild, this`kids, kids`prev, kids`next
      ensures WellLinked(T)
      ensures var i := old(PlaceOf(removeThis)); kids == old(kids)[..i] + old(kids)[i + 1..]
    {
      assert NodeOk(this, S);
      ghost var i := PlaceOf(removeThis);
      Unlink(removeThis);
      SpliceKeepsOthers(this, S, T, [], i, i + 1);
    }

    /** FirstChild(value): the forward walk finds the first child with this value. */
    method FirstChild(v: string) returns (node: Node?)
      requires Linked()
      ensures node == null ==> forall k <- kids :: k.value != v
      ensures node != null ==> exists i :: 0 <= i < |kids| && kids[i] == node && node.value == v
                                           && forall j :: 0 <= j < i ==> kids[j].value != v
    {
      ghost var i := 0;
      node := firstChild;
      while node != null && node.value != v
        invariant i <= |kids| && node == Ahead(i) && forall j :: 0 <= j < i ==> kids[j].value != v
        decreases |kids| - i
      {
        assert Placed(i);
        node, i := node.next, i + 1;
      }
    }

    /** LastChild(value): the backward walk finds the last child with this value. */
    method LastChild(v: string) returns (node: Node?)
      requires Linked()
      ensures node == null ==> forall k <- kids :: k.value != v
      ensures node != null ==> exists i :: 0 <= i < |kids| && kids[i] == node && node.value == v
                                           && forall j :: i < j < |kids| ==> kids[j].value != v
    {
      ghost var i: nat := |kids|;
      node := lastChild;
      while node != null && node.value != v
        invariant i <= |kids| && node == Behind(i) && forall j :: i <= j < |kids| ==> kids[j].value != v
        decreases i
      {
        assert Placed(i - 1);
        node, i := node.prev, i - 1;
      }
    }

    lemma ChildrenAreMine()
      requires Linked()
      ensures forall k <- kids :: k.parent == this
      ensures lastChild != null ==> lastChild in kids
      ensures firstChild != null ==> firstChild in kids
    {
      forall k <- kids ensures k.parent == this {
        var i :| 0 <= i < |kids| && kids[i] == k;
        assert Placed(i);
      }
    }
  }

  /** A node whose own links changed because it was or became a child of `p`. */
  twostate predicate InEdit(n: Node, p: Node)
    reads n, p
  {
    && n.kids == old(n.kids) && n.firstChild == old(n.firstChild) && n.lastChild == old(n.lastChild)
    && n.attributes == old(n.attributes)
    && (old(n.parent) == null || old(n.parent) == p)
    && (n.parent == null || (n.parent == p && n in p.kids))
  }

  /** Editing the children of `p` touches the links of nodes that were its children or had no
      parent; the children of every other node stay well linked. `T` is what is left of `S`. */
  twostate lemma EditKeepsOthers(new p: Node, S: set<Node>, new T: set<Node>, new touched: set<Node>)
    requires old(WellLinked(S)) && T <= S && touched <= S && p in T && p !in touched && p.Linked()
    requires p.parent == old(p.parent) && p.attributes == old(p.attributes)
    requires p.prev == old(p.prev) && p.next == old(p.next)
    requires forall k <- p.kids :: k in T && (k in old(p.kids) || k in touched)
    requires forall k <- old(p.kids) :: k in p.kids || k !in T
    requires forall n <- T :: n == p || n in touched || unchanged(n)
    requires forall n <- touched :: InEdit(n, p)
    requires T == S || old(Detached(T, p))
    ensures WellLinked(T)
  {
    assert old(NodeOk(p, S));
    forall n <- T ensures NodeOk(n, T) {
      assert old(NodeOk(n, S));
      if n != p {
        forall k <- n.kids ensures k !in touched { KidOf(n, k); }
        n.StaysLinked();
      }
      if n.parent != null && n.parent != p { assert old(NodeOk(n.parent, S)); }
    }
  }

  /** The same for an edit that is known by its result: `mid` took the place of children `i` to
      `j`, and only the nodes involved were touched. */
  twostate lemma SpliceKeepsOthers(new p: Node, S: set<Node>, new T: set<Node>, new mid: seq<Node>,
                                   new i: nat, new j: nat)
    requires old(WellLinked(S)) && T <= S && p in T && p.Linked()
    requires i <= j <= |old(p.kids)| && p.kids == old(p.kids)[..i] + mid + old(p.kids)[j..]
    requires p.parent == old(p.parent) && p.attributes == old(p.attributes)
    requires p.prev == old(p.prev) && p.next == old(p.next)
    requires forall n <- mid :: n in T && old(n.parent) == null
    requires forall n <- old(p.kids) :: n in T <==> n !in old(p.kids)[i..j]
    requires forall n <- T :: n == p || n in old(p.kids) || n in mid || unchanged(n)
    requires forall n <- T :: n in old(p.kids) || n in mid ==>
               n.kids == old(n.kids) && n.firstChild == old(n.firstChild) && n.lastChild == old(n.lastChild)
               && n.attributes == old(n.attributes)
    requires T == S || old(Detached(T, p))
    ensures WellLinked(T)
  {
    assert old(NodeOk(p, S));
    SpliceIn(old(p.kids), mid, i, j);
    p.ChildrenAreMine();
    forall n <- old(p.kids) ensures old(n.parent) == p { KidOf(p, n); }
    EditKeepsOthers(p, S, T, set n <- old(p.kids) + mid | n in T);
  }

  /** No link leaves `T`, except those from `p` to its children. */
  ghost predicate Detached(T: set<Node>, p: Node)
    reads T
  {
    forall n <- T :: (n != p ==> forall k <- n.kids :: k in T) && (n.parent != null ==> n.parent in T)
  }

  lemma AddDetached(A: set<Node>, N: set<Node>, p: Node)
    requires Detached(A, p) && WellLinked(N)
    ensures Detached(A + N, p)
  {
    forall n <- A + N
      ensures (n != p ==> forall k <- n.kids :: k in A + N) && (n.parent != null ==> n.parent in A + N)
    {
      assert n in N ==> NodeOk(n, N);
    }
  }

  lemma Together(S: set<Node>, T: set<Node>)
    requires WellLinked(S) && WellLinked(T)
    ensures WellLinked(S + T)
  {
    forall n <- S + T ensures NodeOk(n, S + T) {
      assert n in S ==> NodeOk(n, S);
      assert n in T ==> NodeOk(n, T);
    }
  }

  lemma NextClone(ts: seq<Tree>, i: nat)
    requires i < |ts|
    ensures CloneAll(ts)[..i] + [CloneOf(ts[i])] == CloneAll(ts)[..i + 1]
  {
    CloneAt(ts, i);
    TakeOne(CloneAll(ts), i, CloneOf(ts[i]));
  }

  lemma TakeOne(s: seq<Tree>, i: nat, x: Tree)
    requires i < |s| && s[i] == x
    ensures s[..i] + [x] == s[..i + 1]
  {
  }

  /** Who is in the edited sequence. */
  lemma SpliceIn(s: seq<Node>, mid: seq<Node>, i: nat, j: nat)
    requires i <= j <= |s|
    ensures var t := s[..i] + mid + s[j..];
            && (forall k <- mid :: k in t)
            && (forall k <- s :: k in t || k in s[i..j])
            && (forall k <- t :: k in s || k in mid)
  {
    assert s == s[..i] + s[i..j] + s[j..];
  }

  lemma OneReplaced(s: seq<Node>, i: nat, x: Node)
    requires i < |s|
    ensures s[i := x] == s[..i] + [x] + s[i + 1..]
  {
  }

  lemma SpliceDistinct(s: seq<Node>, mid: seq<Node>, i: nat, j: nat)
    requires i <= j <= |s| && |mid| <= 1 && (forall k <- mid :: k !in s)
    requires forall a, b :: 0 <= a < b < |s| ==> s[a] != s[b]
    ensures var t := s[..i] + mid + s[j..]; forall a, b :: 0 <= a < b < |t| ==> t[a] != t[b]
  {
    var t := s[..i] + mid + s[j..];
    forall a, b | 0 <= a < b < |t| ensures t[a] != t[b] {
      var d := j - i - |mid|;
      assert a < i ==> t[a] == s[a];
      assert i <= a < i + |mid| ==> t[a] == mid[a - i] && t[a] in mid;
      assert i + |mid| <= a ==> t[a] == s[a + d];
      assert b < i ==> t[b] == s[b];
      assert i <= b < i + |mid| ==> t[b] == mid[b - i] && t[b] in mid;
      assert i + |mid| <= b ==> t[b] == s[b + d];
    }
  }

  twostate lemma KidOf(n: Node, new k: Node)
    requires old(n.Linked()) && k in old(n.kids)
    ensures old(k.parent) == n
  {
    var i :| 0 <= i < |old(n.kids)| && old(n.kids)[i] == k;
    assert old(n.Placed(i));
  }

  /** Every node of `S` has well-formed links, and none of them leave `S`. */
  ghost predicate WellLinked(S: set<Node>)
    reads S
  {
    forall n {:trigger NodeOk(n, S)} :: n in S ==> NodeOk(n, S)
  }

  ghost predicate NodeOk(n: Node, S: set<Node>)
    reads S
  {
    && n in S
    && (forall k <- n.kids :: k in S)
    && n.Linked()
    && UniqueNames(n.attributes)
    && (n.parent != null ==> n.parent in S && n in n.parent.kids)
  }

  /** The node and all below it have the shape and the contents of the tree. */
  ghost predicate Shows(n: Node, t: Tree, S: set<Node>)
    reads S`value, S`cdata, S`attributes, S`kids
    decreases t
  {
    && n in S
    && match t
       case Element(name, attrs, kids) =>
         n.kind == ElementKind && n.value == name && n.attributes == attrs && ShowsAll(n.kids, kids, S)
       case Text(v, c) => n.kind == TextKind && n.value == v && n.cdata == c && n.kids == []
       case Comment(v) => n.kind == CommentKind && n.value == v && n.kids == []
       case Unknown(v) => n.kind == UnknownKind && n.value == v && n.kids == []
       case Document(kids) => n.kind == DocumentKind && ShowsAll(n.kids, kids, S)
  }

  ghost predicate ShowsAll(ns: seq<Node>, ts: seq<Tree>, S: set<Node>)
    reads S`value, S`cdata, S`attributes, S`kids
    decreases ts
  {
    |ns| == |ts| && forall i :: 0 <= i < |ns| ==> !ts[i].Document? && Shows(ns[i], ts[i], S)
  }

  lemma ShowsAllMore(ns: seq<Node>, ts: seq<Tree>, S: set<Node>, T: set<Node>)
    requires ShowsAll(ns, ts, S) && S <= T
    ensures ShowsAll(ns, ts, T)
  {
    forall i | 0 <= i < |ns| ensures Shows(ns[i], ts[i], T) {
      ShowsMore(ns[i], ts[i], S, T);
    }
  }

  lemma ShowsAppended(ns: seq<Node>, ts: seq<Tree>, S: set<Node>, n: Node, t: Tree, T: set<Node>)
    requires ShowsAll(ns, ts, S) && Shows(n, t, T) && !t.Document?
    ensures ShowsAll(ns + [n], ts + [t], S + T)
  {
    ShowsAllMore(ns, ts, S, S + T);
    ShowsMore(n, t, T, S + T);
  }

  lemma {:induction false} ShowsMore(n: Node, t: Tree, S: set<Node>, T: set<Node>)
    requires Shows(n, t, S) && S <= T
    ensures Shows(n, t, T)
    decreases t
  {
    if t.Element? || t.Document? {
      forall i | 0 <= i < |n.kids| ensures Shows(n.kids[i], t.kids[i], T) {
        ShowsMore(n.kids[i], t.kids[i], S, T);
      }
    }
  }

  // ---------------------------------------------------------------- subtrees

  /** A node shows one tree at most. */
  lemma {:induction false} ShowsOne(n: Node, t: Tree, u: Tree, S: set<Node>)
    requires Shows(n, t, S) && Shows(n, u, S)
    ensures t == u
    decreases t
  {
    if t.Element? || t.Document? {
      forall i | 0 <= i < |n.kids| ensures t.kids[i] == u.kids[i] {
        ShowsOne(n.kids[i], t.kids[i], u.kids[i], S);
      }
    }
  }

  /** The node and all its descendants: what its destructor deletes. */
  ghost function Below(n: Node, t: Tree, S: set<Node>): (B: set<Node>)
    requires Shows(n, t, S)
    reads S`value, S`cdata, S`attributes, S`kids
    ensures n in B
    decreases t
  {
    {n} + if t.Element? || t.Document?
          then
            assert ShowsAll(n.kids, t.kids, S);
            set i: nat, m | i < |n.kids| && m in Below(n.kids[i], t.kids[i], S) :: m
          else {}
  }

  /** Everything below a node shows a tree of its own, smaller unless it is that node. */
  lemma {:induction false} BelowShows(n: Node, t: Tree, S: set<Node>, m: Node) returns (u: Tree)
    requires Shows(n, t, S) && m in Below(n, t, S)
    ensures Shows(m, u, S) && Size(u) <= Size(t) && Below(m, u, S) <= Below(n, t, S)
    decreases t
  {
    if m == n {
      u := t;
    } else {
      var i: nat :| i < |n.kids| && m in Below(n.kids[i], t.kids[i], S);
      u := BelowShows(n.kids[i], t.kids[i], S, m);
      SizeOfKid(t.kids, i);
    }
  }

  lemma KidBelow(n: Node, t: Tree, S: set<Node>, k: Node) returns (u: Tree)
    requires Shows(n, t, S) && k in n.kids
    ensures Shows(k, u, S) && Size(u) < Size(t) && k in Below(n, t, S)
  {
    var i: nat :| i < |n.kids| && n.kids[i] == k;
    u := t.kids[i];
    SizeOfKid(t.kids, i);
    assert k in Below(k, u, S);
  }

  /** A node is not below its own child, so deleting the child leaves it alone. */
  lemma ParentNotBelow(p: Node, k: Node, u: Tree, S: set<Node>)
    requires k in p.kids && Shows(k, u, S)
    ensures p !in Below(k, u, S)
  {
    if p in Below(k, u, S) {
      var v := BelowShows(k, u, S, p);
      var w := KidBelow(p, v, S, k);
      ShowsOne(k, u, w, S);
    }
  }

  /** The parent of a descendant is a descendant, or the node itself. */
  lemma {:induction false} ParentBelow(n: Node, t: Tree, S: set<Node>, m: Node)
    requires WellLinked(S) && Shows(n, t, S) && m in Below(n, t, S) && m != n
    ensures m.parent != null && m.parent in Below(n, t, S)
    decreases t
  {
    var i: nat :| i < |n.kids| && m in Below(n.kids[i], t.kids[i], S);
    if m == n.kids[i] {
      assert NodeOk(n, S) && n.Placed(i);
    } else {
      ParentBelow(n.kids[i], t.kids[i], S, m);
    }
  }

  /** Taking a child and all below it out of the set leaves no link to them but the parent's. */
  lemma SubtreeDetached(p: Node, k: Node, u: Tree, S: set<Node>)
    requires WellLinked(S) && p in S && k in p.kids && Shows(k, u, S)
    ensures p in S - Below(k, u, S) && Detached(S - Below(k, u, S), p)
    ensures forall n <- p.kids :: n in S - Below(k, u, S) <==> n != k
  {
    var B := Below(k, u, S);
    ParentNotBelow(p, k, u, S);
    assert NodeOk(p, S);
    p.ChildrenAreMine();
    forall n <- S - B
      ensures (n != p ==> forall m <- n.kids :: m in S - B) && (n.parent != null ==> n.parent in S - B)
    {
      assert NodeOk(n, S);
      n.ChildrenAreMine();
      forall m <- n.kids ensures m in B ==> m == k {
        if m in B && m != k { ParentBelow(k, u, S, m); }
      }
      if n.parent != null && n.parent in B {
        var v := BelowShows(k, u, S, n.parent);
        var w := KidBelow(n.parent, v, S, n);
      }
    }
    forall n <- p.kids ensures n in S - B <==> n != k {
      if n in B && n != k { ParentBelow(k, u, S, n); }
    }
  }

  // ---------------------------------------------------------------- still a tree

  /** Of `S` the nodes in `A` remain, with their contents. Only the children of `p` may have changed,
      and no other link leads out of `A`. */
  twostate predicate Kept(new p: Node, S: set<Node>, new A: set<Node>)
    reads S
  {
    && p in A && A <= S
    && (forall n <- S :: n in A ==>
          n.value == old(n.value) && n.cdata == old(n.cdata) && n.attributes == old(n.attributes))
    && (forall n <- S :: n in A && n != p ==> n.kids == old(n.kids))
    && (forall n <- S :: n in A && n != p ==> forall k <- old(n.kids) :: k in A)
  }

  /** Children `i` to `j` of `p` gave way to `mid`, which shows `us` in `N`. */
  twostate predicate Respliced(new p: Node, new mid: seq<Node>, new us: seq<Tree>, new i: nat, new j: nat,
                               S: set<Node>, new A: set<Node>, new N: set<Node>)
    reads S, N
  {
    && Kept(p, S, A) && (p.kind == ElementKind || p.kind == DocumentKind || old(p.kids) != [])
    && ShowsAll(mid, us, N)
    && i <= j <= |old(p.kids)| && p.kids == old(p.kids)[..i] + mid + old(p.kids)[j..]
    && (forall k <- old(p.kids)[..i] + old(p.kids)[j..] :: k in A)
  }

  /** Whatever showed a finite tree and remains still does, even if the new subtree is a copy of one
      that contains `p`. */
  twostate lemma {:induction false} StillATree(new m: Node, new t: Tree, new p: Node,
                                               new mid: seq<Node>, new us: seq<Tree>,
                                               new i: nat, new j: nat, S: set<Node>, new A: set<Node>, new N: set<Node>)
    returns (v: Tree)
    requires Respliced(p, mid, us, i, j, S, A, N) && m in A
    requires old(allocated(m)) && old(allocated(t)) && old(Shows(m, t, S))
    ensures Shows(m, v, A + N) && (v.Document? <==> t.Document?)
    decreases t, 0
  {
    v := t;
    if t.Element? || t.Document? {
      var vs;
      if m == p {
        assert t.kids[..|t.kids|] == t.kids;
        var left := StillTrees(old(m.kids)[..i], t.kids[..i], p, mid, us, i, j, S, A, N);
        var right := StillTrees(old(m.kids)[j..], t.kids[j..], p, mid, us, i, j, S, A, N);
        ShowsAllMore(mid, us, N, A + N);
        vs := left + us + right;
      } else {
        vs := StillTrees(old(m.kids), t.kids, p, mid, us, i, j, S, A, N);
      }
      v := if t.Element? then Element(t.name, t.attrs, vs) else Document(vs);
    }
  }

  twostate lemma {:induction false} StillTrees(new ms: seq<Node>, new ts: seq<Tree>, new p: Node, new mid: seq<Node>,
                                               new us: seq<Tree>, new i: nat, new j: nat,
                                               S: set<Node>, new A: set<Node>, new N: set<Node>)
    returns (vs: seq<Tree>)
    requires Respliced(p, mid, us, i, j, S, A, N) && forall m <- ms :: m in A
    requires old(allocated(ms)) && old(allocated(ts)) && old(ShowsAll(ms, ts, S))
    ensures ShowsAll(ms, vs, A + N)
    decreases ts
  {
    vs := [];
    if ms != [] {
      var v := StillATree(ms[0], ts[0], p, mid, us, i, j, S, A, N);
      vs := StillTrees(ms[1..], ts[1..], p, mid, us, i, j, S, A, N);
      vs := [v] + vs;
    }
  }

  /** Nothing with a document among its children is a tree. */
  lemma DocumentInside(p: Node, i: nat, S: set<Node>)
    requires i < |p.kids| && p.kids[i].kind == DocumentKind
    ensures !IsTree(p, S)
  {
    if t :| Shows(p, t, S) {
      assert t.Element? || t.Document?;
      assert ShowsAll(p.kids, t.kids, S);
    }
  }

  twostate lemma TreesAfterInsert(new p: Node, new k: Node, new t: Tree, new i: nat, S: set<Node>, new N: set<Node>)
    requires old(WellLinked(S)) && p in S && (p.kind == ElementKind || p.kind == DocumentKind || old(p.kids) != [])
    requires i <= |old(p.kids)| && p.kids == old(p.kids)[..i] + [k] + old(p.kids)[i..]
    requires Shows(k, CloneOf(t), N) && !t.Document?
    requires forall n <- S :: n.value == old(n.value) && n.cdata == old(n.cdata) && n.attributes == old(n.attributes)
    requires forall n <- S :: n != p ==> n.kids == old(n.kids)
    ensures forall m <- S :: old(IsTree(m, S)) ==> IsTree(m, S + N)
  {
    assert forall n <- S :: old(NodeOk(n, S));
    AllStillTrees(p, [k], [CloneOf(t)], i, i, S, S, N);
  }

  /** After a replacement every tree that remains is one, unless a document was put in: then the
      parent is none. */
  twostate lemma TreesAfterReplace(new p: Node, new k: Node, new t: Tree, new i: nat,
                                   S: set<Node>, new A: set<Node>, new N: set<Node>)
    requires p in A && A <= S && i < |old(p.kids)| && p.kids == old(p.kids)[i := k] && Shows(k, CloneOf(t), N)
    requires old(Detached(A, p)) && forall x <- old(p.kids) :: x in A <==> x != old(p.kids)[i]
    requires old(p.Linked())
    requires forall n <- S :: n in A ==>
               n.value == old(n.value) && n.cdata == old(n.cdata) && n.attributes == old(n.attributes)
    requires forall n <- S :: n in A && n != p ==> n.kids == old(n.kids)
    ensures !t.Document? ==> forall m <- S :: m in A && old(IsTree(m, S)) ==> IsTree(m, A + N)
    ensures old(IsTree(p, S)) ==> (IsTree(p, A + N) <==> !t.Document?)
  {
    if t.Document? {
      DocumentInside(p, i, A + N);
    } else {
      assert p.kids == old(p.kids)[..i] + [k] + old(p.kids)[i + 1..];
      AllStillTrees(p, [k], [CloneOf(t)], i, i + 1, S, A, N);
    }
  }

  ghost predicate IsTree(m: Node, S: set<Node>)
    reads S`value, S`cdata, S`attributes, S`kids
  {
    exists t :: Shows(m, t, S)
  }

  twostate lemma AllStillTrees(new p: Node, new mid: seq<Node>, new us: seq<Tree>, new i: nat, new j: nat,
                               S: set<Node>, new A: set<Node>, new N: set<Node>)
    requires Respliced(p, mid, us, i, j, S, A, N)
    ensures forall m <- S :: m in A && old(IsTree(m, S)) ==> IsTree(m, A + N)
  {
    forall m <- S | m in A && old(IsTree(m, S)) ensures IsTree(m, A + N) {
      var t :| old(Shows(m, t, S));
      var v := StillATree(m, t, p, mid, us, i, j, S, A, N);
    }
  }
}
