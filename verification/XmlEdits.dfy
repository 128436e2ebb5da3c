/**
 Runs of edits: whatever a client links, inserts, replaces and removes, in whatever order, the nodes
 show the trees that the same edits make of the trees before.
 */
module XmlEdits {
  import opened XmlTree
  import opened XmlDom

  // ---------------------------------------------------------------- edits on trees

  /** Where a node is: which root to start from, and the number of the child at each step. */
  datatype Place = Place(root: nat, path: seq<nat>)

  predicate Branch(t: Tree) { t.Element? || t.Document? }

  predicate Has(t: Tree, path: seq<nat>) {
    path != [] ==> Branch(t) && path[0] < |t.kids| && Has(t.kids[path[0]], path[1..])
  }

  function Get(t: Tree, path: seq<nat>): Tree
    requires Has(t, path)
  {
    if path == [] then t else Get(t.kids[path[0]], path[1..])
  }

  function WithKids(t: Tree, kids: seq<Tree>): Tree {
    match t
    case Element(name, attrs, _) => Element(name, attrs, kids)
    case Document(_) => Document(kids)
    case _ => t
  }

  /** The tree in which the node at the end of the path has other children. */
  function Put(t: Tree, path: seq<nat>, kids: seq<Tree>): Tree
    requires Has(t, path)
  {
    if path == [] then WithKids(t, kids)
    else WithKids(t, t.kids[path[0] := Put(t.kids[path[0]], path[1..], kids)])
  }

  predicate HasPlace(ts: seq<Tree>, at: Place) {
    at.root < |ts| && Has(ts[at.root], at.path)
  }

  function TreeAt(ts: seq<Tree>, at: Place): Tree
    requires HasPlace(ts, at)
  {
    Get(ts[at.root], at.path)
  }

  function PutAt(ts: seq<Tree>, at: Place, kids: seq<Tree>): seq<Tree>
    requires HasPlace(ts, at)
  {
    ts[at.root := Put(ts[at.root], at.path, kids)]
  }

  predicate IsChild(at: Place, child: Place) {
    && child.root == at.root && |child.path| == |at.path| + 1 && child.path[..|at.path|] == at.path
  }

  /** What a client can do with nodes. `Make` constructs one; the others call the method of the node
      at `at`. */
  datatype Edit =
    | Make(kind: Kind, value: string)
    | LinkEnd(at: Place, root: nat)
    | InsertEnd(at: Place, add: Place)
    | InsertBefore(at: Place, child: Place, add: Place)
    | InsertAfter(at: Place, child: Place, add: Place)
    | Replace(at: Place, child: Place, add: Place)
    | Remove(at: Place, child: Place)

  function Single(kind: Kind, value: string): Tree {
    match kind
    case ElementKind => Element(value, [], [])
    case CommentKind => Comment(value)
    case UnknownKind => Tree.Unknown(value)
    case DocumentKind => Document([])
    case _ => Text(value, false)
  }

  /** The nodes are there; only elements and documents are given a first child; a root is not linked
      below itself; and no document is put in the place of a child. */
  predicate Legal(ts: seq<Tree>, e: Edit) {
    match e
    case Make(kind, value) => kind != CDataKind && kind != DeclarationKind && (kind == DocumentKind ==> value == "")
    case LinkEnd(at, root) => HasPlace(ts, at) && Branch(TreeAt(ts, at)) && root < |ts| && root != at.root
    case InsertEnd(at, add) => HasPlace(ts, at) && HasPlace(ts, add) && Branch(TreeAt(ts, at))
    case InsertBefore(at, child, add) => HasPlace(ts, at) && HasPlace(ts, child) && HasPlace(ts, add)
    case InsertAfter(at, child, add) => HasPlace(ts, at) && HasPlace(ts, child) && HasPlace(ts, add)
    case Replace(at, child, add) =>
      && HasPlace(ts, at) && HasPlace(ts, child) && HasPlace(ts, add)
      && (IsChild(at, child) ==> !TreeAt(ts, add).Document?)
    case Remove(at, child) => HasPlace(ts, at) && HasPlace(ts, child)
  }

  /** Children `i` to `j` give way to `mid`. */
  function Splice(kids: seq<Tree>, i: nat, j: nat, mid: seq<Tree>): seq<Tree>
    requires i <= j <= |kids|
  {
    kids[..i] + mid + kids[j..]
  }

  function Number(child: Place): nat
    requires child.path != []
  {
    child.path[|child.path| - 1]
  }

  function SpliceAt(ts: seq<Tree>, at: Place, i: nat, j: nat, mid: seq<Tree>): seq<Tree>
    requires HasPlace(ts, at) && Branch(TreeAt(ts, at)) && i <= j <= |TreeAt(ts, at).kids|
  {
    PutAt(ts, at, Splice(TreeAt(ts, at).kids, i, j, mid))
  }

  function Without(ts: seq<Tree>, root: nat): seq<Tree>
    requires root < |ts|
  {
    ts[..root] + ts[root + 1..]
  }

  lemma {:induction false} GetLast(t: Tree, path: seq<nat>)
    requires Has(t, path) && path != []
    ensures var up, k := path[..|path| - 1], path[|path| - 1];
      Has(t, up) && Branch(Get(t, up)) && k < |Get(t, up).kids| && Get(t, path) == Get(t, up).kids[k]
  {
    var up := path[..|path| - 1];
    if |path| > 1 {
      GetLast(t.kids[path[0]], path[1..]);
      assert up[1..] == path[1..][..|path[1..]| - 1];
    }
  }

  lemma ChildHere(ts: seq<Tree>, at: Place, child: Place)
    requires HasPlace(ts, at) && HasPlace(ts, child) && IsChild(at, child)
    ensures Branch(TreeAt(ts, at)) && Number(child) < |TreeAt(ts, at).kids|
    ensures TreeAt(ts, child) == TreeAt(ts, at).kids[Number(child)]
  {
    GetLast(ts[child.root], child.path);
  }

  /** `step` is 0 before the child and 1 after it. */
  function Inserting(ts: seq<Tree>, at: Place, child: Place, t: Tree, step: nat): seq<Tree>
    requires HasPlace(ts, at) && HasPlace(ts, child) && step <= 1
  {
    if !IsChild(at, child) || t.Document? then ts
    else
      ChildHere(ts, at, child);
      SpliceAt(ts, at, Number(child) + step, Number(child) + step, [CloneOf(t)])
  }

  function Ending(ts: seq<Tree>, at: Place, t: Tree): seq<Tree>
    requires HasPlace(ts, at) && Branch(TreeAt(ts, at))
  {
    var n := |TreeAt(ts, at).kids|;
    if t.Document? then ts else SpliceAt(ts, at, n, n, [CloneOf(t)])
  }

  function Replacing(ts: seq<Tree>, at: Place, child: Place, mid: seq<Tree>): seq<Tree>
    requires HasPlace(ts, at) && HasPlace(ts, child)
  {
    if !IsChild(at, child) then ts
    else
      ChildHere(ts, at, child);
      SpliceAt(ts, at, Number(child), Number(child) + 1, mid)
  }

  /** The edit as TinyXML answers it: a document is never linked or inserted, and what is not a child
      of the node is left alone. */
  function Apply(ts: seq<Tree>, e: Edit): seq<Tree>
    requires Legal(ts, e)
  {
    match e
    case Make(kind, value) => ts + [Single(kind, value)]
    case LinkEnd(at, root) =>
      var n := |TreeAt(ts, at).kids|;
      if ts[root].Document? then Without(ts, root) else Without(SpliceAt(ts, at, n, n, [ts[root]]), root)
    case InsertEnd(at, add) => Ending(ts, at, TreeAt(ts, add))
    case InsertBefore(at, child, add) => Inserting(ts, at, child, TreeAt(ts, add), 0)
    case InsertAfter(at, child, add) => Inserting(ts, at, child, TreeAt(ts, add), 1)
    case Replace(at, child, add) => Replacing(ts, at, child, [CloneOf(TreeAt(ts, add))])
    case Remove(at, child) => Replacing(ts, at, child, [])
  }

  predicate AllLegal(ts: seq<Tree>, es: seq<Edit>)
    decreases |es|
  {
    es != [] ==> Legal(ts, es[0]) && AllLegal(Apply(ts, es[0]), es[1..])
  }

  function ApplyAll(ts: seq<Tree>, es: seq<Edit>): seq<Tree>
    requires AllLegal(ts, es)
    decreases |es|
  {
    if es == [] then ts else ApplyAll(Apply(ts, es[0]), es[1..])
  }

  // ---------------------------------------------------------------- what the edits amount to

  lemma {:induction false} GetPut(t: Tree, path: seq<nat>, kids: seq<Tree>)
    requires Has(t, path)
    ensures Has(Put(t, path, kids), path) && Get(Put(t, path, kids), path) == WithKids(Get(t, path), kids)
  {
    if path != [] { GetPut(t.kids[path[0]], path[1..], kids); }
  }

  /** A second change of the same children undoes the first. */
  lemma {:induction false} PutPut(t: Tree, path: seq<nat>, a: seq<Tree>, b: seq<Tree>)
    requires Has(t, path)
    ensures Has(Put(t, path, a), path) && Put(Put(t, path, a), path, b) == Put(t, path, b)
    ensures Branch(Get(t, path)) && b == Get(t, path).kids ==> Put(t, path, b) == t
  {
    if path != [] {
      var k := path[0];
      PutPut(t.kids[k], path[1..], a, b);
      var once := t.kids[k := Put(t.kids[k], path[1..], a)];
      assert once[k := Put(once[k], path[1..], b)] == t.kids[k := Put(t.kids[k], path[1..], b)];
      assert t.kids[k := t.kids[k]] == t.kids;
    }
  }

  /** An edit at one place leaves alone whatever is neither on the way to it nor below it. */
  lemma {:induction false} GetElsewhere(t: Tree, path: seq<nat>, kids: seq<Tree>, other: seq<nat>)
    requires Has(t, path) && Has(t, other) && !(path <= other) && !(other <= path)
    ensures Has(Put(t, path, kids), other) && Get(Put(t, path, kids), other) == Get(t, other)
  {
    if path[0] == other[0] {
      assert path == [path[0]] + path[1..] && other == [other[0]] + other[1..];
      GetElsewhere(t.kids[path[0]], path[1..], kids, other[1..]);
    }
  }

  /** The children of the node are spliced, and splicing back restores all trees. */
  lemma SpliceBack(ts: seq<Tree>, at: Place, i: nat, j: nat, mid: seq<Tree>, back: seq<Tree>)
    requires HasPlace(ts, at) && Branch(TreeAt(ts, at)) && i <= j <= |TreeAt(ts, at).kids|
    ensures var us := SpliceAt(ts, at, i, j, mid);
      && HasPlace(us, at) && Branch(TreeAt(us, at)) && TreeAt(us, at).kids == Splice(TreeAt(ts, at).kids, i, j, mid)
      && SpliceAt(us, at, i, i + |mid|, back) == SpliceAt(ts, at, i, j, back)
      && (back == TreeAt(ts, at).kids[i..j] ==> SpliceAt(us, at, i, i + |mid|, back) == ts)
  {
    var kids := TreeAt(ts, at).kids;
    var once := Splice(kids, i, j, mid);
    GetPut(ts[at.root], at.path, once);
    assert once[..i] == kids[..i] && once[i + |mid|..] == kids[j..];
    PutPut(ts[at.root], at.path, once, Splice(kids, i, j, back));
    if back == kids[i..j] {
      assert Splice(kids, i, j, back) == kids;
    }
  }

  /** Linking a root takes it from the client, whether it becomes a child or is a document and refused;
      as a child it is the last one, and the other children are as before. */
  lemma RootTaken(ts: seq<Tree>, at: Place, root: nat)
    requires Legal(ts, LinkEnd(at, root))
    ensures var us := Apply(ts, LinkEnd(at, root));
      var parent := Place(if root < at.root then at.root - 1 else at.root, at.path);
      && |us| == |ts| - 1 && HasPlace(us, parent) && Branch(TreeAt(us, parent))
      && TreeAt(us, parent).kids == TreeAt(ts, at).kids + if ts[root].Document? then [] else [ts[root]]
  {
    var kids := TreeAt(ts, at).kids;
    var n := |kids|;
    assert kids[..n] == kids && kids[n..] == [];
    if ts[root].Document? {
      assert kids + [] == kids;
    } else {
      GetPut(ts[at.root], at.path, Splice(kids, n, n, [ts[root]]));
    }
  }

  lemma NumberedPlace(ts: seq<Tree>, at: Place, k: nat)
    requires HasPlace(ts, at) && Branch(TreeAt(ts, at)) && k < |TreeAt(ts, at).kids|
    ensures var child := Place(at.root, at.path + [k]); HasPlace(ts, child) && IsChild(at, child) && Number(child) == k
  {
    HasMore(ts[at.root], at.path, k);
  }

  lemma {:induction false} HasMore(t: Tree, path: seq<nat>, k: nat)
    requires Has(t, path) && Branch(Get(t, path)) && k < |Get(t, path).kids|
    ensures Has(t, path + [k])
  {
    if path != [] {
      HasMore(t.kids[path[0]], path[1..], k);
      assert (path + [k])[1..] == path[1..] + [k];
    }
  }

  /** Inserting a node and removing it again leaves everything as it was. */
  lemma RemoveUndoesInsert(ts: seq<Tree>, at: Place, child: Place, t: Tree, step: nat)
    requires HasPlace(ts, at) && HasPlace(ts, child) && IsChild(at, child) && !t.Document? && step <= 1
    ensures var us, put := Inserting(ts, at, child, t, step), Place(at.root, at.path + [Number(child) + step]);
      HasPlace(us, at) && HasPlace(us, put) && Replacing(us, at, put, []) == ts
  {
    ChildHere(ts, at, child);
    var i := Number(child) + step;
    SpliceBack(ts, at, i, i, [CloneOf(t)], []);
    NumberedPlace(Inserting(ts, at, child, t, step), at, i);
  }

  /** Replacing a child is inserting the copy behind it and removing the child. */
  lemma ReplaceIsInsertAndRemove(ts: seq<Tree>, at: Place, child: Place, t: Tree)
    requires HasPlace(ts, at) && HasPlace(ts, child) && IsChild(at, child) && !t.Document?
    ensures var us := Inserting(ts, at, child, t, 1);
      HasPlace(us, at) && HasPlace(us, child) && Replacing(us, at, child, []) == Replacing(ts, at, child, [CloneOf(t)])
  {
    ChildHere(ts, at, child);
    var i, kids := Number(child), TreeAt(ts, at).kids;
    var us := Inserting(ts, at, child, t, 1);
    SpliceBack(ts, at, i + 1, i + 1, [CloneOf(t)], []);
    NumberedPlace(us, at, i);
    assert child.path == at.path + [i];
    InsertThenRemove(kids, i, CloneOf(t));
    PutPut(ts[at.root], at.path, TreeAt(us, at).kids, Splice(kids, i, i + 1, [CloneOf(t)]));
  }

  lemma InsertThenRemove(kids: seq<Tree>, i: nat, t: Tree)
    requires i < |kids|
    ensures Splice(Splice(kids, i + 1, i + 1, [t]), i, i + 1, []) == Splice(kids, i, i + 1, [t])
  {
  }

  // ---------------------------------------------------------------- nodes and their places

  /** The roots are distinct and without a parent, and show the trees. */
  ghost predicate Shown(roots: seq<Node>, ts: seq<Tree>, S: set<Node>)
    reads S
  {
    && WellLinked(S) && |roots| == |ts|
    && (forall i :: 0 <= i < |roots| ==> Shows(roots[i], ts[i], S) && roots[i].parent == null)
    && (forall i, j :: 0 <= i < j < |roots| ==> roots[i] != roots[j])
  }

  ghost function NodeAt(n: Node, t: Tree, path: seq<nat>, S: set<Node>): (m: Node)
    requires Shows(n, t, S) && Has(t, path)
    reads S`value, S`cdata, S`attributes, S`kids
    ensures Shows(m, Get(t, path), S)
    decreases path
  {
    if path == [] then n
    else
      assert ShowsAll(n.kids, t.kids, S);
      NodeAt(n.kids[path[0]], t.kids[path[0]], path[1..], S)
  }

  lemma {:induction false} NodeAtLast(n: Node, t: Tree, path: seq<nat>, S: set<Node>)
    requires Shows(n, t, S) && Has(t, path) && path != []
    ensures var up, k := path[..|path| - 1], path[|path| - 1];
      && Has(t, up) && k < |NodeAt(n, t, up, S).kids|
      && NodeAt(n, t, path, S) == NodeAt(n, t, up, S).kids[k]
    decreases path
  {
    GetLast(t, path);
    var up := path[..|path| - 1];
    if |path| > 1 {
      NodeAtLast(n.kids[path[0]], t.kids[path[0]], path[1..], S);
      assert up[1..] == path[1..][..|path[1..]| - 1];
    }
  }

  /** No node has two places. */
  lemma {:induction false} OnePlace(roots: seq<Node>, ts: seq<Tree>, S: set<Node>, a: Place, b: Place)
    requires Shown(roots, ts, S) && HasPlace(ts, a) && HasPlace(ts, b)
    requires NodeAt(roots[a.root], ts[a.root], a.path, S) == NodeAt(roots[b.root], ts[b.root], b.path, S)
    ensures a == b
    decreases |a.path|
  {
    if a.path != [] { ParentAt(roots, ts, S, a); }
    if b.path != [] { ParentAt(roots, ts, S, b); }
    if a.path != [] && b.path != [] {
      OnePlace(roots, ts, S, Up(a), Up(b));
      var q := NodeAt(roots[a.root], ts[a.root], Up(a).path, S);
      assert NodeOk(q, S);
      assert a.path == Up(a).path + [Number(a)] && b.path == Up(b).path + [Number(b)];
    }
  }

  function Up(a: Place): Place
    requires a.path != []
  {
    Place(a.root, a.path[..|a.path| - 1])
  }

  lemma ParentAt(roots: seq<Node>, ts: seq<Tree>, S: set<Node>, a: Place)
    requires Shown(roots, ts, S) && HasPlace(ts, a) && a.path != []
    ensures HasPlace(ts, Up(a))
    ensures var q := NodeAt(roots[a.root], ts[a.root], Up(a).path, S);
      && Number(a) < |q.kids| && q.kids[Number(a)] == NodeAt(roots[a.root], ts[a.root], a.path, S)
      && q.kids[Number(a)].parent == q
  {
    NodeAtLast(roots[a.root], ts[a.root], a.path, S);
    var q := NodeAt(roots[a.root], ts[a.root], Up(a).path, S);
    assert NodeOk(q, S) && q.Placed(Number(a));
  }

  lemma {:induction false} NodeAtJoin(n: Node, t: Tree, a: seq<nat>, b: seq<nat>, S: set<Node>)
    requires Shows(n, t, S) && Has(t, a) && Has(Get(t, a), b)
    ensures Has(t, a + b) && NodeAt(n, t, a + b, S) == NodeAt(NodeAt(n, t, a, S), Get(t, a), b, S)
    decreases a
  {
    if a == [] {
      assert a + b == b;
    } else {
      assert (a + b)[1..] == a[1..] + b;
      NodeAtJoin(n.kids[a[0]], t.kids[a[0]], a[1..], b, S);
    }
  }

  lemma NextOnWay(n: Node, t: Tree, way: seq<nat>, k: nat, S: set<Node>)
    requires Shows(n, t, S) && Has(t, way) && Branch(Get(t, way)) && k < |Get(t, way).kids|
    ensures Has(t, way + [k]) && Get(t, way + [k]) == Get(t, way).kids[k]
    ensures var m := NodeAt(n, t, way, S); |m.kids| == |Get(t, way).kids| && NodeAt(n, t, way + [k], S) == m.kids[k]
  {
    assert Has(Get(t, way), [k]);
    NodeAtJoin(n, t, way, [k], S);
    GetLast(t, way + [k]);
    NodeAtLast(n, t, way + [k], S);
    assert (way + [k])[..|way|] == way;
  }

  /** Whatever is below a node has a path from it. */
  lemma {:induction false} BelowPath(n: Node, t: Tree, S: set<Node>, m: Node) returns (path: seq<nat>)
    requires Shows(n, t, S) && m in Below(n, t, S)
    ensures Has(t, path) && NodeAt(n, t, path, S) == m
    decreases t
  {
    if m == n {
      path := [];
    } else {
      var i: nat :| i < |n.kids| && m in Below(n.kids[i], t.kids[i], S);
      var more := BelowPath(n.kids[i], t.kids[i], S, m);
      path := [i] + more;
      assert path[1..] == more;
    }
  }

  /** A node is below those on the way to it only. */
  lemma BelowOnWay(roots: seq<Node>, ts: seq<Tree>, S: set<Node>, at: Place, q: Place)
    requires Shown(roots, ts, S) && HasPlace(ts, at) && HasPlace(ts, q)
    requires NodeAt(roots[at.root], ts[at.root], at.path, S)
          in Below(NodeAt(roots[q.root], ts[q.root], q.path, S), TreeAt(ts, q), S)
    ensures q.root == at.root && q.path <= at.path
  {
    var p := NodeAt(roots[at.root], ts[at.root], at.path, S);
    var more := BelowPath(NodeAt(roots[q.root], ts[q.root], q.path, S), TreeAt(ts, q), S, p);
    NodeAtJoin(roots[q.root], ts[q.root], q.path, more, S);
    OnePlace(roots, ts, S, at, Place(q.root, q.path + more));
  }

  /** `p` is at the end of the path, and not below anything beside it. */
  ghost predicate OnlyOn(n: Node, t: Tree, path: seq<nat>, p: Node, S: set<Node>)
    requires Shows(n, t, S) && Has(t, path)
    reads S`value, S`cdata, S`attributes, S`kids
    decreases path
  {
    if path == [] then n == p && Beside(n, t, |n.kids|, p, S)
    else
      assert ShowsAll(n.kids, t.kids, S);
      && n != p && Beside(n, t, path[0], p, S)
      && OnlyOn(n.kids[path[0]], t.kids[path[0]], path[1..], p, S)
  }

  /** `p` is not below any child but child number `k`. */
  ghost predicate Beside(n: Node, t: Tree, k: nat, p: Node, S: set<Node>)
    requires Shows(n, t, S)
    reads S`value, S`cdata, S`attributes, S`kids
  {
    Branch(t) ==>
      assert ShowsAll(n.kids, t.kids, S);
      forall b: nat :: b < |n.kids| && b != k ==> p !in Below(n.kids[b], t.kids[b], S)
  }

  ghost predicate OnlyAt(roots: seq<Node>, ts: seq<Tree>, at: Place, p: Node, S: set<Node>)
    requires Shown(roots, ts, S) && HasPlace(ts, at)
    reads S
  {
    && OnlyOn(roots[at.root], ts[at.root], at.path, p, S)
    && forall r: nat :: r < |roots| && r != at.root ==> p !in Below(roots[r], ts[r], S)
  }

  lemma {:induction false} OnlyFrom(roots: seq<Node>, ts: seq<Tree>, S: set<Node>, at: Place, k: nat)
    requires Shown(roots, ts, S) && HasPlace(ts, at) && k <= |at.path|
    ensures Has(ts[at.root], at.path[..k]) && Has(Get(ts[at.root], at.path[..k]), at.path[k..])
    ensures OnlyOn(NodeAt(roots[at.root], ts[at.root], at.path[..k], S), Get(ts[at.root], at.path[..k]), at.path[k..],
                   NodeAt(roots[at.root], ts[at.root], at.path, S), S)
    decreases |at.path| - k
  {
    var root, tree, q := roots[at.root], ts[at.root], Place(at.root, at.path[..k]);
    Halves(tree, at.path, k);
    var p, n, t := NodeAt(root, tree, at.path, S), NodeAt(root, tree, q.path, S), Get(tree, q.path);
    if k == |at.path| {
      assert at.path[..k] == at.path;
      if Branch(t) {
        assert ShowsAll(n.kids, t.kids, S);
        forall b: nat | b < |n.kids| ensures p !in Below(n.kids[b], t.kids[b], S) {
          ParentNotBelow(p, n.kids[b], t.kids[b], S);
        }
      }
    } else {
      if n == p { OnePlace(roots, ts, S, at, q); }
      OnlyFrom(roots, ts, S, at, k + 1);
      assert at.path[..k + 1] == q.path + [at.path[k]] && at.path[k..][1..] == at.path[k + 1..];
      NextOnWay(root, tree, q.path, at.path[k], S);
      BesideWay(roots, ts, S, at, k);
    }
  }

  lemma Halves(t: Tree, path: seq<nat>, k: nat)
    requires Has(t, path) && k <= |path|
    ensures Has(t, path[..k]) && Has(Get(t, path[..k]), path[k..])
  {
    assert path == path[..k] + path[k..];
    HasInTwo(t, path[..k], path[k..]);
  }

  lemma {:induction false} HasInTwo(t: Tree, a: seq<nat>, b: seq<nat>)
    requires Has(t, a + b)
    ensures Has(t, a) && Has(Get(t, a), b)
  {
    if a == [] {
      assert a + b == b;
    } else {
      assert (a + b)[1..] == a[1..] + b;
      HasInTwo(t.kids[a[0]], a[1..], b);
    }
  }

  lemma BesideWay(roots: seq<Node>, ts: seq<Tree>, S: set<Node>, at: Place, k: nat)
    requires Shown(roots, ts, S) && HasPlace(ts, at) && k < |at.path| && Has(ts[at.root], at.path[..k])
    ensures Beside(NodeAt(roots[at.root], ts[at.root], at.path[..k], S), Get(ts[at.root], at.path[..k]), at.path[k],
                   NodeAt(roots[at.root], ts[at.root], at.path, S), S)
  {
    var root, tree, way := roots[at.root], ts[at.root], at.path[..k];
    var p, n, t := NodeAt(root, tree, at.path, S), NodeAt(root, tree, way, S), Get(tree, way);
    if Branch(t) {
      assert ShowsAll(n.kids, t.kids, S);
      forall b: nat | b < |n.kids| && b != at.path[k] ensures p !in Below(n.kids[b], t.kids[b], S) {
        assert Has(t, [b]);
        NextOnWay(root, tree, way, b, S);
        if p in Below(n.kids[b], t.kids[b], S) {
          BelowOnWay(roots, ts, S, at, Place(at.root, way + [b]));
        }
      }
    }
  }

  lemma NodeOnlyAt(roots: seq<Node>, ts: seq<Tree>, S: set<Node>, at: Place)
    requires Shown(roots, ts, S) && HasPlace(ts, at)
    ensures OnlyAt(roots, ts, at, NodeAt(roots[at.root], ts[at.root], at.path, S), S)
  {
    OnlyFrom(roots, ts, S, at, 0);
    var p := NodeAt(roots[at.root], ts[at.root], at.path, S);
    assert at.path[..0] == [] && at.path[0..] == at.path;
    forall r: nat | r < |roots| && r != at.root ensures p !in Below(roots[r], ts[r], S) {
      if p in Below(roots[r], ts[r], S) { BelowOnWay(roots, ts, S, at, Place(r, [])); }
    }
  }

  // ---------------------------------------------------------------- an edit

  /** What `p` is not below shows the tree that it did. */
  twostate lemma {:induction false} Untouched(new m: Node, new t: Tree, new p: Node, S: set<Node>, new A: set<Node>)
    requires Kept(p, S, A) && m in A
    requires old(allocated(m)) && old(allocated(t)) && old(allocated(p))
    requires old(Shows(m, t, S)) && p !in old(Below(m, t, S))
    ensures Shows(m, t, A)
    decreases t
  {
    if t.Element? || t.Document? {
      assert old(ShowsAll(m.kids, t.kids, S));
      forall b | 0 <= b < |m.kids| ensures Shows(m.kids[b], t.kids[b], A) {
        Untouched(m.kids[b], t.kids[b], p, S, A);
      }
    }
  }

  twostate lemma SpliceShows(new t: Tree, new p: Node, new mid: seq<Node>, new us: seq<Tree>, new i: nat, new j: nat,
                             S: set<Node>, new A: set<Node>, new N: set<Node>)
    requires Respliced(p, mid, us, i, j, S, A, N) && Branch(t) && j <= |t.kids|
    requires old(allocated(t)) && old(allocated(p)) && old(Shows(p, t, S)) && old(Beside(p, t, |p.kids|, p, S))
    ensures Shows(p, WithKids(t, Splice(t.kids, i, j, us)), A + N)
  {
    var was := old(p.kids);
    assert old(ShowsAll(p.kids, t.kids, S));
    forall b: nat | b < i || j <= b < |was|
      ensures Shows(was[b], t.kids[b], A + N) && !t.kids[b].Document?
    {
      assert b < i ==> was[..i][b] == was[b];
      assert b >= j ==> was[j..][b - j] == was[b];
      Untouched(was[b], t.kids[b], p, S, A);
      ShowsMore(was[b], t.kids[b], A, A + N);
    }
    ShowsAllMore(mid, us, N, A + N);
    ShowsSpliced(was, t.kids, i, j, mid, us, A + N);
  }

  lemma ShowsSpliced(ns: seq<Node>, ts: seq<Tree>, i: nat, j: nat, mid: seq<Node>, us: seq<Tree>, S: set<Node>)
    requires |ns| == |ts| && i <= j <= |ns| && ShowsAll(mid, us, S)
    requires forall b: nat :: b < i || j <= b < |ns| ==> Shows(ns[b], ts[b], S) && !ts[b].Document?
    ensures ShowsAll(ns[..i] + mid + ns[j..], Splice(ts, i, j, us), S)
  {
    var all, trees := ns[..i] + mid + ns[j..], Splice(ts, i, j, us);
    forall b: nat | b < |all| ensures Shows(all[b], trees[b], S) && !trees[b].Document? {
      if b < i {
        assert all[b] == ns[b] && trees[b] == ts[b];
      } else if b < i + |mid| {
        assert all[b] == mid[b - i] && trees[b] == us[b - i];
      } else {
        var c := b - |mid| + j - i;
        assert all[b] == ns[c] && trees[b] == ts[c];
      }
    }
  }

  /** On the way to `p` the trees change as `Put` says. */
  twostate lemma {:induction false} PutShows(new m: Node, new t: Tree, new path: seq<nat>, new p: Node,
                                             new mid: seq<Node>,
                                             new us: seq<Tree>, new i: nat, new j: nat,
                                             S: set<Node>, new A: set<Node>, new N: set<Node>)
    requires Respliced(p, mid, us, i, j, S, A, N) && m in A
    requires old(allocated(m)) && old(allocated(t)) && old(allocated(p)) && old(allocated(path))
    requires old(Shows(m, t, S)) && Has(t, path) && old(OnlyOn(m, t, path, p, S))
    requires Branch(Get(t, path)) && j <= |Get(t, path).kids|
    ensures Shows(m, Put(t, path, Splice(Get(t, path).kids, i, j, us)), A + N)
    decreases path
  {
    if path == [] {
      SpliceShows(t, p, mid, us, i, j, S, A, N);
    } else {
      assert old(ShowsAll(m.kids, t.kids, S));
      var k := path[0];
      PutShows(m.kids[k], t.kids[k], path[1..], p, mid, us, i, j, S, A, N);
      forall b: nat | b < |m.kids| && b != k
        ensures Shows(m.kids[b], t.kids[b], A + N)
      {
        Untouched(m.kids[b], t.kids[b], p, S, A);
        ShowsMore(m.kids[b], t.kids[b], A, A + N);
      }
    }
  }

  /** All roots show the trees after the edit. */
  twostate lemma RootsShow(new roots: seq<Node>, new ts: seq<Tree>, new at: Place, new p: Node, new mid: seq<Node>,
                           new us: seq<Tree>, new i: nat, new j: nat, S: set<Node>, new A: set<Node>, new N: set<Node>)
    requires old(allocated(roots)) && old(allocated(ts)) && old(allocated(at)) && old(allocated(p))
    requires Respliced(p, mid, us, i, j, S, A, N) && (forall r <- roots :: r in A)
    requires old(Shown(roots, ts, S)) && HasPlace(ts, at) && old(OnlyAt(roots, ts, at, p, S))
    requires Branch(TreeAt(ts, at)) && j <= |TreeAt(ts, at).kids|
    ensures forall r :: 0 <= r < |roots| ==> Shows(roots[r], SpliceAt(ts, at, i, j, us)[r], A + N)
  {
    forall r: nat | r < |roots|
      ensures Shows(roots[r], SpliceAt(ts, at, i, j, us)[r], A + N)
    {
      if r == at.root {
        PutShows(roots[r], ts[r], at.path, p, mid, us, i, j, S, A, N);
      } else {
        Untouched(roots[r], ts[r], p, S, A);
        ShowsMore(roots[r], ts[r], A, A + N);
      }
    }
  }

  /** An edit that was refused. */
  twostate lemma {:induction false} SameTree(new m: Node, new t: Tree, S: set<Node>)
    requires forall n <- S :: n.value == old(n.value) && n.cdata == old(n.cdata)
                              && n.attributes == old(n.attributes) && n.kids == old(n.kids)
    requires old(allocated(m)) && old(allocated(t)) && old(Shows(m, t, S))
    ensures Shows(m, t, S)
    decreases t
  {
    if t.Element? || t.Document? {
      assert old(ShowsAll(m.kids, t.kids, S));
      forall b | 0 <= b < |m.kids| ensures Shows(m.kids[b], t.kids[b], S) {
        SameTree(m.kids[b], t.kids[b], S);
      }
    }
  }

  /** Only children of `p` changed, and no root has got a parent. */
  twostate predicate OnlyKids(new roots: seq<Node>, new p: Node, S: set<Node>)
    reads S, roots
  {
    && (forall n <- S :: n.value == old(n.value) && n.cdata == old(n.cdata) && n.attributes == old(n.attributes))
    && (forall n <- S :: n != p ==> n.kids == old(n.kids))
    && (forall r <- roots :: r.parent == null)
  }

  twostate lemma Refused(new roots: seq<Node>, new ts: seq<Tree>, new p: Node, S: set<Node>, new N: set<Node>)
    requires old(allocated(roots)) && old(allocated(ts)) && old(allocated(p)) && old(Shown(roots, ts, S))
    requires OnlyKids(roots, p, S) && p.kids == old(p.kids) && WellLinked(S + N)
    ensures Shown(roots, ts, S + N)
  {
    forall r | 0 <= r < |roots| ensures Shows(roots[r], ts[r], S + N) {
      SameTree(roots[r], ts[r], S);
      ShowsMore(roots[r], ts[r], S, S + N);
    }
  }

  twostate lemma Inserted(new roots: seq<Node>, new ts: seq<Tree>, new at: Place, new p: Node, new k: Node, new u: Tree,
                          new i: nat, S: set<Node>, new N: set<Node>)
    requires old(allocated(roots)) && old(allocated(ts)) && old(allocated(at)) && old(allocated(p))
    requires old(Shown(roots, ts, S)) && HasPlace(ts, at) && p == old(NodeIn(roots, ts, S, at))
    requires old(OnlyAt(roots, ts, at, p, S)) && OnlyKids(roots, p, S) && WellLinked(S + N)
    requires Branch(TreeAt(ts, at)) && i <= |TreeAt(ts, at).kids|
    requires i <= |old(p.kids)| && p.kids == old(p.kids)[..i] + [k] + old(p.kids)[i..]
    requires Shows(k, u, N) && !u.Document?
    ensures Shown(roots, SpliceAt(ts, at, i, i, [u]), S + N)
  {
    assert forall n <- S :: old(NodeOk(n, S));
    RootsShow(roots, ts, at, p, [k], [u], i, i, S, S, N);
  }

  /** A node is among the children of another exactly when its place says so. */
  lemma ChildByPlace(roots: seq<Node>, ts: seq<Tree>, S: set<Node>, at: Place, child: Place)
    requires Shown(roots, ts, S) && HasPlace(ts, at) && HasPlace(ts, child)
    ensures var p, c := NodeIn(roots, ts, S, at), NodeIn(roots, ts, S, child);
      && p in S && c in S && p.Linked() && (forall k <- p.kids :: k in S)
      && (c in p.kids <==> IsChild(at, child))
      && (IsChild(at, child) ==>
            && Branch(TreeAt(ts, at)) && |TreeAt(ts, at).kids| == |p.kids|
            && Number(child) == p.PlaceOf(c))
  {
    var p, c := NodeIn(roots, ts, S, at), NodeIn(roots, ts, S, child);
    assert NodeOk(p, S) && NodeOk(c, S);
    p.ChildrenAreMine();
    if child.path != [] {
      ParentAt(roots, ts, S, child);
      if c in p.kids {
        OnePlace(roots, ts, S, at, Up(child));
      }
      if IsChild(at, child) {
        ChildHere(ts, at, child);
        assert Up(child) == at && ShowsAll(p.kids, TreeAt(ts, at).kids, S);
      }
    }
  }

  ghost function NodeIn(roots: seq<Node>, ts: seq<Tree>, S: set<Node>, a: Place): (n: Node)
    requires Shown(roots, ts, S) && HasPlace(ts, a)
    reads S
    ensures Shows(n, TreeAt(ts, a), S)
  {
    NodeAt(roots[a.root], ts[a.root], a.path, S)
  }

  /** From a root to the node at a place, by FirstChild and NextSibling. */
  method Walk(root: Node, path: seq<nat>, ghost t: Tree, ghost S: set<Node>) returns (n: Node)
    requires WellLinked(S) && Shows(root, t, S) && Has(t, path)
    ensures n == NodeAt(root, t, path, S)
  {
    n := root;
    ghost var u := t;
    for k := 0 to |path|
      invariant Shows(n, u, S) && Has(u, path[k..])
      invariant NodeAt(n, u, path[k..], S) == NodeAt(root, t, path, S)
    {
      assert NodeOk(n, S) && ShowsAll(n.kids, u.kids, S);
      assert path[k..][1..] == path[k + 1..];
      var c := n.firstChild;
      for i := 0 to path[k]
        invariant i < |n.kids| && c == n.kids[i]
      {
        assert n.Placed(i);
        c := c.next;
      }
      n, u := c, u.kids[path[k]];
    }
  }

  method Find(roots: seq<Node>, a: Place, ghost ts: seq<Tree>, ghost S: set<Node>) returns (n: Node)
    requires Shown(roots, ts, S) && HasPlace(ts, a)
    ensures n == NodeIn(roots, ts, S, a)
  {
    n := Walk(roots[a.root], a.path, ts[a.root], S);
  }

  /** The node whose children are to change: where it is, and that nothing beside its place has it. */
  method FindParent(roots: seq<Node>, at: Place, ghost ts: seq<Tree>, ghost S: set<Node>) returns (p: Node)
    requires Shown(roots, ts, S) && HasPlace(ts, at)
    ensures p == NodeIn(roots, ts, S, at) && OnlyAt(roots, ts, at, p, S)
    ensures p in S && (forall k <- p.kids :: k in S) && p.Linked()
    ensures Branch(TreeAt(ts, at)) ==> |p.kids| == |TreeAt(ts, at).kids|
  {
    p := Walk(roots[at.root], at.path, ts[at.root], S);
    NodeOnlyAt(roots, ts, S, at);
    assert NodeOk(p, S) && (Branch(TreeAt(ts, at)) ==> ShowsAll(p.kids, TreeAt(ts, at).kids, S));
  }

  method FindChild(roots: seq<Node>, at: Place, child: Place, p: Node, ghost ts: seq<Tree>, ghost S: set<Node>)
    returns (c: Node)
    requires Shown(roots, ts, S) && HasPlace(ts, at) && HasPlace(ts, child) && p == NodeIn(roots, ts, S, at)
    ensures c == NodeIn(roots, ts, S, child) && c in S && MaybeChild(ts, at, child, p, c)
  {
    c := Walk(roots[child.root], child.path, ts[child.root], S);
    ChildByPlace(roots, ts, S, at, child);
  }

  /** `c` is a child of `p` if its place says so, and the one that the place says. */
  ghost predicate MaybeChild(ts: seq<Tree>, at: Place, child: Place, p: Node, c: Node)
    requires HasPlace(ts, at) && HasPlace(ts, child)
    reads p
  {
    && (c in p.kids <==> IsChild(at, child))
    && (c in p.kids ==>
          Branch(TreeAt(ts, at)) && |TreeAt(ts, at).kids| == |p.kids| && Number(child) == p.PlaceOf(c))
  }

  /** The node whose children are to change, and the node that may be one of them. */
  ghost predicate Found(roots: seq<Node>, ts: seq<Tree>, S: set<Node>, at: Place, child: Place, p: Node, c: Node)
    reads S, p
  {
    && Shown(roots, ts, S) && HasPlace(ts, at) && HasPlace(ts, child)
    && p == NodeIn(roots, ts, S, at) && OnlyAt(roots, ts, at, p, S) && p in S && (forall k <- p.kids :: k in S)
    && c == NodeIn(roots, ts, S, child) && c in S && MaybeChild(ts, at, child, p, c) && p.Linked()
  }

  twostate predicate WasInserted(p: Node, c: Node, new t: Tree, new node: Node?, new step: nat, new N: set<Node>)
    reads p, N
  {
    && (node == null <==> c !in old(p.kids) || t.Document?)
    && (node == null ==> p.kids == old(p.kids))
    && (node != null ==>
          && Shows(node, CloneOf(t), N)
          && var i := old(p.PlaceOf(c)) + step;
             i <= |old(p.kids)| && p.kids == old(p.kids)[..i] + [node] + old(p.kids)[i..])
  }

  twostate lemma InsertDone(new roots: seq<Node>, new ts: seq<Tree>, new at: Place, new child: Place, new t: Tree,
                            new p: Node, new c: Node, new node: Node?, new step: nat, S: set<Node>, new N: set<Node>)
    requires old(allocated(roots)) && old(allocated(ts)) && old(allocated(at)) && old(allocated(p)) && old(allocated(c))
    requires old(allocated(child)) && HasPlace(ts, at) && HasPlace(ts, child) && step <= 1
    requires old(Shown(roots, ts, S)) && p == old(NodeIn(roots, ts, S, at)) && old(OnlyAt(roots, ts, at, p, S))
    requires old(MaybeChild(ts, at, child, p, c)) && OnlyKids(roots, p, S) && WellLinked(S + N)
    requires WasInserted(p, c, t, node, step, N)
    ensures Shown(roots, Inserting(ts, at, child, t, step), S + N)
  {
    if node == null {
      Refused(roots, ts, p, S, N);
    } else {
      Inserted(roots, ts, at, p, node, CloneOf(t), Number(child) + step, S, N);
    }
  }

  method CallInsertBefore(roots: seq<Node>, p: Node, c: Node, a: Node, ghost t: Tree, ghost S: set<Node>)
    returns (node: Node?, ghost N: set<Node>)
    requires WellLinked(S) && p in S && c in S && Shows(a, t, S) && (forall k <- p.kids :: k in S)
    requires forall r <- roots :: r in S && r.parent == null
    modifies p`firstChild, p`kids, p.kids`prev, p.kids`next
    ensures fresh(N) && WellLinked(S + N) && OnlyKids(roots, p, S) && WasInserted(p, c, t, node, 0, N)
  {
    node, N := p.InsertBeforeChild(c, a, t, S);
  }

  method DoInsertBefore(roots: seq<Node>, at: Place, child: Place, add: Place, ghost ts: seq<Tree>, ghost S: set<Node>)
    returns (ghost N: set<Node>)
    requires Shown(roots, ts, S) && HasPlace(ts, at) && HasPlace(ts, child) && HasPlace(ts, add)
    modifies S
    ensures fresh(N) && Shown(roots, Inserting(ts, at, child, TreeAt(ts, add), 0), S + N)
  {
    var p := FindParent(roots, at, ts, S);
    var c := FindChild(roots, at, child, p, ts, S);
    var a := Find(roots, add, ts, S);
    N := InsertBeforeFound(roots, at, child, p, c, a, TreeAt(ts, add), ts, S);
  }

  method InsertBeforeFound(roots: seq<Node>, at: Place, child: Place, p: Node, c: Node, a: Node, ghost t: Tree,
                      ghost ts: seq<Tree>, ghost S: set<Node>)
    returns (ghost N: set<Node>)
    requires Found(roots, ts, S, at, child, p, c) && Shows(a, t, S)
    modifies S
    ensures fresh(N) && Shown(roots, Inserting(ts, at, child, t, 0), S + N)
  {
    var node;
    node, N := CallInsertBefore(roots, p, c, a, t, S);
    InsertDone(roots, ts, at, child, t, p, c, node, 0, S, N);
  }

  method CallInsertAfter(roots: seq<Node>, p: Node, c: Node, a: Node, ghost t: Tree, ghost S: set<Node>)
    returns (node: Node?, ghost N: set<Node>)
    requires WellLinked(S) && p in S && c in S && Shows(a, t, S) && (forall k <- p.kids :: k in S)
    requires forall r <- roots :: r in S && r.parent == null
    modifies p`lastChild, p`kids, p.kids`prev, p.kids`next
    ensures fresh(N) && WellLinked(S + N) && OnlyKids(roots, p, S) && WasInserted(p, c, t, node, 1, N)
  {
    node, N := p.InsertAfterChild(c, a, t, S);
  }

  method DoInsertAfter(roots: seq<Node>, at: Place, child: Place, add: Place, ghost ts: seq<Tree>, ghost S: set<Node>)
    returns (ghost N: set<Node>)
    requires Shown(roots, ts, S) && HasPlace(ts, at) && HasPlace(ts, child) && HasPlace(ts, add)
    modifies S
    ensures fresh(N) && Shown(roots, Inserting(ts, at, child, TreeAt(ts, add), 1), S + N)
  {
    var p := FindParent(roots, at, ts, S);
    var c := FindChild(roots, at, child, p, ts, S);
    var a := Find(roots, add, ts, S);
    N := InsertAfterFound(roots, at, child, p, c, a, TreeAt(ts, add), ts, S);
  }

  method InsertAfterFound(roots: seq<Node>, at: Place, child: Place, p: Node, c: Node, a: Node, ghost t: Tree,
                      ghost ts: seq<Tree>, ghost S: set<Node>)
    returns (ghost N: set<Node>)
    requires Found(roots, ts, S, at, child, p, c) && Shows(a, t, S)
    modifies S
    ensures fresh(N) && Shown(roots, Inserting(ts, at, child, t, 1), S + N)
  {
    var node;
    node, N := CallInsertAfter(roots, p, c, a, t, S);
    InsertDone(roots, ts, at, child, t, p, c, node, 1, S, N);
  }

  method CallInsertEnd(roots: seq<Node>, p: Node, a: Node, ghost t: Tree, ghost S: set<Node>)
    returns (node: Node?, ghost N: set<Node>)
    requires WellLinked(S) && p in S && Shows(a, t, S) && (forall k <- p.kids :: k in S)
    requires forall r <- roots :: r in S && r.parent == null
    modifies p`firstChild, p`lastChild, p`kids, p.kids`next
    ensures fresh(N) && WellLinked(S + N) && OnlyKids(roots, p, S)
    ensures if t.Document? then p.kids == old(p.kids)
            else node != null && Shows(node, CloneOf(t), N) && p.kids == old(p.kids) + [node]
  {
    node, N := p.InsertEndChild(a, t, S);
  }

  method DoInsertEnd(roots: seq<Node>, at: Place, add: Place, ghost ts: seq<Tree>, ghost S: set<Node>)
    returns (ghost N: set<Node>)
    requires Shown(roots, ts, S) && HasPlace(ts, at) && HasPlace(ts, add) && Branch(TreeAt(ts, at))
    modifies S
    ensures fresh(N) && Shown(roots, Ending(ts, at, TreeAt(ts, add)), S + N)
  {
    var p := FindParent(roots, at, ts, S);
    var a := Find(roots, add, ts, S);
    ghost var t, n := TreeAt(ts, add), |TreeAt(ts, at).kids|;
    assert p.kids[..n] == p.kids;
    var node;
    node, N := CallInsertEnd(roots, p, a, t, S);
    if t.Document? {
      Refused(roots, ts, p, S, N);
    } else {
      Inserted(roots, ts, at, p, node, CloneOf(t), n, S, N);
    }
  }

  // ---------------------------------------------------------------- linking a root

  method CallLinkEnd(p: Node, c: Node, ghost S: set<Node>)
    requires WellLinked(S) && p in S && c in S && c != p && c.parent == null && (forall k <- p.kids :: k in S)
    modifies p`firstChild, p`lastChild, p`kids, c`parent, c`prev, c`next, p.kids`next
    ensures WellLinked(S) && OnlyKids([], p, S) && (forall n <- S :: n != c ==> n.parent == old(n.parent))
    ensures if c.kind == DocumentKind then p.kids == old(p.kids) else p.kids == old(p.kids) + [c]
  {
    assert NodeOk(p, S);
    p.ChildrenAreMine();
    var r := p.LinkEndChild(c, S);
  }

  twostate lemma RootLinked(new roots: seq<Node>, new ts: seq<Tree>, new at: Place, new p: Node, new root: nat,
                            S: set<Node>)
    requires old(allocated(roots)) && old(allocated(ts)) && old(allocated(at)) && old(allocated(p))
    requires old(Shown(roots, ts, S)) && HasPlace(ts, at) && p == old(NodeIn(roots, ts, S, at))
    requires old(OnlyAt(roots, ts, at, p, S)) && OnlyKids([], p, S)
    requires Branch(TreeAt(ts, at)) && root < |roots| && root != at.root && !ts[root].Document?
    requires p.kids == old(p.kids) + [roots[root]] && |old(p.kids)| == |TreeAt(ts, at).kids|
    ensures var n := |TreeAt(ts, at).kids|;
      forall r :: 0 <= r < |roots| ==> Shows(roots[r], SpliceAt(ts, at, n, n, [ts[root]])[r], S)
  {
    var n := |TreeAt(ts, at).kids|;
    assert forall m <- S :: old(NodeOk(m, S));
    assert old(p.kids)[..n] == old(p.kids) && old(p.kids)[n..] == [];
    Untouched(roots[root], ts[root], p, S, S);
    RootsShow(roots, ts, at, p, [roots[root]], [ts[root]], n, n, S, S, S);
    assert S + S == S;
  }

  twostate lemma RootsLeft(new roots: seq<Node>, new ts: seq<Tree>, new us: seq<Tree>, new root: nat, S: set<Node>)
    requires old(allocated(roots)) && old(allocated(ts)) && old(Shown(roots, ts, S))
    requires root < |roots| && |us| == |ts| && WellLinked(S)
    requires forall n <- S :: n != roots[root] ==> n.parent == old(n.parent)
    requires forall r :: 0 <= r < |roots| ==> Shows(roots[r], us[r], S)
    ensures Shown(roots[..root] + roots[root + 1..], Without(us, root), S)
  {
    var left := roots[..root] + roots[root + 1..];
    forall r: nat | r < |left| ensures Shows(left[r], Without(us, root)[r], S) && left[r].parent == null {
      var q := if r < root then r else r + 1;
      assert left[r] == roots[q] && Without(us, root)[r] == us[q];
    }
  }

  method DoLinkEnd(roots: seq<Node>, at: Place, root: nat, ghost ts: seq<Tree>, ghost S: set<Node>)
    returns (after: seq<Node>)
    requires Shown(roots, ts, S) && Legal(ts, LinkEnd(at, root))
    modifies S
    ensures Shown(after, Apply(ts, LinkEnd(at, root)), S)
  {
    var p := FindParent(roots, at, ts, S);
    OtherRoot(roots, ts, S, at, root);
    CallLinkEnd(p, roots[root], S);
    after := roots[..root] + roots[root + 1..];
    if ts[root].Document? {
      forall r | 0 <= r < |roots| ensures Shows(roots[r], ts[r], S) {
        SameTree(roots[r], ts[r], S);
      }
      RootsLeft(roots, ts, ts, root, S);
    } else {
      ghost var n := |TreeAt(ts, at).kids|;
      RootLinked(roots, ts, at, p, root, S);
      RootsLeft(roots, ts, SpliceAt(ts, at, n, n, [ts[root]]), root, S);
    }
  }

  lemma OtherRoot(roots: seq<Node>, ts: seq<Tree>, S: set<Node>, at: Place, root: nat)
    requires Shown(roots, ts, S) && HasPlace(ts, at) && root < |roots| && root != at.root
    ensures NodeIn(roots, ts, S, at) != roots[root]
  {
    if NodeIn(roots, ts, S, at) == roots[root] { OnePlace(roots, ts, S, at, Place(root, [])); }
  }

  // ---------------------------------------------------------------- replacing and removing

  /** What is left when a child and all below it are deleted: every root, and all links but one. */
  ghost predicate Leaves(roots: seq<Node>, p: Node, c: Node, A: set<Node>)
    reads A, p
  {
    && p in A && Detached(A, p) && c in p.kids
    && (forall k <- p.kids :: k in A <==> k != c) && (forall r <- roots :: r in A)
  }

  lemma LeftOver(roots: seq<Node>, ts: seq<Tree>, S: set<Node>, p: Node, c: Node, u: Tree)
    requires Shown(roots, ts, S) && p in S && c in p.kids && Shows(c, u, S)
    ensures Leaves(roots, p, c, S - Below(c, u, S))
  {
    SubtreeDetached(p, c, u, S);
    assert NodeOk(p, S);
    p.ChildrenAreMine();
    forall r <- roots ensures r !in Below(c, u, S) {
      if r in Below(c, u, S) && r != c { ParentBelow(c, u, S, r); }
    }
  }

  twostate lemma Replaced(new roots: seq<Node>, new ts: seq<Tree>, new at: Place, new child: Place,
                          new p: Node, new c: Node,
                          new mid: seq<Node>, new us: seq<Tree>, S: set<Node>, new A: set<Node>, new N: set<Node>)
    requires old(allocated(roots)) && old(allocated(ts)) && old(allocated(at)) && old(allocated(p)) && old(allocated(c))
    requires old(allocated(child)) && old(allocated(A)) && HasPlace(ts, at) && HasPlace(ts, child) && A <= S
    requires old(Shown(roots, ts, S)) && p == old(NodeIn(roots, ts, S, at)) && old(OnlyAt(roots, ts, at, p, S))
    requires old(MaybeChild(ts, at, child, p, c)) && OnlyKids(roots, p, S) && WellLinked(A + N)
    requires old(p.Linked()) && old(Leaves(roots, p, c, A))
    requires var i := old(p.PlaceOf(c)); p.kids == old(p.kids)[..i] + mid + old(p.kids)[i + 1..]
    requires ShowsAll(mid, us, N)
    ensures Shown(roots, Replacing(ts, at, child, us), A + N)
  {
    var i := old(p.PlaceOf(c));
    RootsShow(roots, ts, at, p, mid, us, i, i + 1, S, A, N);
  }

  twostate predicate WasReplaced(p: Node, c: Node, new mid: seq<Node>, new us: seq<Tree>, new ok: bool,
                                 S: set<Node>, new A: set<Node>, new N: set<Node>, new T: set<Node>)
    reads p, N
  {
    && (ok <==> c in old(p.kids))
    && (!ok ==> p.kids == old(p.kids) && T == S)
    && (ok ==>
          && ShowsAll(mid, us, N) && T == A + N
          && var i := old(p.PlaceOf(c));
             i < |old(p.kids)| && p.kids == old(p.kids)[..i] + mid + old(p.kids)[i + 1..])
  }

  twostate lemma ReplaceDone(new roots: seq<Node>, new ts: seq<Tree>, new at: Place, new child: Place,
                             new p: Node, new c: Node,
                             new mid: seq<Node>, new us: seq<Tree>, S: set<Node>, new A: set<Node>, new N: set<Node>,
                             new T: set<Node>, new ok: bool)
    requires old(allocated(roots)) && old(allocated(ts)) && old(allocated(at)) && old(allocated(p)) && old(allocated(c))
    requires old(allocated(child)) && old(allocated(A)) && HasPlace(ts, at) && HasPlace(ts, child) && A <= S
    requires old(Shown(roots, ts, S)) && p == old(NodeIn(roots, ts, S, at)) && old(OnlyAt(roots, ts, at, p, S))
    requires old(MaybeChild(ts, at, child, p, c)) && OnlyKids(roots, p, S) && WellLinked(T)
    requires old(p.Linked()) && (c in old(p.kids) ==> old(Leaves(roots, p, c, A)))
    requires WasReplaced(p, c, mid, us, ok, S, A, N, T)
    ensures Shown(roots, Replacing(ts, at, child, us), T)
  {
    if ok {
      Replaced(roots, ts, at, child, p, c, mid, us, S, A, N);
    } else {
      assert S + {} == S;
      Refused(roots, ts, p, S, {});
    }
  }

  /** The child that is to go, and the nodes that will be left. */
  method FindVictim(roots: seq<Node>, at: Place, child: Place, p: Node, ghost ts: seq<Tree>, ghost S: set<Node>)
    returns (c: Node, ghost A: set<Node>)
    requires Shown(roots, ts, S) && HasPlace(ts, at) && HasPlace(ts, child) && p == NodeIn(roots, ts, S, at)
    ensures c == NodeIn(roots, ts, S, child) && c in S && MaybeChild(ts, at, child, p, c)
    ensures A == S - Below(c, TreeAt(ts, child), S) && (c in p.kids ==> Leaves(roots, p, c, A))
  {
    c := FindChild(roots, at, child, p, ts, S);
    A := S - Below(c, TreeAt(ts, child), S);
    if c in p.kids { LeftOver(roots, ts, S, p, c, TreeAt(ts, child)); }
  }

  method CallReplace(roots: seq<Node>, p: Node, c: Node, a: Node, ghost t: Tree, ghost u: Tree, ghost S: set<Node>)
    returns (ghost mid: seq<Node>, ghost ok: bool, ghost N: set<Node>, ghost T: set<Node>)
    requires WellLinked(S) && p in S && Shows(c, u, S) && Shows(a, t, S) && (forall k <- p.kids :: k in S)
    requires (forall r <- roots :: r in S && r.parent == null) && (c in p.kids ==> !t.Document?)
    modifies p`firstChild, p`lastChild, p`kids, p.kids`prev, p.kids`next
    ensures fresh(N) && fresh(T - S) && WellLinked(T) && OnlyKids(roots, p, S)
    ensures WasReplaced(p, c, mid, [CloneOf(t)], ok, S, S - old(Below(c, u, S)), N, T)
  {
    var node;
    node, N, T := p.ReplaceChild(c, a, t, u, S);
    ok := node != null;
    mid := if node == null then [] else [node];
    if ok {
      ghost var i := old(p.PlaceOf(c));
      assert p.kids == old(p.kids)[..i] + [node] + old(p.kids)[i + 1..];
    }
  }

  method DoReplace(roots: seq<Node>, at: Place, child: Place, add: Place, ghost ts: seq<Tree>, ghost S: set<Node>)
    returns (ghost T: set<Node>)
    requires Shown(roots, ts, S) && HasPlace(ts, at) && HasPlace(ts, child) && HasPlace(ts, add)
    requires IsChild(at, child) ==> !TreeAt(ts, add).Document?
    modifies S
    ensures fresh(T - S) && Shown(roots, Replacing(ts, at, child, [CloneOf(TreeAt(ts, add))]), T)
  {
    var p := FindParent(roots, at, ts, S);
    var c, A := FindVictim(roots, at, child, p, ts, S);
    var a := Find(roots, add, ts, S);
    T := ReplaceFound(roots, at, child, p, c, a, TreeAt(ts, add), ts, S, A);
  }

  method ReplaceFound(roots: seq<Node>, at: Place, child: Place, p: Node, c: Node, a: Node, ghost t: Tree,
                      ghost ts: seq<Tree>, ghost S: set<Node>, ghost A: set<Node>)
    returns (ghost T: set<Node>)
    requires Found(roots, ts, S, at, child, p, c) && Shows(a, t, S)
    requires A == S - Below(c, TreeAt(ts, child), S) && (c in p.kids ==> Leaves(roots, p, c, A) && !t.Document?)
    modifies S
    ensures fresh(T - S) && Shown(roots, Replacing(ts, at, child, [CloneOf(t)]), T)
  {
    ghost var mid, ok, N;
    mid, ok, N, T := CallReplace(roots, p, c, a, t, TreeAt(ts, child), S);
    ReplaceDone(roots, ts, at, child, p, c, mid, [CloneOf(t)], S, A, N, T, ok);
  }

  method CallRemove(roots: seq<Node>, p: Node, c: Node, ghost u: Tree, ghost S: set<Node>)
    returns (ok: bool, ghost T: set<Node>)
    requires WellLinked(S) && p in S && Shows(c, u, S) && (forall k <- p.kids :: k in S)
    requires forall r <- roots :: r in S && r.parent == null
    modifies p`firstChild, p`lastChild, p`kids, p.kids`prev, p.kids`next
    ensures T <= S && WellLinked(T) && OnlyKids(roots, p, S)
    ensures WasReplaced(p, c, [], [], ok, S, S - old(Below(c, u, S)), {}, T)
  {
    ok, T := p.RemoveChild(c, u, S);
    ghost var A := S - old(Below(c, u, S));
    assert A + {} == A;
    if ok {
      ghost var i := old(p.PlaceOf(c));
      assert p.kids == old(p.kids)[..i] + [] + old(p.kids)[i + 1..];
    }
  }

  method DoRemove(roots: seq<Node>, at: Place, child: Place, ghost ts: seq<Tree>, ghost S: set<Node>)
    returns (ghost T: set<Node>)
    requires Shown(roots, ts, S) && HasPlace(ts, at) && HasPlace(ts, child)
    modifies S
    ensures T <= S && Shown(roots, Replacing(ts, at, child, []), T)
  {
    var p := FindParent(roots, at, ts, S);
    var c, A := FindVictim(roots, at, child, p, ts, S);
    var ok;
    ok, T := CallRemove(roots, p, c, TreeAt(ts, child), S);
    ReplaceDone(roots, ts, at, child, p, c, [], [], S, A, {}, T, ok);
  }

  // ---------------------------------------------------------------- runs

  method Constructed(kind: Kind, value: string, roots: seq<Node>, ghost ts: seq<Tree>, ghost S: set<Node>)
    returns (after: seq<Node>, ghost N: set<Node>)
    requires Shown(roots, ts, S) && Legal(ts, Make(kind, value))
    ensures fresh(N) && Shown(after, ts + [Single(kind, value)], S + N)
  {
    var n := new Node(kind, value);
    N := {n};
    assert NodeOk(n, N);
    Together(S, N);
    forall r | 0 <= r < |roots| ensures Shows(roots[r], ts[r], S + N) {
      ShowsMore(roots[r], ts[r], S, S + N);
    }
    after := roots + [n];
  }

  /** One edit. `T` is the set of the nodes that then exist. */
  method Do(roots: seq<Node>, e: Edit, ghost ts: seq<Tree>, ghost S: set<Node>)
    returns (after: seq<Node>, ghost T: set<Node>)
    requires Shown(roots, ts, S) && Legal(ts, e)
    modifies S
    ensures fresh(T - S) && Shown(after, Apply(ts, e), T)
  {
    after, T := roots, S;
    ghost var N := {};
    match e {
      case Make(kind, value) =>
        after, N := Constructed(kind, value, roots, ts, S);
        T := S + N;
      case LinkEnd(at, root) =>
        after := DoLinkEnd(roots, at, root, ts, S);
      case InsertEnd(at, add) =>
        N := DoInsertEnd(roots, at, add, ts, S);
        T := S + N;
      case InsertBefore(at, child, add) =>
        N := DoInsertBefore(roots, at, child, add, ts, S);
        T := S + N;
      case InsertAfter(at, child, add) =>
        N := DoInsertAfter(roots, at, child, add, ts, S);
        T := S + N;
      case Replace(at, child, add) =>
        T := DoReplace(roots, at, child, add, ts, S);
      case Remove(at, child) =>
        T := DoRemove(roots, at, child, ts, S);
    }
  }

  /** A run of edits: the links stay well formed, and the roots show what the edits make of the trees. */
  method Run(roots: seq<Node>, es: seq<Edit>, ghost ts: seq<Tree>, ghost S: set<Node>)
    returns (after: seq<Node>, ghost T: set<Node>)
    requires Shown(roots, ts, S) && AllLegal(ts, es)
    modifies S
    ensures fresh(T - S) && Shown(after, ApplyAll(ts, es), T)
  {
    after, T := roots, S;
    ghost var us := ts;
    assert es[0..] == es;
    for k := 0 to |es|
      invariant fresh(T - S) && Shown(after, us, T)
      invariant AllLegal(us, es[k..]) && ApplyAll(us, es[k..]) == ApplyAll(ts, es)
    {
      assert es[k..][1..] == es[k + 1..];
      after, T := Do(after, es[k], us, T);
      us := Apply(us, es[k]);
    }
  }
}
