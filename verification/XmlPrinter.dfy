/**
 TiXmlPrinter: a visitor that walks the nodes and appends to a buffer.
 */
module XmlPrinter {
  import opened Sequences
  import opened XmlEscape
  import opened XmlTree
  import opened XmlDom

  class Printer {
    var depth: nat
    var simpleTextPrint: bool
    var buffer: string
    var layout: Layout

    constructor (layout: Layout)
      ensures depth == 0 && !simpleTextPrint && buffer == "" && this.layout == layout
    {
      depth, simpleTextPrint, buffer, this.layout := 0, false, "", layout;
    }

    method DoIndent()
      modifies this`buffer
      ensures buffer == old(buffer) + Indent(depth, layout)
    {
      for i := 0 to depth
        invariant old(buffer) + Indent(depth, layout) == buffer + Indent(depth - i, layout)
      {
        Associate(buffer, layout.indent, Indent(depth - i - 1, layout));
        buffer := buffer + layout.indent;
      }
    }

    method DoLineBreak()
      modifies this`buffer
      ensures buffer == old(buffer) + layout.lineBreak
    {
      buffer := buffer + layout.lineBreak;
    }

    /** TiXmlAttribute::Print. */
    method PrintAttribute(a: Attr)
      modifies this`buffer
      ensures buffer == old(buffer) + PrintAttr(a)
    {
      var n := EncodeString(a.name);
      var v := EncodeString(a.value);
      var text;
      if '"' !in a.value {
        text := n + ("=" + ("\"" + (v + "\"")));
      } else {
        text := n + ("=" + ("'" + (v + "'")));
      }
      buffer := buffer + text;
    }

    /** The attribute loop of VisitEnter, which follows First and Next. */
    method PrintAttributes(attributes: seq<Attr>)
      modifies this`buffer
      ensures buffer == old(buffer) + PrintAttrs(Visible(attributes))
    {
      var i := 0;
      ghost var seen := Visible(attributes);
      while i < |attributes| && (i == 0 || !BlankAttr(attributes[i]))
        invariant i <= |attributes| && (0 < i ==> FirstBlank(attributes, 1) == FirstBlank(attributes, i))
        invariant i <= |seen| && old(buffer) + PrintAttrs(seen) == buffer + PrintAttrs(seen[i..])
      {
        ghost var a, more := PrintAttr(attributes[i]), PrintAttrs(seen[i + 1..]);
        assert seen[i..][1..] == seen[i + 1..] && seen[i] == attributes[i];
        Associate(" ", a, more);
        Associate(buffer, " " + a, more);
        Associate(buffer, " ", a);
        buffer := buffer + " ";
        PrintAttribute(attributes[i]);
        i := i + 1;
      }
      assert seen[i..] == [];
    }
  
    /** VisitEnter for an element. `t` is what the element shows. */
    method VisitEnter(element: Node, ghost t: Tree, ghost S: set<Node>)
      requires WellLinked(S) && Shows(element, t, S) && t.Element? && !simpleTextPrint
      modifies this`buffer, this`depth, this`simpleTextPrint
      ensures depth == old(depth) + 1 && simpleTextPrint == Simple(t.kids)
      ensures buffer == old(buffer) + (Indent(old(depth), layout) + Opening(t, layout))
    {
      assert NodeOk(element, S);
      ghost var ind, name, attrs := Indent(depth, layout), t.name, PrintAttrs(Visible(t.attrs));
      DoIndent();
      buffer := buffer + "<";
      buffer := buffer + element.value;
      PrintAttributes(element.attributes);
      ghost var head := "<" + (name + attrs);
      HeadTogether(old(buffer) + ind, name, attrs);
      ghost var upTo := buffer;
      if element.firstChild == null {
        buffer := buffer + " />";
        DoLineBreak();
        Associate(upTo, " />", layout.lineBreak);
      } else {
        buffer := buffer + ">";
        FirstIsText(element, t, S);
        if element.firstChild.kind == TextKind && element.lastChild == element.firstChild && !element.firstChild.cdata {
          simpleTextPrint := true;
        } else {
          DoLineBreak();
          Associate(upTo, ">", layout.lineBreak);
        }
      }
      Associate(old(buffer) + ind, head, After(t, layout));
      Associate(old(buffer), ind, head + After(t, layout));
      depth := depth + 1;
    }

    lemma HeadTogether(start: string, name: string, attrs: string)
      ensures ((start + "<") + name) + attrs == start + ("<" + (name + attrs))
    {
      Associate(start, "<", name);
      Associate(start, "<" + name, attrs);
      Associate("<", name, attrs);
    }

    /** VisitExit for an element. */
    method VisitExit(element: Node, ghost t: Tree, ghost S: set<Node>)
      requires WellLinked(S) && Shows(element, t, S) && t.Element? && simpleTextPrint == Simple(t.kids) && depth > 0
      modifies this`buffer, this`depth, this`simpleTextPrint
      ensures depth == old(depth) - 1 && !simpleTextPrint
      ensures buffer == old(buffer) + Closing(t, depth, layout)
    {
      assert NodeOk(element, S);
      ghost var start := buffer;
      depth := depth - 1;
      if element.firstChild != null {
        if simpleTextPrint {
          simpleTextPrint := false;
          assert start + "" == start;
        } else {
          DoIndent();
        }
        ghost var at := buffer;
        buffer := buffer + "</";
        buffer := buffer + element.value;
        buffer := buffer + ">";
        DoLineBreak();
        ghost var lb := layout.lineBreak;
        Associate(at, "</", t.name);
        Associate(at, "</" + t.name, ">");
        Associate("</", t.name, ">");
        Associate(at, EndTag(t.name), lb);
        Associate(start, if Simple(t.kids) then "" else Indent(depth, layout), EndTag(t.name) + lb);
      } else {
        assert start + "" == start;
      }
    }

    /** Visit for text. */
    method VisitText(text: Node)
      requires text.kind == TextKind
      modifies this`buffer
      ensures var t := Text(text.value, text.cdata);
              buffer == old(buffer) +
                        if simpleTextPrint && !text.cdata then Escape(text.value) else Print(t, depth, layout)
    {
      if text.cdata {
        VisitPlain("<![CDATA[", text.value, "]]>");
      } else if simpleTextPrint {
        var str := EncodeString(text.value);
        buffer := buffer + str;
      } else {
        ghost var start, ind := buffer, Indent(depth, layout);
        DoIndent();
        var str := EncodeString(text.value);
        buffer := buffer + str;
        DoLineBreak();
        Associate(start + ind, str, layout.lineBreak);
        Associate(start, ind, str + layout.lineBreak);
      }
    }

    /** Visit for a comment. */
    method VisitComment(comment: Node)
      modifies this`buffer
      ensures buffer == old(buffer) + Print(Comment(comment.value), depth, layout)
    {
      VisitPlain("<!--", comment.value, "-->");
    }

    /** Visit for an unknown tag. */
    method VisitUnknown(node: Node)
      modifies this`buffer
      ensures buffer == old(buffer) + Print(Tree.Unknown(node.value), depth, layout)
    {
      VisitPlain("<", node.value, ">");
    }

    /** Indentation, the value between its two marks, a line break. */
    method VisitPlain(begin: string, value: string, end: string)
      modifies this`buffer
      ensures buffer == old(buffer) + (Indent(depth, layout) + ((begin + (value + end)) + layout.lineBreak))
    {
      ghost var start, ind := buffer, Indent(depth, layout);
      DoIndent();
      buffer := buffer + begin;
      buffer := buffer + value;
      buffer := buffer + end;
      DoLineBreak();
      Associate(start + ind, begin, value);
      Associate(start + ind, begin + value, end);
      Associate(begin, value, end);
      Associate(start + ind, begin + (value + end), layout.lineBreak);
      Associate(start, ind, (begin + (value + end)) + layout.lineBreak);
    }
  }

  /** What VisitEnter adds after the indentation. */
  function Opening(t: Tree, layout: Layout): string
    requires t.Element?
  {
    ("<" + (t.name + PrintAttrs(Visible(t.attrs)))) + After(t, layout)
  }

  function After(t: Tree, layout: Layout): string
    requires t.Element?
  {
    if t.kids == [] then " />" + layout.lineBreak else if Simple(t.kids) then ">" else ">" + layout.lineBreak
  }

  /** What VisitExit adds. */
  function Closing(t: Tree, depth: nat, layout: Layout): string
    requires t.Element?
  {
    if t.kids == [] then ""
    else (if Simple(t.kids) then "" else Indent(depth, layout)) + (EndTag(t.name) + layout.lineBreak)
  }

  lemma FirstIsText(n: Node, t: Tree, S: set<Node>)
    requires WellLinked(S) && Shows(n, t, S) && t.Element? && n.firstChild != null
    ensures n.firstChild in S && t.kids != []
    ensures Simple(t.kids) <==> n.firstChild.kind == TextKind && n.lastChild == n.firstChild && !n.firstChild.cdata
  {
    assert NodeOk(n, S);
    assert n.kids[0] == n.firstChild && Shows(n.kids[0], t.kids[0], S);
    assert n.lastChild == n.kids[|n.kids| - 1];
  }

  /** The children between VisitEnter and VisitExit. */
  function Inside(t: Tree, depth: nat, layout: Layout): string
    requires t.Element?
  {
    if Simple(t.kids) then Escape(t.kids[0].value) else PrintAll(t.kids, depth + 1, layout)
  }

  lemma Parts(t: Tree, depth: nat, layout: Layout)
    requires t.Element?
    ensures Indent(depth, layout) + (Opening(t, layout) + (Inside(t, depth, layout) + Closing(t, depth, layout)))
            == Print(t, depth, layout)
  {
    var name, attrs, lb := t.name, PrintAttrs(Visible(t.attrs)), layout.lineBreak;
    var after, inside, closing := After(t, layout), Inside(t, depth, layout), Closing(t, depth, layout);
    var head := "<" + (name + attrs);
    var tail := after + (inside + closing);
    Associate(head, after, inside + closing);
    Tail(t, depth, layout);
    var body := ElementBody(t, depth, layout);
    assert tail == body + lb;
    Associate(name, attrs, body + lb);
    Associate("<", name + attrs, body + lb);
    Associate(attrs, body, lb);
    Associate(name, attrs + body, lb);
    Associate("<", name + (attrs + body), lb);
  }

  lemma Tail(t: Tree, depth: nat, layout: Layout)
    requires t.Element?
    ensures After(t, layout) + (Inside(t, depth, layout) + Closing(t, depth, layout))
         == ElementBody(t, depth, layout) + layout.lineBreak
  {
    var lb, end, ind := layout.lineBreak, EndTag(t.name), Indent(depth, layout);
    if t.kids == [] {
      assert "" + "" == "";
      assert (" />" + lb) + "" == " />" + lb;
    } else if Simple(t.kids) {
      var text := Escape(t.kids[0].value);
      assert "" + (end + lb) == end + lb;
      Associate(text, end, lb);
      Associate(">", text + end, lb);
    } else {
      var all := PrintAll(t.kids, depth + 1, layout);
      Associate(ind, end, lb);
      Associate(all, ind + end, lb);
      Associate(lb, all + (ind + end), lb);
      Associate(">", lb, all + ((ind + end) + lb));
      Associate(">", lb + (all + (ind + end)), lb);
    }
  }

  /** TiXmlNode::Accept: the visitor walks over the node and all below it. */
  method Accept(n: Node, visitor: Printer, ghost t: Tree, ghost S: set<Node>)
    requires WellLinked(S) && Shows(n, t, S) && (visitor.simpleTextPrint ==> PlainText(t))
    modifies visitor`buffer, visitor`depth, visitor`simpleTextPrint
    ensures visitor.depth == old(visitor.depth) && visitor.simpleTextPrint == old(visitor.simpleTextPrint)
    ensures visitor.buffer == old(visitor.buffer) +
              if visitor.simpleTextPrint then Escape(t.value) else Print(t, visitor.depth, visitor.layout)
    decreases t, 1
  {
    if n.kind == TextKind {
      visitor.VisitText(n);
    } else if n.kind == CommentKind {
      visitor.VisitComment(n);
    } else if n.kind == UnknownKind {
      visitor.VisitUnknown(n);
    } else if n.kind == ElementKind {
      ghost var depth, layout, start := visitor.depth, visitor.layout, visitor.buffer;
      visitor.VisitEnter(n, t, S);
      AcceptChildren(n, visitor, t.kids, S);
      visitor.VisitExit(n, t, S);
      ghost var ind, opening, inside := Indent(depth, layout), Opening(t, layout), Inside(t, depth, layout);
      Associate(start, ind + opening, inside);
      Associate(start, (ind + opening) + inside, Closing(t, depth, layout));
      Associate(ind + opening, inside, Closing(t, depth, layout));
      Associate(ind, opening, inside + Closing(t, depth, layout));
      Parts(t, depth, layout);
    } else {
      AcceptChildren(n, visitor, t.kids, S);
    }
  }

  /** The child loop of Accept. */
  method AcceptChildren(n: Node, visitor: Printer, ghost ts: seq<Tree>, ghost S: set<Node>)
    requires WellLinked(S) && n in S && ShowsAll(n.kids, ts, S) && (visitor.simpleTextPrint ==> Simple(ts))
    modifies visitor`buffer, visitor`depth, visitor`simpleTextPrint
    ensures visitor.depth == old(visitor.depth) && visitor.simpleTextPrint == old(visitor.simpleTextPrint)
    ensures visitor.buffer == old(visitor.buffer) +
              if visitor.simpleTextPrint then Escape(ts[0].value) else PrintAll(ts, visitor.depth, visitor.layout)
    decreases ts, 0
  {
    assert NodeOk(n, S);
    ghost var depth, layout, simple := visitor.depth, visitor.layout, visitor.simpleTextPrint;
    ghost var goal := visitor.buffer + Rest(ts, 0, depth, layout, simple);
    assert ts[0..] == ts;
    var node := n.firstChild;
    ghost var i := 0;
    while node != null
      invariant i <= |ts| && node == n.Ahead(i)
      invariant visitor.depth == depth && visitor.simpleTextPrint == simple
      invariant goal == visitor.buffer + Rest(ts, i, depth, layout, simple)
      decreases |ts| - i
    {
      assert n.Placed(i);
      ghost var before := visitor.buffer;
      Accept(node, visitor, ts[i], S);
      NextChild(before, ts, i, depth, layout, simple);
      node, i := node.next, i + 1;
    }
  }

  /** What the children from `i` on are still to add. */
  ghost function Rest(ts: seq<Tree>, i: nat, depth: nat, layout: Layout, simple: bool): string
    requires i <= |ts| && (simple ==> Simple(ts))
  {
    if !simple then PrintAll(ts[i..], depth, layout) else if i == 0 then Escape(ts[0].value) else ""
  }

  lemma NextChild(before: string, ts: seq<Tree>, i: nat, depth: nat, layout: Layout, simple: bool)
    requires i < |ts| && (simple ==> Simple(ts))
    ensures before + Rest(ts, i, depth, layout, simple)
         == (before + if simple then Escape(ts[i].value) else Print(ts[i], depth, layout))
            + Rest(ts, i + 1, depth, layout, simple)
  {
    if !simple {
      assert ts[i..][1..] == ts[i + 1..];
      Associate(before, Print(ts[i], depth, layout), PrintAll(ts[i + 1..], depth, layout));
    }
  }
}
