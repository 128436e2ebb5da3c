/**
 The layout of printed XML: which lines it has, how deep each is indented, and what stands on it.
 */
module XmlLayout {
  import opened Sequences
  import opened XmlText
  import opened XmlEscape
  import opened XmlTree

  /** One line of output. */
  datatype Line = Line(depth: nat, text: string)

  /** Every node has a line of its own, except that an element with one plain text is written on one
      line; an element with other children has a line for each of its two tags, and its children
      between them are one deeper. */
  function Lines(t: Tree, depth: nat): seq<Line>
    decreases t, 0
  {
    match t
    case Text(v, cdata) => [Line(depth, if cdata then "<![CDATA[" + v + "]]>" else Escape(v))]
    case Comment(v) => [Line(depth, "<!--" + v + "-->")]
    case Unknown(v) => [Line(depth, "<" + v + ">")]
    case Document(kids) => LinesAll(kids, depth)
    case Element(name, attrs, kids) =>
      var tag := "<" + name + PrintAttrs(Visible(attrs));
      if kids == [] then [Line(depth, tag + " />")]
      else if Simple(kids) then [Line(depth, tag + ">" + Escape(kids[0].value) + "</" + name + ">")]
      else [Line(depth, tag + ">")] + LinesAll(kids, depth + 1) + [Line(depth, "</" + name + ">")]
  }

  function LinesAll(kids: seq<Tree>, depth: nat): seq<Line> {
    if kids == [] then [] else Lines(kids[0], depth) + LinesAll(kids[1..], depth)
  }

  function Repeated(s: string, n: nat): (r: string)
    ensures |r| == n * |s|
  {
    if n == 0 then "" else Repeated(s, n - 1) + s
  }

  function Laid(lines: seq<Line>, layout: Layout): string {
    if lines == [] then ""
    else Repeated(layout.indent, lines[0].depth) + lines[0].text + layout.lineBreak + Laid(lines[1..], layout)
  }

  lemma {:induction false} LaidTogether(a: seq<Line>, b: seq<Line>, layout: Layout)
    ensures Laid(a + b, layout) == Laid(a, layout) + Laid(b, layout)
  {
    if a == [] {
      assert a + b == b && "" + Laid(b, layout) == Laid(b, layout);
    } else {
      assert (a + b)[1..] == a[1..] + b;
      LaidTogether(a[1..], b, layout);
      var line := Repeated(layout.indent, a[0].depth) + a[0].text + layout.lineBreak;
      Associate(line, Laid(a[1..], layout), Laid(b, layout));
    }
  }

  lemma {:induction false} RepeatedFront(s: string, n: nat)
    ensures Repeated(s, n + 1) == s + Repeated(s, n)
  {
    if n == 0 {
      assert "" + s == s + "";
    } else {
      RepeatedFront(s, n - 1);
      Associate(s, Repeated(s, n - 1), s);
    }
  }

  lemma {:induction false} IndentIsRepeated(depth: nat, layout: Layout)
    ensures Indent(depth, layout) == Repeated(layout.indent, depth)
  {
    if depth > 0 {
      IndentIsRepeated(depth - 1, layout);
      RepeatedFront(layout.indent, depth - 1);
    }
  }

  lemma OneLine(depth: nat, text: string, layout: Layout)
    ensures Laid([Line(depth, text)], layout) == Indent(depth, layout) + (text + layout.lineBreak)
  {
    var line := Line(depth, text);
    IndentIsRepeated(depth, layout);
    assert [line][1..] == [];
    var ind := Repeated(layout.indent, depth);
    Associate(ind, text, layout.lineBreak);
    assert ind + text + layout.lineBreak + "" == ind + text + layout.lineBreak;
  }

  /** What is printed is those lines, each behind its indentation and with a line break. */
  lemma {:induction false} PrintIsLines(t: Tree, depth: nat, layout: Layout)
    ensures Print(t, depth, layout) == Laid(Lines(t, depth), layout)
    decreases t, 1
  {
    match t
    case Text(v, cdata) =>
      OneLine(depth, if cdata then "<![CDATA[" + v + "]]>" else Escape(v), layout);
      Associate("<![CDATA[", v, "]]>");
    case Comment(v) =>
      OneLine(depth, "<!--" + v + "-->", layout);
      Associate("<!--", v, "-->");
    case Unknown(v) =>
      OneLine(depth, "<" + v + ">", layout);
      Associate("<", v, ">");
    case Document(kids) => AllAreLines(kids, depth, layout);
    case Element(name, attrs, kids) => ElementIsLines(t, depth, layout);
  }

  lemma {:induction false} AllAreLines(kids: seq<Tree>, depth: nat, layout: Layout)
    ensures PrintAll(kids, depth, layout) == Laid(LinesAll(kids, depth), layout)
    decreases kids, 2
  {
    if kids != [] {
      PrintIsLines(kids[0], depth, layout);
      AllAreLines(kids[1..], depth, layout);
      LaidTogether(Lines(kids[0], depth), LinesAll(kids[1..], depth), layout);
    }
  }

  lemma {:induction false} ElementIsLines(t: Tree, depth: nat, layout: Layout)
    requires t.Element?
    ensures Print(t, depth, layout) == Laid(Lines(t, depth), layout)
    decreases t, 0
  {
    var name, attrs, end := t.name, PrintAttrs(Visible(t.attrs)), EndTag(t.name);
    var tag := "<" + name + attrs;
    assert end == "</" + name + ">";
    HeadTogether(name, attrs, ElementBody(t, depth, layout));
    if t.kids == [] {
      OneLine(depth, tag + " />", layout);
      assert Core(t, depth, layout) == tag + " />";
    } else if Simple(t.kids) {
      var text := Escape(t.kids[0].value);
      OneLine(depth, tag + ">" + text + "</" + name + ">", layout);
      assert ElementBody(t, depth, layout) == ">" + (text + end);
      OnOneLine(tag, text, name);
    } else {
      AllAreLines(t.kids, depth + 1, layout);
      OneLine(depth, tag + ">", layout);
      OneLine(depth, end, layout);
      var first, last, all := [Line(depth, tag + ">")], [Line(depth, end)], LinesAll(t.kids, depth + 1);
      LaidTogether(first + all, last, layout);
      LaidTogether(first, all, layout);
      ManyLines(tag, PrintAll(t.kids, depth + 1, layout), end, Indent(depth, layout), layout.lineBreak);
    }
  }

  lemma HeadTogether(name: string, attrs: string, body: string)
    ensures "<" + (name + (attrs + body)) == ("<" + name + attrs) + body
  {
    Associate(name, attrs, body);
    Associate("<", name + attrs, body);
    Associate("<", name, attrs);
  }

  lemma OnOneLine(tag: string, text: string, name: string)
    ensures tag + ">" + text + "</" + name + ">" == tag + (">" + (text + EndTag(name)))
  {
    Associate(tag, ">", text);
    Associate(tag, ">" + text, "</");
    Associate(tag, ">" + text + "</", name);
    Associate(tag, ">" + text + "</" + name, ">");
    Associate(">", text, "</");
    Associate(">", text + "</", name);
    Associate(">", text + "</" + name, ">");
    Associate(text, "</", name);
    Associate(text, "</" + name, ">");
    Associate("</", name, ">");
  }

  lemma ManyLines(tag: string, all: string, end: string, ind: string, lb: string)
    ensures (ind + ((tag + ">") + lb)) + all + (ind + (end + lb))
         == ind + ((tag + (">" + (lb + (all + (ind + end))))) + lb)
  {
    Associate(ind, end, lb);
    Associate(all, ind + end, lb);
    Associate(lb, all + (ind + end), lb);
    Associate(">", lb + (all + (ind + end)), lb);
    Associate(tag, ">" + (lb + (all + (ind + end))), lb);
    var last := ind + (end + lb);
    Associate(ind, (tag + ">") + lb, all);
    Associate(ind, ((tag + ">") + lb) + all, last);
    Associate(tag + ">", lb, all);
    Associate(tag + ">", lb + all, last);
    Associate(lb, all, last);
    Associate(tag, ">", lb + (all + last));
  }

  /** An attribute stands in double quotes, unless its value has one; then in single quotes. */
  lemma AttrPrinted(name: string, v: string)
    requires Escape(name) == name
    ensures '"' !in v ==> PrintAttr(Attr(name, v)) == name + ("=\"" + (Escape(v) + "\""))
    ensures '"' in v ==> PrintAttr(Attr(name, v)) == name + ("='" + (Escape(v) + "'"))
  {
    Associate("=", "\"", Escape(v) + "\"");
    Associate("=", "'", Escape(v) + "'");
    assert "=" + "\"" == "=\"" && "=" + "'" == "='";
  }
}
