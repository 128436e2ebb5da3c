/**
 Printing a tree and parsing the text gives the tree back.
 */
module XmlRoundTrip {
  import opened Sequences
  import opened XmlText
  import opened XmlEscape
  import opened XmlCondense
  import opened XmlTree

  // ---------------------------------------------------------------- which trees

  /** `end` starts nowhere in `v`. */
  predicate Avoids(v: string, end: string) {
    v == "" || (!StringEqual(v, end) && Avoids(v[1..], end))
  }

  predicate ValidText(v: string, enc: Encoding) {
    !AllWhite(v) && NoReference(v) && WellFormed(v, enc) && (enc.Utf8? ==> !IsMark(TrimSpaces(v)))
  }

  /** A name the parser reads; in UTF-8 it skips a byte order mark as white space. */
  predicate ValidName(n: string, enc: Encoding) { IsName(n) && (enc.Utf8? ==> !IsMark(n)) }

  predicate ValidAttrs(attrs: seq<Attr>, enc: Encoding) {
    && (forall i :: 0 <= i < |attrs| ==>
          ValidName(attrs[i].name, enc) && NoReference(attrs[i].value) && WellFormed(attrs[i].value, enc))
    && (forall i, j :: 0 <= i < j < |attrs| ==> attrs[i].name != attrs[j].name)
  }

  predicate ValidUnknown(v: string) {
    '>' !in v && (v != "" ==> v[0] != '/') && Identify("<" + v) == UnknownKind
  }

  predicate Valid(t: Tree, enc: Encoding)
    decreases t, 0
  {
    match t
    case Element(name, attrs, kids) => ValidName(name, enc) && ValidAttrs(attrs, enc) && ValidAll(kids, enc)
    case Text(v, cdata) => if cdata then Avoids(v, "]]>") else ValidText(v, enc)
    case Comment(v) => Avoids(v, "-->")
    case Unknown(v) => ValidUnknown(v)
    case Document(_) => false
  }

  /** Plain texts must not be neighbours: they would be read as one. */
  predicate ValidAll(kids: seq<Tree>, enc: Encoding) {
    kids == [] || (Valid(kids[0], enc) && ValidAll(kids[1..], enc)
                   && (PlainText(kids[0]) && |kids| > 1 ==> !PlainText(kids[1])))
  }

  /** Indentation and line breaks are white space. */
  predicate Blank(layout: Layout) { AllWhite(layout.indent) && AllWhite(layout.lineBreak) }

  /** The tree as the parser delivers it from its printed text. A parser that condenses squeezes the
      white space of plain text; one that keeps it also finds the line breaks and the indentation
      around a plain text that has siblings. `close` is what stands in front of the end tag. */
  function Delivered(t: Tree, depth: nat, layout: Layout, condense: bool): Tree
    decreases t, 0
  {
    match t
    case Element(name, attrs, kids) =>
      Element(name, attrs,
        if Simple(kids) then [Text(if condense then CondensedText(kids[0].value) else kids[0].value, false)]
        else DeliveredAll(kids, depth + 1, layout, Indent(depth, layout), condense))
    case _ => t
  }

  function DeliveredAll(kids: seq<Tree>, depth: nat, layout: Layout, close: string, condense: bool): seq<Tree> {
    if kids == [] then []
    else
      [if PlainText(kids[0])
       then
         var behind := if |kids| == 1 then close else Indent(depth, layout);
         Text(DeliveredText(kids[0].value, depth, layout, behind, condense), false)
       else Delivered(kids[0], depth, layout, condense)]
      + DeliveredAll(kids[1..], depth, layout, close, condense)
  }

  function DeliveredText(v: string, depth: nat, layout: Layout, behind: string, condense: bool): string {
    if condense then CondensedText(v)
    else (layout.lineBreak + Indent(depth, layout)) + (v + (layout.lineBreak + behind))
  }

  // ---------------------------------------------------------------- the printed text, from left to right

  function AttrsTo(attrs: seq<Attr>, rest: string): string {
    if attrs == [] then rest
    else " " + (attrs[0].name + ("=" + ([Quote(attrs[0].value)]
         + (Escape(attrs[0].value) + ([Quote(attrs[0].value)] + AttrsTo(attrs[1..], rest))))))
  }

  function EndTo(name: string, rest: string): string { "</" + (name + (">" + rest)) }

  /** The text of a node without its indentation and line break, and what follows it. */
  function CoreTo(t: Tree, depth: nat, layout: Layout, rest: string): string
    decreases t, 1
  {
    match t
    case Text(v, cdata) => if cdata then "<![CDATA[" + (v + ("]]>" + rest)) else Escape(v) + rest
    case Comment(v) => "<!--" + (v + ("-->" + rest))
    case Unknown(v) => "<" + (v + (">" + rest))
    case Document(kids) => AllTo(kids, depth, layout, rest)
    case Element(name, attrs, kids) =>
      "<" + (name + AttrsTo(attrs, ElementBodyTo(t, depth, layout, rest)))
  }

  function ElementBodyTo(t: Tree, depth: nat, layout: Layout, rest: string): string
    requires t.Element?
    decreases t, 0
  {
    if t.kids == [] then " />" + rest
    else if Simple(t.kids) then ">" + (Escape(t.kids[0].value) + EndTo(t.name, rest))
    else ">" + (layout.lineBreak + AllTo(t.kids, depth + 1, layout, Indent(depth, layout) + EndTo(t.name, rest)))
  }

  function AllTo(kids: seq<Tree>, depth: nat, layout: Layout, rest: string): string {
    if kids == [] then rest
    else Indent(depth, layout)
         + CoreTo(kids[0], depth, layout, layout.lineBreak + AllTo(kids[1..], depth, layout, rest))
  }

  lemma EscapeNameChar(c: char)
    requires NameChar(c)
    ensures EscapeChar(c) == [c] && c != '&'
  {
  }

  lemma {:induction false} EscapeName(n: string)
    requires forall i :: 0 <= i < |n| ==> NameChar(n[i])
    ensures Escape(n) == n
  {
    if n != "" {
      var c, more := n[0], n[1..];
      EscapeNameChar(c);
      EscapeName(more);
      assert Escape(n) == [c] + more;
    }
  }

  lemma {:induction false} AttrsOnto(attrs: seq<Attr>, rest: string, enc: Encoding)
    requires ValidAttrs(attrs, enc)
    ensures Visible(attrs) == attrs
    ensures AttrsTo(attrs, rest) == PrintAttrs(attrs) + rest
  {
    if attrs != [] {
      var a, more := attrs[0], attrs[1..];
      AttrsOnto(more, rest, enc);
      assert attrs == [a] + more;
      EscapeName(a.name);
      AttrOnto(a, PrintAttrs(more) + rest);
      Associate(PrintAttr(a), PrintAttrs(more), rest);
      Associate(" ", PrintAttr(a) + PrintAttrs(more), rest);
    }
  }

  lemma AttrOnto(a: Attr, rest: string)
    requires Escape(a.name) == a.name
    ensures a.name + ("=" + ([Quote(a.value)] + (Escape(a.value) + ([Quote(a.value)] + rest)))) == PrintAttr(a) + rest
  {
    var q, v := [Quote(a.value)], Escape(a.value);
    Associate(v, q, rest);
    Associate(q, v + q, rest);
    Associate("=", q + (v + q), rest);
    Associate(a.name, "=" + (q + (v + q)), rest);
  }

  lemma EndOnto(name: string, rest: string)
    ensures EndTo(name, rest) == EndTag(name) + rest
  {
    Associate(name, ">", rest);
    Associate("</", name + ">", rest);
  }

  lemma {:induction false} CoreOnto(t: Tree, depth: nat, layout: Layout, rest: string, enc: Encoding)
    requires Valid(t, enc)
    ensures CoreTo(t, depth, layout, rest) == Core(t, depth, layout) + rest
    decreases t, 1
  {
    match t
    case Text(v, cdata) =>
      Associate(v, "]]>", rest);
      Associate("<![CDATA[", v + "]]>", rest);
    case Comment(v) =>
      Associate(v, "-->", rest);
      Associate("<!--", v + "-->", rest);
    case Unknown(v) =>
      Associate(v, ">", rest);
      Associate("<", v + ">", rest);
    case Element(name, attrs, kids) =>
      var body := ElementBody(t, depth, layout);
      ElementBodyOnto(t, depth, layout, rest, enc);
      AttrsOnto(attrs, body + rest, enc);
      Associate(PrintAttrs(attrs), body, rest);
      Associate(name, PrintAttrs(attrs) + body, rest);
      Associate("<", name + (PrintAttrs(attrs) + body), rest);
  }

  lemma {:induction false} ElementBodyOnto(t: Tree, depth: nat, layout: Layout, rest: string, enc: Encoding)
    requires t.Element? && Valid(t, enc)
    ensures ElementBodyTo(t, depth, layout, rest) == ElementBody(t, depth, layout) + rest
    decreases t, 0
  {
    EndOnto(t.name, rest);
    if t.kids == [] {
    } else if Simple(t.kids) {
      Associate(Escape(t.kids[0].value), EndTag(t.name), rest);
      Associate(">", Escape(t.kids[0].value) + EndTag(t.name), rest);
    } else {
      var all, end := PrintAll(t.kids, depth + 1, layout), Indent(depth, layout) + EndTag(t.name);
      Associate(Indent(depth, layout), EndTag(t.name), rest);
      AllOnto(t.kids, depth + 1, layout, end + rest, enc);
      Associate(all, end, rest);
      Associate(layout.lineBreak, all + end, rest);
      Associate(">", layout.lineBreak + (all + end), rest);
    }
  }

  lemma {:induction false} AllOnto(kids: seq<Tree>, depth: nat, layout: Layout, rest: string, enc: Encoding)
    requires ValidAll(kids, enc)
    ensures AllTo(kids, depth, layout, rest) == PrintAll(kids, depth, layout) + rest
  {
    if kids != [] {
      var core, lb, more := Core(kids[0], depth, layout), layout.lineBreak, PrintAll(kids[1..], depth, layout);
      AllOnto(kids[1..], depth, layout, rest, enc);
      CoreOnto(kids[0], depth, layout, lb + (more + rest), enc);
      Associate(core, lb, more + rest);
      Associate(Indent(depth, layout), core + lb, more + rest);
      Associate(Print(kids[0], depth, layout), more, rest);
    }
  }

  // ---------------------------------------------------------------- parsing it

  lemma {:induction false} NameRunIs(name: string, rest: string)
    requires forall i :: 0 <= i < |name| ==> NameChar(name[i])
    requires rest != "" ==> !NameChar(rest[0])
    ensures NameRun(name + rest) == |name|
    ensures (name + rest)[..|name|] == name && (name + rest)[|name|..] == rest
  {
    if name == "" {
      assert name + rest == rest;
    } else {
      var p := name + rest;
      assert p[1..] == name[1..] + rest && p[0] == name[0];
      NameRunIs(name[1..], rest);
      assert p[..|name|] == name && p[|name|..] == rest;
    }
  }

  /** Text that is not white space and not a mark stays where it is. */
  lemma SkipNothing(p: string, enc: Encoding)
    requires p == "" || (!IsWhiteSpace(p[0]) && (p[0] as int < 0x80 || !enc.Utf8? || !IsMark(p)))
    ensures Skip(p, enc) == p
  {
  }

  lemma NameStays(name: string, rest: string, enc: Encoding)
    requires ValidName(name, enc) && rest != "" && rest[0] as int < 0x80
    ensures Skip(name + rest, enc) == name + rest
  {
    var p := name + rest;
    assert p[0] == name[0];
    assert forall i :: 0 <= i < |name| ==> p[i] == name[i];
    assert p[|name|] == rest[0];
    SkipNothing(p, enc);
  }

  lemma {:induction false} SkipPadding(pad: string, p: string, enc: Encoding)
    requires AllWhite(pad)
    ensures Skip(pad + p, enc) == Skip(p, enc)
  {
    if pad == "" {
      assert pad + p == p;
    } else {
      assert (pad + p)[0] == pad[0] && (pad + p)[1..] == pad[1..] + p;
      SkipPadding(pad[1..], p, enc);
    }
  }

  lemma {:induction false} RawUntilEnd(v: string, end: string, rest: string)
    requires Avoids(v, end) && (|end| == 1 || (|end| == 3 && end[0] == end[1] != end[2]))
    ensures RawUntil(v + (end + rest), end) == Read(v, rest)
  {
    var p := v + (end + rest);
    if v == "" {
      assert p == end + rest && p[|end|..] == rest;
    } else {
      assert p[1..] == v[1..] + (end + rest);
      RawUntilEnd(v[1..], end, rest);
      assert forall i :: |v| <= i < |v| + |end| ==> p[i] == end[i - |v|];
      assert |v| >= |end| ==> v[..|end|] == p[..|end|];
      assert forall i :: 0 <= i < |v| ==> p[i] == v[i];
      assert [v[0]] + v[1..] == v;
    }
  }

  lemma CommentParsed(v: string, rest: string)
    requires Avoids(v, "-->")
    ensures ParseComment("<!--" + (v + ("-->" + rest))) == Done(Comment(v), rest)
  {
    var p := "<!--" + (v + ("-->" + rest));
    assert p[4..] == v + ("-->" + rest);
    RawUntilEnd(v, "-->", rest);
  }

  lemma CDataParsed(v: string, rest: string)
    requires Avoids(v, "]]>")
    ensures ParseCData("<![CDATA[" + (v + ("]]>" + rest))) == Done(Text(v, true), rest)
  {
    var p := "<![CDATA[" + (v + ("]]>" + rest));
    assert p[9..] == v + ("]]>" + rest);
    RawUntilEnd(v, "]]>", rest);
  }

  lemma {:induction false} AvoidsChar(v: string, c: char)
    requires c !in v
    ensures Avoids(v, [c])
  {
    if v != "" {
      assert v[0] != c;
      AvoidsChar(v[1..], c);
    }
  }

  lemma UnknownParsed(v: string, rest: string)
    requires ValidUnknown(v)
    ensures ParseUnknown("<" + (v + (">" + rest))) == Done(Tree.Unknown(v), rest)
  {
    var p := "<" + (v + (">" + rest));
    assert p[1..] == v + (">" + rest);
    AvoidsChar(v, '>');
    RawUntilEnd(v, ">", rest);
  }

  lemma AttrParsed(a: Attr, rest: string, cfg: Config)
    requires ValidName(a.name, cfg.enc) && NoReference(a.value) && WellFormed(a.value, cfg.enc)
    ensures var q := [Quote(a.value)];
            ParseAttr(a.name + ("=" + (q + (Escape(a.value) + (q + rest)))), cfg) == Done(a, rest)
  {
    var quote := Quote(a.value);
    var quoted := [quote] + (Escape(a.value) + ([quote] + rest));
    var equals := "=" + quoted;
    NameStays(a.name, equals, cfg.enc);
    NameRunIs(a.name, equals);
    SkipNothing(equals, cfg.enc);
    assert equals[1..] == quoted;
    SkipNothing(quoted, cfg.enc);
    assert quoted[1..] == Escape(a.value) + ([quote] + rest);
    KeepEscaped(a.value, quote, rest, cfg.enc);
  }

  lemma {:induction false} AttrsParsed(attrs: seq<Attr>, before: seq<Attr>, name: string, rest: string, cfg: Config)
    requires ValidAttrs(before + attrs, cfg.enc) && rest != ""
    ensures ParseAttrs(AttrsTo(attrs, rest), name, before, cfg) == ParseAttrs(rest, name, before + attrs, cfg)
    decreases |attrs|
  {
    if attrs == [] {
      assert before + attrs == before;
    } else {
      var a, more := attrs[0], AttrsTo(attrs[1..], rest);
      var all := before + attrs;
      assert all[|before|] == a && forall i :: 0 <= i < |before| ==> all[i] == before[i];
      assert (before + [a]) + attrs[1..] == all;
      var q := [Quote(a.value)];
      var p := a.name + ("=" + (q + (Escape(a.value) + (q + more))));
      assert AttrsTo(attrs, rest) == " " + p;
      SkipPadding(" ", p, cfg.enc);
      NameStays(a.name, "=" + (q + (Escape(a.value) + (q + more))), cfg.enc);
      assert p[0] == a.name[0];
      AttrParsed(a, more, cfg);
      AttrsLeft(attrs[1..], rest);
      OneAttr(" " + p, p, name, before, a, more, cfg);
      AttrsParsed(attrs[1..], before + [a], name, rest, cfg);
    }
  }

  lemma AttrsLeft(attrs: seq<Attr>, rest: string)
    requires rest != ""
    ensures AttrsTo(attrs, rest) != ""
  {
  }

  lemma OneAttr(p: string, q: string, name: string, before: seq<Attr>, a: Attr, more: string, cfg: Config)
    requires Skip(p, cfg.enc) == q && q != "" && NameStart(q[0]) && more != ""
    requires ParseAttr(q, cfg) == Done(a, more) && forall i :: 0 <= i < |before| ==> before[i].name != a.name
    ensures ParseAttrs(p, name, before, cfg) == ParseAttrs(more, name, before + [a], cfg)
  {
  }

  // ---------------------------------------------------------------- children

  /** White space in front of a tag is skipped in either mode. */
  lemma NodesSkip(pad: string, p: string, cfg: Config)
    requires AllWhite(pad) && (cfg.condense || (p != "" && p[0] == '<'))
    ensures ParseNodes(pad + p, cfg) == ParseNodes(p, cfg)
  {
    SkipPadding(pad, p, cfg.enc);
    if !cfg.condense {
      SkipNothing(p, cfg.enc);
    }
  }

  lemma NotBlank(v: string) returns (i: nat)
    requires !AllWhite(v)
    ensures i < |v| && !IsWhiteSpace(v[i])
  {
    i :| 0 <= i < |v| && !IsWhiteSpace(v[i]);
  }

  lemma TextCondensed(v: string, pad: string, more: string, cfg: Config)
    requires ValidText(v, cfg.enc) && AllWhite(pad) && cfg.condense
    ensures var q := Skip(Escape(v) + (pad + ("<" + more)), cfg.enc);
            q != "" && q[0] != '<'
            && ParseText(q, cfg) == Done(Text(CondensedText(v), false), "<" + more)
            && !AllWhite(CondensedText(v))
  {
    var tail := pad + ("<" + more);
    var i := NotBlank(v);
    var k := TrimNotBlank(v, i);
    var w := TrimSpaces(v);
    SkipEscaped(v, tail, cfg.enc);
    EscapedHead(w, tail);
    SkipTwice(Escape(v) + tail, cfg.enc);
    CondenseEscaped(w, pad, '<', more, cfg.enc, false);
    SqueezeNotBlank(w, false, k);
  }

  /** White space is kept as it is. */
  lemma {:induction false} KeepWhite(pad: string, tail: string, end: char, enc: Encoding)
    requires AllWhite(pad) && EndsText(end)
    ensures Keep(pad + tail, [end], enc) == Keep(tail, [end], enc).Prepend(pad)
  {
    if pad == "" {
      assert pad + tail == tail;
      PrependNothing(Keep(tail, [end], enc));
    } else {
      var p := pad + tail;
      assert p[0] == pad[0] && p[1..] == pad[1..] + tail;
      KeepWhite(pad[1..], tail, end, enc);
      KeepStep(p, end, enc, [pad[0]], pad[1..] + tail);
      PrependTwice(Keep(tail, [end], enc), pad[1..], [pad[0]]);
      assert [pad[0]] + pad[1..] == pad;
    }
  }

  lemma PaddedNotBlank(lead: string, v: string, pad: string)
    requires !AllWhite(v)
    ensures !AllWhite(lead + (v + pad))
  {
    var i := NotBlank(v);
    assert (lead + (v + pad))[|lead| + i] == v[i];
  }

  lemma TextKept(lead: string, v: string, pad: string, more: string, cfg: Config)
    requires ValidText(v, cfg.enc) && AllWhite(lead) && AllWhite(pad) && !cfg.condense
    ensures var p := lead + (Escape(v) + (pad + ("<" + more)));
            var q := Skip(p, cfg.enc);
            q != "" && q[0] != '<'
            && ParseText(p, cfg) == Done(Text(lead + (v + pad), false), "<" + more)
  {
    var tail := pad + ("<" + more);
    var i := NotBlank(v);
    var k := TrimNotBlank(v, i);
    SkipPadding(lead, Escape(v) + tail, cfg.enc);
    SkipEscaped(v, tail, cfg.enc);
    EscapedHead(TrimSpaces(v), tail);
    KeepWhite(lead, Escape(v) + tail, '<', cfg.enc);
    KeepEscapedOnto(v, tail, '<', cfg.enc);
    KeepWhite(pad, "<" + more, '<', cfg.enc);
    assert ("<" + more)[1..] == more && pad + "" == pad;
  }

  /** Plain text, with white space around it, up to the next `<`. */
  lemma TextParsed(lead: string, v: string, pad: string, more: string, cfg: Config)
    requires ValidText(v, cfg.enc) && AllWhite(lead) && AllWhite(pad)
    ensures ParseNodes(lead + (Escape(v) + (pad + ("<" + more))), cfg)
            == AddFirst(Text(if cfg.condense then CondensedText(v) else lead + (v + pad), false),
                        ParseNodes("<" + more, cfg))
  {
    if cfg.condense {
      NodesSkip(lead, Escape(v) + (pad + ("<" + more)), cfg);
      TextCondensed(v, pad, more, cfg);
    } else {
      TextKept(lead, v, pad, more, cfg);
      PaddedNotBlank(lead, v, pad);
    }
  }

  lemma WhiteTogether(a: string, b: string)
    requires AllWhite(a) && AllWhite(b)
    ensures AllWhite(a + b)
  {
  }

  lemma {:induction false} IndentIsWhite(depth: nat, layout: Layout)
    requires Blank(layout)
    ensures AllWhite(Indent(depth, layout))
  {
    if depth > 0 {
      IndentIsWhite(depth - 1, layout);
      WhiteTogether(layout.indent, Indent(depth - 1, layout));
    }
  }

  /** Everything but plain text starts with `<`, and is not an end tag. */
  lemma StartsTag(t: Tree, depth: nat, layout: Layout, rest: string, enc: Encoding)
    requires Valid(t, enc) && !PlainText(t)
    ensures var p := CoreTo(t, depth, layout, rest);
            |p| > 1 && p[0] == '<' && p[1] != '/' && p == "<" + p[1..]
  {
    var p := CoreTo(t, depth, layout, rest);
    match t
    case Element(name, _, _) => assert p[1] == name[0];
    case Unknown(v) => if v != "" { assert p[1] == v[0]; } else { assert p[1] == '>'; }
    case Text(v, _) => assert p[1] == '!';
    case Comment(v) => assert p[1] == '!';
  }

  lemma UnknownIdentified(v: string, rest: string)
    requires ValidUnknown(v)
    ensures Identify("<" + (v + (">" + rest))) == UnknownKind
  {
    var p, short := "<" + (v + (">" + rest)), "<" + v;
    assert forall i :: 0 <= i < |short| ==> p[i] == short[i];
    assert p[|short|] == '>';
  }

  lemma CommentIdentified(rest: string)
    ensures Identify("<!--" + rest) == CommentKind
  {
    var p := "<!--" + rest;
    assert p[1] == '!' && p[..4] == "<!--";
  }

  lemma CDataIdentified(rest: string)
    ensures Identify("<![CDATA[" + rest) == CDataKind
  {
    var p := "<![CDATA[" + rest;
    assert p[1] == '!' && p[2] == '[' && p[..9] == "<![CDATA[";
  }

  lemma ElementIdentified(name: string, rest: string, enc: Encoding)
    requires ValidName(name, enc)
    ensures Identify("<" + (name + rest)) == ElementKind
  {
    var p := "<" + (name + rest);
    assert p[1] == name[0];
  }

  /** What follows a node starts, after white space, with the `<` of a sibling or an end tag. */
  lemma TagAhead(kids: seq<Tree>, depth: nat, layout: Layout, close: string, end: string, cfg: Config)
    returns (pad: string, more: string)
    requires ValidAll(kids, cfg.enc) && Blank(layout) && AllWhite(close)
    requires kids != [] ==> !PlainText(kids[0])
    ensures AllWhite(pad) && pad == layout.lineBreak + if kids == [] then close else Indent(depth, layout)
    ensures layout.lineBreak + AllTo(kids, depth, layout, close + ("<" + end)) == pad + ("<" + more)
  {
    var lb := layout.lineBreak;
    if kids == [] {
      pad, more := lb + close, end;
      WhiteTogether(lb, close);
      Associate(lb, close, "<" + end);
    } else {
      var next := lb + AllTo(kids[1..], depth, layout, close + ("<" + end));
      var core := CoreTo(kids[0], depth, layout, next);
      StartsTag(kids[0], depth, layout, next, cfg.enc);
      IndentIsWhite(depth, layout);
      WhiteTogether(lb, Indent(depth, layout));
      pad, more := lb + Indent(depth, layout), core[1..];
      Associate(lb, Indent(depth, layout), core);
    }
  }

  lemma EndReached(name: string, rest: string, cfg: Config)
    ensures ParseNodes(EndTo(name, rest), cfg) == Done([], EndTo(name, rest))
    ensures EndTo(name, rest) == "<" + ("/" + (name + (">" + rest)))
    ensures StringEqual(EndTo(name, rest), EndTag(name)) && EndTo(name, rest)[|EndTag(name)|..] == rest
  {
    var p := EndTo(name, rest);
    SkipNothing(p, cfg.enc);
    EndOnto(name, rest);
    assert p[..2] == "</";
  }

  /** Children are read back, each from the line break in front of it. */
  lemma {:induction false} KidsParsed(kids: seq<Tree>, depth: nat, layout: Layout, close: string,
                                      name: string, rest: string, cfg: Config)
    requires ValidAll(kids, cfg.enc) && Blank(layout) && AllWhite(close)
    ensures ParseNodes(layout.lineBreak + AllTo(kids, depth, layout, close + EndTo(name, rest)), cfg)
            == Done(DeliveredAll(kids, depth, layout, close, cfg.condense), EndTo(name, rest))
    decreases kids, 2
  {
    EndReached(name, rest, cfg);
    var lb, end := layout.lineBreak, EndTo(name, rest);
    if kids == [] {
      Associate(lb, close, end);
      WhiteTogether(lb, close);
      NodesSkip(lb + close, end, cfg);
    } else {
      KidsParsed(kids[1..], depth, layout, close, name, rest, cfg);
      if PlainText(kids[0]) {
        PlainKidParsed(kids, depth, layout, close, name, rest, cfg);
      } else {
        var next := lb + AllTo(kids[1..], depth, layout, close + end);
        NodeParsed(kids[0], depth, layout, next, cfg);
        TagKidParsed(kids[0], depth, layout, next, cfg);
      }
    }
  }

  lemma PlainKidParsed(kids: seq<Tree>, depth: nat, layout: Layout, close: string,
                       name: string, rest: string, cfg: Config)
    requires kids != [] && PlainText(kids[0])
    requires ValidAll(kids, cfg.enc) && Blank(layout) && AllWhite(close)
    ensures var next := layout.lineBreak + AllTo(kids[1..], depth, layout, close + EndTo(name, rest));
      var behind := if |kids| == 1 then close else Indent(depth, layout);
      ParseNodes(layout.lineBreak + AllTo(kids, depth, layout, close + EndTo(name, rest)), cfg)
      == AddFirst(Text(DeliveredText(kids[0].value, depth, layout, behind, cfg.condense), false), ParseNodes(next, cfg))
  {
    var lb, ind, v := layout.lineBreak, Indent(depth, layout), kids[0].value;
    EndReached(name, rest, cfg);
    IndentIsWhite(depth, layout);
    WhiteTogether(lb, ind);
    var pad, more := TagAhead(kids[1..], depth, layout, close, "/" + (name + (">" + rest)), cfg);
    Associate(lb, ind, Escape(v) + (pad + ("<" + more)));
    TextParsed(lb + ind, v, pad, more, cfg);
    NodesSkip(pad, "<" + more, cfg);
  }

  lemma TagKidParsed(t: Tree, depth: nat, layout: Layout, next: string, cfg: Config)
    requires Valid(t, cfg.enc) && !PlainText(t) && Blank(layout)
    requires ParseNode(CoreTo(t, depth, layout, next), cfg) == Done(Delivered(t, depth, layout, cfg.condense), next)
    ensures ParseNodes(layout.lineBreak + (Indent(depth, layout) + CoreTo(t, depth, layout, next)), cfg)
         == AddFirst(Delivered(t, depth, layout, cfg.condense), ParseNodes(next, cfg))
  {
    var lb, ind, core := layout.lineBreak, Indent(depth, layout), CoreTo(t, depth, layout, next);
    StartsTag(t, depth, layout, next, cfg.enc);
    IndentIsWhite(depth, layout);
    WhiteTogether(lb, ind);
    Associate(lb, ind, core);
    NodesSkip(lb + ind, core, cfg);
    SkipNothing(core, cfg.enc);
  }

  lemma {:induction false} NodeParsed(t: Tree, depth: nat, layout: Layout, rest: string, cfg: Config)
    requires Valid(t, cfg.enc) && !PlainText(t) && Blank(layout)
    ensures ParseNode(CoreTo(t, depth, layout, rest), cfg) == Done(Delivered(t, depth, layout, cfg.condense), rest)
    decreases t, 1
  {
    match t
    case Text(v, _) =>
      CDataIdentified(v + ("]]>" + rest));
      CDataParsed(v, rest);
    case Comment(v) =>
      CommentIdentified(v + ("-->" + rest));
      CommentParsed(v, rest);
    case Unknown(v) =>
      UnknownIdentified(v, rest);
      UnknownParsed(v, rest);
    case Element(name, attrs, kids) =>
      var body := ElementBodyTo(t, depth, layout, rest);
      ElementIdentified(name, AttrsTo(attrs, body), cfg.enc);
      BodyParsed(t, depth, layout, rest, cfg);
      HeadParsed(name, attrs, body, cfg);
  }

  /** From the `<` of a start tag to the end of its attributes. */
  lemma HeadParsed(name: string, attrs: seq<Attr>, body: string, cfg: Config)
    requires ValidName(name, cfg.enc) && ValidAttrs(attrs, cfg.enc)
    requires body != "" && (body[0] == ' ' || body[0] == '>')
    ensures ParseElement("<" + (name + AttrsTo(attrs, body)), cfg) == ParseAttrs(body, name, attrs, cfg)
  {
    var more := AttrsTo(attrs, body);
    var p := "<" + (name + more);
    assert more != "" && (more[0] == ' ' || more[0] == '>');
    SkipNothing(p, cfg.enc);
    assert p[1..] == name + more;
    NameStays(name, more, cfg.enc);
    NameRunIs(name, more);
    assert [] + attrs == attrs;
    AttrsParsed(attrs, [], name, body, cfg);
  }

  lemma {:induction false} BodyParsed(t: Tree, depth: nat, layout: Layout, rest: string, cfg: Config)
    requires t.Element? && Valid(t, cfg.enc) && Blank(layout)
    ensures ParseAttrs(ElementBodyTo(t, depth, layout, rest), t.name, t.attrs, cfg)
            == Done(Delivered(t, depth, layout, cfg.condense), rest)
    decreases t, 0
  {
    var kids := Delivered(t, depth, layout, cfg.condense).kids;
    if t.kids == [] {
      EmptyParsed(t.name, t.attrs, rest, cfg);
    } else if Simple(t.kids) {
      SimpleParsed(t.kids, t.name, rest, cfg);
      KidsThenEnd(t.name, t.attrs, kids, Escape(t.kids[0].value) + EndTo(t.name, rest), rest, cfg);
    } else {
      var ind := Indent(depth, layout);
      IndentIsWhite(depth, layout);
      KidsParsed(t.kids, depth + 1, layout, ind, t.name, rest, cfg);
      KidsThenEnd(t.name, t.attrs, kids,
                  layout.lineBreak + AllTo(t.kids, depth + 1, layout, ind + EndTo(t.name, rest)), rest, cfg);
    }
  }

  lemma EmptyParsed(name: string, attrs: seq<Attr>, rest: string, cfg: Config)
    ensures ParseAttrs(" />" + rest, name, attrs, cfg) == Done(Element(name, attrs, []), rest)
  {
    var q := "/>" + rest;
    assert " />" + rest == " " + q && q[2..] == rest;
    SkipPadding(" ", q, cfg.enc);
    SkipNothing(q, cfg.enc);
  }

  lemma KidsThenEnd(name: string, attrs: seq<Attr>, kids: seq<Tree>, inside: string, rest: string, cfg: Config)
    requires ParseNodes(inside, cfg) == Done(kids, EndTo(name, rest))
    ensures ParseAttrs(">" + inside, name, attrs, cfg) == Done(Element(name, attrs, kids), rest)
  {
    var p := ">" + inside;
    assert p[1..] == inside;
    SkipNothing(p, cfg.enc);
    EndReached(name, rest, cfg);
  }

  lemma SimpleParsed(kids: seq<Tree>, name: string, rest: string, cfg: Config)
    requires Simple(kids) && ValidAll(kids, cfg.enc)
    ensures ParseNodes(Escape(kids[0].value) + EndTo(name, rest), cfg)
            == Done([Text(if cfg.condense then CondensedText(kids[0].value) else kids[0].value, false)],
                    EndTo(name, rest))
  {
    EndReached(name, rest, cfg);
    var more := "/" + (name + (">" + rest));
    var v := kids[0].value;
    var p := Escape(v) + ("" + ("<" + more));
    assert "" + ("<" + more) == EndTo(name, rest);
    assert "" + p == p && "" + (v + "") == v;
    TextParsed("", v, "", more, cfg);
    var t := Text(if cfg.condense then CondensedText(v) else v, false);
    assert [t] + [] == [t];
  }

  /** The main result. Whatever TiXmlPrinter makes of a valid element, comment, CDATA section or
      unknown tag, in whatever layout of white space and in whatever mode the parser is, the parser
      reads it back as `Delivered` says, and stops where the node's text stops. */
  lemma RoundTrip(t: Tree, depth: nat, layout: Layout, rest: string, cfg: Config)
    requires Valid(t, cfg.enc) && !PlainText(t) && Blank(layout)
    ensures ParseNode(Core(t, depth, layout) + rest, cfg) == Done(Delivered(t, depth, layout, cfg.condense), rest)
  {
    NodeParsed(t, depth, layout, rest, cfg);
    CoreOnto(t, depth, layout, rest, cfg.enc);
  }

  // ---------------------------------------------------------------- exactly when nothing changes

  /** Every plain text of the tree is tidy. */
  predicate TidyTree(t: Tree)
    decreases t, 0
  {
    match t
    case Element(_, _, kids) => TidyAll(kids)
    case Text(v, false) => Tidy(v)
    case _ => true
  }

  predicate TidyAll(kids: seq<Tree>) { kids == [] || (TidyTree(kids[0]) && TidyAll(kids[1..])) }

  /** No plain text of the tree has siblings. */
  predicate LoneTexts(t: Tree)
    decreases t, 0
  {
    t.Element? ==> Simple(t.kids) || NoTexts(t.kids)
  }

  predicate NoTexts(kids: seq<Tree>) {
    kids == [] || (!PlainText(kids[0]) && LoneTexts(kids[0]) && NoTexts(kids[1..]))
  }

  /** When the tree comes back as it was: if the parser condenses, when its texts are tidy; else, when
      the layout is that of stream printing or no plain text has siblings. */
  predicate Stable(t: Tree, layout: Layout, condense: bool) {
    if condense then TidyTree(t) else layout == STREAM || LoneTexts(t)
  }

  predicate AllStable(kids: seq<Tree>, layout: Layout, condense: bool) {
    if condense then TidyAll(kids) else layout == STREAM || NoTexts(kids)
  }

  lemma IndentGrows(depth: nat, layout: Layout)
    requires depth > 0
    ensures |layout.lineBreak + Indent(depth, layout)| == 0 <==> layout == STREAM
    ensures layout == STREAM ==> Indent(depth, layout) == "" && Indent(depth - 1, layout) == ""
  {
    if layout == STREAM {
      StreamIndents(depth);
      StreamIndents(depth - 1);
    }
  }

  lemma {:induction false} StreamIndents(depth: nat)
    ensures Indent(depth, STREAM) == ""
  {
    if depth > 0 {
      StreamIndents(depth - 1);
    }
  }

  lemma TextStable(v: string, depth: nat, layout: Layout, behind: string, condense: bool)
    requires depth > 0 && (layout == STREAM ==> behind == "")
    ensures DeliveredText(v, depth, layout, behind, condense) == v <==> if condense then Tidy(v) else layout == STREAM
  {
    if condense {
      CondenseKeeps(v);
    } else {
      IndentGrows(depth, layout);
      if layout == STREAM {
        assert "" + (v + ("" + "")) == v;
      }
    }
  }

  lemma {:induction false} DeliveredStable(t: Tree, depth: nat, layout: Layout, condense: bool)
    requires !PlainText(t)
    ensures Delivered(t, depth, layout, condense) == t <==> Stable(t, layout, condense)
    decreases t, 1
  {
    if t.Element? {
      if Simple(t.kids) {
        var kid := t.kids[0];
        var v := if condense then CondensedText(kid.value) else kid.value;
        CondenseKeeps(kid.value);
        SameFirst(Text(v, false), [], kid, []);
        PlainTidy(kid);
        assert TidyAll(t.kids) <==> TidyTree(kid) && TidyAll(t.kids[1..]);
        assert t.kids == [kid] + [] && t.kids[1..] == [] && [Text(v, false)] + [] == [Text(v, false)];
      } else {
        IndentGrows(depth + 1, layout);
        AllDeliveredStable(t.kids, depth + 1, layout, Indent(depth, layout), condense);
      }
    }
  }

  lemma {:induction false} AllDeliveredStable(kids: seq<Tree>, depth: nat, layout: Layout, close: string,
                                              condense: bool)
    requires (depth > 0 || forall i :: 0 <= i < |kids| ==> !PlainText(kids[i])) && (layout == STREAM ==> close == "")
    ensures DeliveredAll(kids, depth, layout, close, condense) == kids <==> AllStable(kids, layout, condense)
    decreases kids, 0
  {
    if kids != [] {
      AllDeliveredStable(kids[1..], depth, layout, close, condense);
      if PlainText(kids[0]) {
        IndentGrows(depth, layout);
        TextStable(kids[0].value, depth, layout, if |kids| == 1 then close else Indent(depth, layout), condense);
      } else {
        DeliveredStable(kids[0], depth, layout, condense);
      }
      var all := DeliveredAll(kids, depth, layout, close, condense);
      var more := DeliveredAll(kids[1..], depth, layout, close, condense);
      assert all == [all[0]] + more && kids == [kids[0]] + kids[1..];
      SameFirst(all[0], more, kids[0], kids[1..]);
      FirstStable(kids, layout, condense);
    }
  }

  lemma FirstStable(kids: seq<Tree>, layout: Layout, condense: bool)
    requires kids != []
    ensures AllStable(kids, layout, condense) <==>
      && AllStable(kids[1..], layout, condense)
      && if PlainText(kids[0]) then if condense then Tidy(kids[0].value) else layout == STREAM
         else Stable(kids[0], layout, condense)
  {
    var t := kids[0];
    PlainTidy(t);
    assert TidyAll(kids) <==> TidyTree(t) && TidyAll(kids[1..]);
    assert NoTexts(kids) <==> !PlainText(t) && LoneTexts(t) && NoTexts(kids[1..]);
  }

  lemma PlainTidy(t: Tree)
    ensures PlainText(t) ==> (TidyTree(t) <==> Tidy(t.value))
  {
  }

  /** The tree comes back unchanged exactly when, for a parser that condenses, every plain text is
      tidy (no space at either end, no two in a row), and for one that keeps white space, the layout
      is that of stream printing or no plain text has siblings. */
  lemma UnchangedRoundTrip(t: Tree, depth: nat, layout: Layout, rest: string, cfg: Config)
    requires Valid(t, cfg.enc) && !PlainText(t) && Blank(layout)
    ensures ParseNode(Core(t, depth, layout) + rest, cfg) == Done(t, rest) <==> Stable(t, layout, cfg.condense)
  {
    RoundTrip(t, depth, layout, rest, cfg);
    DeliveredStable(t, depth, layout, cfg.condense);
  }
}
