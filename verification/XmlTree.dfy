/**
 Document trees as values, what TiXmlPrinter makes of them and what the parser makes of text.
 The heap structures and the code that walks them are in XmlDom and XmlParser.
 */
module XmlTree {
  import opened XmlText
  import opened XmlEscape

  datatype Attr = Attr(name: string, value: string)

  datatype Tree =
    | Element(name: string, attrs: seq<Attr>, kids: seq<Tree>)
    | Text(value: string, cdata: bool)
    | Comment(value: string)
    | Unknown(value: string)
    | Document(kids: seq<Tree>)

  predicate UniqueNames(attrs: seq<Attr>) {
    forall i, j :: 0 <= i < j < |attrs| ==> attrs[i].name != attrs[j].name
  }

  /** The value of an attribute changes in place; a new attribute goes to the end. */
  function SetAttr(attrs: seq<Attr>, name: string, value: string): seq<Attr> {
    if attrs == [] then [Attr(name, value)]
    else if attrs[0].name == name then [Attr(name, value)] + attrs[1..]
    else [attrs[0]] + SetAttr(attrs[1..], name, value)
  }

  lemma {:induction false} SetNew(attrs: seq<Attr>, name: string, value: string)
    requires forall i :: 0 <= i < |attrs| ==> attrs[i].name != name
    ensures SetAttr(attrs, name, value) == attrs + [Attr(name, value)]
  {
    if attrs != [] {
      SetNew(attrs[1..], name, value);
      assert attrs == [attrs[0]] + attrs[1..];
    }
  }

  lemma {:induction false} SetOld(attrs: seq<Attr>, name: string, value: string)
    requires HasAttr(attrs, name)
    ensures var r := SetAttr(attrs, name, value);
      |r| == |attrs| && forall i :: 0 <= i < |r| ==> r[i].name == attrs[i].name
  {
    if attrs[0].name != name {
      var i :| 0 <= i < |attrs| && attrs[i].name == name;
      assert attrs[1..][i - 1].name == name;
      SetOld(attrs[1..], name, value);
    }
  }

  predicate PlainText(t: Tree) { t.Text? && !t.cdata }

  /** The number of nodes. */
  function Size(t: Tree): (n: nat)
    ensures n > 0
    decreases t, 0
  {
    1 + if t.Element? || t.Document? then SizeAll(t.kids) else 0
  }

  function SizeAll(kids: seq<Tree>): nat { if kids == [] then 0 else Size(kids[0]) + SizeAll(kids[1..]) }

  lemma {:induction false} SizeOfKid(kids: seq<Tree>, i: nat)
    requires i < |kids|
    ensures Size(kids[i]) <= SizeAll(kids)
  {
    if i > 0 { SizeOfKid(kids[1..], i - 1); }
  }

  // ---------------------------------------------------------------- printing

  /** The strings that TiXmlPrinter puts before and after each node. */
  datatype Layout = Layout(indent: string, lineBreak: string)

  /** SetStreamPrinting. */
  const STREAM := Layout("", "")

  function Indent(depth: nat, layout: Layout): string {
    if depth == 0 then "" else layout.indent + Indent(depth - 1, layout)
  }

  function Quote(value: string): char { if '"' in value then '\'' else '"' }

  function PrintAttr(a: Attr): string {
    Escape(a.name) + ("=" + ([Quote(a.value)] + (Escape(a.value) + [Quote(a.value)])))
  }

  predicate BlankAttr(a: Attr) { a.name == "" && a.value == "" }

  /** Attribute iteration stops at an attribute whose name and value are both empty, because
      Next takes it for the sentinel; First does not. */
  function Visible(attrs: seq<Attr>): (r: seq<Attr>)
    ensures |r| <= |attrs|
  {
    if attrs == [] then [] else attrs[..FirstBlank(attrs, 1)]
  }

  function FirstBlank(attrs: seq<Attr>, i: nat): (k: nat)
    requires i <= |attrs|
    ensures i <= k <= |attrs| && (k < |attrs| ==> BlankAttr(attrs[k]))
    ensures forall j :: i <= j < k ==> !BlankAttr(attrs[j])
    decreases |attrs| - i
  {
    if i == |attrs| || BlankAttr(attrs[i]) then i else FirstBlank(attrs, i + 1)
  }

  /** Clone copies what iteration shows of an element's attributes, and everything else. */
  function CloneOf(t: Tree): Tree
    decreases t, 0
  {
    match t
    case Element(name, attrs, kids) => Element(name, Visible(attrs), CloneAll(kids))
    case Document(kids) => Document(CloneAll(kids))
    case _ => t
  }

  function CloneAll(kids: seq<Tree>): (r: seq<Tree>)
    ensures |r| == |kids|
  {
    if kids == [] then [] else [CloneOf(kids[0])] + CloneAll(kids[1..])
  }

  lemma {:induction false} CloneAt(kids: seq<Tree>, i: nat)
    requires i < |kids|
    ensures CloneAll(kids)[i] == CloneOf(kids[i])
  {
    if i > 0 { CloneAt(kids[1..], i - 1); }
  }

  function PrintAttrs(attrs: seq<Attr>): string {
    if attrs == [] then "" else " " + (PrintAttr(attrs[0]) + PrintAttrs(attrs[1..]))
  }

  /** An element whose only child is plain text is printed on one line. */
  predicate Simple(kids: seq<Tree>) { |kids| == 1 && PlainText(kids[0]) }

  /** What lies between the indentation and the line break of a node. */
  function Core(t: Tree, depth: nat, layout: Layout): string
    decreases t, 1
  {
    match t
    case Text(v, cdata) => if cdata then "<![CDATA[" + (v + "]]>") else Escape(v)
    case Comment(v) => "<!--" + (v + "-->")
    case Unknown(v) => "<" + (v + ">")
    case Document(kids) => PrintAll(kids, depth, layout)
    case Element(name, attrs, kids) =>
      "<" + (name + (PrintAttrs(Visible(attrs)) + ElementBody(t, depth, layout)))
  }

  /** The text of an element from behind its attributes. */
  function ElementBody(t: Tree, depth: nat, layout: Layout): string
    requires t.Element?
    decreases t, 0
  {
    if t.kids == [] then " />"
    else if Simple(t.kids) then ">" + (Escape(t.kids[0].value) + EndTag(t.name))
    else ">" + (layout.lineBreak + (PrintAll(t.kids, depth + 1, layout) + (Indent(depth, layout) + EndTag(t.name))))
  }

  function EndTag(name: string): string { "</" + (name + ">") }

  function Print(t: Tree, depth: nat, layout: Layout): string
    decreases t, 2
  {
    if t.Document? then Core(t, depth, layout)
    else Indent(depth, layout) + (Core(t, depth, layout) + layout.lineBreak)
  }

  function PrintAll(kids: seq<Tree>, depth: nat, layout: Layout): string {
    if kids == [] then "" else Print(kids[0], depth, layout) + PrintAll(kids[1..], depth, layout)
  }

  // ---------------------------------------------------------------- parsing

  datatype Config = Config(enc: Encoding, condense: bool)

  /** The outcome of a parsing function: the node and the text after it, the null pointer of a
      syntax error, a pointer that was read after it had left the string, or an XML
      declaration, which this model does not read. */
  datatype Parsed<T> = Done(v: T, rest: string) | Error | OffEnd | Declaration

  datatype Kind = ElementKind | TextKind | CDataKind | CommentKind | UnknownKind | DocumentKind | DeclarationKind

  function ToLower(c: char): char {
    if 'A' <= c <= 'Z' then (c as int + 32) as char else c
  }

  predicate EqualIgnoringCase(p: string, tag: string) {
    |tag| <= |p| && forall i :: 0 <= i < |tag| ==> ToLower(p[i]) == ToLower(tag[i])
  }

  /** TiXmlNode::Identify, on text that starts with `<`. */
  function Identify(p: string): Kind {
    if EqualIgnoringCase(p, "<?xml") then DeclarationKind
    else if StringEqual(p, "<!--") then CommentKind
    else if StringEqual(p, "<![CDATA[") then CDataKind
    else if StringEqual(p, "<!") then UnknownKind
    else if |p| > 1 && NameStart(p[1]) then ElementKind
    else UnknownKind
  }

  /** Text up to an end tag, with no character interpreted. */
  function RawUntil(p: string, end: string): (r: Read)
    ensures r.Read? ==> |r.rest| + |end| <= |p|
  {
    if p == "" then Unterminated("")
    else if StringEqual(p, end) then Read("", p[|end|..])
    else RawUntil(p[1..], end).Prepend([p[0]])
  }

  function ParseComment(p: string): (r: Parsed<Tree>)
    ensures r.Done? ==> |r.rest| < |p|
  {
    if !StringEqual(p, "<!--") then Error
    else match RawUntil(p[4..], "-->")
      case Read(v, q) => Done(Comment(v), q)
      case _ => OffEnd
  }

  function ParseCData(p: string): (r: Parsed<Tree>)
    ensures r.Done? ==> |r.rest| < |p|
  {
    if !StringEqual(p, "<![CDATA[") then Error
    else match RawUntil(p[9..], "]]>")
      case Read(v, q) => Done(Text(v, true), q)
      case _ => OffEnd
  }

  /** The end tag of plain text is `<`, which stays; at the terminator the pointer also ends up
      where it should. */
  function ParseText(p: string, cfg: Config): (r: Parsed<Tree>)
    ensures r.Done? && p != "" && p[0] != '<' ==> |r.rest| < |p|
    ensures r.Done? ==> r.v.Text?
  {
    match Reading(p, true, "<", cfg.enc, cfg.condense)
    case Read(v, q) => Done(Text(v, false), "<" + q)
    case Unterminated(v) => Done(Text(v, false), "")
    case Null(_) => Error
    case Wild => OffEnd
  }

  /** TiXmlUnknown::Parse tolerates a missing `>`. */
  function ParseUnknown(p: string): (r: Parsed<Tree>)
    ensures r.Done? ==> |r.rest| < |p|
  {
    if p == "" || p[0] != '<' then Error
    else match RawUntil(p[1..], ">")
      case Read(v, q) => Done(Tree.Unknown(v), q)
      case Unterminated(v) => Done(Tree.Unknown(v), "")
      case _ => OffEnd
  }

  lemma SkipTag(p: string, enc: Encoding)
    ensures p != "" && p[0] == '<' ==> Skip(p, enc) == p
    ensures Skip(p, enc) != "" ==> p != ""
  {
  }

  /** An attribute value without quotes; a quote inside it is an error. */
  function Unquoted(p: string): (r: Parsed<string>)
    ensures r.Done? ==> |r.rest| <= |p|
  {
    if p == "" || IsWhiteSpace(p[0]) || p[0] == '/' || p[0] == '>' then Done("", p)
    else if p[0] == '\'' || p[0] == '"' then Error
    else
      match Unquoted(p[1..])
      case Done(v, q) => Done([p[0]] + v, q)
      case _ => Error
  }

  function ParseAttrValue(p: string, cfg: Config): (r: Parsed<string>)
    requires p != ""
    ensures r.Done? ==> |r.rest| <= |p|
  {
    if p[0] == '\'' || p[0] == '"' then
      match Reading(p[1..], false, [p[0]], cfg.enc, cfg.condense)
      case Read(v, q) => Done(v, q)
      case Unterminated(_) => OffEnd
      case Null(_) => Error
      case Wild => OffEnd
    else Unquoted(p)
  }

  function ParseAttr(p: string, cfg: Config): (r: Parsed<Attr>)
    ensures r.Done? ==> |r.rest| < |p|
  {
    var start := Skip(p, cfg.enc);
    if start == "" || !NameStart(start[0]) then Error
    else
      var n := NameRun(start);
      var equals := Skip(start[n..], cfg.enc);
      if equals == "" || equals[0] != '=' then Error
      else
        var quoted := Skip(equals[1..], cfg.enc);
        if quoted == "" then Error
        else match ParseAttrValue(quoted, cfg)
          case Done(v, q) => Done(Attr(start[..n], v), q)
          case Error => Error
          case OffEnd => OffEnd
          case Declaration => Error
  }

  predicate HasAttr(attrs: seq<Attr>, name: string) { exists i :: 0 <= i < |attrs| && attrs[i].name == name }

  /** After the children comes the end tag. */
  function Finished(name: string, attrs: seq<Attr>, kids: Parsed<seq<Tree>>): (r: Parsed<Tree>)
    ensures r.Done? ==> kids.Done? && |r.rest| <= |kids.rest|
  {
    match kids
    case Done(ts, end) =>
      if StringEqual(end, EndTag(name)) then Done(Element(name, attrs, ts), end[|EndTag(name)|..]) else Error
    case Error => Error
    case OffEnd => OffEnd
    case Declaration => Declaration
  }

  /** TiXmlElement::Parse, up to and including the name. */
  function ParseElement(p: string, cfg: Config): (r: Parsed<Tree>)
    ensures r.Done? ==> |r.rest| < |p|
    decreases |p|, 1
  {
    var open := Skip(p, cfg.enc);
    if open == "" || open[0] != '<' then Error
    else
      var start := Skip(open[1..], cfg.enc);
      if start == "" || !NameStart(start[0]) then Error
      else
        var n := NameRun(start);
        if n == |start| then Error
        else ParseAttrs(start[n..], start[..n], [], cfg)
  }

  /** The attribute loop of TiXmlElement::Parse. */
  function ParseAttrs(p: string, name: string, attrs: seq<Attr>, cfg: Config): (r: Parsed<Tree>)
    ensures r.Done? ==> |r.rest| < |p|
    decreases |p|, 0
  {
    var q := Skip(p, cfg.enc);
    if q == "" then Error
    else if q[0] == '/' then
      if |q| > 1 && q[1] == '>' then Done(Element(name, attrs, []), q[2..]) else Error
    else if q[0] == '>' then
      Finished(name, attrs, ParseNodes(q[1..], cfg))
    else
      match ParseAttr(q, cfg)
      case Done(a, more) =>
        if more == "" || HasAttr(attrs, a.name) then Error
        else ParseAttrs(more, name, attrs + [a], cfg)
      case Error => Error
      case OffEnd => OffEnd
      case Declaration => Error
  }

  /** TiXmlElement::ReadValue: the children up to the next `</`. */
  function ParseNodes(p: string, cfg: Config): (r: Parsed<seq<Tree>>)
    ensures r.Done? ==> |r.rest| <= |p|
    decreases |p|, 3
  {
    var q := Skip(p, cfg.enc);
    if q == "" then Error
    else if q[0] != '<' then
      SkipTag(p, cfg.enc);
      match ParseText(if cfg.condense then q else p, cfg)
      case Done(t, more) =>
        if AllWhite(t.value) then ParseNodes(more, cfg)
        else AddFirst(t, ParseNodes(more, cfg))
      case Error => Error
      case OffEnd => OffEnd
      case Declaration => Error
    else if StringEqual(q, "</") then Done([], q)
    else
      match ParseNode(q, cfg)
      case Done(t, more) => AddFirst(t, ParseNodes(more, cfg))
      case Error => Error
      case OffEnd => OffEnd
      case Declaration => Declaration
  }

  function AddFirst(t: Tree, r: Parsed<seq<Tree>>): Parsed<seq<Tree>> {
    match r
    case Done(ts, q) => Done([t] + ts, q)
    case _ => r
  }

  /** Children that were read before. */
  function AddAll(ts: seq<Tree>, r: Parsed<seq<Tree>>): Parsed<seq<Tree>> {
    match r
    case Done(more, q) => Done(ts + more, q)
    case _ => r
  }

  function ParseNode(p: string, cfg: Config): (r: Parsed<Tree>)
    ensures r.Done? ==> |r.rest| < |p|
    decreases |p|, 2
  {
    match Identify(p)
    case ElementKind => ParseElement(p, cfg)
    case CommentKind => ParseComment(p)
    case CDataKind => ParseCData(p)
    case UnknownKind => ParseUnknown(p)
    case _ => Declaration
  }

  // ---------------------------------------------------------------- cloning

  /** No attribute is hidden from iteration. */
  predicate AllVisible(t: Tree)
    decreases t, 0
  {
    match t
    case Element(_, attrs, kids) => (forall i :: 1 <= i < |attrs| ==> !BlankAttr(attrs[i])) && EachVisible(kids)
    case Document(kids) => EachVisible(kids)
    case _ => true
  }

  predicate EachVisible(kids: seq<Tree>) { kids == [] || (AllVisible(kids[0]) && EachVisible(kids[1..])) }

  /** A clone is equal to the original exactly when no attribute is hidden from iteration. */
  lemma {:induction false} CloneIsEqual(t: Tree)
    ensures CloneOf(t) == t <==> AllVisible(t)
    decreases t, 0
  {
    match t
    case Element(_, attrs, kids) =>
      CloneAllIsEqual(kids);
      if attrs != [] && FirstBlank(attrs, 1) == |attrs| { assert attrs[..|attrs|] == attrs; }
    case Document(kids) => CloneAllIsEqual(kids);
    case _ =>
  }

  lemma {:induction false} CloneAllIsEqual(kids: seq<Tree>)
    ensures CloneAll(kids) == kids <==> EachVisible(kids)
  {
    if kids != [] {
      CloneIsEqual(kids[0]);
      CloneAllIsEqual(kids[1..]);
      SameFirst(CloneOf(kids[0]), CloneAll(kids[1..]), kids[0], kids[1..]);
      assert kids == [kids[0]] + kids[1..];
    }
  }

  lemma SameFirst(a: Tree, x: seq<Tree>, b: Tree, y: seq<Tree>)
    ensures [a] + x == [b] + y <==> a == b && x == y
  {
    if [a] + x == [b] + y {
      assert ([a] + x)[0] == ([b] + y)[0];
      assert ([a] + x)[1..] == x && ([b] + y)[1..] == y;
    }
  }
}
