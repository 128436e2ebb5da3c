/**
 The parser: a recursive walk over the text that builds nodes on the heap.
 */
module XmlParser {
  import opened Sequences
  import opened XmlText
  import opened XmlTree
  import opened XmlDom

  /** The pointer a Parse method returns: into the text, null, or out of the string. */
  datatype Pointer = To(p: string) | NullPointer | Outside | Unread

  ghost predicate Agrees<T>(r: Pointer, spec: Parsed<T>) {
    match spec
    case Done(_, rest) => r == To(rest)
    case Error => r == NullPointer
    case OffEnd => r == Outside
    case Declaration => r == Unread
  }

  /** The loop `while (p && *p && !StringEqual(p, endTag)) value += *p++`. */
  method ReadRaw(start: string, end: string) returns (r: Read)
    ensures r == RawUntil(start, end)
  {
    var p, value := start, "";
    PrependNothing(RawUntil(start, end));
    while p != "" && !StringEqual(p, end)
      invariant RawUntil(start, end) == RawUntil(p, end).Prepend(value)
      decreases |p|
    {
      PrependTwice(RawUntil(p[1..], end), [p[0]], value);
      value, p := value + [p[0]], p[1..];
    }
    if p == "" { return Unterminated(value); }
    return Read(value, p[|end|..]);
  }

  /** TiXmlComment::Parse. */
  method ParseCommentNode(node: Node, start: string, cfg: Config) returns (r: Pointer)
    requires start != "" && start[0] == '<'
    modifies node`value
    ensures Agrees(r, ParseComment(start))
    ensures ParseComment(start).Done? ==> ParseComment(start).v == Comment(node.value)
  {
    if !StringEqual(start, "<!--") { return NullPointer; }
    var raw := ReadRaw(start[4..], "-->");
    match raw {
      case Read(value, p) =>
        node.value := value;
        r := To(p);
      case Unterminated(value) =>
        node.value := value;
        r := Outside;
      case _ => r := Outside;
    }
  }

  /** TiXmlText::Parse. */
  method ParseTextNode(node: Node, start: string, cfg: Config) returns (r: Pointer)
    requires node.cdata || !StringEqual(start, "<![CDATA[")
    modifies node`value
    ensures var spec := if node.cdata then ParseCData(start) else ParseText(start, cfg);
            Agrees(r, spec) && (spec.Done? ==> spec.v == Text(node.value, node.cdata))
  {
    if node.cdata {
      if !StringEqual(start, "<![CDATA[") { return NullPointer; }
      var raw := ReadRaw(start[9..], "]]>");
      match raw {
        case Read(value, p) =>
          node.value := value;
          r := To(p);
        case Unterminated(value) =>
          node.value := value;
          r := Outside;
        case _ => r := Outside;
      }
    } else {
      var read := ReadText(start, true, "<", cfg.enc, cfg.condense);
      match read {
        case Read(value, p) =>
          node.value := value;
          r := To("<" + p);
        case Unterminated(value) =>
          node.value := value;
          r := To("");
        case Null(value) =>
          node.value := value;
          r := NullPointer;
        case Wild => r := Outside;
      }
    }
  }

  /** TiXmlUnknown::Parse. */
  method ParseUnknownNode(node: Node, start: string) returns (r: Pointer)
    modifies node`value
    ensures Agrees(r, ParseUnknown(start))
    ensures ParseUnknown(start).Done? ==> ParseUnknown(start).v == Tree.Unknown(node.value)
  {
    if start == "" || start[0] != '<' { return NullPointer; }
    var raw := ReadRaw(start[1..], ">");
    match raw {
      case Read(value, p) =>
        node.value := value;
        r := To(p);
      case Unterminated(value) =>
        node.value := value;
        r := To("");
      case _ => r := Outside;
    }
  }

  /** The value of an attribute, in quotes or without them. */
  method ReadAttrValue(start: string, cfg: Config) returns (r: Pointer, value: string)
    requires start != ""
    ensures Agrees(r, ParseAttrValue(start, cfg))
    ensures ParseAttrValue(start, cfg).Done? ==> ParseAttrValue(start, cfg).v == value
  {
    value := "";
    if start[0] == '\'' || start[0] == '"' {
      var read := ReadText(start[1..], false, [start[0]], cfg.enc, cfg.condense);
      match read {
        case Read(v, p) => return To(p), v;
        case Unterminated(_) => return Outside, "";
        case Null(_) => return NullPointer, "";
        case Wild => return Outside, "";
      }
    }
    var p := start;
    AfterNothing(Unquoted(start));
    while p != "" && !IsWhiteSpace(p[0]) && p[0] != '/' && p[0] != '>'
      invariant Unquoted(start) == After(value, Unquoted(p))
      decreases |p|
    {
      if p[0] == '\'' || p[0] == '"' { return NullPointer, ""; }
      AfterTwice(value, [p[0]], Unquoted(p[1..]));
      value, p := value + [p[0]], p[1..];
    }
    return To(p), value;
  }

  function After(value: string, r: Parsed<string>): Parsed<string> {
    match r
    case Done(v, q) => Done(value + v, q)
    case _ => r
  }

  lemma AfterNothing(r: Parsed<string>)
    ensures After("", r) == r
  {
    if r.Done? { assert "" + r.v == r.v; }
  }

  lemma AfterTwice(value: string, c: string, r: Parsed<string>)
    ensures After(value, After(c, r)) == After(value + c, r)
  {
    if r.Done? { Associate(value, c, r.v); }
  }

  /** TiXmlAttribute::Parse. */
  method ParseAttribute(start: string, cfg: Config) returns (r: Pointer, a: Attr)
    ensures Agrees(r, ParseAttr(start, cfg))
    ensures ParseAttr(start, cfg).Done? ==> ParseAttr(start, cfg).v == a
  {
    a := Attr("", "");
    var nil, p := SkipWhiteSpace(start, cfg.enc);
    if nil || p == "" { return NullPointer, a; }
    var name;
    nil, name, p := ReadName(p);
    if nil || p == "" { return NullPointer, a; }
    nil, p := SkipWhiteSpace(p, cfg.enc);
    if nil || p == "" || p[0] != '=' { return NullPointer, a; }
    nil, p := SkipWhiteSpace(p[1..], cfg.enc);
    if nil || p == "" { return NullPointer, a; }
    var value;
    r, value := ReadAttrValue(p, cfg);
    a := Attr(name, value);
  }

  // ---------------------------------------------------------------- elements

  /** A node that was just made by Identify. */
  ghost predicate Fresh(node: Node)
    reads node
  {
    && node.kids == [] && node.attributes == [] && node.parent == null
    && node.firstChild == null && node.lastChild == null
  }

  lemma FreshIsLinked(node: Node)
    requires Fresh(node)
    ensures WellLinked({node})
  {
    assert NodeOk(node, {node});
  }

  /** TiXmlNode::Identify: a node of the right kind, or null for a declaration. */
  method IdentifyNode(p: string) returns (node: Node?)
    ensures node == null <==> Identify(p) == DeclarationKind
    ensures node != null ==>
              fresh(node) && Fresh(node) && node.kind == (if Identify(p) == CDataKind then TextKind else Identify(p))
              && (node.cdata <==> Identify(p) == CDataKind)
  {
    var kind := Identify(p);
    if kind == DeclarationKind { return null; }
    node := new Node(if kind == CDataKind then TextKind else kind, "");
    node.cdata := kind == CDataKind;
  }

  /** The Parse method of the node that Identify made. `N` is the node and all below it, which show
      the tree `t` even when the parse failed. */
  method ParseInto(node: Node, p: string, cfg: Config) returns (r: Pointer, ghost N: set<Node>, ghost t: Tree)
    requires p != "" && p[0] == '<' && Fresh(node) && Identify(p) != DeclarationKind
    requires node.kind == (if Identify(p) == CDataKind then TextKind else Identify(p))
    requires node.cdata <==> Identify(p) == CDataKind
    modifies node
    ensures Agrees(r, ParseNode(p, cfg))
    ensures node in N && fresh(N - {node}) && WellLinked(N) && node.parent == null
    ensures Shows(node, t, N) && (r.To? ==> t == ParseNode(p, cfg).v)
    decreases |p|, 2
  {
    FreshIsLinked(node);
    N := {node};
    if node.kind == ElementKind {
      r, N, t := ParseElementNode(node, p, cfg);
      return;
    } else if node.kind == CommentKind {
      r := ParseCommentNode(node, p, cfg);
      t := Comment(node.value);
    } else if node.kind == TextKind {
      r := ParseTextNode(node, p, cfg);
      t := Text(node.value, node.cdata);
    } else {
      r := ParseUnknownNode(node, p);
      t := Tree.Unknown(node.value);
    }
    FreshIsLinked(node);
  }

  /** TiXmlElement::Parse. */
  method ParseElementNode(node: Node, start: string, cfg: Config)
    returns (r: Pointer, ghost N: set<Node>, ghost t: Tree)
    requires Fresh(node) && node.kind == ElementKind
    modifies node`value, node`attributes, node`firstChild, node`lastChild, node`kids
    ensures Agrees(r, ParseElement(start, cfg))
    ensures node in N && fresh(N - {node}) && WellLinked(N) && node.parent == null
    ensures Shows(node, t, N) && (r.To? ==> t == ParseElement(start, cfg).v)
    decreases |start|, 1
  {
    FreshIsLinked(node);
    N, t := {node}, Element(node.value, [], []);
    var nil, p := SkipWhiteSpace(start, cfg.enc);
    if nil || p == "" || p[0] != '<' { return NullPointer, N, t; }
    nil, p := SkipWhiteSpace(p[1..], cfg.enc);
    var name;
    nil, name, p := ReadName(p);
    if nil { return NullPointer, N, t; }
    node.value := name;
    FreshWithAttributes(node);
    if p == "" { return NullPointer, N, Element(name, [], []); }
    r, N, t := ReadTag(node, p, name, cfg);
  }

  /** The loop of TiXmlElement::Parse over what follows the name of the element. */
  method ReadTag(node: Node, start: string, name: string, cfg: Config)
    returns (r: Pointer, ghost N: set<Node>, ghost t: Tree)
    requires Fresh(node) && node.kind == ElementKind && node.value == name
    modifies node`attributes, node`firstChild, node`lastChild, node`kids
    ensures Agrees(r, ParseAttrs(start, name, [], cfg))
    ensures node in N && fresh(N - {node}) && WellLinked(N) && node.parent == null
    ensures Shows(node, t, N) && (r.To? ==> t == ParseAttrs(start, name, [], cfg).v)
    decreases |start|, 0
  {
    FreshIsLinked(node);
    N, t := {node}, Element(name, [], []);
    var p := start;
    while true
      invariant |p| <= |start| && ParseAttrs(start, name, [], cfg) == ParseAttrs(p, name, node.attributes, cfg)
      invariant UniqueNames(node.attributes) && N == {node} && WellLinked(N) && node.value == name
      invariant node.kids == [] && node.parent == null && node.firstChild == null && node.lastChild == null
      invariant t == Element(name, node.attributes, [])
      decreases |p|
    {
      var nil;
      nil, p := SkipWhiteSpace(p, cfg.enc);
      if nil || p == "" { return NullPointer, N, t; }
      if p[0] == '/' {
        p := p[1..];
        if p == "" || p[0] != '>' { return NullPointer, N, t; }
        return To(p[1..]), N, t;
      } else if p[0] == '>' {
        ghost var ts;
        r, N, ts := ReadContent(node, p[1..], name, cfg);
        return r, N, Element(name, node.attributes, ts);
      }
      r := AddAttribute(node, p, cfg);
      FreshWithAttributes(node);
      t := Element(name, node.attributes, []);
      if !r.To? { return; }
      p := r.p;
    }
  }

  /** The branch of TiXmlElement::Parse for one attribute. A second attribute of a name gives its
      value to the first one before the parse fails. */
  method AddAttribute(node: Node, p: string, cfg: Config) returns (r: Pointer)
    requires p != "" && UniqueNames(node.attributes)
    modifies node`attributes
    ensures UniqueNames(node.attributes)
    ensures var attrs := old(node.attributes);
            match ParseAttr(p, cfg)
            case Done(a, more) =>
              if more == "" then r == NullPointer && node.attributes == attrs
              else if HasAttr(attrs, a.name) then r == NullPointer && node.attributes == SetAttr(attrs, a.name, a.value)
              else r == To(more) && node.attributes == attrs + [a]
            case OffEnd => r == Outside && node.attributes == attrs
            case _ => r == NullPointer && node.attributes == attrs
  {
    var a;
    r, a := ParseAttribute(p, cfg);
    match r {
      case To(q) =>
        if q == "" { return NullPointer; }
        if HasAttr(node.attributes, a.name) {
          SetOld(node.attributes, a.name, a.value);
          node.SetAttribute(a.name, a.value);
          return NullPointer;
        }
        node.attributes := node.attributes + [a];
      case Outside =>
      case _ => return NullPointer;
    }
  }

  /** The branch of TiXmlElement::Parse after the `>` of a start tag. */
  method ReadContent(node: Node, start: string, name: string, cfg: Config)
    returns (r: Pointer, ghost N: set<Node>, ghost ts: seq<Tree>)
    requires node.kids == [] && node.parent == null && WellLinked({node})
    modifies node`firstChild, node`lastChild, node`kids
    ensures Agrees(r, Finished(name, node.attributes, ParseNodes(start, cfg)))
    ensures node in N && fresh(N - {node}) && WellLinked(N) && node.parent == null
    ensures ShowsAll(node.kids, ts, N) && (r.To? ==> ts == ParseNodes(start, cfg).v)
    decreases |start|, 6
  {
    r, N, ts := ReadValue(node, start, cfg);
    if r.To? {
      if !StringEqual(r.p, EndTag(name)) { return NullPointer, N, ts; }
      r := To(r.p[|EndTag(name)|..]);
    }
  }

  lemma FreshWithAttributes(node: Node)
    requires UniqueNames(node.attributes) && node.kids == [] && node.parent == null
    requires node.firstChild == null && node.lastChild == null
    ensures WellLinked({node})
  {
    assert NodeOk(node, {node});
  }

  lemma AddNothing(r: Parsed<seq<Tree>>)
    ensures AddAll([], r) == r
  {
    if r.Done? { assert [] + r.v == r.v; }
  }

  lemma AddOne(done: seq<Tree>, t: Tree, r: Parsed<seq<Tree>>)
    ensures AddAll(done, AddFirst(t, r)) == AddAll(done + [t], r)
  {
    if r.Done? { assert done + ([t] + r.v) == (done + [t]) + r.v; }
  }

  /** LinkEndChild of a node that was just parsed. */
  method LinkParsed(node: Node, child: Node, ghost t: Tree, ghost M: set<Node>,
                    ghost done: seq<Tree>, ghost D: set<Node>)
    requires node !in D && WellLinked(D + {node}) && node.parent == null && ShowsAll(node.kids, done, D)
    requires child in M && M !! D && node !in M && WellLinked(M) && child.parent == null
    requires Shows(child, t, M) && !t.Document? && child.kind != DocumentKind
    modifies node`firstChild, node`lastChild, node`kids, child`parent, child`prev, child`next, D`next
    ensures WellLinked(D + M + {node}) && node.parent == null && ShowsAll(node.kids, done + [t], D + M)
  {
    Together(D + {node}, M);
    assert D + {node} + M == D + M + {node};
    ShowsAppended(node.kids, done, D, child, t, M);
    assert NodeOk(node, D + {node});
    node.ChildrenAreMine();
    var linked := node.LinkEndChild(child, D + M + {node});
  }

  lemma KindMatches(n: Node, t: Tree, S: set<Node>)
    requires Shows(n, t, S)
    ensures t.Document? <==> n.kind == DocumentKind
  {
  }

  /** What one turn of the loop of ReadValue leaves to be read, or how it ends. */
  ghost predicate TurnAgrees(r: Pointer, done: seq<Tree>, now: seq<Tree>, p: string, cfg: Config) {
    if r.To? then |r.p| < |p| && AddAll(done, ParseNodes(p, cfg)) == AddAll(now, ParseNodes(r.p, cfg))
    else Agrees(r, ParseNodes(p, cfg))
  }

  /** A turn on plain text, which is dropped when it is blank and linked otherwise, even if only the
      front of it could be read. */
  method ReadPlain(node: Node, pWithWhiteSpace: string, p: string, cfg: Config,
                   ghost D: set<Node>, ghost done: seq<Tree>)
    returns (r: Pointer, ghost E: set<Node>, ghost now: seq<Tree>)
    requires p == Skip(pWithWhiteSpace, cfg.enc) && p != "" && p[0] != '<'
    requires node !in D && WellLinked(D + {node}) && node.parent == null && ShowsAll(node.kids, done, D)
    modifies node`firstChild, node`lastChild, node`kids, D`next
    ensures D <= E && fresh(E - D) && node !in E && WellLinked(E + {node}) && node.parent == null
    ensures ShowsAll(node.kids, now, E) && TurnAgrees(r, done, now, pWithWhiteSpace, cfg)
  {
    E, now := D, done;
    SkipTag(pWithWhiteSpace, cfg.enc);
    var text := new Node(TextKind, "");
    var from := if cfg.condense then p else pWithWhiteSpace;
    NoCData(from);
    r := ParseTextNode(text, from, cfg);
    if !AllWhite(text.value) {
      FreshIsLinked(text);
      LinkParsed(node, text, Text(text.value, false), {text}, done, D);
      if r.To? { AddOne(done, Text(text.value, false), ParseNodes(r.p, cfg)); }
      E, now := D + {text}, done + [Text(text.value, false)];
    }
  }

  /** A turn on a node that starts with `<`. It is linked even if its parse failed. */
  method ReadNode(node: Node, pWithWhiteSpace: string, p: string, cfg: Config,
                  ghost D: set<Node>, ghost done: seq<Tree>)
    returns (r: Pointer, ghost E: set<Node>, ghost now: seq<Tree>)
    requires p == Skip(pWithWhiteSpace, cfg.enc) && p != "" && p[0] == '<' && !StringEqual(p, "</")
    requires node !in D && WellLinked(D + {node}) && node.parent == null && ShowsAll(node.kids, done, D)
    modifies node`firstChild, node`lastChild, node`kids, D`next
    ensures D <= E && fresh(E - D) && node !in E && WellLinked(E + {node}) && node.parent == null
    ensures ShowsAll(node.kids, now, E) && TurnAgrees(r, done, now, pWithWhiteSpace, cfg)
    decreases |pWithWhiteSpace|, 3
  {
    E, now := D, done;
    var child := IdentifyNode(p);
    if child == null {
      assert ParseNode(p, cfg) == Declaration;
      return Unread, E, now;
    }
    ghost var M, t;
    r, M, t := ParseInto(child, p, cfg);
    KindMatches(child, t, M);
    LinkParsed(node, child, t, M, done, D);
    if r.To? { AddOne(done, t, ParseNodes(r.p, cfg)); }
    E, now := D + M, done + [t];
  }

  lemma NoCData(p: string)
    requires p != "" && p[0] != '<'
    ensures !StringEqual(p, "<![CDATA[")
  {
  }

  /** One turn of the loop of ReadValue, away from an end tag. */
  method ReadTurn(node: Node, pWithWhiteSpace: string, p: string, cfg: Config,
                  ghost D: set<Node>, ghost done: seq<Tree>)
    returns (r: Pointer, ghost E: set<Node>, ghost now: seq<Tree>)
    requires p == Skip(pWithWhiteSpace, cfg.enc) && p != "" && !StringEqual(p, "</")
    requires node !in D && WellLinked(D + {node}) && node.parent == null && ShowsAll(node.kids, done, D)
    modifies node`firstChild, node`lastChild, node`kids, D`next
    ensures D <= E && fresh(E - D) && node !in E && WellLinked(E + {node}) && node.parent == null
    ensures ShowsAll(node.kids, now, E) && ShowsAll(node.kids, now, E + {node})
    ensures TurnAgrees(r, done, now, pWithWhiteSpace, cfg)
    decreases |pWithWhiteSpace|, 4
  {
    if p[0] != '<' {
      r, E, now := ReadPlain(node, pWithWhiteSpace, p, cfg, D, done);
    } else {
      r, E, now := ReadNode(node, pWithWhiteSpace, p, cfg, D, done);
    }
    ShowsAllMore(node.kids, now, E, E + {node});
  }

  /** TiXmlElement::ReadValue: the children, linked in the order in which they are read. */
  method ReadValue(node: Node, start: string, cfg: Config) returns (r: Pointer, ghost N: set<Node>, ghost ts: seq<Tree>)
    requires node.kids == [] && node.parent == null && WellLinked({node})
    modifies node`firstChild, node`lastChild, node`kids
    ensures Agrees(r, ParseNodes(start, cfg))
    ensures node in N && fresh(N - {node}) && WellLinked(N) && node.parent == null
    ensures ShowsAll(node.kids, ts, N) && (r.To? ==> ts == ParseNodes(start, cfg).v)
    decreases |start|, 5
  {
    var pWithWhiteSpace := start;
    var nil, p := SkipWhiteSpace(start, cfg.enc);
    ghost var D: set<Node> := {};
    N, ts := {node}, [];
    assert {} + {node} == {node};
    AddNothing(ParseNodes(start, cfg));
    while p != ""
      invariant |pWithWhiteSpace| <= |start| && p == Skip(pWithWhiteSpace, cfg.enc)
      invariant ParseNodes(start, cfg) == AddAll(ts, ParseNodes(pWithWhiteSpace, cfg))
      invariant node !in D && fresh(D) && N == D + {node} && WellLinked(N) && node.parent == null
      invariant ShowsAll(node.kids, ts, D) && ShowsAll(node.kids, ts, N)
      decreases |pWithWhiteSpace|
    {
      if StringEqual(p, "</") {
        assert ts + [] == ts;
        return To(p), N, ts;
      }
      r, D, ts := ReadTurn(node, pWithWhiteSpace, p, cfg, D, ts);
      N := D + {node};
      if !r.To? { return; }
      pWithWhiteSpace := r.p;
      nil, p := SkipWhiteSpace(pWithWhiteSpace, cfg.enc);
    }
    r := NullPointer;
  }
}
