/**
 Whole documents: TiXmlDocument::Parse, and printing a document on the heap into a string that
 another document is parsed from.
 */
module XmlDocument {
  import opened XmlText
  import opened XmlCondense
  import opened XmlTree
  import opened XmlRoundTrip
  import opened XmlDom
  import opened XmlPrinter
  import opened XmlParser

  /** The loop of TiXmlDocument::Parse, from text that is not white space. It stops, without an
      error, at text that is not a tag. */
  function ReadTop(p: string, cfg: Config): Parsed<seq<Tree>>
    decreases |p|
  {
    if p == "" || p[0] != '<' then Done([], p)
    else
      match ParseNode(p, cfg)
      case Done(t, more) => AddFirst(t, ReadTop(Skip(more, cfg.enc), cfg))
      case Error => Error
      case OffEnd => OffEnd
      case Declaration => Declaration
  }

  const MARK: string := [0xEF as char, 0xBB as char, 0xBF as char]

  /** An encoding that is not stated is UTF-8 if the text starts with the byte order mark. */
  function Known(p: string, cfg: Config): Config {
    if cfg.enc.Unstated? && StringEqual(p, MARK) then cfg.(enc := Utf8) else cfg
  }

  /** A document without a child is an error. */
  function ParseDocument(p: string, cfg: Config): Parsed<Tree> {
    match ReadTop(Skip(p, Known(p, cfg).enc), Known(p, cfg))
    case Done(kids, rest) => if kids == [] then Error else Done(Document(kids), rest)
    case Error => Error
    case OffEnd => OffEnd
    case Declaration => Declaration
  }

  /** Whether the pointer is null after the last node: SkipWhiteSpace turns the end of the text into
      null, unless there was white space in front of it. `nil` is what the last call said. */
  predicate TopIsNull(p: string, nil: bool, cfg: Config)
    decreases |p|
  {
    if p == "" || p[0] != '<' then nil
    else ParseNode(p, cfg).Done? ==>
      var more := ParseNode(p, cfg).rest;
      TopIsNull(Skip(more, cfg.enc), more == "", cfg)
  }

  /** The null pointer does not tell an error from success. */
  ghost predicate TopAgrees(r: Pointer, nil: bool, spec: Parsed<seq<Tree>>) {
    if spec.Done? then r == if nil then NullPointer else To(spec.rest) else Agrees(r, spec)
  }

  /** The pointer that TiXmlDocument::Parse returns. */
  ghost predicate DocumentAgrees(r: Pointer, p: string, cfg: Config) {
    var known := Known(p, cfg);
    match ParseDocument(p, cfg)
    case Done(_, rest) => r == if TopIsNull(Skip(p, known.enc), p == "", known) then NullPointer else To(rest)
    case Error => r == NullPointer
    case OffEnd => r == Outside
    case Declaration => r == Unread
  }

  /** A document has valid children, none of them plain text. */
  predicate ValidDocument(kids: seq<Tree>, cfg: Config) {
    kids != [] && ValidAll(kids, cfg.enc) && forall i :: 0 <= i < |kids| ==> !PlainText(kids[i])
  }

  lemma {:induction false} TopParsed(kids: seq<Tree>, pad: string, layout: Layout, rest: string, cfg: Config)
    requires ValidAll(kids, cfg.enc) && forall i :: 0 <= i < |kids| ==> !PlainText(kids[i])
    requires Blank(layout) && AllWhite(pad) && Skip(rest, cfg.enc) == rest && (rest != "" ==> rest[0] != '<')
    ensures ReadTop(Skip(pad + AllTo(kids, 0, layout, rest), cfg.enc), cfg)
         == Done(DeliveredAll(kids, 0, layout, "", cfg.condense), rest)
  {
    var p := AllTo(kids, 0, layout, rest);
    SkipPadding(pad, p, cfg.enc);
    if kids != [] {
      var next := layout.lineBreak + AllTo(kids[1..], 0, layout, rest);
      TopParsed(kids[1..], layout.lineBreak, layout, rest, cfg);
      assert p == CoreTo(kids[0], 0, layout, next);
      NodeParsed(kids[0], 0, layout, next, cfg);
      StartsTag(kids[0], 0, layout, next, cfg.enc);
      SkipTag(p, cfg.enc);
    }
  }

  /** Behind a printed document the pointer is null exactly when there is no line break behind the
      last node. */
  lemma {:induction false} TopEndsNull(kids: seq<Tree>, pad: string, layout: Layout, cfg: Config)
    requires ValidAll(kids, cfg.enc) && forall i :: 0 <= i < |kids| ==> !PlainText(kids[i])
    requires Blank(layout) && AllWhite(pad)
    ensures var p := pad + AllTo(kids, 0, layout, "");
      TopIsNull(Skip(p, cfg.enc), p == "", cfg) <==> if kids == [] then pad == "" else layout.lineBreak == ""
  {
    var p := AllTo(kids, 0, layout, "");
    SkipPadding(pad, p, cfg.enc);
    if kids != [] {
      var next := layout.lineBreak + AllTo(kids[1..], 0, layout, "");
      TopEndsNull(kids[1..], layout.lineBreak, layout, cfg);
      assert p == CoreTo(kids[0], 0, layout, next);
      NodeParsed(kids[0], 0, layout, next, cfg);
      StartsTag(kids[0], 0, layout, next, cfg.enc);
      SkipTag(p, cfg.enc);
    }
  }

  /** A printed document parses as a document with the same children, to the end of the text. */
  lemma DocumentRoundTrip(kids: seq<Tree>, layout: Layout, cfg: Config)
    requires ValidDocument(kids, cfg) && Blank(layout)
    ensures ParseDocument(Print(Document(kids), 0, layout), cfg)
         == Done(Document(DeliveredAll(kids, 0, layout, "", cfg.condense)), "")
  {
    TextBehindDocument(kids, layout, "", cfg);
    assert PrintAll(kids, 0, layout) + "" == PrintAll(kids, 0, layout);
  }

  /** A printed document starts with a tag, so nothing is taken for a mark. */
  lemma PrintedStarts(kids: seq<Tree>, layout: Layout, rest: string, cfg: Config)
    requires ValidDocument(kids, cfg)
    ensures var p := PrintAll(kids, 0, layout) + rest;
      p == AllTo(kids, 0, layout, rest) && p != "" && p[0] == '<' && Known(p, cfg) == cfg
  {
    AllOnto(kids, 0, layout, rest, cfg.enc);
    StartsTag(kids[0], 0, layout, layout.lineBreak + AllTo(kids[1..], 0, layout, rest), cfg.enc);
  }

  /** Text behind the last node ends the document and is left, without an error. */
  lemma TextBehindDocument(kids: seq<Tree>, layout: Layout, rest: string, cfg: Config)
    requires ValidDocument(kids, cfg) && Blank(layout)
    requires Skip(rest, cfg.enc) == rest && (rest != "" ==> rest[0] != '<')
    ensures ParseDocument(Print(Document(kids), 0, layout) + rest, cfg)
         == Done(Document(DeliveredAll(kids, 0, layout, "", cfg.condense)), rest)
  {
    PrintedStarts(kids, layout, rest, cfg);
    TopFromStart(kids, layout, rest, cfg);
    TopIsDocument(PrintAll(kids, 0, layout) + rest, DeliveredAll(kids, 0, layout, "", cfg.condense), rest, cfg);
  }

  lemma TopFromStart(kids: seq<Tree>, layout: Layout, rest: string, cfg: Config)
    requires ValidDocument(kids, cfg) && Blank(layout)
    requires Skip(rest, cfg.enc) == rest && (rest != "" ==> rest[0] != '<')
    ensures DeliveredAll(kids, 0, layout, "", cfg.condense) != []
    ensures ReadTop(Skip(AllTo(kids, 0, layout, rest), cfg.enc), cfg)
         == Done(DeliveredAll(kids, 0, layout, "", cfg.condense), rest)
  {
    var p := AllTo(kids, 0, layout, rest);
    TopParsed(kids, "", layout, rest, cfg);
    assert "" + p == p;
  }

  lemma TopIsDocument(p: string, kids: seq<Tree>, rest: string, cfg: Config)
    requires Known(p, cfg) == cfg && ReadTop(Skip(p, cfg.enc), cfg) == Done(kids, rest) && kids != []
    ensures ParseDocument(p, cfg) == Done(Document(kids), rest)
  {
  }

  /** Behind a byte order mark a document is read as UTF-8, if no encoding is stated; and if it is
      stated to be another, the mark is text and there is no document. */
  lemma MarkedDocument(kids: seq<Tree>, layout: Layout, condense: bool)
    requires ValidDocument(kids, Config(Utf8, condense)) && Blank(layout)
    ensures var p := [0xEF as char, 0xBB as char, 0xBF as char] + Print(Document(kids), 0, layout);
      && ParseDocument(p, Config(Unstated, condense))
         == Done(Document(DeliveredAll(kids, 0, layout, "", condense)), "")
      && ParseDocument(p, Config(Utf8, condense)) == ParseDocument(p, Config(Unstated, condense))
      && ParseDocument(p, Config(Legacy, condense)) == Error
  {
    var q := Print(Document(kids), 0, layout);
    var p := [0xEF as char, 0xBB as char, 0xBF as char] + q;
    DocumentRoundTrip(kids, layout, Config(Utf8, condense));
    assert StringEqual(p, MARK) && p[3..] == q;
    assert Skip(p, Utf8) == Skip(q, Utf8);
    assert Skip(p, Legacy) == p;
  }

  /** A document that was printed without line breaks is parsed to the null pointer of a failed
      parse, and any other one to the end of the text. */
  lemma PrintedEndsNull(kids: seq<Tree>, layout: Layout, cfg: Config, r: Pointer)
    requires ValidDocument(kids, cfg) && Blank(layout)
    requires DocumentAgrees(r, Print(Document(kids), 0, layout), cfg)
    ensures r == if layout.lineBreak == "" then NullPointer else To("")
  {
    var p := PrintAll(kids, 0, layout);
    DocumentRoundTrip(kids, layout, cfg);
    AllOnto(kids, 0, layout, "", cfg.enc);
    assert p + "" == p && "" + p == p;
    TopEndsNull(kids, "", layout, cfg);
    StartsTag(kids[0], 0, layout, layout.lineBreak + AllTo(kids[1..], 0, layout, ""), cfg.enc);
    assert p[0] == '<';
  }

  /** Exactly the stable documents come back unchanged. */
  lemma UnchangedDocument(kids: seq<Tree>, layout: Layout, cfg: Config)
    requires ValidDocument(kids, cfg) && Blank(layout)
    ensures ParseDocument(Print(Document(kids), 0, layout), cfg) == Done(Document(kids), "")
       <==> AllStable(kids, layout, cfg.condense)
  {
    DocumentRoundTrip(kids, layout, cfg);
    AllDeliveredStable(kids, 0, layout, "", cfg.condense);
  }

  // ---------------------------------------------------------------- on the heap

  /** One turn of the loop: a node is parsed and linked as the last child. */
  method ReadTopNode(doc: Node, p: string, cfg: Config, ghost D: set<Node>, ghost done: seq<Tree>)
    returns (r: Pointer, ghost E: set<Node>, ghost now: seq<Tree>)
    requires p != "" && p[0] == '<'
    requires doc !in D && WellLinked(D + {doc}) && doc.parent == null && ShowsAll(doc.kids, done, D)
    modifies doc`firstChild, doc`lastChild, doc`kids, D`next
    ensures D <= E && fresh(E - D) && doc !in E && WellLinked(E + {doc}) && doc.parent == null
    ensures ShowsAll(doc.kids, now, E) && ShowsAll(doc.kids, now, E + {doc})
    ensures if r.To? then |r.p| < |p| && AddAll(done, ReadTop(p, cfg)) == AddAll(now, ReadTop(Skip(r.p, cfg.enc), cfg))
            else Agrees(r, ReadTop(p, cfg)) && !ReadTop(p, cfg).Done?
    ensures r.To? ==> forall nil :: TopIsNull(p, nil, cfg) == TopIsNull(Skip(r.p, cfg.enc), r.p == "", cfg)
  {
    E, now := D, done;
    var child := IdentifyNode(p);
    if child == null {
      assert ParseNode(p, cfg) == Declaration;
      ShowsAllMore(doc.kids, now, E, E + {doc});
      return Unread, E, now;
    }
    ghost var M, t;
    r, M, t := ParseInto(child, p, cfg);
    KindMatches(child, t, M);
    LinkParsed(doc, child, t, M, done, D);
    E, now := D + M, done + [t];
    ShowsAllMore(doc.kids, now, E, E + {doc});
    if r.To? { AddOne(done, t, ReadTop(Skip(r.p, cfg.enc), cfg)); }
  }

  /** The loop of TiXmlDocument::Parse. Whatever the outcome, the nodes show a tree. */
  method ReadTopNodes(doc: Node, start: string, isNull: bool, cfg: Config)
    returns (r: Pointer, ghost N: set<Node>, ghost ts: seq<Tree>)
    requires Fresh(doc)
    modifies doc`firstChild, doc`lastChild, doc`kids
    ensures TopAgrees(r, TopIsNull(start, isNull, cfg), ReadTop(start, cfg))
    ensures ReadTop(start, cfg).Done? ==> ts == ReadTop(start, cfg).v
    ensures doc in N && fresh(N - {doc}) && WellLinked(N) && ShowsAll(doc.kids, ts, N)
  {
    FreshIsLinked(doc);
    var p, nil := start, isNull;
    ghost var D: set<Node> := {};
    N, ts := {doc}, [];
    assert {} + {doc} == {doc};
    AddNothing(ReadTop(start, cfg));
    while p != "" && p[0] == '<'
      invariant ReadTop(start, cfg) == AddAll(ts, ReadTop(p, cfg))
      invariant TopIsNull(start, isNull, cfg) == TopIsNull(p, nil, cfg)
      invariant doc !in D && fresh(D) && N == D + {doc} && WellLinked(N) && doc.parent == null
      invariant ShowsAll(doc.kids, ts, D) && ShowsAll(doc.kids, ts, N)
      decreases |p|
    {
      r, D, ts := ReadTopNode(doc, p, cfg, D, ts);
      N := D + {doc};
      if !r.To? { return; }
      nil, p := SkipWhiteSpace(r.p, cfg.enc);
    }
    assert ts + [] == ts;
    r := if nil then NullPointer else To(p);
  }

  /** TiXmlDocument::Parse. */
  method ParseDocumentNode(doc: Node, text: string, cfg: Config) returns (r: Pointer, ghost N: set<Node>, ghost t: Tree)
    requires Fresh(doc) && doc.kind == DocumentKind
    modifies doc`firstChild, doc`lastChild, doc`kids
    ensures DocumentAgrees(r, text, cfg)
    ensures doc in N && fresh(N - {doc}) && WellLinked(N)
    ensures Shows(doc, t, N) && (ParseDocument(text, cfg).Done? ==> t == ParseDocument(text, cfg).v)
  {
    FreshIsLinked(doc);
    if text == "" { return NullPointer, {doc}, Document([]); }
    var enc := cfg.enc;
    if enc.Unstated? && StringEqual(text, MARK) {
      enc := Utf8;
    }
    var nil, p := SkipWhiteSpace(text, enc);
    ghost var ts;
    r, N, ts := ReadTopNodes(doc, p, nil, cfg.(enc := enc));
    t := Document(ts);
    assert NodeOk(doc, N);
    if r.To? && doc.firstChild == null {
      r := NullPointer;
    }
  }

  /** A document is printed into a string, and a second document is parsed from it: the second one
      shows the same tree, its white space as `DeliveredAll` says, in nodes of its own. */
  method PrintAndParse(doc: Node, layout: Layout, cfg: Config, ghost kids: seq<Tree>, ghost S: set<Node>)
    returns (again: Node, r: Pointer, ghost N: set<Node>)
    requires WellLinked(S) && Shows(doc, Document(kids), S)
    requires ValidDocument(kids, cfg) && Blank(layout)
    ensures r == (if layout.lineBreak == "" then NullPointer else To("")) && fresh(N) && WellLinked(N)
    ensures Shows(again, Document(DeliveredAll(kids, 0, layout, "", cfg.condense)), N)
  {
    var printer := new Printer(layout);
    Accept(doc, printer, Document(kids), S);
    DocumentRoundTrip(kids, layout, cfg);
    again := new Node(DocumentKind, "");
    assert printer.buffer == Print(Document(kids), 0, layout);
    ghost var t;
    r, N, t := ParseDocumentNode(again, printer.buffer, cfg);
    PrintedEndsNull(kids, layout, cfg, r);
  }
}
