/**
 Parse, print, parse again: what the parser delivers is a tree that the round trip is about, unless
 a text of it, read through references, would be taken for something else.
 */
module XmlReparse {
  import opened Sequences
  import opened XmlText
  import opened XmlEscape
  import opened XmlCondense
  import opened XmlTree
  import opened XmlRoundTrip

  /** A value that comes back when it is written with references and read again. */
  predicate Rereadable(v: string, enc: Encoding) { NoReference(v) && WellFormed(v, enc) }

  /** Every text and attribute value of the tree comes back; in UTF-8 no plain text starts with a
      mark. */
  predicate Readable(t: Tree, enc: Encoding)
    decreases t, 0
  {
    match t
    case Element(_, attrs, kids) =>
      (forall i :: 0 <= i < |attrs| ==> Rereadable(attrs[i].value, enc)) && AllReadable(kids, enc)
    case Text(v, cdata) => cdata || (Rereadable(v, enc) && (enc.Utf8? ==> !IsMark(TrimSpaces(v))))
    case _ => true
  }

  predicate AllReadable(kids: seq<Tree>, enc: Encoding) {
    kids == [] || (Readable(kids[0], enc) && AllReadable(kids[1..], enc))
  }

  /** What is read up to an end tag does not hold the end tag. */
  lemma {:induction false} RawAvoids(p: string, end: string)
    requires end != ""
    ensures RawUntil(p, end).Read? ==> Avoids(RawUntil(p, end).text, end) && RawUntil(p, end).text + end <= p
    ensures RawUntil(p, end).Unterminated? ==> Avoids(p, end) && RawUntil(p, end).text == p
  {
    if p != "" && !StringEqual(p, end) {
      RawAvoids(p[1..], end);
      assert p == [p[0]] + p[1..];
      if RawUntil(p, end).Read? {
        OneMore(p, RawUntil(p[1..], end).text, end);
      }
    }
  }

  lemma OneMore(p: string, v: string, end: string)
    requires p != "" && !StringEqual(p, end) && v + end <= p[1..]
    ensures ([p[0]] + v)[1..] == v && !StringEqual([p[0]] + v, end) && ([p[0]] + v) + end <= p
  {
    assert ([p[0]] + v) + end == [p[0]] + (v + end);
    assert [p[0]] + (v + end) <= p;
  }

  lemma {:induction false} AvoidsByte(v: string, end: string)
    requires Avoids(v, end) && |end| == 1
    ensures end[0] !in v
  {
    if v != "" {
      AvoidsByte(v[1..], end);
      assert v[..1] == end <==> v[0] == end[0];
      assert v == [v[0]] + v[1..];
    }
  }

  /** An unknown tag that is not an end tag. */
  lemma UnknownShape(p: string, cfg: Config)
    requires Identify(p) == UnknownKind && !StringEqual(p, "</") && ParseUnknown(p).Done?
    ensures Valid(ParseUnknown(p).v, cfg.enc)
  {
    var v := ParseUnknown(p).v.value;
    RawAvoids(p[1..], ">");
    AvoidsByte(v, ">");
    assert "<" + v <= p;
    assert |v| > 0 ==> p[1] == v[0];
    IdentifyFront("<" + v, p);
  }

  lemma IdentifyFront(q: string, p: string)
    requires q <= p && q != "" && Identify(p) == UnknownKind
    ensures Identify(q) == UnknownKind
  {
  }

  lemma NodeShape(p: string, cfg: Config)
    requires p != "" && p[0] == '<' && !StringEqual(p, "</") && ParseNode(p, cfg).Done?
    ensures var t := ParseNode(p, cfg).v; !PlainText(t) && (Readable(t, cfg.enc) ==> Valid(t, cfg.enc))
    decreases |p|, 2
  {
    match Identify(p)
    case ElementKind => ElementShape(p, cfg);
    case CommentKind => RawAvoids(p[4..], "-->");
    case CDataKind => RawAvoids(p[9..], "]]>");
    case UnknownKind => UnknownShape(p, cfg);
    case _ =>
  }

  lemma ElementShape(p: string, cfg: Config)
    requires ParseElement(p, cfg).Done?
    ensures var t := ParseElement(p, cfg).v; t.Element? && (Readable(t, cfg.enc) ==> Valid(t, cfg.enc))
    decreases |p|, 1
  {
    var start := Skip(Skip(p, cfg.enc)[1..], cfg.enc);
    var n := NameRun(start);
    SkipTwice(Skip(p, cfg.enc)[1..], cfg.enc);
    NameShape(start, n, cfg.enc);
    AttrsShape(start[n..], start[..n], [], cfg);
  }

  lemma NameShape(start: string, n: nat, enc: Encoding)
    requires start != "" && NameStart(start[0]) && Skip(start, enc) == start && n == NameRun(start)
    ensures ValidName(start[..n], enc)
  {
    var name := start[..n];
    assert name[0] == start[0];
    assert IsMark(name) ==> IsMark(start);
    assert enc.Utf8? && IsMark(start) ==> |Skip(start, enc)| < |start|;
  }

  lemma AttrsShape(p: string, name: string, attrs: seq<Attr>, cfg: Config)
    requires ValidName(name, cfg.enc) && NamesShape(attrs, cfg.enc)
    requires ParseAttrs(p, name, attrs, cfg).Done?
    ensures var t := ParseAttrs(p, name, attrs, cfg).v; t.Element? && (Readable(t, cfg.enc) ==> Valid(t, cfg.enc))
    decreases |p|, 0
  {
    var q := Skip(p, cfg.enc);
    if q[0] == '/' {
    } else if q[0] == '>' {
      var kids := ParseNodes(q[1..], cfg);
      KidsShape(q[1..], cfg);
    } else {
      var a, more := ParseAttr(q, cfg).v, ParseAttr(q, cfg).rest;
      AttrShape(q, cfg);
      AttrsShape(more, name, attrs + [a], cfg);
    }
  }

  predicate NamesShape(attrs: seq<Attr>, enc: Encoding) {
    && (forall i :: 0 <= i < |attrs| ==> ValidName(attrs[i].name, enc))
    && (forall i, j :: 0 <= i < j < |attrs| ==> attrs[i].name != attrs[j].name)
  }

  lemma AttrShape(p: string, cfg: Config)
    requires ParseAttr(p, cfg).Done?
    ensures ValidName(ParseAttr(p, cfg).v.name, cfg.enc)
  {
    var start := Skip(p, cfg.enc);
    SkipTwice(p, cfg.enc);
    NameShape(start, NameRun(start), cfg.enc);
  }

  lemma KidsShape(p: string, cfg: Config)
    requires ParseNodes(p, cfg).Done?
    ensures AllReadable(ParseNodes(p, cfg).v, cfg.enc) ==> ValidAll(ParseNodes(p, cfg).v, cfg.enc)
    ensures Skip(p, cfg.enc)[0] == '<' && ParseNodes(p, cfg).v != [] ==> !PlainText(ParseNodes(p, cfg).v[0])
    decreases |p|, 3
  {
    var q := Skip(p, cfg.enc);
    if q[0] != '<' {
      SkipTag(p, cfg.enc);
      var from := if cfg.condense then q else p;
      var t, more := ParseText(from, cfg).v, ParseText(from, cfg).rest;
      if AllWhite(t.value) {
        KidsShape(more, cfg);
      } else {
        var ts := ParseNodes(more, cfg).v;
        assert ([t] + ts)[1..] == ts;
        KidsShape(more, cfg);
        assert ParseNodes(p, cfg).v == [t] + ts && more != "" && more[0] == '<';
        SkipTag(more, cfg.enc);
        assert PlainText(t) && (Readable(t, cfg.enc) ==> Valid(t, cfg.enc));
        assert AllReadable([t] + ts, cfg.enc) ==> Readable(t, cfg.enc) && AllReadable(ts, cfg.enc);
      }
    } else if !StringEqual(q, "</") {
      var t, more := ParseNode(q, cfg).v, ParseNode(q, cfg).rest;
      var ts := ParseNodes(more, cfg).v;
      assert ([t] + ts)[1..] == ts;
      NodeShape(q, cfg);
      KidsShape(more, cfg);
    }
  }

  lemma {:induction false} ValidReads(t: Tree, enc: Encoding)
    requires Valid(t, enc)
    ensures Readable(t, enc)
    decreases t, 1
  {
    if t.Element? {
      AllValidReads(t.kids, enc);
    }
  }

  lemma {:induction false} AllValidReads(kids: seq<Tree>, enc: Encoding)
    requires ValidAll(kids, enc)
    ensures AllReadable(kids, enc)
    decreases kids, 0
  {
    if kids != [] {
      ValidReads(kids[0], enc);
      AllValidReads(kids[1..], enc);
    }
  }

  /** Any tag that the parser reads, other than a stray end tag, gives a tree that is valid exactly
      when its texts are readable: names, comments, sections and neighbours are always in order. */
  lemma ParsedIsValid(p: string, cfg: Config)
    requires p != "" && p[0] == '<' && !StringEqual(p, "</") && ParseNode(p, cfg).Done?
    ensures var t := ParseNode(p, cfg).v; !PlainText(t) && (Valid(t, cfg.enc) <==> Readable(t, cfg.enc))
  {
    var t := ParseNode(p, cfg).v;
    NodeShape(p, cfg);
    if Valid(t, cfg.enc) { ValidReads(t, cfg.enc); }
  }

  /** Parse, print in any layout, parse again: the tree with its white space as `Delivered` says, and
      the same tree exactly when it is stable. */
  lemma ParsePrintParse(p: string, depth: nat, layout: Layout, rest: string, cfg: Config)
    requires p != "" && p[0] == '<' && !StringEqual(p, "</") && ParseNode(p, cfg).Done?
    requires Readable(ParseNode(p, cfg).v, cfg.enc) && Blank(layout)
    ensures var t := ParseNode(p, cfg).v; var again := ParseNode(Core(t, depth, layout) + rest, cfg);
      && again == Done(Delivered(t, depth, layout, cfg.condense), rest)
      && (again == Done(t, rest) <==> Stable(t, layout, cfg.condense))
  {
    var t := ParseNode(p, cfg).v;
    NodeShape(p, cfg);
    RoundTrip(t, depth, layout, rest, cfg);
    UnchangedRoundTrip(t, depth, layout, rest, cfg);
  }

  // ---------------------------------------------------------------- a text that is not readable

  /** Condensing gives no more text than keeping white space does, and ends where that ends. */
  lemma {:induction false} CondenseNoLonger(p: string, end: char, enc: Encoding, pending: bool)
    requires EndsText(end)
    ensures var c, k := Condense(p, [end], enc, pending), Keep(p, [end], enc);
      c.Read? ==> k.Read? && k.rest == c.rest && |c.text| <= |k.text| + if pending then 1 else 0
    decreases |p|
  {
    if p != "" && p[0] != end {
      if IsWhiteSpace(p[0]) {
        CondenseNoLonger(p[1..], end, enc, true);
      } else if CharAt(p, enc).Chars? {
        CondenseNoLonger(CharAt(p, enc).rest, end, enc, false);
      }
    }
  }

  lemma {:induction false} SkipNoLonger(p: string, end: char, enc: Encoding)
    requires EndsText(end)
    ensures var s, k := Keep(Skip(p, enc), [end], enc), Keep(p, [end], enc);
      s.Read? ==> k.Read? && k.rest == s.rest && |s.text| <= |k.text|
    decreases |p|
  {
    if p != "" && enc.Utf8? && IsMark(p) {
      assert CharAt(p, enc) == Chars(p[..3], p[3..]);
      SkipNoLonger(p[3..], end, enc);
    } else if p != "" && IsWhiteSpace(p[0]) {
      assert CharAt(p, enc) == Chars([p[0]], p[1..]);
      SkipNoLonger(p[1..], end, enc);
    }
  }

  /** So a text that does not come back when white space is kept does not when it is condensed. */
  lemma ReadNeverLonger(v: string, end: char, rest: string, enc: Encoding, condense: bool)
    requires EndsText(end) && WellFormed(v, enc)
    ensures Spoiled(Reading(Escape(v) + ([end] + rest), true, [end], enc, condense), v, rest)
  {
    var p := Escape(v) + ([end] + rest);
    KeepNeverLonger(v, end, rest, enc);
    CondenseNoLonger(Skip(p, enc), end, enc, false);
    SkipNoLonger(p, end, enc);
  }

  /** If the children that are read are one plain text, it is what reading up to the next `<` gives. */
  lemma OneTextRead(p: string, v: string, more: string, cfg: Config)
    requires ParseNodes(p, cfg) == Done([Text(v, false)], "<" + more)
    ensures Reading(p, true, "<", cfg.enc, cfg.condense) == Read(v, more)
  {
    var q := Skip(p, cfg.enc);
    KidsShape(p, cfg);
    SkipTwice(p, cfg.enc);
    assert q[0] != '<';
    var from := if cfg.condense then q else p;
    var t, after := ParseText(from, cfg).v, ParseText(from, cfg).rest;
    KidsShape(after, cfg);
    assert !AllWhite(t.value);
    var ts := ParseNodes(after, cfg).v;
    assert [t] + ts == [Text(v, false)];
    assert ([t] + ts)[0] == t && |[t] + ts| == 1 + |ts|;
    NoneRead(after, cfg);
    assert after[1..] == more;
  }

  lemma NoneRead(p: string, cfg: Config)
    requires p != "" && p[0] == '<' && ParseNodes(p, cfg).Done? && ParseNodes(p, cfg).v == []
    ensures ParseNodes(p, cfg).rest == p
  {
  }

  /** An element with one text: exactly the texts without anything that looks like a hexadecimal
      reference come back, and if the parser condenses, of these the tidy ones. */
  lemma OneTextReread(name: string, attrs: seq<Attr>, v: string, depth: nat, layout: Layout, rest: string, cfg: Config)
    requires Blank(layout) && ValidName(name, cfg.enc) && ValidAttrs(attrs, cfg.enc)
    requires !AllWhite(v) && WellFormed(v, cfg.enc) && (cfg.enc.Utf8? ==> !IsMark(TrimSpaces(v)))
    ensures var t := Element(name, attrs, [Text(v, false)]);
      ParseNode(Core(t, depth, layout) + rest, cfg) == Done(t, rest) <==>
        NoReference(v) && (cfg.condense ==> Tidy(v))
  {
    var t := Element(name, attrs, [Text(v, false)]);
    if NoReference(v) {
      assert ValidAll(t.kids, cfg.enc) by { assert Valid(t.kids[0], cfg.enc); }
      UnchangedRoundTrip(t, depth, layout, rest, cfg);
      assert TidyAll(t.kids) <==> TidyTree(t.kids[0]) && TidyAll(t.kids[1..]);
    } else if ParseNode(Core(t, depth, layout) + rest, cfg) == Done(t, rest) {
      var more := "/" + (name + (">" + rest));
      OneTextPrinted(t, depth, layout, rest, cfg);
      FinishedBack(t, ParseNodes(Escape(v) + EndTo(name, rest), cfg), rest);
      EndOnto(name, rest);
      EndIs(name, rest);
      OneTextRead(Escape(v) + EndTo(name, rest), v, more, cfg);
      ReadNeverLonger(v, '<', more, cfg.enc, cfg.condense);
    }
  }

  lemma OneTextPrinted(t: Tree, depth: nat, layout: Layout, rest: string, cfg: Config)
    requires t.Element? && Simple(t.kids) && ValidName(t.name, cfg.enc) && ValidAttrs(t.attrs, cfg.enc)
    ensures ParseNode(Core(t, depth, layout) + rest, cfg)
         == Finished(t.name, t.attrs, ParseNodes(Escape(t.kids[0].value) + EndTo(t.name, rest), cfg))
  {
    OneTextOnto(t, depth, layout, rest, cfg.enc);
    ContentRead(t.name, t.attrs, Escape(t.kids[0].value) + EndTo(t.name, rest), cfg);
  }

  lemma OneTextOnto(t: Tree, depth: nat, layout: Layout, rest: string, enc: Encoding)
    requires t.Element? && Simple(t.kids) && ValidAttrs(t.attrs, enc)
    ensures Core(t, depth, layout) + rest
         == "<" + (t.name + AttrsTo(t.attrs, ">" + (Escape(t.kids[0].value) + EndTo(t.name, rest))))
  {
    var text, body := Escape(t.kids[0].value), ElementBody(t, depth, layout);
    EndOnto(t.name, rest);
    Associate(text, EndTag(t.name), rest);
    Associate(">", text + EndTag(t.name), rest);
    AttrsOnto(t.attrs, body + rest, enc);
    Associate(PrintAttrs(t.attrs), body, rest);
    Associate(t.name, PrintAttrs(t.attrs) + body, rest);
    Associate("<", t.name + (PrintAttrs(t.attrs) + body), rest);
  }

  lemma ContentRead(name: string, attrs: seq<Attr>, inside: string, cfg: Config)
    requires ValidName(name, cfg.enc) && ValidAttrs(attrs, cfg.enc)
    ensures ParseNode("<" + (name + AttrsTo(attrs, ">" + inside)), cfg)
         == Finished(name, attrs, ParseNodes(inside, cfg))
  {
    var p := ">" + inside;
    assert p[1..] == inside;
    SkipNothing(p, cfg.enc);
    ElementIdentified(name, AttrsTo(attrs, p), cfg.enc);
    HeadParsed(name, attrs, p, cfg);
  }

  lemma EndIs(name: string, rest: string)
    ensures EndTo(name, rest) == "<" + ("/" + (name + (">" + rest)))
  {
    assert "</" == "<" + "/";
  }

  lemma FinishedBack(t: Tree, r: Parsed<seq<Tree>>, rest: string)
    requires t.Element? && Finished(t.name, t.attrs, r) == Done(t, rest)
    ensures r == Done(t.kids, EndTag(t.name) + rest)
  {
  }

  lemma KeepByte(c: char, tail: string, enc: Encoding)
    requires c as int < 0x80 && c != '&' && c != '<'
    ensures Keep([c] + tail, "<", enc) == Keep(tail, "<", enc).Prepend([c])
  {
    KeepStep([c] + tail, '<', enc, [c], tail);
  }

  lemma ReferenceKept(w: string, more: string, enc: Encoding)
    requires NoReference(w) && WellFormed(w, enc)
    ensures Keep("&amp;#x" + (Escape(w) + ("<" + more)), "<", enc) == Read("&#x" + w, more)
  {
    var tail := Escape(w) + ("<" + more);
    KeepEscaped(w, '<', more, enc);
    KeepByte('x', tail, enc);
    KeepByte('#', "x" + tail, enc);
    KeepAmpersand("#" + ("x" + tail), enc);
    assert Keep("#" + ("x" + tail), "<", enc) == Read("#" + ("x" + w), more);
    ReferenceTo("&amp;", tail);
    ReferenceTo("&", w);
    assert "&amp;" + "#x" == "&amp;#x" && "&" + "#x" == "&#x";
  }

  lemma ReferenceTo(a: string, tail: string)
    ensures a + ("#" + ("x" + tail)) == (a + "#x") + tail
  {
  }

  lemma KeepAmpersand(tail: string, enc: Encoding)
    requires tail != "" && tail[0] == '#'
    ensures Keep("&amp;" + tail, "<", enc) == Keep(tail, "<", enc).Prepend("&")
  {
    var p := "&amp;" + tail;
    NamedEntity('&', tail);
    assert p[0] == '&' && p[1] == 'a';
    KeepStep(p, '<', enc, "&", tail);
  }

  /** The parser turns `&amp;` into `&`. Where `#x` follows, the printer leaves the result as it is,
      and the second parse does not give the first tree again. */
  lemma ReferenceReread(name: string, w: string, rest: string, cfg: Config)
    requires !cfg.condense && ValidName(name, cfg.enc) && NoReference(w) && WellFormed(w, cfg.enc)
    ensures var t := Element(name, [], [Text("&#x" + w, false)]);
      && ParseNode("<" + (name + (">" + ("&amp;#x" + (Escape(w) + EndTo(name, rest))))), cfg) == Done(t, rest)
      && ParseNode(Core(t, 0, STREAM) + rest, cfg) != Done(t, rest)
  {
    var v := "&#x" + w;
    ReferenceText(w, cfg.enc);
    ReferenceInside(name, w, rest, cfg);
    EndOnto(name, rest);
    ContentRead(name, [], "&amp;#x" + (Escape(w) + EndTo(name, rest)), cfg);
    OneTextReread(name, [], v, 0, STREAM, rest, cfg);
  }

  lemma ReferenceText(w: string, enc: Encoding)
    requires WellFormed(w, enc)
    ensures var v := "&#x" + w; !AllWhite(v) && LooksLikeReference(v) && WellFormed(v, enc) && !IsMark(TrimSpaces(v))
  {
    var v := "&#x" + w;
    assert v[0] == '&' && !IsWhiteSpace(v[0]);
    assert v[1..][1..] == "x" + w && v[1..][1..][1..] == w;
  }

  lemma ReferenceInside(name: string, w: string, rest: string, cfg: Config)
    requires !cfg.condense && NoReference(w) && WellFormed(w, cfg.enc)
    ensures ParseNodes("&amp;#x" + (Escape(w) + EndTo(name, rest)), cfg)
         == Done([Text("&#x" + w, false)], EndTo(name, rest))
  {
    var p, more := "&amp;#x" + (Escape(w) + EndTo(name, rest)), "/" + (name + (">" + rest));
    EndIs(name, rest);
    ReferenceText(w, cfg.enc);
    ReferenceKept(w, more, cfg.enc);
    SkipNothing(p, cfg.enc);
    EndReached(name, rest, cfg);
    assert [Text("&#x" + w, false)] + [] == [Text("&#x" + w, false)];
  }
}
