/**
 XML that TiXmlPrinter would not write: white space between the parts of a tag, either quote or none,
 characters that were not escaped; and what is not well formed.
 */
module XmlLoose {
  import opened Sequences
  import opened XmlText
  import opened XmlEscape
  import opened XmlCondense
  import opened XmlTree
  import opened XmlRoundTrip

  // ---------------------------------------------------------------- characters

  /** White space, and what may start a name and follow in it, by the codes of the characters. */
  lemma CharacterKinds(c: char)
    ensures var u := c as int;
      && (IsWhiteSpace(c) <==> 9 <= u <= 13 || u == 32)
      && (NameStart(c) <==> 65 <= u <= 90 || u == 95 || 97 <= u <= 122 || u >= 127)
      && (NameChar(c) <==> NameStart(c) || 48 <= u <= 58 || u == 45 || u == 46)
  {
  }

  /** How many bytes a character has by its first one: section 4 of RFC 3629 allows no others to start a
      longer one. */
  lemma LeadBytes(c: char)
    ensures Utf8Step(c) == 2 <==> 194 <= c as int <= 223
    ensures Utf8Step(c) == 3 <==> 224 <= c as int <= 239
    ensures Utf8Step(c) == 4 <==> 240 <= c as int <= 244
    ensures Utf8Step(c) == 1 <==> c as int < 194 || c as int > 244
  {
  }

  // ---------------------------------------------------------------- attributes

  /** How a value is written: in quotes with references for what is not allowed, in quotes as it is,
      or without quotes. */
  datatype Form = Quoted(q: char, escaped: bool) | Bare

  /** An attribute with the white space in front of it and around its equals sign. */
  datatype Written = Written(before: string, a: Attr, left: string, right: string, form: Form)

  function ValueTo(form: Form, v: string, rest: string): string {
    match form
    case Quoted(q, escaped) => [q] + ((if escaped then Escape(v) else v) + ([q] + rest))
    case Bare => v + rest
  }

  /** The attribute without the white space in front of it. */
  function AttrTo(w: Written, rest: string): string {
    w.a.name + (w.left + ("=" + (w.right + ValueTo(w.form, w.a.value, rest))))
  }

  function TagTo(ws: seq<Written>, rest: string): string {
    if ws == [] then rest else ws[0].before + AttrTo(ws[0], TagTo(ws[1..], rest))
  }

  predicate FormOk(form: Form, v: string, enc: Encoding) {
    match form
    case Quoted(q, escaped) =>
      && (q == '"' || q == '\'') && WellFormed(v, enc)
      && if escaped then NoReference(v) else '&' !in v && q !in v
    case Bare =>
      && v != "" && (enc.Utf8? ==> !IsMark(v))
      && forall i :: 0 <= i < |v| ==> !EndsBare(v[i]) && v[i] != '"' && v[i] != '\''
  }

  predicate EndsBare(c: char) { IsWhiteSpace(c) || c == '/' || c == '>' }

  predicate WrittenOk(w: Written, enc: Encoding) {
    && AllWhite(w.before) && AllWhite(w.left) && AllWhite(w.right)
    && ValidName(w.a.name, enc) && FormOk(w.form, w.a.value, enc)
  }

  /** Text that a value without quotes ends at. */
  predicate After(form: Form, rest: string) {
    rest != "" && (form.Bare? ==> EndsBare(rest[0]))
  }

  lemma {:induction false} KeepRaw(v: string, end: char, rest: string, enc: Encoding)
    requires WellFormed(v, enc) && '&' !in v && end !in v && end as int < 0x80
    ensures Keep(v + ([end] + rest), [end], enc) == Read(v, rest)
    decreases |v|
  {
    var p := v + ([end] + rest);
    if v == "" {
      assert p == [end] + rest && p[1..] == rest;
    } else {
      var n := if enc.Utf8? then Utf8Step(v[0]) else 1;
      TakeDrop(v, n);
      Associate(v[..n], v[n..], [end] + rest);
      FrontOf(v[..n], v[n..] + ([end] + rest));
      assert p[0] == v[0] && v[0] in v;
      assert forall c <- v[n..] :: c in v;
      KeepRaw(v[n..], end, rest, enc);
      assert v[..1] == [v[0]];
      KeepStep(p, end, enc, v[..n], p[n..]);
    }
  }

  lemma {:induction false} BareRead(v: string, rest: string)
    requires forall i :: 0 <= i < |v| ==> !EndsBare(v[i]) && v[i] != '"' && v[i] != '\''
    requires rest != "" && EndsBare(rest[0])
    ensures Unquoted(v + rest) == Done(v, rest)
  {
    if v == "" {
      assert v + rest == rest;
    } else {
      var p := v + rest;
      assert p[0] == v[0] && p[1..] == v[1..] + rest;
      BareRead(v[1..], rest);
      assert [v[0]] + v[1..] == v;
    }
  }

  /** A value in any form is read up to its end, and starts with nothing that is skipped. */
  lemma ValueRead(form: Form, v: string, rest: string, cfg: Config)
    requires FormOk(form, v, cfg.enc) && After(form, rest)
    ensures var p := ValueTo(form, v, rest);
      p != "" && Skip(p, cfg.enc) == p && ParseAttrValue(p, cfg) == Done(v, rest)
  {
    var p := ValueTo(form, v, rest);
    if form.Quoted? {
      assert p[1..] == (if form.escaped then Escape(v) else v) + ([form.q] + rest);
      if form.escaped {
        KeepEscaped(v, form.q, rest, cfg.enc);
      } else {
        KeepRaw(v, form.q, rest, cfg.enc);
      }
    } else {
      BareRead(v, rest);
      assert p[0] == v[0] && p[|v|] == rest[0];
      assert forall i :: 0 <= i < |v| ==> p[i] == v[i];
    }
    SkipNothing(p, cfg.enc);
  }

  /** White space may stand around the equals sign, and the value may be in either quote or none. */
  lemma AttrRead(w: Written, rest: string, cfg: Config)
    requires WrittenOk(w, cfg.enc) && After(w.form, rest)
    ensures var p := AttrTo(w, rest);
      p != "" && p[0] == w.a.name[0] && Skip(p, cfg.enc) == p && ParseAttr(p, cfg) == Done(w.a, rest)
  {
    var value := ValueTo(w.form, w.a.value, rest);
    var equals := "=" + (w.right + value);
    var behind := w.left + equals;
    assert behind[0] == if w.left == "" then '=' else w.left[0];
    NameStays(w.a.name, behind, cfg.enc);
    NameRunIs(w.a.name, behind);
    SkipPadding(w.left, equals, cfg.enc);
    SkipNothing(equals, cfg.enc);
    assert equals[1..] == w.right + value;
    SkipPadding(w.right, value, cfg.enc);
    ValueRead(w.form, w.a.value, rest, cfg);
  }

  // ---------------------------------------------------------------- tags

  /** White space may stand in front of an attribute and in front of `>` and `/>`. */
  lemma TagSpace(space: string, p: string, name: string, attrs: seq<Attr>, cfg: Config)
    requires AllWhite(space)
    ensures ParseAttrs(space + p, name, attrs, cfg) == ParseAttrs(p, name, attrs, cfg)
  {
    SkipPadding(space, p, cfg.enc);
  }

  lemma EmptyTagEnds(space: string, name: string, attrs: seq<Attr>, rest: string, cfg: Config)
    requires AllWhite(space)
    ensures ParseAttrs(space + ("/>" + rest), name, attrs, cfg) == Done(Element(name, attrs, []), rest)
  {
    var p := "/>" + rest;
    assert p[2..] == rest;
    TagSpace(space, p, name, attrs, cfg);
    SkipNothing(p, cfg.enc);
  }

  lemma StartTagEnds(space: string, name: string, attrs: seq<Attr>, inside: string, cfg: Config)
    requires AllWhite(space)
    ensures ParseAttrs(space + (">" + inside), name, attrs, cfg) == Finished(name, attrs, ParseNodes(inside, cfg))
  {
    var p := ">" + inside;
    assert p[1..] == inside;
    TagSpace(space, p, name, attrs, cfg);
    SkipNothing(p, cfg.enc);
  }

  function AttrsOf(ws: seq<Written>): (attrs: seq<Attr>)
    ensures |attrs| == |ws|
  {
    if ws == [] then [] else [ws[0].a] + AttrsOf(ws[1..])
  }

  predicate TagOk(ws: seq<Written>, rest: string, enc: Encoding) {
    ws != [] ==> WrittenOk(ws[0], enc) && After(ws[0].form, TagTo(ws[1..], rest)) && TagOk(ws[1..], rest, enc)
  }

  lemma NewName(done: seq<Attr>, a: Attr, more: seq<Attr>)
    requires UniqueNames(done + ([a] + more))
    ensures (done + [a]) + more == done + ([a] + more)
    ensures forall i :: 0 <= i < |done| ==> done[i].name != a.name
  {
    var all := done + ([a] + more);
    assert all[|done|] == a && forall i :: 0 <= i < |done| ==> all[i] == done[i];
  }

  /** All attributes of a tag are read in order, however they are written. */
  lemma {:induction false} TagRead(ws: seq<Written>, done: seq<Attr>, name: string, rest: string, cfg: Config)
    requires TagOk(ws, rest, cfg.enc) && UniqueNames(done + AttrsOf(ws))
    ensures ParseAttrs(TagTo(ws, rest), name, done, cfg) == ParseAttrs(rest, name, done + AttrsOf(ws), cfg)
    decreases |ws|
  {
    if ws == [] {
      assert done + [] == done;
    } else {
      var w, more := ws[0], TagTo(ws[1..], rest);
      NewName(done, w.a, AttrsOf(ws[1..]));
      AttrRead(w, more, cfg);
      TagSpace(w.before, AttrTo(w, more), name, done, cfg);
      SkipPadding(w.before, AttrTo(w, more), cfg.enc);
      OneAttr(w.before + AttrTo(w, more), AttrTo(w, more), name, done, w.a, more, cfg);
      TagRead(ws[1..], done + [w.a], name, rest, cfg);
    }
  }

  /** From the `<` to the end of the attributes. */
  lemma ElementRead(name: string, ws: seq<Written>, rest: string, cfg: Config)
    requires ValidName(name, cfg.enc) && TagOk(ws, rest, cfg.enc) && UniqueNames(AttrsOf(ws))
    requires var p := TagTo(ws, rest); p != "" && p[0] as int < 0x80 && !NameChar(p[0])
    ensures ParseNode("<" + (name + TagTo(ws, rest)), cfg) == ParseAttrs(rest, name, AttrsOf(ws), cfg)
  {
    var more := TagTo(ws, rest);
    var p := "<" + (name + more);
    ElementIdentified(name, more, cfg.enc);
    SkipNothing(p, cfg.enc);
    assert p[1..] == name + more;
    NameStays(name, more, cfg.enc);
    NameRunIs(name, more);
    assert [] + AttrsOf(ws) == AttrsOf(ws);
    TagRead(ws, [], name, rest, cfg);
  }

  /** An element without children, written in any of these ways. */
  lemma LooseEmpty(name: string, ws: seq<Written>, space: string, rest: string, cfg: Config)
    requires ValidName(name, cfg.enc) && AllWhite(space) && UniqueNames(AttrsOf(ws))
    requires TagOk(ws, space + ("/>" + rest), cfg.enc) && (ws != [] ==> ws[0].before != "")
    ensures ParseNode("<" + (name + TagTo(ws, space + ("/>" + rest))), cfg)
         == Done(Element(name, AttrsOf(ws), []), rest)
  {
    FirstOfTag(ws, space, "/>" + rest, cfg.enc);
    ElementRead(name, ws, space + ("/>" + rest), cfg);
    EmptyTagEnds(space, name, AttrsOf(ws), rest, cfg);
  }

  /** An element with children: whatever reads as the children up to its end tag. */
  lemma LooseElement(name: string, ws: seq<Written>, space: string, inside: string, kids: seq<Tree>,
                     rest: string, cfg: Config)
    requires ValidName(name, cfg.enc) && AllWhite(space) && UniqueNames(AttrsOf(ws))
    requires TagOk(ws, space + (">" + inside), cfg.enc) && (ws != [] ==> ws[0].before != "")
    requires ParseNodes(inside, cfg) == Done(kids, EndTo(name, rest))
    ensures ParseNode("<" + (name + TagTo(ws, space + (">" + inside))), cfg)
         == Done(Element(name, AttrsOf(ws), kids), rest)
  {
    FirstOfTag(ws, space, ">" + inside, cfg.enc);
    ElementRead(name, ws, space + (">" + inside), cfg);
    StartTagEnds(space, name, AttrsOf(ws), inside, cfg);
    EndReached(name, rest, cfg);
  }

  lemma FirstOfTag(ws: seq<Written>, space: string, end: string, enc: Encoding)
    requires TagOk(ws, space + end, enc) && AllWhite(space) && (ws != [] ==> ws[0].before != "")
    requires end != "" && (end[0] == '/' || end[0] == '>')
    ensures var p := TagTo(ws, space + end); p != "" && p[0] as int < 0x80 && !NameChar(p[0])
  {
    var p := TagTo(ws, space + end);
    if ws != [] {
      assert p[0] == ws[0].before[0];
    } else if space != "" {
      assert p[0] == space[0];
    } else {
      assert p == end;
    }
  }

  // ---------------------------------------------------------------- what is not well formed

  /** A second attribute of the same name. */
  lemma RepeatedAttr(name: string, ws: seq<Written>, w: Written, rest: string, cfg: Config)
    requires ValidName(name, cfg.enc) && UniqueNames(AttrsOf(ws)) && ws != [] && ws[0].before != ""
    requires WrittenOk(w, cfg.enc) && After(w.form, rest) && HasAttr(AttrsOf(ws), w.a.name)
    requires TagOk(ws, w.before + AttrTo(w, rest), cfg.enc)
    ensures ParseNode("<" + (name + TagTo(ws, w.before + AttrTo(w, rest))), cfg) == Error
  {
    var more := w.before + AttrTo(w, rest);
    assert TagTo(ws, more)[0] == ws[0].before[0];
    ElementRead(name, ws, more, cfg);
    TagSpace(w.before, AttrTo(w, rest), name, AttrsOf(ws), cfg);
    AttrRead(w, rest, cfg);
  }

  /** A name that no equals sign follows. */
  lemma AttrNoEquals(name: string, left: string, rest: string, cfg: Config)
    requires ValidName(name, cfg.enc) && AllWhite(left)
    requires rest != "" && rest[0] as int < 0x80 && !NameChar(rest[0]) && rest[0] != '=' && !IsWhiteSpace(rest[0])
    ensures ParseAttr(name + (left + rest), cfg) == Error
  {
    var behind := left + rest;
    assert behind[0] == if left == "" then rest[0] else left[0];
    NameStays(name, behind, cfg.enc);
    NameRunIs(name, behind);
    SkipPadding(left, rest, cfg.enc);
    SkipNothing(rest, cfg.enc);
  }

  /** A quoted value that does not end: the parser runs out of the text. */
  lemma AttrNotClosed(name: string, q: char, v: string, cfg: Config)
    requires ValidName(name, cfg.enc) && (q == '"' || q == '\'') && NoReference(v) && WellFormed(v, cfg.enc)
    ensures ParseAttr(name + ("=" + ([q] + Escape(v))), cfg) == OffEnd
  {
    var quoted := [q] + Escape(v);
    var equals := "=" + quoted;
    NameStays(name, equals, cfg.enc);
    NameRunIs(name, equals);
    SkipNothing(equals, cfg.enc);
    SkipNothing(quoted, cfg.enc);
    assert equals[1..] == quoted && quoted[1..] == Escape(v) && Escape(v) + "" == Escape(v);
    KeepEscapedOnto(v, "", q, cfg.enc);
  }

  /** The end tag of another element, or one with white space in it. */
  lemma WrongEndTag(name: string, inside: string, kids: seq<Tree>, other: string, space: string, rest: string,
                    cfg: Config)
    requires ValidName(name, cfg.enc) && ValidName(other, cfg.enc) && AllWhite(space)
    requires other != name || space != ""
    requires ParseNodes(inside, cfg) == Done(kids, "</" + (other + (space + (">" + rest))))
    ensures ParseNode("<" + (name + (">" + inside)), cfg) == Error
  {
    ElementRead(name, [], ">" + inside, cfg);
    assert "" + (">" + inside) == ">" + inside;
    StartTagEnds("", name, [], inside, cfg);
    NotTheEnd(name, other, space, rest);
  }

  lemma NotTheEnd(name: string, other: string, space: string, rest: string)
    requires ValidName(name, Legacy) && ValidName(other, Legacy) && AllWhite(space)
    requires other != name || space != ""
    ensures !StringEqual("</" + (other + (space + (">" + rest))), EndTag(name))
  {
    var after := space + (">" + rest);
    assert after[0] == if space == "" then '>' else space[0];
    NameRunIs(other, after);
    if StringEqual("</" + (other + after), EndTag(name)) {
      TagsDiffer(name, other + after);
    }
  }

  /** The name that an end tag starts with. */
  lemma TagsDiffer(name: string, behind: string)
    requires ValidName(name, Legacy) && StringEqual("</" + behind, EndTag(name))
    ensures |name| < |behind| && NameRun(behind) == |name| && behind[|name|] == '>' && behind[..|name|] == name
  {
    BehindFront("</", name + ">", behind);
    var after := behind[|name| + 1..];
    Associate(name, ">", after);
    NameRunIs(name, ">" + after);
  }

  lemma BehindFront(front: string, a: string, b: string)
    requires front + a <= front + b
    ensures a <= b && b == a + b[|a|..]
  {
    assert (front + a)[|front|..] == a && (front + b)[|front|..] == b;
  }

  /** A comment or a CDATA section without its end mark runs out of the text; an unknown tag may end
      with the text. */
  lemma NotClosed(v: string)
    ensures Avoids(v, "-->") ==> ParseComment("<!--" + v) == OffEnd
    ensures Avoids(v, "]]>") ==> ParseCData("<![CDATA[" + v) == OffEnd
    ensures '>' !in v ==> ParseUnknown("<" + v) == Done(Tree.Unknown(v), "")
  {
    assert ("<!--" + v)[4..] == v && ("<![CDATA[" + v)[9..] == v && ("<" + v)[1..] == v;
    if Avoids(v, "-->") { RawToEnd(v, "-->"); }
    if Avoids(v, "]]>") { RawToEnd(v, "]]>"); }
    if '>' !in v {
      AvoidsChar(v, '>');
      RawToEnd(v, ">");
    }
  }

  lemma {:induction false} RawToEnd(v: string, end: string)
    requires Avoids(v, end)
    ensures RawUntil(v, end) == Unterminated(v)
  {
    if v != "" {
      RawToEnd(v[1..], end);
      assert [v[0]] + v[1..] == v;
    }
  }

  /** What is read as an XML declaration, in any case of letters; and that the other `<!` and `<?`
      tags are not. */
  lemma Kinds(rest: string)
    ensures Identify("<?xml" + rest) == Identify("<?XML" + rest) == Identify("<?Xml" + rest) == DeclarationKind
    ensures Identify("<?php" + rest) == Identify("<!DOCTYPE" + rest) == Identify("</" + rest) == UnknownKind
  {
    assert ("<?php" + rest)[2] == 'p' && ("<?php" + rest)[1] == '?';
    assert ("<!DOCTYPE" + rest)[2] == 'D' && ("<!DOCTYPE" + rest)[1] == '!' && ("<!DOCTYPE" + rest)[..2] == "<!";
    assert ("</" + rest)[1] == '/';
  }
}
