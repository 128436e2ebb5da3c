// When curl's wildcard matcher does not finish reading a bracket set: the exact condition, for every
// text behind the opening bracket.
module GlobHang {
  import opened Options
  import opened Glob
  import opened GlobSet

  /** What the state machine reads in one go and gets over: an item of a set; a `[` that starts no
      class; or a range with two backslashes for an end. Of such a range the character behind the
      backslashes is the end too, and if it is not below the start, the next one is passed over. */
  datatype Piece = Proper(i: Item) | Opening | Twice(signs: seq<Sign>, d: Octet, over: Text)

  function RenderPiece(q: Piece, rest: Text): Text {
    match q
    case Proper(i) => RenderItem(i, rest)
    case Opening => ['['] + rest
    case Twice(signs, d, over) => RenderSigns(signs, ['-', '\\', '\\', d] + (over + rest))
  }

  function RenderPieces(qs: seq<Piece>, rest: Text): Text {
    if qs == [] then rest else RenderPiece(qs[0], RenderPieces(qs[1..], rest))
  }

  predicate PieceOk(q: Piece, rest: Text) {
    match q
    case Proper(i) => ItemOk(i) && Fine(i)
    case Opening => At(rest) != ':'
    case Twice(signs, d, over) =>
      && signs != [] && SignsOk(signs) && IsPrint(d)
      && if d < signs[0].c then over == [] else |over| == 1 && SameClass(d, signs[0].c)
  }

  predicate IsRun(q: Piece) { q.Proper? && q.i.Run? }

  predicate StartsBracket(q: Piece) { q.Opening? || (q.Proper? && q.i.Named?) }

  /** A run goes as far as it can: only a bracket may follow it. */
  predicate PiecesOk(qs: seq<Piece>, rest: Text) {
    qs != [] ==>
      && PieceOk(qs[0], RenderPieces(qs[1..], rest))
      && (IsRun(qs[0]) ==> |qs| > 1 && StartsBracket(qs[1]))
      && PiecesOk(qs[1..], rest)
  }

  /** A range without an end, or with one below its start. */
  predicate Unending(signs: seq<Sign>, end: Text) {
    && signs != [] && SignsOk(signs)
    && (end == []
        || (end[0] !in "]\\" && end[0] < signs[0].c)
        || (|end| > 1 && end[0] == '\\' && IsPrint(end[1]) && end[1] !in "]\\" && end[1] < signs[0].c))
  }

  /** A negation, and brackets that come first and count as characters. */
  predicate StartOk(mark: Text, lead: Lead, qs: seq<Piece>) {
    && (mark == [] || mark == "!" || mark == "^")
    && (mark == [] && lead.NoLead? && qs != [] ==> qs[0] != Proper(Plain('!')) && qs[0] != Proper(Plain('^')))
    && (lead.Lead? ==> lead.next.Some? && NextOk(lead))
  }

  predicate NextOk(lead: Lead)
    requires lead.Lead? && lead.next.Some?
  {
    lead.next.value != ']' && (!lead.bracket ==> lead.next.value != '[' && IsPrint(lead.next.value))
  }

  /** The text: what is got over, and then the range that is not. */
  function Endless(mark: Text, lead: Lead, qs: seq<Piece>, signs: seq<Sign>, end: Text): Text {
    mark + RenderLead(lead, Tail(qs, signs, end))
  }

  function Tail(qs: seq<Piece>, signs: seq<Sign>, end: Text): Text {
    RenderPieces(qs, RenderSigns(signs, ['-'] + end))
  }

  predicate TailOk(qs: seq<Piece>, signs: seq<Sign>, end: Text) {
    PiecesOk(qs, RenderSigns(signs, ['-'] + end)) && Unending(signs, end)
  }

  // Such a text is read for ever.

  lemma OpeningScanned(rest: Text, x: Scan) returns (y: Scan)
    requires (x.state == Default || x.state == MayRange) && x.p == ['['] + rest && At(rest) != ':'
    ensures Rounds(x) == Rounds(y) && y.p == rest && y.state == Default && y.found
  {
    var z := x.(state := Default);
    if x.state == MayRange { OneRound(x, z); }
    assert z.p[1..] == rest;
    y := z.(p := rest, cs := Put(z.cs, '['), found := true);
    OneRound(z, y);
  }

  lemma TwiceScanned(q: Piece, rest: Text, x: Scan) returns (y: Scan)
    requires q.Twice? && PieceOk(q, rest) && x.state == Default && x.p == RenderPiece(q, rest)
    ensures Rounds(x) == Rounds(y) && y.p == rest && y.state == Default && y.found
  {
    var more := ['\\', '\\', q.d] + (q.over + rest);
    assert ['-', '\\', '\\', q.d] + (q.over + rest) == ['-'] + more;
    var z := DashScanned(q.signs, more, x);
    assert more[1..][0] == '\\' && more[1..][1..][0] == q.d && more[1..][2..] == q.over + rest;
    assert q.over == [] ==> q.over + rest == rest;
    assert q.over != [] ==> (q.over + rest)[1..] == rest;
    assert Round(z).More?;
    y := Round(z).scan;
    OneRound(z, y);
  }

  lemma {:induction false} PiecesScanned(qs: seq<Piece>, rest: Text, x: Scan) returns (y: Scan)
    requires PiecesOk(qs, rest) && x.p == RenderPieces(qs, rest)
    requires x.state == Default || (x.state == MayRange && qs != [] && StartsBracket(qs[0]))
    requires qs != [] && qs[0].Proper? && qs[0].i.Plain? ==> PlainHere(qs[0].i.c, x)
    ensures Rounds(x) == Rounds(y) && y.p == rest && y.state == Default
  {
    y := x;
    if qs != [] {
      var q, more := qs[0], RenderPieces(qs[1..], rest);
      if q.Proper? {
        y := ItemScanned(q.i, more, x);
      } else if q.Opening? {
        y := OpeningScanned(more, x);
      } else {
        y := TwiceScanned(q, more, x);
      }
      y := PiecesScanned(qs[1..], rest, y);
    }
  }

  lemma UnendingHangs(signs: seq<Sign>, end: Text, x: Scan)
    requires Unending(signs, end) && x.state == Default && x.p == RenderSigns(signs, ['-'] + end)
    ensures Rounds(x) == Hang
  {
    var y := DashScanned(signs, end, x);
    if end != [] && end[0] == '\\' {
      var z := y.(p := end[1..]);
      OneRound(y, z);
      assert Round(z) == Stop(Hang);
    } else {
      assert Round(y) == Stop(Hang);
    }
  }

  /** From the start of the text to where the pieces start. */
  lemma StartScanned(mark: Text, lead: Lead, qs: seq<Piece>, rest: Text) returns (y: Scan)
    requires StartOk(mark, lead, qs)
    ensures SetOf(mark + RenderLead(lead, rest)) == Rounds(y) && y.state == Default && y.p == rest
    ensures mark != [] || lead.Lead? ==> y.found || y.cs[NEGATE]
  {
    var body := RenderLead(lead, rest);
    y := Scan(Default, mark + body, Empty(), '\0', false);
    if mark == [] {
      assert mark + body == body;
    } else {
      assert y.p[1..] == body && y.p[0] == mark[0];
      var z := Scan(Default, body, Empty()[NEGATE := true], '\0', false);
      OneRound(y, z);
      y := z;
    }
    if lead.Lead? {
      y := LeadScanned(lead, rest, y);
    }
  }

  lemma EndlessHangs(mark: Text, lead: Lead, qs: seq<Piece>, signs: seq<Sign>, end: Text)
    requires StartOk(mark, lead, qs) && TailOk(qs, signs, end)
    ensures SetOf(Endless(mark, lead, qs, signs, end)) == Hang
  {
    var x := StartScanned(mark, lead, qs, Tail(qs, signs, end));
    var y := PiecesScanned(qs, RenderSigns(signs, ['-'] + end), x);
    UnendingHangs(signs, end, y);
  }

  // And no other text is.

  lemma {:induction false} SignsThenSign(signs: seq<Sign>, s: Sign, rest: Text)
    ensures RenderSigns(signs + [s], rest) == RenderSigns(signs, RenderSign(s, rest))
  {
    if signs == [] {
      assert signs + [s] == [s];
    } else {
      assert (signs + [s])[1..] == signs[1..] + [s];
      SignsThenSign(signs[1..], s, rest);
    }
  }

  /** In the default state, behind the start. */
  predicate Inside(x: Scan) {
    x.state == Default && (x.found || (At(x.p) != ']' && (x.cs[NEGATE] || At(x.p) !in "^!")))
  }

  lemma FirstPiece(q: Piece, rest: Text, after: Text)
    requires PieceOk(q, rest) && RenderPiece(q, rest) == ['['] + after
    ensures StartsBracket(q)
  {
    var p := RenderPiece(q, rest);
    assert p[0] == '[';
  }

  /** A piece in front of what was found behind it. */
  lemma OnePieceMore(q: Piece, qs: seq<Piece>, signs: seq<Sign>, end: Text)
    requires TailOk(qs, signs, end) && PieceOk(q, Tail(qs, signs, end))
    requires IsRun(q) ==> At(Tail(qs, signs, end)) == '['
    ensures TailOk([q] + qs, signs, end) && Tail([q] + qs, signs, end) == RenderPiece(q, Tail(qs, signs, end))
  {
    var all, rest := [q] + qs, RenderSigns(signs, ['-'] + end);
    assert all[1..] == qs;
    if IsRun(q) {
      assert qs != [];
      assert Tail(qs, signs, end) == ['['] + Tail(qs, signs, end)[1..];
      FirstPiece(qs[0], RenderPieces(qs[1..], rest), Tail(qs, signs, end)[1..]);
    }
  }

  lemma NamedRead(x: Scan) returns (q: Piece)
    requires x.state == Default && At(x.p) == '[' && At(x.p[1..]) == ':' && Round(x).More?
    ensures q.Proper? && q.i.Named? && x.p == RenderPiece(q, Round(x).scan.p)
  {
    var k := Keyword(x.p[2..]).value;
    KeywordIsName(x.p[2..], k);
    q := Proper(Named(k));
    NamedText(Name(k), Round(x).scan.p);
    assert x.p == "[:" + x.p[2..] && x.p[2..] == (Name(k) + ":]") + Round(x).scan.p;
  }

  lemma PlainRead(x: Scan) returns (q: Piece)
    requires Inside(x) && Round(x).More? && !IsAlnum(At(x.p)) && At(x.p) != '\\' && At(x.p) != ']'
    requires !(At(x.p) == '[' && At(x.p[1..]) == ':')
    ensures PieceOk(q, Round(x).scan.p) && !IsRun(q) && Inside(Round(x).scan) && x.p == RenderPiece(q, Round(x).scan.p)
    ensures !x.found && !x.cs[NEGATE] ==> q != Proper(Plain('!')) && q != Proper(Plain('^'))
  {
    q := if At(x.p) == '[' then Opening else Proper(Plain(x.p[0]));
    assert x.p == [x.p[0]] + x.p[1..];
  }

  lemma FromDefault(x: Scan) returns (qs: seq<Piece>, signs: seq<Sign>, end: Text)
    requires Inside(x) && Rounds(x) == Hang
    ensures TailOk(qs, signs, end) && x.p == Tail(qs, signs, end)
    ensures !x.found && !x.cs[NEGATE] && qs != [] ==> qs[0] != Proper(Plain('!')) && qs[0] != Proper(Plain('^'))
    decreases |x.p|, 0
  {
    var c, y := At(x.p), Round(x).scan;
    var q: Piece;
    if IsAlnum(c) {
      assert x.p == RenderSigns([Sign(c, false)], y.p);
      qs, signs, end := FromRun(y, [Sign(c, false)]);
    } else if c == '[' && At(x.p[1..]) == ':' {
      q := NamedRead(x);
      qs, signs, end := FromDefault(y);
      OnePieceMore(q, qs, signs, end);
      qs := [q] + qs;
    } else if c == '\\' {
      var s := Sign(x.p[1], true);
      assert x.p == ['\\', x.p[1]] + x.p[2..];
      assert x.p == RenderSigns([s], y.p);
      qs, signs, end := FromRun(y, [s]);
    } else {
      q := PlainRead(x);
      qs, signs, end := FromDefault(y);
      OnePieceMore(q, qs, signs, end);
      qs := [q] + qs;
    }
  }

  /** After a run that was read already. */
  lemma FromRun(x: Scan, run: seq<Sign>) returns (qs: seq<Piece>, signs: seq<Sign>, end: Text)
    requires x.state == MayRange && x.found && Rounds(x) == Hang
    requires run != [] && SignsOk(run) && run[0].c == x.start
    ensures TailOk(qs, signs, end) && RenderSigns(run, x.p) == Tail(qs, signs, end)
    ensures qs != [] ==> qs[0].Proper? ==> !qs[0].i.Plain?
    decreases |x.p|, 1
  {
    var c, y := At(x.p), Round(x).scan;
    if c == '-' {
      assert x.p == ['-'] + y.p;
      qs, signs, end := FromRange(y, run);
    } else if c == '[' {
      qs, signs, end := FromDefault(y);
      OnePieceMore(Proper(Run(run)), qs, signs, end);
      qs := [Proper(Run(run))] + qs;
    } else {
      var s := if c == '\\' then Sign(x.p[1], true) else Sign(c, false);
      assert x.p == RenderSign(s, y.p);
      SignsThenSign(run, s, y.p);
      qs, signs, end := FromRun(y, run + [s]);
    }
  }

  lemma TwiceRead(x: Scan, run: seq<Sign>) returns (q: Piece)
    requires x.state == MayRange2 && |x.p| > 1 && x.p[0] == '\\' && x.p[1] == '\\' && Round(x).More?
    requires run != [] && SignsOk(run) && run[0].c == x.start
    ensures var y := Round(x).scan;
      && q.Twice? && PieceOk(q, y.p) && y.state == Default && y.found == x.found && |y.p| < |x.p|
      && RenderSigns(run, ['-'] + x.p) == RenderPiece(q, y.p)
  {
    var y, p := Round(x).scan, x.p[1..];
    assert p[0] == '\\' && p[1..][0] == x.p[2] && p[2..] == x.p[3..];
    q := Twice(run, x.p[2], if x.p[2] < x.start then [] else [x.p[3]]);
    assert x.p[3..] == q.over + y.p;
    assert ['-'] + x.p == ['-', '\\', '\\', q.d] + x.p[3..];
  }

  /** The end of a range that is got over. */
  lemma EndRead(x: Scan, run: seq<Sign>) returns (q: Piece, y: Scan)
    requires x.state == MayRange2 && x.found && Rounds(x) == Hang
    requires run != [] && SignsOk(run) && run[0].c == x.start && !Unending(run, x.p)
    ensures Inside(y) && Rounds(y) == Hang && y.found && |y.p| < |x.p|
    ensures !IsRun(q) && (q.Twice? || (q.Proper? && q.i.Range?)) && PieceOk(q, y.p)
    ensures RenderSigns(run, ['-'] + x.p) == RenderPiece(q, y.p)
  {
    y := Round(x).scan;
    if x.p[0] == '\\' && x.p[1] == '\\' {
      q := TwiceRead(x, run);
    } else {
      var hi := if x.p[0] == '\\' then Sign(x.p[1], true) else Sign(x.p[0], false);
      q := Proper(Range(run, hi));
      assert x.p == RenderSign(hi, y.p);
    }
  }

  /** After the dash of a range. */
  lemma FromRange(x: Scan, run: seq<Sign>) returns (qs: seq<Piece>, signs: seq<Sign>, end: Text)
    requires x.state == MayRange2 && x.found && Rounds(x) == Hang
    requires run != [] && SignsOk(run) && run[0].c == x.start
    ensures TailOk(qs, signs, end) && RenderSigns(run, ['-'] + x.p) == Tail(qs, signs, end)
    ensures qs != [] ==> qs[0].Proper? ==> !qs[0].i.Plain?
    decreases |x.p|, 0
  {
    if Unending(run, x.p) {
      qs, signs, end := [], run, x.p;
    } else {
      var q, y := EndRead(x, run);
      qs, signs, end := FromDefault(y);
      OnePieceMore(q, qs, signs, end);
      qs := [q] + qs;
    }
  }

  lemma FromLead(x: Scan) returns (lead: Lead, qs: seq<Piece>, signs: seq<Sign>, end: Text)
    requires x.state == Default && !x.found && Rounds(x) == Hang && At(x.p) == ']'
    ensures lead.Lead? && lead.next.Some? && NextOk(lead) && TailOk(qs, signs, end)
    ensures x.p == RenderLead(lead, Tail(qs, signs, end))
  {
    var y := Round(x).scan;
    var bracket := At(y.p) == '[';
    var z := if bracket then Round(y).scan else y;
    assert Rounds(y) == Hang && Rounds(z) == Hang;
    assert Round(z).More?;
    lead := Lead(bracket, Some(z.p[0]));
    qs, signs, end := FromDefault(Round(z).scan);
    assert x.p == if bracket then [']', '['] + ([z.p[0]] + z.p[1..]) else [']'] + ([z.p[0]] + z.p[1..]);
  }

  lemma FromStart(x: Scan) returns (lead: Lead, qs: seq<Piece>, signs: seq<Sign>, end: Text)
    requires x.state == Default && !x.found && Rounds(x) == Hang
    requires x.cs[NEGATE] || At(x.p) !in "^!"
    ensures lead.Lead? ==> lead.next.Some? && NextOk(lead)
    ensures TailOk(qs, signs, end) && x.p == RenderLead(lead, Tail(qs, signs, end))
    ensures !x.cs[NEGATE] && lead.NoLead? && qs != [] ==> qs[0] != Proper(Plain('!')) && qs[0] != Proper(Plain('^'))
  {
    if At(x.p) == ']' {
      lead, qs, signs, end := FromLead(x);
    } else {
      lead := NoLead;
      qs, signs, end := FromDefault(x);
    }
  }

  lemma HangsEndless(p: Text) returns (mark: Text, lead: Lead, qs: seq<Piece>, signs: seq<Sign>, end: Text)
    requires SetOf(p) == Hang
    ensures StartOk(mark, lead, qs) && TailOk(qs, signs, end) && p == Endless(mark, lead, qs, signs, end)
  {
    var x := Scan(Default, p, Empty(), '\0', false);
    mark := [];
    if At(p) in "^!" {
      mark := [p[0]];
      x := Round(x).scan;
      assert p == mark + x.p;
    }
    lead, qs, signs, end := FromStart(x);
    assert [] + p == p;
  }

  /** For every text: the matcher never ends reading the set that it starts exactly when it consists,
      behind a negation and leading brackets, of any number of pieces that are got over and then of a
      range that has no end or one below its start. */
  lemma SetNeverRead(p: Text)
    ensures SetOf(p) == Hang <==>
      exists mark, lead, qs, signs, end ::
        StartOk(mark, lead, qs) && TailOk(qs, signs, end) && p == Endless(mark, lead, qs, signs, end)
  {
    if SetOf(p) == Hang {
      var mark, lead, qs, signs, end := HangsEndless(p);
    }
    if mark, lead, qs, signs, end :|
      StartOk(mark, lead, qs) && TailOk(qs, signs, end) && p == Endless(mark, lead, qs, signs, end)
    {
      EndlessHangs(mark, lead, qs, signs, end);
    }
  }

  /** Then the matcher does not end either, whatever the subject is. */
  lemma MatcherHangs(mark: Text, lead: Lead, qs: seq<Piece>, signs: seq<Sign>, end: Text, s: Text)
    requires StartOk(mark, lead, qs) && TailOk(qs, signs, end)
    ensures Fnmatch(['['] + Endless(mark, lead, qs, signs, end), s) == Outcome.Endless
  {
    var p := ['['] + Endless(mark, lead, qs, signs, end);
    assert p[1..] == Endless(mark, lead, qs, signs, end);
    EndlessHangs(mark, lead, qs, signs, end);
  }

  // How else reading a set ends early.

  /** What may follow the pieces. */
  datatype Ending =
    | CutOff                                              // the end of the pattern
    | BadEscape(rest: Text)                               // a backslash with nothing printable behind it
    | NoSuchClass(rest: Text)                             // `[:` and no class
    | CutOffRun(signs: seq<Sign>)                         // the end of the pattern, behind a run
    | StrayAfterRun(signs: seq<Sign>, c: Octet, rest: Text)  // what cannot follow a run
    | EscapeAfterRun(signs: seq<Sign>, rest: Text)
    | OtherClass(signs: seq<Sign>, hi: Sign, rest: Text)  // a range into another class of characters
    | PassesEnd(signs: seq<Sign>, d: Octet)               // a doubled backslash, with nothing to pass over

  function EndingText(e: Ending): Text {
    match e
    case CutOff => []
    case BadEscape(rest) => ['\\'] + rest
    case NoSuchClass(rest) => ['[', ':'] + rest
    case CutOffRun(signs) => RenderSigns(signs, [])
    case StrayAfterRun(signs, c, rest) => RenderSigns(signs, [c] + rest)
    case EscapeAfterRun(signs, rest) => RenderSigns(signs, ['\\'] + rest)
    case OtherClass(signs, hi, rest) => RenderSigns(signs, ['-'] + RenderSign(hi, rest))
    case PassesEnd(signs, d) => RenderSigns(signs, ['-'] + ['\\', '\\', d])
  }

  predicate RunOk(signs: seq<Sign>) { signs != [] && SignsOk(signs) }

  predicate Unescaping(rest: Text) { rest == [] || !IsPrint(rest[0]) }

  predicate EndingOk(e: Ending) {
    match e
    case CutOff => true
    case BadEscape(rest) => Unescaping(rest)
    case NoSuchClass(rest) => Keyword(rest).None?
    case CutOffRun(signs) => RunOk(signs)
    case StrayAfterRun(signs, c, rest) => RunOk(signs) && !IsAlnum(c) && c !in "-[]\\"
    case EscapeAfterRun(signs, rest) => RunOk(signs) && Unescaping(rest)
    case OtherClass(signs, hi, rest) =>
      && RunOk(signs) && hi.c !in "]\\" && (hi.escaped ==> IsPrint(hi.c))
      && hi.c >= signs[0].c && !SameClass(hi.c, signs[0].c)
    case PassesEnd(signs, d) => RunOk(signs) && IsPrint(d) && d >= signs[0].c && SameClass(d, signs[0].c)
  }

  /** All of these are failures, but that the last one takes the pointer past the end of the pattern. */
  lemma EndingScanned(e: Ending, x: Scan)
    requires EndingOk(e) && x.state == Default && x.p == EndingText(e)
    ensures Rounds(x) == if e.PassesEnd? then Wild else Fail
  {
    match e
    case CutOff =>
    case BadEscape(rest) => assert x.p[1..] == rest;
    case NoSuchClass(rest) => assert x.p[1..][0] == ':' && x.p[2..] == rest;
    case CutOffRun(signs) => RunEnds(signs, [], x);
    case StrayAfterRun(signs, c, rest) => RunEnds(signs, [c] + rest, x);
    case EscapeAfterRun(signs, rest) =>
      assert (['\\'] + rest)[1..] == rest;
      RunEnds(signs, ['\\'] + rest, x);
    case OtherClass(signs, hi, rest) =>
      var y := DashScanned(signs, RenderSign(hi, rest), x);
      EndScanned(hi, rest, y);
    case PassesEnd(signs, d) => EndPassed(signs, d, x);
  }

  lemma RunEnds(signs: seq<Sign>, p: Text, x: Scan)
    requires RunOk(signs) && x.state == Default && x.p == RenderSigns(signs, p)
    requires p != [] ==> !IsAlnum(p[0]) && p[0] !in "-[]" && (p[0] == '\\' ==> Unescaping(p[1..]))
    ensures Rounds(x) == Fail
  {
    var y := RunScanned(signs, p, x);
    assert Round(y) == Stop(Fail);
  }

  lemma EndPassed(signs: seq<Sign>, d: Octet, x: Scan)
    requires RunOk(signs) && IsPrint(d) && d >= signs[0].c && SameClass(d, signs[0].c)
    requires x.state == Default && x.p == RenderSigns(signs, ['-'] + ['\\', '\\', d])
    ensures Rounds(x) == Wild
  {
    var y := DashScanned(signs, ['\\', '\\', d], x);
    assert y.p[1..][0] == '\\' && y.p[1..][1..][0] == d && y.p[1..][2..] == [];
    assert Round(y) == Stop(Wild);
  }

  /** A set that ends so is refused by the matcher, or takes it past the end of the pattern. */
  lemma SetEndsEarly(mark: Text, lead: Lead, qs: seq<Piece>, e: Ending, s: Text)
    requires StartOk(mark, lead, qs) && PiecesOk(qs, EndingText(e)) && EndingOk(e)
    requires mark == [] && lead.NoLead? && qs == [] ==> At(EndingText(e)) !in "^!"
    ensures var p := mark + RenderLead(lead, RenderPieces(qs, EndingText(e)));
      && SetOf(p) == (if e.PassesEnd? then Wild else Fail)
      && Fnmatch(['['] + p, s) == if e.PassesEnd? then RunOff else Refused
  {
    var p := mark + RenderLead(lead, RenderPieces(qs, EndingText(e)));
    var x := StartScanned(mark, lead, qs, RenderPieces(qs, EndingText(e)));
    var y := PiecesScanned(qs, EndingText(e), x);
    EndingScanned(e, y);
    assert (['['] + p)[1..] == p;
  }

  /** Behind `]` a set needs a printable character, and behind `][` any: the end of the pattern is taken
      for one there, and the pointer moves past it. */
  lemma LeadCutOff(mark: Text, rest: Text)
    requires mark == [] || mark == "!" || mark == "^"
    ensures Unescaping(rest) ==> SetOf(mark + ([']'] + rest)) == Fail
    ensures SetOf(mark + [']', '[']) == Wild
  {
    LeadStart(mark, [']'] + rest);
    LeadStart(mark, [']', '[']);
    assert ([']'] + rest)[1..] == rest;
  }

  lemma LeadStart(mark: Text, p: Text)
    requires (mark == [] || mark == "!" || mark == "^") && p != [] && p[0] == ']'
    ensures var cs := if mark == [] then Empty() else Empty()[NEGATE := true];
      SetOf(mark + p) == Rounds(Scan(RightBr, p[1..], Put(cs, ']'), '\0', true))
  {
    var x := Scan(Default, mark + p, Empty(), '\0', false);
    if mark == [] {
      assert mark + p == p;
    } else {
      assert x.p[1..] == p && x.p[0] == mark[0];
      OneRound(x, Scan(Default, p, Empty()[NEGATE := true], '\0', false));
    }
  }
}
