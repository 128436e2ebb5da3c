// The bracket sets of curl's wildcard patterns: how they are written, what the state machine of
// curl_fnmatch.c makes of them, and when that is what they say.
module GlobSet {
  import opened Options
  import opened Glob

  /** A character of a run: an alphanumeric one as it is, or any printable one behind a backslash. */
  datatype Sign = Sign(c: Octet, escaped: bool)

  /** What a set lists: single characters that need no backslash, named classes, runs of characters,
      and ranges. The dash of a range follows a run, and the range starts at the run's first
      character. */
  datatype Item = Plain(c: Octet) | Named(k: Class) | Run(signs: seq<Sign>) | Range(signs: seq<Sign>, hi: Sign)

  /** A set may start with `]`, or with `][`; the next character then stands for itself. */
  datatype Lead = NoLead | Lead(bracket: bool, next: Option<Octet>)

  /** A set may be negated, by `!` or `^`. */
  datatype Set = Set(mark: Text, lead: Lead, items: seq<Item>)

  predicate SignOk(s: Sign) {
    if s.escaped then IsPrint(s.c) else IsAlnum(s.c)
  }

  predicate SignsOk(signs: seq<Sign>) {
    forall i :: 0 <= i < |signs| ==> SignOk(signs[i])
  }

  predicate ItemOk(i: Item) {
    match i
    case Plain(c) => !IsAlnum(c) && c !in "[]\\"
    case Named(_) => true
    case Run(signs) => signs != [] && SignsOk(signs)
    case Range(signs, hi) => signs != [] && SignsOk(signs) && hi.c !in "]\\" && (hi.escaped ==> IsPrint(hi.c))
  }

  /** After a run, which may still become a range, only a named class may follow. */
  predicate ItemsOk(items: seq<Item>) {
    items != [] ==> ItemOk(items[0]) && (items[0].Run? && |items| > 1 ==> items[1].Named?) && ItemsOk(items[1..])
  }

  predicate LeadOk(lead: Lead, items: seq<Item>) {
    lead.Lead? ==>
      if lead.next.None? then items == []
      else lead.next.value != ']' && (!lead.bracket ==> lead.next.value != '[' && IsPrint(lead.next.value))
  }

  predicate MarkOk(t: Set) {
    && (t.mark == [] || t.mark == "!" || t.mark == "^")
    && (t.lead.NoLead? && t.mark == [] && t.items != [] ==> t.items[0] != Plain('!') && t.items[0] != Plain('^'))
  }

  /** The start of a set, according to this grammar. Its ranges may be anything. */
  predicate Opened(t: Set) {
    MarkOk(t) && LeadOk(t.lead, t.items) && ItemsOk(t.items)
  }

  /** A whole set: a bracket that comes first does not close it. */
  predicate Written(t: Set) {
    Opened(t) && (t.lead.NoLead? ==> t.items != [])
  }

  /** A range that ends at or above its start, in the same class of characters. */
  predicate Ascends(i: Item)
    requires i.Range? && i.signs != []
  {
    i.signs[0].c <= i.hi.c && SameClass(i.hi.c, i.signs[0].c)
  }

  /** A range that ends below its start. */
  predicate Descends(i: Item) {
    i.Range? && i.signs != [] && i.hi.c < i.signs[0].c
  }

  predicate Fine(i: Item) {
    i.Range? ==> i.signs != [] && Ascends(i)
  }

  predicate SetOk(t: Set) {
    Written(t) && forall i :: 0 <= i < |t.items| ==> Fine(t.items[i])
  }

  // How a set is written, in front of `rest`.

  function RenderSign(s: Sign, rest: Text): Text {
    if s.escaped then ['\\', s.c] + rest else [s.c] + rest
  }

  function RenderSigns(signs: seq<Sign>, rest: Text): Text {
    if signs == [] then rest else RenderSign(signs[0], RenderSigns(signs[1..], rest))
  }

  function RenderItem(i: Item, rest: Text): Text {
    match i
    case Plain(c) => [c] + rest
    case Named(k) => "[:" + ((Name(k) + ":]") + rest)
    case Run(signs) => RenderSigns(signs, rest)
    case Range(signs, hi) => RenderSigns(signs, ['-'] + RenderSign(hi, rest))
  }

  function RenderItems(items: seq<Item>, rest: Text): Text {
    if items == [] then rest else RenderItem(items[0], RenderItems(items[1..], rest))
  }

  function RenderLead(lead: Lead, rest: Text): Text {
    if lead.NoLead? then rest
    else
      var more := if lead.next.Some? then [lead.next.value] + rest else rest;
      if lead.bracket then [']', '['] + more else [']'] + more
  }

  function RenderOpen(t: Set, rest: Text): Text {
    t.mark + RenderLead(t.lead, RenderItems(t.items, rest))
  }

  function RenderSet(t: Set, rest: Text): Text {
    RenderOpen(t, [']'] + rest)
  }

  // What setcharset makes of it, round by round.

  function AddSigns(signs: seq<Sign>, cs: Charset): Charset {
    if signs == [] then cs else AddSigns(signs[1..], Put(cs, signs[0].c))
  }

  function AddItem(i: Item, cs: Charset): Charset {
    match i
    case Plain(c) => Put(cs, c)
    case Named(k) => cs[Flag(k) := true]
    case Run(signs) => AddSigns(signs, cs)
    case Range(signs, hi) =>
      if signs == [] then cs
      else Fill(Put(AddSigns(signs, cs), '-')['-' as int := false], signs[0].c as int, hi.c as int)
  }

  function AddItems(items: seq<Item>, cs: Charset): Charset {
    if items == [] then cs else AddItems(items[1..], AddItem(items[0], cs))
  }

  function AddLead(lead: Lead, cs: Charset): Charset {
    if lead.NoLead? then cs
    else
      var more := if lead.bracket then Put(Put(cs, ']'), '[') else Put(cs, ']');
      if lead.next.Some? then Put(more, lead.next.value) else more
  }

  function CharsetOf(t: Set): Charset {
    AddItems(t.items, AddLead(t.lead, if t.mark == [] then Empty() else Empty()[NEGATE := true]))
  }

  lemma OneRound(x: Scan, y: Scan)
    requires Round(x) == More(y)
    ensures Rounds(x) == Rounds(y)
  {
  }

  lemma {:induction false} MoreSigns(signs: seq<Sign>, rest: Text, x: Scan)
    requires SignsOk(signs) && x.state == MayRange && x.p == RenderSigns(signs, rest)
    ensures Rounds(x) == Rounds(x.(p := rest, cs := AddSigns(signs, x.cs)))
  {
    if signs != [] {
      var s, more := signs[0], RenderSigns(signs[1..], rest);
      var y := x.(p := more, cs := Put(x.cs, s.c));
      if s.escaped {
        assert x.p[1..][0] == s.c && x.p[2..] == more;
      } else {
        assert x.p[1..] == more;
      }
      OneRound(x, y);
      MoreSigns(signs[1..], rest, y);
    }
  }

  /** A run is read from the default state, and leaves its first character as the start of a range. */
  lemma RunScanned(signs: seq<Sign>, rest: Text, x: Scan) returns (y: Scan)
    requires SignsOk(signs) && signs != [] && x.state == Default && x.p == RenderSigns(signs, rest)
    ensures Rounds(x) == Rounds(y) && y == Scan(MayRange, rest, AddSigns(signs, x.cs), signs[0].c, true)
  {
    var s, more := signs[0], RenderSigns(signs[1..], rest);
    var one := Scan(MayRange, more, Put(x.cs, s.c), s.c, true);
    if s.escaped {
      assert x.p[1..][0] == s.c && x.p[2..] == more;
    } else {
      assert x.p[1..] == more;
    }
    OneRound(x, one);
    MoreSigns(signs[1..], rest, one);
    y := one.(p := rest, cs := AddSigns(signs[1..], one.cs));
  }

  lemma DashScanned(signs: seq<Sign>, rest: Text, x: Scan) returns (y: Scan)
    requires SignsOk(signs) && signs != [] && x.state == Default && x.p == RenderSigns(signs, ['-'] + rest)
    ensures Rounds(x) == Rounds(y)
    ensures y == Scan(MayRange2, rest, Put(AddSigns(signs, x.cs), '-'), signs[0].c, true)
  {
    var one := RunScanned(signs, ['-'] + rest, x);
    y := Scan(MayRange2, rest, Put(AddSigns(signs, x.cs), '-'), signs[0].c, true);
    assert one.p[1..] == rest;
    OneRound(one, y);
  }

  /** The end of a range decides: on with the rest, over and over again, or failure. */
  lemma EndScanned(hi: Sign, rest: Text, x: Scan)
    requires x.state == MayRange2 && x.p == RenderSign(hi, rest)
    requires hi.c !in "]\\" && (hi.escaped ==> IsPrint(hi.c))
    ensures Rounds(x)
         == if hi.c < x.start then Hang
            else if !SameClass(hi.c, x.start) then Fail
            else Rounds(Scan(Default, rest, Fill(x.cs['-' as int := false], x.start as int, hi.c as int),
                             (hi.c as int + 2) as char, x.found))
  {
    if hi.escaped {
      var p := x.p[1..];
      assert p[0] == hi.c && p[1..] == rest;
      if hi.c < x.start {
        OneRound(x, x.(p := p));
        assert Round(x.(p := p)) == Stop(Hang);
      }
    } else {
      assert x.p[1..] == rest;
    }
  }

  lemma NamedText(w: Text, rest: Text)
    ensures var q := (w + ":]") + rest;
      var p := "[:" + q;
      p[1] == ':' && p[2..] == q && p[2 + |w| + 2..] == rest && w + ":]" <= q
  {
  }

  lemma KeywordRound(x: Scan, k: Class)
    requires x.state == Default && |x.p| > 1 && x.p[0] == '[' && x.p[1] == ':' && Keyword(x.p[2..]) == Some(k)
    ensures Rounds(x)
         == Rounds(x.(p := x.p[2 + |Name(k)| + 2..], cs := x.cs[Flag(k) := true], found := true))
  {
    assert x.p[1..][0] == ':';
    OneRound(x, x.(p := x.p[2 + |Name(k)| + 2..], cs := x.cs[Flag(k) := true], found := true));
  }

  /** A named class is read from the default state, or after a run. */
  lemma NamedScanned(k: Class, rest: Text, x: Scan)
    requires (x.state == Default || x.state == MayRange) && x.p == RenderItem(Named(k), rest)
    ensures Rounds(x) == Rounds(Scan(Default, rest, x.cs[Flag(k) := true], x.start, true))
  {
    NamedText(Name(k), rest);
    KeywordIsName(x.p[2..], k);
    var y := x.(state := Default);
    if x.state == MayRange {
      OneRound(x, y);
    }
    KeywordRound(y, k);
  }

  predicate PlainHere(c: Octet, x: Scan) {
    (c == '^' || c == '!') ==> x.found || x.cs[NEGATE]
  }

  /** Where the items of a set are read from: the default state, or after a run a named class. */
  predicate Ready(x: Scan, items: seq<Item>) {
    if x.state == MayRange then items == [] || items[0].Named?
    else x.state == Default && (items != [] && items[0].Plain? ==> PlainHere(items[0].c, x))
  }

  lemma ItemScanned(i: Item, rest: Text, x: Scan) returns (y: Scan)
    requires ItemOk(i) && Ready(x, [i]) && x.p == RenderItem(i, rest)
    ensures Fine(i) ==> Rounds(x) == Rounds(y)
    ensures y.p == rest && y.cs == AddItem(i, x.cs) && y.found && y.state == if i.Run? then MayRange else Default
    ensures !Fine(i) ==> Rounds(x) == if Descends(i) then Hang else Fail
  {
    match i {
      case Plain(c) =>
        y := Scan(Default, rest, Put(x.cs, c), x.start, true);
        assert x.p[1..] == rest;
        OneRound(x, y);
      case Named(k) =>
        y := Scan(Default, rest, x.cs[Flag(k) := true], x.start, true);
        NamedScanned(k, rest, x);
      case Run(signs) =>
        y := RunScanned(signs, rest, x);
      case Range(signs, hi) =>
        var one := DashScanned(signs, RenderSign(hi, rest), x);
        EndScanned(hi, rest, one);
        y := Scan(Default, rest, AddItem(i, x.cs), if Ascends(i) then (hi.c as int + 2) as char else '\0', true);
    }
  }

  /** What becomes of a scan: it goes on, or the first range that does not ascend in its class ends
      it, with an endless round if the range descends and a failure if not. */
  datatype Fate = GoesOn | NeverEnds | Fails

  function FateOf(items: seq<Item>): Fate {
    if items == [] then GoesOn
    else if Fine(items[0]) then FateOf(items[1..])
    else if Descends(items[0]) then NeverEnds
    else Fails
  }

  predicate After(items: seq<Item>, state: SetState) {
    state == if items != [] && items[|items| - 1].Run? then MayRange else Default
  }

  lemma {:induction false} ItemsScanned(items: seq<Item>, rest: Text, x: Scan) returns (y: Scan)
    requires ItemsOk(items) && Ready(x, items) && x.p == RenderItems(items, rest)
    ensures FateOf(items) == GoesOn ==> Rounds(x) == Rounds(y) && y.p == rest && y.cs == AddItems(items, x.cs)
    ensures FateOf(items) == GoesOn ==> y.found == (x.found || items != [])
    ensures FateOf(items) == GoesOn && items != [] ==> After(items, y.state)
    ensures FateOf(items) == GoesOn && items == [] ==> y == x
    ensures FateOf(items) == NeverEnds ==> Rounds(x) == Hang
    ensures FateOf(items) == Fails ==> Rounds(x) == Fail
  {
    y := x;
    if items != [] {
      y := ItemScanned(items[0], RenderItems(items[1..], rest), x);
      if Fine(items[0]) {
        y := ItemsScanned(items[1..], rest, y);
      }
    }
  }

  lemma LeadScanned(lead: Lead, rest: Text, x: Scan) returns (y: Scan)
    requires lead.Lead? && x.state == Default && !x.found && x.p == RenderLead(lead, rest)
    requires lead.next.Some? ==>
      lead.next.value != ']' && (!lead.bracket ==> lead.next.value != '[' && IsPrint(lead.next.value))
    ensures Rounds(x) == Rounds(y)
    ensures y == Scan(if lead.next.Some? then Default else if lead.bracket then RightBrLeftBr else RightBr,
                      rest, AddLead(lead, x.cs), x.start, true)
  {
    y := Scan(RightBr, x.p[1..], Put(x.cs, ']'), x.start, true);
    OneRound(x, y);
    if lead.bracket {
      var z := Scan(RightBrLeftBr, x.p[2..], Put(y.cs, '['), x.start, true);
      OneRound(y, z);
      y := z;
    }
    if lead.next.Some? {
      assert y.p[1..] == rest;
      var z := Scan(Default, rest, Put(y.cs, lead.next.value), x.start, true);
      OneRound(y, z);
      y := z;
    } else {
      assert y.p == rest;
    }
  }

  /** Up to where the items start. */
  lemma OpenScanned(t: Set, rest: Text) returns (y: Scan)
    requires Opened(t)
    ensures SetOf(RenderOpen(t, rest)) == Rounds(y)
    ensures y.p == RenderItems(t.items, rest)
    ensures y.cs == AddLead(t.lead, if t.mark == [] then Empty() else Empty()[NEGATE := true])
    ensures y.found == t.lead.Lead?
    ensures y.state == if t.lead.NoLead? || t.lead.next.Some? then Default
                       else if t.lead.bracket then RightBrLeftBr else RightBr
    ensures t.lead.NoLead? || t.lead.next.Some? ==> Ready(y, t.items)
  {
    var body := RenderLead(t.lead, RenderItems(t.items, rest));
    y := Scan(Default, RenderOpen(t, rest), Empty(), '\0', false);
    if t.mark == [] {
      assert RenderOpen(t, rest) == body;
    } else {
      assert y.p[1..] == body && y.p[0] == t.mark[0];
      var z := Scan(Default, body, Empty()[NEGATE := true], '\0', false);
      OneRound(y, z);
      y := z;
    }
    if t.lead.Lead? {
      y := LeadScanned(t.lead, RenderItems(t.items, rest), y);
    }
  }

  lemma Closed(x: Scan, rest: Text)
    requires x.p == [']'] + rest && x.found
    requires x.state == Default || x.state == MayRange || x.state == RightBr || x.state == RightBrLeftBr
    ensures Rounds(x) == Ok([']'] + rest, x.cs)
  {
  }

  /** The state machine reads any set of the grammar up to the bracket that closes it, unless a range
      that does not ascend in its class stops it before. */
  lemma SetScanned(t: Set, rest: Text)
    requires Written(t)
    ensures SetOf(RenderSet(t, rest))
         == match FateOf(t.items)
            case GoesOn => Ok([']'] + rest, CharsetOf(t))
            case NeverEnds => Hang
            case Fails => Fail
  {
    var x := OpenScanned(t, [']'] + rest);
    if t.items != [] || t.lead.NoLead? {
      var y := ItemsScanned(t.items, [']'] + rest, x);
      if FateOf(t.items) == GoesOn {
        Closed(y, rest);
      }
    } else {
      Closed(x, rest);
    }
  }

  lemma {:induction false} FateIsFirst(items: seq<Item>)
    ensures FateOf(items) == NeverEnds <==>
      exists i :: 0 <= i < |items| && Descends(items[i]) && forall j :: 0 <= j < i ==> Fine(items[j])
    ensures FateOf(items) == GoesOn <==> forall i :: 0 <= i < |items| ==> Fine(items[i])
  {
    if items != [] {
      FateIsFirst(items[1..]);
      if i :| 0 <= i < |items| && Descends(items[i]) && forall j :: 0 <= j < i ==> Fine(items[j]) {
        if i > 0 {
          assert Descends(items[1..][i - 1]) && forall j :: 0 <= j < i - 1 ==> Fine(items[1..][j]) by {
            assert forall j :: 0 <= j < i - 1 ==> items[1..][j] == items[j + 1];
          }
        }
      }
      if FateOf(items) == NeverEnds && Fine(items[0]) {
        var i :| 0 <= i < |items[1..]| && Descends(items[1..][i]) && forall j :: 0 <= j < i ==> Fine(items[1..][j]);
        assert Descends(items[i + 1]) && forall j :: 0 < j < i + 1 ==> items[j] == items[1..][j - 1];
      }
    }
  }

  /** A set is read for ever exactly when some range of it descends and every earlier one ascends
      inside one class. */
  lemma SetHangs(t: Set, rest: Text)
    requires Written(t)
    ensures SetOf(RenderSet(t, rest)) == Hang <==>
      exists i :: 0 <= i < |t.items| && Descends(t.items[i]) && forall j :: 0 <= j < i ==> Fine(t.items[j])
    ensures SetOf(RenderSet(t, rest)).Ok? <==> forall i :: 0 <= i < |t.items| ==> Fine(t.items[i])
  {
    SetScanned(t, rest);
    FateIsFirst(t.items);
  }

  /** A range that stops the reading stops it whatever comes behind, a closing bracket or none. */
  lemma RangeStops(t: Set, rest: Text)
    requires Opened(t)
    ensures FateOf(t.items) == NeverEnds ==> SetOf(RenderOpen(t, rest)) == Hang
    ensures FateOf(t.items) == Fails ==> SetOf(RenderOpen(t, rest)) == Fail
  {
    if t.items != [] {
      var x := OpenScanned(t, rest);
      var y := ItemsScanned(t.items, rest, x);
    }
  }

  /** A pattern that ends behind the dash of a range: read for ever, unless a range before it fails. */
  lemma CutOffRangeHangs(t: Set, signs: seq<Sign>)
    requires Opened(t) && SignsOk(signs) && signs != []
    requires t.items != [] ==> !t.items[|t.items| - 1].Run?
    requires t.lead.Lead? ==> t.lead.next.Some?
    ensures SetOf(RenderOpen(t, RenderSigns(signs, "-"))) == Hang <==> FateOf(t.items) != Fails
  {
    var tail := RenderSigns(signs, ['-'] + []);
    assert ['-'] + [] == "-";
    var x := OpenScanned(t, tail);
    var y := ItemsScanned(t.items, tail, x);
    if FateOf(t.items) == GoesOn {
      var z := DashScanned(signs, [], y);
      assert Round(z) == Stop(Hang);
    }
  }

  // What a set says.

  predicate Lists(i: Item, c: char) {
    match i
    case Plain(d) => c == d
    case Named(_) => false
    case Run(signs) => exists j :: 0 <= j < |signs| && signs[j].c == c
    case Range(signs, hi) =>
      (exists j :: 0 <= j < |signs| && signs[j].c == c) || (signs != [] && signs[0].c <= c <= hi.c)
  }

  predicate LeadLists(lead: Lead, c: char) {
    lead.Lead? && (c == ']' || (lead.bracket && c == '[') || (lead.next.Some? && c == lead.next.value))
  }

  /** The characters that a set writes out. */
  predicate Listed(t: Set, c: char) {
    LeadLists(t.lead, c) || exists i :: 0 <= i < |t.items| && Lists(t.items[i], c)
  }

  /** Whether a dash, written before these items or in one of them, is still in the set after them:
      every range takes the dash out again. */
  function DashStays(items: seq<Item>, before: bool): bool {
    if items == [] then before
    else DashStays(items[1..], !items[0].Range? && (before || Lists(items[0], '-')))
  }

  function DashKept(t: Set): bool {
    DashStays(t.items, LeadLists(t.lead, '-'))
  }

  /** The characters written out that the set keeps: all but a dash with a range behind it. */
  predicate Kept(t: Set, c: char) {
    if c == '-' then DashKept(t) else Listed(t, c)
  }

  /** What a set is meant to cover: all that is written out, and all of every class that it names. */
  ghost predicate Covers(t: Set, c: char) {
    Listed(t, c) || exists k :: Named(k) in t.items && InClass(k, c)
  }

  lemma {:induction false} Filled(cs: Charset, from: int, last: int, c: int)
    requires 0 <= from && last < 256 && 0 <= c < CHSET_SIZE
    ensures Fill(cs, from, last)[c] <==> cs[c] || from < c <= last
    decreases last - from
  {
    if from < last {
      Filled(cs, from, last - 1, c);
    }
  }

  lemma {:induction false} SignsAdd(signs: seq<Sign>, cs: Charset, c: int)
    requires 0 <= c < CHSET_SIZE
    ensures AddSigns(signs, cs)[c] <==> cs[c] || exists j :: 0 <= j < |signs| && signs[j].c as int == c
  {
    if signs != [] {
      SignsAdd(signs[1..], Put(cs, signs[0].c), c);
      if j :| 0 <= j < |signs| && signs[j].c as int == c {
        assert j > 0 ==> signs[1..][j - 1] == signs[j];
      }
      if j :| 0 <= j < |signs[1..]| && signs[1..][j].c as int == c {
        assert signs[j + 1].c as int == c;
      }
    }
  }

  /** One item adds what it lists, and a range takes the dash out. */
  lemma ItemAdds(i: Item, cs: Charset, c: Uchar)
    requires ItemOk(i) && Fine(i)
    ensures AddItem(i, cs)[c as int] <==>
      if c == '-' && i.Range? then false else cs[c as int] || Lists(i, c)
  {
    if i.Run? {
      SignsAdd(i.signs, cs, c as int);
    } else if i.Range? {
      SignsAdd(i.signs, cs, c as int);
      var without := Put(AddSigns(i.signs, cs), '-')['-' as int := false];
      Filled(without, i.signs[0].c as int, i.hi.c as int, c as int);
    }
  }

  lemma {:induction false} ItemsAdd(items: seq<Item>, cs: Charset, c: Uchar)
    requires ItemsOk(items) && forall i :: 0 <= i < |items| ==> Fine(items[i])
    ensures AddItems(items, cs)[c as int] <==>
      if c == '-' then DashStays(items, cs[c as int])
      else cs[c as int] || exists i :: 0 <= i < |items| && Lists(items[i], c)
  {
    if items != [] {
      ItemAdds(items[0], cs, c);
      ItemsAdd(items[1..], AddItem(items[0], cs), c);
      if i :| 0 <= i < |items| && Lists(items[i], c) {
        assert i > 0 ==> Lists(items[1..][i - 1], c);
      }
      if i :| 0 <= i < |items[1..]| && Lists(items[1..][i], c) {
        assert Lists(items[i + 1], c);
      }
    }
  }

  lemma ItemFlags(i: Item, cs: Charset, f: int)
    requires ItemOk(i) && Fine(i) && NEGATE <= f < CHSET_SIZE
    ensures AddItem(i, cs)[f] <==> cs[f] || (i.Named? && Flag(i.k) == f)
  {
    if i.Run? {
      SignsAdd(i.signs, cs, f);
    } else if i.Range? {
      SignsAdd(i.signs, cs, f);
      Filled(Put(AddSigns(i.signs, cs), '-')['-' as int := false], i.signs[0].c as int, i.hi.c as int, f);
    }
  }

  lemma {:induction false} ItemsFlag(items: seq<Item>, cs: Charset, k: Class)
    requires ItemsOk(items) && forall i :: 0 <= i < |items| ==> Fine(items[i])
    ensures AddItems(items, cs)[Flag(k)] <==> cs[Flag(k)] || Named(k) in items
    ensures AddItems(items, cs)[NEGATE] == cs[NEGATE]
  {
    if items != [] {
      ItemFlags(items[0], cs, Flag(k));
      ItemFlags(items[0], cs, NEGATE);
      ItemsFlag(items[1..], AddItem(items[0], cs), k);
      assert items == [items[0]] + items[1..];
    }
  }

  /** setcharset keeps exactly what the set writes out, but for a dash with a range behind it, and has
      one flag for each class named and one for the negation. */
  lemma SetIsUnion(t: Set, c: Uchar, k: Class)
    requires SetOk(t)
    ensures CharsetOf(t)[c as int] <==> Kept(t, c)
    ensures CharsetOf(t)[Flag(k)] <==> Named(k) in t.items
    ensures CharsetOf(t)[NEGATE] <==> t.mark != []
  {
    var cs := AddLead(t.lead, if t.mark == [] then Empty() else Empty()[NEGATE := true]);
    assert cs[c as int] <==> LeadLists(t.lead, c);
    ItemsAdd(t.items, cs, c);
    ItemsFlag(t.items, cs, k);
  }

  // When the matcher's test of a set is what the set says.

  /** Of the classes that a set names, the matcher tests just one: the first in this order. */
  function Tested(t: Set): (k: Option<Class>)
    ensures k.Some? ==> Named(k.value) in t.items
  {
    if Named(Alnum) in t.items then Some(Alnum)
    else if Named(Alpha) in t.items then Some(Alpha)
    else if Named(Digit) in t.items then Some(Digit)
    else if Named(Xdigit) in t.items then Some(Xdigit)
    else if Named(Print) in t.items then Some(Print)
    else if Named(Space) in t.items then Some(Space)
    else if Named(Upper) in t.items then Some(Upper)
    else if Named(Lower) in t.items then Some(Lower)
    else if Named(Blank) in t.items then Some(Blank)
    else if Named(Graph) in t.items then Some(Graph)
    else None
  }

  lemma NamedIsTested(t: Set, k: Class)
    requires Named(k) in t.items
    ensures Tested(t).Some?
  {
  }

  predicate Accepted(t: Set, c: char) {
    Kept(t, c) || (Tested(t).Some? && InClass(Tested(t).value, c))
  }

  lemma ChainTests(t: Set, c: Uchar)
    requires SetOk(t)
    ensures Chain(CharsetOf(t), c) <==> Accepted(t, c)
  {
    forall k: Class
      ensures CharsetOf(t)[Flag(k)] <==> Named(k) in t.items
      ensures CharsetOf(t)[c as int] <==> Kept(t, c)
    {
      SetIsUnion(t, c, k);
    }
  }

  /** The stretches of characters that the classes are made of. */
  datatype Atom = Digits | HexLower | OtherLower | HexUpper | OtherUpper | Marks | Blanks | Tabs | Breaks

  predicate InAtom(a: Atom, c: char) {
    match a
    case Digits => IsDigit(c)
    case HexLower => 'a' <= c <= 'f'
    case OtherLower => 'g' <= c <= 'z'
    case HexUpper => 'A' <= c <= 'F'
    case OtherUpper => 'G' <= c <= 'Z'
    case Marks => '!' <= c <= '~' && !IsAlnum(c)
    case Blanks => c == ' '
    case Tabs => c == '\t'
    case Breaks => 10 <= c as int <= 13
  }

  function Atoms(k: Class): set<Atom> {
    match k
    case Alnum => {Digits, HexLower, OtherLower, HexUpper, OtherUpper}
    case Digit => {Digits}
    case Xdigit => {Digits, HexLower, HexUpper}
    case Alpha => {HexLower, OtherLower, HexUpper, OtherUpper}
    case Print => {Digits, HexLower, OtherLower, HexUpper, OtherUpper, Marks, Blanks}
    case Blank => {Blanks, Tabs}
    case Lower => {HexLower, OtherLower}
    case Graph => {Digits, HexLower, OtherLower, HexUpper, OtherUpper, Marks}
    case Space => {Blanks, Tabs, Breaks}
    case Upper => {HexUpper, OtherUpper}
  }

  function AtomOf(k: Class, c: char): (a: Atom)
    requires InClass(k, c)
    ensures InAtom(a, c) && a in Atoms(k)
  {
    if IsDigit(c) then Digits
    else if 'a' <= c <= 'f' then HexLower
    else if IsLower(c) then OtherLower
    else if 'A' <= c <= 'F' then HexUpper
    else if IsUpper(c) then OtherUpper
    else if c == ' ' then Blanks
    else if c == '\t' then Tabs
    else if 10 <= c as int <= 13 then Breaks
    else Marks
  }

  lemma AtomDecides(a: Atom, k: Class, c: char)
    requires InAtom(a, c)
    ensures InClass(k, c) <==> a in Atoms(k)
    ensures 0 < c as int < 256
  {
  }

  /** Every class that a set names consists of stretches that the tested class has, or that the set
      writes out itself. */
  ghost predicate ClassesShown(t: Set) {
    forall k, a :: Named(k) in t.items && a in Atoms(k) ==>
      (Tested(t).Some? && a in Atoms(Tested(t).value)) || forall c :: InAtom(a, c) ==> Kept(t, c)
  }

  /** No dash is lost, unless the tested class has it. */
  ghost predicate DashShown(t: Set) {
    Listed(t, '-') ==> DashKept(t) || (Tested(t).Some? && Marks in Atoms(Tested(t).value))
  }

  ghost predicate Plainly(t: Set) {
    ClassesShown(t) && DashShown(t)
  }

  lemma PlainlyAccepts(t: Set, c: Uchar)
    requires SetOk(t) && Plainly(t)
    ensures Accepted(t, c) == Covers(t, c)
  {
    if k :| Named(k) in t.items && InClass(k, c) {
      NamedIsTested(t, k);
      var a := AtomOf(k, c);
      AtomDecides(a, Tested(t).value, c);
    }
    if Tested(t).Some? {
      AtomDecides(Marks, Tested(t).value, '-');
    }
    KeptIsListed(t);
  }

  lemma {:induction false} StaysListed(items: seq<Item>, before: bool)
    requires DashStays(items, before)
    ensures before || exists i :: 0 <= i < |items| && Lists(items[i], '-')
  {
    if items != [] {
      StaysListed(items[1..], !items[0].Range? && (before || Lists(items[0], '-')));
      if i :| 0 <= i < |items[1..]| && Lists(items[1..][i], '-') {
        assert Lists(items[i + 1], '-');
      }
    }
  }

  lemma KeptIsListed(t: Set)
    ensures forall c :: Kept(t, c) ==> Listed(t, c)
  {
    if DashKept(t) {
      StaysListed(t.items, LeadLists(t.lead, '-'));
    }
  }

  lemma CoversAccepted(t: Set)
    requires SetOk(t) && forall c: Uchar :: Accepted(t, c) == Covers(t, c)
    ensures Plainly(t)
  {
    forall k, a | Named(k) in t.items && a in Atoms(k)
      ensures (Tested(t).Some? && a in Atoms(Tested(t).value)) || forall c :: InAtom(a, c) ==> Kept(t, c)
    {
      NamedIsTested(t, k);
      forall c | InAtom(a, c)
        ensures a in Atoms(Tested(t).value) || Kept(t, c)
      {
        AtomDecides(a, k, c);
        AtomDecides(a, Tested(t).value, c);
        assert Covers(t, c) && Accepted(t, c);
      }
    }
    if Listed(t, '-') {
      assert Covers(t, '-') && Accepted(t, '-');
      if Tested(t).Some? {
        AtomDecides(Marks, Tested(t).value, '-');
      }
    }
  }

  /** The test of a set accepts what the set is meant to cover, for every character, exactly when its
      classes are made of stretches of the one class tested, or written out besides, and no dash is
      lost to a range. */
  lemma SetMeans(t: Set)
    requires SetOk(t)
    ensures (forall c: Uchar :: Chain(CharsetOf(t), c) == Covers(t, c)) <==> Plainly(t)
  {
    forall c: Uchar
      ensures Chain(CharsetOf(t), c) <==> Accepted(t, c)
      ensures Plainly(t) ==> Accepted(t, c) == Covers(t, c)
    {
      ChainTests(t, c);
      if Plainly(t) {
        PlainlyAccepts(t, c);
      }
    }
    if forall c: Uchar :: Chain(CharsetOf(t), c) == Covers(t, c) {
      CoversAccepted(t);
    }
  }

  /** One class inside another, as the table of the classes has it. */
  predicate Within(k: Class, j: Class) {
    k == j
    || match j
       case Alnum => k.Digit? || k.Xdigit? || k.Alpha? || k.Lower? || k.Upper?
       case Xdigit => k.Digit?
       case Alpha => k.Lower? || k.Upper?
       case Print => k.Alnum? || k.Digit? || k.Xdigit? || k.Alpha? || k.Lower? || k.Upper? || k.Graph?
       case Graph => k.Alnum? || k.Digit? || k.Xdigit? || k.Alpha? || k.Lower? || k.Upper?
       case Space => k.Blank?
       case _ => false
  }

  lemma WithinIsInclusion(k: Class, j: Class)
    ensures Within(k, j) <==> Atoms(k) <= Atoms(j)
    ensures Within(k, j) <==> forall c :: InClass(k, c) ==> InClass(j, c)
  {
    WithinByAtoms(k, j);
    AtomsInclude(k, j);
  }

  lemma WithinByAtoms(k: Class, j: Class)
    ensures Within(k, j) <==> Atoms(k) <= Atoms(j)
  {
    match k
    case Alnum =>
      assert Atoms(k) <= Atoms(j) <==> Digits in Atoms(j) && OtherLower in Atoms(j) && OtherUpper in Atoms(j);
    case Digit =>
    case Xdigit => assert Atoms(k) <= Atoms(j) <==> Digits in Atoms(j) && HexLower in Atoms(j);
    case Alpha => assert Atoms(k) <= Atoms(j) <==> OtherLower in Atoms(j) && OtherUpper in Atoms(j);
    case Print => assert Atoms(k) <= Atoms(j) <==> Marks in Atoms(j) && Blanks in Atoms(j);
    case Blank =>
    case Lower => assert Atoms(k) <= Atoms(j) <==> OtherLower in Atoms(j);
    case Graph => assert Atoms(k) <= Atoms(j) <==> Marks in Atoms(j);
    case Space => assert Atoms(k) <= Atoms(j) <==> Breaks in Atoms(j);
    case Upper => assert Atoms(k) <= Atoms(j) <==> OtherUpper in Atoms(j);
  }

  lemma AtomsInclude(k: Class, j: Class)
    ensures Atoms(k) <= Atoms(j) <==> forall c :: InClass(k, c) ==> InClass(j, c)
  {
    forall a: Atom
      ensures a in Atoms(k) ==> InClass(k, Sample(a)) && (InClass(j, Sample(a)) <==> a in Atoms(j))
    {
      AtomDecides(a, k, Sample(a));
      AtomDecides(a, j, Sample(a));
    }
    if Atoms(k) <= Atoms(j) {
      forall c | InClass(k, c)
        ensures InClass(j, c)
      {
        AtomDecides(AtomOf(k, c), j, c);
      }
    }
  }

  function Sample(a: Atom): (c: char)
    ensures InAtom(a, c)
  {
    match a
    case Digits => '0'
    case HexLower => 'a'
    case OtherLower => 'g'
    case HexUpper => 'A'
    case OtherUpper => 'G'
    case Marks => '!'
    case Blanks => ' '
    case Tabs => '\t'
    case Breaks => '\n'
  }

  /** A set of named classes only means what it says exactly when all of them are within the first of
      them in the order of the test. */
  lemma ClassesMean(t: Set)
    requires SetOk(t) && t.lead.NoLead? && forall i :: 0 <= i < |t.items| ==> t.items[i].Named?
    ensures Plainly(t) <==> forall k :: Named(k) in t.items ==> Tested(t).Some? && Within(k, Tested(t).value)
  {
    assert forall c :: !Listed(t, c);
    KeptIsListed(t);
    forall k | Named(k) in t.items
      ensures Tested(t).Some? && (Within(k, Tested(t).value) <==> Atoms(k) <= Atoms(Tested(t).value))
    {
      NamedIsTested(t, k);
      WithinIsInclusion(k, Tested(t).value);
    }
    if Plainly(t) {
      forall k | Named(k) in t.items
        ensures Tested(t).Some? && Atoms(k) <= Atoms(Tested(t).value)
      {
        forall a | a in Atoms(k)
          ensures a in Atoms(Tested(t).value)
        {
          assert InAtom(a, Sample(a)) && !Kept(t, Sample(a));
        }
      }
    }
  }

  /** With one class at most, only a dash can be missing. */
  lemma OneClassMeans(t: Set)
    requires forall j, k :: Named(j) in t.items && Named(k) in t.items ==> j == k
    ensures Plainly(t) <==> DashShown(t)
  {
    forall k | Named(k) in t.items
      ensures Tested(t) == Some(k)
    {
      NamedIsTested(t, k);
    }
  }

  /** Two classes need not make a union: a set of the digits and the capitals refuses `A`. */
  lemma SecondClassIsShadowed()
    ensures var t := Set([], NoLead, [Named(Digit), Named(Upper)]);
      SetOk(t) && Covers(t, 'A') && !Chain(CharsetOf(t), 'A')
  {
    var t := Set([], NoLead, [Named(Digit), Named(Upper)]);
    assert t.items[0] == Named(Digit) && t.items[1] == Named(Upper);
    assert ItemsOk(t.items[1..]);
    ChainTests(t, 'A');
  }

  /** A dash in front of a range is lost: the set of `-` and `a` to `c`, in this order, refuses it. */
  lemma DashIsLost()
    ensures var t := Set([], NoLead, [Plain('-'), Range([Sign('a', false)], Sign('c', false))]);
      SetOk(t) && Covers(t, '-') && !Chain(CharsetOf(t), '-')
  {
    var t := Set([], NoLead, [Plain('-'), Range([Sign('a', false)], Sign('c', false))]);
    assert Lists(t.items[0], '-') && ItemsOk(t.items[1..]);
    ChainTests(t, '-');
  }
}
