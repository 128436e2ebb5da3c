// curl's wildcard matcher, curl_fnmatch.c: a backtracking loop over the pattern, and a state
// machine of its own for the bracket sets. The character classes are those of the C locale.
module Glob {
  import opened Options

  /** One character of a C string. A pointer into a C string is the rest of the string; the empty
      rest is the terminating NUL. */
  type Octet = c: char | 0 < c as int < 256 witness 'a'

  type Text = seq<Octet>

  type Uchar = c: char | c as int < 256

  function At(p: Text): Uchar {
    if p == [] then '\0' else p[0]
  }

  predicate IsLower(c: char) { 'a' <= c <= 'z' }

  predicate IsUpper(c: char) { 'A' <= c <= 'Z' }

  predicate IsDigit(c: char) { '0' <= c <= '9' }

  predicate IsAlpha(c: char) { IsLower(c) || IsUpper(c) }

  predicate IsAlnum(c: char) { IsAlpha(c) || IsDigit(c) }

  predicate IsPrint(c: char) { ' ' <= c <= '~' }

  predicate SameClass(c: char, d: char) {
    (IsLower(c) && IsLower(d)) || (IsDigit(c) && IsDigit(d)) || (IsUpper(c) && IsUpper(d))
  }

  // The set of characters: 256 flags, the negation flag, then one flag for each class.

  datatype Class = Alnum | Digit | Xdigit | Alpha | Print | Blank | Lower | Graph | Space | Upper

  const NEGATE := 256

  const CHSET_SIZE := 271

  type Charset = cs: seq<bool> | |cs| == CHSET_SIZE witness seq(CHSET_SIZE, i => false)

  function Empty(): (cs: Charset)
    ensures forall i :: 0 <= i < CHSET_SIZE ==> !cs[i]
  {
    seq(CHSET_SIZE, i => false)
  }

  function Flag(k: Class): (i: nat)
    ensures NEGATE < i < CHSET_SIZE
  {
    match k
    case Alnum => 257
    case Digit => 258
    case Xdigit => 259
    case Alpha => 260
    case Print => 261
    case Blank => 262
    case Lower => 263
    case Graph => 264
    case Space => 265
    case Upper => 266
  }

  predicate InClass(k: Class, c: char) {
    match k
    case Alnum => IsAlnum(c)
    case Digit => IsDigit(c)
    case Xdigit => IsDigit(c) || 'a' <= c <= 'f' || 'A' <= c <= 'F'
    case Alpha => IsAlpha(c)
    case Print => IsPrint(c)
    case Blank => c == ' ' || c == '\t'
    case Lower => IsLower(c)
    case Graph => '!' <= c <= '~'
    case Space => c == ' ' || 9 <= c as int <= 13
    case Upper => IsUpper(c)
  }

  function Name(k: Class): Text {
    match k
    case Alnum => "alnum"
    case Digit => "digit"
    case Xdigit => "xdigit"
    case Alpha => "alpha"
    case Print => "print"
    case Blank => "blank"
    case Lower => "lower"
    case Graph => "graph"
    case Space => "space"
    case Upper => "upper"
  }

  function Put(cs: Charset, c: Uchar): Charset {
    cs[c as int := true]
  }

  /** The characters after `from` and up to `last` are added. */
  function Fill(cs: Charset, from: int, last: int): Charset
    requires 0 <= from && last < 256
    decreases last - from
  {
    if from >= last then cs else Fill(cs, from, last - 1)[last := true]
  }

  function Lookup(w: Text): (k: Option<Class>)
    ensures k.Some? ==> Name(k.value) == w
  {
    if w == "digit" then Some(Digit)
    else if w == "alnum" then Some(Alnum)
    else if w == "alpha" then Some(Alpha)
    else if w == "xdigit" then Some(Xdigit)
    else if w == "print" then Some(Print)
    else if w == "graph" then Some(Graph)
    else if w == "space" then Some(Space)
    else if w == "blank" then Some(Blank)
    else if w == "upper" then Some(Upper)
    else if w == "lower" then Some(Lower)
    else None
  }

  predicate Letters(w: Text) {
    forall i :: 0 <= i < |w| ==> IsLower(w[i])
  }

  function LetterRun(p: Text): (n: nat)
    ensures n <= |p| && Letters(p[..n]) && !IsLower(At(p[n..]))
  {
    if !IsLower(At(p)) then 0
    else
      var n := 1 + LetterRun(p[1..]);
      assert p[..n] == [p[0]] + p[1..][..n - 1] && p[n..] == p[1..][n - 1..];
      n
  }

  predicate Closed(p: Text, n: nat) {
    n + 1 < |p| && p[n] == ':' && p[n + 1] == ']'
  }

  /** The class whose name, followed by `:]`, starts the text. */
  function Keyword(p: Text): (k: Option<Class>)
    ensures k.Some? ==> |Name(k.value)| + 2 <= |p|
  {
    var n := LetterRun(p);
    if Closed(p, n) then Lookup(p[..n]) else None
  }

  // The bracket state machine, one round at a time.

  datatype SetState = Default | MayRange | MayRange2 | RightBr | RightBrLeftBr

  /** `Hang` is a round that changes nothing and so repeats for ever; `Wild` moves the pointer past
      the end of the pattern. */
  datatype SetResult = Ok(p: Text, cs: Charset) | Fail | Hang | Wild

  datatype Scan = Scan(state: SetState, p: Text, cs: Charset, start: Uchar, found: bool)

  datatype Next = More(scan: Scan) | Stop(result: SetResult)

  function Rank(state: SetState): nat {
    if state == MayRange then 1 else 0
  }

  function InDefault(x: Scan): Next {
    var c := At(x.p);
    if c == '\0' then Stop(Fail)
    else
      var put := x.(p := x.p[1..], cs := Put(x.cs, c), found := true);
      if IsAlnum(c) then More(put.(state := MayRange, start := c))
      else if c == ']' then if x.found then Stop(Ok(x.p, x.cs)) else More(put.(state := RightBr))
      else if c == '[' && At(x.p[1..]) == ':' then
        var k := Keyword(x.p[2..]);
        if k.None? then Stop(Fail)
        else More(x.(p := x.p[2 + |Name(k.value)| + 2..], cs := x.cs[Flag(k.value) := true], found := true))
      else if (c == '^' || c == '!') && !x.found && !x.cs[NEGATE] then
        More(x.(p := x.p[1..], cs := x.cs[NEGATE := true]))
      else if c == '\\' then
        var d := At(x.p[1..]);
        if IsPrint(d) then
          More(x.(state := MayRange, p := x.p[2..], cs := Put(x.cs, d), start := d, found := true))
        else Stop(Fail)
      else More(put)
  }

  function InMayRange(x: Scan): Next {
    var c := At(x.p);
    if c == '-' then More(x.(state := MayRange2, p := x.p[1..], cs := Put(x.cs, c)))
    else if c == '[' then More(x.(state := Default))
    else if IsAlnum(c) then More(x.(p := x.p[1..], cs := Put(x.cs, c)))
    else if c == '\\' then
      var d := At(x.p[1..]);
      if IsPrint(d) then More(x.(p := x.p[2..], cs := Put(x.cs, d))) else Stop(Fail)
    else if c == ']' then Stop(Ok(x.p, x.cs))
    else Stop(Fail)
  }

  /** The end of a range, when it is not below the start. */
  function EndRange(x: Scan, c: Uchar): Next {
    if !SameClass(c, x.start) then Stop(Fail)
    else if x.p == [] then Stop(Wild)
    else
      var without := x.cs['-' as int := false];
      More(x.(state := Default, p := x.p[1..], start := (c as int + 2) as char,
              cs := Fill(without, x.start as int, c as int)))
  }

  function InMayRange2(x: Scan): Next {
    var escaped := At(x.p) == '\\';
    if escaped && !IsPrint(At(x.p[1..])) then Stop(Fail)
    else
      var p := if escaped then x.p[1..] else x.p;
      var c := At(p);
      if c == ']' then Stop(Ok(p, x.cs))
      else if c == '\\' then
        var d := At(p[1..]);
        if !IsPrint(d) then Stop(Fail)
        else
          var put := x.(state := Default, p := p[2..], cs := Put(x.cs, d));
          if d >= x.start then EndRange(put, d) else More(put)
      else if c >= x.start then EndRange(x.(p := p), c)
      else if escaped then More(x.(p := p))
      else Stop(Hang)
  }

  function InRightBr(x: Scan): Next {
    var c := At(x.p);
    if c == ']' then Stop(Ok(x.p, x.cs))
    else if !IsPrint(c) then Stop(Fail)
    else More(x.(state := if c == '[' then RightBrLeftBr else Default, p := x.p[1..], cs := Put(x.cs, c)))
  }

  function InRightBrLeftBr(x: Scan): Next {
    var c := At(x.p);
    if c == ']' then Stop(Ok(x.p, x.cs))
    else if c == '\0' then Stop(Wild)
    else More(x.(state := Default, p := x.p[1..], cs := Put(x.cs, c)))
  }

  function Round(x: Scan): (n: Next)
    ensures n.More? ==> |n.scan.p| < |x.p| || (|n.scan.p| == |x.p| && Rank(n.scan.state) < Rank(x.state))
    ensures n.Stop? && n.result.Ok? ==> n.result.p != [] && n.result.p[0] == ']' && |n.result.p| <= |x.p|
  {
    match x.state
    case Default => InDefault(x)
    case MayRange => InMayRange(x)
    case MayRange2 => InMayRange2(x)
    case RightBr => InRightBr(x)
    case RightBrLeftBr => InRightBrLeftBr(x)
  }

  function Rounds(x: Scan): (r: SetResult)
    ensures r.Ok? ==> r.p != [] && r.p[0] == ']' && |r.p| <= |x.p|
    decreases |x.p|, Rank(x.state)
  {
    match Round(x)
    case Stop(result) => result
    case More(scan) => Rounds(scan)
  }

  function SetOf(p: Text): SetResult {
    Rounds(Scan(Default, p, Empty(), '\0', false))
  }

  /** Whether a set accepts a character: listed, or in the first class of this chain that is set. */
  function Chain(cs: Charset, c: Uchar): bool {
    if cs[c as int] then true
    else if cs[Flag(Alnum)] then InClass(Alnum, c)
    else if cs[Flag(Alpha)] then InClass(Alpha, c)
    else if cs[Flag(Digit)] then InClass(Digit, c)
    else if cs[Flag(Xdigit)] then InClass(Xdigit, c)
    else if cs[Flag(Print)] then InClass(Print, c)
    else if cs[Flag(Space)] then InClass(Space, c)
    else if cs[Flag(Upper)] then InClass(Upper, c)
    else if cs[Flag(Lower)] then InClass(Lower, c)
    else if cs[Flag(Blank)] then InClass(Blank, c)
    else cs[Flag(Graph)] && InClass(Graph, c)
  }

  // The matcher.

  /** Fail is the source's own refusal; Hang and Wild are the rounds of a bracket set that never end
      or run off the pattern, and Wild also a step past the end of the subject. */
  datatype Outcome = Match | NoMatch | Refused | Endless | RunOff

  function OfSet(r: SetResult): Outcome
    requires !r.Ok?
  {
    match r case Fail => Refused case Hang => Endless case Wild => RunOff
  }

  function Fnmatch(p: Text, s: Text): Outcome
    decreases |s|, |p|
  {
    var c := At(p);
    if c == '*' then
      if At(p[1..]) == '*' then Fnmatch(p[1..], s)
      else if s == [] && p[1..] == [] then Match
      else
        var rc := Fnmatch(p[1..], s);
        if rc == Match || rc == Endless || rc == RunOff then rc
        else if s != [] then Fnmatch(p, s[1..])
        else NoMatch
    else if c == '?' then
      if IsPrint(At(s)) then Fnmatch(p[1..], s[1..]) else if s == [] then NoMatch else Refused
    else if c == '\0' then
      if s == [] then Match else NoMatch
    else if c == '\\' then
      if !IsPrint(At(p[1..])) then Refused
      else if At(p[1..]) == At(s) then Fnmatch(p[2..], s[1..])
      else NoMatch
    else if c == '[' then
      var r := SetOf(p[1..]);
      if !r.Ok? then OfSet(r)
      else if Chain(r.cs, At(s)) == r.cs[NEGATE] then NoMatch
      else if s == [] then RunOff
      else Fnmatch(r.p[1..], s[1..])
    else if c != At(s) then NoMatch
    else Fnmatch(p[1..], s[1..])
  }

  // The source's own loops, over a set kept in an array.

  lemma KeywordIsName(p: Text, k: Class)
    ensures Keyword(p) == Some(k) <==> Name(k) + ":]" <= p
  {
    var n := LetterRun(p);
    var w := Name(k);
    assert Lookup(w) == Some(k) && Letters(w);
    if w + ":]" <= p {
      assert forall i :: 0 <= i < |w| + 2 ==> p[i] == (w + ":]")[i];
      assert forall i :: 0 <= i < |w| ==> (w + ":]")[i] == w[i];
      assert forall i :: 0 <= i < n ==> p[..n][i] == p[i];
      assert p[|w|] == (w + ":]")[|w|] == ':';
      assert |w| == n;
      assert w == p[..n];
    }
  }

  /** The ten names, as they are written in a set. */
  lemma ClassNames(p: Text)
    ensures "alnum" + ":]" <= p <==> Keyword(p) == Some(Alnum)
    ensures "digit" + ":]" <= p <==> Keyword(p) == Some(Digit)
    ensures "xdigit" + ":]" <= p <==> Keyword(p) == Some(Xdigit)
    ensures "alpha" + ":]" <= p <==> Keyword(p) == Some(Alpha)
    ensures "print" + ":]" <= p <==> Keyword(p) == Some(Print)
    ensures "blank" + ":]" <= p <==> Keyword(p) == Some(Blank)
    ensures "lower" + ":]" <= p <==> Keyword(p) == Some(Lower)
    ensures "graph" + ":]" <= p <==> Keyword(p) == Some(Graph)
    ensures "space" + ":]" <= p <==> Keyword(p) == Some(Space)
    ensures "upper" + ":]" <= p <==> Keyword(p) == Some(Upper)
  {
    KeywordIsName(p, Alnum);
    KeywordIsName(p, Digit);
    KeywordIsName(p, Xdigit);
    KeywordIsName(p, Alpha);
    KeywordIsName(p, Print);
    KeywordIsName(p, Blank);
    KeywordIsName(p, Lower);
    KeywordIsName(p, Graph);
    KeywordIsName(p, Space);
    KeywordIsName(p, Upper);
  }

  /** The classes of the C locale, by the codes of their characters. */
  lemma ClassCodes(c: char)
    ensures var u := c as int;
      var digit, lower, upper := 48 <= u <= 57, 97 <= u <= 122, 65 <= u <= 90;
      && (InClass(Digit, c) <==> digit) && (InClass(Lower, c) <==> lower) && (InClass(Upper, c) <==> upper)
      && (InClass(Alpha, c) <==> lower || upper) && (InClass(Alnum, c) <==> lower || upper || digit)
      && (InClass(Xdigit, c) <==> digit || 97 <= u <= 102 || 65 <= u <= 70)
      && (InClass(Print, c) <==> 32 <= u <= 126) && (InClass(Graph, c) <==> 33 <= u <= 126)
      && (InClass(Blank, c) <==> u == 32 || u == 9) && (InClass(Space, c) <==> u == 32 || 9 <= u <= 13)
  {
  }

  const KEYLEN := 10

  datatype KeyState = Init | Ddot

  /** Reads the keyword up to its `:]`, at most KEYLEN characters of it. */
  method ScanKeyword(pattern: Text) returns (ok: bool, keyword: Text, p: Text)
    ensures ok <==> Closed(pattern, LetterRun(pattern)) && LetterRun(pattern) + 2 <= KEYLEN
    ensures ok ==> keyword == pattern[..LetterRun(pattern)] && p == pattern[LetterRun(pattern) + 2..]
  {
    ghost var run := LetterRun(pattern);
    var state, found, i := Init, false, 0;
    keyword, p := "", pattern;
    while !found
      invariant i <= KEYLEN && i <= |pattern| && p == pattern[i..]
      invariant state == Init ==> !found && i <= run && keyword == pattern[..i]
      invariant state == Ddot ==> keyword == pattern[..run] && run < |pattern| && pattern[run] == ':'
      invariant state == Ddot ==> i == if found then run + 2 else run + 1
      invariant found ==> Closed(pattern, run)
      decreases |pattern| - i, !found
    {
      var c := At(p);
      if i >= KEYLEN {
        return false, keyword, p;
      }
      assert i < run ==> pattern[..run][i] == c;
      match state {
        case Init =>
          if IsLower(c) {
            assert i != run;
            keyword := keyword + [c];
          } else if c == ':' {
            state := Ddot;
          } else {
            return false, keyword, p;
          }
        case Ddot =>
          if c == ']' {
            found := true;
          } else {
            return false, keyword, p;
          }
      }
      p := p[1..];
      i := i + 1;
    }
    ok := true;
  }

  /** On success `p` is just past the `:]` and the class is flagged; else nothing changes. */
  method ParseKeyword(pattern: Text, charset: array<bool>) returns (ok: bool, p: Text)
    requires charset.Length == CHSET_SIZE
    modifies charset
    ensures ok <==> Keyword(pattern).Some?
    ensures ok ==> p == pattern[|Name(Keyword(pattern).value)| + 2..]
    ensures ok ==> charset[..] == old(charset[..])[Flag(Keyword(pattern).value) := true]
    ensures !ok ==> charset[..] == old(charset[..])
  {
    var keyword;
    ok, keyword, p := ScanKeyword(pattern);
    if !ok {
      return;
    }
    if keyword == "digit" {
      charset[Flag(Digit)] := true;
    } else if keyword == "alnum" {
      charset[Flag(Alnum)] := true;
    } else if keyword == "alpha" {
      charset[Flag(Alpha)] := true;
    } else if keyword == "xdigit" {
      charset[Flag(Xdigit)] := true;
    } else if keyword == "print" {
      charset[Flag(Print)] := true;
    } else if keyword == "graph" {
      charset[Flag(Graph)] := true;
    } else if keyword == "space" {
      charset[Flag(Space)] := true;
    } else if keyword == "blank" {
      charset[Flag(Blank)] := true;
    } else if keyword == "upper" {
      charset[Flag(Upper)] := true;
    } else if keyword == "lower" {
      charset[Flag(Lower)] := true;
    } else {
      ok := false;
    }
  }

  /** What one round of setcharset leaves: a result, or the variables of the next round. */
  ghost function Left(stop: Option<SetResult>, state: SetState, p: Text, cs: Charset, start: Uchar, found: bool): Next {
    if stop.Some? then Stop(stop.value) else More(Scan(state, p, cs, start, found))
  }

  method DefaultRound(p0: Text, charset: array<bool>, start0: Uchar, found0: bool)
    returns (stop: Option<SetResult>, state: SetState, p: Text, start: Uchar, found: bool)
    requires charset.Length == CHSET_SIZE
    modifies charset
    ensures Left(stop, state, p, charset[..], start, found)
         == InDefault(Scan(Default, p0, old(charset[..]), start0, found0))
    ensures stop.Some? && stop.value.Ok? ==> stop.value.cs == charset[..]
  {
    stop, state, p, start, found := None, Default, p0, start0, found0;
    var c := At(p);
    if IsAlnum(c) {
      start, state, found := c, MayRange, true;
      charset[c as int] := true;
      p := p[1..];
    } else if c == ']' {
      if found {
        return Some(Ok(p, charset[..])), state, p, start, found;
      }
      found, state := true, RightBr;
      charset[c as int] := true;
      p := p[1..];
    } else if c == '[' {
      if At(p[1..]) == ':' {
        var ok, p' := ParseKeyword(p[2..], charset);
        if !ok {
          return Some(Fail), state, p, start, found;
        }
        assert p' == p[2 + |Name(Keyword(p[2..]).value)| + 2..];
        p := p';
      } else {
        charset[c as int] := true;
        p := p[1..];
      }
      found := true;
    } else if c == '?' || c == '*' {
      found := true;
      charset[c as int] := true;
      p := p[1..];
    } else if c == '^' || c == '!' {
      if !found {
        if charset[NEGATE] {
          charset[c as int] := true;
          found := true;
        } else {
          charset[NEGATE] := true;
        }
      } else {
        charset[c as int] := true;
      }
      p := p[1..];
    } else if c == '\\' {
      c := At(p[1..]);
      if !IsPrint(c) {
        return Some(Fail), state, p, start, found;
      }
      found, state, start := true, MayRange, c;
      charset[c as int] := true;
      p := p[2..];
    } else if c == '\0' {
      return Some(Fail), state, p, start, found;
    } else {
      charset[c as int] := true;
      p := p[1..];
      found := true;
    }
  }

  method MayRangeRound(p0: Text, charset: array<bool>, start: Uchar, found: bool)
    returns (stop: Option<SetResult>, state: SetState, p: Text)
    requires charset.Length == CHSET_SIZE
    modifies charset
    ensures Left(stop, state, p, charset[..], start, found)
         == InMayRange(Scan(MayRange, p0, old(charset[..]), start, found))
    ensures stop.Some? && stop.value.Ok? ==> stop.value.cs == charset[..]
  {
    stop, state, p := None, MayRange, p0;
    var c := At(p);
    if c == '-' {
      charset[c as int] := true;
      p := p[1..];
      state := MayRange2;
    } else if c == '[' {
      state := Default;
    } else if IsAlnum(c) {
      charset[c as int] := true;
      p := p[1..];
    } else if c == '\\' {
      c := At(p[1..]);
      if !IsPrint(c) {
        return Some(Fail), state, p;
      }
      charset[c as int] := true;
      p := p[2..];
    } else if c == ']' {
      return Some(Ok(p, charset[..])), state, p;
    } else {
      return Some(Fail), state, p;
    }
  }

  /** The loop that fills a range, after the dash has been taken out again. */
  method FillRange(charset: array<bool>, start0: Uchar, c: Uchar) returns (start: Uchar)
    requires charset.Length == CHSET_SIZE && start0 <= c && c as int + 2 < 256
    modifies charset
    ensures charset[..] == Fill(old(charset[..])['-' as int := false], start0 as int, c as int)
    ensures start as int == c as int + 2
  {
    charset['-' as int] := false;
    ghost var without: Charset := charset[..];
    start := (start0 as int + 1) as char;
    while start <= c
      invariant start0 < start && start as int <= c as int + 1
      invariant charset[..] == Fill(without, start0 as int, start as int - 1)
    {
      start := (start as int + 1) as char;
      charset[start as int - 1] := true;
    }
    start := (start as int + 1) as char;
  }

  method MayRange2Round(p0: Text, charset: array<bool>, start0: Uchar, found: bool)
    returns (stop: Option<SetResult>, state: SetState, p: Text, start: Uchar)
    requires charset.Length == CHSET_SIZE
    modifies charset
    ensures Left(stop, state, p, charset[..], start, found)
         == InMayRange2(Scan(MayRange2, p0, old(charset[..]), start0, found))
    ensures stop.Some? && stop.value.Ok? ==> stop.value.cs == charset[..]
  {
    stop, state, p, start := None, MayRange2, p0, start0;
    var c := At(p);
    if c == '\\' {
      p := p[1..];
      c := At(p);
      if !IsPrint(c) {
        return Some(Fail), state, p, start;
      }
    }
    if c == ']' {
      return Some(Ok(p, charset[..])), state, p, start;
    } else if c == '\\' {
      p := p[1..];
      c := At(p);
      if !IsPrint(c) {
        return Some(Fail), state, p, start;
      }
      charset[c as int] := true;
      state := Default;
      p := p[1..];
    }
    if c >= start {
      if !SameClass(c, start) {
        return Some(Fail), state, p, start;
      }
      if p == [] {
        return Some(Wild), state, p, start;
      }
      start := FillRange(charset, start, c);
      p := p[1..];
      state := Default;
    } else if state == MayRange2 && p == p0 {
      return Some(Hang), state, p, start;  // the source would repeat this round for ever
    }
  }

  method RightBrRound(p0: Text, charset: array<bool>, start: Uchar, found: bool)
    returns (stop: Option<SetResult>, state: SetState, p: Text)
    requires charset.Length == CHSET_SIZE
    modifies charset
    ensures Left(stop, state, p, charset[..], start, found)
         == InRightBr(Scan(RightBr, p0, old(charset[..]), start, found))
    ensures stop.Some? && stop.value.Ok? ==> stop.value.cs == charset[..]
  {
    stop, state, p := None, RightBr, p0;
    var c := At(p);
    if c == '[' {
      state := RightBrLeftBr;
      charset[c as int] := true;
      p := p[1..];
    } else if c == ']' {
      return Some(Ok(p, charset[..])), state, p;
    } else if c == '\0' {
      return Some(Fail), state, p;
    } else if IsPrint(c) {
      charset[c as int] := true;
      p := p[1..];
      state := Default;
    } else {
      return Some(Fail), state, p;
    }
  }

  method RightBrLeftBrRound(p0: Text, charset: array<bool>, start: Uchar, found: bool)
    returns (stop: Option<SetResult>, state: SetState, p: Text)
    requires charset.Length == CHSET_SIZE
    modifies charset
    ensures Left(stop, state, p, charset[..], start, found)
         == InRightBrLeftBr(Scan(RightBrLeftBr, p0, old(charset[..]), start, found))
    ensures stop.Some? && stop.value.Ok? ==> stop.value.cs == charset[..]
  {
    stop, state, p := None, RightBrLeftBr, p0;
    var c := At(p);
    if c == ']' {
      return Some(Ok(p, charset[..])), state, p;
    } else if p == [] {
      return Some(Wild), state, p;
    }
    state := Default;
    charset[c as int] := true;
    p := p[1..];
  }

  /** setcharset. */
  method SetCharset(pattern: Text, charset: array<bool>) returns (r: SetResult)
    requires charset.Length == CHSET_SIZE
    modifies charset
    ensures r == Rounds(Scan(Default, pattern, old(charset[..]), '\0', false))
    ensures r.Ok? ==> r.cs == charset[..]
  {
    var start: Uchar := '\0';
    var stop, state, p, found := None, Default, pattern, false;
    ghost var first := Scan(state, p, charset[..], start, found);
    while stop.None?
      invariant stop.None? ==> Rounds(Scan(state, p, charset[..], start, found)) == Rounds(first)
      invariant stop.Some? ==> stop.value == Rounds(first) && (stop.value.Ok? ==> stop.value.cs == charset[..])
      decreases stop.None?, |p|, Rank(state)
    {
      match state {
        case Default =>
          stop, state, p, start, found := DefaultRound(p, charset, start, found);
        case MayRange =>
          stop, state, p := MayRangeRound(p, charset, start, found);
        case MayRange2 =>
          stop, state, p, start := MayRange2Round(p, charset, start, found);
        case RightBr =>
          stop, state, p := RightBrRound(p, charset, start, found);
        case RightBrLeftBr =>
          stop, state, p := RightBrLeftBrRound(p, charset, start, found);
      }
    }
    r := stop.value;
  }

  /** loop. Its one array is cleared after every set that accepts. */
  method Loop(pattern: Text, subject: Text) returns (rc: Outcome)
    ensures rc == Fnmatch(pattern, subject)
    decreases |subject|, |pattern|
  {
    var p, s, escaped := pattern, subject, false;
    var charset := new bool[CHSET_SIZE](i => false);
    while true
      invariant !escaped ==> Fnmatch(p, s) == Fnmatch(pattern, subject)
      invariant escaped ==> Fnmatch(['\\'] + p, s) == Fnmatch(pattern, subject)
      invariant |s| < |subject| || (s == subject && |p| + (if escaped then 1 else 0) <= |pattern|)
      invariant fresh(charset) && charset.Length == CHSET_SIZE && charset[..] == Empty()
      decreases |s|, |p|
    {
      if !escaped {
        if At(p) == '*' {
          while At(p[1..]) == '*'
            invariant At(p) == '*' && Fnmatch(p, s) == Fnmatch(pattern, subject)
            invariant |s| < |subject| || (s == subject && |p| <= |pattern|)
            decreases |p|
          {
            p := p[1..];
          }
          if s == [] && p[1..] == [] {
            return Match;
          }
          rc := Loop(p[1..], s);
          if rc == Match || rc == Endless || rc == RunOff {
            return;
          }
          if s == [] {
            return NoMatch;
          }
          s := s[1..];
        } else if At(p) == '?' {
          if IsPrint(At(s)) {
            s, p := s[1..], p[1..];
          } else {
            return if s == [] then NoMatch else Refused;
          }
        } else if p == [] {
          return if s == [] then Match else NoMatch;
        } else if At(p) == '\\' {
          escaped := true;
          assert ['\\'] + p[1..] == p;
          p := p[1..];
        } else if At(p) == '[' {
          var pp := SetCharset(p[1..], charset);
          if !pp.Ok? {
            return OfSet(pp);
          }
          var found := Chain(charset[..], At(s));
          if charset[NEGATE] {
            found := !found;
          }
          if !found {
            return NoMatch;
          }
          if s == [] {
            return RunOff;
          }
          p, s := pp.p[1..], s[1..];
          forall i | 0 <= i < charset.Length {
            charset[i] := false;
          }
        } else if At(p) != At(s) {
          return NoMatch;
        } else {
          p, s := p[1..], s[1..];
        }
      } else {
        if !IsPrint(At(p)) {
          return Refused;
        } else if At(p) != At(s) {
          return NoMatch;
        }
        assert (['\\'] + p)[2..] == p[1..];
        p, s, escaped := p[1..], s[1..], false;
      }
    }
  }
}
