// What curl's wildcard patterns mean, and what the matcher of curl_fnmatch.c answers.
module GlobMatch {
  import opened Glob
  import opened GlobSet

  datatype Token = Lit(c: Octet) | Escaped(c: Octet) | Any | Star | Bracket(t: Set)

  predicate TokenOk(t: Token) {
    match t
    case Lit(c) => c !in "*?\\["
    case Escaped(c) => IsPrint(c)
    case Any => true
    case Star => true
    case Bracket(s) => SetOk(s)
  }

  /** A set may be taken for what it says, or for what the matcher tests of it. */
  datatype Meaning = AsSaid | AsTested

  /** Any pattern, or one whose sets mean what they say. */
  ghost predicate PatternOk(ts: seq<Token>, view: Meaning) {
    forall i :: 0 <= i < |ts| ==> TokenOk(ts[i]) && (ts[i].Bracket? && view.AsSaid? ==> Plainly(ts[i].t))
  }

  predicate Negated(t: Token) {
    t.Bracket? && t.t.mark != []
  }

  function RenderToken(t: Token, rest: Text): Text {
    match t
    case Lit(c) => [c] + rest
    case Escaped(c) => ['\\', c] + rest
    case Any => ['?'] + rest
    case Star => ['*'] + rest
    case Bracket(s) => ['['] + RenderSet(s, rest)
  }

  function Render(ts: seq<Token>): Text {
    if ts == [] then [] else RenderToken(ts[0], Render(ts[1..]))
  }

  // What a pattern means.

  ghost predicate MatchesOne(t: Token, c: Octet, view: Meaning)
    requires !t.Star?
  {
    match t
    case Lit(d) => c == d
    case Escaped(d) => c == d
    case Any => IsPrint(c)
    case Bracket(s) => (if view.AsSaid? then Covers(s, c) else Accepted(s, c)) != Negated(t)
  }

  /** A star matches any stretch of the subject; every other token matches one character. */
  ghost predicate Matches(ts: seq<Token>, s: Text, view: Meaning)
    decreases |ts|
  {
    if ts == [] then s == []
    else if ts[0].Star? then exists k :: 0 <= k <= |s| && Matches(ts[1..], s[k..], view)
    else s != [] && MatchesOne(ts[0], s[0], view) && Matches(ts[1..], s[1..], view)
  }

  /** The pattern can use up the subject and have a negated set next. */
  ghost predicate Exhausts(ts: seq<Token>, s: Text, view: Meaning)
    decreases |ts|
  {
    if ts == [] then false
    else if ts[0].Star? then exists k :: 0 <= k <= |s| && Exhausts(ts[1..], s[k..], view)
    else if s == [] then Negated(ts[0])
    else MatchesOne(ts[0], s[0], view) && Exhausts(ts[1..], s[1..], view)
  }

  /** Before any star, a `?` meets a character that is not printable. */
  ghost predicate Refuses(ts: seq<Token>, s: Text, view: Meaning)
    decreases |ts|
  {
    && ts != [] && s != [] && !ts[0].Star?
    && if MatchesOne(ts[0], s[0], view) then Refuses(ts[1..], s[1..], view) else ts[0].Any?
  }

  /** The answer of the matcher, by what the pattern means. */
  ghost function Verdict(ts: seq<Token>, s: Text, view: Meaning): Outcome {
    if Matches(ts, s, view) then Match
    else if Exhausts(ts, s, view) then RunOff
    else if Refuses(ts, s, view) then Refused
    else NoMatch
  }

  lemma {:induction false} ExhaustsByPrefix(ts: seq<Token>, s: Text, view: Meaning)
    ensures Exhausts(ts, s, view) <==> exists j :: 0 <= j < |ts| && Negated(ts[j]) && Matches(ts[..j], s, view)
    decreases |ts|
  {
    if ts != [] {
      var rest := ts[1..];
      forall j | 0 < j < |ts|
        ensures ts[..j] == [ts[0]] + rest[..j - 1] && ts[j] == rest[j - 1]
      {
      }
      if ts[0].Star? {
        StarExhausts(ts, s, view);
      } else if s == [] {
        assert ts[..0] == [];
        if Negated(ts[0]) {
          assert Matches(ts[..0], s, view);
        }
      } else {
        ExhaustsByPrefix(rest, s[1..], view);
        if j :| 0 <= j < |ts| && Negated(ts[j]) && Matches(ts[..j], s, view) {
          assert j > 0;
          assert ts[..j][1..] == rest[..j - 1];
        }
        if Exhausts(ts, s, view) {
          var j :| 0 <= j < |rest| && Negated(rest[j]) && Matches(rest[..j], s[1..], view);
          assert ts[..j + 1][1..] == rest[..j];
          assert Negated(ts[j + 1]) && Matches(ts[..j + 1], s, view);
        }
      }
    }
  }

  lemma StarExhausts(ts: seq<Token>, s: Text, view: Meaning)
    requires ts != [] && ts[0].Star?
    ensures Exhausts(ts, s, view) <==> exists j :: 0 <= j < |ts| && Negated(ts[j]) && Matches(ts[..j], s, view)
    decreases |ts|, 0
  {
    var rest := ts[1..];
    if Exhausts(ts, s, view) {
      var k :| 0 <= k <= |s| && Exhausts(rest, s[k..], view);
      ExhaustsByPrefix(rest, s[k..], view);
      var j :| 0 <= j < |rest| && Negated(rest[j]) && Matches(rest[..j], s[k..], view);
      assert ts[..j + 1][1..] == rest[..j];
      assert Negated(ts[j + 1]) && Matches(ts[..j + 1], s, view);
    }
    if j :| 0 <= j < |ts| && Negated(ts[j]) && Matches(ts[..j], s, view) {
      assert j > 0 && ts[..j][1..] == rest[..j - 1];
      var k :| 0 <= k <= |s| && Matches(rest[..j - 1], s[k..], view);
      assert Negated(rest[j - 1]);
      ExhaustsByPrefix(rest, s[k..], view);
    }
  }

  /** A match is never lost to the end of the subject: a pattern that can use up the subject before a
      negated set, and matches some end of the subject, matches the subject. */
  lemma {:induction false} NoMatchLost(ts: seq<Token>, s: Text, k: nat, view: Meaning)
    requires k <= |s| && Exhausts(ts, s, view) && Matches(ts, s[k..], view)
    ensures Matches(ts, s, view)
    decreases |ts|
  {
    if ts[0].Star? {
      var m :| 0 <= m <= |s[k..]| && Matches(ts[1..], s[k..][m..], view);
      assert s[k..][m..] == s[k + m..];
    } else if s != [] {
      assert s[1..][k..] == s[k..][1..];
      NoMatchLost(ts[1..], s[1..], k, view);
    }
  }

  lemma StarUnfolds(ts: seq<Token>, s: Text, view: Meaning)
    requires ts != [] && ts[0].Star?
    ensures Matches(ts, s, view) <==> Matches(ts[1..], s, view) || (s != [] && Matches(ts, s[1..], view))
    ensures Exhausts(ts, s, view) <==> Exhausts(ts[1..], s, view) || (s != [] && Exhausts(ts, s[1..], view))
  {
    assert s[0..] == s;
    forall k | 0 < k <= |s|
      ensures s[1..][k - 1..] == s[k..]
    {
    }
    if s != [] && Matches(ts, s[1..], view) {
      var k :| 0 <= k <= |s[1..]| && Matches(ts[1..], s[1..][k..], view);
      assert s[k + 1..] == s[1..][k..];
    }
    if s != [] && Exhausts(ts, s[1..], view) {
      var k :| 0 <= k <= |s[1..]| && Exhausts(ts[1..], s[1..][k..], view);
      assert s[k + 1..] == s[1..][k..];
    }
    if k :| 0 < k <= |s| && Matches(ts[1..], s[k..], view) {
      assert Matches(ts[1..], s[1..][k - 1..], view);
    }
    if k :| 0 < k <= |s| && Exhausts(ts[1..], s[k..], view) {
      assert Exhausts(ts[1..], s[1..][k - 1..], view);
    }
  }

  lemma {:induction false} StarsCollapse(ts: seq<Token>, s: Text, view: Meaning)
    requires |ts| > 1 && ts[0].Star? && ts[1].Star?
    ensures Matches(ts, s, view) <==> Matches(ts[1..], s, view)
    ensures Exhausts(ts, s, view) <==> Exhausts(ts[1..], s, view)
    decreases |s|
  {
    StarUnfolds(ts, s, view);
    if s != [] {
      StarsCollapse(ts, s[1..], view);
      StarUnfolds(ts[1..], s, view);
    }
  }

  // What the matcher answers.

  /** The NUL at the end of the subject is in no set. */
  lemma NulNotCovered(t: Set)
    requires SetOk(t)
    ensures !Chain(CharsetOf(t), '\0')
  {
    ChainTests(t, '\0');
    KeptIsListed(t);
    if Tested(t).Some? {
      assert !InClass(Tested(t).value, '\0');
    }
    assert !Listed(t, '\0');
  }

  lemma BracketRound(t: Set, rest: Text, s: Text)
    requires SetOk(t)
    ensures Fnmatch(['['] + RenderSet(t, rest), s)
         == if Chain(CharsetOf(t), At(s)) == (t.mark != []) then NoMatch
            else if s == [] then RunOff
            else Fnmatch(rest, s[1..])
  {
    var p := ['['] + RenderSet(t, rest);
    assert p[0] == '[' && p[1..] == RenderSet(t, rest);
    SetScanned(t, rest);
    FateIsFirst(t.items);
    assert ([']'] + rest)[1..] == rest;
    SetIsUnion(t, At(s), Alnum);
  }

  lemma ChainMeans(t: Set, c: Octet, view: Meaning)
    requires SetOk(t) && (view.AsSaid? ==> Plainly(t))
    ensures Chain(CharsetOf(t), c) != Negated(Bracket(t)) <==> MatchesOne(Bracket(t), c, view)
  {
    ChainTests(t, c);
    if view.AsSaid? {
      PlainlyAccepts(t, c);
    }
  }

  lemma SetDecides(t: Set, rest: Text, s: Text, view: Meaning)
    requires SetOk(t) && (view.AsSaid? ==> Plainly(t))
    ensures Fnmatch(RenderToken(Bracket(t), rest), s)
         == if s == [] then (if Negated(Bracket(t)) then RunOff else NoMatch)
            else if MatchesOne(Bracket(t), s[0], view) then Fnmatch(rest, s[1..])
            else NoMatch
  {
    BracketRound(t, rest, s);
    if s == [] {
      NulNotCovered(t);
    } else {
      ChainMeans(t, s[0], view);
    }
  }

  lemma CharacterDecides(t: Token, rest: Text, s: Text, view: Meaning)
    requires TokenOk(t) && !t.Star? && !t.Bracket?
    ensures Fnmatch(RenderToken(t, rest), s)
         == if s == [] then NoMatch
            else if MatchesOne(t, s[0], view) then Fnmatch(rest, s[1..])
            else if t.Any? then Refused
            else NoMatch
  {
    var p := RenderToken(t, rest);
    if t.Escaped? {
      assert p[2..] == rest && p[1..][0] == t.c;
    } else {
      assert p[1..] == rest;
    }
  }

  lemma PatternRest(ts: seq<Token>, view: Meaning)
    requires PatternOk(ts, view) && ts != []
    ensures PatternOk(ts[1..], view) && TokenOk(ts[0]) && (ts[0].Bracket? && view.AsSaid? ==> Plainly(ts[0].t))
  {
  }

  lemma OneDecides(ts: seq<Token>, s: Text, view: Meaning)
    requires PatternOk(ts, view) && ts != [] && !ts[0].Star?
    requires s != [] ==> Fnmatch(Render(ts[1..]), s[1..]) == Verdict(ts[1..], s[1..], view)
    ensures Fnmatch(Render(ts), s) == Verdict(ts, s, view)
  {
    PatternRest(ts, view);
    if ts[0].Bracket? {
      SetDecides(ts[0].t, Render(ts[1..]), s, view);
    } else {
      CharacterDecides(ts[0], Render(ts[1..]), s, view);
    }
  }

  lemma StarDecides(ts: seq<Token>, s: Text, view: Meaning)
    requires ts != [] && ts[0].Star? && (|ts| > 1 ==> !ts[1].Star?) && PatternOk(ts, view)
    requires Fnmatch(Render(ts[1..]), s) == Verdict(ts[1..], s, view)
    requires s != [] ==> Fnmatch(Render(ts), s[1..]) == Verdict(ts, s[1..], view)
    ensures Fnmatch(Render(ts), s) == Verdict(ts, s, view)
  {
    var rest := Render(ts[1..]);
    assert Render(ts)[1..] == rest;
    PatternRest(ts, view);
    if |ts| > 1 {
      assert At(rest) != '*' && rest != [] by {
        PatternRest(ts[1..], view);
      }
    }
    StarUnfolds(ts, s, view);
    if Exhausts(ts[1..], s, view) && Matches(ts, s, view) {
      var k :| 0 <= k <= |s| && Matches(ts[1..], s[k..], view);
      NoMatchLost(ts[1..], s, k, view);
    }
  }

  /** The backtracking loop gives the verdict of the pattern on every subject, for any sets by what the
      matcher tests of them, and for those that mean what they say by what they say: MATCH exactly when the
      pattern matches; else it moves past the end of the subject exactly when the pattern can use up
      the subject and has a negated set next; else FAIL exactly when a `?` meets an unprintable
      character before any star; else NOMATCH. */
  lemma {:induction false} FnmatchDecides(ts: seq<Token>, s: Text, view: Meaning)
    requires PatternOk(ts, view)
    ensures Fnmatch(Render(ts), s) == Verdict(ts, s, view)
    decreases |s|, |ts|
  {
    if ts != [] {
      PatternRest(ts, view);
      if ts[0].Star? {
        FnmatchDecides(ts[1..], s, view);
        if |ts| > 1 && ts[1].Star? {
          StarsCollapse(ts, s, view);
          assert Render(ts)[1..] == Render(ts[1..]);
        } else {
          if s != [] {
            FnmatchDecides(ts, s[1..], view);
          }
          StarDecides(ts, s, view);
        }
      } else {
        if s != [] {
          FnmatchDecides(ts[1..], s[1..], view);
        }
        OneDecides(ts, s, view);
      }
    }
  }

  lemma {:induction false} PrintableNotRefused(ts: seq<Token>, s: Text, view: Meaning)
    requires forall i :: 0 <= i < |s| ==> IsPrint(s[i])
    ensures !Refuses(ts, s, view)
    decreases |ts|
  {
    if ts != [] && s != [] {
      PrintableNotRefused(ts[1..], s[1..], view);
    }
  }

  lemma {:induction false} ExhaustsNeedsNegation(ts: seq<Token>, s: Text, view: Meaning)
    requires Exhausts(ts, s, view)
    ensures exists i :: 0 <= i < |ts| && Negated(ts[i])
  {
    ExhaustsByPrefix(ts, s, view);
  }

  /** With printable subjects and no negated set the two answers are MATCH and NOMATCH. */
  lemma FnmatchIsMatch(ts: seq<Token>, s: Text, view: Meaning)
    requires PatternOk(ts, view) && forall i :: 0 <= i < |s| ==> IsPrint(s[i])
    requires forall i :: 0 <= i < |ts| ==> !Negated(ts[i])
    ensures Fnmatch(Render(ts), s) == if Matches(ts, s, view) then Match else NoMatch
  {
    FnmatchDecides(ts, s, view);
    PrintableNotRefused(ts, s, view);
    if Exhausts(ts, s, view) {
      ExhaustsNeedsNegation(ts, s, view);
    }
  }

  /** With printable subjects, negated sets included, the matcher leaves the subject exactly when it
      does not match and some beginning of the pattern in front of a negated set does. */
  lemma FnmatchRunsOff(ts: seq<Token>, s: Text, view: Meaning)
    requires PatternOk(ts, view) && forall i :: 0 <= i < |s| ==> IsPrint(s[i])
    ensures Fnmatch(Render(ts), s) == RunOff <==>
      !Matches(ts, s, view) && exists j :: 0 <= j < |ts| && Negated(ts[j]) && Matches(ts[..j], s, view)
    ensures Fnmatch(Render(ts), s) in {Match, RunOff, NoMatch}
  {
    FnmatchDecides(ts, s, view);
    PrintableNotRefused(ts, s, view);
    ExhaustsByPrefix(ts, s, view);
  }

  /** A backslash escapes any printable character; at the end of the pattern, or in front of one that
      is not printable, it is refused, unless the match has failed before. */
  lemma StrayBackslash(before: seq<Octet>, rest: Text, s: Text)
    requires (forall i :: 0 <= i < |before| ==> before[i] !in "*?\\[") && (rest != [] ==> !IsPrint(rest[0]))
    ensures Fnmatch(before + (['\\'] + rest), s) == if before <= s then Refused else NoMatch
    decreases |before|
  {
    var p := before + (['\\'] + rest);
    if before == [] {
      assert p == ['\\'] + rest && p[1..] == rest;
    } else {
      assert p[0] == before[0] && p[1..] == before[1..] + (['\\'] + rest);
      if s != [] && s[0] == before[0] {
        StrayBackslash(before[1..], rest, s[1..]);
        assert before == [before[0]] + before[1..] && s == [s[0]] + s[1..];
      }
    }
  }
}
