/**
 White space: what condensing does to text, and to text that was escaped.
 */
module XmlCondense {
  import opened Sequences
  import opened XmlText
  import opened XmlEscape

  // ---------------------------------------------------------------- escaped text

  /** EncodeString leaves one white-space byte as it is, the space; the others are below 32 and
      become references. So this is what condensing does to a text that was escaped. */
  function Squeeze(v: string, pending: bool): string {
    if v == "" then ""
    else if v[0] == ' ' then Squeeze(v[1..], true)
    else (if pending then " " else "") + ([v[0]] + Squeeze(v[1..], false))
  }

  function TrimSpaces(v: string): (r: string)
    ensures |r| <= |v| && (r != "" ==> r[0] != ' ')
  {
    if v != "" && v[0] == ' ' then TrimSpaces(v[1..]) else v
  }

  lemma SqueezeRaw(raw: string, v: string, pending: bool)
    requires raw != "" && forall i :: 0 <= i < |raw| ==> raw[i] as int >= 0x80
    ensures Squeeze(raw + v, pending) == (if pending then " " else "") + (raw + Squeeze(v, false))
  {
    var c, more := raw[0], raw[1..];
    assert (raw + v)[0] == c && (raw + v)[1..] == more + v;
    if more == "" {
      assert more + v == v && raw == [c];
    } else {
      SqueezeRaw(more, v, false);
      assert Squeeze(more + v, false) == more + Squeeze(v, false);
      Associate([c], more, Squeeze(v, false));
      assert [c] + more == raw;
    }
  }

  lemma CondenseStep(p: string, end: char, enc: Encoding, pending: bool, c: string, q: string)
    requires p != "" && p[0] != end && !IsWhiteSpace(p[0]) && CharAt(p, enc) == Chars(c, q)
    ensures Condense(p, [end], enc, pending)
            == Condense(q, [end], enc, false).Prepend(if pending then " " + c else c)
  {
  }

  lemma {:induction false} CondensePadding(pad: string, end: char, rest: string, enc: Encoding, pending: bool)
    requires AllWhite(pad) && EndsText(end)
    ensures Condense(pad + ([end] + rest), [end], enc, pending) == Read("", rest)
  {
    var tail := [end] + rest;
    if pad == "" {
      assert pad + tail == tail && tail[1..] == rest;
    } else {
      assert (pad + tail)[0] == pad[0] && (pad + tail)[1..] == pad[1..] + tail;
      CondensePadding(pad[1..], end, rest, enc, true);
    }
  }

  lemma EscapedHead(v: string, tail: string)
    requires v != "" && NoReference(v) && v[0] != ' '
    ensures Escape(v) + tail != "" && !IsWhiteSpace((Escape(v) + tail)[0]) && !EndsText((Escape(v) + tail)[0])
    ensures (Escape(v) + tail)[0] as int >= 0x80 ==> (Escape(v) + tail)[0] == v[0]
  {
    Associate(EscapeChar(v[0]), Escape(v[1..]), tail);
  }

  lemma EscapedSpace(v: string, tail: string)
    requires v != "" && v[0] == ' '
    ensures Escape(v) + tail == [' '] + (Escape(v[1..]) + tail)
    ensures (Escape(v) + tail)[1..] == Escape(v[1..]) + tail
  {
    Associate(" ", Escape(v[1..]), tail);
  }

  lemma Follow(v: string, n: nat, pending: bool, more: string)
    requires 0 < n <= |v| && v[0] != ' ' && (n > 1 ==> forall i :: 0 <= i < n ==> v[i] as int >= 0x80)
    requires more == Squeeze(v[n..], false)
    ensures (if pending then " " + v[..n] else v[..n]) + more == Squeeze(v, pending)
  {
    if n == 1 {
      assert v[..1] == [v[0]];
    } else {
      TakeDrop(v, n);
      assert forall i :: 0 <= i < n ==> v[..n][i] == v[i];
      SqueezeRaw(v[..n], v[n..], pending);
    }
    Associate(" ", v[..n], more);
    assert "" + (v[..n] + more) == v[..n] + more;
  }

  /** Condensing escaped text, followed by any white space and an end tag. */
  lemma {:induction false} CondenseEscaped(v: string, pad: string, end: char, rest: string, enc: Encoding,
                                           pending: bool)
    requires AllWhite(pad) && EndsText(end) && NoReference(v) && WellFormed(v, enc)
    ensures Condense(Escape(v) + (pad + ([end] + rest)), [end], enc, pending) == Read(Squeeze(v, pending), rest)
    decreases |v|
  {
    var tail := pad + ([end] + rest);
    if v == "" {
      assert Escape(v) + tail == tail;
      CondensePadding(pad, end, rest, enc, pending);
    } else if v[0] == ' ' {
      EscapedSpace(v, tail);
      if enc.Utf8? { assert v[Utf8Step(v[0])..] == v[1..]; }
      CondenseEscaped(v[1..], pad, end, rest, enc, true);
    } else {
      var n := CharAtEscapedText(v, tail, enc);
      EscapedHead(v, tail);
      CondenseStep(Escape(v) + tail, end, enc, pending, v[..n], Escape(v[n..]) + tail);
      CondenseEscaped(v[n..], pad, end, rest, enc, false);
      Follow(v, n, pending, Squeeze(v[n..], false));
    }
  }

  lemma {:induction false} SkipTwice(p: string, enc: Encoding)
    ensures Skip(Skip(p, enc), enc) == Skip(p, enc)
    decreases |p|
  {
    if p != "" && enc.Utf8? && IsMark(p) {
      SkipTwice(p[3..], enc);
    } else if p != "" && IsWhiteSpace(p[0]) {
      SkipTwice(p[1..], enc);
    }
  }

  /** Leading spaces are skipped before condensing starts. */
  lemma {:induction false} SkipEscaped(v: string, tail: string, enc: Encoding)
    requires NoReference(v) && WellFormed(v, enc) && TrimSpaces(v) != ""
    requires enc.Utf8? ==> !IsMark(TrimSpaces(v))
    ensures Skip(Escape(v) + tail, enc) == Escape(TrimSpaces(v)) + tail
    ensures NoReference(TrimSpaces(v)) && WellFormed(TrimSpaces(v), enc)
  {
    if v[0] == ' ' {
      EscapedSpace(v, tail);
      if enc.Utf8? { assert v[Utf8Step(v[0])..] == v[1..]; }
      SkipEscaped(v[1..], tail, enc);
    } else {
      EscapedHead(v, tail);
      if enc.Utf8? && IsMark(Escape(v) + tail) { EscapedMark(v, tail); }
    }
  }

  lemma EscapedMark(v: string, tail: string)
    requires v != "" && NoReference(v) && WellFormed(v, Utf8) && v[0] != ' ' && IsMark(Escape(v) + tail)
    ensures IsMark(v)
  {
    var p := Escape(v) + tail;
    EscapedHead(v, tail);
    var n := CharAtEscapedText(v, tail, Utf8);
    assert v[..n] == p[..3];
    SameHead(v, n, p);
  }

  lemma SameHead(v: string, n: nat, p: string)
    requires n <= |v| && 3 <= |p| && v[..n] == p[..3]
    ensures n == 3 && v[0] == p[0] && v[1] == p[1] && v[2] == p[2]
  {
    assert |v[..n]| == 3;
    assert forall i :: 0 <= i < 3 ==> v[i] == v[..n][i] == p[..3][i] == p[i];
  }

  // ---------------------------------------------------------------- what condensing changes

  /** No space at the front, at the end or beside another one. */
  predicate Tidy(v: string) {
    && (v != "" ==> v[0] != ' ' && v[|v| - 1] != ' ')
    && forall i :: 0 < i < |v| ==> v[i - 1] != ' ' || v[i] != ' '
  }

  function CondensedText(v: string): string { Squeeze(TrimSpaces(v), false) }

  /** Condensing leaves exactly the tidy texts alone. */
  lemma CondenseKeeps(v: string)
    ensures CondensedText(v) == v <==> Tidy(v)
  {
    SqueezeIsTidy(TrimSpaces(v), false);
    if Tidy(v) {
      TidyStays(v, false);
    }
  }

  lemma TidyInFront(c: char, r: string)
    requires c != ' ' && if r != "" && r[0] == ' ' then |r| > 1 && Tidy(r[1..]) else Tidy(r)
    ensures Tidy([c] + r)
  {
    var v := [c] + r;
    if r != "" && r[0] == ' ' {
      var w := r[1..];
      assert v[|v| - 1] == w[|w| - 1];
      assert forall i :: 2 <= i < |v| ==> v[i] == w[i - 2];
    } else {
      assert forall i :: 1 <= i < |v| ==> v[i] == r[i - 1];
    }
  }

  /** A pending space comes out in front of what follows it. */
  ghost predicate TidyAfter(r: string, pending: bool) {
    if pending then r == "" || (|r| > 1 && r[0] == ' ' && Tidy(r[1..]))
    else if r != "" && r[0] == ' ' then |r| > 1 && Tidy(r[1..])
    else Tidy(r)
  }

  lemma {:induction false} SqueezeIsTidy(v: string, pending: bool)
    ensures TidyAfter(Squeeze(v, pending), pending)
    ensures !pending && (v == "" || v[0] != ' ') ==> Tidy(Squeeze(v, pending))
  {
    if v != "" {
      SqueezeIsTidy(v[1..], v[0] == ' ');
      if v[0] != ' ' {
        var r := Squeeze(v[1..], false);
        TidyInFront(v[0], r);
        var w := [v[0]] + r;
        if pending {
          assert (" " + w)[1..] == w;
        } else {
          assert "" + w == w;
        }
      }
    }
  }

  lemma {:induction false} TidyStays(v: string, pending: bool)
    requires v == "" || (v[|v| - 1] != ' ' && forall i :: 0 < i < |v| ==> v[i - 1] != ' ' || v[i] != ' ')
    requires pending ==> v != "" && v[0] != ' '
    ensures Squeeze(v, pending) == (if pending then " " else "") + v
  {
    if v != "" {
      var more := v[1..];
      NoDoubles(v);
      TidyStays(more, v[0] == ' ');
      assert v == [v[0]] + more;
      if v[0] == ' ' {
        assert "" + v == v == " " + more;
      } else {
        assert "" + more == more && "" + v == v;
      }
    }
  }

  lemma NoDoubles(v: string)
    requires v != "" && v[|v| - 1] != ' ' && forall i :: 0 < i < |v| ==> v[i - 1] != ' ' || v[i] != ' '
    ensures var more := v[1..];
      && (more != "" ==> more[|more| - 1] == v[|v| - 1])
      && (forall i :: 0 < i < |more| ==> more[i - 1] != ' ' || more[i] != ' ')
      && (v[0] == ' ' ==> more != "" && more[0] != ' ')
  {
    var more := v[1..];
    assert forall i :: 0 < i < |more| ==> more[i - 1] == v[i] && more[i] == v[i + 1];
    assert |v| > 1 ==> more[0] == v[1] && (v[1 - 1] != ' ' || v[1] != ' ');
  }

  /** A text that is not blank does not condense to a blank one. */
  lemma {:induction false} SqueezeNotBlank(v: string, pending: bool, i: nat)
    requires i < |v| && !IsWhiteSpace(v[i])
    ensures exists k :: 0 <= k < |Squeeze(v, pending)| && !IsWhiteSpace(Squeeze(v, pending)[k])
  {
    var r := Squeeze(v, pending);
    if i == 0 {
      assert r[if pending then 1 else 0] == v[0];
    } else if v[0] == ' ' {
      SqueezeNotBlank(v[1..], true, i - 1);
    } else {
      SqueezeNotBlank(v[1..], false, i - 1);
      var more := Squeeze(v[1..], false);
      var k :| 0 <= k < |more| && !IsWhiteSpace(more[k]);
      assert r[k + if pending then 2 else 1] == more[k];
    }
  }

  lemma {:induction false} TrimNotBlank(v: string, i: nat) returns (k: nat)
    requires i < |v| && !IsWhiteSpace(v[i])
    ensures k < |TrimSpaces(v)| && !IsWhiteSpace(TrimSpaces(v)[k])
  {
    if v[0] == ' ' {
      k := TrimNotBlank(v[1..], i - 1);
    } else {
      k := i;
    }
  }

  // ---------------------------------------------------------------- text without entities

  /** The words of a text: its longest runs without white space. */
  function Words(t: string): (ws: seq<string>)
    ensures t != "" && !IsWhiteSpace(t[0]) ==> ws != []
  {
    if t == "" then []
    else if IsWhiteSpace(t[0]) then Words(t[1..])
    else if |t| == 1 || IsWhiteSpace(t[1]) then [[t[0]]] + Words(t[1..])
    else var ws := Words(t[1..]); [[t[0]] + ws[0]] + ws[1..]
  }

  function JoinWords(ws: seq<string>): string {
    if ws == [] then "" else ws[0] + After(ws[1..])
  }

  /** The words after the first, each with a space before it. */
  function After(ws: seq<string>): string {
    if ws == [] then "" else " " + (ws[0] + After(ws[1..]))
  }

  /** Condensing, one byte at a time. */
  function SqueezeWhite(t: string, pending: bool): string {
    if t == "" then ""
    else if IsWhiteSpace(t[0]) then SqueezeWhite(t[1..], true)
    else (if pending then " " else "") + ([t[0]] + SqueezeWhite(t[1..], false))
  }

  /** Text in which only the end tag ends the reading, and nothing is a reference. */
  predicate Plain(t: string, end: char, enc: Encoding) {
    '&' !in t && end !in t && !IsWhiteSpace(end) && end as int < 0x80 && WellFormed(t, enc)
  }

  lemma {:induction false} SqueezeWhiteRaw(raw: string, t: string, pending: bool)
    requires raw != "" && forall i :: 0 <= i < |raw| ==> !IsWhiteSpace(raw[i])
    ensures SqueezeWhite(raw + t, pending) == (if pending then " " else "") + (raw + SqueezeWhite(t, false))
  {
    var all := raw + t;
    assert all[1..] == raw[1..] + t && all[0] == raw[0];
    if |raw| == 1 {
      assert raw[1..] + t == t && raw == [raw[0]];
    } else {
      SqueezeWhiteRaw(raw[1..], t, false);
      Associate([raw[0]], raw[1..], SqueezeWhite(t, false));
      assert [raw[0]] + raw[1..] == raw;
      assert "" + (raw[1..] + SqueezeWhite(t, false)) == raw[1..] + SqueezeWhite(t, false);
    }
  }

  /** The first character of plain text, with all its bytes. */
  lemma PlainHead(t: string, tail: string, end: char, enc: Encoding) returns (n: nat)
    requires t != "" && Plain(t, end, enc) && !IsWhiteSpace(t[0])
    ensures 0 < n <= |t| && Plain(t[n..], end, enc) && (t + tail)[0] != end
    ensures forall i :: 0 <= i < n ==> !IsWhiteSpace(t[i])
    ensures CharAt(t + tail, enc) == Chars(t[..n], t[n..] + tail)
    ensures !IsWhiteSpace((t + tail)[0])
  {
    n := if enc.Utf8? then Utf8Step(t[0]) else 1;
    assert t[0] in t;
    assert forall c <- t[n..] :: c in t;
    assert (t + tail)[..n] == t[..n] && (t + tail)[n..] == t[n..] + tail;
    if n == 1 {
      assert t[..1] == [t[0]];
    }
  }

  lemma {:induction false} CondensePlain(t: string, end: char, rest: string, enc: Encoding, pending: bool)
    requires Plain(t, end, enc)
    ensures Condense(t + ([end] + rest), [end], enc, pending) == Read(SqueezeWhite(t, pending), rest)
    decreases |t|
  {
    var p, tail := t + ([end] + rest), [end] + rest;
    if t == "" {
      assert p == tail && tail[1..] == rest;
    } else if IsWhiteSpace(t[0]) {
      var more := t[1..];
      assert t[0] in t && p[0] == t[0] && p[1..] == more + tail;
      assert forall c <- more :: c in t;
      CondensePlain(more, end, rest, enc, true);
    } else {
      var n := PlainHead(t, tail, end, enc);
      CondensePlain(t[n..], end, rest, enc, false);
      CondenseStep(p, end, enc, pending, t[..n], t[n..] + tail);
      TakeDrop(t, n);
      SqueezeWhiteRaw(t[..n], t[n..], pending);
      var r := SqueezeWhite(t[n..], false);
      Associate(" ", t[..n], r);
      assert "" + (t[..n] + r) == t[..n] + r;
    }
  }

  /** Leading white space and, in UTF-8, leading marks are skipped, and no more. */
  lemma {:induction false} SkipPlain(t: string, tail: string, end: char, enc: Encoding)
    requires Plain(t, end, enc) && tail != "" && tail[0] == end
    ensures Skip(t + tail, enc) == Skip(t, enc) + tail && Plain(Skip(t, enc), end, enc)
    decreases |t|
  {
    var p := t + tail;
    if t == "" {
      assert p == tail;
    } else if enc.Utf8? && t[0] as int == 0xEF {
      assert p[0] == t[0] && p[1] == t[1] && p[2] == t[2];
      if IsMark(t) {
        assert p[3..] == t[3..] + tail && forall c <- t[3..] :: c in t;
        SkipPlain(t[3..], tail, end, enc);
      }
    } else if IsWhiteSpace(t[0]) {
      assert p[1..] == t[1..] + tail && p[0] == t[0] && forall c <- t[1..] :: c in t;
      SkipPlain(t[1..], tail, end, enc);
    } else {
      assert p[0] == t[0];
    }
  }

  /** No mark follows the leading white space. */
  predicate NoMark(t: string)
  {
    t == "" || if IsWhiteSpace(t[0]) then NoMark(t[1..]) else !IsMark(t)
  }

  lemma {:induction false} SkipKeepsWords(t: string, enc: Encoding)
    requires enc.Utf8? ==> NoMark(t)
    ensures Words(Skip(t, enc)) == Words(t)
  {
    if t != "" && IsWhiteSpace(t[0]) {
      SkipKeepsWords(t[1..], enc);
    }
  }

  lemma {:induction false} SqueezeIsWords(t: string, pending: bool)
    requires pending || t == "" || !IsWhiteSpace(t[0])
    ensures SqueezeWhite(t, pending) == if pending then After(Words(t)) else JoinWords(Words(t))
  {
    if t == "" {
    } else if IsWhiteSpace(t[0]) {
      SqueezeIsWords(t[1..], true);
    } else {
      var c, more := t[0], t[1..];
      if more == "" || IsWhiteSpace(more[0]) {
        SqueezeIsWords(more, true);
        assert SqueezeWhite(more, false) == SqueezeWhite(more, true);
        assert ([[c]] + Words(more))[1..] == Words(more);
      } else {
        SqueezeIsWords(more, false);
        var ws := Words(more);
        assert ([[c] + ws[0]] + ws[1..])[1..] == ws[1..];
        Associate([c], ws[0], After(ws[1..]));
      }
      var r := [c] + SqueezeWhite(more, false);
      assert "" + r == r;
    }
  }

  /** Condensing is splitting at white space and joining the words with single spaces; in UTF-8 it
      starts behind the leading marks. */
  lemma CondenseIsWords(t: string, end: char, rest: string, enc: Encoding)
    requires Plain(t, end, enc)
    ensures Reading(t + ([end] + rest), true, [end], enc, true) == Read(JoinWords(Words(Skip(t, enc))), rest)
    ensures (enc.Utf8? ==> NoMark(t)) ==> Words(Skip(t, enc)) == Words(t)
  {
    var q := Skip(t, enc);
    SkipPlain(t, [end] + rest, end, enc);
    CondensePlain(q, end, rest, enc, false);
    SqueezeIsWords(q, false);
    if enc.Utf8? ==> NoMark(t) {
      SkipKeepsWords(t, enc);
    }
  }

  predicate IsWord(w: string) { w != "" && forall i :: 0 <= i < |w| ==> !IsWhiteSpace(w[i]) }

  lemma {:induction false} WordsAreWords(t: string)
    ensures forall w <- Words(t) :: IsWord(w) && forall c <- w :: c in t
  {
    if t != "" {
      WordsAreWords(t[1..]);
      assert forall c <- t[1..] :: c in t;
      if !IsWhiteSpace(t[0]) && |t| > 1 && !IsWhiteSpace(t[1]) {
        var ws := Words(t[1..]);
        assert ws[0] in ws && forall w <- ws[1..] :: w in ws;
        var w := [t[0]] + ws[0];
        assert IsWord(w) && forall c <- w :: c == t[0] || c in ws[0];
      } else if !IsWhiteSpace(t[0]) {
        assert IsWord([t[0]]);
      }
    }
  }

  /** Words survive being joined. */
  lemma {:induction false} WordsOfWord(w: string, more: string)
    requires IsWord(w) && (more == "" || IsWhiteSpace(more[0]))
    ensures Words(w + more) == [w] + Words(more)
  {
    var t := w + more;
    assert t[1..] == w[1..] + more;
    if |w| == 1 {
      assert w[1..] + more == more && w == [w[0]];
    } else {
      WordsOfWord(w[1..], more);
      assert ([w[1..]] + Words(more))[1..] == Words(more) && [w[0]] + w[1..] == w;
      assert t[1] == w[1];
    }
  }

  lemma {:induction false} WordsOfAfter(ws: seq<string>)
    requires forall w <- ws :: IsWord(w)
    ensures Words(After(ws)) == ws
  {
    if ws != [] {
      var more := After(ws[1..]);
      assert After(ws)[1..] == ws[0] + more && After(ws)[0] == ' ';
      assert ws[0] in ws && forall w <- ws[1..] :: w in ws;
      WordsOfAfter(ws[1..]);
      WordsOfWord(ws[0], more);
      assert ws == [ws[0]] + ws[1..];
    }
  }

  lemma {:induction false} SqueezedIsPlain(t: string, pending: bool, end: char, enc: Encoding)
    requires Plain(t, end, enc) && end != ' '
    ensures Plain(SqueezeWhite(t, pending), end, enc)
    decreases |t|
  {
    if t != "" {
      if IsWhiteSpace(t[0]) {
        assert forall c <- t[1..] :: c in t;
        SqueezedIsPlain(t[1..], true, end, enc);
      } else {
        var n := PlainHead(t, "", end, enc);
        SqueezedIsPlain(t[n..], false, end, enc);
        TakeDrop(t, n);
        SqueezeWhiteRaw(t[..n], t[n..], pending);
        PlainInFront(t, n, SqueezeWhite(t[n..], false), end, enc);
      }
    }
  }

  /** Whole characters may be put in front of plain text, and a space in front of that. */
  lemma PlainInFront(t: string, n: nat, r: string, end: char, enc: Encoding)
    requires 0 < n <= |t| && Plain(t, end, enc) && Plain(r, end, enc) && end != ' '
    requires n == if enc.Utf8? then Utf8Step(t[0]) else 1
    ensures Plain(t[..n] + r, end, enc) && Plain(" " + (t[..n] + r), end, enc) && Plain("" + (t[..n] + r), end, enc)
  {
    var w := t[..n] + r;
    PlainTogether(t[..n], r, end, enc);
    PlainSpace(w, end, enc);
    assert "" + w == w;
  }

  lemma PlainTogether(raw: string, r: string, end: char, enc: Encoding)
    requires raw != "" && '&' !in raw && end !in raw && Plain(r, end, enc)
    requires enc.Utf8? ==> |raw| == Utf8Step(raw[0]) && forall i :: 1 <= i < |raw| ==> raw[i] as int >= 0x80
    ensures Plain(raw + r, end, enc)
  {
    assert (raw + r)[|raw|..] == r && forall i :: 0 <= i < |raw| ==> (raw + r)[i] == raw[i];
  }

  lemma PlainSpace(w: string, end: char, enc: Encoding)
    requires Plain(w, end, enc) && end != ' '
    ensures Plain(" " + w, end, enc)
  {
    assert (" " + w)[1..] == w;
  }

  /** Condensing twice is condensing once. */
  lemma CondenseIsIdempotent(t: string, end: char, rest: string, enc: Encoding)
    requires Plain(t, end, enc) && end != ' '
    ensures var once := Reading(t + ([end] + rest), true, [end], enc, true);
            once.Read? && Reading(once.text + ([end] + rest), true, [end], enc, true) == once
  {
    var q := Skip(t, enc);
    var ws := Words(q);
    CondenseIsWords(t, end, rest, enc);
    SkipPlain(t, [end] + rest, end, enc);
    SqueezeIsWords(q, false);
    SqueezedIsPlain(q, false, end, enc);
    WordsAreWords(q);
    if ws != [] {
      WordsOfAfter(ws[1..]);
      WordsOfWord(ws[0], After(ws[1..]));
      assert [ws[0]] + ws[1..] == ws;
    }
    SkipTwice(t, enc);
    JoinedStays(q, ws, enc);
    CondenseIsWords(JoinWords(ws), end, rest, enc);
  }

  /** What is condensed starts as what it was made of, so it has no mark at its start either. */
  lemma JoinedStays(q: string, ws: seq<string>, enc: Encoding)
    requires q == Skip(q, enc) && ws == Words(q) && WellFormed(q, enc)
    ensures Skip(JoinWords(ws), enc) == JoinWords(ws)
  {
    if q != "" {
      var r := JoinWords(ws);
      var n := FirstWord(q);
      assert r[0] == q[0];
      if enc.Utf8? && q[0] as int == 0xEF {
        assert r[1] == q[1] && r[2] == q[2];
      }
    }
  }

  lemma {:induction false} FirstWord(q: string) returns (n: nat)
    requires q != "" && !IsWhiteSpace(q[0])
    ensures 0 < n <= |q| && Words(q) != [] && Words(q)[0] == q[..n] && |JoinWords(Words(q))| >= n
    ensures (n < |q| ==> IsWhiteSpace(q[n])) && forall i :: 0 <= i < n ==> JoinWords(Words(q))[i] == q[i]
  {
    if |q| == 1 || IsWhiteSpace(q[1]) {
      n := 1;
    } else {
      var m := FirstWord(q[1..]);
      n := m + 1;
      assert [q[0]] + q[1..][..m] == q[..n];
    }
    assert forall i :: 0 <= i < n ==> JoinWords(Words(q))[i] == Words(q)[0][i];
  }
}
