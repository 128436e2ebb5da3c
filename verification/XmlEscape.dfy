/**
 EncodeString, which escapes text on output, and its inverse, ReadText.
 */
module XmlEscape {
  import opened Sequences
  import opened XmlText
  import opened XmlReference

  lemma TakeDrop(a: string, n: nat)
    requires n <= |a|
    ensures a[..n] + a[n..] == a
  {
  }

  function HexDigit(v: nat): char
    requires v < 16
  {
    if v < 10 then ('0' as int + v) as char else ('A' as int + v - 10) as char
  }

  function EscapeChar(c: char): (e: string)
    ensures e != ""
  {
    if c == '&' then ENTITY[0].0
    else if c == '<' then ENTITY[1].0
    else if c == '>' then ENTITY[2].0
    else if c == '"' then ENTITY[3].0
    else if c == '\'' then ENTITY[4].0
    else if c as int < 32 then "&#x" + [HexDigit(c as int / 16), HexDigit(c as int % 16), ';']
    else [c]
  }

  /** Text that looks like a hexadecimal character reference is passed through, up to but not
      including its semicolon; without a semicolon, up to but not including the last byte. */
  predicate LooksLikeReference(s: string) {
    |s| > 2 && s[0] == '&' && s[1] == '#' && s[2] == 'x'
  }

  function RawLength(s: string): (n: nat)
    ensures n <= |s| && (s != "" ==> n < |s|)
    ensures |s| > 1 ==> 0 < n && (s[n] == ';' || n == |s| - 1)
    ensures forall i :: 0 < i < n ==> s[i] != ';'
  {
    if |s| <= 1 then 0 else if s[1] == ';' then 1 else 1 + RawLength(s[1..])
  }

  function Escape(s: string): string
    decreases |s|
  {
    if s == "" then ""
    else if LooksLikeReference(s) then s[..RawLength(s)] + Escape(s[RawLength(s)..])
    else EscapeChar(s[0]) + Escape(s[1..])
  }

  /** The inner loop of EncodeString. */
  method PassThrough(whole: string) returns (raw: string, s: string)
    ensures raw == whole[..RawLength(whole)] && s == whole[RawLength(whole)..]
  {
    var n := 0;
    s := whole;
    while |s| > 1
      invariant n <= |whole| && s == whole[n..]
      invariant n + RawLength(s) == RawLength(whole)
      decreases |s|
    {
      n, s := n + 1, s[1..];
      if s[0] == ';' { break; }
    }
    raw := whole[..n];
  }

  method EncodeString(str: string) returns (out: string)
    ensures out == Escape(str)
  {
    out := "";
    var s := str;
    while s != ""
      invariant Escape(str) == out + Escape(s)
      decreases |s|
    {
      if LooksLikeReference(s) {
        var raw;
        ghost var before := s;
        raw, s := PassThrough(s);
        assert Escape(before) == raw + Escape(s);
        Associate(out, raw, Escape(s));
        out := out + raw;
      } else {
        assert Escape(s) == EscapeChar(s[0]) + Escape(s[1..]);
        Associate(out, EscapeChar(s[0]), Escape(s[1..]));
        out := out + EscapeChar(s[0]);
        s := s[1..];
      }
    }
  }

  // ---------------------------------------------------------------- the way back

  /** No place in the text looks like a hexadecimal reference. */
  predicate NoReference(v: string) {
    v == "" || (!LooksLikeReference(v) && NoReference(v[1..]))
  }

  /** In UTF-8, lead bytes are followed by the bytes they announce. */
  predicate WellFormed(v: string, enc: Encoding)
    decreases |v|
  {
    v == "" || !enc.Utf8? ||
    (var n := Utf8Step(v[0]);
     n <= |v| && (forall i :: 1 <= i < n ==> v[i] as int >= 0x80) && WellFormed(v[n..], enc))
  }

  lemma ControlReference(c: char, tail: string, enc: Encoding)
    requires c as int < 32
    ensures Entity(EscapeChar(c) + tail, enc) == Chars([c], tail)
  {
    var d := [HexDigit(c as int / 16), HexDigit(c as int % 16)];
    assert Positional(d, 0, 1, 16) == c as int / 16;
    assert Positional(d, 0, 2, 16) == c as int;
    assert EscapeChar(c) == ReferenceText(true, d);
    NumericReference(true, d, tail, enc);
    assert FromCode(c as int, enc) == [c];
  }

  lemma CharAtEscaped(c: char, tail: string, enc: Encoding)
    requires enc.Utf8? ==> Utf8Step(c) == 1
    ensures CharAt(EscapeChar(c) + tail, enc) == Chars([c], tail)
  {
    var e := EscapeChar(c);
    var p := e + tail;
    assert p[0] == e[0] && p[|e|..] == tail;
    if c as int < 32 {
      ControlReference(c, tail, enc);
    } else if e[0] == '&' {
      assert p[1] == e[1] && p[2] == e[2];
      NamedEntity(c, tail);
    }
  }

  lemma NamedEntity(c: char, tail: string)
    requires c in "&<>\"'"
    ensures Named(EscapeChar(c) + tail, 0) == Chars([c], tail)
  {
    var p := EscapeChar(c) + tail;
    assert p[|EscapeChar(c)|..] == tail;
    assert forall k :: 0 <= k < |EscapeChar(c)| ==> p[k] == EscapeChar(c)[k];
    if c == '&' {
    } else if c == '<' {
      assert Named(p, 0) == Named(p, 1);
    } else if c == '>' {
      assert Named(p, 0) == Named(p, 1) == Named(p, 2);
    } else if c == '"' {
      assert Named(p, 0) == Named(p, 1) == Named(p, 2) == Named(p, 3);
    } else {
      assert p[1] == 'a' && p[2] == 'p';
      assert Named(p, 0) == Named(p, 1) == Named(p, 2) == Named(p, 3) == Named(p, 4);
    }
  }

  /** The five predefined entities of section 4.6 of XML 1.0, as the parser reads them. */
  lemma PredefinedEntities(rest: string, enc: Encoding)
    ensures Entity("&amp;" + rest, enc) == Chars("&", rest)
    ensures Entity("&lt;" + rest, enc) == Chars("<", rest)
    ensures Entity("&gt;" + rest, enc) == Chars(">", rest)
    ensures Entity("&quot;" + rest, enc) == Chars("\"", rest)
    ensures Entity("&apos;" + rest, enc) == Chars("'", rest)
  {
    OneEntity("&amp;", '&', rest, enc);
    OneEntity("&lt;", '<', rest, enc);
    OneEntity("&gt;", '>', rest, enc);
    OneEntity("&quot;", '"', rest, enc);
    OneEntity("&apos;", '\'', rest, enc);
  }

  lemma OneEntity(e: string, c: char, rest: string, enc: Encoding)
    requires c in "&<>\"'" && e == EscapeChar(c)
    ensures Entity(e + rest, enc) == Chars([c], rest)
  {
    var p := e + rest;
    assert p[0] == e[0] && p[1] == e[1];
    NamedEntity(c, rest);
  }

  /** The same five, as EncodeString writes them; a control character as a reference with two
      upper-case digits; and every other character as it is. */
  lemma EscapedCharacters(c: char)
    ensures Escape("&") == "&amp;" && Escape("<") == "&lt;" && Escape(">") == "&gt;"
    ensures Escape("\"") == "&quot;" && Escape("'") == "&apos;"
    ensures c as int < 32 ==>
              var digits := "0123456789ABCDEF";
              Escape([c]) == "&#x" + [digits[c as int / 16], digits[c as int % 16], ';']
    ensures c as int >= 32 && c !in "&<>\"'" ==> Escape([c]) == [c]
  {
    EscapeOne('&');
    EscapeOne('<');
    EscapeOne('>');
    EscapeOne('"');
    EscapeOne('\'');
    EscapeOne(c);
  }

  lemma EscapeOne(c: char)
    ensures Escape([c]) == EscapeChar(c)
  {
    assert Escape([c]) == EscapeChar(c) + Escape([c][1..]);
  }

  lemma BehindAmpersand(name: string, rest: string)
    ensures "&" + name <= "&" + rest ==> name <= rest
  {
    assert ("&" + name)[1..] == name && ("&" + rest)[1..] == rest;
  }

  /** An ampersand that starts neither a numeric reference nor one of the five names is dropped. */
  lemma StrangeEntity(rest: string, enc: Encoding)
    requires |rest| < 2 || rest[0] != '#'
    requires forall name <- ["amp;", "lt;", "gt;", "quot;", "apos;"] :: !(name <= rest)
    ensures Entity("&" + rest, enc) == Chars("", rest)
  {
    var p := "&" + rest;
    assert p[1..] == rest;
    var names := ["amp;", "lt;", "gt;", "quot;", "apos;"];
    forall i | 0 <= i < 5
      ensures !(ENTITY[i].0 <= p)
    {
      assert names[i] in names;
      assert ENTITY[i].0 == "&" + names[i];
      BehindAmpersand(names[i], rest);
    }
    assert Named(p, 0) == Named(p, 1) == Named(p, 2) == Named(p, 3) == Named(p, 4) == Named(p, 5);
  }

  /** The characters that are always escaped and so can end a text: quotes and angle brackets. */
  predicate EndsText(c: char) { c == '<' || c == '>' || c == '"' || c == '\'' }

  /** Escaping works on bytes at or above 0x80 as if they were not there. */
  lemma {:induction false} EscapeRaw(raw: string, v: string)
    requires forall i :: 0 <= i < |raw| ==> raw[i] as int >= 0x80
    ensures Escape(raw + v) == raw + Escape(v)
  {
    if raw == "" {
      assert raw + v == v;
    } else {
      var c, more := raw[0], raw[1..];
      assert (raw + v)[0] == c && (raw + v)[1..] == more + v;
      EscapeRaw(more, v);
      assert Escape(raw + v) == [c] + Escape(more + v);
      Associate([c], more, Escape(v));
      assert [c] + more == raw;
    }
  }

  lemma {:induction false} NoReferenceSuffix(raw: string, v: string)
    requires NoReference(raw + v)
    ensures NoReference(v)
  {
    if raw == "" {
      assert raw + v == v;
    } else {
      assert (raw + v)[1..] == raw[1..] + v;
      NoReferenceSuffix(raw[1..], v);
    }
  }

  /** One whole character of `v` comes back, unless it starts what looks like a reference, and the
      rest of `v` is left escaped. */
  lemma WholeCharacter(v: string, tail: string, enc: Encoding) returns (n: nat)
    requires v != "" && !LooksLikeReference(v) && WellFormed(v, enc)
    ensures 0 < n <= |v| && WellFormed(v[n..], enc) && (enc.Utf8? || n == 1)
    ensures n > 1 ==> forall i :: 0 <= i < n ==> v[i] as int >= 0x80
    ensures CharAt(Escape(v) + tail, enc) == Chars(v[..n], Escape(v[n..]) + tail)
    ensures !EndsText((Escape(v) + tail)[0])
  {
    n := if enc.Utf8? then Utf8Step(v[0]) else 1;
    if n == 1 {
      assert v[..1] == [v[0]];
      Associate(EscapeChar(v[0]), Escape(v[1..]), tail);
      CharAtEscaped(v[0], Escape(v[1..]) + tail, enc);
    } else {
      TakeDrop(v, n);
      ManyBytes(v[..n], v[n..], tail);
      assert forall i :: 0 <= i < n ==> v[..n][i] == v[i];
    }
  }

  lemma ManyBytes(raw: string, w: string, tail: string)
    requires |raw| > 1 && |raw| == Utf8Step(raw[0]) && forall i :: 1 <= i < |raw| ==> raw[i] as int >= 0x80
    ensures forall i :: 0 <= i < |raw| ==> raw[i] as int >= 0x80
    ensures CharAt(Escape(raw + w) + tail, Utf8) == Chars(raw, Escape(w) + tail)
    ensures !EndsText((Escape(raw + w) + tail)[0])
  {
    assert raw[0] as int >= 0x80;
    EscapeRaw(raw, w);
    Associate(raw, Escape(w), tail);
    CharAtMany(raw, Escape(w) + tail);
  }

  lemma CharAtMany(raw: string, tail: string)
    requires |raw| > 1 && |raw| == Utf8Step(raw[0])
    ensures CharAt(raw + tail, Utf8) == Chars(raw, tail) && (raw + tail)[0] == raw[0]
  {
    FrontOf(raw, tail);
  }

  lemma FrontOf(a: string, b: string)
    requires a != ""
    ensures (a + b)[..|a|] == a && (a + b)[|a|..] == b && (a + b)[0] == a[0]
  {
  }

  lemma CharAtEscapedText(v: string, tail: string, enc: Encoding) returns (n: nat)
    requires v != "" && NoReference(v) && WellFormed(v, enc)
    ensures 0 < n <= |v| && NoReference(v[n..]) && WellFormed(v[n..], enc)
    ensures enc.Utf8? || n == 1
    ensures n > 1 ==> forall i :: 0 <= i < n ==> v[i] as int >= 0x80
    ensures CharAt(Escape(v) + tail, enc) == Chars(v[..n], Escape(v[n..]) + tail)
    ensures !EndsText((Escape(v) + tail)[0])
  {
    n := WholeCharacter(v, tail, enc);
    TakeDrop(v, n);
    NoReferenceSuffix(v[..n], v[n..]);
  }

  lemma KeepStep(p: string, end: char, enc: Encoding, c: string, q: string)
    requires p != "" && p[0] != end && CharAt(p, enc) == Chars(c, q)
    ensures Keep(p, [end], enc) == Keep(q, [end], enc).Prepend(c)
  {
  }

  /** Reading keeps white space: the escaped text comes back in front of what follows it. */
  lemma {:induction false} KeepEscapedOnto(v: string, tail: string, end: char, enc: Encoding)
    requires EndsText(end) && NoReference(v) && WellFormed(v, enc)
    ensures Keep(Escape(v) + tail, [end], enc) == Keep(tail, [end], enc).Prepend(v)
    decreases |v|
  {
    if v == "" {
      assert Escape(v) + tail == tail;
      PrependNothing(Keep(tail, [end], enc));
    } else {
      var n := CharAtEscapedText(v, tail, enc);
      KeepEscapedOnto(v[n..], tail, end, enc);
      KeepStep(Escape(v) + tail, end, enc, v[..n], Escape(v[n..]) + tail);
      PrependTwice(Keep(tail, [end], enc), v[n..], v[..n]);
      TakeDrop(v, n);
    }
  }

  /** The escaped text comes back and the end tag is consumed. */
  lemma KeepEscaped(v: string, end: char, rest: string, enc: Encoding)
    requires EndsText(end) && NoReference(v) && WellFormed(v, enc)
    ensures Keep(Escape(v) + ([end] + rest), [end], enc) == Read(v, rest)
  {
    KeepEscapedOnto(v, [end] + rest, end, enc);
    assert ([end] + rest)[1..] == rest && v + "" == v;
  }

  // ---------------------------------------------------------------- exactly when it comes back

  /** Escaping a passed-through reference leaves its text up to the semicolon or the last byte. */
  lemma PassedThrough(v: string, tail: string)
    requires LooksLikeReference(v)
    ensures var k, p := RawLength(v), Escape(v) + tail;
            k < |p| && p[..k] == v[..k] && p[2] == 'x'
            && if v[k] == ';' then 2 < k && p[k] == ';' && p[k + 1..] == Escape(v[k + 1..]) + tail
               else p[k..] == EscapeChar(v[k]) + tail
  {
    var k := RawLength(v);
    var e, more := EscapeChar(v[k]), Escape(v[k + 1..]);
    EscapeFrom(v, k);
    Associate(v[..k], e + more, tail);
    Associate(e, more, tail);
    PieceAfter(v[..k], e, more + tail);
  }

  /** The byte at which the passed-through stretch ends is escaped on its own. */
  lemma EscapeFrom(v: string, k: nat)
    requires k < |v| && (v[k] == ';' || k == |v| - 1)
    ensures Escape(v[k..]) == EscapeChar(v[k]) + Escape(v[k + 1..])
  {
    assert v[k..][1..] == v[k + 1..];
  }

  lemma PieceAfter(a: string, e: string, more: string)
    requires e != ""
    ensures var p := a + (e + more);
      && |a| < |p| && p[..|a|] == a && p[|a|] == e[0] && p[|a|..] == e + more
      && (|e| == 1 ==> p[|a| + 1..] == more)
      && (more == "" ==> p[|a|..] == e)
  {
  }

  /** The semicolon that GetEntity finds when the passed-through text has none. */
  lemma SemicolonAfter(p: string, k: nat, c: char, tail: string) returns (semi: nat)
    requires 2 <= k <= |p| && p[k..] == EscapeChar(c) + tail && c != ';'
    requires tail != "" && tail[0] != ';' && forall i :: 2 < i < k ==> p[i] != ';'
    ensures 3 < |p| && semi == IndexFrom(p, ';', 3)
    ensures semi == |p| || p[semi + 1..] == tail || |p| - semi < |tail|
  {
    var e := EscapeChar(c);
    semi := IndexFrom(p, ';', 3);
    assert forall i {:trigger e[i]} :: 0 <= i < |e| ==> p[k + i] == p[k..][i] == e[i];
    if |e| > 1 {
      assert e[|e| - 1] == ';' && forall i :: 0 <= i < |e| - 1 ==> e[i] != ';';
      IndexIs(p, ';', 3, k + |e| - 1);
      assert p[k..][|e|..] == tail;
    } else {
      assert p[k] == c && p[k + 1] == p[k..][1] == tail[0];
    }
  }

  /** What reading back can at best give: no more text than was escaped, and strictly less when
      the text has something that looks like a reference; or it ends in the wrong place. */
  ghost predicate Spoiled(r: Read, v: string, rest: string) {
    r.Read? && r.rest == rest ==> |r.text| <= |v| && (NoReference(v) || |r.text| < |v|)
  }

  /** Text is well formed from any byte of its own on that does not trail another. */
  lemma {:induction false} WellFormedFrom(v: string, i: nat, enc: Encoding)
    requires WellFormed(v, enc) && i <= |v| && (i < |v| ==> v[i] as int < 0x80)
    ensures WellFormed(v[i..], enc)
    decreases |v|
  {
    if enc.Utf8? && 0 < i {
      var n := Utf8Step(v[0]);
      assert i >= n;
      WellFormedFrom(v[n..], i - n, enc);
      assert v[n..][i - n..] == v[i..];
    }
  }

  lemma WellFormedBehind(v: string, i: nat, enc: Encoding)
    requires WellFormed(v, enc) && i < |v| && v[i] as int < 0x80
    ensures WellFormed(v[i + 1..], enc)
  {
    WellFormedFrom(v, i, enc);
    assert v[i..][1..] == v[i + 1..];
  }

  lemma {:induction false} NoReferenceBehind(raw: string, v: string)
    requires NoReference(v) && forall i :: 0 <= i < |raw| ==> raw[i] as int >= 0x80
    ensures NoReference(raw + v)
  {
    if raw == "" {
      assert raw + v == v;
    } else {
      assert (raw + v)[1..] == raw[1..] + v;
      NoReferenceBehind(raw[1..], v);
    }
  }

  lemma {:induction false} KeepNeverLonger(v: string, end: char, rest: string, enc: Encoding)
    requires EndsText(end) && WellFormed(v, enc)
    ensures Spoiled(Keep(Escape(v) + ([end] + rest), [end], enc), v, rest)
    decreases |v|
  {
    var tail := [end] + rest;
    if v == "" {
      assert Escape(v) + tail == tail && tail[1..] == rest;
    } else if LooksLikeReference(v) {
      var k := RawLength(v);
      PassedThrough(v, tail);
      if v[k] == ';' {
        WellFormedBehind(v, k, enc);
        KeepNeverLonger(v[k + 1..], end, rest, enc);
        KeepWithSemicolon(v, Escape(v) + tail, k, end, rest, enc);
      } else {
        KeepWithoutSemicolon(v, Escape(v) + tail, k, end, rest, enc);
      }
    } else {
      var n := WholeCharacter(v, tail, enc);
      KeepNeverLonger(v[n..], end, rest, enc);
      KeepCharacter(v, n, Escape(v) + tail, Escape(v[n..]) + tail, end, rest, enc);
    }
  }

  lemma KeepCharacter(v: string, n: nat, p: string, q: string, end: char, rest: string, enc: Encoding)
    requires 0 < n <= |v| && !LooksLikeReference(v) && (n > 1 ==> forall i :: 0 <= i < n ==> v[i] as int >= 0x80)
    requires p != "" && p[0] != end && CharAt(p, enc) == Chars(v[..n], q)
    requires Spoiled(Keep(q, [end], enc), v[n..], rest)
    ensures Spoiled(Keep(p, [end], enc), v, rest)
  {
    KeepStep(p, end, enc, v[..n], q);
    if NoReference(v[n..]) && n > 1 {
      TakeDrop(v, n);
      NoReferenceBehind(v[..n], v[n..]);
    }
  }

  /** A hexadecimal reference is unreadable or gives at most four bytes, and just one byte when it has
      no digits or when the encoding is not UTF-8. */
  lemma FewBytes(p: string, semi: nat, enc: Encoding)
    requires |p| > 3 && LooksLikeReference(p) && semi == IndexFrom(p, ';', 3)
    ensures CharAt(p, enc).NoChar?
            || (semi < |p| && CharAt(p, enc).Chars?
                && CharAt(p, enc).rest == p[semi + 1..] && |CharAt(p, enc).text| <= 4
                && (semi == 3 || !enc.Utf8? ==> |CharAt(p, enc).text| == 1))
  {
  }

  lemma KeepWithSemicolon(v: string, p: string, k: nat, end: char, rest: string, enc: Encoding)
    requires EndsText(end) && 2 < k < |v| && k < |p| && p[..k] == v[..k]
    requires LooksLikeReference(v) && p[k] == ';' && forall i :: 0 < i < k ==> v[i] != ';'
    requires Spoiled(Keep(p[k + 1..], [end], enc), v[k + 1..], rest)
    ensures Spoiled(Keep(p, [end], enc), v, rest)
  {
    assert forall i :: 0 <= i < k ==> p[i] == p[..k][i] == v[i];
    IndexIs(p, ';', 3, k);
    FewBytes(p, k, enc);
    if CharAt(p, enc).Chars? {
      KeepStep(p, end, enc, CharAt(p, enc).text, p[k + 1..]);
    }
  }

  lemma TwoDigits(p: string, lo: nat)
    requires lo + 2 <= |p| && AllDigits(p, lo, lo + 2, 16)
    ensures Accumulate(p, lo, lo + 2, 16, 1) < 256
  {
    assert Positional(p, lo, lo + 1, 16) == DigitValue(p[lo]);
    AccumulateIsPositional(p, lo, lo + 2, 16);
  }

  /** The escaped last byte closes the reference in front of it: only a control character's does so
      with digits, and these stand for less than 256. */
  lemma LastByteCloses(p: string, k: nat, c: char, tail: string, enc: Encoding)
    requires 2 <= k && |p| > 3 && LooksLikeReference(p) && k <= |p| && p[k..] == EscapeChar(c) + tail
    requires |EscapeChar(c)| > 1 && forall i :: 2 < i < k ==> p[i] != ';'
    ensures CharAt(p, enc).NoChar?
            || (CharAt(p, enc).Chars? && CharAt(p, enc).rest == tail && |CharAt(p, enc).text| <= 2)
  {
    var e := EscapeChar(c);
    var semi := k + |e| - 1;
    assert p[k..][|e|..] == tail;
    assert forall i {:trigger e[i]} :: 0 <= i < |e| ==> p[k + i] == p[k..][i] == e[i];
    LastDigits(p, k, c, semi);
    IndexIs(p, ';', 3, semi);
  }

  lemma LastDigits(p: string, k: nat, c: char, semi: nat)
    requires 2 <= k && LooksLikeReference(p) && semi == k + |EscapeChar(c)| - 1 < |p|
    requires |EscapeChar(c)| > 1 && forall i :: 0 <= i < |EscapeChar(c)| ==> p[k + i] == EscapeChar(c)[i]
    requires forall i :: 2 < i < k ==> p[i] != ';'
    ensures 3 <= semi && p[semi] == ';' && forall i :: 3 <= i < semi ==> p[i] != ';'
    ensures var first := LastBefore(p, 'x', 2, semi) + 1;
      AllDigits(p, first, semi, 16) ==> Accumulate(p, first, semi, 16, 1) < 256
  {
    var e := EscapeChar(c);
    assert p[semi] == p[k + (|e| - 1)] == e[|e| - 1] == ';';
    assert e[0] == '&' && p[k] == p[k + 0] == e[0] && p[k + 1] == e[1];
    if c as int < 32 {
      assert p[k + 1] == '#' && p[k + 2] == 'x' && semi == k + 5 && p[k + 3] == e[3] && p[k + 4] == e[4];
      LastIs(p, 'x', k + 2, semi);
      if AllDigits(p, k + 3, semi, 16) {
        TwoDigits(p, k + 3);
      }
    } else {
      assert p[k + 2] == e[2] && p[k + 3] == e[3] && semi <= k + 5;
      assert semi == k + 5 ==> p[k + 4] == e[4];
      assert LastBefore(p, 'x', 2, semi) < k;
    }
  }

  lemma KeepWithoutSemicolon(v: string, p: string, k: nat, end: char, rest: string, enc: Encoding)
    requires EndsText(end) && 1 < k < |v| && k < |p| && p[..k] == v[..k] && p[2] == 'x'
    requires p[k..] == EscapeChar(v[k]) + ([end] + rest) && v[k] != ';'
    requires LooksLikeReference(v) && forall i :: 0 < i < k ==> v[i] != ';'
    ensures Spoiled(Keep(p, [end], enc), v, rest)
  {
    var tail := [end] + rest;
    assert forall i :: 0 <= i < k ==> p[i] == p[..k][i] == v[i];
    var semi := SemicolonAfter(p, k, v[k], tail);
    FewBytes(p, semi, enc);
    if |EscapeChar(v[k])| > 1 {
      LastByteCloses(p, k, v[k], tail, enc);
    }
    if CharAt(p, enc).Chars? {
      ReadsLess(v, p, end, rest, enc);
    }
  }

  /** One character was read, and what follows is the end tag, or starts behind it. */
  lemma ReadsLess(v: string, p: string, end: char, rest: string, enc: Encoding)
    requires p != "" && p[0] != end && CharAt(p, enc).Chars?
    requires var c := CharAt(p, enc); (c.rest == [end] + rest && |c.text| < |v|) || |c.rest| < |[end] + rest|
    ensures Spoiled(Keep(p, [end], enc), v, rest)
  {
    var c, q := CharAt(p, enc).text, CharAt(p, enc).rest;
    KeepStep(p, end, enc, c, q);
    if q == [end] + rest {
      assert ([end] + rest)[1..] == rest && c + "" == c;
    }
  }

  /** In every encoding, exactly the texts without anything that looks like a hexadecimal reference
      survive. */
  lemma EscapeRoundTrip(v: string, end: char, rest: string, enc: Encoding)
    requires EndsText(end) && WellFormed(v, enc)
    ensures Keep(Escape(v) + ([end] + rest), [end], enc) == Read(v, rest) <==> NoReference(v)
  {
    if NoReference(v) {
      KeepEscaped(v, end, rest, enc);
    } else {
      KeepNeverLonger(v, end, rest, enc);
    }
  }
}
