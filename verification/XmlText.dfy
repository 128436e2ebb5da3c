/**
 The character layer of TinyXML: classification, white-space skipping, names, entities and
 ReadText.

 Text is a `string` in which every `char` stands for one byte. A `const char*` is the text from
 the place it points at up to the terminating NUL, which is not stored: `*p == 0` is `p == ""`
 and `++p` is `p := p[1..]`. Null pointers and pointers that have left the string are separate
 constructors of the result types.
 */
module XmlText {

  datatype Encoding = Unstated | Utf8 | Legacy

  // ---------------------------------------------------------------- characters

  predicate IsWhiteSpace(c: char) { c == ' ' || '\t' <= c <= '\r' }

  predicate IsAlpha(c: char) {
    if c as int < 127 then 'a' <= c <= 'z' || 'A' <= c <= 'Z' else true
  }

  predicate IsAlphaNum(c: char) {
    if c as int < 127 then IsAlpha(c) || '0' <= c <= '9' else true
  }

  predicate NameStart(c: char) { IsAlpha(c) || c == '_' }

  predicate NameChar(c: char) {
    IsAlphaNum(c) || c == '_' || c == '-' || c == '.' || c == ':'
  }

  /** utf8ByteTable: the number of bytes of the character that starts with this byte. */
  function Utf8Step(lead: char): nat {
    var b := lead as int;
    if 0xC2 <= b <= 0xDF then 2
    else if 0xE0 <= b <= 0xEF then 3
    else if 0xF0 <= b <= 0xF4 then 4
    else 1
  }

  /** EF BB BF, EF BF BE and EF BF BF: byte order marks, skipped as white space in UTF-8. */
  predicate IsMark(p: string) {
    && |p| >= 3 && p[0] as int == 0xEF
    && ((p[1] as int == 0xBB && p[2] as int == 0xBF)
        || (p[1] as int == 0xBF && (p[2] as int == 0xBE || p[2] as int == 0xBF)))
  }

  predicate AllWhite(t: string) { forall i :: 0 <= i < |t| ==> IsWhiteSpace(t[i]) }

  // ---------------------------------------------------------------- white space and names

  /** The text after its leading white space. */
  function Skip(p: string, enc: Encoding): (r: string)
    ensures |r| <= |p|
    ensures r != "" ==> !IsWhiteSpace(r[0])
    decreases |p|
  {
    if p == "" then p
    else if enc.Utf8? && IsMark(p) then Skip(p[3..], enc)
    else if IsWhiteSpace(p[0]) then Skip(p[1..], enc)
    else p
  }

  /** SkipWhiteSpace; the answer is null when the text is already at its end. */
  method SkipWhiteSpace(text: string, enc: Encoding) returns (nil: bool, p: string)
    ensures nil <==> text == ""
    ensures p == Skip(text, enc)
  {
    p := text;
    if p == "" { return true, p; }
    nil := false;
    if enc.Utf8? {
      while p != ""
        invariant Skip(p, enc) == Skip(text, enc)
        decreases |p|
      {
        if IsMark(p) {
          p := p[3..];
          continue;
        }
        if IsWhiteSpace(p[0]) {
          p := p[1..];
        } else {
          return;
        }
      }
    } else {
      while p != "" && IsWhiteSpace(p[0])
        invariant Skip(p, enc) == Skip(text, enc)
        decreases |p|
      {
        p := p[1..];
      }
    }
  }

  /** The length of the longest prefix made of name characters. */
  function NameRun(p: string): (n: nat)
    ensures n <= |p| && (forall i :: 0 <= i < n ==> NameChar(p[i]))
    ensures n < |p| ==> !NameChar(p[n])
  {
    if p == "" || !NameChar(p[0]) then 0 else 1 + NameRun(p[1..])
  }

  predicate IsName(n: string) {
    n != "" && NameStart(n[0]) && forall i :: 0 <= i < |n| ==> NameChar(n[i])
  }

  /** ReadName; there is one way to split the text, because the name is a maximal run. */
  method ReadName(start: string) returns (nil: bool, name: string, p: string)
    ensures nil <==> start == "" || !NameStart(start[0])
    ensures !nil ==> name == start[..NameRun(start)] && p == start[NameRun(start)..] && name != ""
  {
    name, p := "", start;
    if p == "" || !NameStart(p[0]) { return true, name, p; }
    var n := 0;
    while p != "" && NameChar(p[0])
      invariant n + NameRun(p) == NameRun(start) && n <= |start| && p == start[n..]
      invariant n == 0 ==> p == start
      decreases |p|
    {
      n, p := n + 1, p[1..];
    }
    nil, name := false, start[..n];
  }

  // ---------------------------------------------------------------- entities

  /** What GetChar and GetEntity deliver: the bytes put in `_value` and the text after them; in
      UTF-8 the pointer can leave the string (`Beyond`); a bad reference makes it null. */
  datatype CharRead = Chars(text: string, rest: string) | Beyond | NoChar

  predicate IsDigit(c: char, radix: nat) {
    '0' <= c <= '9' || (radix == 16 && ('a' <= c <= 'f' || 'A' <= c <= 'F'))
  }

  function DigitValue(c: char): (v: nat)
    requires IsDigit(c, 16)
    ensures v < 16 && (IsDigit(c, 10) ==> v < 10)
  {
    if '0' <= c <= '9' then c as int - '0' as int
    else if 'a' <= c <= 'f' then c as int - 'a' as int + 10
    else c as int - 'A' as int + 10
  }

  predicate AllDigits(p: string, lo: nat, hi: nat, radix: nat)
    requires hi <= |p|
  {
    forall i :: lo <= i < hi ==> IsDigit(p[i], radix)
  }

  /** `unsigned` is 32 bits wide, `unsigned long` 64. */
  const UNSIGNED := 0x1_0000_0000
  const ULONG := 0x1_0000_0000_0000_0000

  /** The digits are weighed from the right; the weight wraps at 32 bits, the sum at 64. */
  function Accumulate(p: string, lo: nat, hi: nat, radix: nat, weight: nat): (u: nat)
    requires lo <= hi <= |p| && AllDigits(p, lo, hi, radix) && (radix == 10 || radix == 16)
    ensures u < ULONG
    decreases hi
  {
    if lo == hi then 0
    else Add(Accumulate(p, lo, hi - 1, radix, Times(weight, radix)), Times(weight, DigitValue(p[hi - 1])))
  }

  /** `unsigned` multiplication. */
  function Times(a: nat, b: nat): (c: nat)
    ensures c < UNSIGNED
  {
    a * b % UNSIGNED
  }

  /** `unsigned long` addition. */
  function Add(a: nat, b: nat): (c: nat)
    requires a < ULONG && b < ULONG
    ensures c < ULONG
  {
    if a + b < ULONG then a + b else a + b - ULONG
  }

  lemma AddAssociates(a: nat, b: nat, c: nat)
    requires a < ULONG && b < ULONG && c < ULONG
    ensures Add(Add(a, b), c) == Add(a, Add(c, b))
  {
  }

  /** One turn of the loop keeps the sum of what is weighed and what is still to be weighed. */
  lemma WeighOne(p: string, lo: nat, q: nat, radix: nat, mult: nat, ucs: nat)
    requires ucs < ULONG && lo <= q < |p| && AllDigits(p, lo, q + 1, radix) && (radix == 10 || radix == 16)
    ensures Add(Accumulate(p, lo, q + 1, radix, mult), ucs)
            == Add(Accumulate(p, lo, q, radix, Times(mult, radix)), Add(ucs, Times(mult, DigitValue(p[q]))))
  {
    AddAssociates(Accumulate(p, lo, q, radix, Times(mult, radix)), Times(mult, DigitValue(p[q])), ucs);
  }

  /** UTF-8 as section 3 of RFC 3629 lays it out; larger codes give no bytes at all. */
  function Utf8Form(u: nat): (t: string)
    ensures |t| <= 4
  {
    if u < 0x80 then [u as char]
    else if u < 0x800 then [(0xC0 + u / 0x40) as char, Trail(u)]
    else if u < 0x10000 then [(0xE0 + u / 0x1000) as char, Trail(u / 0x40), Trail(u)]
    else if u < 0x200000 then
      [(0xF0 + u / 0x40000) as char, Trail(u / 0x1000), Trail(u / 0x40), Trail(u)]
    else ""
  }

  function Trail(u: nat): char { (0x80 + u % 0x40) as char }

  function FromCode(u: nat, enc: Encoding): (t: string)
    ensures |t| <= 4
  {
    if enc.Utf8? then Utf8Form(u) else [(u % 256) as char]
  }

  /** strchr: the first index of `c` at or after `from`, or the length when there is none. */
  function IndexFrom(p: string, c: char, from: nat): (i: nat)
    requires from <= |p|
    ensures from <= i <= |p| && (i < |p| ==> p[i] == c)
    ensures forall k :: from <= k < i ==> p[k] != c
    decreases |p| - from
  {
    if from == |p| || p[from] == c then from else IndexFrom(p, c, from + 1)
  }

  /** The last index of `c` before `hi`; there is one, because `p[at] == c`. */
  function LastBefore(p: string, c: char, at: nat, hi: nat): (i: nat)
    requires at < hi <= |p| && p[at] == c
    ensures at <= i < hi && p[i] == c
    ensures forall k :: i < k < hi ==> p[k] != c
    decreases hi
  {
    if p[hi - 1] == c then hi - 1 else LastBefore(p, c, at, hi - 1)
  }

  /** A numeric reference whose radix mark, `x` or `#`, is at `mark`. */
  function Reference(p: string, mark: nat, radix: nat, enc: Encoding): (r: CharRead)
    requires mark + 1 < |p| && (radix == 10 || radix == 16)
    ensures r.Chars? ==> |r.rest| < |p|
    ensures !r.Beyond?
  {
    var semi := IndexFrom(p, ';', mark + 1);
    if semi == |p| then NoChar
    else
      var first := LastBefore(p, p[mark], mark, semi) + 1;
      if AllDigits(p, first, semi, radix)
      then Chars(FromCode(Accumulate(p, first, semi, radix, 1), enc), p[semi + 1..])
      else NoChar
  }

  const ENTITY := [("&amp;", '&'), ("&lt;", '<'), ("&gt;", '>'), ("&quot;", '"'), ("&apos;", '\'')]

  /** The first entity, from index `i` on, whose text starts `p`; a lone `&` is dropped. */
  function Named(p: string, i: nat): (r: CharRead)
    requires p != "" && i <= |ENTITY|
    ensures r.Chars? && |r.rest| < |p|
    decreases |ENTITY| - i
  {
    if i == |ENTITY| then Chars("", p[1..])
    else if ENTITY[i].0 <= p then Chars([ENTITY[i].1], p[|ENTITY[i].0|..])
    else Named(p, i + 1)
  }

  function Entity(p: string, enc: Encoding): (r: CharRead)
    requires p != "" && p[0] == '&'
    ensures r.Chars? ==> |r.rest| < |p|
    ensures !r.Beyond?
  {
    if |p| > 2 && p[1] == '#' then
      if p[2] == 'x' then (if |p| == 3 then NoChar else Reference(p, 2, 16, enc))
      else Reference(p, 1, 10, enc)
    else Named(p, 0)
  }

  function CharAt(p: string, enc: Encoding): (r: CharRead)
    requires p != ""
    ensures r.Chars? ==> |r.rest| < |p|
  {
    var n := if enc.Utf8? then Utf8Step(p[0]) else 1;
    if n == 1 then (if p[0] == '&' then Entity(p, enc) else Chars([p[0]], p[1..]))
    else if n <= |p| then Chars(p[..n], p[n..])
    else Beyond
  }

  /** The right-to-left loop over the digits of a reference, from the `;` to the radix mark;
      the digits start at `first`. */
  method WeighDigits(p: string, stop: char, semi: nat, radix: nat, ghost first: nat)
    returns (ok: bool, ucs: nat)
    requires 0 < first <= semi < |p| && (radix == 10 || radix == 16)
    requires p[first - 1] == stop && forall k :: first <= k < semi ==> p[k] != stop
    ensures ok == AllDigits(p, first, semi, radix)
    ensures ok ==> ucs == Accumulate(p, first, semi, radix, 1)
  {
    var q := semi - 1;
    var mult: nat := 1;
    ucs := 0;
    ghost var digits := AllDigits(p, first, semi, radix);
    ghost var goal := if digits then Accumulate(p, first, semi, radix, 1) else 0;
    while p[q] != stop
      invariant first - 1 <= q < semi && ucs < ULONG
      invariant AllDigits(p, q + 1, semi, radix)
      invariant digits ==> goal == Add(Accumulate(p, first, q + 1, radix, mult), ucs)
      decreases q
    {
      if !IsDigit(p[q], radix) { return false, 0; }
      if digits { WeighOne(p, first, q, radix, mult, ucs); }
      ucs := Add(ucs, Times(mult, DigitValue(p[q])));
      mult := Times(mult, radix);
      q := q - 1;
    }
    ok := true;
  }

  /** ConvertUTF32ToUTF8: the bytes are stored from the last one to the first. */
  method ConvertUTF32ToUTF8(code: nat) returns (output: string)
    ensures output == Utf8Form(code)
  {
    var input := code;
    var length := if input < 0x80 then 1 else if input < 0x800 then 2
                  else if input < 0x10000 then 3 else if input < 0x200000 then 4 else 0;
    if length == 0 { return ""; }
    var bytes := new char[length];
    var at := length;
    while at > 1
      invariant 1 <= at <= length && bytes.Length == length
      invariant at == length ==> input == code
      invariant at + 1 == length ==> input == code / 0x40 && bytes[at] == Trail(code)
      invariant at + 2 == length ==>
                  input == code / 0x1000 && bytes[at] == Trail(code / 0x40) && bytes[at + 1] == Trail(code)
      invariant at + 3 == length ==>
                  input == code / 0x40000 && bytes[at] == Trail(code / 0x1000)
                  && bytes[at + 1] == Trail(code / 0x40) && bytes[at + 2] == Trail(code)
    {
      at := at - 1;
      bytes[at] := (0x80 + input % 0x40) as char;
      input := input / 0x40;
    }
    var firstMark := [0x00, 0x00, 0xC0, 0xE0, 0xF0][length];
    bytes[0] := (firstMark + input) as char;
    output := bytes[..];
  }

  method GetEntity(p: string, enc: Encoding) returns (r: CharRead)
    requires p != "" && p[0] == '&'
    ensures r == Entity(p, enc)
  {
    if |p| > 2 && p[1] == '#' {
      var mark, radix := 1, 10;
      if p[2] == 'x' {
        if |p| == 3 { return NoChar; }
        mark, radix := 2, 16;
      }
      var semi := IndexFrom(p, ';', mark + 1);
      if semi == |p| { return NoChar; }
      var ok, ucs := WeighDigits(p, p[mark], semi, radix, LastBefore(p, p[mark], mark, semi) + 1);
      if !ok { return NoChar; }
      var value := [(ucs % 256) as char];
      if enc.Utf8? {
        value := ConvertUTF32ToUTF8(ucs);
      }
      return Chars(value, p[semi + 1..]);
    }
    for i := 0 to |ENTITY|
      invariant Named(p, 0) == Named(p, i)
    {
      if ENTITY[i].0 <= p {
        return Chars([ENTITY[i].1], p[|ENTITY[i].0|..]);
      }
    }
    return Chars("", p[1..]);
  }

  method GetChar(p: string, enc: Encoding) returns (r: CharRead)
    requires p != ""
    ensures r == CharAt(p, enc)
  {
    var length := if enc.Utf8? then Utf8Step(p[0]) else 1;
    if length == 1 {
      if p[0] == '&' {
        r := GetEntity(p, enc);
      } else {
        r := Chars([p[0]], p[1..]);
      }
    } else {
      var value := "";
      for i := 0 to length
        invariant i <= |p| && value == p[..i]
      {
        if i == |p| { return Beyond; }
        value := value + [p[i]];
      }
      r := Chars(value, p[length..]);
    }
  }

  // ---------------------------------------------------------------- ReadText

  /** The end tag was found and `rest` follows it; or the terminator came first and the pointer
      now lies the end tag's length past it; or a bad reference made it null, behind the text read
      so far; or the pointer was read while outside the string. */
  datatype Read = Read(text: string, rest: string) | Unterminated(text: string) | Null(text: string) | Wild {
    function Prepend(c: string): Read {
      match this
      case Read(t, r) => Read(c + t, r)
      case Unterminated(t) => Unterminated(c + t)
      case Null(t) => Null(c + t)
      case Wild => Wild
    }
  }

  /** StringEqual, exact case. */
  predicate StringEqual(p: string, tag: string) { tag <= p }

  /** ReadText when white space is kept. */
  function Keep(p: string, end: string, enc: Encoding): (r: Read)
    ensures r.Read? ==> |r.rest| + |end| <= |p| && (!StringEqual(p, end) ==> |r.rest| + |end| < |p|)
    decreases |p|
  {
    if p == "" then Unterminated("")
    else if StringEqual(p, end) then Read("", p[|end|..])
    else match CharAt(p, enc)
      case NoChar => Null("")
      case Beyond => Wild
      case Chars(c, q) => Keep(q, end, enc).Prepend(c)
  }

  /** ReadText when white space is condensed; `pending` says that white space was passed. */
  function Condense(p: string, end: string, enc: Encoding, pending: bool): (r: Read)
    ensures r.Read? ==> |r.rest| + |end| <= |p| && (!StringEqual(p, end) ==> |r.rest| + |end| < |p|)
    decreases |p|
  {
    if p == "" then Unterminated("")
    else if StringEqual(p, end) then Read("", p[|end|..])
    else if IsWhiteSpace(p[0]) then Condense(p[1..], end, enc, true)
    else match CharAt(p, enc)
      case NoChar => Null(if pending then " " else "")
      case Beyond => Wild
      case Chars(c, q) => Condense(q, end, enc, false).Prepend(if pending then " " + c else c)
  }

  function Reading(p: string, trim: bool, end: string, enc: Encoding, condense: bool): (r: Read)
    ensures r.Read? ==> |r.rest| + |end| <= |p| && (!StringEqual(p, end) ==> |r.rest| + |end| < |p|)
  {
    if !trim || !condense then Keep(p, end, enc)
    else if p == "" then Null("")
    else Condense(Skip(p, enc), end, enc, false)
  }

  lemma PrependTwice(r: Read, c: string, text: string)
    ensures r.Prepend(c).Prepend(text) == r.Prepend(text + c)
  {
    match r
    case Read(t, _) => assert text + (c + t) == text + c + t;
    case Unterminated(t) => assert text + (c + t) == text + c + t;
    case Null(t) => assert text + (c + t) == text + c + t;
    case _ =>
  }

  lemma PrependNothing(r: Read)
    ensures r.Prepend("") == r
  {
    match r
    case Read(t, _) => assert "" + t == t;
    case Unterminated(t) => assert "" + t == t;
    case Null(t) => assert "" + t == t;
    case _ =>
  }

  method ReadText(start: string, trim: bool, end: string, enc: Encoding, condense: bool) returns (r: Read)
    ensures r == Reading(start, trim, end, enc, condense)
  {
    var p, text := start, "";
    ghost var goal := Reading(start, trim, end, enc, condense);
    PrependNothing(goal);
    if !trim || !condense {
      while p != "" && !StringEqual(p, end)
        invariant goal == Keep(p, end, enc).Prepend(text)
        decreases |p|
      {
        var c := GetChar(p, enc);
        match c {
          case NoChar => return Null("").Prepend(text);
          case Beyond => return Wild;
          case Chars(chars, q) =>
            PrependTwice(Keep(q, end, enc), chars, text);
            text, p := text + chars, q;
        }
      }
    } else {
      var whitespace, nil := false, false;
      nil, p := SkipWhiteSpace(p, enc);
      if nil { return Null(""); }
      while p != "" && !StringEqual(p, end)
        invariant goal == Condense(p, end, enc, whitespace).Prepend(text)
        decreases |p|
      {
        if IsWhiteSpace(p[0]) {
          whitespace, p := true, p[1..];
        } else {
          var c := GetChar(p, enc);
          match c {
            case NoChar => return Null(if whitespace then " " else "").Prepend(text);
            case Beyond => return Wild;
            case Chars(chars, q) =>
              var add := if whitespace then " " + chars else chars;
              PrependTwice(Condense(q, end, enc, false), add, text);
              whitespace, text, p := false, text + add, q;
          }
        }
      }
    }
    if p == "" { return Unterminated(text); }
    return Read(text, p[|end|..]);
  }
}
