// curl's content_encoding.c built for a zlib older than 1.2.0.4: the gzip member header of
// section 2.3 of RFC 1952 is skipped by hand, however the stream is cut into chunks.
module Gzip {
  import opened Options
  import opened Sequences

  type Byte = b: int | 0 <= b < 256

  const UINT_MAX := 0xFFFF_FFFF
  const HEAD_CRC: bv8 := 0x02
  const EXTRA_FIELD: bv8 := 0x04
  const ORIG_NAME: bv8 := 0x08
  const COMMENT: bv8 := 0x10

  datatype Check = Good(length: nat) | Bad | Underflow

  // The header as RFC 1952 lays it out.

  datatype Header = Header(fixed: seq<Byte>, extra: seq<Byte>, name: seq<Byte>, comment: seq<Byte>, crc: seq<Byte>)

  predicate Acceptable(fixed: seq<Byte>)
    requires |fixed| >= 10
  {
    && fixed[0] == 0x1f && fixed[1] == 0x8b  // magic
    && fixed[2] == 8                         // deflate
    && fixed[3] as bv8 & 0xE0 == 0                  // reserved flags
  }

  predicate Has(flags: Byte, field: bv8) {
    flags as bv8 & field != 0
  }

  ghost predicate Valid(h: Header) {
    && |h.fixed| == 10 && Acceptable(h.fixed)
    && |h.extra| < 0x1_0000 && (!Has(h.fixed[3], EXTRA_FIELD) ==> h.extra == [])
    && 0 !in h.name && (!Has(h.fixed[3], ORIG_NAME) ==> h.name == [])
    && 0 !in h.comment && (!Has(h.fixed[3], COMMENT) ==> h.comment == [])
    && |h.crc| == (if Has(h.fixed[3], HEAD_CRC) then 2 else 0)
  }

  ghost function Sized(present: bool, extra: seq<Byte>): seq<Byte>
    requires |extra| < 0x1_0000
  {
    if present then [|extra| % 256, |extra| / 256] + extra else []
  }

  ghost function Terminated(present: bool, text: seq<Byte>): seq<Byte> {
    if present then text + [0] else []
  }

  /** The fields after the first ten bytes. */
  ghost function Fields(h: Header): seq<Byte>
    requires Valid(h)
  {
    Sized(Has(h.fixed[3], EXTRA_FIELD), h.extra)
    + (Terminated(Has(h.fixed[3], ORIG_NAME), h.name)
       + (Terminated(Has(h.fixed[3], COMMENT), h.comment)
          + h.crc))
  }

  ghost function Render(h: Header): seq<Byte>
    requires Valid(h)
  {
    h.fixed + Fields(h)
  }

  // What the header check computes: what is left after each field.

  function ExtraLength(rest: seq<Byte>): (n: nat)
    requires |rest| >= 2
  {
    rest[1] as nat * 256 + rest[0] as nat
  }

  function AfterExtra(present: bool, rest: seq<Byte>): Option<seq<Byte>> {
    if !present then Some(rest)
    else if |rest| < 2 || |rest| < ExtraLength(rest) + 2 then None
    else Some(rest[ExtraLength(rest) + 2..])
  }

  function Zero(rest: seq<Byte>): (n: nat)
    ensures n <= |rest|
    ensures 0 !in rest[..n]
    ensures n < |rest| ==> rest[n] == 0
  {
    if rest == [] || rest[0] == 0 then 0
    else
      var n := 1 + Zero(rest[1..]);
      assert rest[..n] == [rest[0]] + rest[1..][..n - 1];
      n
  }

  function AfterText(present: bool, rest: seq<Byte>): Option<seq<Byte>> {
    if !present then Some(rest)
    else if Zero(rest) == |rest| then None
    else Some(rest[Zero(rest) + 1..])
  }

  function AfterCrc(present: bool, rest: seq<Byte>): Option<seq<Byte>> {
    if !present then Some(rest) else if |rest| < 2 then None else Some(rest[2..])
  }

  function AfterTexts(flags: Byte, rest: seq<Byte>): Option<seq<Byte>> {
    var n := AfterText(Has(flags, ORIG_NAME), rest);
    if n.None? then None else AfterText(Has(flags, COMMENT), n.value)
  }

  function AfterHeader(flags: Byte, rest: seq<Byte>): Option<seq<Byte>> {
    var e := AfterExtra(Has(flags, EXTRA_FIELD), rest);
    if e.None? then None else
      var c := AfterTexts(flags, e.value);
      if c.None? then None else AfterCrc(Has(flags, HEAD_CRC), c.value)
  }

  function CheckHeader(data: seq<Byte>): Check {
    if |data| < 10 then Underflow
    else if !Acceptable(data) then Bad
    else
      var rest := AfterHeader(data[3], data[10..]);
      if rest.None? || |rest.value| > |data| then Underflow else Good(|data| - |rest.value|)
  }

  // The source's own steps: `p` points into the data, `len` counts what is left of it.

  /** Ends on the NUL, which the caller skips. */
  method SkipText(data: seq<Byte>, length: nat) returns (ok: bool, p: seq<Byte>, len: nat)
    requires length == |data|
    ensures len == |p| && (ok ==> len > 0)
    ensures AfterText(true, data) == if ok then Some(p[1..]) else None
  {
    p, len := data, length;
    while len != 0 && p[0] != 0
      invariant len == |p| <= |data| && p == data[|data| - len..]
      invariant Zero(data) == |data| - len + Zero(p)
    {
      len := len - 1;
      p := p[1..];
    }
    ok := !(len == 0 || p[0] != 0);
    assert ok ==> data[Zero(data) + 1..] == p[1..];
  }

  method SkipExtra(data: seq<Byte>, length: nat) returns (ok: bool, p: seq<Byte>, len: nat)
    requires length == |data|
    ensures AfterExtra(true, data) == if ok then Some(p) else None
    ensures len == |p|
  {
    p, len := data, length;
    if len < 2 {
      return false, p, len;
    }
    var extraLen := p[1] as nat * 256 + p[0] as nat;
    if len < extraLen + 2 {
      return false, p, len;
    }
    return true, p[extraLen + 2..], len - (extraLen + 2);
  }

  method SkipTexts(flags: Byte, data: seq<Byte>, length: nat) returns (ok: bool, len: nat)
    requires length == |data|
    ensures ok == AfterTexts(flags, data).Some?
    ensures ok ==> len == |AfterTexts(flags, data).value|
  {
    var p := data;
    ok, len := true, length;
    if flags as bv8 & ORIG_NAME != 0 {
      ok, p, len := SkipText(p, len);
      if !ok {
        return;
      }
      len := len - 1;
      p := p[1..];
    }
    assert AfterText(Has(flags, ORIG_NAME), data) == Some(p);
    if flags as bv8 & COMMENT != 0 {
      ok, p, len := SkipText(p, len);
      if !ok {
        return;
      }
      len := len - 1;  // the pointer itself is not moved past this NUL
    }
  }

  method SkipFields(flags: Byte, data: seq<Byte>, length: nat) returns (ok: bool, len: nat)
    requires length == |data|
    ensures ok == AfterHeader(flags, data).Some?
    ensures ok ==> len == |AfterHeader(flags, data).value|
  {
    var p := data;
    ok, len := true, length;
    if flags as bv8 & EXTRA_FIELD != 0 {
      ok, p, len := SkipExtra(p, len);
      if !ok {
        return;
      }
    }
    assert AfterExtra(Has(flags, EXTRA_FIELD), data) == Some(p);
    ok, len := SkipTexts(flags, p, len);
    if !ok {
      return;
    }
    if flags as bv8 & HEAD_CRC != 0 {
      if len < 2 {
        return false, len;
      }
      len := len - 2;
    }
  }

  method CheckGzipHeader(data: seq<Byte>) returns (verdict: Check)
    ensures verdict == CheckHeader(data)
    ensures verdict.Bad? <==> !MayStart(data)
  {
    BadIsHopeless(data);
    if |data| < 10 {
      return Underflow;
    }
    if data[0] != 0x1f || data[1] != 0x8b {
      return Bad;
    }
    if data[2] != 8 || data[3] as bv8 & 0xE0 != 0 {
      return Bad;
    }
    var ok, len := SkipFields(data[3], data[10..], |data| - 10);
    return if ok then Good(|data| - len) else Underflow;
  }

  // The check decides the RFC's layout.

  lemma ExtraSkipped(present: bool, extra: seq<Byte>, tail: seq<Byte>)
    requires |extra| < 0x1_0000
    ensures AfterExtra(present, Sized(present, extra) + tail) == Some(tail)
  {
    if present {
      var rest := Sized(present, extra) + tail;
      assert ExtraLength(rest) == |extra|;
      assert rest[|extra| + 2..] == tail;
    } else {
      assert Sized(present, extra) + tail == tail;
    }
  }

  lemma {:induction false} ZeroAfter(text: seq<Byte>, tail: seq<Byte>)
    requires 0 !in text
    ensures Zero(text + ([0] + tail)) == |text|
  {
    var all := text + ([0] + tail);
    if text == [] {
      assert all == [0] + tail;
    } else {
      assert all[1..] == text[1..] + ([0] + tail);
      ZeroAfter(text[1..], tail);
    }
  }

  lemma TextSkipped(present: bool, text: seq<Byte>, tail: seq<Byte>)
    requires 0 !in text
    ensures AfterText(present, Terminated(present, text) + tail) == Some(tail)
  {
    if present {
      assert text + [0] + tail == text + ([0] + tail);
      ZeroAfter(text, tail);
      assert (text + [0] + tail)[|text| + 1..] == tail;
    } else {
      assert Terminated(present, text) + tail == tail;
    }
  }

  lemma Regroup(a: seq<Byte>, b: seq<Byte>, c: seq<Byte>, d: seq<Byte>, tail: seq<Byte>)
    ensures a + (b + (c + (d + tail))) == a + (b + (c + d)) + tail
  {
  }

  lemma TextsSkipped(flags: Byte, name: seq<Byte>, comment: seq<Byte>, tail: seq<Byte>)
    requires 0 !in name && 0 !in comment
    ensures AfterTexts(flags,
                       Terminated(Has(flags, ORIG_NAME), name) + (Terminated(Has(flags, COMMENT), comment) + tail))
         == Some(tail)
  {
    TextSkipped(Has(flags, ORIG_NAME), name, Terminated(Has(flags, COMMENT), comment) + tail);
    TextSkipped(Has(flags, COMMENT), comment, tail);
  }

  lemma FieldsSkipped(h: Header, tail: seq<Byte>)
    requires Valid(h)
    ensures AfterHeader(h.fixed[3], Fields(h) + tail) == Some(tail)
  {
    var flags := h.fixed[3];
    var c := h.crc + tail;
    var name, comment := Terminated(Has(flags, ORIG_NAME), h.name), Terminated(Has(flags, COMMENT), h.comment);
    Regroup(Sized(Has(flags, EXTRA_FIELD), h.extra), name, comment, h.crc, tail);
    ExtraSkipped(Has(flags, EXTRA_FIELD), h.extra, name + (comment + c));
    TextsSkipped(flags, h.name, h.comment, c);
    TakeDrop(h.crc, tail);
  }

  lemma TakeDrop(a: seq<Byte>, b: seq<Byte>)
    ensures (a + b)[..|a|] == a && (a + b)[|a|..] == b
  {
  }

  lemma CheckInTwo(fixed: seq<Byte>, rest: seq<Byte>, tail: seq<Byte>)
    requires |fixed| == 10 && Acceptable(fixed) && AfterHeader(fixed[3], rest) == Some(tail)
    requires |tail| <= |rest|
    ensures CheckHeader(fixed + rest) == Good(10 + |rest| - |tail|)
  {
    TakeDrop(fixed, rest);
    assert forall i :: 0 <= i < 10 ==> (fixed + rest)[i] == fixed[i];
  }

  lemma HeaderAccepted(h: Header, tail: seq<Byte>)
    requires Valid(h)
    ensures CheckHeader(Render(h) + tail) == Good(|Render(h)|)
  {
    FieldsSkipped(h, tail);
    Associate(h.fixed, Fields(h), tail);
    CheckInTwo(h.fixed, Fields(h) + tail, tail);
  }

  lemma ExtraFound(present: bool, rest: seq<Byte>) returns (extra: seq<Byte>)
    requires AfterExtra(present, rest).Some?
    ensures |extra| < 0x1_0000 && (!present ==> extra == [])
    ensures rest == Sized(present, extra) + AfterExtra(present, rest).value
  {
    extra := if present then rest[2..][..ExtraLength(rest)] else [];
    if present {
      assert [|extra| % 256, |extra| / 256] == rest[..2];
      assert rest == rest[..2] + extra + rest[ExtraLength(rest) + 2..];
    }
  }

  lemma TextFound(present: bool, rest: seq<Byte>) returns (text: seq<Byte>)
    requires AfterText(present, rest).Some?
    ensures 0 !in text && (!present ==> text == [])
    ensures rest == Terminated(present, text) + AfterText(present, rest).value
  {
    text := if present then rest[..Zero(rest)] else [];
    if present {
      assert rest == text + [0] + rest[Zero(rest) + 1..];
    }
  }

  lemma TextsFound(flags: Byte, rest: seq<Byte>) returns (name: seq<Byte>, comment: seq<Byte>)
    requires AfterTexts(flags, rest).Some?
    ensures 0 !in name && (!Has(flags, ORIG_NAME) ==> name == [])
    ensures 0 !in comment && (!Has(flags, COMMENT) ==> comment == [])
    ensures rest == Terminated(Has(flags, ORIG_NAME), name)
                    + (Terminated(Has(flags, COMMENT), comment) + AfterTexts(flags, rest).value)
  {
    name := TextFound(Has(flags, ORIG_NAME), rest);
    comment := TextFound(Has(flags, COMMENT), AfterText(Has(flags, ORIG_NAME), rest).value);
  }

  lemma FieldsFound(fixed: seq<Byte>, rest: seq<Byte>) returns (h: Header)
    requires |fixed| == 10 && Acceptable(fixed) && AfterHeader(fixed[3], rest).Some?
    ensures Valid(h) && h.fixed == fixed
    ensures rest == Fields(h) + AfterHeader(fixed[3], rest).value
  {
    var flags := fixed[3];
    var extra := ExtraFound(Has(flags, EXTRA_FIELD), rest);
    var e := AfterExtra(Has(flags, EXTRA_FIELD), rest).value;
    var name, comment := TextsFound(flags, e);
    var c := AfterTexts(flags, e).value;
    var crc := if Has(flags, HEAD_CRC) then c[..2] else [];
    h := Header(fixed, extra, name, comment, crc);
    assert c == crc + c[|crc|..] && c[|crc|..] == AfterHeader(flags, rest).value;
    Regroup(Sized(Has(flags, EXTRA_FIELD), extra), Terminated(Has(flags, ORIG_NAME), name),
            Terminated(Has(flags, COMMENT), comment), crc, c[|crc|..]);
  }

  lemma HeaderFound(data: seq<Byte>) returns (h: Header)
    requires CheckHeader(data).Good?
    ensures Valid(h) && |Render(h)| == CheckHeader(data).length
    ensures Render(h) <= data
  {
    h := FieldsFound(data[..10], data[10..]);
    var rest := AfterHeader(data[3], data[10..]).value;
    Associate(data[..10], Fields(h), rest);
    assert data == data[..10] + data[10..];
  }

  ghost predicate StartsWith(data: seq<Byte>, h: Header, n: nat) {
    Valid(h) && |Render(h)| == n && Render(h) <= data
  }

  lemma HeaderDecides(data: seq<Byte>, h: Header, n: nat)
    requires StartsWith(data, h, n)
    ensures CheckHeader(data) == Good(n)
  {
    assert data == Render(h) + data[n..];
    HeaderAccepted(h, data[n..]);
  }

  /** The check accepts exactly the data that starts with a header of the RFC, and finds its end. */
  lemma GoodIsHeader(data: seq<Byte>, n: nat)
    ensures CheckHeader(data) == Good(n) <==> exists h :: StartsWith(data, h, n)
  {
    if CheckHeader(data) == Good(n) {
      var h := HeaderFound(data);
      assert StartsWith(data, h, n);
    }
    if h :| StartsWith(data, h, n) {
      HeaderDecides(data, h, n);
    }
  }

  lemma GoodStaysGood(early: seq<Byte>, data: seq<Byte>)
    requires early <= data && CheckHeader(early).Good?
    ensures CheckHeader(data) == CheckHeader(early)
  {
    var h := HeaderFound(early);
    HeaderDecides(data, h, CheckHeader(early).length);
  }

  lemma UnderflowIsShort(early: seq<Byte>, data: seq<Byte>)
    requires early <= data && CheckHeader(early).Underflow? && CheckHeader(data).Good?
    ensures |early| < CheckHeader(data).length
  {
    var n := CheckHeader(data).length;
    var h := HeaderFound(data);
    if n <= |early| {
      HeaderDecides(early, h, n);
    }
  }

  /** More bytes never change a verdict, and a header still incomplete is shorter than the final one. */
  lemma MoreBytes(early: seq<Byte>, data: seq<Byte>)
    requires early <= data
    ensures !CheckHeader(early).Underflow? ==> CheckHeader(data) == CheckHeader(early)
    ensures CheckHeader(early).Underflow? && CheckHeader(data).Good? ==> |early| < CheckHeader(data).length
  {
    if CheckHeader(early).Good? {
      GoodStaysGood(early, data);
    } else if CheckHeader(early).Underflow? && CheckHeader(data).Good? {
      UnderflowIsShort(early, data);
    }
  }

  // What is refused.

  /** Zero bytes complete any header: they end its texts, and there are enough for its extra field. */
  predicate EndsInZeros(x: seq<Byte>, m: nat) {
    m <= |x| && forall i :: |x| - m <= i < |x| ==> x[i] == 0
  }

  lemma ExtraCompleted(present: bool, x: seq<Byte>, m: nat)
    requires EndsInZeros(x, m) && m >= 0x1_0001
    ensures AfterExtra(present, x).Some?
    ensures var left := AfterExtra(present, x).value; |left| <= |x| && EndsInZeros(left, m - 0x1_0001)
  {
    if present {
      var n := ExtraLength(x) + 2;
      assert forall i :: 0 <= i < |x| - n ==> x[n..][i] == x[n + i];
    }
  }

  lemma TextCompleted(present: bool, x: seq<Byte>, m: nat)
    requires EndsInZeros(x, m) && m >= 1
    ensures AfterText(present, x).Some?
    ensures var left := AfterText(present, x).value; |left| <= |x| && EndsInZeros(left, m - 1)
  {
    var n := Zero(x);
    assert x[|x| - m] == 0;
    assert forall i :: 0 <= i < n ==> x[i] in x[..n];
    var k := n + 1;
    assert forall i :: 0 <= i < |x| - k ==> x[k..][i] == x[k + i];
  }

  lemma HeaderCompleted(flags: Byte, x: seq<Byte>)
    requires EndsInZeros(x, 0x1_0005)
    ensures AfterHeader(flags, x).Some? && |AfterHeader(flags, x).value| <= |x|
  {
    ExtraCompleted(Has(flags, EXTRA_FIELD), x, 0x1_0005);
    var e := AfterExtra(Has(flags, EXTRA_FIELD), x).value;
    TextCompleted(Has(flags, ORIG_NAME), e, 4);
    TextCompleted(Has(flags, COMMENT), AfterText(Has(flags, ORIG_NAME), e).value, 3);
  }

  /** The stream may still turn out to start with a header of the RFC. */
  ghost predicate MayStart(stream: seq<Byte>) {
    |stream| < 10 || exists tail, h, n: nat :: StartsWith(stream + tail, h, n)
  }

  /** The check refuses exactly the data of ten bytes or more that no continuation turns into data that
      starts with a header. */
  lemma BadIsHopeless(data: seq<Byte>)
    ensures CheckHeader(data).Bad? <==> !MayStart(data)
  {
    if tail, h, n: nat :| StartsWith(data + tail, h, n) {
      HeaderDecides(data + tail, h, n);
      MoreBytes(data, data + tail);
    }
    if |data| >= 10 && !CheckHeader(data).Bad? {
      var tail := seq(0x1_0005, _ => 0);
      var all := data + tail;
      assert forall i :: 0 <= i < 0x1_0005 ==> all[10..][|data| - 10 + i] == tail[i];
      assert forall i :: 0 <= i < |data| ==> all[i] == data[i];
      HeaderCompleted(data[3], all[10..]);
      var h := HeaderFound(all);
      assert StartsWith(data + tail, h, |Render(h)|);
    }
  }

  /** So it takes the first four bytes to tell: the magic number, the method and the reserved flags. */
  lemma RefusedByFirstBytes(data: seq<Byte>)
    requires |data| >= 10
    ensures MayStart(data) <==> data[..3] == [31, 139, 8] && data[3] as bv8 & 0xE0 == 0
  {
    BadIsHopeless(data);
    assert data[..3] == [data[0], data[1], data[2]];
  }

  /** Which field each flag of section 2.3.1 announces, by a header with that field alone. */
  lemma FlagsAre(x: Byte, y: Byte)
    ensures CheckHeader([31, 139, 8, 0, 0, 0, 0, 0, 0, 3, x, y]) == Good(10)
    ensures CheckHeader([31, 139, 8, 2, 0, 0, 0, 0, 0, 3, x, y]) == Good(12)
    ensures CheckHeader([31, 139, 8, 4, 0, 0, 0, 0, 0, 3, 1, 0, x, y]) == Good(13)
    ensures CheckHeader([31, 139, 8, 32, 0, 0, 0, 0, 0, 3, x, y]) == Bad
  {
  }

  lemma TextFlagsAre(x: Byte, y: Byte)
    requires x != 0
    ensures CheckHeader([31, 139, 8, 8, 0, 0, 0, 0, 0, 3, x, 0, y]) == Good(12)
    ensures CheckHeader([31, 139, 8, 16, 0, 0, 0, 0, 0, 3, x, 0, y]) == Good(12)
  {
    var rest: seq<Byte> := [x, 0, y];
    assert rest[1..] == [0, y] && Zero(rest[1..]) == 0;
    assert Zero(rest) == 1;
    assert [31, 139, 8, 8, 0, 0, 0, 0, 0, 3, x, 0, y][10..] == rest;
    assert [31, 139, 8, 16, 0, 0, 0, 0, 0, 3, x, 0, y][10..] == rest;
  }

  // The state machine that is fed one chunk at a time.

  datatype State = Uninit | Init | GzipHeader | GzipInflating | InitGzip

  datatype Code = Ok | BadContentEncoding

  /** What the inflater is to be given of a stream: all of it when it reads gzip itself, else what
      follows the header. */
  ghost function Payload(modern: bool, stream: seq<Byte>): seq<Byte> {
    if modern then stream
    else if CheckHeader(stream).Good? then stream[CheckHeader(stream).length..]
    else []
  }

  ghost predicate Accepted(modern: bool, stream: seq<Byte>) {
    modern || !CheckHeader(stream).Bad?
  }

  /** The payload without the check: what follows the header, if the stream starts with one. */
  lemma PayloadIs(stream: seq<Byte>)
    ensures forall h, n: nat :: StartsWith(stream, h, n) ==> Payload(false, stream) == stream[n..]
    ensures (forall h, n: nat :: !StartsWith(stream, h, n)) ==> Payload(false, stream) == []
  {
    forall h, n: nat | StartsWith(stream, h, n)
      ensures CheckHeader(stream) == Good(n)
    {
      HeaderDecides(stream, h, n);
    }
    if CheckHeader(stream).Good? {
      GoodIsHeader(stream, CheckHeader(stream).length);
    }
  }

  /** What becomes of a stream, without the check. */
  ghost predicate Taken(modern: bool, stream: seq<Byte>, ok: bool, inflated: seq<Byte>) {
    && (ok <==> modern || MayStart(stream))
    && if modern then inflated == stream
       else
         && (forall h, n: nat :: StartsWith(stream, h, n) ==> inflated == stream[n..])
         && ((forall h, n: nat :: !StartsWith(stream, h, n)) ==> inflated == [])
  }

  lemma StreamTaken(modern: bool, stream: seq<Byte>, ok: bool, inflated: seq<Byte>)
    requires (ok <==> Accepted(modern, stream)) && inflated == Payload(modern, stream)
    ensures Taken(modern, stream, ok, inflated)
  {
    BadIsHopeless(stream);
    PayloadIs(stream);
  }

  /** What one more chunk adds. */
  lemma PayloadGrows(seen: seq<Byte>, chunk: seq<Byte>)
    ensures CheckHeader(seen).Good? ==>
      CheckHeader(seen + chunk) == CheckHeader(seen) && Payload(false, seen + chunk) == Payload(false, seen) + chunk
    ensures CheckHeader(seen).Bad? ==> CheckHeader(seen + chunk).Bad?
    ensures CheckHeader(seen).Underflow? && CheckHeader(seen + chunk).Good? ==>
      && |seen| < CheckHeader(seen + chunk).length
      && Payload(false, seen + chunk) == chunk[CheckHeader(seen + chunk).length - |seen|..]
  {
    MoreBytes(seen, seen + chunk);
  }

  function Join(chunks: seq<seq<Byte>>): seq<Byte> {
    if chunks == [] then [] else chunks[0] + Join(chunks[1..])
  }

  /** No buffer outgrows the 32-bit count that zlib keeps: neither a chunk, nor a chunk joined to the
      incomplete header held back so far. */
  ghost predicate Fits(modern: bool, seen: seq<Byte>, chunk: seq<Byte>) {
    && 0 < |chunk| <= UINT_MAX
    && (!modern && CheckHeader(seen).Underflow? ==> |seen| + |chunk| <= UINT_MAX)
  }

  ghost predicate AllFit(modern: bool, seen: seq<Byte>, chunks: seq<seq<Byte>>)
    decreases |chunks|
  {
    chunks != [] ==> Fits(modern, seen, chunks[0]) && AllFit(modern, seen + chunks[0], chunks[1..])
  }

  class Decoder {
    const modern: bool       // zlib 1.2.0.4 or later
    var state: State
    var block: seq<Byte>     // the block that holds an incomplete header
    var availIn: nat
    var inflated: seq<Byte>  // all that inflate has been given
    ghost var seen: seq<Byte>

    ghost predicate Valid()
      reads this
    {
      && inflated == Payload(modern, seen)
      && match state {
           case Uninit => seen == [] || !Accepted(modern, seen)
           case Init => !modern && seen == []
           case GzipHeader => !modern && CheckHeader(seen).Underflow? && block == seen && availIn == |seen|
           case GzipInflating => !modern && CheckHeader(seen).Good?
           case InitGzip => modern
         }
    }

    constructor (modern: bool)
      ensures Valid() && this.modern == modern && state == Uninit && seen == []
    {
      this.modern := modern;
      state, block, availIn, inflated := Uninit, [], 0, [];
      seen := [];
    }

    method Initialize()
      requires Valid()
      modifies this
      ensures Valid() && state != Uninit
      ensures seen == if old(state) == Uninit then [] else old(seen)
    {
      if state == Uninit {
        seen, inflated, availIn := [], [], 0;
        state := if modern then InitGzip else Init;
      }
    }

    /** inflate_stream, as a sink that takes all it is given. */
    method InflateStream(chunk: seq<Byte>, nextIn: nat)
      requires nextIn + availIn <= |chunk|
      modifies this`availIn, this`inflated
      ensures inflated == old(inflated) + chunk[nextIn..][..old(availIn)] && availIn == 0
    {
      inflated := inflated + chunk[nextIn..][..availIn];
      availIn := 0;
    }

    /** The two states before the header is complete. `wait` says there is nothing to inflate yet. */
    method FirstChunk(chunk: seq<Byte>) returns (verdict: Check, nextIn: nat)
      requires state == Init
      modifies this`state, this`availIn, this`block
      ensures verdict == CheckHeader(chunk)
      ensures verdict.Good? ==>
        state == GzipInflating && nextIn + availIn == |chunk| && nextIn == verdict.length
      ensures verdict.Underflow? ==> state == GzipHeader && block == chunk && availIn == |chunk|
      ensures verdict.Bad? ==> state == Uninit
    {
      nextIn := 0;
      verdict := CheckGzipHeader(chunk);
      match verdict {
        case Good(hlen) =>
          nextIn := hlen;
          availIn := |chunk| - hlen;
          state := GzipInflating;
        case Underflow =>
          availIn, block := |chunk|, chunk;
          state := GzipHeader;
        case Bad =>
          state := Uninit;
      }
    }

    method NextChunk(chunk: seq<Byte>) returns (verdict: Check, nextIn: nat)
      requires state == GzipHeader && CheckHeader(block).Underflow? && availIn == |block|
      modifies this`state, this`availIn, this`block
      ensures verdict == CheckHeader(old(block) + chunk)
      ensures verdict.Good? ==>
        state == GzipInflating && nextIn + availIn == |chunk| && nextIn == verdict.length - |old(block)|
      ensures verdict.Underflow? ==> state == GzipHeader && block == old(block) + chunk && availIn == |block|
      ensures verdict.Bad? ==> state == Uninit
    {
      nextIn := 0;
      PayloadGrows(block, chunk);
      availIn := availIn + |chunk|;
      block := block + chunk;
      verdict := CheckGzipHeader(block);
      match verdict {
        case Good(hlen) =>
          block := [];
          nextIn := hlen + |chunk| - availIn;
          availIn := availIn - hlen;
          state := GzipInflating;
        case Underflow =>
        case Bad =>
          block, state := [], Uninit;
      }
    }

    /** The states in which the header is not complete yet. */
    method HeaderChunk(chunk: seq<Byte>) returns (verdict: Check, nextIn: nat)
      requires state == Init || state == GzipHeader
      requires state == Init ==> seen == []
      requires state == GzipHeader ==> block == seen && availIn == |seen| && CheckHeader(seen).Underflow?
      modifies this`state, this`availIn, this`block
      ensures verdict == CheckHeader(seen + chunk)
      ensures verdict.Good? ==>
        state == GzipInflating && nextIn + availIn == |chunk| && chunk[nextIn..] == Payload(false, seen + chunk)
      ensures verdict.Underflow? ==> state == GzipHeader && block == seen + chunk && availIn == |block|
      ensures verdict.Bad? ==> state == Uninit
    {
      if state == Init {
        assert seen + chunk == chunk;
        verdict, nextIn := FirstChunk(chunk);
      } else {
        PayloadGrows(seen, chunk);
        verdict, nextIn := NextChunk(chunk);
      }
    }

    /** Curl_unencode_gzip_write. However the stream so far was cut, the inflater has been given
        exactly its payload; an error is reported exactly when the header is bad. */
    method Write(chunk: seq<Byte>) returns (result: Code)
      requires Valid()
      requires Fits(modern, if state == Uninit then [] else seen, chunk)
      modifies this
      ensures Valid()
      ensures seen == (if old(state) == Uninit then [] else old(seen)) + chunk
      ensures inflated == Payload(modern, seen)
      ensures result.Ok? <==> Accepted(modern, seen)
      ensures result.Ok? <==> state != Uninit
      ensures Taken(modern, seen, result.Ok?, inflated)
    {
      Initialize();
      var nextIn := 0;
      if state == Init || state == GzipHeader {
        var verdict;
        verdict, nextIn := HeaderChunk(chunk);
        seen := seen + chunk;
        if verdict.Underflow? {
          StreamTaken(modern, seen, true, inflated);
          return Ok;
        } else if verdict.Bad? {
          StreamTaken(modern, seen, false, inflated);
          return BadContentEncoding;
        }
      } else {
        PayloadGrows(seen, chunk);
        seen := seen + chunk;
        availIn := |chunk|;
      }
      assert chunk[nextIn..][..availIn] == chunk[nextIn..];
      if availIn == 0 {
        StreamTaken(modern, seen, true, inflated);
        return Ok;
      }
      InflateStream(chunk, nextIn);
      StreamTaken(modern, seen, true, inflated);
      return Ok;
    }

    /** For every way to cut a stream into chunks: the header is skipped, no byte after it is lost or
        repeated, and a bad header is refused before anything is inflated. */
    method WriteAll(chunks: seq<seq<Byte>>) returns (result: Code)
      requires Valid() && state == Uninit && seen == []
      requires AllFit(modern, [], chunks)
      modifies this
      ensures result.Ok? <==> Accepted(modern, Join(chunks))
      ensures inflated == Payload(modern, Join(chunks))
      ensures Taken(modern, Join(chunks), result.Ok?, inflated)
    {
      result := Ok;
      var left := chunks;
      while left != [] && result.Ok?
        invariant Valid() && (seen == [] ==> state == Uninit)
        invariant seen + Join(left) == Join(chunks)
        invariant result.Ok? ==> AllFit(modern, seen, left)
        invariant result.Ok? <==> Accepted(modern, seen)
        invariant state == Uninit && result.Ok? ==> seen == []
        decreases |left|
      {
        Associate(seen, left[0], Join(left[1..]));
        result := Write(left[0]);
        left := left[1..];
      }
      MoreBytes(seen, Join(chunks));
      StreamTaken(modern, Join(chunks), result.Ok?, inflated);
    }
  }
}
