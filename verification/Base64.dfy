// curl's base64.c: RFC 4648, section 4, written into buffers whose sizes are computed beforehand.
// The source's masks and shifts of bytes are written as divisions and remainders.
module Base64 {
  import opened Sequences

  type Byte = b: int | 0 <= b < 256

  const TABLE64 := "ABCDEFGHIJKLMNOPQRSTUVWXYZ" + "abcdefghijklmnopqrstuvwxyz" + "0123456789" + "+/"

  const SIZE_MAX := 0xFFFF_FFFF_FFFF_FFFF

  /** The value of a character, or 64 for one that is not in the table. */
  function Value(c: char): (v: nat)
    ensures v <= 64
  {
    if 'A' <= c <= 'Z' then (c - 'A') as nat
    else if 'a' <= c <= 'z' then 26 + (c - 'a') as nat
    else if '0' <= c <= '9' then 52 + (c - '0') as nat
    else if c == '+' then 62
    else if c == '/' then 63
    else 64
  }

  function Letter(v: nat): (c: char)
    requires v < 64
    ensures Value(c) == v
  {
    if v < 26 then 'A' + v as char
    else if v < 52 then 'a' + (v - 26) as char
    else if v < 62 then '0' + (v - 52) as char
    else if v == 62 then '+'
    else '/'
  }

  lemma TableIsLetters(v: nat)
    requires v < 64
    ensures |TABLE64| == 64 && TABLE64[v] == Letter(v)
  {
  }

  /** The alphabet of table 1 of RFC 4648, by the codes of its characters. */
  lemma AlphabetCodes(v: nat)
    requires v < 64
    ensures Letter(v) as int == if v < 26 then 65 + v else if v < 52 then 71 + v else if v < 62 then v - 4
                                else if v == 62 then 43 else 47
  {
  }

  // The encoding of a byte string.

  /** Up to three bytes make four characters. */
  function Group(b: seq<Byte>): (q: string)
    requires 0 < |b| <= 3
    ensures |q| == 4
  {
    var b1 := if |b| > 1 then b[1] else 0;
    var b2 := if |b| > 2 then b[2] else 0;
    [ Letter(b[0] / 4),
      Letter(b[0] % 4 * 16 + b1 / 16),
      if |b| > 1 then Letter(b1 % 16 * 4 + b2 / 64) else '=',
      if |b| > 2 then Letter(b2 % 64) else '=' ]
  }

  function Encoded(b: seq<Byte>): string {
    if b == [] then "" else if |b| <= 3 then Group(b) else Group(b[..3]) + Encoded(b[3..])
  }

  lemma {:induction false} EncodedLength(b: seq<Byte>)
    ensures |Encoded(b)| == (|b| + 2) / 3 * 4
  {
    if |b| > 3 {
      EncodedLength(b[3..]);
      assert (|b| + 2) / 3 == 1 + (|b| - 3 + 2) / 3;
    }
  }

  lemma EncodedPart(b: seq<Byte>, m: nat)
    requires 0 < m <= 3 && m == if |b| < 3 then |b| else 3
    ensures Encoded(b) == Group(b[..m]) + Encoded(b[m..])
  {
    if |b| <= 3 {
      assert b[..m] == b && b[m..] == [];
    }
  }

  // The decoding of a text.

  /** decodeQuantum: a character shifts by six bits when it is in the table or is `=`; any other
      character is skipped. */
  function Shifted(x: nat, c: char): nat {
    if Value(c) < 64 then x * 64 + Value(c) else if c == '=' then x * 64 else x
  }

  function WordOf(q: string): (x: nat)
    ensures |q| <= 4 ==> x < [1, 64, 4096, 262144, 16777216][|q|]
  {
    if q == "" then 0 else Shifted(WordOf(q[..|q| - 1]), q[|q| - 1])
  }

  function Word(q: string): (x: nat)
    requires |q| == 4
    ensures x < 0x1_000000
  {
    WordOf(q)
  }

  function Quantum(q: string): (b: seq<Byte>)
    requires |q| == 4
    ensures |b| == 3
  {
    var x := Word(q);
    [x / 0x1_0000, x / 0x100 % 0x100, x % 0x100]
  }

  /** A character outside the alphabet is skipped, wherever it stands. */
  lemma {:induction false} StrangersSkipped(a: string, c: char, b: string)
    requires Value(c) == 64 && c != '='
    ensures WordOf(a + [c] + b) == WordOf(a + b)
    decreases |b|
  {
    var p := a + [c] + b;
    if b == "" {
      assert p[..|p| - 1] == a && p[|p| - 1] == c && a + b == a;
    } else {
      var q, front := a + b, b[..|b| - 1];
      assert p[..|p| - 1] == a + [c] + front && p[|p| - 1] == b[|b| - 1];
      assert q[..|q| - 1] == a + front && q[|q| - 1] == b[|b| - 1];
      StrangersSkipped(a, c, front);
    }
  }

  /** The length up to the first pad character, and how many pads count. */
  function Unpadded(s: string): (n: nat)
    ensures n <= |s|
    ensures forall i :: 0 <= i < n ==> s[i] != '='
    ensures n < |s| ==> s[n] == '='
  {
    if s == "" || s[0] == '=' then 0 else 1 + Unpadded(s[1..])
  }

  function Pads(s: string): (n: nat)
    ensures n <= 2 && Unpadded(s) + n <= |s|
  {
    var n := Unpadded(s);
    if n < |s| then if n + 1 < |s| && s[n + 1] == '=' then 2 else 1 else 0
  }

  function Quantums(s: string): (n: nat)
    ensures 4 * n <= Unpadded(s) + Pads(s)
  {
    (Unpadded(s) + Pads(s)) / 4
  }

  /** `n` quantums, of which the last gives fewer bytes when there are pads. */
  function DecodedQuantums(s: string, n: nat, pads: nat): (b: seq<Byte>)
    requires 0 < 4 * n <= |s| && pads <= 2
    ensures |b| == 3 * n - pads
  {
    if n == 1 then Quantum(s[..4])[..3 - pads] else Quantum(s[..4]) + DecodedQuantums(s[4..], n - 1, pads)
  }

  function Decoded(s: string): (b: seq<Byte>) {
    if Quantums(s) == 0 then [] else DecodedQuantums(s, Quantums(s), Pads(s))
  }

  // The source's own loops, over its buffers.

  /** Reads up to three bytes and pads with zeros. */
  method ReadPart(indata: seq<Byte>, insize: nat, ibuf: array<Byte>) returns (inputparts: nat)
    requires ibuf.Length == 3 && 0 < insize == |indata|
    modifies ibuf
    ensures inputparts == if insize < 3 then insize else 3
    ensures forall k :: 0 <= k < 3 ==> ibuf[k] == if k < inputparts then indata[k] else 0
  {
    inputparts := 0;
    var p, left := indata, insize;
    for i := 0 to 3
      invariant inputparts == if insize < i then insize else i
      invariant left == |p| && p == indata[inputparts..]
      invariant forall k :: 0 <= k < i ==> ibuf[k] == if k < inputparts then indata[k] else 0
    {
      if left > 0 {
        inputparts := inputparts + 1;
        ibuf[i] := p[0];
        p := p[1..];
        left := left - 1;
      } else {
        ibuf[i] := 0;
      }
    }
  }

  /** The snprintf of five bytes: four characters and a NUL. */
  method PutFour(output: array<char>, at: nat, a: char, b: char, c: char, d: char)
    requires at + 5 <= output.Length
    modifies output
    ensures output[..at + 5] == old(output[..at]) + [a, b, c, d, '\0']
  {
    output[at], output[at + 1], output[at + 2], output[at + 3], output[at + 4] := a, b, c, d, '\0';
  }

  method Code(v: nat) returns (c: char)
    requires v < 64
    ensures c == Letter(v)
  {
    TableIsLetters(v);
    c := TABLE64[v];
  }

  method EncodePart(ibuf: array<Byte>, inputparts: nat, output: array<char>, at: nat)
    requires ibuf.Length == 3 && 1 <= inputparts <= 3 && at + 5 <= output.Length
    requires forall k :: inputparts <= k < 3 ==> ibuf[k] == 0
    modifies output
    ensures output[..at + 5] == old(output[..at]) + Group(ibuf[..inputparts]) + ['\0']
  {
    var o0 := Code(ibuf[0] / 4);
    var o1 := Code(ibuf[0] % 4 * 16 + ibuf[1] / 16);
    var o2 := Code(ibuf[1] % 16 * 4 + ibuf[2] / 64);
    var o3 := Code(ibuf[2] % 64);
    ghost var before := output[..at];
    match inputparts {
      case 1 => PutFour(output, at, o0, o1, '=', '=');
      case 2 => PutFour(output, at, o0, o1, o2, '=');
      case _ => PutFour(output, at, o0, o1, o2, o3);
    }
    assert output[..at + 5] == before + Group(ibuf[..inputparts]) + ['\0'];
  }

  /** The space for the encoding is enough, with its NUL: just enough when one byte is left over. */
  lemma EncoderFits(n: nat)
    ensures (n + 2) / 3 * 4 + 1 <= n * 4 / 3 + 4
    ensures (n + 2) / 3 * 4 + 1 == n * 4 / 3 + 4 <==> n % 3 == 1
  {
    var k := n / 3;
    match n % 3 {
      case 0 => assert n == 3 * k && (n + 2) / 3 == k && n * 4 / 3 == 4 * k;
      case 1 => assert n == 3 * k + 1 && (n + 2) / 3 == k + 1 && n * 4 / 3 == 4 * k + 1;
      case _ => assert n == 3 * k + 2 && (n + 2) / 3 == k + 1 && n * 4 / 3 == 4 * k + 2;
    }
  }

  /** strlen of a buffer that holds a NUL. */
  function StrLen<T(==)>(s: seq<T>, nul: T): (n: nat)
    requires nul in s
    ensures n < |s| && s[n] == nul && nul !in s[..n]
  {
    if s[0] == nul then 0
    else
      var n := 1 + StrLen(s[1..], nul);
      assert s[..n] == [s[0]] + s[1..][..n - 1];
      n
  }

  lemma StrLenIs<T>(s: seq<T>, nul: T, n: nat)
    requires n < |s| && s[n] == nul && nul !in s[..n]
    ensures StrLen(s, nul) == n
  {
    var m := StrLen(s, nul);
    assert forall i :: 0 <= i < n ==> s[..n][i] == s[i];
    assert forall i :: 0 <= i < m ==> s[..m][i] == s[i];
  }

  lemma {:induction false} NoNul(b: seq<Byte>)
    ensures '\0' !in Encoded(b)
  {
    if b != [] {
      var m := if |b| < 3 then |b| else 3;
      EncodedPart(b, m);
      NoNul(b[m..]);
    }
  }

  /** One round of the loop: up to three bytes more are encoded. */
  method EncodeNext(indata: seq<Byte>, insize: nat, ibuf: array<Byte>, output: array<char>, at: nat)
    returns (parts: nat)
    requires ibuf.Length == 3 && 0 < insize == |indata| && at + 5 <= output.Length
    modifies ibuf, output
    ensures parts == if insize < 3 then insize else 3
    ensures output[..at + 4] == old(output[..at]) + Group(indata[..parts])
  {
    parts := ReadPart(indata, insize, ibuf);
    assert ibuf[..parts] == indata[..parts];
    EncodePart(ibuf, parts, output, at);
    assert output[..at + 4] == output[..at + 5][..at + 4];
  }

  method EncodeAll(inputbuff: seq<Byte>, base64data: array<char>) returns (output: nat)
    requires |Encoded(inputbuff)| < base64data.Length
    modifies base64data
    ensures output < base64data.Length && base64data[..output] == Encoded(inputbuff)
    ensures base64data[output] == '\0'
  {
    var ibuf := new Byte[3](_ => 0);
    var indata, insize := inputbuff, |inputbuff|;
    output := 0;
    while insize > 0
      invariant insize == |indata| && output < base64data.Length
      invariant base64data[..output] + Encoded(indata) == Encoded(inputbuff)
    {
      ghost var m := if insize < 3 then insize else 3;
      EncodedPart(indata, m);
      Associate(base64data[..output], Group(indata[..m]), Encoded(indata[m..]));
      assert output + |Encoded(indata)| == |Encoded(inputbuff)|;
      var parts := EncodeNext(indata, insize, ibuf, base64data, output);
      indata := indata[parts..];
      insize := insize - parts;
      output := output + 4;
    }
    base64data[output] := '\0';
  }

  /** Curl_base64_encode. A size of zero stands for the length of a NUL-terminated string. The
      buffer is filled up to its last cell exactly when the size leaves one byte over. */
  method Base64Encode(inputbuff: seq<Byte>, size: nat) returns (base64data: array<char>, outlen: nat)
    requires size <= |inputbuff| && (size == 0 ==> 0 in inputbuff)
    requires |inputbuff| * 4 <= SIZE_MAX
    ensures fresh(base64data) && outlen < base64data.Length
    ensures var n := if size == 0 then StrLen(inputbuff, 0) else size;
      && base64data[..outlen] == Encoded(inputbuff[..n]) && base64data[outlen] == '\0'
      && (outlen + 1 == base64data.Length <==> n % 3 == 1)
  {
    var insize := size;
    if insize == 0 {
      insize := StrLen(inputbuff, 0);
    }
    base64data := new char[insize * 4 / 3 + 4];
    EncoderFits(insize);
    EncodedLength(inputbuff[..insize]);
    var output := EncodeAll(inputbuff[..insize], base64data);
    NoNul(inputbuff[..insize]);
    assert base64data[..][..output] == base64data[..output];
    StrLenIs(base64data[..], '\0', output);
    outlen := StrLen(base64data[..], '\0');
  }

  lemma LetterValue(c: char)
    requires Value(c) < 64
    ensures Letter(Value(c)) == c
  {
  }

  /** The search through the table: stops at the character, or at the NUL that ends the table. */
  method Search(c: char) returns (found: bool, v: nat)
    ensures found == (Value(c) < 64)
    ensures found ==> v == Value(c)
  {
    v := 0;
    TableIsLetters(0);
    while v < |TABLE64| && TABLE64[v] != c
      invariant v <= 64 == |TABLE64|
      invariant forall i :: 0 <= i < v ==> Letter(i) != c
    {
      TableIsLetters(v);
      v := v + 1;
    }
    found := v < |TABLE64|;
    if found {
      TableIsLetters(v);
    } else if Value(c) < 64 {
      LetterValue(c);
    }
  }

  method ReadWord(src: string) returns (x: nat)
    requires |src| >= 4
    ensures x == Word(src[..4])
  {
    x := 0;
    var s := src;
    for i := 0 to 4
      invariant s == src[i..] && x == WordOf(src[..i])
    {
      var found, v := Search(s[0]);
      assert src[..i + 1][..i] == src[..i];
      if found {
        x := x * 64 + v;
      } else if s[0] == '=' {
        x := x * 64;
      }
      s := s[1..];
    }
  }

  lemma TopByte(x: nat)
    ensures x / 256 / 256 == x / 0x1_0000 && x / 256 % 256 == x / 0x100 % 0x100
  {
  }

  /** Reads four characters of `src` and writes three bytes. */
  method DecodeQuantum(dest: array<Byte>, at: nat, src: string)
    requires at + 3 <= dest.Length && |src| >= 4
    modifies dest
    ensures dest[..at + 3] == old(dest[..at]) + Quantum(src[..4])
  {
    var x := ReadWord(src);
    TopByte(x);
    dest[at + 2] := x % 256;
    x := x / 256;
    dest[at + 1] := x % 256;
    x := x / 256;
    dest[at] := x % 256;
  }

  /** How much of the text counts: the characters before the first pad, and at most two pads. */
  method Measure(src: string) returns (length: nat, equalsTerm: nat)
    ensures length == Unpadded(src) && equalsTerm == Pads(src)
  {
    length, equalsTerm := 0, 0;
    while length < |src| && src[length] != '='
      invariant length <= |src| && Unpadded(src) == length + Unpadded(src[length..])
    {
      assert src[length..][1..] == src[length + 1..];
      length := length + 1;
    }
    if length < |src| {
      equalsTerm := equalsTerm + 1;
      if length + 1 < |src| && src[length + equalsTerm] == '=' {
        equalsTerm := equalsTerm + 1;
      }
    }
  }

  /** Curl_base64_decode of a C string. Every read stays inside the string, and every write inside
      the buffer; no buffer stands for an empty result. */
  method Base64Decode(src: string) returns (buffer: array?<Byte>, outlen: nat)
    ensures buffer == null <==> Quantums(src) == 0
    ensures buffer == null ==> outlen == 0 && Decoded(src) == []
    ensures buffer != null ==> fresh(buffer) && outlen + 4 == buffer.Length
    ensures buffer != null ==> buffer[..outlen] == Decoded(src) && buffer[outlen] == 0
  {
    buffer, outlen := null, 0;
    var length, equalsTerm := Measure(src);
    var numQuantums := (length + equalsTerm) / 4;
    if numQuantums == 0 {
      return;
    }
    var rawlen := numQuantums * 3 - equalsTerm;
    var newstr := new Byte[rawlen + 4](_ => 0);
    DecodeAll(src, numQuantums, equalsTerm, newstr);
    buffer, outlen := newstr, rawlen;
  }

  /** One quantum that is not the last. */
  method DecodeNext(newstr: array<Byte>, at: nat, p: string, n: nat, ghost pads: nat) returns (rest: string)
    requires at + 3 <= newstr.Length && n > 1 && 4 * n <= |p| && pads <= 2
    modifies newstr
    ensures rest == p[4..]
    ensures newstr[..at + 3] + DecodedQuantums(rest, n - 1, pads) == old(newstr[..at]) + DecodedQuantums(p, n, pads)
  {
    Associate(newstr[..at], Quantum(p[..4]), DecodedQuantums(p[4..], n - 1, pads));
    DecodeQuantum(newstr, at, p);
    rest := p[4..];
  }

  method DecodeFront(src: string, n: nat, ghost pads: nat, newstr: array<Byte>) returns (p: string, at: nat)
    requires 0 < 4 * n <= |src| && pads <= 2 && 3 * (n - 1) <= newstr.Length
    modifies newstr
    ensures |p| >= 4 && at == 3 * (n - 1)
    ensures newstr[..at] + Quantum(p[..4])[..3 - pads] == DecodedQuantums(src, n, pads)
  {
    p, at := src, 0;
    for i := 0 to n - 1
      invariant 4 * (n - i) <= |p| && at == 3 * i
      invariant newstr[..at] + DecodedQuantums(p, n - i, pads) == DecodedQuantums(src, n, pads)
    {
      p := DecodeNext(newstr, at, p, n - i, pads);
      at := at + 3;
    }
  }

  method CopyLast(lastQuantum: array<Byte>, n: nat, newstr: array<Byte>, at: nat)
    requires lastQuantum != newstr && n <= lastQuantum.Length && at + n < newstr.Length
    modifies newstr
    ensures newstr[..at + n] == old(newstr[..at]) + lastQuantum[..n] && newstr[at + n] == 0
  {
    for i := 0 to n
      invariant newstr[..at + i] == old(newstr[..at]) + lastQuantum[..i]
    {
      newstr[at + i] := lastQuantum[i];
    }
    newstr[at + n] := 0;
  }

  method DecodeLast(p: string, n: nat, newstr: array<Byte>, at: nat)
    requires |p| >= 4 && n <= 3 && at + n < newstr.Length
    modifies newstr
    ensures newstr[..at + n] == old(newstr[..at]) + Quantum(p[..4])[..n] && newstr[at + n] == 0
  {
    var lastQuantum := new Byte[3](_ => 0);
    DecodeQuantum(lastQuantum, 0, p);
    assert lastQuantum[..3] == Quantum(p[..4]);
    assert lastQuantum[..3][..n] == lastQuantum[..n];
    CopyLast(lastQuantum, n, newstr, at);
  }

  method DecodeAll(src: string, numQuantums: nat, equalsTerm: nat, newstr: array<Byte>)
    requires numQuantums == Quantums(src) > 0 && equalsTerm == Pads(src)
    requires newstr.Length == numQuantums * 3 - equalsTerm + 4
    modifies newstr
    ensures newstr[..newstr.Length - 4] == Decoded(src) && newstr[newstr.Length - 4] == 0
  {
    var p, at := DecodeFront(src, numQuantums, equalsTerm, newstr);
    DecodeLast(p, 3 - equalsTerm, newstr, at);
  }

  // Encoding and decoding undo each other.

  lemma WordIs(q: string)
    requires |q| == 4
    ensures Word(q) == Shifted(Shifted(Shifted(Shifted(0, q[0]), q[1]), q[2]), q[3])
  {
    assert q[..3][..2] == q[..2] && q[..2][..1] == q[..1] && q[..1][..0] == "";
    assert WordOf(q[..1]) == Shifted(0, q[0]);
    assert WordOf(q[..2]) == Shifted(WordOf(q[..1]), q[1]);
    assert WordOf(q[..3]) == Shifted(WordOf(q[..2]), q[2]);
  }

  lemma HighAndLow(x: nat, high: nat, low: Byte)
    requires x == high * 0x100 + low
    ensures x / 0x100 == high && x % 0x100 == low
  {
  }

  /** Four digits of six bits, as three bytes. */
  lemma SixBits(v0: nat, v1: nat, v2: nat, v3: nat)
    requires v0 < 64 && v1 < 64 && v2 < 64 && v3 < 64
    ensures var x := ((v0 * 64 + v1) * 64 + v2) * 64 + v3;
      && x / 0x1_0000 == v0 * 4 + v1 / 16
      && x / 0x100 % 0x100 == v1 % 16 * 16 + v2 / 4
      && x % 0x100 == v2 % 4 * 64 + v3
  {
    var x := ((v0 * 64 + v1) * 64 + v2) * 64 + v3;
    var b0, b1, b2 := v0 * 4 + v1 / 16, v1 % 16 * 16 + v2 / 4, v2 % 4 * 64 + v3;
    assert x == (b0 * 0x100 + b1) * 0x100 + b2;
    HighAndLow(x, b0 * 0x100 + b1, b2);
    HighAndLow(b0 * 0x100 + b1, b0, b1);
    TopByte(x);
  }

  /** The value a character contributes to a quantum: a pad counts as zero. */
  function Digit(c: char): (v: nat)
    requires Value(c) < 64 || c == '='
    ensures v < 64
  {
    if c == '=' then 0 else Value(c)
  }

  lemma ShiftedIs(x: nat, c: char)
    requires Value(c) < 64 || c == '='
    ensures Shifted(x, c) == x * 64 + Digit(c)
  {
  }

  lemma QuantumIs(q: string)
    requires |q| == 4 && forall i :: 0 <= i < 4 ==> Value(q[i]) < 64 || q[i] == '='
    ensures Quantum(q)
         == [ Digit(q[0]) * 4 + Digit(q[1]) / 16,
              Digit(q[1]) % 16 * 16 + Digit(q[2]) / 4,
              Digit(q[2]) % 4 * 64 + Digit(q[3]) ]
  {
    WordIs(q);
    ShiftedIs(0, q[0]);
    ShiftedIs(Shifted(0, q[0]), q[1]);
    ShiftedIs(Shifted(Shifted(0, q[0]), q[1]), q[2]);
    ShiftedIs(Shifted(Shifted(Shifted(0, q[0]), q[1]), q[2]), q[3]);
    SixBits(Digit(q[0]), Digit(q[1]), Digit(q[2]), Digit(q[3]));
  }

  /** Three bytes, split into digits of six bits and joined again. */
  lemma SplitAndJoin(b0: Byte, b1: Byte, b2: Byte)
    ensures b0 / 4 * 4 + (b0 % 4 * 16 + b1 / 16) / 16 == b0
    ensures (b0 % 4 * 16 + b1 / 16) % 16 * 16 + (b1 % 16 * 4 + b2 / 64) / 4 == b1
    ensures (b1 % 16 * 4 + b2 / 64) % 4 * 64 + b2 % 64 == b2
  {
  }

  /** Four digits, joined into bytes and split again. */
  lemma JoinAndSplit(v0: nat, v1: nat, v2: nat, v3: nat)
    requires v0 < 64 && v1 < 64 && v2 < 64 && v3 < 64
    ensures var b0, b1, b2 := v0 * 4 + v1 / 16, v1 % 16 * 16 + v2 / 4, v2 % 4 * 64 + v3;
      b0 / 4 == v0 && b0 % 4 * 16 + b1 / 16 == v1 && b1 % 16 * 4 + b2 / 64 == v2 && b2 % 64 == v3
  {
  }

  lemma GroupDigits(b: seq<Byte>, b1: Byte, b2: Byte)
    requires 0 < |b| <= 3
    requires b1 == (if |b| > 1 then b[1] else 0) && b2 == (if |b| > 2 then b[2] else 0)
    ensures forall i :: 0 <= i < 4 ==> Value(Group(b)[i]) < 64 || Group(b)[i] == '='
    ensures Digit(Group(b)[0]) == b[0] / 4 && Digit(Group(b)[1]) == b[0] % 4 * 16 + b1 / 16
    ensures Digit(Group(b)[2]) == b1 % 16 * 4 + b2 / 64 && Digit(Group(b)[3]) == b2 % 64
  {
  }

  lemma DigitsDecode(q: string, b0: Byte, b1: Byte, b2: Byte)
    requires |q| == 4 && forall i :: 0 <= i < 4 ==> Value(q[i]) < 64 || q[i] == '='
    requires Digit(q[0]) == b0 / 4 && Digit(q[1]) == b0 % 4 * 16 + b1 / 16
    requires Digit(q[2]) == b1 % 16 * 4 + b2 / 64 && Digit(q[3]) == b2 % 64
    ensures Quantum(q) == [b0, b1, b2]
  {
    QuantumIs(q);
    SplitAndJoin(b0, b1, b2);
  }

  lemma GroupDecodes(b: seq<Byte>)
    requires 0 < |b| <= 3
    ensures Quantum(Group(b))[..|b|] == b
  {
    var b1: Byte := if |b| > 1 then b[1] else 0;
    var b2: Byte := if |b| > 2 then b[2] else 0;
    GroupDigits(b, b1, b2);
    DigitsDecode(Group(b), b[0], b1, b2);
  }

  lemma GroupUnpadded(b: seq<Byte>)
    requires 0 < |b| <= 3
    ensures Unpadded(Group(b)) == |b| + 1 && Pads(Group(b)) == 3 - |b|
    ensures Quantums(Group(b)) == 1
  {
    var q := Group(b);
    assert q[0] != '=' && q[1] != '=';
    assert q[1..][0] == q[1] && q[1..][1..][0] == q[2] && q[1..][1..][1..][0] == q[3];
    assert q[1..][1..][1..][1..] == "";
  }

  /** A full group in front moves the padding along, and decodes on its own. */
  lemma DecodedInFront(q: string, s: string)
    requires |q| == 4 && '=' !in q && Quantums(s) > 0
    ensures Decoded(q + s) == Quantum(q) + Decoded(s) && Quantums(q + s) == 1 + Quantums(s)
  {
    UnpaddedInFront(q, s);
    assert (4 + (Unpadded(s) + Pads(s))) / 4 == 1 + Quantums(s);
    assert (q + s)[..4] == q && (q + s)[4..] == s;
  }

  lemma {:induction false} UnpaddedInFront(q: string, s: string)
    requires '=' !in q
    ensures Unpadded(q + s) == |q| + Unpadded(s) && Pads(q + s) == Pads(s)
  {
    if q == "" {
      assert q + s == s;
    } else {
      assert (q + s)[1..] == q[1..] + s;
      UnpaddedInFront(q[1..], s);
    }
  }

  lemma GroupRoundTrip(b: seq<Byte>)
    requires 0 < |b| <= 3
    ensures Quantums(Group(b)) == 1 && Decoded(Group(b)) == b
  {
    GroupUnpadded(b);
    GroupDecodes(b);
    assert Group(b)[..4] == Group(b);
  }

  /** Decoding the encoding of any non-empty byte string gives it back, with its length. */
  lemma {:induction false} DecodeEncode(b: seq<Byte>)
    requires b != []
    ensures Quantums(Encoded(b)) > 0 && Decoded(Encoded(b)) == b
  {
    if |b| <= 3 {
      GroupRoundTrip(b);
    } else {
      var q, rest := Group(b[..3]), Encoded(b[3..]);
      DecodeEncode(b[3..]);
      GroupUnpadded(b[..3]);
      GroupDecodes(b[..3]);
      DecodedInFront(q, rest);
      EncodedPart(b, 3);
      assert Quantum(q)[..3] == Quantum(q);
      assert b == b[..3] + b[3..];
    }
  }

  predicate Full(q: string) {
    |q| == 4 && forall i :: 0 <= i < 4 ==> Value(q[i]) < 64
  }

  /** The last group: full, or padded with the bits that the pads leave over set to zero. */
  predicate Last(q: string) {
    Full(q)
    || (&& |q| == 4 && Value(q[0]) < 64 && Value(q[1]) < 64 && q[3] == '='
        && if q[2] == '=' then Value(q[1]) % 16 == 0 else Value(q[2]) < 64 && Value(q[2]) % 4 == 0)
  }

  predicate Canonical(s: string) {
    if |s| <= 4 then Last(s) else Full(s[..4]) && Canonical(s[4..])
  }

  lemma LastUnpadded(q: string)
    requires Last(q)
    ensures Unpadded(q) == (if q[3] != '=' then 4 else if q[2] != '=' then 3 else 2)
    ensures Pads(q) == 4 - Unpadded(q) && Quantums(q) == 1
  {
    assert q[0] != '=' && q[1] != '=';
    assert q[1..][0] == q[1] && q[1..][1..][0] == q[2] && q[1..][1..][1..][0] == q[3];
    assert q[1..][1..][1..][1..] == "";
  }

  lemma LetterOfDigit(c: char)
    requires Value(c) < 64
    ensures c != '=' && Letter(Digit(c)) == c
  {
    LetterValue(c);
  }

  lemma LastEncodes(q: string)
    requires Last(q)
    ensures Pads(q) <= 2 && Group(Quantum(q)[..3 - Pads(q)]) == q
  {
    LastUnpadded(q);
    QuantumIs(q);
    DigitsOf(q, Quantum(q));
    GroupFrom(Quantum(q), 3 - Pads(q), q);
  }

  lemma GroupFrom(b: seq<Byte>, n: nat, q: string)
    requires |b| == 3 && |q| == 4 && 1 <= n <= 3
    requires q[0] == Letter(b[0] / 4) && q[1] == Letter(b[0] % 4 * 16 + b[1] / 16)
    requires if n == 1 then b[1] == 0 && q[2] == '=' else q[2] == Letter(b[1] % 16 * 4 + b[2] / 64)
    requires if n < 3 then b[2] == 0 && q[3] == '=' else q[3] == Letter(b[2] % 64)
    ensures Group(b[..n]) == q
  {
    assert q == [q[0], q[1], q[2], q[3]];
  }

  /** The bytes of a last group split into its letters again; those past a pad are zero. */
  lemma DigitsOf(q: string, b: seq<Byte>)
    requires Last(q) && |b| == 3
    requires b[0] == Digit(q[0]) * 4 + Digit(q[1]) / 16
    requires b[1] == Digit(q[1]) % 16 * 16 + Digit(q[2]) / 4
    requires b[2] == Digit(q[2]) % 4 * 64 + Digit(q[3])
    ensures Letter(b[0] / 4) == q[0] && Letter(b[0] % 4 * 16 + b[1] / 16) == q[1]
    ensures if q[2] == '=' then b[1] == 0 && b[2] == 0 else Letter(b[1] % 16 * 4 + b[2] / 64) == q[2]
    ensures if q[3] == '=' then b[2] == 0 else Letter(b[2] % 64) == q[3]
  {
    JoinAndSplit(Digit(q[0]), Digit(q[1]), Digit(q[2]), Digit(q[3]));
    LetterOfDigit(q[0]);
    LetterOfDigit(q[1]);
    if q[2] != '=' {
      LetterOfDigit(q[2]);
    }
    if q[3] != '=' {
      LetterOfDigit(q[3]);
    }
  }

  lemma LastRoundTrip(q: string)
    requires Last(q)
    ensures Quantums(q) == 1 && Decoded(q) != [] && Encoded(Decoded(q)) == q
  {
    LastUnpadded(q);
    LastEncodes(q);
    assert q[..4] == q;
  }

  lemma FullDecodes(q: string)
    requires Full(q)
    ensures '=' !in q && Group(Quantum(q)) == q
  {
    LastUnpadded(q);
    LastEncodes(q);
    assert Quantum(q)[..3] == Quantum(q);
  }

  lemma {:induction false} EncodeDecodeCanonical(s: string)
    requires Canonical(s)
    ensures Quantums(s) > 0 && Decoded(s) != [] && Encoded(Decoded(s)) == s
  {
    if |s| <= 4 {
      LastRoundTrip(s);
    } else {
      var q, rest := s[..4], s[4..];
      EncodeDecodeCanonical(rest);
      FullDecodes(q);
      DecodedInFront(q, rest);
      EncodedInFront(Quantum(q), Decoded(rest));
      assert s == q + rest;
    }
  }

  lemma EncodedInFront(a: seq<Byte>, b: seq<Byte>)
    requires |a| == 3 && b != []
    ensures Encoded(a + b) == Group(a) + Encoded(b)
  {
    assert (a + b)[..3] == a && (a + b)[3..] == b;
  }

  lemma GroupIsLast(b: seq<Byte>)
    requires 0 < |b| <= 3
    ensures Last(Group(b)) && (|b| == 3 ==> Full(Group(b)))
  {
    var q := Group(b);
    assert Value(q[0]) < 64 && Value(q[1]) < 64;
    match |b| {
      case 1 => assert q[2] == '=' && q[3] == '=' && Value(q[1]) == b[0] % 4 * 16;
      case 2 => assert q[3] == '=' && Value(q[2]) == b[1] % 16 * 4;
      case _ => assert Value(q[2]) < 64 && Value(q[3]) < 64;
    }
  }

  lemma CanonicalInFront(q: string, s: string)
    requires Full(q) && Canonical(s) && s != ""
    ensures Canonical(q + s)
  {
    assert (q + s)[..4] == q && (q + s)[4..] == s;
  }

  lemma {:induction false} EncodedIsCanonical(b: seq<Byte>)
    requires b != []
    ensures Encoded(b) != "" && Canonical(Encoded(b))
  {
    if |b| <= 3 {
      GroupIsLast(b);
    } else {
      EncodedIsCanonical(b[3..]);
      EncodedPart(b, 3);
      GroupIsLast(b[..3]);
      CanonicalInFront(Group(b[..3]), Encoded(b[3..]));
    }
  }

  /** Encoding the decoding of a text gives it back exactly when the text is canonical: groups of four
      characters of the table, the last one padded with no bits left over. */
  lemma EncodeDecode(s: string)
    ensures Canonical(s) <==> Decoded(s) != [] && Encoded(Decoded(s)) == s
  {
    if Canonical(s) {
      EncodeDecodeCanonical(s);
    } else if Decoded(s) != [] {
      EncodedIsCanonical(Decoded(s));
    }
  }

  /** The test vectors of section 10 of RFC 4648. */
  lemma TestVectors()
    ensures Encoded([102]) == "Zg==" && Encoded([102, 111]) == "Zm8=" && Encoded([102, 111, 111]) == "Zm9v"
    ensures Encoded([102, 111, 111] + [98]) == "Zm9v" + "Yg=="
    ensures Encoded([102, 111, 111] + [98, 97]) == "Zm9v" + "YmE="
    ensures Encoded([102, 111, 111] + [98, 97, 114]) == "Zm9v" + "YmFy"
  {
    FirstGroups();
    SecondGroups();
    Behind([102, 111, 111], [98]);
    Behind([102, 111, 111], [98, 97]);
    Behind([102, 111, 111], [98, 97, 114]);
  }

  lemma FirstGroups()
    ensures Group([102]) == "Zg==" && Group([102, 111]) == "Zm8=" && Group([102, 111, 111]) == "Zm9v"
  {
  }

  lemma SecondGroups()
    ensures Group([98]) == "Yg==" && Group([98, 97]) == "YmE=" && Group([98, 97, 114]) == "YmFy"
  {
  }

  lemma Behind(a: seq<Byte>, b: seq<Byte>)
    requires |a| == 3 && 0 < |b| <= 3
    ensures Encoded(a + b) == Group(a) + Group(b)
  {
    assert (a + b)[..3] == a && (a + b)[3..] == b;
  }
}
