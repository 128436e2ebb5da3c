/**
 Numeric character references: the right-to-left, wrapping accumulation against the positional
 value, and the UTF-8 form against a decoder.
 */
module XmlReference {
  import opened XmlText

  /** The value of the digits `p[lo..hi]`, read in the usual way. */
  function Positional(p: string, lo: nat, hi: nat, radix: nat): nat
    requires lo <= hi <= |p| && AllDigits(p, lo, hi, radix) && (radix == 10 || radix == 16)
    decreases hi
  {
    if lo == hi then 0 else radix * Positional(p, lo, hi - 1, radix) + DigitValue(p[hi - 1])
  }

  lemma WrappedFactor(a: nat, b: nat)
    ensures Times(a % UNSIGNED, b) == Times(a, b)
  {
    WrappedProduct(a / UNSIGNED, a % UNSIGNED, b);
  }

  lemma WrappedProduct(q: nat, r: nat, b: nat)
    ensures ((UNSIGNED * q + r) * b) % UNSIGNED == (r * b) % UNSIGNED
  {
    Distribute(b, UNSIGNED * q, r);
    Regroup(b, UNSIGNED, q);
    Regroup(UNSIGNED, b, q);
    Multiples(r * b, b * q);
  }

  lemma Distribute(w: nat, a: nat, b: nat)
    ensures w * (a + b) == w * a + w * b
  {
  }

  lemma Regroup(a: nat, b: nat, c: nat)
    ensures a * (b * c) == (a * b) * c
  {
  }

  lemma Multiples(x: nat, k: nat)
    ensures (x + UNSIGNED * k) % UNSIGNED == x % UNSIGNED
  {
  }

  lemma SmallTimes(a: nat, b: nat, ab: nat)
    requires ab == a * b < UNSIGNED
    ensures Times(a, b) == ab
  {
  }

  lemma SmallAdd(a: nat, b: nat)
    requires a + b < UNSIGNED
    ensures Add(a, b) == a + b
  {
  }

  lemma OneDigit(weight: nat, radix: nat, high: nat, digit: nat)
    requires weight * (radix * high + digit) < UNSIGNED
    ensures (weight * radix) * high < UNSIGNED
    ensures Times(weight % UNSIGNED, radix) == (weight * radix) % UNSIGNED
    ensures Add((weight * radix) * high, Times(weight % UNSIGNED, digit)) == weight * (radix * high + digit)
  {
    WrappedFactor(weight, radix);
    WrappedFactor(weight, digit);
    Distribute(weight, radix * high, digit);
    Regroup(weight, radix, high);
    SmallTimes(weight, digit, weight * digit);
    SmallAdd((weight * radix) * high, weight * digit);
  }

  lemma {:induction false} WrappingIsPositional(p: string, lo: nat, hi: nat, radix: nat, weight: nat)
    requires lo <= hi <= |p| && AllDigits(p, lo, hi, radix) && (radix == 10 || radix == 16)
    requires weight * Positional(p, lo, hi, radix) < UNSIGNED
    ensures Accumulate(p, lo, hi, radix, weight % UNSIGNED) == weight * Positional(p, lo, hi, radix)
    decreases hi
  {
    if lo < hi {
      var high, digit := Positional(p, lo, hi - 1, radix), DigitValue(p[hi - 1]);
      OneDigit(weight, radix, high, digit);
      WrappingIsPositional(p, lo, hi - 1, radix, weight * radix);
      UnfoldAccumulate(p, lo, hi, radix, weight % UNSIGNED, (weight * radix) % UNSIGNED);
    }
  }

  lemma UnfoldAccumulate(p: string, lo: nat, hi: nat, radix: nat, weight: nat, next: nat)
    requires lo < hi <= |p| && AllDigits(p, lo, hi, radix) && (radix == 10 || radix == 16)
    requires next == Times(weight, radix)
    ensures Accumulate(p, lo, hi, radix, weight)
            == Add(Accumulate(p, lo, hi - 1, radix, next), Times(weight, DigitValue(p[hi - 1])))
  {
  }

  /** Any number of leading zeros may precede the digits: the weights wrap, the value does not. */
  lemma AccumulateIsPositional(p: string, lo: nat, hi: nat, radix: nat)
    requires lo <= hi <= |p| && AllDigits(p, lo, hi, radix) && (radix == 10 || radix == 16)
    requires Positional(p, lo, hi, radix) < UNSIGNED
    ensures Accumulate(p, lo, hi, radix, 1) == Positional(p, lo, hi, radix)
  {
    WrappingIsPositional(p, lo, hi, radix, 1);
  }

  // ---------------------------------------------------------------- whole references

  /** The text of a reference with these digits. */
  function ReferenceText(hex: bool, digits: string): string {
    (if hex then "&#x" else "&#") + digits + ";"
  }

  lemma IndexIs(p: string, c: char, from: nat, i: nat)
    requires from <= i < |p| && p[i] == c && forall k :: from <= k < i ==> p[k] != c
    ensures IndexFrom(p, c, from) == i
  {
  }

  lemma LastIs(p: string, c: char, at: nat, hi: nat)
    requires at < hi <= |p| && p[at] == c && forall k :: at < k < hi ==> p[k] != c
    ensures LastBefore(p, c, at, hi) == at
  {
  }

  lemma {:induction false} PositionalShift(p: string, lo: nat, d: string, n: nat, radix: nat)
    requires lo + |d| <= |p| && p[lo..lo + |d|] == d && n <= |d| && (radix == 10 || radix == 16)
    requires AllDigits(d, 0, |d|, radix)
    ensures AllDigits(p, lo, lo + n, radix) && Positional(p, lo, lo + n, radix) == Positional(d, 0, n, radix)
  {
    assert AllDigits(p, lo, lo + n, radix) by {
      forall i | lo <= i < lo + n ensures IsDigit(p[i], radix) {
        assert p[i] == p[lo..lo + |d|][i - lo];
      }
    }
    if n > 0 {
      PositionalShift(p, lo, d, n - 1, radix);
    }
  }

  lemma ReferenceAt(p: string, mark: nat, semi: nat, radix: nat, enc: Encoding)
    requires mark < semi < |p| && (radix == 10 || radix == 16) && p[semi] == ';'
    requires !IsDigit(p[mark], radix) && AllDigits(p, mark + 1, semi, radix)
    ensures Reference(p, mark, radix, enc)
            == Chars(FromCode(Accumulate(p, mark + 1, semi, radix, 1), enc), p[semi + 1..])
  {
    IndexIs(p, ';', mark + 1, semi);
    LastIs(p, p[mark], mark, semi);
  }

  function Radix(hex: bool): nat { if hex then 16 else 10 }

  function Mark(hex: bool): nat { if hex then 2 else 1 }

  lemma Layout(hex: bool, digits: string, rest: string)
    requires AllDigits(digits, 0, |digits|, Radix(hex))
    ensures var p := ReferenceText(hex, digits) + rest;
            var semi := Mark(hex) + 1 + |digits|;
            semi < |p| && p[0] == '&' && p[1] == '#' && p[semi] == ';' && p[semi + 1..] == rest
            && p[Mark(hex) + 1..semi] == digits && !IsDigit(p[Mark(hex)], Radix(hex))
            && (if hex then |p| > 3 && p[2] == 'x' else |p| > 2 && p[2] != 'x')
  {
    var p := ReferenceText(hex, digits) + rest;
    if !hex {
      assert p[2] == (digits + ";")[0];
    }
  }

  /** Section 4.1 of XML 1.0: the code is the positional value of the digits, and reading goes
      on just past the semicolon. No digit string has to be short; leading zeros are free. */
  lemma NumericReference(hex: bool, digits: string, rest: string, enc: Encoding)
    requires AllDigits(digits, 0, |digits|, Radix(hex))
    requires Positional(digits, 0, |digits|, Radix(hex)) < UNSIGNED
    ensures Entity(ReferenceText(hex, digits) + rest, enc)
            == Chars(FromCode(Positional(digits, 0, |digits|, Radix(hex)), enc), rest)
  {
    var p := ReferenceText(hex, digits) + rest;
    var first := Mark(hex) + 1;
    Layout(hex, digits, rest);
    PositionalShift(p, first, digits, |digits|, Radix(hex));
    AccumulateIsPositional(p, first, first + |digits|, Radix(hex));
    ReferenceAt(p, Mark(hex), first + |digits|, Radix(hex), enc);
    EntityIsReference(p, hex, enc);
  }

  lemma EntityIsReference(p: string, hex: bool, enc: Encoding)
    requires |p| > 2 && p[0] == '&' && p[1] == '#'
    requires if hex then |p| > 3 && p[2] == 'x' else p[2] != 'x'
    ensures Entity(p, enc) == Reference(p, Mark(hex), Radix(hex), enc)
  {
  }

  /** Without UTF-8 a reference gives one byte, the code modulo 256. */
  lemma ByteReference(hex: bool, digits: string, rest: string, enc: Encoding)
    requires AllDigits(digits, 0, |digits|, Radix(hex)) && !enc.Utf8?
    requires Positional(digits, 0, |digits|, Radix(hex)) < UNSIGNED
    ensures Entity(ReferenceText(hex, digits) + rest, enc)
         == Chars([(Positional(digits, 0, |digits|, Radix(hex)) % 256) as char], rest)
  {
    NumericReference(hex, digits, rest, enc);
  }

  /** Section 3 of RFC 3629, read backwards: the code a well-formed character stands for. */
  function Utf8Code(t: string): (u: int) {
    if |t| == 1 && t[0] as int < 0x80 then t[0] as int
    else if |t| == 2 && 0xC2 <= t[0] as int <= 0xDF && IsTrail(t[1]) then
      (t[0] as int - 0xC0) * 0x40 + (t[1] as int - 0x80)
    else if |t| == 3 && 0xE0 <= t[0] as int <= 0xEF && IsTrail(t[1]) && IsTrail(t[2]) then
      (t[0] as int - 0xE0) * 0x1000 + (t[1] as int - 0x80) * 0x40 + (t[2] as int - 0x80)
    else if |t| == 4 && 0xF0 <= t[0] as int <= 0xF4 && IsTrail(t[1]) && IsTrail(t[2]) && IsTrail(t[3]) then
      (t[0] as int - 0xF0) * 0x40000 + (t[1] as int - 0x80) * 0x1000
      + (t[2] as int - 0x80) * 0x40 + (t[3] as int - 0x80)
    else -1
  }

  predicate IsTrail(c: char) { 0x80 <= c as int < 0xC0 }

  /** Every scalar value survives, and the parser's table gives the length from the lead byte. */
  lemma Utf8RoundTrip(u: nat)
    requires u <= 0x10FFFF
    ensures Utf8Code(Utf8Form(u)) == u
    ensures |Utf8Form(u)| == Utf8Step(Utf8Form(u)[0])
  {
    if u >= 0x10000 {
      FourBytes(u);
    } else if u >= 0x800 {
      ThreeBytes(u);
    } else if u >= 0x80 {
      TwoBytes(u);
    }
  }

  lemma FourBytes(u: nat)
    requires 0x10000 <= u <= 0x10FFFF
    ensures 0xF0 <= 0xF0 + u / 0x40000 <= 0xF4
    ensures u / 0x40000 * 0x40000 + u / 0x1000 % 0x40 * 0x1000 + u / 0x40 % 0x40 * 0x40 + u % 0x40 == u
  {
  }

  lemma TwoBytes(u: nat)
    requires 0x80 <= u < 0x800
    ensures 0xC2 <= 0xC0 + u / 0x40 <= 0xDF && u / 0x40 * 0x40 + u % 0x40 == u
  {
  }

  lemma ThreeBytes(u: nat)
    requires 0x800 <= u < 0x10000
    ensures 0xE0 <= 0xE0 + u / 0x1000 <= 0xEF
    ensures u / 0x1000 * 0x1000 + u / 0x40 % 0x40 * 0x40 + u % 0x40 == u
  {
  }

  /** So a reference to any scalar value, read in UTF-8, yields one well-formed character that
      the parser itself steps over in one go. */
  lemma ScalarReference(hex: bool, digits: string, rest: string)
    requires AllDigits(digits, 0, |digits|, Radix(hex))
    requires 0 < Positional(digits, 0, |digits|, Radix(hex)) <= 0x10FFFF
    ensures var r := Entity(ReferenceText(hex, digits) + rest, Utf8);
            r.Chars? && r.rest == rest
            && Utf8Code(r.text) == Positional(digits, 0, |digits|, Radix(hex))
            && (r.text != "&" ==> CharAt(r.text + rest, Utf8) == r)
  {
    var u := Positional(digits, 0, |digits|, Radix(hex));
    NumericReference(hex, digits, rest, Utf8);
    Utf8RoundTrip(u);
    var t := Utf8Form(u);
    assert (t + rest)[..|t|] == t && (t + rest)[|t|..] == rest;
  }
}
