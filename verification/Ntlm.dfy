// The NTLM type-3 message of curl_ntlm_msgs.c (the path without SSPI): a fixed header whose
// security buffers say where in the message the responses and the names are.
module Ntlm {
  import opened Options
  import opened Sequences
  import opened Base64

  type Bytes = seq<Byte>

  const NTLM_BUFSIZE := 1024
  const HOSTNAME_MAX := 1024
  const SIGNATURE: Bytes := [0x4e, 0x54, 0x4c, 0x4d, 0x53, 0x53, 0x50, 0]
  const HEADER := 64
  const RESPONSE := 0x18

  /** What goes into a message. `ntresp` is empty in a build that sends no NT response. */
  datatype Parts = Parts(lmresp: Bytes, ntresp: Bytes, domain: Bytes, user: Bytes, host: Bytes, flags: nat)

  predicate PartsOk(p: Parts) {
    && |p.lmresp| == RESPONSE && (p.ntresp == [] || |p.ntresp| == RESPONSE)
    && p.flags < 0x1_0000_0000
  }

  predicate Unicode(flags: nat) {
    flags % 2 == 1  // NTLMFLAG_NEGOTIATE_UNICODE
  }

  // Building the message.

  /** Every byte of a name is followed by a zero byte. */
  function Widened(s: Bytes): (w: Bytes)
    ensures |w| == 2 * |s|
  {
    if s == [] then [] else [s[0], 0] + Widened(s[1..])
  }

  function Spelled(unicode: bool, s: Bytes): (w: Bytes)
    ensures |w| == if unicode then 2 * |s| else |s|
  {
    if unicode then Widened(s) else s
  }

  function Name(p: Parts, s: Bytes): Bytes {
    Spelled(Unicode(p.flags), s)
  }

  function ShortPair(x: nat): (b: Bytes)
    ensures |b| == 2
  {
    [x % 256, x / 256 % 256]
  }

  function LongQuartet(x: nat): (b: Bytes)
    ensures |b| == 4
  {
    [x % 256, x / 0x100 % 256, x / 0x1_0000 % 256, x / 0x100_0000 % 256]
  }

  function SecurityBuffer(length: nat, offset: nat): (b: Bytes)
    ensures |b| == 8
  {
    ShortPair(length) + ShortPair(length) + ShortPair(offset) + [0, 0]
  }

  function DomainOffset(p: Parts): nat {
    HEADER + RESPONSE + |p.ntresp|
  }

  const ZEROS: Bytes := [0, 0, 0, 0, 0, 0, 0, 0]

  /** The 64 bytes of the header: the signature and the type, six security buffers, the flags. */
  function Layout(lm: Bytes, nt: Bytes, domain: Bytes, user: Bytes, host: Bytes, key: Bytes, flags: Bytes): (h: Bytes)
    requires |lm| == |nt| == |domain| == |user| == |host| == |key| == 8 && |flags| == 4
    ensures |h| == HEADER
  {
    Upper(lm, nt, domain) + Lower(user, host, key, flags)
  }

  function Upper(lm: Bytes, nt: Bytes, domain: Bytes): Bytes {
    SIGNATURE + [3, 0, 0, 0] + lm + nt + domain
  }

  function Lower(user: Bytes, host: Bytes, key: Bytes, flags: Bytes): Bytes {
    user + host + key + flags
  }

  function Header(p: Parts): (h: Bytes)
    requires PartsOk(p)
    ensures |h| == HEADER
  {
    var domlen, userlen, hostlen := |Name(p, p.domain)|, |Name(p, p.user)|, |Name(p, p.host)|;
    var domoff := DomainOffset(p);
    Layout(SecurityBuffer(RESPONSE, HEADER),
           if p.ntresp == [] then ZEROS else SecurityBuffer(RESPONSE, HEADER + RESPONSE),
           SecurityBuffer(domlen, domoff),
           SecurityBuffer(userlen, domoff + domlen),
           SecurityBuffer(hostlen, domoff + domlen + userlen),
           ZEROS,
           LongQuartet(p.flags))
  }

  function Message(p: Parts): Bytes
    requires PartsOk(p)
  {
    Header(p) + p.lmresp + p.ntresp + Name(p, p.domain) + Name(p, p.user) + Name(p, p.host)
  }

  predicate TooBig(p: Parts) {
    DomainOffset(p) + |Name(p, p.domain)| + |Name(p, p.user)| + |Name(p, p.host)| >= NTLM_BUFSIZE
  }

  // Reading it back, with nothing but the message.

  function ReadShort(m: Bytes, at: nat): nat
    requires at + 2 <= |m|
  {
    m[at] as nat + 256 * m[at + 1] as nat
  }

  function ReadIntLe(m: Bytes, at: nat): nat
    requires at + 4 <= |m|
  {
    m[at] as nat + 0x100 * m[at + 1] as nat + 0x1_0000 * m[at + 2] as nat + 0x100_0000 * m[at + 3] as nat
  }

  datatype Slice = Slice(offset: nat, length: nat, space: nat)

  function ReadBuffer(m: Bytes, at: nat): Slice
    requires at + 8 <= |m|
  {
    Slice(ReadShort(m, at + 4), ReadShort(m, at), ReadShort(m, at + 2))
  }

  ghost predicate Selects(m: Bytes, s: Slice, b: Bytes) {
    s.offset + s.length <= |m| && m[s.offset..][..s.length] == b && s.space == s.length
  }

  lemma BufferReads(m: Bytes, at: nat, length: nat, offset: nat)
    requires at + 8 <= |m| && m[at..][..8] == SecurityBuffer(length, offset)
    requires length < 0x1_0000 && offset < 0x1_0000
    ensures ReadBuffer(m, at) == Slice(offset, length, length)
  {
    var b := SecurityBuffer(length, offset);
    assert forall i :: 0 <= i < 8 ==> m[at + i] == m[at..][..8][i];
    assert m[at] == b[0] && m[at + 1] == b[1] && m[at + 2] == b[2] && m[at + 3] == b[3];
    assert m[at + 4] == b[4] && m[at + 5] == b[5];
  }

  lemma LongReads(m: Bytes, at: nat, x: nat)
    requires at + 4 <= |m| && m[at..][..4] == LongQuartet(x) && x < 0x1_0000_0000
    ensures ReadIntLe(m, at) == x
  {
    assert forall i :: 0 <= i < 4 ==> m[at + i] == m[at..][..4][i];
    assert x / 0x100 / 0x100 == x / 0x1_0000 && x / 0x1_0000 / 0x100 == x / 0x100_0000;
  }

  lemma UpperPieces(a: Bytes, b: Bytes, c: Bytes, rest: Bytes)
    requires |a| == |b| == |c| == 8
    ensures var m := Upper(a, b, c) + rest;
      m[12..][..8] == a && m[20..][..8] == b && m[28..][..8] == c && m[36..] == rest
  {
  }

  lemma LowerPieces(d: Bytes, e: Bytes, f: Bytes, g: Bytes, rest: Bytes)
    requires |d| == |e| == |f| == 8 && |g| == 4
    ensures var m := Lower(d, e, f, g) + rest;
      m[..8] == d && m[8..][..8] == e && m[24..][..4] == g
  {
  }

  lemma PiecesAt(a: Bytes, b: Bytes, c: Bytes, d: Bytes, e: Bytes, f: Bytes, g: Bytes, rest: Bytes)
    requires |a| == |b| == |c| == |d| == |e| == |f| == 8 && |g| == 4
    ensures var m := Layout(a, b, c, d, e, f, g) + rest;
      && m[12..][..8] == a && m[20..][..8] == b && m[28..][..8] == c
      && m[36..][..8] == d && m[44..][..8] == e && m[60..][..4] == g
  {
    var lower := Lower(d, e, f, g) + rest;
    Associate(Upper(a, b, c), Lower(d, e, f, g), rest);
    UpperPieces(a, b, c, lower);
    LowerPieces(d, e, f, g, rest);
    var m := Layout(a, b, c, d, e, f, g) + rest;
    assert m[36..][8..] == m[44..] && m[36..][24..] == m[60..];
  }

  lemma HeaderPieces(p: Parts, rest: Bytes)
    requires PartsOk(p)
    ensures var m := Header(p) + rest;
      var domlen, userlen, hostlen := |Name(p, p.domain)|, |Name(p, p.user)|, |Name(p, p.host)|;
      && m[12..][..8] == SecurityBuffer(RESPONSE, HEADER)
      && m[20..][..8] == (if p.ntresp == [] then ZEROS else SecurityBuffer(RESPONSE, HEADER + RESPONSE))
      && m[28..][..8] == SecurityBuffer(domlen, DomainOffset(p))
      && m[36..][..8] == SecurityBuffer(userlen, DomainOffset(p) + domlen)
      && m[44..][..8] == SecurityBuffer(hostlen, DomainOffset(p) + domlen + userlen)
      && m[60..][..4] == LongQuartet(p.flags)
  {
    var domlen, userlen, hostlen := |Name(p, p.domain)|, |Name(p, p.user)|, |Name(p, p.host)|;
    var domoff := DomainOffset(p);
    PiecesAt(SecurityBuffer(RESPONSE, HEADER),
             if p.ntresp == [] then ZEROS else SecurityBuffer(RESPONSE, HEADER + RESPONSE),
             SecurityBuffer(domlen, domoff), SecurityBuffer(userlen, domoff + domlen),
             SecurityBuffer(hostlen, domoff + domlen + userlen), ZEROS, LongQuartet(p.flags), rest);
  }

  const LM_BUFFER := 12
  const NT_BUFFER := 20
  const DOMAIN_BUFFER := 28
  const USER_BUFFER := 36
  const HOST_BUFFER := 44
  const FLAGS_AT := 60

  lemma HeaderReads(p: Parts, rest: Bytes)
    requires PartsOk(p) && !TooBig(p)
    ensures var m := Header(p) + rest;
      var domlen, userlen, hostlen := |Name(p, p.domain)|, |Name(p, p.user)|, |Name(p, p.host)|;
      && ReadBuffer(m, LM_BUFFER) == Slice(HEADER, RESPONSE, RESPONSE)
      && ReadBuffer(m, NT_BUFFER)
         == (if p.ntresp == [] then Slice(0, 0, 0) else Slice(HEADER + RESPONSE, RESPONSE, RESPONSE))
      && ReadBuffer(m, DOMAIN_BUFFER) == Slice(DomainOffset(p), domlen, domlen)
      && ReadBuffer(m, USER_BUFFER) == Slice(DomainOffset(p) + domlen, userlen, userlen)
      && ReadBuffer(m, HOST_BUFFER) == Slice(DomainOffset(p) + domlen + userlen, hostlen, hostlen)
      && ReadIntLe(m, FLAGS_AT) == p.flags
  {
    var m := Header(p) + rest;
    var domlen, userlen, hostlen := |Name(p, p.domain)|, |Name(p, p.user)|, |Name(p, p.host)|;
    HeaderPieces(p, rest);
    BufferReads(m, LM_BUFFER, RESPONSE, HEADER);
    NtReads(m, p.ntresp);
    BufferReads(m, DOMAIN_BUFFER, domlen, DomainOffset(p));
    BufferReads(m, USER_BUFFER, userlen, DomainOffset(p) + domlen);
    BufferReads(m, HOST_BUFFER, hostlen, DomainOffset(p) + domlen + userlen);
    LongReads(m, FLAGS_AT, p.flags);
  }

  lemma NtReads(m: Bytes, ntresp: Bytes)
    requires HEADER <= |m|
    requires m[20..][..8] == (if ntresp == [] then ZEROS else SecurityBuffer(RESPONSE, HEADER + RESPONSE))
    ensures ReadBuffer(m, NT_BUFFER)
         == (if ntresp == [] then Slice(0, 0, 0) else Slice(HEADER + RESPONSE, RESPONSE, RESPONSE))
  {
    if ntresp == [] {
      assert SecurityBuffer(0, 0) == ZEROS;
      BufferReads(m, NT_BUFFER, 0, 0);
    } else {
      BufferReads(m, NT_BUFFER, RESPONSE, HEADER + RESPONSE);
    }
  }

  /** Where the security buffers of a message that fits point. */
  lemma HeaderSays(p: Parts)
    requires PartsOk(p) && !TooBig(p)
    ensures var m := Message(p);
      var domlen, userlen, hostlen := |Name(p, p.domain)|, |Name(p, p.user)|, |Name(p, p.host)|;
      && |m| == DomainOffset(p) + domlen + userlen + hostlen
      && ReadBuffer(m, LM_BUFFER) == Slice(HEADER, RESPONSE, RESPONSE)
      && ReadBuffer(m, NT_BUFFER)
         == (if p.ntresp == [] then Slice(0, 0, 0) else Slice(HEADER + RESPONSE, RESPONSE, RESPONSE))
      && ReadBuffer(m, DOMAIN_BUFFER) == Slice(DomainOffset(p), domlen, domlen)
      && ReadBuffer(m, USER_BUFFER) == Slice(DomainOffset(p) + domlen, userlen, userlen)
      && ReadBuffer(m, HOST_BUFFER) == Slice(DomainOffset(p) + domlen + userlen, hostlen, hostlen)
      && ReadIntLe(m, FLAGS_AT) == p.flags
  {
    var dom, user, host := Name(p, p.domain), Name(p, p.user), Name(p, p.host);
    HeaderReads(p, p.lmresp + p.ntresp + dom + user + host);
    FrontOf(Header(p), p.lmresp, p.ntresp, dom, user, host);
  }

  lemma FrontOf(h: Bytes, lm: Bytes, nt: Bytes, dom: Bytes, user: Bytes, host: Bytes)
    ensures h + lm + nt + dom + user + host == h + (lm + nt + dom + user + host)
  {
  }

  /** What else a receiver sees in the 64 bytes of the header: the signature `NTLMSSP` with its NUL,
      message type 3, and an empty session key. */
  lemma HeaderIsType3(p: Parts)
    requires PartsOk(p) && !TooBig(p)
    ensures var m := Message(p);
      && |m| >= 64
      && m[..8] == [0x4e, 0x54, 0x4c, 0x4d, 0x53, 0x53, 0x50, 0]
      && ReadIntLe(m, 8) == 3
      && m[52..60] == [0, 0, 0, 0, 0, 0, 0, 0]
      && ReadBuffer(m, 12) == Slice(64, 24, 24) && |m| < 1024
  {
    HeaderSays(p);
    var dom, user, host := Name(p, p.domain), Name(p, p.user), Name(p, p.host);
    var rest := p.lmresp + p.ntresp + dom + user + host;
    FrontOf(Header(p), p.lmresp, p.ntresp, dom, user, host);
    var m := Header(p) + rest;
    FixedPieces(p, rest);
    assert forall i :: 0 <= i < 12 ==> m[..12][i] == m[i];
    assert m[8] == 3 && m[9] == m[10] == m[11] == 0;
  }

  lemma FixedPieces(p: Parts, rest: Bytes)
    requires PartsOk(p)
    ensures var m := Header(p) + rest;
      m[..12] == [0x4e, 0x54, 0x4c, 0x4d, 0x53, 0x53, 0x50, 0, 3, 0, 0, 0] && m[52..60] == ZEROS
  {
    var domlen, userlen, hostlen := |Name(p, p.domain)|, |Name(p, p.user)|, |Name(p, p.host)|;
    var domoff := DomainOffset(p);
    var nt := if p.ntresp == [] then ZEROS else SecurityBuffer(RESPONSE, HEADER + RESPONSE);
    FixedAt(SecurityBuffer(RESPONSE, HEADER), nt, SecurityBuffer(domlen, domoff),
            SecurityBuffer(userlen, domoff + domlen), SecurityBuffer(hostlen, domoff + domlen + userlen), ZEROS,
            LongQuartet(p.flags), rest);
  }

  lemma FixedAt(a: Bytes, b: Bytes, c: Bytes, d: Bytes, e: Bytes, f: Bytes, g: Bytes, rest: Bytes)
    requires |a| == |b| == |c| == |d| == |e| == |f| == 8 && |g| == 4
    ensures var m := Layout(a, b, c, d, e, f, g) + rest;
      m[..12] == [0x4e, 0x54, 0x4c, 0x4d, 0x53, 0x53, 0x50, 0, 3, 0, 0, 0] && m[52..60] == f
  {
    var m := Layout(a, b, c, d, e, f, g) + rest;
    assert m[..12] == SIGNATURE + [3, 0, 0, 0];
  }

  function At(offset: nat, b: Bytes): Slice {
    Slice(offset, |b|, |b|)
  }

  lemma PieceSelected(a: Bytes, b: Bytes, c: Bytes)
    ensures Selects(a + b + c, At(|a|, b), b)
  {
  }

  lemma PiecesSelected(h: Bytes, lm: Bytes, nt: Bytes, dom: Bytes, user: Bytes, host: Bytes)
    ensures var m := h + lm + nt + dom + user + host;
      && Selects(m, At(|h|, lm), lm)
      && Selects(m, At(|h| + |lm|, nt), nt)
      && Selects(m, At(|h| + |lm| + |nt|, dom), dom)
      && Selects(m, At(|h| + |lm| + |nt| + |dom|, user), user)
      && Selects(m, At(|h| + |lm| + |nt| + |dom| + |user|, host), host)
  {
    var m := h + lm + nt + dom + user + host;
    PieceSelected(h, lm, nt + dom + user + host);
    assert m == h + lm + (nt + dom + user + host);
    PieceSelected(h + lm, nt, dom + user + host);
    assert m == (h + lm) + nt + (dom + user + host);
    PieceSelected(h + lm + nt, dom, user + host);
    assert m == (h + lm + nt) + dom + (user + host);
    PieceSelected(h + lm + nt + dom, user, host);
    PieceSelected(h + lm + nt + dom + user, host, []);
    assert m == m + [];
  }

  /** A message is self-describing: each security buffer, read with nothing but the message, selects
      exactly the bytes of its part; the parts follow each other without a gap or an overlap, from
      the end of the header to the end of the message, which stays below the buffer's size. */
  lemma SelfDescribing(p: Parts)
    requires PartsOk(p) && !TooBig(p)
    ensures var m := Message(p);
      && |m| < NTLM_BUFSIZE
      && Selects(m, ReadBuffer(m, LM_BUFFER), p.lmresp)
      && Selects(m, ReadBuffer(m, NT_BUFFER), p.ntresp)
      && Selects(m, ReadBuffer(m, DOMAIN_BUFFER), Name(p, p.domain))
      && Selects(m, ReadBuffer(m, USER_BUFFER), Name(p, p.user))
      && Selects(m, ReadBuffer(m, HOST_BUFFER), Name(p, p.host))
    ensures var m := Message(p);
      var lm, nt, dom := ReadBuffer(m, LM_BUFFER), ReadBuffer(m, NT_BUFFER), ReadBuffer(m, DOMAIN_BUFFER);
      var user, host := ReadBuffer(m, USER_BUFFER), ReadBuffer(m, HOST_BUFFER);
      && lm.offset == HEADER
      && (nt.length > 0 ==> nt.offset == lm.offset + lm.length)
      && dom.offset == lm.offset + lm.length + nt.length
      && user.offset == dom.offset + dom.length
      && host.offset == user.offset + user.length
      && |m| == host.offset + host.length
  {
    HeaderSays(p);
    PiecesSelected(Header(p), p.lmresp, p.ntresp, Name(p, p.domain), Name(p, p.user), Name(p, p.host));
  }

  function Narrowed(w: Bytes): Bytes {
    if |w| < 2 then [] else [w[0]] + Narrowed(w[2..])
  }

  lemma {:induction false} NarrowWiden(s: Bytes)
    ensures Narrowed(Widened(s)) == s
  {
    if s != [] {
      assert Widened(s)[2..] == Widened(s[1..]);
      NarrowWiden(s[1..]);
    }
  }

  /** A receiver: follows the security buffers, and narrows the names if the flags say so. */
  function Selected(m: Bytes, at: nat): Bytes
    requires at + 8 <= |m|
  {
    var s := ReadBuffer(m, at);
    if s.offset + s.length <= |m| then m[s.offset..][..s.length] else []
  }

  function SelectedName(m: Bytes, at: nat): Bytes
    requires at + 8 <= |m| && HEADER <= |m|
  {
    if Unicode(ReadIntLe(m, FLAGS_AT)) then Narrowed(Selected(m, at)) else Selected(m, at)
  }

  function Received(m: Bytes): Parts
    requires HEADER <= |m|
  {
    Parts(Selected(m, LM_BUFFER), Selected(m, NT_BUFFER), SelectedName(m, DOMAIN_BUFFER),
          SelectedName(m, USER_BUFFER), SelectedName(m, HOST_BUFFER), ReadIntLe(m, FLAGS_AT))
  }

  /** What a receiver reads, out of the base64 text that is sent, is what went in. */
  lemma ReceivedIsSent(p: Parts)
    requires PartsOk(p) && !TooBig(p)
    ensures var m := Decoded(Encoded(Message(p))); HEADER <= |m| && Received(m) == p
  {
    var m := Message(p);
    HeaderSays(p);
    SelfDescribing(p);
    DecodeEncode(m);
    NarrowWiden(p.domain);
    NarrowWiden(p.user);
    NarrowWiden(p.host);
  }

  // The source's own steps, into the fixed buffer.

  function IndexOf(s: Bytes, c: Byte): (at: nat)
    ensures at <= |s| && (at < |s| <==> c in s) && (at < |s| ==> s[at] == c)
    ensures c !in s[..at]
  {
    if s == [] || s[0] == c then 0
    else
      var at := 1 + IndexOf(s[1..], c);
      assert s[..at] == [s[0]] + s[1..][..at - 1];
      at
  }

  const BACKSLASH: Byte := 0x5c
  const SLASH: Byte := 0x2f

  /** Where the domain ends: at the first backslash, else at the first slash. */
  function Separator(userp: Bytes): (at: nat)
    ensures at <= |userp|
  {
    if BACKSLASH in userp then IndexOf(userp, BACKSLASH) else IndexOf(userp, SLASH)
  }

  /** The parts for a user name that may have a domain in front; `host` is empty when the host name
      cannot be found. */
  function PartsFor(userp: Bytes, host: Bytes, lmresp: Bytes, ntresp: Bytes, flags: nat): Parts {
    var at := Separator(userp);
    if at < |userp| then Parts(lmresp, ntresp, userp[..at], userp[at + 1..], host, flags)
    else Parts(lmresp, ntresp, [], userp, host, flags)
  }

  /** A domain without a backslash, and a user name, come apart again. */
  lemma DomainAndUser(domain: Bytes, user: Bytes, host: Bytes, lmresp: Bytes, ntresp: Bytes, flags: nat)
    requires BACKSLASH !in domain
    ensures PartsFor(domain + [BACKSLASH] + user, host, lmresp, ntresp, flags)
         == Parts(lmresp, ntresp, domain, user, host, flags)
  {
    var userp := domain + [BACKSLASH] + user;
    assert userp[|domain|] == BACKSLASH;
    var at := IndexOf(userp, BACKSLASH);
    assert forall i :: 0 <= i < at ==> userp[..at][i] == userp[i];
    assert forall i :: 0 <= i < |domain| ==> userp[i] == domain[i];
    assert at == |domain|;
    assert userp[..at] == domain && userp[at + 1..] == user;
  }

  /** The same with literal bytes: a backslash, 0x5c, comes first; a slash, 0x2f, counts when there is no
      backslash; and without either there is no domain. */
  lemma DomainSplit(domain: Bytes, user: Bytes, host: Bytes, lmresp: Bytes, ntresp: Bytes, flags: nat)
    ensures 0x5c !in domain ==>
              PartsFor(domain + [0x5c] + user, host, lmresp, ntresp, flags)
              == Parts(lmresp, ntresp, domain, user, host, flags)
    ensures 0x5c !in domain && 0x5c !in user && 0x2f !in domain ==>
              PartsFor(domain + [0x2f] + user, host, lmresp, ntresp, flags)
              == Parts(lmresp, ntresp, domain, user, host, flags)
    ensures 0x5c !in user && 0x2f !in user ==>
              PartsFor(user, host, lmresp, ntresp, flags) == Parts(lmresp, ntresp, [], user, host, flags)
  {
    if 0x5c !in domain {
      DomainAndUser(domain, user, host, lmresp, ntresp, flags);
    }
    if 0x5c !in domain && 0x5c !in user && 0x2f !in domain {
      var userp := domain + [0x2f] + user;
      assert userp[|domain|] == 0x2f && 0x5c !in userp;
      var at := IndexOf(userp, 0x2f);
      assert forall i :: 0 <= i < |domain| ==> userp[i] == domain[i];
      assert at == |domain|;
      assert userp[..at] == domain && userp[at + 1..] == user;
    }
  }

  /** With bit 0 of the flags, names are widened: every byte is followed by a zero. */
  lemma SpelledInMessage(p: Parts, s: Bytes, i: nat)
    requires i < |s|
    ensures p.flags % 2 == 0 ==> Name(p, s) == s
    ensures p.flags % 2 == 1 ==> |Name(p, s)| == 2 * |s| && Name(p, s)[2 * i] == s[i] && Name(p, s)[2 * i + 1] == 0
  {
    WidenedAt(s, i);
  }

  lemma {:induction false} WidenedAt(s: Bytes, i: nat)
    requires i < |s|
    ensures Widened(s)[2 * i] == s[i] && Widened(s)[2 * i + 1] == 0
  {
    if i > 0 {
      WidenedAt(s[1..], i - 1);
      assert Widened(s)[2..] == Widened(s[1..]);
    }
  }

  /** strchr: the position of a byte, or the end. */
  method Find(s: Bytes, c: Byte) returns (at: nat)
    ensures at == IndexOf(s, c)
  {
    at := 0;
    while at < |s| && s[at] != c
      invariant at <= |s| && IndexOf(s, c) == at + IndexOf(s[at..], c)
    {
      assert s[at..][1..] == s[at + 1..];
      at := at + 1;
    }
  }

  method MemCpy(dest: array<Byte>, at: nat, src: Bytes)
    requires at + |src| <= dest.Length
    modifies dest
    ensures dest[..at + |src|] == old(dest[..at]) + src
  {
    for i := 0 to |src|
      invariant dest[..at + i] == old(dest[..at]) + src[..i]
    {
      dest[at + i] := src[i];
    }
    assert src[..|src|] == src;
  }

  /** unicodecpy. */
  method UnicodeCpy(dest: array<Byte>, at: nat, src: Bytes, length: nat)
    requires length == |src| && at + 2 * length <= dest.Length
    modifies dest
    ensures dest[..at + 2 * length] == old(dest[..at]) + Widened(src)
  {
    for i := 0 to length
      invariant dest[..at + 2 * i] == old(dest[..at]) + Widened(src[..i])
    {
      ghost var before := dest[..at + 2 * i];
      dest[at + 2 * i] := src[i];
      dest[at + 2 * i + 1] := 0;
      assert dest[..at + 2 * (i + 1)] == before + [src[i], 0];
      WidenedEnd(src[..i], src[i]);
      Associate(old(dest[..at]), Widened(src[..i]), [src[i], 0]);
      assert src[..i + 1] == src[..i] + [src[i]];
    }
    assert src[..length] == src;
  }

  lemma {:induction false} WidenedEnd(s: Bytes, c: Byte)
    ensures Widened(s + [c]) == Widened(s) + [c, 0]
  {
    if s == [] {
      assert s + [c] == [c];
    } else {
      assert (s + [c])[1..] == s[1..] + [c];
      WidenedEnd(s[1..], c);
    }
  }

  /** A name goes into the buffer as it is, or widened; `length` is its length in the message. */
  method PutName(ntlmbuf: array<Byte>, size: nat, name: Bytes, length: nat, unicode: bool)
    requires length == |Spelled(unicode, name)| && size + length <= ntlmbuf.Length
    modifies ntlmbuf
    ensures ntlmbuf[..size + length] == old(ntlmbuf[..size]) + Spelled(unicode, name)
  {
    if unicode {
      UnicodeCpy(ntlmbuf, size, name, length / 2);
    } else {
      MemCpy(ntlmbuf, size, name);
    }
  }

  /** The header and the responses. snprintf leaves a NUL after the header, which the first response
      overwrites. */
  method PutResponses(p: Parts, domlen: nat, userlen: nat, hostlen: nat, ntlmbuf: array<Byte>) returns (size: nat)
    requires PartsOk(p) && ntlmbuf.Length == NTLM_BUFSIZE
    requires domlen == |Name(p, p.domain)| && userlen == |Name(p, p.user)| && hostlen == |Name(p, p.host)|
    modifies ntlmbuf
    ensures size == DomainOffset(p) && ntlmbuf[..size] == Header(p) + p.lmresp + p.ntresp
  {
    var lmrespoff := HEADER;
    var ntrespoff := lmrespoff + RESPONSE;
    var domoff := if p.ntresp == [] then lmrespoff + RESPONSE else ntrespoff + RESPONSE;
    var useroff := domoff + domlen;
    var hostoff := useroff + userlen;
    var header := Layout(
      SecurityBuffer(RESPONSE, lmrespoff),
      if p.ntresp == [] then ZEROS else SecurityBuffer(RESPONSE, ntrespoff),
      SecurityBuffer(domlen, domoff),
      SecurityBuffer(userlen, useroff),
      SecurityBuffer(hostlen, hostoff),
      ZEROS,
      LongQuartet(p.flags));
    assert header == Header(p);
    MemCpy(ntlmbuf, 0, header + [0]);
    size := |header|;
    assert ntlmbuf[..size] == ntlmbuf[..size + 1][..size] == header;
    if size < NTLM_BUFSIZE - RESPONSE {
      MemCpy(ntlmbuf, size, p.lmresp);
      size := size + RESPONSE;
    }
    if p.ntresp != [] && size < NTLM_BUFSIZE - RESPONSE {
      MemCpy(ntlmbuf, size, p.ntresp);
      size := size + RESPONSE;
    }
  }

  method PutNames(p: Parts, unicode: bool, domlen: nat, userlen: nat, hostlen: nat, ntlmbuf: array<Byte>, start: nat)
      returns (size: nat)
    requires domlen == |Spelled(unicode, p.domain)| && userlen == |Spelled(unicode, p.user)|
    requires hostlen == |Spelled(unicode, p.host)|
    requires start + userlen + domlen + hostlen < ntlmbuf.Length
    modifies ntlmbuf
    ensures size == start + domlen + userlen + hostlen
    ensures ntlmbuf[..size]
         == old(ntlmbuf[..start]) + Spelled(unicode, p.domain) + Spelled(unicode, p.user) + Spelled(unicode, p.host)
  {
    size := start;
    PutName(ntlmbuf, size, p.domain, domlen, unicode);
    size := size + domlen;
    PutName(ntlmbuf, size, p.user, userlen, unicode);
    size := size + userlen;
    PutName(ntlmbuf, size, p.host, hostlen, unicode);
    size := size + hostlen;
  }

  method SplitUser(userp: Bytes) returns (domain: Bytes, user: Bytes)
    ensures forall host, lmresp, ntresp, flags ::
      PartsFor(userp, host, lmresp, ntresp, flags) == Parts(lmresp, ntresp, domain, user, host, flags)
  {
    domain, user := [], userp;
    var at := Find(userp, BACKSLASH);
    if at == |userp| {
      at := Find(userp, SLASH);
    }
    if at < |userp| {
      domain, user := userp[..at], userp[at + 1..];
    }
  }

  datatype Code = Ok | OutOfMemory

  /** The binary message; `size` is 0 when it does not fit. */
  method Build(p: Parts, ntlmbuf: array<Byte>) returns (size: nat)
    requires PartsOk(p) && ntlmbuf.Length == NTLM_BUFSIZE
    modifies ntlmbuf
    ensures size == 0 <==> TooBig(p)
    ensures size > 0 ==> size < NTLM_BUFSIZE && ntlmbuf[..size] == Message(p)
  {
    var unicode := p.flags % 2 == 1;
    var domlen, userlen, hostlen := |p.domain|, |p.user|, |p.host|;
    if unicode {
      domlen, userlen, hostlen := domlen * 2, userlen * 2, hostlen * 2;
    }
    size := PutResponses(p, domlen, userlen, hostlen, ntlmbuf);
    if size + userlen + domlen + hostlen >= NTLM_BUFSIZE {
      return 0;
    }
    size := PutNames(p, unicode, domlen, userlen, hostlen, ntlmbuf, size);
  }

  /** Curl_ntlm_create_type3_message, given the responses that the hash functions compute. It fails
      exactly when the names do not fit the buffer; else the text it returns decodes to a
      self-describing message of the user, the domain in front of the user, and the host. */
  method CreateType3Message(userp: Bytes, hostname: Option<Bytes>, lmresp: Bytes, ntresp: Bytes, flags: nat)
    returns (code: Code, text: array?<char>, outlen: nat)
    requires PartsOk(Parts(lmresp, ntresp, [], [], [], flags))
    requires hostname.Some? ==> |hostname.value| <= HOSTNAME_MAX
    ensures var p := PartsFor(userp, if hostname.Some? then hostname.value else [], lmresp, ntresp, flags);
      && (code.Ok? <==> !TooBig(p))
      && (code.Ok? ==> text != null && outlen < text.Length && text[..outlen] == Encoded(Message(p)))
  {
    var domain, user := SplitUser(userp);
    var host: Bytes := [];
    if hostname.Some? {
      host := hostname.value;
    }
    var p := Parts(lmresp, ntresp, domain, user, host, flags);
    var ntlmbuf := new Byte[NTLM_BUFSIZE](_ => 0);
    var size := Build(p, ntlmbuf);
    if size == 0 {
      return OutOfMemory, null, 0;
    }
    var message := ntlmbuf[..size];
    assert message[..size] == message;
    text, outlen := Base64Encode(message, size);
    code := Ok;
  }
}
