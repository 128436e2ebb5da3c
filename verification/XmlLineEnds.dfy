/**
 End-of-line handling in TiXmlDocument::LoadFile: blocks are copied lazily, a whole stretch of the
 buffer at a time.
 */
module XmlLineEnds {
  import opened Sequences

  /** Section 2.11 of XML 1.0: `\r\n`, and any `\r` that is not followed by `\n`, become `\n`. */
  function Normalized(t: string): (r: string)
    ensures |r| <= |t|
  {
    if t == "" then ""
    else if t[0] == '\r' && |t| > 1 && t[1] == '\n' then "\n" + Normalized(t[2..])
    else (if t[0] == '\r' then "\n" else [t[0]]) + Normalized(t[1..])
  }

  /** The loop of LoadFile. `lastPos` is where the stretch that is not yet copied starts; `out` is
      what will have been written once it is copied. */
  method NormalizeLineEnds(buf: string) returns (data: string)
    ensures data == Normalized(buf)
  {
    data := "";
    var lastPos, p := buf, buf;
    ghost var out := "";
    while p != ""
      invariant Ahead(lastPos, p) && data + Pending(lastPos, p) == out
      invariant Normalized(buf) == out + Normalized(p)
      decreases |p|
    {
      ghost var before := out;
      TakeOneMore(lastPos, p);
      if p[0] == '\n' {
        Associate(data, Pending(lastPos, p), "\n");
        Associate(before, "\n", Normalized(p[1..]));
        data := data + lastPos[..|lastPos| - |p| + 1];
        p := p[1..];
        lastPos := p;
        out := data;
      } else if p[0] == '\r' {
        if |p| < |lastPos| {
          data := data + lastPos[..|lastPos| - |p|];
        }
        assert data == before;
        data := data + "\n";
        p := if |p| > 1 && p[1] == '\n' then p[2..] else p[1..];
        lastPos := p;
        out := data;
        Associate(before, "\n", Normalized(p));
      } else {
        out := out + [p[0]];
        Associate(before, [p[0]], Normalized(p[1..]));
        Associate(data, Pending(lastPos, p), [p[0]]);
        p := p[1..];
      }
    }
    if lastPos != "" {
      data := data + lastPos;
    }
  }

  /** `p` is further on in the text at `lastPos`. */
  ghost predicate Ahead(lastPos: string, p: string) {
    |p| <= |lastPos| && lastPos[|lastPos| - |p|..] == p
  }

  ghost function Pending(lastPos: string, p: string): string
    requires |p| <= |lastPos|
  {
    lastPos[..|lastPos| - |p|]
  }

  lemma TakeOneMore(lastPos: string, p: string)
    requires Ahead(lastPos, p) && p != ""
    ensures lastPos[..|lastPos| - |p| + 1] == Pending(lastPos, p) + [p[0]]
    ensures Ahead(lastPos, p[1..])
  {
  }

  /** No carriage return is left. */
  lemma {:induction false} NoCarriageReturn(t: string)
    ensures '\r' !in Normalized(t)
  {
    if t != "" {
      if t[0] == '\r' && |t| > 1 && t[1] == '\n' {
        NoCarriageReturn(t[2..]);
      } else {
        NoCarriageReturn(t[1..]);
      }
    }
  }

  /** Exactly the texts without a carriage return are left alone; so a second pass changes nothing. */
  lemma {:induction false} UnchangedWithout(t: string)
    ensures Normalized(t) == t <==> '\r' !in t
    ensures Normalized(Normalized(t)) == Normalized(t)
  {
    NoCarriageReturn(t);
    if '\r' !in t { Unchanged(t); }
    Unchanged(Normalized(t));
  }

  lemma {:induction false} Unchanged(t: string)
    requires '\r' !in t
    ensures Normalized(t) == t
  {
    if t != "" {
      assert forall i :: 0 <= i < |t| - 1 ==> t[1..][i] == t[i + 1];
      Unchanged(t[1..]);
      assert t == [t[0]] + t[1..];
    }
  }

  /** The lines of the text, whatever ended them, are what is kept: normalising is joining them
      with single line feeds. */
  function Lines(t: string): (ls: seq<string>)
    ensures ls != []
  {
    if t == "" then [""]
    else if t[0] == '\r' && |t| > 1 && t[1] == '\n' then [""] + Lines(t[2..])
    else if t[0] == '\r' || t[0] == '\n' then [""] + Lines(t[1..])
    else var ls := Lines(t[1..]); [[t[0]] + ls[0]] + ls[1..]
  }

  function Join(ls: seq<string>): string
    requires ls != []
  {
    if |ls| == 1 then ls[0] else ls[0] + ("\n" + Join(ls[1..]))
  }

  lemma {:induction false} NormalizedJoinsLines(t: string)
    ensures Normalized(t) == Join(Lines(t))
  {
    if t != "" {
      if t[0] == '\r' && |t| > 1 && t[1] == '\n' {
        NormalizedJoinsLines(t[2..]);
        assert ([""] + Lines(t[2..]))[1..] == Lines(t[2..]);
      } else if t[0] == '\r' || t[0] == '\n' {
        NormalizedJoinsLines(t[1..]);
        assert ([""] + Lines(t[1..]))[1..] == Lines(t[1..]);
      } else {
        NormalizedJoinsLines(t[1..]);
        var ls := Lines(t[1..]);
        assert ([[t[0]] + ls[0]] + ls[1..])[1..] == ls[1..];
        if |ls| > 1 { Associate([t[0]], ls[0], "\n" + Join(ls[1..])); }
      }
    }
  }
}
