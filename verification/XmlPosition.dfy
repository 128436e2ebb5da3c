/**
 TiXmlParsingData: the row and column of the place the parser has reached. Positions are stamped
 incrementally, from the last stamp on; the pointer can run past the position that was asked for.
 */
module XmlPosition {
  import opened XmlText
  import opened XmlEscape

  datatype Cursor = Cursor(row: int, col: nat)

  /** The text after one character: a line break of two bytes counts as one character, and so
      does a multi-byte character in UTF-8. */
  function Advance(p: string, enc: Encoding): (q: string)
    requires p != "" && WellFormed(p, enc)
    ensures |q| < |p| && WellFormed(q, enc)
  {
    if p[0] == '\r' then
      if |p| > 1 && p[1] == '\n' then (AsciiStep(p, enc); AsciiStep(p[1..], enc); p[2..])
      else (AsciiStep(p, enc); p[1..])
    else if p[0] == '\n' then
      if |p| > 1 && p[1] == '\r' then (AsciiStep(p, enc); AsciiStep(p[1..], enc); p[2..])
      else (AsciiStep(p, enc); p[1..])
    else if enc.Utf8? then p[Utf8Step(p[0])..]
    else p[1..]
  }

  lemma AsciiStep(p: string, enc: Encoding)
    requires p != "" && p[0] as int < 0x80 && WellFormed(p, enc)
    ensures WellFormed(p[1..], enc)
  {
  }

  /** Where that character leaves the cursor. Byte order marks have no width. */
  function Move(c: Cursor, p: string, tabsize: nat, enc: Encoding): Cursor
    requires p != "" && tabsize > 0
  {
    if p[0] == '\r' || p[0] == '\n' then Cursor(c.row + 1, 0)
    else if p[0] == '\t' then Cursor(c.row, TabStop(c.col, tabsize))
    else if enc.Utf8? && IsMark(p) then c
    else Cursor(c.row, c.col + 1)
  }

  function TabStop(col: nat, tabsize: nat): nat
    requires tabsize > 0
  {
    (col / tabsize + 1) * tabsize
  }

  /** One scan, from `p` until no more than `left` bytes are left. */
  function Scan(p: string, c: Cursor, left: nat, tabsize: nat, enc: Encoding): (r: (string, Cursor))
    requires WellFormed(p, enc) && tabsize > 0
    ensures WellFormed(r.0, enc) && |r.0| <= |p|
    decreases |p|
  {
    if |p| <= left then (p, c)
    else Scan(Advance(p, enc), Move(c, p, tabsize, enc), left, tabsize, enc)
  }

  class ParsingData {
    var cursor: Cursor
    var stamp: string
    const tabsize: nat

    constructor (start: string, tabsize: nat, row: int, col: nat)
      ensures stamp == start && this.tabsize == tabsize && cursor == Cursor(row, col)
    {
      stamp, this.tabsize, cursor := start, tabsize, Cursor(row, col);
    }

    /** Stamp; `now` is a place in the same text, before or after the last stamp. */
    method Stamp(now: string, enc: Encoding)
      requires WellFormed(stamp, enc)
      modifies this
      ensures tabsize == 0 ==> stamp == old(stamp) && cursor == old(cursor)
      ensures tabsize > 0 ==> (stamp, cursor) == Scan(old(stamp), old(cursor), |now|, tabsize, enc)
    {
      if tabsize < 1 { return; }
      var row, col, p := cursor.row, cursor.col, stamp;
      while |p| > |now|
        invariant WellFormed(p, enc)
        invariant Scan(stamp, cursor, |now|, tabsize, enc) == Scan(p, Cursor(row, col), |now|, tabsize, enc)
        decreases |p|
      {
        ghost var after := Advance(p, enc);
        match p[0] {
          case '\r' =>
            row, col, p := row + 1, 0, p[1..];
            if p != "" && p[0] == '\n' { p := p[1..]; }
          case '\n' =>
            row, col, p := row + 1, 0, p[1..];
            if p != "" && p[0] == '\r' { p := p[1..]; }
          case '\t' =>
            p := p[1..];
            col := (col / tabsize + 1) * tabsize;
          case _ =>
            if p[0] as int == 0xEF && enc.Utf8? {
              if !IsMark(p) { col := col + 1; }
              p := p[3..];
            } else if enc.Utf8? {
              p := p[Utf8Step(p[0])..];
              col := col + 1;
            } else {
              p := p[1..];
              col := col + 1;
            }
        }
        assert p == after;
      }
      cursor, stamp := Cursor(row, col), p;
    }
  }

  /** Two scans in a row are one scan to the further of the two places, even though the first one
      may already have run past the second place. */
  lemma {:induction false} ScanTwice(p: string, c: Cursor, left: nat, then': nat, tabsize: nat, enc: Encoding)
    requires WellFormed(p, enc) && tabsize > 0
    ensures var r := Scan(p, c, left, tabsize, enc);
            Scan(r.0, r.1, then', tabsize, enc) == Scan(p, c, if left < then' then left else then', tabsize, enc)
    decreases |p|
  {
    if |p| > left {
      ScanTwice(Advance(p, enc), Move(c, p, tabsize, enc), left, then', tabsize, enc);
    }
  }

  /** The state after any number of stamps, in the order given. */
  function Stamps(p: string, c: Cursor, lefts: seq<nat>, tabsize: nat, enc: Encoding): (r: (string, Cursor))
    requires WellFormed(p, enc) && tabsize > 0
    ensures WellFormed(r.0, enc)
    decreases |lefts|
  {
    if lefts == [] then (p, c)
    else var r := Scan(p, c, lefts[0], tabsize, enc); Stamps(r.0, r.1, lefts[1..], tabsize, enc)
  }

  /** The furthest place of a run: the fewest bytes left. */
  function Furthest(start: nat, lefts: seq<nat>): nat {
    if lefts == [] then start
    else Furthest(if lefts[0] < start then lefts[0] else start, lefts[1..])
  }

  /** Stamping at any places in any order gives the row, the column and the stamp of a single scan
      from the start to the furthest of them. */
  lemma IncrementalIsOneScan(p: string, c: Cursor, lefts: seq<nat>, tabsize: nat, enc: Encoding)
    requires WellFormed(p, enc) && tabsize > 0
    ensures Stamps(p, c, lefts, tabsize, enc) == Scan(p, c, Furthest(|p|, lefts), tabsize, enc)
  {
    StampsFrom(p, c, |p|, lefts, tabsize, enc);
  }

  lemma {:induction false} StampsFrom(p: string, c: Cursor, far: nat, lefts: seq<nat>, tabsize: nat, enc: Encoding)
    requires WellFormed(p, enc) && tabsize > 0
    ensures var r := Scan(p, c, far, tabsize, enc);
            Stamps(r.0, r.1, lefts, tabsize, enc) == Scan(p, c, Furthest(far, lefts), tabsize, enc)
    decreases |lefts|
  {
    if lefts != [] {
      ScanTwice(p, c, far, lefts[0], tabsize, enc);
      StampsFrom(p, c, if lefts[0] < far then lefts[0] else far, lefts[1..], tabsize, enc);
    }
  }

  /** The overshoot is less than one character: the last character that was scanned starts before
      the place that was asked for. */
  lemma {:induction false} LessThanOneCharacter(p: string, c: Cursor, left: nat, tabsize: nat, enc: Encoding)
    requires WellFormed(p, enc) && tabsize > 0 && left <= |p|
    ensures var r := Scan(p, c, left, tabsize, enc); |r.0| <= left < |r.0| + 4
    decreases |p|
  {
    if |p| > left {
      var q := Advance(p, enc);
      if |q| > left { LessThanOneCharacter(q, Move(c, p, tabsize, enc), left, tabsize, enc); }
    }
  }

  // ---------------------------------------------------------------- which row and which column

  predicate LineEnd(c: char) { c == '\r' || c == '\n' }

  /** The line ends of a text, byte by byte: a carriage return and a newline in a row are one. */
  function LineEnds(p: string): nat {
    if p == "" then 0
    else if !LineEnd(p[0]) then LineEnds(p[1..])
    else if |p| > 1 && LineEnd(p[1]) && p[1] != p[0] then 1 + LineEnds(p[2..])
    else 1 + LineEnds(p[1..])
  }

  lemma {:induction false} NoLineEnds(p: string, n: nat)
    requires n <= |p| && forall i :: 0 <= i < n ==> !LineEnd(p[i])
    ensures LineEnds(p) == LineEnds(p[n..])
  {
    if n > 0 {
      NoLineEnds(p[1..], n - 1);
      assert p[1..][n - 1..] == p[n..];
    }
  }

  /** The row goes up by the number of line ends between the two places. */
  lemma {:induction false} RowCounts(p: string, c: Cursor, left: nat, tabsize: nat, enc: Encoding)
    requires WellFormed(p, enc) && tabsize > 0
    ensures var r := Scan(p, c, left, tabsize, enc); r.1.row + LineEnds(r.0) == c.row + LineEnds(p)
    decreases |p|
  {
    if |p| > left {
      RowCounts(Advance(p, enc), Move(c, p, tabsize, enc), left, tabsize, enc);
      if !LineEnd(p[0]) {
        NoLineEnds(p, |p| - |Advance(p, enc)|);
      }
    }
  }

  type Character = t: string | t != "" witness " "

  /** The characters of a text: line ends of one or two bytes, tabs, and the others. */
  function Characters(p: string, enc: Encoding): seq<Character>
    requires WellFormed(p, enc)
    decreases |p|
  {
    if p == "" then [] else [p[..|p| - |Advance(p, enc)|]] + Characters(Advance(p, enc), enc)
  }

  function Together(ts: seq<Character>): string {
    if ts == [] then "" else ts[0] + Together(ts[1..])
  }

  lemma AdvanceBy(p: string, enc: Encoding) returns (n: nat)
    requires p != "" && WellFormed(p, enc)
    ensures 0 < n <= |p| && Advance(p, enc) == p[n..]
    ensures enc.Utf8? && p[0] as int == 0xEF ==> n == 3
  {
    n := |p| - |Advance(p, enc)|;
  }

  lemma {:induction false} CharactersTogether(p: string, enc: Encoding)
    requires WellFormed(p, enc)
    ensures Together(Characters(p, enc)) == p
    decreases |p|
  {
    if p != "" {
      var n := AdvanceBy(p, enc);
      CharactersTogether(p[n..], enc);
      assert p == p[..n] + p[n..];
    }
  }

  /** Without UTF-8 every byte of a line is a character, and so is every ASCII byte in UTF-8. */
  lemma {:induction false} BytesAreCharacters(p: string, enc: Encoding)
    requires WellFormed(p, enc) && forall i :: 0 <= i < |p| ==> !LineEnd(p[i]) && (enc.Utf8? ==> p[i] as int < 0x80)
    ensures |Characters(p, enc)| == |p|
    decreases |p|
  {
    if p != "" {
      assert Advance(p, enc) == p[1..];
      BytesAreCharacters(p[1..], enc);
    }
  }

  function Moves(ts: seq<Character>, c: Cursor, tabsize: nat, enc: Encoding): Cursor
    requires tabsize > 0
  {
    if ts == [] then c else Moves(ts[1..], Move(c, ts[0], tabsize, enc), tabsize, enc)
  }

  lemma MoveByCharacter(p: string, n: nat, c: Cursor, tabsize: nat, enc: Encoding)
    requires 0 < n <= |p| && tabsize > 0 && (enc.Utf8? && p[0] as int == 0xEF ==> n == 3)
    ensures Move(c, p, tabsize, enc) == Move(c, p[..n], tabsize, enc)
  {
  }

  lemma {:induction false} ScanIsMoves(p: string, c: Cursor, tabsize: nat, enc: Encoding)
    requires WellFormed(p, enc) && tabsize > 0
    ensures Scan(p, c, 0, tabsize, enc) == ("", Moves(Characters(p, enc), c, tabsize, enc))
    decreases |p|
  {
    if p != "" {
      var n := AdvanceBy(p, enc);
      MoveByCharacter(p, n, c, tabsize, enc);
      ScanIsMoves(p[n..], Move(c, p, tabsize, enc), tabsize, enc);
    }
  }

  /** A character that ends no line and is no tab. */
  predicate Flat(t: Character) { !LineEnd(t[0]) && t[0] != '\t' }

  /** How many characters are not marks: these have no width. */
  function Width(ts: seq<Character>, enc: Encoding): nat {
    if ts == [] then 0 else (if enc.Utf8? && IsMark(ts[0]) then 0 else 1) + Width(ts[1..], enc)
  }

  /** Along a stretch without line ends and tabs the column goes up by the width. */
  lemma {:induction false} FlatMoves(ts: seq<Character>, c: Cursor, tabsize: nat, enc: Encoding)
    requires tabsize > 0 && forall i :: 0 <= i < |ts| ==> Flat(ts[i])
    ensures Moves(ts, c, tabsize, enc) == Cursor(c.row, c.col + Width(ts, enc))
  {
    if ts != [] {
      FlatMoves(ts[1..], Move(c, ts[0], tabsize, enc), tabsize, enc);
    }
  }

  lemma {:induction false} LastMoves(ts: seq<Character>, i: nat, c: Cursor, tabsize: nat, enc: Encoding)
    requires tabsize > 0 && i < |ts| && LineEnd(ts[i][0]) && forall j :: i < j < |ts| ==> Flat(ts[j])
    ensures Moves(ts, c, tabsize, enc).col == Width(ts[i + 1..], enc)
  {
    if i == 0 {
      FlatMoves(ts[1..], Cursor(c.row + 1, 0), tabsize, enc);
    } else {
      LastMoves(ts[1..], i - 1, Move(c, ts[0], tabsize, enc), tabsize, enc);
      assert ts[1..][i..] == ts[i + 1..];
    }
  }

  lemma RowAtEnd(p: string, c: Cursor, tabsize: nat, enc: Encoding)
    requires WellFormed(p, enc) && tabsize > 0
    ensures Scan(p, c, 0, tabsize, enc).1.row == c.row + LineEnds(p)
  {
    RowCounts(p, c, 0, tabsize, enc);
    assert Scan(p, c, 0, tabsize, enc).0 == "" by { LessThanOneCharacter(p, c, 0, tabsize, enc); }
  }

  /** At the end of a text the row counts its line ends, and the column the characters behind the
      last one that have a width. */
  lemma LastLine(p: string, i: nat, c: Cursor, tabsize: nat, enc: Encoding)
    requires WellFormed(p, enc) && tabsize > 0
    requires var ts := Characters(p, enc);
      i < |ts| && LineEnd(ts[i][0]) && forall j :: i < j < |ts| ==> Flat(ts[j])
    ensures Scan(p, c, 0, tabsize, enc)
         == ("", Cursor(c.row + LineEnds(p), Width(Characters(p, enc)[i + 1..], enc)))
  {
    ScanIsMoves(p, c, tabsize, enc);
    RowAtEnd(p, c, tabsize, enc);
    LastMoves(Characters(p, enc), i, c, tabsize, enc);
  }

  lemma {:induction false} TabMoves(ts: seq<Character>, i: nat, c: Cursor, tabsize: nat, enc: Encoding)
    requires tabsize > 0 && i < |ts| && ts[i] == "\t" && forall j :: 0 <= j < |ts| && j != i ==> Flat(ts[j])
    ensures Moves(ts, c, tabsize, enc)
         == Cursor(c.row, TabStop(c.col + Width(ts[..i], enc), tabsize) + Width(ts[i + 1..], enc))
  {
    if i == 0 {
      FlatMoves(ts[1..], Cursor(c.row, TabStop(c.col, tabsize)), tabsize, enc);
    } else {
      TabMoves(ts[1..], i - 1, Move(c, ts[0], tabsize, enc), tabsize, enc);
      assert ts[1..][i..] == ts[i + 1..] && ts[..i][1..] == ts[1..][..i - 1];
    }
  }

  /** A tab leads to the next multiple of its size. */
  lemma TabColumn(p: string, i: nat, c: Cursor, tabsize: nat, enc: Encoding) returns (stop: nat, k: nat)
    requires WellFormed(p, enc) && tabsize > 0
    requires var ts := Characters(p, enc);
      i < |ts| && ts[i] == "\t" && forall j :: 0 <= j < |ts| && j != i ==> Flat(ts[j])
    ensures Scan(p, c, 0, tabsize, enc) == ("", Cursor(c.row, stop + Width(Characters(p, enc)[i + 1..], enc)))
    ensures var col := c.col + Width(Characters(p, enc)[..i], enc);
      stop == k * tabsize && col < stop <= col + tabsize
  {
    ScanIsMoves(p, c, tabsize, enc);
    stop, k := TabBetween(Characters(p, enc), i, c, tabsize, enc);
  }

  lemma TabBetween(ts: seq<Character>, i: nat, c: Cursor, tabsize: nat, enc: Encoding) returns (stop: nat, k: nat)
    requires tabsize > 0 && i < |ts| && ts[i] == "\t" && forall j :: 0 <= j < |ts| && j != i ==> Flat(ts[j])
    ensures Moves(ts, c, tabsize, enc) == Cursor(c.row, stop + Width(ts[i + 1..], enc))
    ensures var col := c.col + Width(ts[..i], enc); stop == k * tabsize && col < stop <= col + tabsize
  {
    TabMoves(ts, i, c, tabsize, enc);
    var col := c.col + Width(ts[..i], enc);
    stop := TabStop(col, tabsize);
    k := NextStop(col, tabsize);
  }

  lemma NextStop(col: nat, tabsize: nat) returns (k: nat)
    requires tabsize > 0
    ensures TabStop(col, tabsize) == k * tabsize && col < k * tabsize <= col + tabsize
  {
    k := col / tabsize + 1;
    assert col == tabsize * (col / tabsize) + col % tabsize;
    assert k * tabsize == tabsize * (col / tabsize) + tabsize;
  }
}
