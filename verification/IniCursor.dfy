/** Where a byte-driven reading of a text stands, and what the grammar says is still to come. */
module IniCursor {
  import opened IniGrammar

  datatype Status = KeyOrSection | InSection | InValue | Comment

  datatype Cursor = Cursor(status: Status, pos: nat, start1: nat, end1: nat, start2: nat, col: nat)

  const ORIGIN := Cursor(KeyOrSection, 0, 0, 0, 0, 1)

  /** The end of the line around `i`. */
  function LineEnd(text: string, i: nat): (e: nat)
    requires i <= |text|
    ensures i <= e <= |text|
    ensures forall j :: i <= j < e ==> text[j] != '\n'
    ensures e < |text| ==> text[e] == '\n'
    decreases |text| - i
  {
    if i == |text| || text[i] == '\n' then i else LineEnd(text, i + 1)
  }

  ghost predicate Free(text: string, lo: nat, hi: nat, stop: set<char>) {
    lo <= hi <= |text| && forall j :: lo <= j < hi ==> text[j] !in stop
  }

  /** The recorded indices delimit what the status says has been read of the line. */
  ghost predicate Placed(text: string, c: Cursor) {
    && 1 <= c.col <= c.pos + 1 && c.pos <= |text|
    && Free(text, c.pos + 1 - c.col, c.pos, {'\n'})
    && (c.col <= c.pos ==> text[c.pos - c.col] == '\n')
    && match c.status
       case KeyOrSection => Free(text, c.start1, c.pos, {'[', '=', '\n'}) && (c.col == 1 ==> c.start1 == c.pos)
       case InSection => Free(text, c.start1, c.pos, {']', '\n'}) && c.col > 1
       case InValue => c.start1 <= c.end1 < c.start2 && c.start2 == c.end1 + 1
                       && Free(text, c.start2, c.pos, {'\n'}) && c.col > 1
       case Comment => c.col > 1
  }

  /** What the grammar makes of the current line from here. */
  ghost function LineRest(text: string, c: Cursor): Parsed
    requires Placed(text, c)
  {
    var e := LineEnd(text, c.pos);
    match c.status
    case KeyOrSection => if c.col == 1 then Line(text[c.pos..e]) else Pieces(text[c.start1..e])
    case InSection => Section(text[c.start1..e])
    case InValue => Entry(text[c.start1..c.end1], text[c.start2..e])
    case Comment => NOTHING
  }

  /** What the grammar makes of the lines after the one that ends at `e`. */
  ghost function After(text: string, e: nat): Parsed
    requires e <= |text|
  {
    if e == |text| then NOTHING else Document(text[e + 1..])
  }

  ghost function Rest(text: string, c: Cursor): Parsed
    requires Placed(text, c)
  {
    Then(LineRest(text, c), After(text, LineEnd(text, c.pos)))
  }

  lemma FirstLine(text: string, i: nat)
    requires i <= |text|
    ensures var e := LineEnd(text, i); Document(text[i..]) == Then(Line(text[i..e]), After(text, e))
  {
    hide Line, Lines, AllLines, Document;
    var e := LineEnd(text, i);
    OneLine(text[i..e]);
    if e == |text| {
      assert text[i..] == text[i..e];
      ThenNothing(Line(text[i..e]));
    } else {
      assert text[i..] == text[i..e] + "\n" + text[e + 1..];
      DocumentSplit(text[i..e], text[e + 1..]);
    }
  }

  /** Nothing read: everything is to come. */
  lemma AtOrigin(text: string)
    ensures Placed(text, ORIGIN) && Rest(text, ORIGIN) == Document(text)
  {
    FirstLine(text, 0);
    assert text[0..] == text;
  }

  /** A prefix without stop characters delays the scan. */
  lemma ScanFrom(text: string, lo: nat, hi: nat, e: nat, stop: set<char>)
    requires Free(text, lo, hi, stop) && hi < e <= |text| && text[hi] in stop
    ensures var s := text[lo..e];
            && Until(s, stop) == hi - lo && hi - lo < |s| && s[hi - lo] == text[hi]
            && s[..hi - lo] == text[lo..hi] && s[hi - lo + 1..] == text[hi + 1..e]
  {
    UntilIs(text[lo..e], stop, hi - lo);
  }

  lemma ScanNothing(text: string, lo: nat, e: nat, stop: set<char>)
    requires Free(text, lo, e, stop)
    ensures Until(text[lo..e], stop) == |text[lo..e]|
  {
    UntilIs(text[lo..e], stop, e - lo);
  }

  ghost function Next(c: Cursor): Cursor {
    c.(pos := c.pos + 1, col := c.col + 1)
  }

  // ----- one byte at a time -----

  /** A byte the status pays no attention to. */
  lemma SkipByte(text: string, c: Cursor)
    requires Placed(text, c) && c.pos < |text| && text[c.pos] != '\n'
    requires c.status.InSection? ==> text[c.pos] != ']'
    requires c.status.KeyOrSection? ==> text[c.pos] !in {'[', '='} && (c.col == 1 ==> text[c.pos] != ';')
    ensures Placed(text, Next(c)) && Rest(text, Next(c)) == Rest(text, c)
  {
    hide Pieces, Section, Entry, Document, Then, Trim;
    assert LineEnd(text, c.pos) == LineEnd(text, c.pos + 1);
    if c.col == 1 {
      assert text[c.pos..LineEnd(text, c.pos)][0] == text[c.pos];
    }
  }

  /** In column 1 no piece of the line has begun. */
  lemma LineStartStatus(text: string, c: Cursor)
    requires Placed(text, c) && c.col == 1
    ensures c.status.KeyOrSection? && c.start1 == c.pos
  {}

  /** The recorded indices never run past the position. */
  lemma StatusBounds(text: string, c: Cursor)
    requires Placed(text, c)
    ensures c.pos <= |text|
    ensures c.status.InSection? ==> c.start1 <= c.pos
    ensures c.status.InValue? ==> c.start1 <= c.end1 < c.start2 <= c.pos
  {}

  lemma BeginComment(text: string, c: Cursor)
    requires Placed(text, c) && c.pos < |text| && text[c.pos] == ';' && c.col == 1 && c.status.KeyOrSection?
    ensures var d := Next(c).(status := Comment); Placed(text, d) && Rest(text, d) == Rest(text, c)
  {
    assert LineEnd(text, c.pos) == LineEnd(text, c.pos + 1);
    assert text[c.pos..LineEnd(text, c.pos)][0] == ';';
  }

  /** Before its first piece a line that is no comment is a line of pieces. */
  lemma PiecesAhead(text: string, c: Cursor)
    requires Placed(text, c) && c.pos < |text| && text[c.pos] !in {'\n', ';'} && c.status.KeyOrSection?
    ensures LineEnd(text, c.pos) == LineEnd(text, c.pos + 1)
    ensures LineRest(text, c) == Pieces(text[c.start1..LineEnd(text, c.pos)])
  {
    hide Pieces;
    if c.col == 1 { assert text[c.pos..LineEnd(text, c.pos)][0] == text[c.pos]; }
  }

  lemma NothingBefore(text: string, c: Cursor)
    requires Placed(text, c) && c.pos < |text| && text[c.pos] in {'[', '='} && c.status.KeyOrSection?
    ensures Free(text, c.start1, c.pos, {'[', '='}) && c.pos < LineEnd(text, c.pos)
  {}

  /** The rest of a line whose next byte ends the text before a piece. */
  lemma PieceAt(text: string, c: Cursor)
    requires Placed(text, c) && c.pos < |text| && text[c.pos] in {'[', '='} && c.status.KeyOrSection?
    ensures var e := LineEnd(text, c.pos + 1);
            && e == LineEnd(text, c.pos)
            && LineRest(text, c) == if text[c.pos] == '=' then Entry(text[c.start1..c.pos], text[c.pos + 1..e])
                                    else Section(text[c.pos + 1..e])
  {
    hide Entry, Section, LineRest, Placed;
    PiecesAhead(text, c);
    NothingBefore(text, c);
    ScanFrom(text, c.start1, c.pos, LineEnd(text, c.pos), {'[', '='});
  }

  lemma BeginSection(text: string, c: Cursor)
    requires Placed(text, c) && c.pos < |text| && text[c.pos] == '[' && c.status.KeyOrSection?
    ensures var d := Next(c).(status := InSection, start1 := c.pos + 1);
            Placed(text, d) && Rest(text, d) == Rest(text, c)
  {
    PieceAt(text, c);
  }

  lemma BeginValue(text: string, c: Cursor)
    requires Placed(text, c) && c.pos < |text| && text[c.pos] == '=' && c.status.KeyOrSection?
    ensures var d := Next(c).(status := InValue, end1 := c.pos, start2 := c.pos + 1);
            Placed(text, d) && Rest(text, d) == Rest(text, c)
  {
    PieceAt(text, c);
  }

  /** Behind the ']' the next piece of the line begins. */
  ghost function Closed(c: Cursor): Cursor {
    Next(c).(status := KeyOrSection, start1 := c.pos + 1)
  }

  lemma ClosedIsPlaced(text: string, c: Cursor)
    requires Placed(text, c) && c.pos < |text| && text[c.pos] == ']' && c.status.InSection?
    ensures Placed(text, Closed(c)) && LineEnd(text, c.pos) == LineEnd(text, c.pos + 1)
    ensures LineRest(text, Closed(c)) == Pieces(text[c.pos + 1..LineEnd(text, c.pos)])
  {
    hide Pieces, Line, Section, Entry;
  }

  lemma InsideSection(text: string, c: Cursor)
    requires Placed(text, c) && c.pos < |text| && text[c.pos] == ']' && c.status.InSection?
    ensures Free(text, c.start1, c.pos, {']'}) && c.pos < LineEnd(text, c.pos)
    ensures LineRest(text, c) == Section(text[c.start1..LineEnd(text, c.pos)])
  {
    hide Section, Line, Pieces, Entry;
  }

  lemma SectionAt(text: string, c: Cursor)
    requires Placed(text, c) && c.pos < |text| && text[c.pos] == ']' && c.status.InSection?
    ensures var name, e := Trim(text[c.start1..c.pos]), LineEnd(text, c.pos);
            LineRest(text, c) == if name == "" then MALFORMED
                                 else Then(Parsed([Open(name)], true), Pieces(text[c.pos + 1..e]))
  {
    hide Pieces, Trim, LineRest, Placed;
    InsideSection(text, c);
    ScanFrom(text, c.start1, c.pos, LineEnd(text, c.pos), {']'});
  }

  lemma EndSection(text: string, c: Cursor)
    requires Placed(text, c) && c.pos < |text| && text[c.pos] == ']' && c.status.InSection?
    ensures var name, d := Trim(text[c.start1..c.pos]), Closed(c);
            && Placed(text, d)
            && Rest(text, c) == if name == "" then MALFORMED
                                else Then(Parsed([Open(name)], true), Rest(text, d))
  {
    hide Placed, LineRest, Pieces, Trim, After;
    StatusBounds(text, c);
    ClosedIsPlaced(text, c);
    SectionAt(text, c);
    var e, name := LineEnd(text, c.pos), Trim(text[c.start1..c.pos]);
    ThenAssociates(Parsed([Open(name)], true), Pieces(text[c.pos + 1..e]), After(text, e));
  }

  ghost function NextLine(c: Cursor): Cursor {
    c.(status := KeyOrSection, start1 := c.pos + 1, pos := c.pos + 1, col := 1)
  }

  /** What a newline, or the end of the text, completes. */
  ghost function Completed(text: string, c: Cursor): Parsed
    requires Placed(text, c)
  {
    match c.status
    case InSection => MALFORMED
    case InValue => Entry(text[c.start1..c.end1], text[c.start2..c.pos])
    case _ => NOTHING
  }

  lemma EndLineRest(text: string, c: Cursor)
    requires Placed(text, c) && LineEnd(text, c.pos) == c.pos
    ensures LineRest(text, c) == Completed(text, c)
  {
    hide Entry;
    match c.status {
      case KeyOrSection => ScanNothing(text, c.start1, c.pos, {'[', '='});
      case InSection => ScanNothing(text, c.start1, c.pos, {']'});
      case _ =>
    }
  }

  lemma NextLineIsPlaced(text: string, c: Cursor)
    requires c.pos < |text| && text[c.pos] == '\n'
    ensures Placed(text, NextLine(c))
    ensures Rest(text, NextLine(c)) == Document(text[c.pos + 1..])
  {
    hide Document, Line;
    FirstLine(text, c.pos + 1);
  }

  lemma EndLineThen(text: string, c: Cursor)
    requires Placed(text, c) && LineEnd(text, c.pos) == c.pos
    ensures c.pos <= |text| && Rest(text, c) == Then(Completed(text, c), After(text, c.pos))
  {
    EndLineRest(text, c);
    hide LineRest, Completed, After;
  }

  /** A newline completes what its line began and leaves the next line to read. */
  lemma EndLine(text: string, c: Cursor)
    requires Placed(text, c) && LineEnd(text, c.pos) == c.pos
    ensures c.pos == |text| ==> Rest(text, c) == Completed(text, c)
    ensures c.pos < |text| ==>
              Placed(text, NextLine(c)) && Rest(text, c) == Then(Completed(text, c), Rest(text, NextLine(c)))
  {
    hide Document, Then, LineRest, Completed, Placed, Rest;
    EndLineThen(text, c);
    if c.pos < |text| { NextLineIsPlaced(text, c); }
    ThenNothing(Completed(text, c));
  }
}
