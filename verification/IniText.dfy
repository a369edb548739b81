/** The line format told on characters alone: which blanks are stripped, what a line says, and when
    it is refused. */
module IniText {
  import opened Base
  import opened ConfigTree
  import opened IniGrammar
  import opened IniModel

  predicate BlankChar(c: char) {
    c == ' ' || c == '\r' || c == '\n'
  }

  predicate Blanks(s: string) {
    forall i :: 0 <= i < |s| ==> BlankChar(s[i])
  }

  /** Empty, or with no blank at either end. */
  predicate Bare(s: string) {
    s != "" ==> !BlankChar(s[0]) && !BlankChar(s[|s| - 1])
  }

  predicate Surrounds(src: string, l: string, s: string, r: string) {
    Blanks(l) && Bare(s) && Blanks(r) && src == l + s + r
  }

  lemma {:induction false} TrimLeftStrips(l: string, s: string)
    requires Blanks(l) && (s != "" ==> !BlankChar(s[0]))
    ensures TrimLeft(l + s) == s
  {
    if l == "" {
      assert l + s == s;
    } else {
      assert (l + s)[0] == l[0] && (l + s)[1..] == l[1..] + s;
      TrimLeftStrips(l[1..], s);
    }
  }

  lemma {:induction false} TrimRightStrips(s: string, r: string)
    requires Blanks(r) && (s != "" ==> !BlankChar(s[|s| - 1]))
    ensures TrimRight(s + r) == s
  {
    if r == "" {
      assert s + r == s;
    } else {
      var t := s + r;
      assert t[|t| - 1] == r[|r| - 1] && t[..|t| - 1] == s + r[..|r| - 1];
      TrimRightStrips(s, r[..|r| - 1]);
    }
  }

  /** Trimming takes away the blanks around a text and nothing else. */
  lemma TrimStrips(src: string, l: string, s: string, r: string)
    requires Surrounds(src, l, s, r)
    ensures Trim(src) == s
  {
    if s == "" {
      assert src == (l + r) + "";
      TrimLeftStrips(l + r, "");
    } else {
      assert src == l + (s + r);
      TrimLeftStrips(l, s + r);
      TrimRightStrips(s, r);
    }
  }

  lemma {:induction false} Split(src: string) returns (l: string, s: string, r: string)
    ensures Surrounds(src, l, s, r)
  {
    if src == "" {
      l, s, r := "", "", "";
    } else if BlankChar(src[0]) {
      l, s, r := Split(src[1..]);
      l := [src[0]] + l;
    } else if BlankChar(src[|src| - 1]) {
      l, s, r := Split(src[..|src| - 1]);
      r := r + [src[|src| - 1]];
    } else {
      l, s, r := "", src, "";
    }
  }

  /** Nothing is left exactly of texts that are blank throughout. */
  lemma TrimsToNothing(src: string)
    ensures Trim(src) == "" <==> Blanks(src)
  {
    var l, s, r := Split(src);
    TrimStrips(src, l, s, r);
    if s != "" { assert src[|l|] == s[0]; }
  }

  // ----- what a line consists of -----

  /** A bracketed name and what stands before it on the line. */
  datatype Piece = Piece(before: string, l: string, name: string, r: string)

  predicate NoStop(s: string) {
    '[' !in s && '=' !in s
  }

  predicate GoodPiece(p: Piece) {
    NoStop(p.before) && Blanks(p.l) && Bare(p.name) && Blanks(p.r) && p.name != "" && ']' !in p.name
  }

  predicate Good(ps: seq<Piece>) {
    forall i :: 0 <= i < |ps| ==> GoodPiece(ps[i])
  }

  function Written(p: Piece): string {
    p.before + "[" + (p.l + p.name + p.r) + "]"
  }

  function Joined(ps: seq<Piece>): string {
    if ps == [] then "" else Written(ps[0]) + Joined(ps[1..])
  }

  function Opens(ps: seq<Piece>): seq<Op> {
    if ps == [] then [] else [Open(ps[0].name)] + Opens(ps[1..])
  }

  /** A '[' that is never closed, a name that is blank, or a key that is. */
  predicate BadTail(tail: string, before: string, inside: string, after: string) {
    || (NoStop(before) && ']' !in inside && tail == before + "[" + inside)
    || (NoStop(before) && Blanks(inside) && tail == before + "[" + inside + "]" + after)
    || (Blanks(before) && tail == before + "=" + after)
  }

  ghost predicate Bad(tail: string) {
    exists before, inside, after :: BadTail(tail, before, inside, after)
  }

  // ----- what the grammar makes of it -----

  lemma StopAt(before: string, c: char, after: string)
    requires NoStop(before) && (c == '[' || c == '=')
    ensures var s := before + [c] + after;
            Pieces(s) == if c == '=' then Entry(before, after) else Section(after)
  {
    var s := before + [c] + after;
    UntilIs(s, {'[', '='}, |before|);
    assert s[..|before|] == before && s[|before| + 1..] == after;
  }

  lemma ClosedAt(inside: string, after: string)
    requires ']' !in inside
    ensures Section(inside + "]" + after) == if Trim(inside) == "" then MALFORMED
                                             else Then(Parsed([Open(Trim(inside))], true), Pieces(after))
  {
    var s := inside + "]" + after;
    UntilIs(s, {']'}, |inside|);
    assert s[..|inside|] == inside && s[|inside| + 1..] == after;
  }

  lemma BlanksHoldNoBracket(s: string)
    requires Blanks(s)
    ensures ']' !in s && NoStop(s)
  {}

  lemma OnePiece(p: Piece, rest: string)
    requires GoodPiece(p)
    ensures Pieces(Written(p) + rest) == Then(Parsed([Open(p.name)], true), Pieces(rest))
  {
    var inside := p.l + p.name + p.r;
    BlanksHoldNoBracket(p.l);
    BlanksHoldNoBracket(p.r);
    assert Written(p) + rest == p.before + ['['] + (inside + "]" + rest);
    StopAt(p.before, '[', inside + "]" + rest);
    ClosedAt(inside, rest);
    TrimStrips(inside, p.l, p.name, p.r);
  }

  lemma {:induction false} PiecesOfJoined(ps: seq<Piece>, tail: string)
    requires Good(ps)
    ensures Pieces(Joined(ps) + tail) == Then(Parsed(Opens(ps), true), Pieces(tail))
  {
    hide Pieces;
    if ps == [] {
      assert Joined(ps) + tail == tail;
      ThenNothing(Pieces(tail));
    } else {
      assert Joined(ps) + tail == Written(ps[0]) + (Joined(ps[1..]) + tail);
      OnePiece(ps[0], Joined(ps[1..]) + tail);
      PiecesOfJoined(ps[1..], tail);
      ThenAssociates(Parsed([Open(ps[0].name)], true), Parsed(Opens(ps[1..]), true), Pieces(tail));
    }
  }

  lemma BadTailFails(tail: string, before: string, inside: string, after: string)
    requires BadTail(tail, before, inside, after)
    ensures Pieces(tail) == MALFORMED
  {
    if NoStop(before) && ']' !in inside && tail == before + "[" + inside {
      StopAt(before, '[', inside);
      UntilNever(inside, {']'});
    } else if NoStop(before) && Blanks(inside) && tail == before + "[" + inside + "]" + after {
      BlanksHoldNoBracket(inside);
      assert tail == before + ['['] + (inside + "]" + after);
      StopAt(before, '[', inside + "]" + after);
      ClosedAt(inside, after);
      TrimsToNothing(inside);
    } else {
      BlanksHoldNoBracket(before);
      StopAt(before, '=', after);
      TrimsToNothing(before);
    }
  }

  /** A line that ends without '[' and '=' adds nothing, one that ends in a key and a value adds
      that entry, the blanks around either left out. */
  lemma EntryTail(l: string, key: string, r: string, m: string, value: string, q: string)
    requires Blanks(l) && Bare(key) && Blanks(r) && Blanks(m) && Bare(value) && Blanks(q)
    requires key != "" && NoStop(key)
    ensures Pieces((l + key + r) + "=" + (m + value + q)) == Parsed([Put(key, value)], true)
  {
    BlanksHoldNoBracket(l);
    BlanksHoldNoBracket(r);
    StopAt(l + key + r, '=', m + value + q);
    TrimStrips(l + key + r, l, key, r);
    TrimStrips(m + value + q, m, value, q);
  }

  lemma QuietTail(tail: string)
    requires NoStop(tail)
    ensures Pieces(tail) == NOTHING
  {
    UntilNever(tail, {'[', '='});
  }

  /** What a line says: its bracketed names in order, then its entry. */
  lemma LineSays(ps: seq<Piece>, l: string, key: string, r: string, m: string, value: string, q: string)
    requires Good(ps) && Blanks(l) && Bare(key) && Blanks(r) && Blanks(m) && Bare(value) && Blanks(q)
    requires key != "" && NoStop(key)
    ensures var s := Joined(ps) + ((l + key + r) + "=" + (m + value + q));
            s[0] != ';' ==> Line(s) == Parsed(Opens(ps) + [Put(key, value)], true)
  {
    EntryTail(l, key, r, m, value, q);
    hide Pieces;
    PiecesOfJoined(ps, (l + key + r) + "=" + (m + value + q));
  }

  /** And without an entry. */
  lemma LineSaysOpens(ps: seq<Piece>, tail: string)
    requires Good(ps) && NoStop(tail)
    ensures var s := Joined(ps) + tail;
            (s == "" || s[0] != ';') ==> Line(s) == Parsed(Opens(ps), true)
  {
    QuietTail(tail);
    hide Pieces;
    PiecesOfJoined(ps, tail);
    ThenNothing(Parsed(Opens(ps), true));
  }

  /** The first bracketed name of a line; none when it has an entry or nothing there, or is bad. */
  lemma FirstPiece(s: string) returns (p: Option<Piece>, rest: string)
    ensures p.Some? ==> GoodPiece(p.value) && s == Written(p.value) + rest
    ensures p == None ==> Bad(s) || Pieces(s).ok
  {
    var i := Until(s, {'[', '='});
    p, rest := None, s;
    if i < |s| {
      assert s == s[..i] + [s[i]] + s[i + 1..];
      if s[i] == '[' {
        p, rest := Bracketed(s, s[..i], s[i + 1..]);
      } else {
        TrimsToNothing(s[..i]);
        StopAt(s[..i], '=', s[i + 1..]);
        if Blanks(s[..i]) { assert BadTail(s, s[..i], "", s[i + 1..]); }
      }
    }
  }

  lemma Bracketed(s: string, before: string, after: string) returns (p: Option<Piece>, rest: string)
    requires NoStop(before) && s == before + "[" + after
    ensures p.Some? ==> GoodPiece(p.value) && s == Written(p.value) + rest
    ensures p == None ==> Bad(s)
  {
    hide Pieces, Trim;
    var j := Until(after, {']'});
    p, rest := None, s;
    if j == |after| {
      assert BadTail(s, before, after, "");
    } else {
      var inside := after[..j];
      assert after == inside + "]" + after[j + 1..];
      var l, name, r := Split(inside);
      if name == "" {
        assert BadTail(s, before, inside, after[j + 1..]);
      } else {
        forall c | c in name ensures c in inside { NameIsInside(l, name, r, c); }
        p, rest := Some(Piece(before, l, name, r)), after[j + 1..];
      }
    }
  }

  lemma NameIsInside(l: string, name: string, r: string, c: char)
    requires c in name
    ensures c in l + name + r
  {
    var k :| 0 <= k < |name| && name[k] == c;
    assert (l + name + r)[|l| + k] == c;
  }

  /** The pieces in front of a line and what is left behind them. */
  lemma {:induction false} Taken(s: string) returns (ps: seq<Piece>, tail: string)
    ensures Good(ps) && s == Joined(ps) + tail
    ensures Bad(tail) || Pieces(tail).ok
    decreases |s|
  {
    hide Pieces, Bad, GoodPiece;
    var p, rest := FirstPiece(s);
    if p == None {
      ps, tail := [], s;
    } else {
      ps, tail := Taken(rest);
      assert Joined([p.value] + ps) == Written(p.value) + Joined(ps) by { assert ([p.value] + ps)[1..] == ps; }
      ps := [p.value] + ps;
    }
  }

  /** No comment, and behind any number of bracketed names a '[' that is never closed, a blank name
      in brackets, or a blank key before '='. */
  ghost predicate BadLine(s: string) {
    (s == "" || s[0] != ';') && exists ps, tail :: Good(ps) && s == Joined(ps) + tail && Bad(tail)
  }

  /** Such lines are refused, and no others. */
  lemma LineFailsIff(s: string)
    ensures !Line(s).ok <==> BadLine(s)
  {
    if s == "" || s[0] != ';' {
      if BadLine(s) {
        var ps, tail :| Good(ps) && s == Joined(ps) + tail && Bad(tail);
        var before, inside, after :| BadTail(tail, before, inside, after);
        BadTailFails(tail, before, inside, after);
        PiecesOfJoined(ps, tail);
      } else {
        var ps, tail := Taken(s);
        PiecesOfJoined(ps, tail);
      }
    }
  }

  ghost predicate HasBadLine(lines: seq<string>) {
    exists i :: 0 <= i < |lines| && BadLine(lines[i])
  }

  /** A text is refused if and only if such a line is among its lines. */
  lemma TextFailsIff(text: string)
    ensures Load(text) == None <==> HasBadLine(Lines(text))
  {
    hide Line, Lines, BadLine, Run;
    AcceptedByLines(text);
    var lines := Lines(text);
    forall i | 0 <= i < |lines| ensures !Line(lines[i]).ok <==> BadLine(lines[i]) { LineFailsIff(lines[i]); }
  }

  // ----- a line added to a text -----

  /** An accepted text followed by a line of a key and a value, with blanks around each: exactly that
      key has exactly that value then, in the section that was open. */
  lemma BlanksAreNotStored(text: string, l: string, key: string, r: string, m: string, value: string, q: string)
    requires Load(text).Some?
    requires Blanks(l) && Bare(key) && Blanks(r) && Blanks(m) && Bare(value) && Blanks(q)
    requires key != "" && NoStop(key) && (l + key)[0] != ';'
    requires '\n' !in l + key + r + m + value + q
    ensures var t := text + "\n" + ((l + key + r) + "=" + (m + value + q));
            && Load(t).Some? && Document(t).ops == Document(text).ops + [Put(key, value)]
            && GetEntry(Load(t).value, Run(Start(), Document(text).ops).current, key) == Some(value)
  {
    var line := (l + key + r) + "=" + (m + value + q);
    assert line[0] == (l + key)[0];
    assert Joined([]) + line == line;
    LineSays([], l, key, r, m, value, q);
    hide Line, Pieces, Lines, AllLines, Run;
    OneLine(line);
    DocumentSplit(text, line);
    var ops := Document(text).ops;
    RunOne(Start(), ops, Put(key, value));
    StartIsFound(ops);
    StoredIsRead(Run(Start(), ops), key, value);
  }

  lemma StoredIsRead(r: Reading, key: string, value: string)
    requires Find(r.config, r.current).Some?
    ensures GetEntry(Do(r, Put(key, value)).config, r.current, key) == Some(value)
  {
    var section := Find(r.config, r.current).value;
    FindAfterInsert(section, key, value);
    FindAfterSet(r.config, r.current, Insert(section, key, value), r.current);
  }

  /** What stands before the first header goes under "default", which is there from the start. */
  lemma DefaultByName(text: string)
    requires Load(text).Some? && forall op :: op in Document(text).ops ==> op.Put?
    ensures Find(Load(text).value, "default").Some?
    ensures Run(Start(), Document(text).ops).current == "default"
  {
    PutsStay(Start(), Document(text).ops);
    StartIsFound(Document(text).ops);
  }

  lemma {:induction false} PutsStay(r: Reading, ops: seq<Op>)
    requires forall op :: op in ops ==> op.Put?
    ensures Run(r, ops).current == r.current
    decreases |ops|
  {
    if ops != [] {
      assert ops[0] in ops && forall op :: op in ops[1..] ==> op in ops;
      PutsStay(Do(r, ops[0]), ops[1..]);
    }
  }
}
