/** The INI text format as a recursive line grammar. A document is a list of lines; a line is a
    comment, or any number of `[name]` pieces followed by an optional `key=value`. */
module IniGrammar {

  datatype Op = Open(name: string) | Put(key: string, value: string)

  /** The operations up to the first malformed piece, and whether there was none. */
  datatype Parsed = Parsed(ops: seq<Op>, ok: bool)

  const NOTHING := Parsed([], true)
  const MALFORMED := Parsed([], false)

  function Then(first: Parsed, second: Parsed): Parsed {
    if first.ok then Parsed(first.ops + second.ops, second.ok) else first
  }

  predicate IsBlank(c: char) {
    c == ' ' || c == '\r' || c == '\n'
  }

  function TrimLeft(s: string): string {
    if s != [] && IsBlank(s[0]) then TrimLeft(s[1..]) else s
  }

  function TrimRight(s: string): string {
    if s != [] && IsBlank(s[|s| - 1]) then TrimRight(s[..|s| - 1]) else s
  }

  function Trim(s: string): string {
    TrimRight(TrimLeft(s))
  }

  /** The position of the first character of `stop`, or the length. */
  function Until(s: string, stop: set<char>): (i: nat)
    ensures i <= |s|
    ensures i < |s| ==> s[i] in stop
    ensures forall j :: 0 <= j < i ==> s[j] !in stop
  {
    if s == [] || s[0] in stop then 0 else 1 + Until(s[1..], stop)
  }

  function Entry(key: string, value: string): Parsed {
    if Trim(key) == "" then MALFORMED else Parsed([Put(Trim(key), Trim(value))], true)
  }

  /** What follows a '[' on its line. */
  function Section(s: string): Parsed
    decreases |s|, 0
  {
    var j := Until(s, {']'});
    if j == |s| || Trim(s[..j]) == "" then MALFORMED
    else Then(Parsed([Open(Trim(s[..j]))], true), Pieces(s[j + 1..]))
  }

  function Pieces(s: string): Parsed
    decreases |s|, 1
  {
    var i := Until(s, {'[', '='});
    if i == |s| then NOTHING
    else if s[i] == '=' then Entry(s[..i], s[i + 1..])
    else Section(s[i + 1..])
  }

  function Line(s: string): Parsed {
    if s != [] && s[0] == ';' then NOTHING else Pieces(s)
  }

  function Lines(text: string): seq<string>
    decreases |text|
  {
    var i := Until(text, {'\n'});
    if i == |text| then [text] else [text[..i]] + Lines(text[i + 1..])
  }

  function AllLines(lines: seq<string>): Parsed {
    if lines == [] then NOTHING else Then(Line(lines[0]), AllLines(lines[1..]))
  }

  function Document(text: string): Parsed {
    AllLines(Lines(text))
  }

  // ----- scanning -----

  lemma {:induction false} UntilIs(s: string, stop: set<char>, i: nat)
    requires i <= |s| && (forall j :: 0 <= j < i ==> s[j] !in stop) && (i < |s| ==> s[i] in stop)
    ensures Until(s, stop) == i
  {
    if i > 0 { UntilIs(s[1..], stop, i - 1); }
  }

  lemma UntilNever(s: string, stop: set<char>)
    requires forall c :: c in s ==> c !in stop
    ensures Until(s, stop) == |s|
  {
    UntilIs(s, stop, |s|);
  }

  lemma ThenAssociates(a: Parsed, b: Parsed, c: Parsed)
    ensures Then(Then(a, b), c) == Then(a, Then(b, c))
  {
    assert a.ops + b.ops + c.ops == a.ops + (b.ops + c.ops);
  }

  lemma ThenNothing(a: Parsed)
    ensures Then(a, NOTHING) == a && Then(NOTHING, a) == a
  {
    assert a.ops + [] == a.ops && [] + a.ops == a.ops;
  }

  lemma {:induction false} TrimSelects(s: string)
    ensures forall c :: c in Trim(s) ==> c in s
  {
    TrimLeftSelects(s);
    TrimRightSelects(TrimLeft(s));
  }

  lemma {:induction false} TrimLeftSelects(s: string)
    ensures forall c :: c in TrimLeft(s) ==> c in s
  {
    if s != [] && IsBlank(s[0]) { TrimLeftSelects(s[1..]); }
  }

  lemma {:induction false} TrimRightSelects(s: string)
    ensures forall c :: c in TrimRight(s) ==> c in s
  {
    if s != [] && IsBlank(s[|s| - 1]) { TrimRightSelects(s[..|s| - 1]); }
  }

  // ----- lines -----

  /** Text on either side of a newline is parsed on its own. */
  lemma {:induction false} LinesSplit(a: string, b: string)
    ensures Lines(a + "\n" + b) == Lines(a) + Lines(b)
    decreases |a|
  {
    var text := a + "\n" + b;
    var i := Until(a, {'\n'});
    assert forall j :: 0 <= j < i ==> text[j] == a[j];
    UntilIs(text, {'\n'}, i);
    assert text[..i] == a[..i];
    if i == |a| {
      assert text[i + 1..] == b && a[..i] == a;
    } else {
      assert text[i + 1..] == a[i + 1..] + "\n" + b;
      LinesSplit(a[i + 1..], b);
    }
  }

  lemma {:induction false} AllLinesConcat(a: seq<string>, b: seq<string>)
    ensures AllLines(a + b) == Then(AllLines(a), AllLines(b))
  {
    if a == [] {
      assert a + b == b;
      ThenNothing(AllLines(b));
    } else {
      assert (a + b)[1..] == a[1..] + b;
      AllLinesConcat(a[1..], b);
      ThenAssociates(Line(a[0]), AllLines(a[1..]), AllLines(b));
    }
  }

  lemma DocumentSplit(a: string, b: string)
    ensures Document(a + "\n" + b) == Then(Document(a), Document(b))
  {
    LinesSplit(a, b);
    AllLinesConcat(Lines(a), Lines(b));
  }

  lemma OneLine(s: string)
    requires '\n' !in s
    ensures Lines(s) == [s] && Document(s) == Line(s)
  {
    UntilNever(s, {'\n'});
    assert Lines(s) == [s] && [s][1..] == [];
    assert AllLines([s]) == Then(Line(s), AllLines([]));
    ThenNothing(Line(s));
  }

  predicate EachLineOk(lines: seq<string>) {
    forall i :: 0 <= i < |lines| ==> Line(lines[i]).ok
  }

  lemma {:induction false} AllLinesOk(lines: seq<string>)
    ensures AllLines(lines).ok <==> EachLineOk(lines)
  {
    if lines != [] {
      AllLinesOk(lines[1..]);
      assert forall i :: 0 < i < |lines| ==> lines[i] == lines[1..][i - 1];
    }
  }

  /** A text is accepted exactly when each of its lines is well formed on its own. */
  lemma AcceptedByLines(text: string)
    ensures Document(text).ok <==> EachLineOk(Lines(text))
  {
    AllLinesOk(Lines(text));
  }

  // ----- invariances promised to the writer of a file -----

  /** A comment line inserted at a line boundary changes nothing. */
  lemma CommentLineIsSkipped(before: string, comment: string, after: string)
    requires '\n' !in comment
    ensures Document(before + "\n" + (";" + comment) + "\n" + after) == Document(before + "\n" + after)
    ensures Document((";" + comment) + "\n" + after) == Document(after)
  {
    var line := ";" + comment;
    OneLine(line);
    DocumentSplit(line, after);
    ThenNothing(Document(after));
    assert before + "\n" + line + "\n" + after == before + "\n" + (line + "\n" + after);
    DocumentSplit(before, line + "\n" + after);
    DocumentSplit(before, after);
  }

  /** A final newline changes nothing. */
  lemma FinalNewlineIsSkipped(text: string)
    ensures Document(text + "\n") == Document(text)
  {
    OneLine("");
    assert text + "\n" == text + "\n" + "";
    DocumentSplit(text, "");
    ThenNothing(Document(text));
  }

  /** Every newline becomes CR LF. */
  function CrLf(text: string): string {
    if text == [] then []
    else (if text[0] == '\n' then "\r\n" else [text[0]]) + CrLf(text[1..])
  }

  lemma {:induction false} CrLfConcat(a: string, b: string)
    ensures CrLf(a + b) == CrLf(a) + CrLf(b)
  {
    if a == [] {
      assert a + b == b;
    } else {
      assert (a + b)[1..] == a[1..] + b;
      CrLfConcat(a[1..], b);
    }
  }

  lemma {:induction false} CrLfNoNewline(a: string)
    requires '\n' !in a
    ensures CrLf(a) == a
  {
    if a != [] {
      CrLfNoNewline(a[1..]);
    }
  }

  lemma CrLfOfLine(a: string, b: string)
    requires '\n' !in a
    ensures CrLf(a + "\n" + b) == a + "\r" + "\n" + CrLf(b)
  {
    assert a + ("\n" + b) == a + "\n" + b && ("\n" + b)[1..] == b;
    CrLfConcat(a, "\n" + b);
    CrLfNoNewline(a);
    assert a + ("\r\n" + CrLf(b)) == a + "\r" + "\n" + CrLf(b);
  }

  lemma {:induction false} TrimLeftAppend(s: string)
    ensures TrimLeft(s + "\r") == if TrimLeft(s) == "" then "" else TrimLeft(s) + "\r"
  {
    if s == [] {
      assert s + "\r" == "\r" && "\r"[1..] == "";
    } else if IsBlank(s[0]) {
      assert (s + "\r")[1..] == s[1..] + "\r";
      TrimLeftAppend(s[1..]);
    }
  }

  lemma TrimIgnoresCr(s: string)
    ensures Trim(s + "\r") == Trim(s)
  {
    TrimLeftAppend(s);
    var t := TrimLeft(s);
    assert (t + "\r")[..|t|] == t;
  }

  lemma UntilIgnoresCr(s: string, stop: set<char>)
    requires '\r' !in stop
    ensures var i := Until(s, stop);
            && Until(s + "\r", stop) == (if i == |s| then i + 1 else i)
            && (i < |s| ==> (s + "\r")[..i] == s[..i] && (s + "\r")[i + 1..] == s[i + 1..] + "\r")
  {
    var r, i := s + "\r", Until(s, stop);
    assert forall j :: 0 <= j < |s| ==> r[j] == s[j];
    UntilIs(r, stop, if i == |s| then i + 1 else i);
  }

  /** A carriage return at the end of a line is not seen. */
  lemma {:induction false} PiecesIgnoreCr(s: string)
    ensures Pieces(s + "\r") == Pieces(s)
    decreases |s|, 1
  {
    var i := Until(s, {'[', '='});
    UntilIgnoresCr(s, {'[', '='});
    if i < |s| {
      if s[i] == '=' {
        TrimIgnoresCr(s[i + 1..]);
        assert Entry(s[..i], s[i + 1..] + "\r") == Entry(s[..i], s[i + 1..]);
      } else {
        SectionIgnoresCr(s[i + 1..]);
      }
    }
  }

  lemma {:induction false} SectionIgnoresCr(s: string)
    ensures Section(s + "\r") == Section(s)
    decreases |s|, 0
  {
    var j := Until(s, {']'});
    UntilIgnoresCr(s, {']'});
    if j < |s| {
      PiecesIgnoreCr(s[j + 1..]);
    }
  }

  lemma LineIgnoresCr(s: string)
    ensures Line(s + "\r") == Line(s)
  {
    PiecesIgnoreCr(s);
    if s == [] { assert (s + "\r")[0] == '\r'; }
  }

  /** Turning every newline into CR LF changes nothing. */
  lemma {:induction false} CrLfIsInvisible(text: string)
    ensures Document(CrLf(text)) == Document(text)
    decreases |text|
  {
    var i := Until(text, {'\n'});
    if i == |text| {
      CrLfNoNewline(text);
    } else {
      var a, b := text[..i], text[i + 1..];
      assert text == a + "\n" + b;
      CrLfOfLine(a, b);
      DocumentSplit(a + "\r", CrLf(b));
      DocumentSplit(a, b);
      OneLine(a + "\r");
      OneLine(a);
      LineIgnoresCr(a);
      CrLfIsInvisible(b);
    }
  }
}
