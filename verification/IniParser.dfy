/** The one-pass parser: a jump table of byte handlers over a record of indices, filling a
    configuration in memory as it goes. */
module IniParser {
  import opened Base
  import opened CString
  import opened IniGrammar
  import opened IniCursor
  import opened IniModel
  import opened IniStore
  import T = IniText

  const MAX_SECTION_SIZE := 64

  /** The text without blanks at either end; none when nothing is left. */
  method MemTrim(src: string) returns (r: Option<string>)
    ensures r == if Trim(src) == "" then None else Some(Trim(src))
    ensures forall l, s, t :: T.Surrounds(src, l, s, t) ==> r == if s == "" then None else Some(s)
  {
    forall l, s, t | T.Surrounds(src, l, s, t) ensures Trim(src) == s { T.TrimStrips(src, l, s, t); }
    hide TrimLeft, TrimRight, IsBlank;
    var len := |src|;
    if len == 0 {
      TrimsNothing();
      return None;
    }
    var start, end := 0, len - 1;
    assert src[0..] == src;
    while start < len && IsBlank(src[start])
      invariant 0 <= start <= len && TrimLeft(src) == TrimLeft(src[start..])
    {
      TrimLeftStep(src, start);
      start := start + 1;
    }
    TrimLeftStop(src, start);
    assert src[start..] == src[start..end + 1];
    while end > start && IsBlank(src[end])
      invariant start <= end + 1 <= len && (start < len ==> start <= end)
      invariant TrimRight(src[start..]) == TrimRight(src[start..end + 1])
    {
      TrimRightStep(src, start, end);
      end := end - 1;
    }
    TrimRightStop(src, start, end + 1);
    end := end + 1;
    if start == end { return None; }
    r := Some(src[start..end]);
  }

  lemma TrimsNothing()
    ensures Trim("") == ""
  {}

  lemma TrimLeftStep(src: string, start: nat)
    requires start < |src| && IsBlank(src[start])
    ensures TrimLeft(src[start..]) == TrimLeft(src[start + 1..])
  {
    assert src[start..][1..] == src[start + 1..];
  }

  lemma TrimLeftStop(src: string, start: nat)
    requires start <= |src| && (start < |src| ==> !IsBlank(src[start]))
    ensures TrimLeft(src[start..]) == src[start..]
  {}

  lemma TrimRightStep(src: string, start: nat, end: nat)
    requires start <= end < |src| && IsBlank(src[end])
    ensures TrimRight(src[start..end + 1]) == TrimRight(src[start..end])
  {
    var s := src[start..end + 1];
    assert s[|s| - 1] == src[end] && s[..|s| - 1] == src[start..end];
  }

  /** The backward scan stops at a non-blank or, since the forward scan did, at a single byte. */
  lemma TrimRightStop(src: string, start: nat, end: nat)
    requires start <= end <= |src|
    requires start < end ==> !IsBlank(src[end - 1])
    ensures TrimRight(src[start..end]) == src[start..end]
  {
    var s := src[start..end];
    if s != [] { assert s[|s| - 1] == src[end - 1]; }
  }

  datatype Handler = Default | OnSectionStart | OnSectionEnd | OnValueStart | OnNewLine | OnComment

  function HandlerOf(c: char): Handler {
    if c == '[' then OnSectionStart
    else if c == ']' then OnSectionEnd
    else if c == '=' then OnValueStart
    else if c == '\n' then OnNewLine
    else if c == ';' then OnComment
    else Default
  }

  method JumpTable() returns (funcs: array<Handler>)
    ensures fresh(funcs) && funcs.Length == 256
    ensures forall c: char :: c < 256 as char ==> funcs[c as int] == HandlerOf(c)
  {
    funcs := new Handler[256];
    for r := 0 to 256
      invariant forall i :: 0 <= i < r ==> funcs[i] == Default
    {
      funcs[r] := Default;
    }
    funcs['[' as int] := OnSectionStart;
    funcs[']' as int] := OnSectionEnd;
    funcs['=' as int] := OnValueStart;
    funcs['\n' as int] := OnNewLine;
    funcs[';' as int] := OnComment;
  }

  function Newlines(s: string): nat {
    if s == [] then 0
    else Newlines(s[..|s| - 1]) + (if s[|s| - 1] == '\n' then 1 else 0)
  }

  /** What the parser is handed: bytes without NUL, with section names that fit their buffer. */
  ghost predicate Readable(text: string) {
    && (forall c :: c in text ==> '\0' < c < 256 as char)
    && forall op :: op in Document(text).ops && op.Open? ==> |op.name| < 64
  }

  lemma EndsHere(done: seq<Op>)
    ensures Then(Parsed(done, true), MALFORMED) == Parsed(done, false)
  {}

  lemma NextOp(done: seq<Op>, op: Op, rest: Parsed)
    ensures Then(Parsed(done, true), Then(Parsed([op], true), rest)) == Then(Parsed(done + [op], true), rest)
  {
    ThenAssociates(Parsed(done, true), Parsed([op], true), rest);
  }

  /** What is left once the end of a line is seen. */
  lemma LineEndsHere(text: string, c: Cursor, done: seq<Op>)
    requires Placed(text, c) && LineEnd(text, c.pos) == c.pos
    requires Document(text) == Then(Parsed(done, true), Rest(text, c))
    requires c.pos == |text| ==> Rest(text, c) == Completed(text, c)
    requires c.pos < |text| ==>
               Placed(text, NextLine(c)) && Rest(text, c) == Then(Completed(text, c), Rest(text, NextLine(c)))
    ensures Completed(text, c) == MALFORMED ==> Document(text) == Parsed(done, false)
    ensures Completed(text, c).ok ==>
              Document(text) == Then(Parsed(done, true), Then(Completed(text, c),
                                  if c.pos < |text| then Rest(text, NextLine(c)) else NOTHING))
    ensures Completed(text, c) == NOTHING ==>
              Document(text) == Then(Parsed(done, true), if c.pos < |text| then Rest(text, NextLine(c)) else NOTHING)
  {
    hide Document, Placed, Rest;
    ThenNothing(Completed(text, c));
    if c.pos < |text| { ThenNothing(Rest(text, NextLine(c))); }
  }

  /** A section name about to be opened fits its buffer. */
  lemma NextOpen(text: string, done: seq<Op>, name: string, i: nat, j: nat, rest: Parsed)
    requires Readable(text) && i <= j <= |text| && name == Trim(text[i..j])
    requires Document(text) == Then(Parsed(done, true), Then(Parsed([Open(name)], true), rest))
    ensures NulFree(name) && |name| < MAX_SECTION_SIZE
    ensures Document(text) == Then(Parsed(done + [Open(name)], true), rest)
  {
    NextOp(done, Open(name), rest);
    TrimSelects(text[i..j]);
    assert Document(text).ops[|done|] == Open(name);
    assert forall c :: c in name ==> c in text;
  }

  class Parser {
    const str: string
    const config: IniConfig
    const sectionName: array<char>
    var status: Status
    var pos: nat
    var start1: nat
    var end1: nat
    var start2: nat
    var row: nat
    var col: nat
    /** The operations carried out so far. */
    ghost var done: seq<Op>

    ghost function Place(): Cursor
      reads this
    {
      Cursor(status, pos, start1, end1, start2, col)
    }

    ghost predicate Apart()
      reads this, config
    {
      sectionName.Length == MAX_SECTION_SIZE && this !in config.repr && sectionName !in config.repr
    }

    /** The configuration in memory is what the operations so far make of an empty one. */
    ghost predicate Stored()
      reads this, config, config.repr, sectionName
    {
      && Apart() && config.Valid()
      && Reading(config.Model(), CStr(sectionName[..])) == Run(Start(), done)
    }

    ghost predicate Valid()
      reads this, config, config.repr, sectionName
    {
      && Stored() && Readable(str) && Placed(str, Place())
      && Document(str) == Then(Parsed(done, true), Rest(str, Place()))
      && row == 1 + Newlines(str[..pos])
    }

    constructor (text: string)
      requires Readable(text)
      ensures Valid() && str == text && pos == 0 && done == []
      ensures fresh(config.repr) && fresh(sectionName)
    {
      hide Document, CStr, IniConfig.Valid, IniConfig.Model, Placed, Rest;
      str := text;
      var c := new IniConfig();
      config := c;
      sectionName := new char[MAX_SECTION_SIZE](i => if 0 <= i < |DEFAULT_NAME| then DEFAULT_NAME[i] else '\0');
      status, pos, start1, end1, start2 := KeyOrSection, 0, 0, 0, 0;
      row, col, done := 1, 1, [];
      new;
      SectionNameReads(DEFAULT_NAME);
      AtOrigin(str);
      ThenNothing(Document(str));
      var r := config.InsertSection(DEFAULT_NAME);
    }

    /** The buffer holds `name`, then terminators. */
    lemma SectionNameReads(name: string)
      requires NulFree(name) && |name| < sectionName.Length
      requires forall i :: 0 <= i < sectionName.Length ==>
                 sectionName[i] == if i < |name| then name[i] else '\0'
      ensures CStr(sectionName[..]) == name
    {
      assert sectionName[..][..|name| + 1] == name + "\0";
      CStrReadsBack(name, sectionName[..]);
    }

    // ----- one handler for each entry of the jump table -----

    method DefaultAction() returns (ok: bool)
      requires Valid() && pos < |str| && HandlerOf(str[pos]) == Default
      modifies this
      ensures ok && Valid() && pos == old(pos) + 1
    {
      hide Document, Placed, Rest, Run, CStr, IniConfig.Valid, IniConfig.Model, Readable, Then;
      SkipByte(str, Place());
      assert str[..pos + 1][..pos] == str[..pos];
      pos, col := pos + 1, col + 1;
      ok := true;
    }

    method SectionStart() returns (ok: bool)
      requires Valid() && pos < |str| && str[pos] == '['
      modifies this
      ensures ok && Valid() && pos == old(pos) + 1
    {
      hide Document, Placed, Rest, Run, CStr, IniConfig.Valid, IniConfig.Model, Readable, Then;
      if status == KeyOrSection {
        BeginSection(str, Place());
        start1 := pos + 1;
        status := InSection;
      } else {
        SkipByte(str, Place());
      }
      assert str[..pos + 1][..pos] == str[..pos];
      pos, col := pos + 1, col + 1;
      ok := true;
    }

    method ValueStart() returns (ok: bool)
      requires Valid() && pos < |str| && str[pos] == '='
      modifies this
      ensures ok && Valid() && pos == old(pos) + 1
    {
      hide Document, Placed, Rest, Run, CStr, IniConfig.Valid, IniConfig.Model, Readable, Then;
      if status == KeyOrSection {
        BeginValue(str, Place());
        status := InValue;
        end1 := pos;
        start2 := pos + 1;
      } else {
        SkipByte(str, Place());
      }
      assert str[..pos + 1][..pos] == str[..pos];
      pos, col := pos + 1, col + 1;
      ok := true;
    }

    method CommentStart() returns (ok: bool)
      requires Valid() && pos < |str| && str[pos] == ';'
      modifies this
      ensures ok && Valid() && pos == old(pos) + 1
    {
      hide Document, Placed, Rest, Run, CStr, IniConfig.Valid, IniConfig.Model, Readable, Then;
      if col == 1 {
        LineStartStatus(str, Place());
        BeginComment(str, Place());
        status := Comment;
      } else {
        SkipByte(str, Place());
      }
      assert str[..pos + 1][..pos] == str[..pos];
      pos, col := pos + 1, col + 1;
      ok := true;
    }

    method SectionEnd() returns (ok: bool)
      requires Valid() && pos < |str| && str[pos] == ']'
      modifies this, sectionName, config.repr
      ensures fresh(config.repr - old(config.repr))
      ensures ok ==> Valid() && pos == old(pos) + 1
      ensures !ok ==> Document(str) == Parsed(done, false)
    {
      hide Document, Placed, Rest, Run, CStr, IniConfig.Valid, IniConfig.Model, Readable, Then;
      if status == InSection {
        ok := CloseSection();
        return;
      }
      SkipByte(str, Place());
      assert str[..pos + 1][..pos] == str[..pos];
      pos, col := pos + 1, col + 1;
      ok := true;
    }

    method CloseSection() returns (ok: bool)
      requires Valid() && pos < |str| && str[pos] == ']' && status == InSection
      modifies this, sectionName, config.repr
      ensures fresh(config.repr - old(config.repr))
      ensures ok ==> Valid() && pos == old(pos) + 1
      ensures !ok ==> Document(str) == Parsed(done, false)
    {
      hide Document, Placed, Rest, Run, CStr, IniConfig.Valid, IniConfig.Model, Readable, Then, Trim;
      StatusBounds(str, Place());
      EndSection(str, Place());
      ghost var next := Next(Place()).(status := KeyOrSection, start1 := pos + 1);
      assert str[..pos + 1][..pos] == str[..pos];
      var p := MemTrim(str[start1..pos]);
      if p == None {
        EndsHere(done);
        return false;
      }
      NextOpen(str, done, p.value, start1, pos, Rest(str, next));
      OpenNamed(p.value);
      status := KeyOrSection;
      start1 := pos + 1;
      pos, col := pos + 1, col + 1;
      ok := true;
    }

    /** Makes `name` the current section, and empties it. */
    method OpenNamed(name: string)
      requires Stored() && NulFree(name) && |name| < MAX_SECTION_SIZE
      modifies sectionName, config.repr, this`done
      ensures Stored() && done == old(done) + [Open(name)] && fresh(config.repr - old(config.repr))
    {
      hide Run, CStr, IniConfig.Valid, IniConfig.Model, OpenSection;
      forall i | 0 <= i < MAX_SECTION_SIZE { sectionName[i] := '\0'; }
      forall i | 0 <= i < |name| { sectionName[i] := name[i]; }
      SectionNameReads(name);
      RunOne(Start(), done, Open(name));
      var r := config.InsertSection(CStr(sectionName[..]));
      done := done + [Open(name)];
    }

    /** Stores a key in the current section, which is always found. */
    method PutNamed(key: string, value: string) returns (r: int)
      requires Stored() && NulFree(key) && NulFree(value)
      modifies config.repr, this`done
      ensures Stored() && done == old(done) + [Put(key, value)] && r != 0 && fresh(config.repr - old(config.repr))
    {
      hide Run, CStr, IniConfig.Valid, IniConfig.Model;
      StartIsFound(done);
      RunOne(Start(), done, Put(key, value));
      r := config.InsertSectionNode(CStr(sectionName[..]), key, value);
      done := done + [Put(key, value)];
    }

    /** The whole text has been carried out. */
    ghost predicate Finished()
      reads this, config, config.repr, sectionName
    {
      Stored() && Document(str) == Parsed(done, true)
    }

    lemma FieldIsNulFree(i: nat, j: nat)
      requires Readable(str) && i <= j <= |str|
      ensures NulFree(Trim(str[i..j]))
    {
      TrimSelects(str[i..j]);
      assert forall c :: c in str[i..j] ==> c in str;
    }

    /** Stores the key and the value that have been read, unless the key is blank. */
    method PutField(ghost next: Parsed) returns (ok: bool)
      requires Stored() && Readable(str) && start1 <= end1 <= |str| && start2 <= pos <= |str|
      modifies config.repr, this`done
      ensures fresh(config.repr - old(config.repr))
      ensures ok <==> Entry(str[start1..end1], str[start2..pos]).ok
      ensures !ok ==> done == old(done)
      ensures ok ==> Stored()
      ensures ok ==> Then(Parsed(old(done), true), Then(Entry(str[start1..end1], str[start2..pos]), next))
                     == Then(Parsed(done, true), next)
    {
      hide Run, CStr, IniConfig.Valid, IniConfig.Model, Readable, Then, Trim;
      var k := MemTrim(str[start1..end1]);
      var v := MemTrim(str[start2..pos]);
      if k == None { return false; }
      var value := if v == None then "" else v.value;
      NextOp(done, Put(k.value, value), next);
      FieldIsNulFree(start1, end1);
      FieldIsNulFree(start2, pos);
      var r := PutNamed(k.value, value);
      ok := r != 0;
    }

    /** Ends a line: at a newline, and once more at the end of the text. */
    method NewLine() returns (ok: bool)
      requires Valid() && (pos < |str| ==> str[pos] == '\n')
      modifies this, config.repr
      ensures fresh(config.repr - old(config.repr))
      ensures ok && old(pos) < |str| ==> Valid() && pos == old(pos) + 1
      ensures ok && old(pos) == |str| ==> Finished()
      ensures !ok ==> Document(str) == Parsed(done, false)
    {
      hide Document, Placed, Rest, Run, CStr, IniConfig.Valid, IniConfig.Model, Readable, Then, Trim, LineRest;
      StatusBounds(str, Place());
      EndLine(str, Place());
      LineEndsHere(str, Place(), done);
      ghost var next := if pos < |str| then Rest(str, NextLine(Place())) else NOTHING;
      match status {
        case Comment =>
        case KeyOrSection =>
        case InValue =>
          var put := PutField(next);
          if !put { return false; }
        case InSection =>
          return false;
      }
      if pos < |str| { assert str[..pos + 1][..pos] == str[..pos]; }
      start1 := pos + 1;
      status := KeyOrSection;
      pos, col, row := pos + 1, 1, row + 1;
      ThenNothing(Parsed(done, true));
      ok := true;
    }

    lemma FinishedIsLoaded()
      requires Finished()
      ensures config.Valid() && Load(str) == Some(config.Model())
    {}
  }

  /** `ini_config_create_from_string` for text in a single-byte character set. */
  method CreateFromString(text: string) returns (config: IniConfig?)
    requires Readable(text)
    ensures config == null <==> Load(text) == None
    ensures config == null <==> T.HasBadLine(Lines(text))
    ensures config != null ==> fresh(config.repr) && config.Valid() && Load(text) == Some(config.Model())
  {
    hide Document, Parser.Valid, Parser.Finished, IniConfig.Valid, IniConfig.Model, Run, T.HasBadLine;
    T.TextFailsIff(text);
    var parser := new Parser(text);
    var funcs := JumpTable();
    while parser.pos < |text|
      invariant parser.Valid() && parser.str == text && parser.pos <= |text|
      invariant fresh(parser) && fresh(parser.config.repr) && fresh(parser.sectionName)
      invariant funcs !in parser.config.repr
      invariant forall c: char :: c < 256 as char ==> funcs[c as int] == HandlerOf(c)
      decreases |text| - parser.pos
    {
      var r: bool;
      var c := text[parser.pos];
      assert c in text && funcs[c as int] == HandlerOf(c);
      match funcs[c as int] {
        case Default => r := parser.DefaultAction();
        case OnSectionStart => r := parser.SectionStart();
        case OnSectionEnd => r := parser.SectionEnd();
        case OnValueStart => r := parser.ValueStart();
        case OnNewLine => r := parser.NewLine();
        case OnComment => r := parser.CommentStart();
      }
      if !r { return null; }
    }
    var r := parser.NewLine();
    if !r { return null; }
    parser.FinishedIsLoaded();
    config := parser.config;
  }
}
