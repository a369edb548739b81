/** The two-level configuration in memory: a search tree whose nodes point at section trees. */
module IniStore {
  import opened Base
  import opened CString
  import opened ConfigTree
  import opened ConfigBTree
  import opened IniModel
  import opened IniNumber

  type Refs = Tree<BTree<string>>

  ghost function RefsIn(t: Refs): set<BTree<string>> {
    match t
    case Leaf => {}
    case Node(l, _, b, r) => RefsIn(l) + {b} + RefsIn(r)
  }

  /** No section object hangs at two nodes. */
  ghost predicate Distinct(t: Refs) {
    t.Node? ==>
      && Distinct(t.left) && Distinct(t.right) && RefsIn(t.left) !! RefsIn(t.right)
      && t.val !in RefsIn(t.left) && t.val !in RefsIn(t.right)
  }

  type Contents = map<BTree<string>, SectionTree>

  /** The configuration when each section object holds what `m` says. */
  ghost function Deref(t: Refs, m: Contents): Config
    requires RefsIn(t) <= m.Keys
  {
    match t
    case Leaf => Leaf
    case Node(l, k, b, r) => Tree.Node(Deref(l, m), k, m[b], Deref(r, m))
  }

  ghost function Held(bs: set<BTree<string>>): Contents
    reads bs
  {
    map b | b in bs :: b.Content()
  }

  lemma {:induction false} InsertedRefs(t: Refs, k: string, b: BTree<string>)
    ensures RefsIn(Insert(t, k, b)) <= RefsIn(t) + {b}
    ensures Distinct(t) && b !in RefsIn(t) ==> Distinct(Insert(t, k, b))
  {
    if t.Node? {
      InsertedRefs(t.left, k, b);
      InsertedRefs(t.right, k, b);
    }
  }

  lemma {:induction false} DerefInsert(t: Refs, k: string, b: BTree<string>, m: Contents, n: Contents)
    requires RefsIn(t) <= m.Keys && RefsIn(Insert(t, k, b)) <= n.Keys && b in n
    requires forall x :: x in RefsIn(t) && x in n ==> n[x] == m[x]
    ensures Deref(Insert(t, k, b), n) == Insert(Deref(t, m), k, n[b])
  {
    if t.Node? {
      if MemCmp(k, t.key) > 0 {
        DerefInsert(t.right, k, b, m, n);
        DerefSame(t.left, m, n);
      } else if MemCmp(k, t.key) < 0 {
        DerefInsert(t.left, k, b, m, n);
        DerefSame(t.right, m, n);
      } else {
        DerefSame(t.left, m, n);
        DerefSame(t.right, m, n);
      }
    }
  }

  lemma {:induction false} DerefSame(t: Refs, m: Contents, n: Contents)
    requires RefsIn(t) <= m.Keys && RefsIn(t) <= n.Keys
    requires forall x :: x in RefsIn(t) ==> n[x] == m[x]
    ensures Deref(t, m) == Deref(t, n)
  {
    if t.Node? {
      DerefSame(t.left, m, n);
      DerefSame(t.right, m, n);
    }
  }

  lemma {:induction false} DerefFind(t: Refs, k: string, m: Contents)
    requires RefsIn(t) <= m.Keys
    ensures Find(t, k).Some? ==> Find(t, k).value in RefsIn(t)
    ensures Find(Deref(t, m), k) == if Find(t, k).Some? then Some(m[Find(t, k).value]) else None
  {
    if t.Node? {
      DerefFind(t.left, k, m);
      DerefFind(t.right, k, m);
    }
  }

  /** Changing one section object changes the configuration at its own node only. */
  lemma {:induction false} DerefSet(t: Refs, k: string, b: BTree<string>, m: Contents, n: Contents)
    requires Distinct(t) && RefsIn(t) <= m.Keys && RefsIn(t) <= n.Keys
    requires Find(t, k) == Some(b) && b in n
    requires forall x :: x in RefsIn(t) && x != b ==> n[x] == m[x]
    ensures Deref(t, n) == SetFound(Deref(t, m), k, n[b])
  {
    DerefFind(t.left, k, m);
    DerefFind(t.right, k, m);
    if StrCmp(k, t.key) > 0 {
      DerefSet(t.right, k, b, m, n);
      DerefSame(t.left, m, n);
    } else if StrCmp(k, t.key) < 0 {
      DerefSet(t.left, k, b, m, n);
      DerefSame(t.right, m, n);
    } else {
      DerefSame(t.left, m, n);
      DerefSame(t.right, m, n);
    }
  }

  /** A buffer and a length as the interface takes them: length 0 asks for the whole C string. */
  function Buffer(s: string, len: nat): string
    requires len <= |s|
  {
    if len == 0 then s else s[..len]
  }

  class IniConfig {
    const sections: BTree<BTree<string>>
    /** The tree of section pointers, and every section object ever made. */
    ghost var table: Refs
    ghost var made: set<BTree<string>>
    ghost var repr: set<object>

    ghost predicate Valid()
      reads this, repr
    {
      && this in repr && sections in repr && sections.footprint <= repr && made <= repr
      && sections.Valid() && table == sections.Content() && Distinct(table) && RefsIn(table) <= made
      && forall b :: b in made ==> b.footprint <= repr && b.Valid()
    }

    ghost function Model(): Config
      requires Valid()
      reads this, repr
    {
      Deref(table, Held(made))
    }

    /** Section objects share no node. */
    lemma SectionsAreApart()
      requires Valid()
      ensures forall b, d :: b in made && d in made && b != d ==> b.footprint !! d.footprint
    {}

    constructor ()
      ensures Valid() && fresh(repr) && Model() == Leaf
    {
      var s := new BTree<BTree<string>>();
      sections := s;
      table, made, repr := Leaf, {}, {this, s};
    }

    /** Hangs an empty section object at `name`. */
    method HangSection(section: BTree<string>, name: string)
      requires Valid() && section !in made && section.Valid() && section.footprint == {} && section.Content() == Leaf
      modifies sections, sections.footprint, this`table, this`made, this`repr
      ensures Valid() && fresh(repr - old(repr) - {section})
      ensures Model() == OpenSection(old(Model()), name)
    {
      hide BTree.Valid, BTree.Content, RefsIn, Deref, Insert, Distinct;
      ghost var t, m := table, Held(made);
      InsertedRefs(t, name, section);
      var r := sections.InsertNode(name, section);
      table, made := Insert(t, name, section), made + {section};
      repr := repr + sections.footprint + {section};
      DerefInsert(t, name, section, m, Held(made));
    }

    method InsertSection(name: string) returns (code: int)
      requires Valid()
      modifies repr
      ensures Valid() && fresh(repr - old(repr))
      ensures code == 1 && Model() == OpenSection(old(Model()), name)
    {
      var section := new BTree<string>();
      HangSection(section, name);
      code := 1;
    }

    /** The section object of a name, if the search finds it. */
    method GetSection(name: string) returns (section: BTree?<string>)
      requires Valid()
      ensures section == null <==> Find(table, name) == None
      ensures section != null ==> Find(table, name) == Some(section) && section in made
      ensures Find(Model(), name) == if section == null then None else Some(section.Content())
    {
      var node := sections.FindNode(name);
      DerefFind(table, name, Held(made));
      section := if node == null then null else node.data;
    }

    /** Inserts into a section object that hangs at `name`. The node holds what can be read back
        from the bytes allocated for it. */
    method InsertInto(section: BTree<string>, ghost name: string, key: string, value: string) returns (code: int)
      requires Valid() && Find(table, name) == Some(section) && section in made
      requires NulFree(key) && NulFree(value)
      modifies section, section.footprint, this`repr
      ensures Valid() && fresh(repr - old(repr))
      ensures code == if StopKey(old(section.Content()), key) == None then 1 else 2
      ensures Model() == SetFound(old(Model()), name, Insert(old(section.Content()), key, value))
    {
      hide BTree.Valid, BTree.Content, RefsIn, Deref, SetFound, Insert, Distinct, Find;
      SectionsAreApart();
      ghost var m := Held(made);
      var nodeKey, nodeData := NodeStrings(key, value);
      code := section.InsertNode(nodeKey, nodeData);
      repr := repr + section.footprint;
      DerefSet(table, name, section, m, Held(made));
    }

    method InsertSectionNode(name: string, key: string, value: string) returns (code: int)
      requires Valid() && NulFree(key) && NulFree(value)
      modifies repr
      ensures Valid() && fresh(repr - old(repr))
      ensures code == StoreCode(old(Model()), name, key)
      ensures code == 0 <==> PutEntry(old(Model()), name, key, value) == None
      ensures Model() == if code == 0 then old(Model()) else PutEntry(old(Model()), name, key, value).value
    {
      var section := GetSection(name);
      if section == null { return 0; }
      code := InsertInto(section, name, key, value);
    }

    method SetString(section: Option<string>, key: string, keyLen: nat, value: string, valueLen: nat)
      returns (code: int)
      requires Valid() && keyLen <= |key| && valueLen <= |value|
      requires NulFree(Buffer(key, keyLen)) && NulFree(Buffer(value, valueLen))
      modifies repr
      ensures Valid() && fresh(repr - old(repr))
      ensures code == StoreCode(Ensure(old(Model()), SectionName(section)), SectionName(section), Buffer(key, keyLen))
      ensures Model() == SetEntry(old(Model()), SectionName(section), Buffer(key, keyLen), Buffer(value, valueLen))
      ensures GetEntry(Model(), if section == None then "default" else section.value,
                       if keyLen == 0 then key else key[..keyLen])
              == Some(if valueLen == 0 then value else value[..valueLen])
    {
      hide BTree.Valid, BTree.Content, RefsIn, Deref, SetFound, Insert, Distinct, Find, Held;
      var name := SectionName(section);
      FindAfterInsert(Model(), name, Leaf);
      var sect := GetSection(name);
      if sect == null {
        var r := InsertSection(name);
        if r == 0 { return 0; }
        sect := GetSection(name);
      }
      code := InsertInto(sect, name, Buffer(key, keyLen), Buffer(value, valueLen));
      GetAfterSet(old(Model()), name, Buffer(key, keyLen), Buffer(value, valueLen));
    }

    method GetString(section: Option<string>, key: string, default: string) returns (r: string)
      requires Valid()
      ensures var e := GetEntry(Model(), SectionName(section), key); r == if e.Some? then e.value else default
    {
      var sec := GetSection(SectionName(section));
      if sec == null { return default; }
      SectionIsValid(sec);
      var node := sec.FindNode(key);
      r := if node == null then default else node.data;
    }

    method SetInt(section: Option<string>, key: string, keyLen: nat, value: int32) returns (code: int)
      requires Valid() && keyLen <= |key| && NulFree(Buffer(key, keyLen))
      modifies repr
      ensures Valid() && fresh(repr - old(repr))
      ensures code == StoreCode(Ensure(old(Model()), SectionName(section)), SectionName(section), Buffer(key, keyLen))
      ensures Model() == SetEntry(old(Model()), SectionName(section), Buffer(key, keyLen), Itoa(value))
    {
      ItoaFits(value);
      ItoaIsNulFree(value);
      var number := Itoa(value);
      assert number[..|number|] == number;
      code := SetString(section, key, keyLen, number, |number|);
    }

    method GetInt(section: Option<string>, key: string, default: int32) returns (r: int)
      requires Valid()
      ensures var e := GetEntry(Model(), SectionName(section), key);
              && r == (if e.Some? then Atoi(e.value) else default)
              && (e.Some? ==> (forall v :: NumberText(e.value, v) ==> r == v) && (NoNumber(e.value) ==> r == 0))
    {
      var sec := GetSection(SectionName(section));
      if sec == null { return default; }
      SectionIsValid(sec);
      var node := sec.FindNode(key);
      r := if node == null then default else Atoi(node.data);
      if node != null { ReadsItsNumber(node.data); }
    }

    lemma SectionIsValid(b: BTree<string>)
      requires Valid() && b in made
      ensures b.Valid()
    {}
  }

  function SectionName(section: Option<string>): string {
    if section.Some? then section.value else DEFAULT_NAME
  }

  lemma ReadsItsNumber(text: string)
    ensures forall v :: NumberText(text, v) ==> Atoi(text) == v
    ensures NoNumber(text) ==> Atoi(text) == 0
  {
    forall v | NumberText(text, v) ensures Atoi(text) == v { AtoiReads(text, v); }
    if NoNumber(text) { AtoiOfNoNumber(text); }
  }

  /** What an insertion into the named section returns: 1 for a key that takes a new place, 2 for
      one that takes the place of another, 0 when there is no such section. */
  function StoreCode(c: Config, name: string, key: string): int {
    match Find(c, name)
    case None => 0
    case Some(section) => if StopKey(section, key) == None then 1 else 2
  }

  /** Where the search is clean, 1 tells a new key from 2, one that was there. */
  lemma StoreCodeTells(c: Config, name: string, key: string)
    requires InOrder(c) && CleanSet(c, name, key)
    ensures StoreCode(c, name, key)
            == if Find(c, name) == None then 0 else if GetEntry(c, name, key) == None then 1 else 2
  {
    if Find(c, name).Some? {
      var section := Find(c, name).value;
      FindIsLookup(c, None, None, name);
      FindIsLookup(section, None, None, key);
      StopKeyStartsWithKey(section, key);
      if Lookup(section, key).Some? { ExtensionStopsTheSearch(section, None, None, key, key); }
    }
  }

  /** An integer that was set is read back, from any configuration. */
  lemma SetIntThenGetInt(c: Config, name: string, key: string, v: int32)
    ensures var e := GetEntry(SetEntry(c, name, key, Itoa(v)), name, key);
            e.Some? && Atoi(e.value) == v
  {
    GetAfterSet(c, name, key, Itoa(v));
    ItoaReadsBack(v);
  }

  lemma ItoaIsNulFree(v: int)
    ensures NulFree(Itoa(v))
  {
    DigitsReadBack(if v < 0 then -v else v);
  }

  /** The bytes of a node from its `mem` field on: room for the key, its terminator, the data and
      a terminator. Length 0 stands for `strlen`, with the terminator in the case of the data. Both
      read back from there as C strings. */
  method CreateNode(key: string, keyLen: nat, data: string, dataLen: nat)
    returns (mem: array<char>, keyAt: nat, dataAt: nat)
    requires keyLen <= |key| && dataLen <= |data|
    requires NulFree(Buffer(key, keyLen)) && NulFree(Buffer(data, dataLen))
    ensures fresh(mem) && keyAt == 0 && dataAt == |Buffer(key, keyLen)| + 1 && dataAt < mem.Length
    ensures mem[..] == Buffer(key, keyLen) + "\0" + Buffer(data, dataLen) + (if dataLen == 0 then "\0\0" else "\0")
    ensures CStr(mem[keyAt..]) == Buffer(key, keyLen) && CStr(mem[dataAt..]) == Buffer(data, dataLen)
  {
    var k, v, z := Buffer(key, keyLen), Buffer(data, dataLen), if dataLen == 0 then "\0" else "";
    var d := v + z;
    hide Buffer, CStr;
    keyAt, dataAt := 0, |k| + 1;
    mem := Fill(k, d, dataAt);
    Layout(mem[..], k, v, z);
    assert z + "\0" == if dataLen == 0 then "\0\0" else "\0";
    assert mem[keyAt..] == mem[..][keyAt..] && mem[dataAt..] == mem[..][dataAt..];
  }

  /** A zeroed block with two strings copied in. */
  method Fill(k: string, d: string, dataAt: nat) returns (mem: array<char>)
    requires dataAt == |k| + 1
    ensures fresh(mem) && mem.Length == |k| + |d| + 2 && mem[|k|] == mem[|k| + 1 + |d|] == '\0'
    ensures forall i :: 0 <= i < |k| ==> mem[i] == k[i]
    ensures forall i :: 0 <= i < |d| ==> mem[dataAt + i] == d[i]
  {
    mem := new char[2 + |k| + |d|](_ => '\0');
    forall i | 0 <= i < |k| { mem[i] := k[i]; }
    forall i | 0 <= i < |d| { mem[dataAt + i] := d[i]; }
  }

  /** A block filled like this holds both strings, and both read back. */
  lemma Layout(mem: seq<char>, k: string, v: string, z: string)
    requires NulFree(k) && NulFree(v) && (z == "" || z == "\0")
    requires |mem| == |k| + |v + z| + 2 && mem[|k|] == mem[|k| + 1 + |v + z|] == '\0'
    requires forall i :: 0 <= i < |k| ==> mem[i] == k[i]
    requires forall i :: 0 <= i < |v + z| ==> mem[|k| + 1 + i] == (v + z)[i]
    ensures mem == k + "\0" + v + (z + "\0")
    ensures CStr(mem[0..]) == k && CStr(mem[|k| + 1..]) == v
  {
    var d := v + z;
    assert mem == k + "\0" + (d + "\0");
    assert d + "\0" == v + (z + "\0");
    LayoutReadsBack(k, v, d + "\0", mem);
    assert mem == k + "\0" + v + (z + "\0");
  }

  lemma LayoutReadsBack(k: string, v: string, d: string, mem: seq<char>)
    requires NulFree(k) && NulFree(v) && v + "\0" <= d && mem == k + "\0" + d
    ensures CStr(mem[0..]) == k && CStr(mem[|k| + 1..]) == v
  {
    assert mem[0..] == mem && mem[|k| + 1..] == d;
    CStrReadsBack(k, mem);
    CStrReadsBack(v, d);
  }

  /** What `node->key` and `node->data` read as once the node is made. */
  method NodeStrings(key: string, data: string) returns (nodeKey: string, nodeData: string)
    requires NulFree(key) && NulFree(data)
    ensures nodeKey == key && nodeData == data
  {
    assert Buffer(key, |key|) == key && Buffer(data, |data|) == data;
    var mem, keyAt, dataAt := CreateNode(key, |key|, data, |data|);
    nodeKey, nodeData := CStr(mem[keyAt..]), CStr(mem[dataAt..]);
  }
}
