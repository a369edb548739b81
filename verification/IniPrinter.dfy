/** The sorted printer: every section in order, every key of it in order. */
module IniPrinter {
  import opened ConfigBTree
  import opened ConfigListing
  import opened IniModel
  import opened IniStore

  function EntryLine(key: string, value: string): string {
    key + "=" + value + "\n"
  }

  function HeaderLine(name: string): string {
    "[" + name + "]" + "\n"
  }

  function PrintEntries(items: Items<string>): string {
    if items == [] then ""
    else EntryLine(items[0].0, items[0].1) + PrintEntries(items[1..])
  }

  function PrintSection(name: string, section: SectionTree): string {
    HeaderLine(name) + PrintEntries(Inorder(section))
  }

  function PrintSections(items: Items<SectionTree>): string {
    if items == [] then ""
    else PrintSection(items[0].0, items[0].1) + PrintSections(items[1..])
  }

  function Print(c: Config): string {
    PrintSections(Inorder(c))
  }

  lemma {:induction false} PrintEntriesConcat(a: Items<string>, b: Items<string>)
    ensures PrintEntries(a + b) == PrintEntries(a) + PrintEntries(b)
  {
    hide EntryLine;
    if a == [] {
      assert a + b == b;
    } else {
      assert (a + b)[1..] == a[1..] + b;
      PrintEntriesConcat(a[1..], b);
    }
  }

  lemma {:induction false} PrintSectionsConcat(a: Items<SectionTree>, b: Items<SectionTree>)
    ensures PrintSections(a + b) == PrintSections(a) + PrintSections(b)
  {
    hide PrintSection;
    if a == [] {
      assert a + b == b;
    } else {
      assert (a + b)[1..] == a[1..] + b;
      PrintSectionsConcat(a[1..], b);
    }
  }

  lemma EntriesInOrder(a: Items<string>, k: string, v: string, b: Items<string>)
    ensures PrintEntries(a + [(k, v)] + b) == PrintEntries(a) + EntryLine(k, v) + PrintEntries(b)
  {
    hide EntryLine;
    PrintEntriesConcat(a + [(k, v)], b);
    PrintEntriesConcat(a, [(k, v)]);
    assert PrintEntries([(k, v)]) == EntryLine(k, v) + PrintEntries([(k, v)][1..]);
  }

  lemma SectionsInOrder(a: Items<SectionTree>, k: string, v: SectionTree, b: Items<SectionTree>)
    ensures PrintSections(a + [(k, v)] + b) == PrintSections(a) + PrintSection(k, v) + PrintSections(b)
  {
    hide PrintSection;
    PrintSectionsConcat(a + [(k, v)], b);
    PrintSectionsConcat(a, [(k, v)]);
    assert PrintSections([(k, v)]) == PrintSection(k, v) + PrintSections([(k, v)][1..]);
  }

  /** The printed characters: a line `key=value` for each entry, in the order of the listing. */
  lemma EntriesLiterally(a: Items<string>, k: string, v: string, b: Items<string>)
    ensures PrintEntries([]) == ""
    ensures PrintEntries(a + [(k, v)] + b) == PrintEntries(a) + (k + "=" + v + "\n") + PrintEntries(b)
  {
    EntriesInOrder(a, k, v, b);
  }

  /** And a line `[name]` before the entries of each section. */
  lemma SectionsLiterally(a: Items<SectionTree>, name: string, section: SectionTree, b: Items<SectionTree>)
    ensures PrintSections([]) == ""
    ensures PrintSections(a + [(name, section)] + b)
            == PrintSections(a) + ("[" + name + "]\n" + PrintEntries(Inorder(section))) + PrintSections(b)
  {
    SectionsInOrder(a, name, section, b);
    assert "[" + name + "]" + "\n" == "[" + name + "]\n";
  }

  /** Appends the entries under `p` to what the file holds. */
  method SaveEntries(p: Node?<string>, ghost s: Shape<string>, file: string) returns (out: string)
    requires Linked(p, s)
    ensures out == file + PrintEntries(Inorder(Value(s)))
    decreases s
  {
    hide EntryLine;
    if p == null { return file; }
    NodesAreAllocated(s.right);
    var l := SaveEntries(p.left, s.left, file);
    var m := l + EntryLine(p.key, p.data);
    out := SaveEntries(p.right, s.right, m);
    EntriesInOrder(Inorder(Value(s.left)), p.key, p.data, Inorder(Value(s.right)));
  }

  /** What is printed of a subtree of sections. */
  ghost function Printed(s: Shape<BTree<string>>, m: Contents): string
    requires RefsIn(Value(s)) <= m.Keys
  {
    PrintSections(Inorder(Deref(Value(s), m)))
  }

  lemma PrintedInOrder(s: Shape<BTree<string>>, m: Contents)
    requires s.At? && RefsIn(Value(s)) <= m.Keys
    ensures s.node.data in m && RefsIn(Value(s.left)) <= m.Keys && RefsIn(Value(s.right)) <= m.Keys
    ensures Printed(s, m) == Printed(s.left, m) + PrintSection(s.node.key, m[s.node.data]) + Printed(s.right, m)
  {
    hide PrintSection;
    SectionsInOrder(Inorder(Deref(Value(s.left), m)), s.node.key, m[s.node.data],
                    Inorder(Deref(Value(s.right), m)));
  }

  /** Appends the sections under `p`, each with its entries. */
  method SaveSections(p: Node?<BTree<string>>, ghost s: Shape<BTree<string>>, config: IniConfig, file: string)
    returns (out: string)
    requires config.Valid() && Linked(p, s) && RefsIn(Value(s)) <= config.made
    ensures out == file + Printed(s, Held(config.made))
    decreases s
  {
    hide PrintSection, IniConfig.Valid, BTree.Valid, BTree.Content;
    if p == null { return file; }
    NodesAreAllocated(s.right);
    PrintedInOrder(s, Held(config.made));
    hide Printed;
    var l := SaveSections(p.left, s.left, config, file);
    config.SectionIsValid(p.data);
    var m := SaveSection(p.key, p.data, l);
    out := SaveSections(p.right, s.right, config, m);
  }

  method SaveSection(name: string, section: BTree<string>, file: string) returns (out: string)
    requires section.Valid()
    ensures out == file + PrintSection(name, section.Content())
  {
    out := SaveEntries(section.root, section.shape, file + HeaderLine(name));
  }

  method PrintConfig(config: IniConfig) returns (out: string)
    requires config.Valid()
    ensures out == Print(config.Model())
  {
    out := SaveSections(config.sections.root, config.sections.shape, config, "");
  }
}
