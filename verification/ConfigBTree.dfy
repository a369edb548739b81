/** The search tree as it lies in memory: nodes relinked in place through a pointer to the field
    that holds them. `Shape` names the nodes of a tree, `Context` the path from the root down to a
    hole; neither exists at run time. */
module ConfigBTree {
  import opened Base
  import opened CString
  import opened ConfigTree

  class Node<V> {
    const key: string
    const data: V
    /** The tree the node was made for. */
    ghost const home: object
    var left: Node?<V>
    var right: Node?<V>

    constructor (key: string, data: V, ghost home: object)
      ensures this.key == key && this.data == data && this.home == home && left == null && right == null
    {
      this.key, this.data, this.home := key, data, home;
      left, right := null, null;
    }
  }

  datatype Shape<V> = Nil | At(node: Node<V>, left: Shape<V>, right: Shape<V>)

  ghost function Nodes<V>(s: Shape<V>): set<Node<V>> {
    match s
    case Nil => {}
    case At(n, l, r) => {n} + Nodes(l) + Nodes(r)
  }

  lemma {:induction false} NodesAreAllocated<V>(s: Shape<V>)
    ensures forall n :: n in Nodes(s) ==> allocated(n)
  {
    if s.At? {
      NodesAreAllocated(s.left);
      NodesAreAllocated(s.right);
    }
  }

  /** No node occurs twice. */
  ghost predicate Tidy<V>(s: Shape<V>) {
    s.At? ==>
      && Tidy(s.left) && Tidy(s.right) && Nodes(s.left) !! Nodes(s.right)
      && s.node !in Nodes(s.left) && s.node !in Nodes(s.right)
  }

  /** The memory reached from `p` is exactly the shape. */
  ghost predicate Linked<V>(p: Node?<V>, s: Shape<V>)
    reads Nodes(s)
    ensures Linked(p, s) ==> (p == null <==> s == Nil)
  {
    match s
    case Nil => p == null
    case At(n, l, r) => p == n && Linked(n.left, l) && Linked(n.right, r)
  }

  ghost function Value<V>(s: Shape<V>): Tree<V> {
    match s
    case Nil => Leaf
    case At(n, l, r) => Tree.Node(Value(l), n.key, n.data, Value(r))
  }

  datatype Context<V> =
    | Top
    | InLeft(node: Node<V>, up: Context<V>, other: Shape<V>)
    | InRight(node: Node<V>, up: Context<V>, other: Shape<V>)

  ghost function Plug<V>(c: Context<V>, s: Shape<V>): Shape<V> {
    match c
    case Top => s
    case InLeft(n, up, r) => Plug(up, At(n, s, r))
    case InRight(n, up, l) => Plug(up, At(n, l, s))
  }

  ghost function PathNodes<V>(c: Context<V>): set<Node<V>> {
    if c.Top? then {} else {c.node} + PathNodes(c.up) + Nodes(c.other)
  }

  ghost predicate TidyPath<V>(c: Context<V>) {
    !c.Top? ==>
      && TidyPath(c.up) && Tidy(c.other) && PathNodes(c.up) !! Nodes(c.other)
      && c.node !in PathNodes(c.up) && c.node !in Nodes(c.other)
  }

  /** The memory reached from `root` is the context, with `hole` stored where it is open. */
  ghost predicate PathLinked<V>(root: Node?<V>, c: Context<V>, hole: Node?<V>)
    reads PathNodes(c)
  {
    match c
    case Top => root == hole
    case InLeft(n, up, r) => n.left == hole && Linked(n.right, r) && PathLinked(root, up, n)
    case InRight(n, up, l) => n.right == hole && Linked(n.left, l) && PathLinked(root, up, n)
  }

  ghost function PlugValue<V>(c: Context<V>, t: Tree<V>): Tree<V> {
    match c
    case Top => t
    case InLeft(n, up, r) => PlugValue(up, Tree.Node(t, n.key, n.data, Value(r)))
    case InRight(n, up, l) => PlugValue(up, Tree.Node(Value(l), n.key, n.data, t))
  }

  /** The turns of the path are those of an insertion of `k`. */
  ghost predicate InsertPath<V>(c: Context<V>, k: string) {
    match c
    case Top => true
    case InLeft(n, up, _) => MemCmp(k, n.key) < 0 && InsertPath(up, k)
    case InRight(n, up, _) => MemCmp(k, n.key) > 0 && InsertPath(up, k)
  }

  /** The turns of the path are those of a search for `k`. */
  ghost predicate SearchPath<V>(c: Context<V>, k: string) {
    match c
    case Top => true
    case InLeft(n, up, _) => StrCmp(k, n.key) < 0 && SearchPath(up, k)
    case InRight(n, up, _) => StrCmp(k, n.key) > 0 && SearchPath(up, k)
  }

  lemma {:induction false} PlugLinks<V>(root: Node?<V>, c: Context<V>, hole: Node?<V>, s: Shape<V>)
    requires PathLinked(root, c, hole) && Linked(hole, s)
    ensures Linked(root, Plug(c, s))
  {
    match c
    case Top =>
    case InLeft(n, up, r) => PlugLinks(root, up, n, At(n, s, r));
    case InRight(n, up, l) => PlugLinks(root, up, n, At(n, l, s));
  }

  lemma {:induction false} PlugTidies<V>(c: Context<V>, s: Shape<V>)
    requires TidyPath(c) && Tidy(s) && PathNodes(c) !! Nodes(s)
    ensures Tidy(Plug(c, s)) && Nodes(Plug(c, s)) == PathNodes(c) + Nodes(s)
  {
    match c
    case Top =>
    case InLeft(n, up, r) => PlugTidies(up, At(n, s, r));
    case InRight(n, up, l) => PlugTidies(up, At(n, l, s));
  }

  lemma {:induction false} PlugIsPlugValue<V>(c: Context<V>, s: Shape<V>)
    ensures Value(Plug(c, s)) == PlugValue(c, Value(s))
  {
    match c
    case Top =>
    case InLeft(n, up, r) => PlugIsPlugValue(up, At(n, s, r));
    case InRight(n, up, l) => PlugIsPlugValue(up, At(n, l, s));
  }

  /** An insertion acts at the end of its path. */
  lemma {:induction false} InsertAlongPath<V>(c: Context<V>, t: Tree<V>, k: string, v: V)
    requires InsertPath(c, k)
    ensures Insert(PlugValue(c, t), k, v) == PlugValue(c, Insert(t, k, v))
    ensures StopKey(PlugValue(c, t), k) == StopKey(t, k)
  {
    match c
    case Top =>
    case InLeft(n, up, r) => InsertAlongPath(up, Tree.Node(t, n.key, n.data, Value(r)), k, v);
    case InRight(n, up, l) => InsertAlongPath(up, Tree.Node(Value(l), n.key, n.data, t), k, v);
  }

  /** What storing the new node at the end of its insertion path does to the tree's value. */
  lemma StoredValue<V>(c: Context<V>, cur: Shape<V>, s: Shape<V>)
    requires s.At? && InsertPath(c, s.node.key)
    requires Value(s) == Insert(Value(cur), s.node.key, s.node.data)
    ensures var before, k := Value(Plug(c, cur)), s.node.key;
            && PlugValue(c, Value(s)) == Insert(before, k, s.node.data)
            && StopKey(before, k) == StopKey(Value(cur), k)
            && Count(PlugValue(c, Value(s))) == Count(before) + (if StopKey(before, k) == None then 1 else 0)
  {
    PlugIsPlugValue(c, cur);
    InsertAlongPath(c, Value(cur), s.node.key, s.node.data);
    InsertCount(Value(Plug(c, cur)), s.node.key, s.node.data);
  }

  /** A search and a deletion act at the end of their path. */
  lemma {:induction false} SearchAlongPath<V>(c: Context<V>, t: Tree<V>, k: string)
    requires SearchPath(c, k)
    ensures Find(PlugValue(c, t), k) == Find(t, k)
    ensures Delete(PlugValue(c, t), k) == PlugValue(c, Delete(t, k))
  {
    match c
    case Top =>
    case InLeft(n, up, r) => SearchAlongPath(up, Tree.Node(t, n.key, n.data, Value(r)), k);
    case InRight(n, up, l) => SearchAlongPath(up, Tree.Node(Value(l), n.key, n.data, t), k);
  }

  /** What taking the found node out at the end of the search path does to the tree's value. */
  lemma FoundValue<V>(c: Context<V>, cur: Shape<V>, k: string)
    requires cur.At? && SearchPath(c, k) && StrCmp(k, cur.node.key) == 0
    ensures var before, after := Value(Plug(c, cur)), PlugValue(c, RemoveRoot(Value(cur)));
            && after == Delete(before, k) && Find(before, k) == Some(cur.node.data)
            && Count(before) == Count(after) + 1
  {
    PlugIsPlugValue(c, cur);
    SearchAlongPath(c, Value(cur), k);
    RemoveRootCount(Value(cur));
    CountAlongPath(c, RemoveRoot(Value(cur)), Value(cur));
  }

  lemma NothingFound<V>(c: Context<V>, cur: Shape<V>, k: string)
    requires cur == Nil && SearchPath(c, k)
    ensures Find(Value(Plug(c, cur)), k) == None && Delete(Value(Plug(c, cur)), k) == Value(Plug(c, cur))
  {
    PlugIsPlugValue(c, cur);
    SearchAlongPath(c, Value(cur), k);
  }

  lemma {:induction false} CountAlongPath<V>(c: Context<V>, small: Tree<V>, big: Tree<V>)
    requires Count(big) == Count(small) + 1
    ensures Count(PlugValue(c, big)) == Count(PlugValue(c, small)) + 1
  {
    match c
    case Top =>
    case InLeft(n, up, r) =>
      CountAlongPath(up, Tree.Node(small, n.key, n.data, Value(r)), Tree.Node(big, n.key, n.data, Value(r)));
    case InRight(n, up, l) =>
      CountAlongPath(up, Tree.Node(Value(l), n.key, n.data, small), Tree.Node(Value(l), n.key, n.data, big));
  }

  /** The address of a pointer: the root field or a field of a node. */
  datatype Slot<V> = Root | LeftOf(node: Node<V>) | RightOf(node: Node<V>)

  ghost function SlotOf<V>(c: Context<V>): Slot<V> {
    match c
    case Top => Root
    case InLeft(n, _, _) => LeftOf(n)
    case InRight(n, _, _) => RightOf(n)
  }

  // ----- the splice of a deletion -----

  ghost predicate RightSpine<V>(c: Context<V>) {
    !c.Top? ==> c.InRight? && RightSpine(c.up)
  }

  ghost predicate LeftSpine<V>(c: Context<V>) {
    !c.Top? ==> c.InLeft? && LeftSpine(c.up)
  }

  lemma {:induction false} RemoveMaxAlongSpine<V>(c: Context<V>, t: Tree<V>)
    requires RightSpine(c) && t.Node?
    ensures PlugValue(c, t).Node?
    ensures RemoveMax(PlugValue(c, t)) == (PlugValue(c, RemoveMax(t).0), RemoveMax(t).1, RemoveMax(t).2)
  {
    if c.InRight? {
      RemoveMaxAlongSpine(c.up, Tree.Node(Value(c.other), c.node.key, c.node.data, t));
    }
  }

  lemma {:induction false} RemoveMinAlongSpine<V>(c: Context<V>, t: Tree<V>)
    requires LeftSpine(c) && t.Node?
    ensures PlugValue(c, t).Node?
    ensures RemoveMin(PlugValue(c, t)) == (PlugValue(c, RemoveMin(t).0), RemoveMin(t).1, RemoveMin(t).2)
  {
    if c.InLeft? {
      RemoveMinAlongSpine(c.up, Tree.Node(t, c.node.key, c.node.data, Value(c.other)));
    }
  }

  /** Unlinks the rightmost node of the shape `s` under `p` and returns it with the shape left
      behind; the field written is the one that pointed at it. */
  method UnlinkMax<V>(p: Node<V>, ghost s: Shape<V>) returns (temp: Node<V>, direct: bool, ghost rest: Shape<V>)
    requires Linked(p, s) && Tidy(s)
    modifies Nodes(s)
    ensures temp in Nodes(s) && Tidy(rest) && Nodes(rest) == Nodes(s) - {temp}
    ensures direct ==> temp == p && Linked(p.left, rest)
    ensures !direct ==> Linked(p, rest)
    ensures RemoveMax(Value(s)) == (Value(rest), temp.key, temp.data)
  {
    temp := p;
    var prevTmp: Option<Node<V>> := None;
    ghost var c, cur := Top, s;
    NodesAreAllocated(s);
    while temp.right != null
      invariant RightSpine(c) && s == Plug(c, cur) && prevTmp == (if c.Top? then None else Some(c.node))
      invariant Linked(temp, cur) && PathLinked(p, c, temp)
      invariant Tidy(cur) && TidyPath(c) && PathNodes(c) !! Nodes(cur)
      decreases cur
    {
      c, cur := InRight(temp, c, cur.left), cur.right;
      prevTmp, temp := Some(temp), temp.right;
    }
    assert cur.right == Nil;
    PlugTidies(c, cur);
    PlugIsPlugValue(c, cur);
    RemoveMaxAlongSpine(c, Value(cur));
    PlugTidies(c, cur.left);
    PlugIsPlugValue(c, cur.left);
    rest := Plug(c, cur.left);
    direct := prevTmp.None?;
    if prevTmp.Some? {
      prevTmp.value.right := temp.left;
      assert PathLinked(p, c, temp.left) && Linked(temp.left, cur.left);
      PlugLinks(p, c, temp.left, cur.left);
    }
  }

  /** The mirror image of `UnlinkMax`. */
  method UnlinkMin<V>(p: Node<V>, ghost s: Shape<V>) returns (temp: Node<V>, direct: bool, ghost rest: Shape<V>)
    requires Linked(p, s) && Tidy(s)
    modifies Nodes(s)
    ensures temp in Nodes(s) && Tidy(rest) && Nodes(rest) == Nodes(s) - {temp}
    ensures direct ==> temp == p && Linked(p.right, rest)
    ensures !direct ==> Linked(p, rest)
    ensures RemoveMin(Value(s)) == (Value(rest), temp.key, temp.data)
  {
    temp := p;
    var prevTmp: Option<Node<V>> := None;
    ghost var c, cur := Top, s;
    NodesAreAllocated(s);
    while temp.left != null
      invariant LeftSpine(c) && s == Plug(c, cur) && prevTmp == (if c.Top? then None else Some(c.node))
      invariant Linked(temp, cur) && PathLinked(p, c, temp)
      invariant Tidy(cur) && TidyPath(c) && PathNodes(c) !! Nodes(cur)
      decreases cur
    {
      c, cur := InLeft(temp, c, cur.right), cur.left;
      prevTmp, temp := Some(temp), temp.left;
    }
    assert cur.left == Nil;
    PlugTidies(c, cur);
    PlugIsPlugValue(c, cur);
    RemoveMinAlongSpine(c, Value(cur));
    PlugTidies(c, cur.right);
    PlugIsPlugValue(c, cur.right);
    rest := Plug(c, cur.right);
    direct := prevTmp.None?;
    if prevTmp.Some? {
      prevTmp.value.left := temp.right;
      assert PathLinked(p, c, temp.right) && Linked(temp.right, cur.right);
      PlugLinks(p, c, temp.right, cur.right);
    }
  }

  /** Takes out a root with a left subtree: the in-order predecessor takes its place. */
  method SpliceMax<V>(p: Node<V>, ghost s: Shape<V>) returns (temp: Node<V>, ghost rest: Shape<V>)
    requires Linked(p, s) && Tidy(s) && p.left != null
    modifies Nodes(s)
    ensures Linked(temp, rest) && Tidy(rest) && Nodes(rest) == Nodes(s) - {p}
    ensures Value(rest) == RemoveRoot(Value(s))
  {
    NodesAreAllocated(s);
    ghost var left;
    var direct;
    temp, direct, left := UnlinkMax(p.left, s.left);
    if !direct { temp.left := p.left; }
    temp.right := p.right;
    rest := At(temp, left, s.right);
    assert Linked(temp.left, left);
  }

  /** Takes out a root with only a right subtree: the in-order successor takes its place. */
  method SpliceMin<V>(p: Node<V>, ghost s: Shape<V>) returns (temp: Node<V>, ghost rest: Shape<V>)
    requires Linked(p, s) && Tidy(s) && p.left == null && p.right != null
    modifies Nodes(s)
    ensures Linked(temp, rest) && Tidy(rest) && Nodes(rest) == Nodes(s) - {p}
    ensures Value(rest) == RemoveRoot(Value(s))
  {
    NodesAreAllocated(s);
    ghost var right;
    var direct;
    temp, direct, right := UnlinkMin(p.right, s.right);
    if !direct { temp.right := p.right; }
    temp.left := p.left;
    rest := At(temp, Nil, right);
    assert Linked(temp.right, right);
  }

  /** Takes `p` out of the shape `s` it roots. */
  method SpliceOut<V>(p: Node<V>, ghost s: Shape<V>) returns (q: Node?<V>, ghost rest: Shape<V>)
    requires Linked(p, s) && Tidy(s)
    modifies Nodes(s)
    ensures Linked(q, rest) && Tidy(rest) && Nodes(rest) == Nodes(s) - {p}
    ensures Value(rest) == RemoveRoot(Value(s))
  {
    if p.left != null {
      q, rest := SpliceMax(p, s);
    } else if p.right != null {
      q, rest := SpliceMin(p, s);
    } else {
      q, rest := null, Nil;
    }
  }

  class BTree<V> {
    var numNodes: nat
    var root: Node?<V>
    ghost var shape: Shape<V>
    ghost var footprint: set<Node<V>>

    ghost predicate Valid()
      reads this, footprint
    {
      && footprint == Nodes(shape) && Tidy(shape) && Linked(root, shape) && numNodes == Count(Content())
      && forall n :: n in footprint ==> n.home == this
    }

    ghost function Content(): Tree<V>
      reads this
    {
      Value(shape)
    }

    constructor ()
      ensures Valid() && Content() == Leaf && footprint == {}
    {
      numNodes, root, shape, footprint := 0, null, Nil, {};
    }

    /** The descent has reached the subtree `cur` at `p`, along the path `c`. */
    ghost predicate Reached(c: Context<V>, cur: Shape<V>, p: Node?<V>)
      reads this, PathNodes(c), Nodes(cur)
    {
      && shape == Plug(c, cur) && footprint == PathNodes(c) + Nodes(cur)
      && Linked(p, cur) && PathLinked(root, c, p)
      && Tidy(cur) && TidyPath(c) && PathNodes(c) !! Nodes(cur)
    }

    /** `*slot = p`, where `slot` is the open end of the path `c`. */
    method Write(slot: Slot<V>, p: Node?<V>, ghost c: Context<V>, ghost hole: Node?<V>)
      requires slot == SlotOf(c) && TidyPath(c) && PathLinked(root, c, hole)
      modifies this`root, if slot.Root? then {} else {slot.node}
      ensures PathLinked(root, c, p)
    {
      match slot
      case Root => root := p;
      case LeftOf(n) => n.left := p;
      case RightOf(n) => n.right := p;
    }

    /** `*slot = p`, which hangs the shape `s` at the open end of the path `c`. */
    method Hang(slot: Slot<V>, p: Node?<V>, ghost c: Context<V>, ghost hole: Node?<V>, ghost s: Shape<V>)
      requires slot == SlotOf(c) && TidyPath(c) && PathLinked(root, c, hole)
      requires Linked(p, s) && Tidy(s) && PathNodes(c) !! Nodes(s)
      modifies this, if slot.Root? then {} else {slot.node}
      ensures numNodes == old(numNodes)
      ensures Tidy(shape) && Linked(root, shape) && footprint == Nodes(shape) == PathNodes(c) + Nodes(s)
      ensures Content() == PlugValue(c, Value(s))
    {
      hide Plug, PlugValue, Value;
      NodesAreAllocated(s);
      Write(slot, p, c, hole);
      assert Linked(p, s);
      PlugLinks(root, c, p, s);
      PlugTidies(c, s);
      PlugIsPlugValue(c, s);
      shape, footprint := Plug(c, s), Nodes(Plug(c, s));
    }

    lemma Descend(c: Context<V>, cur: Shape<V>, p: Node?<V>)
      requires Reached(c, cur, p) && cur.At?
      ensures Reached(InLeft(cur.node, c, cur.right), cur.left, cur.node.left)
      ensures Reached(InRight(cur.node, c, cur.left), cur.right, cur.node.right)
    {}

    /** Stores `node`, whose shape is now `s`, at the end of its insertion path. */
    method Store(slot: Slot<V>, node: Node<V>, ghost c: Context<V>, ghost cur: Shape<V>, ghost p: Node?<V>,
                 ghost s: Shape<V>)
      requires Reached(c, cur, p) && InsertPath(c, node.key) && slot == SlotOf(c)
      requires Linked(node, s) && Tidy(s) && PathNodes(c) !! Nodes(s)
      requires Value(s) == Insert(Value(cur), node.key, node.data)
      modifies this, if slot.Root? then {} else {slot.node}
      ensures numNodes == old(numNodes) && footprint == Nodes(shape) == PathNodes(c) + Nodes(s)
      ensures Tidy(shape) && Linked(root, shape)
      ensures Content() == Insert(old(Content()), node.key, node.data)
      ensures StopKey(old(Content()), node.key) == StopKey(Value(cur), node.key)
      ensures Count(Content()) == Count(old(Content())) + (if StopKey(Value(cur), node.key) == None then 1 else 0)
    {
      StoredValue(c, cur, s);
      Hang(slot, node, c, p, s);
    }

    /** Ends an insertion at a free field. */
    method Attach(slot: Slot<V>, node: Node<V>, ghost c: Context<V>)
      requires Valid() && Reached(c, Nil, null) && InsertPath(c, node.key) && slot == SlotOf(c)
      requires node !in footprint && node.home == this && node.left == node.right == null
      modifies this, if slot.Root? then {} else {slot.node}
      ensures Valid() && footprint <= old(footprint) + {node}
      ensures Content() == Insert(old(Content()), node.key, node.data)
      ensures StopKey(old(Content()), node.key) == None
    {
      Store(slot, node, c, Nil, null, At(node, Nil, Nil));
      numNodes := numNodes + 1;
    }

    /** Ends an insertion at an equal key: `node` takes the place and the subtrees of `p`. */
    method Replace(slot: Slot<V>, node: Node<V>, ghost c: Context<V>, ghost cur: Shape<V>, p: Node<V>)
      requires Valid() && Reached(c, cur, p) && InsertPath(c, node.key) && slot == SlotOf(c)
      requires node !in footprint && node.home == this && MemCmp(node.key, p.key) == 0
      modifies this, node, if slot.Root? then {} else {slot.node}
      ensures Valid() && footprint <= old(footprint) + {node}
      ensures Content() == Insert(old(Content()), node.key, node.data)
      ensures StopKey(old(Content()), node.key) != None
    {
      node.left, node.right := p.left, p.right;
      Store(slot, node, c, cur, p, At(node, cur.left, cur.right));
    }

    method InsertNode(key: string, data: V) returns (code: int)
      requires Valid()
      modifies this, footprint
      ensures Valid() && fresh(footprint - old(footprint))
      ensures Content() == Insert(old(Content()), key, data)
      ensures code == if StopKey(old(Content()), key) == None then 1 else 2
    {
      var node := new Node(key, data, this);
      if root == null {
        Attach(Root, node, Top);
        return 1;
      }
      var p, prev := root, Root;
      ghost var c, cur := Top, shape;
      while p != null
        invariant cur.At? && Reached(c, cur, p) && InsertPath(c, key) && prev == SlotOf(c)
        invariant Valid() && Content() == old(Content()) && footprint == old(footprint)
        invariant node !in footprint && node.home == this && node.left == node.right == null
        decreases cur
      {
        Descend(c, cur, p);
        var comp := MemCmp(key, p.key);
        if comp > 0 {
          c, cur := InRight(p, c, cur.left), cur.right;
          if p.right == null {
            Attach(RightOf(p), node, c);
            return 1;
          }
          prev, p := RightOf(p), p.right;
        } else if comp < 0 {
          c, cur := InLeft(p, c, cur.right), cur.left;
          if p.left == null {
            Attach(LeftOf(p), node, c);
            return 1;
          }
          prev, p := LeftOf(p), p.left;
        } else {
          Replace(prev, node, c, cur, p);
          return 2;
        }
      }
      assert false;
    }

    /** Ends a deletion at the node it has found. */
    method Remove(slot: Slot<V>, key: string, ghost c: Context<V>, ghost cur: Shape<V>, p: Node<V>)
      requires Valid() && Reached(c, cur, p) && SearchPath(c, key) && slot == SlotOf(c)
      requires StrCmp(key, p.key) == 0
      modifies this, footprint
      ensures Valid() && footprint <= old(footprint)
      ensures Content() == Delete(old(Content()), key) && Find(old(Content()), key) != None
      ensures numNodes == old(numNodes) - 1
    {
      FoundValue(c, cur, key);
      var q, rest := SpliceOut(p, cur);
      Hang(slot, q, c, p, rest);
      numNodes := numNodes - 1;
    }

    method FindNode(key: string) returns (p: Node?<V>)
      requires Valid()
      ensures p == null <==> Find(Content(), key) == None
      ensures p != null ==> p in footprint && p.key == key && Find(Content(), key) == Some(p.data)
    {
      p := root;
      ghost var c, cur := Top, shape;
      while p != null
        invariant shape == Plug(c, cur) && SearchPath(c, key)
        invariant Linked(p, cur) && Tidy(cur) && TidyPath(c) && PathNodes(c) !! Nodes(cur)
        decreases cur
      {
        PlugTidies(c, cur);
        PlugIsPlugValue(c, cur);
        SearchAlongPath(c, Value(cur), key);
        StrCmpEqual(key, p.key);
        var comp := StrCmp(key, p.key);
        if comp > 0 {
          c, cur := InRight(p, c, cur.left), cur.right;
          p := p.right;
        } else if comp < 0 {
          c, cur := InLeft(p, c, cur.right), cur.left;
          p := p.left;
        } else {
          return p;
        }
      }
      PlugIsPlugValue(c, cur);
      SearchAlongPath(c, Value(cur), key);
    }

    method DeleteNode(key: string) returns (code: int)
      requires Valid()
      modifies this, footprint
      ensures Valid() && footprint <= old(footprint)
      ensures Content() == Delete(old(Content()), key)
      ensures code == if Find(old(Content()), key) == None then 0 else 1
      ensures numNodes == old(numNodes) - code
    {
      var p, prevPos := root, Root;
      ghost var c, cur := Top, shape;
      while p != null
        invariant Reached(c, cur, p) && SearchPath(c, key) && prevPos == SlotOf(c)
        invariant Valid() && Content() == old(Content()) && footprint == old(footprint)
        invariant numNodes == old(numNodes)
        decreases cur
      {
        Descend(c, cur, p);
        var comp := StrCmp(key, p.key);
        if comp > 0 {
          c, cur := InRight(p, c, cur.left), cur.right;
          prevPos, p := RightOf(p), p.right;
        } else if comp < 0 {
          c, cur := InLeft(p, c, cur.right), cur.left;
          prevPos, p := LeftOf(p), p.left;
        } else {
          Remove(prevPos, key, c, cur, p);
          return 1;
        }
      }
      NothingFound(c, cur, key);
      return 0;
    }
  }
}
