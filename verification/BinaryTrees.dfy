/** BinaryTree.h: the heap tree with parent links, its insertion loop, its walk and its destruction. */
module BinaryTrees {
  import opened FreeStores
  import opened SearchTrees

  class Node {
    var data: int
    var left: Node?
    var right: Node?
    var prev: Node?

    constructor (qData: int)
      ensures data == qData && left == null && right == null && prev == null
    {
      data, left, right, prev := qData, null, null, null;
    }

    // Reading a field through these is reading the cell: it has to be live.

    method GetLeft(store: FreeStore<Node>) returns (r: Node?)
      requires this in store.live
      ensures r == left
    {
      r := left;
    }

    method GetRight(store: FreeStore<Node>) returns (r: Node?)
      requires this in store.live
      ensures r == right
    {
      r := right;
    }

    method GetData(store: FreeStore<Node>) returns (r: int)
      requires this in store.live
      ensures r == data
    {
      r := data;
    }
  }

  /** Which nodes make up a tree, and how they hang together. */
  datatype Shape = Nil | At(node: Node, left: Shape, right: Shape)

  ghost function Nodes(s: Shape): set<Node> {
    match s
    case Nil => {}
    case At(n, l, r) => {n} + Nodes(l) + Nodes(r)
  }

  /** No node occurs twice: the links form a tree, with neither sharing nor cycles. */
  ghost predicate Distinct(s: Shape) {
    match s
    case Nil => true
    case At(n, l, r) =>
      && n !in Nodes(l) && n !in Nodes(r) && Nodes(l) !! Nodes(r)
      && Distinct(l) && Distinct(r)
  }

  /** A node's contents, and a snapshot of the part of the heap a tree occupies. */
  datatype Cell = Cell(data: int, left: Node?, right: Node?, prev: Node?)
  type Heap = map<Node, Cell>

  ghost function Snapshot(ns: set<Node>): (h: Heap)
    reads ns
    ensures h.Keys == ns
  {
    map n | n in ns :: Cell(n.data, n.left, n.right, n.prev)
  }

  /** `h` tells the truth about the nodes `ns`. */
  ghost predicate Current(h: Heap, ns: set<Node>)
    reads ns
  {
    ns <= h.Keys && forall n {:trigger h[n]} | n in ns :: h[n] == Cell(n.data, n.left, n.right, n.prev)
  }

  lemma CurrentIsSnapshot(h: Heap, ns: set<Node>)
    requires Current(h, ns) && h.Keys == ns
    ensures Snapshot(ns) == h
  {
  }

  /** The heap below `root` has shape `s`, and every `prev` link is the parent. */
  ghost predicate Linked(h: Heap, s: Shape, root: Node?, parent: Node?)
    requires Nodes(s) <= h.Keys
  {
    match s
    case Nil => root == null
    case At(n, l, r) =>
      && root == n && h[n].prev == parent
      && Linked(h, l, h[n].left, n) && Linked(h, r, h[n].right, n)
  }

  /** `h` tells the truth about a shape, node by node along its links. */
  ghost predicate Stored(h: Heap, s: Shape)
    requires Nodes(s) <= h.Keys
    reads Nodes(s)
  {
    match s
    case Nil => true
    case At(n, l, r) => h[n] == Cell(n.data, n.left, n.right, n.prev) && Stored(h, l) && Stored(h, r)
  }

  lemma {:induction false} CurrentIsStored(h: Heap, s: Shape)
    requires Current(h, Nodes(s))
    ensures Stored(h, s)
  {
    match s
    case Nil =>
    case At(n, l, r) =>
      CurrentIsStored(h, l);
      CurrentIsStored(h, r);
  }

  /** The data the heap holds, as a mathematical tree. */
  ghost function View(h: Heap, s: Shape): Tree
    requires Nodes(s) <= h.Keys
  {
    match s
    case Nil => Empty
    case At(n, l, r) => Branch(View(h, l), h[n].data, View(h, r))
  }

  /** The node a descent for `x` ends at, or `above` when there is none. */
  ghost function LastOnPath(h: Heap, s: Shape, x: int, above: Node?): (p: Node?)
    requires Nodes(s) <= h.Keys
    ensures if s == Nil then p == above else p != null && p in Nodes(s)
  {
    match s
    case Nil => above
    case At(n, l, r) => if x > h[n].data then LastOnPath(h, r, x, n) else LastOnPath(h, l, x, n)
  }

  /** The shape with `leaf` hung where a descent for `x` ends. */
  ghost function Attach(h: Heap, s: Shape, x: int, leaf: Node): (s': Shape)
    requires Nodes(s) <= h.Keys
    ensures Nodes(s') == Nodes(s) + {leaf}
  {
    match s
    case Nil => At(leaf, Nil, Nil)
    case At(n, l, r) =>
      if x > h[n].data then At(n, l, Attach(h, r, x, leaf)) else At(n, Attach(h, l, x, leaf), r)
  }

  /** The heap after an insertion: a new cell, and one link from the node `p` passed last. */
  ghost function Hang(h: Heap, p: Node?, x: int, leaf: Node): Heap
    requires p != null ==> p in h
  {
    var h' := h[leaf := Cell(x, null, null, p)];
    if p == null then h'
    else h'[p := if x > h[p].data then h[p].(right := leaf) else h[p].(left := leaf)]
  }

  lemma {:induction false} AttachDistinct(h: Heap, s: Shape, x: int, leaf: Node)
    requires Nodes(s) <= h.Keys
    requires Distinct(s) && leaf !in Nodes(s)
    ensures Distinct(Attach(h, s, x, leaf))
  {
    match s
    case Nil =>
    case At(n, l, r) =>
      if x > h[n].data {
        AttachDistinct(h, r, x, leaf);
      } else {
        AttachDistinct(h, l, x, leaf);
      }
  }

  /** Only the cells of a shape matter to it. */
  lemma {:induction false} SameCells(h: Heap, h': Heap, s: Shape, root: Node?, parent: Node?)
    requires Nodes(s) <= h.Keys && Nodes(s) <= h'.Keys
    requires forall n | n in Nodes(s) :: h[n] == h'[n]
    ensures Linked(h', s, root, parent) == Linked(h, s, root, parent)
    ensures View(h', s) == View(h, s)
  {
    match s
    case Nil =>
    case At(n, l, r) =>
      SameCells(h, h', l, h[n].left, n);
      SameCells(h, h', r, h[n].right, n);
  }

  /** Writing the one link below the last node of the descent inserts `x` into the whole tree. */
  lemma {:induction false} HangInserts(h: Heap, s: Shape, root: Node?, parent: Node?, x: int, leaf: Node)
    requires s != Nil && Distinct(s)
    requires Nodes(s) <= h.Keys && leaf !in h
    requires Linked(h, s, root, parent)
    ensures var h' := Hang(h, LastOnPath(h, s, x, parent), x, leaf);
            var s' := Attach(h, s, x, leaf);
            && Nodes(s') <= h'.Keys
            && Linked(h', s', root, parent)
            && View(h', s') == Insert(View(h, s), x)
  {
    var h' := Hang(h, LastOnPath(h, s, x, parent), x, leaf);
    match s
    case At(n, l, r) =>
      if x > h[n].data {
        SameCells(h, h', l, h[n].left, n);
        if r == Nil {
          assert View(h', At(leaf, Nil, Nil)) == Branch(Empty, x, Empty);
        } else {
          HangInserts(h, r, h[n].right, n, x, leaf);
        }
      } else {
        SameCells(h, h', r, h[n].right, n);
        if l == Nil {
          assert View(h', At(leaf, Nil, Nil)) == Branch(Empty, x, Empty);
        } else {
          HangInserts(h, l, h[n].left, n, x, leaf);
        }
      }
  }

  /** `root` holds the search tree of shape `s`. */
  ghost predicate Holds(h: Heap, s: Shape, root: Node?) {
    && Distinct(s) && Nodes(s) <= h.Keys
    && Linked(h, s, root, null)
    && IsSearchTree(View(h, s))
  }

  /** The whole effect of an insertion on a tree held by `root`. */
  lemma AddKeepsTree(h: Heap, s: Shape, root: Node?, x: int, p: Node?, leaf: Node, h': Heap, s': Shape, root': Node?)
    requires Holds(h, s, root) && leaf !in h
    requires p == LastOnPath(h, s, x, null)
    requires h' == Hang(h, p, x, leaf) && s' == Attach(h, s, x, leaf) && root' == if p == null then leaf else root
    ensures Holds(h', s', root')
    ensures View(h', s') == Insert(View(h, s), x)
    ensures multiset(PostOrder(View(h', s'))) == multiset(PostOrder(View(h, s))) + multiset{x}
  {
    InsertContents(View(h, s), x);
    InsertKeepsOrder(View(h, s), x);
    AttachDistinct(h, s, x, leaf);
    if s == Nil {
      assert View(h', At(leaf, Nil, Nil)) == Branch(Empty, x, Empty);
    } else {
      HangInserts(h, s, root, null, x, leaf);
    }
  }

  // ----- the post-order walk over nodes

  ghost function PostNodes(s: Shape): seq<Node> {
    match s
    case Nil => []
    case At(n, l, r) => PostNodes(l) + PostNodes(r) + [n]
  }

  lemma {:induction false} PostNodesMembers(s: Shape)
    ensures forall n :: n in PostNodes(s) <==> n in Nodes(s)
    ensures forall i | 0 <= i < |PostNodes(s)| :: PostNodes(s)[i] in Nodes(s)
  {
    match s
    case Nil =>
    case At(n, l, r) =>
      PostNodesMembers(l);
      PostNodesMembers(r);
  }

  /** `d` lies strictly below `n`. */
  ghost predicate Below(s: Shape, n: Node, d: Node) {
    match s
    case Nil => false
    case At(m, l, r) => (n == m && d in Nodes(l) + Nodes(r)) || Below(l, n, d) || Below(r, n, d)
  }

  /** `a` hangs in the left and `b` in the right subtree of one node. */
  ghost predicate LeftOf(s: Shape, a: Node, b: Node) {
    match s
    case Nil => false
    case At(_, l, r) => (a in Nodes(l) && b in Nodes(r)) || LeftOf(l, a, b) || LeftOf(r, a, b)
  }

  ghost predicate NoRepeats(ns: seq<Node>) {
    forall i, j | 0 <= i < j < |ns| :: ns[i] != ns[j]
  }

  /** Nobody comes before anyone below him. */
  ghost predicate ChildrenFirst(s: Shape, ns: seq<Node>) {
    forall i, j | 0 <= i < j < |ns| :: !Below(s, ns[i], ns[j])
  }

  /** Nobody in a right subtree comes before anyone in the left subtree beside it. */
  ghost predicate LeftFirst(s: Shape, ns: seq<Node>) {
    forall i, j | 0 <= i < j < |ns| :: !LeftOf(s, ns[j], ns[i])
  }

  lemma {:induction false} LeftOfMembers(s: Shape, a: Node, b: Node)
    requires LeftOf(s, a, b)
    ensures a in Nodes(s) && b in Nodes(s)
  {
    match s
    case At(_, l, r) =>
      if LeftOf(l, a, b) {
        LeftOfMembers(l, a, b);
      } else if LeftOf(r, a, b) {
        LeftOfMembers(r, a, b);
      }
  }

  lemma {:induction false} BelowMembers(s: Shape, n: Node, d: Node)
    requires Below(s, n, d)
    ensures n in Nodes(s) && d in Nodes(s)
  {
    match s
    case At(_, l, r) =>
      if Below(l, n, d) {
        BelowMembers(l, n, d);
      } else if Below(r, n, d) {
        BelowMembers(r, n, d);
      }
  }

  lemma {:induction false} WalkPair(s: Shape, i: nat, j: nat)
    requires Distinct(s)
    requires i < j < |PostNodes(s)|
    ensures PostNodes(s)[i] != PostNodes(s)[j]
    ensures !Below(s, PostNodes(s)[i], PostNodes(s)[j]) && !LeftOf(s, PostNodes(s)[j], PostNodes(s)[i])
  {
    var At(n, l, r) := s;
    var a, b := PostNodes(l), PostNodes(r);
    var x, y := PostNodes(s)[i], PostNodes(s)[j];
    PostNodesMembers(l);
    PostNodesMembers(r);
    assert if i < |a| then x == a[i] && x in Nodes(l) else x == b[i - |a|] && x in Nodes(r);
    assert if j < |a| then y == a[j] && y in Nodes(l)
           else if j < |a| + |b| then y == b[j - |a|] && y in Nodes(r) else y == n;
    if j < |a| {
      WalkPair(l, i, j);
    } else if |a| <= i && j < |a| + |b| {
      WalkPair(r, i - |a|, j - |a|);
    }
    if Below(l, x, y) {
      BelowMembers(l, x, y);
    }
    if Below(r, x, y) {
      BelowMembers(r, x, y);
    }
    if LeftOf(l, y, x) {
      LeftOfMembers(l, y, x);
    }
    if LeftOf(r, y, x) {
      LeftOfMembers(r, y, x);
    }
  }

  /** The walk visits every node exactly once, left subtrees before right ones, and each node after
      everything below it. */
  lemma WalkOrder(s: Shape)
    requires Distinct(s)
    ensures forall n :: n in PostNodes(s) <==> n in Nodes(s)
    ensures NoRepeats(PostNodes(s))
    ensures ChildrenFirst(s, PostNodes(s)) && LeftFirst(s, PostNodes(s))
  {
    PostNodesMembers(s);
    forall i, j | 0 <= i < j < |PostNodes(s)|
      ensures PostNodes(s)[i] != PostNodes(s)[j]
      ensures !Below(s, PostNodes(s)[i], PostNodes(s)[j]) && !LeftOf(s, PostNodes(s)[j], PostNodes(s)[i])
    {
      WalkPair(s, i, j);
    }
  }

  /** Any two nodes are above and below one another or to the left and right of one another, so these
      rules leave the walk no choice. */
  lemma {:induction false} PlacesCompare(s: Shape, a: Node, b: Node)
    requires a in Nodes(s) && b in Nodes(s) && a != b
    ensures Below(s, a, b) || Below(s, b, a) || LeftOf(s, a, b) || LeftOf(s, b, a)
  {
    var At(n, l, r) := s;
    if a in Nodes(l) && b in Nodes(l) {
      PlacesCompare(l, a, b);
    } else if a in Nodes(r) && b in Nodes(r) {
      PlacesCompare(r, a, b);
    }
  }

  /** What is shown is the data of the nodes in the order of the walk. */
  lemma {:induction false} ShownInOrder(h: Heap, s: Shape)
    requires Nodes(s) <= h.Keys
    ensures forall n | n in PostNodes(s) :: n in h
    ensures |PostOrder(View(h, s))| == |PostNodes(s)|
    ensures forall i | 0 <= i < |PostNodes(s)| :: PostOrder(View(h, s))[i] == h[PostNodes(s)[i]].data
  {
    PostNodesMembers(s);
    match s
    case Nil =>
    case At(n, l, r) =>
      ShownInOrder(h, l);
      ShownInOrder(h, r);
  }

  lemma SingleNode(n: Node)
    ensures Nodes(At(n, Nil, Nil)) == {n} && PostNodes(At(n, Nil, Nil)) == [n]
  {
    assert Nodes(Nil) == {} && PostNodes(Nil) == [];
  }

  // ----- the class

  class BinaryTree {
    const store: FreeStore<Node>
    var head: Node?
    ghost var shape: Shape

    ghost predicate Valid()
      reads this, store, Nodes(shape)
    {
      Holds(Cells(), shape, head) && Nodes(shape) <= store.live
    }

    ghost function Cells(): (h: Heap)
      reads this, Nodes(shape)
      ensures h.Keys == Nodes(shape)
    {
      Snapshot(Nodes(shape))
    }

    /** The stored data as a mathematical tree. */
    ghost function Value(): Tree
      reads this, Nodes(shape)
    {
      View(Cells(), shape)
    }

    constructor (store: FreeStore<Node>)
      ensures Valid() && Value() == Empty && this.store == store
    {
      this.store := store;
      head := null;
      shape := Nil;
    }

    /** A leaf holding `x`, linked from its parent: greater data on the right, other data on the left. */
    ghost predicate Hangs(leaf: Node, x: int)
      reads this, leaf, leaf.prev
    {
      && leaf.data == x && leaf.left == null && leaf.right == null
      && if leaf.prev == null then head == leaf
         else leaf == if x > leaf.prev.data then leaf.prev.right else leaf.prev.left
    }

    /** The descent over `curr` and `prev`, then one new leaf below the last node passed. */
    method Add(data: int) returns (leaf: Node)
      requires Valid()
      modifies this, store, Nodes(shape)
      ensures Valid() && Value() == Insert(old(Value()), data)
      ensures multiset(PostOrder(Value())) == multiset(PostOrder(old(Value()))) + multiset{data}
      ensures fresh(leaf) && Nodes(shape) == old(Nodes(shape)) + {leaf}
      ensures store.live == old(store.live) + {leaf} && store.freed == old(store.freed)
      // where the new node hangs
      ensures Hangs(leaf, data)
      // the whole new heap: one new cell, one link written, all else as before
      ensures var p := old(LastOnPath(Cells(), shape, data, null));
              && Cells() == Hang(old(Cells()), p, data, leaf)
              && head == if p == null then leaf else old(head)
    {
      var curr: Node? := head;
      var prev: Node? := null;
      ghost var h, sub := Cells(), shape;
      while curr != null
        invariant Nodes(sub) <= Nodes(shape) && Linked(h, sub, curr, prev)
        invariant LastOnPath(h, sub, data, prev) == LastOnPath(h, shape, data, null)
        decreases sub
        modifies {}
      {
        prev := curr;
        var here := curr.GetData(store);
        if data > here {
          curr := curr.GetRight(store);
          sub := sub.right;
        } else {
          curr := curr.GetLeft(store);
          sub := sub.left;
        }
      }
      leaf := Splice(prev, data);
    }

    method Splice(prev: Node?, data: int) returns (leaf: Node)
      requires Valid() && prev == LastOnPath(Cells(), shape, data, null)
      modifies this, store, prev
      ensures Valid() && Value() == Insert(old(Value()), data)
      ensures multiset(PostOrder(Value())) == multiset(PostOrder(old(Value()))) + multiset{data}
      ensures fresh(leaf) && Nodes(shape) == old(Nodes(shape)) + {leaf}
      ensures store.live == old(store.live) + {leaf} && store.freed == old(store.freed)
      ensures Cells() == Hang(old(Cells()), prev, data, leaf)
      ensures head == if prev == null then leaf else old(head)
      ensures Hangs(leaf, data)
    {
      ghost var h, s, root := Cells(), shape, head;
      leaf := Link(prev, data);
      ghost var h', s' := Hang(h, prev, data, leaf), Attach(h, s, data, leaf);
      AddKeepsTree(h, s, root, data, prev, leaf, h', s', head);
      Adopt(h', s');
    }

    /** The heap holds the tree of a new shape. */
    ghost method Adopt(h: Heap, s: Shape)
      requires Nodes(s) <= store.live && Snapshot(Nodes(s)) == h && Holds(h, s, head)
      modifies `shape
      ensures Valid() && shape == s && Cells() == h
    {
      shape := s;
    }

    /** A new leaf below `prev`, or a new head. */
    method Link(prev: Node?, data: int) returns (tmp: Node)
      requires prev == null || prev in Nodes(shape)
      requires Nodes(shape) <= store.live
      modifies this`head, store, prev
      ensures fresh(tmp) && store.live == old(store.live) + {tmp} && store.freed == old(store.freed)
      ensures Snapshot(Nodes(shape) + {tmp}) == Hang(old(Cells()), prev, data, tmp)
      ensures head == if prev == null then tmp else old(head)
      ensures Hangs(tmp, data)
    {
      tmp := new Node(data);
      store.Register(tmp);
      tmp.prev := prev;
      if prev == null {
        head := tmp;
      } else {
        var here := prev.GetData(store);
        if data > here {
          prev.right := tmp;
        } else {
          prev.left := tmp;
        }
      }
      ghost var h' := Hang(old(Cells()), prev, data, tmp);
      forall n | n in Nodes(shape) + {tmp}
        ensures h'[n] == Cell(n.data, n.left, n.right, n.prev)
      {
        assert n != tmp ==> old(Cells())[n] == old(Cell(n.data, n.left, n.right, n.prev));
      }
      CurrentIsSnapshot(h', Nodes(shape) + {tmp});
    }

    /** What a walk that performs `act` deletes, in order. */
    static ghost function Deleted(act: Action, s: Shape): seq<Node> {
      if act == Delete then PostNodes(s) else []
    }

    static ghost function StillLive(act: Action, live: set<Node>, s: Shape): set<Node> {
      if act == Delete then live - Nodes(s) else live
    }

    static lemma DeletedInOrder(act: Action, freed: seq<Node>, live: set<Node>, s: Shape)
      requires s.At?
      ensures freed + Deleted(act, s.left) + Deleted(act, s.right) + Deleted(act, At(s.node, Nil, Nil)) == freed + Deleted(act, s)
      ensures StillLive(act, StillLive(act, StillLive(act, live, s.left), s.right), At(s.node, Nil, Nil)) == StillLive(act, live, s)
    {
      SingleNode(s.node);
    }

    /** Left subtree, right subtree, then the node itself: `act` runs on a node only after both walks
        below it have returned, so deleting the node there is safe. */
    method Browse(curr: Node?, act: Action, ghost h: Heap, ghost s: Shape, ghost parent: Node?)
        returns (shown: seq<int>)
      requires Nodes(s) <= h.Keys && Stored(h, s) && Nodes(s) <= store.live
      requires Distinct(s) && Linked(h, s, curr, parent)
      modifies store
      ensures shown == if act == Show then PostOrder(View(h, s)) else []
      ensures store.live == StillLive(act, old(store.live), s)
      ensures store.freed == old(store.freed) + Deleted(act, s)
      decreases s
    {
      if curr == null {
        return [];
      }
      var l := curr.GetLeft(store);
      var shownLeft := Browse(l, act, h, s.left, curr);
      var r := curr.GetRight(store);
      var shownRight := Browse(r, act, h, s.right, curr);
      var shownHere := Act(curr, act);
      shown := shownLeft + shownRight + shownHere;
      DeletedInOrder(act, old(store.freed), old(store.live), s);
    }

    /** The two callbacks given to `browse`. */
    method Act(curr: Node, act: Action) returns (shown: seq<int>)
      requires curr in store.live
      modifies store
      ensures shown == if act == Show then [curr.data] else []
      ensures store.live == StillLive(act, old(store.live), At(curr, Nil, Nil))
      ensures store.freed == old(store.freed) + Deleted(act, At(curr, Nil, Nil))
    {
      SingleNode(curr);
      match act {
        case Show =>
          var d := curr.GetData(store);
          shown := [d];
        case Delete =>
          store.Delete(curr);
          shown := [];
      }
    }

    /** What the walk prints: the data of all nodes, left subtrees first and each node after what is
        below it. */
    method Display() returns (shown: seq<int>)
      requires Valid()
      modifies store
      ensures Valid() && shown == PostOrder(Value())
      ensures |shown| == |PostNodes(shape)|
      ensures forall i | 0 <= i < |shown| :: shown[i] == PostNodes(shape)[i].data
      ensures NoRepeats(PostNodes(shape)) && forall n :: n in PostNodes(shape) <==> n in Nodes(shape)
      ensures ChildrenFirst(shape, PostNodes(shape)) && LeftFirst(shape, PostNodes(shape))
      ensures store.live == old(store.live) && store.freed == old(store.freed)
    {
      CurrentIsStored(Cells(), shape);
      ShownInOrder(Cells(), shape);
      WalkOrder(shape);
      shown := Browse(head, Show, Cells(), shape, null);
    }

    /** The destructor's work: every node is deleted exactly once, after everything below it. */
    method Destroy()
      requires Valid()
      modifies store
      ensures store.live == old(store.live) - Nodes(shape)
      ensures store.freed == old(store.freed) + PostNodes(shape)
      ensures forall n :: n in PostNodes(shape) <==> n in Nodes(shape)
      ensures NoRepeats(PostNodes(shape))
      ensures ChildrenFirst(shape, PostNodes(shape)) && LeftFirst(shape, PostNodes(shape))
    {
      CurrentIsStored(Cells(), shape);
      var _ := Browse(head, Delete, Cells(), shape, null);
      WalkOrder(shape);
    }
  }

  /** Adding `xs` one by one, the last one first. */
  method AddBackwards(t: BinaryTree, xs: seq<int>)
    requires t.Valid()
    modifies t, t.store, Nodes(t.shape)
    ensures t.Valid() && t.Value() == InsertAll(old(t.Value()), Reverse(xs))
    ensures fresh(Nodes(t.shape) - old(Nodes(t.shape)))
  {
    if xs != [] {
      ghost var v := t.Value();
      AddBackwards(t, xs[1..]);
      InsertLast(v, xs);
      var _ := t.Add(xs[0]);
    }
  }

  lemma InsertLast(t: Tree, xs: seq<int>)
    requires xs != []
    ensures InsertAll(t, Reverse(xs)) == Insert(InsertAll(t, Reverse(xs[1..])), xs[0])
  {
    InsertAllSplit(t, Reverse(xs[1..]), [xs[0]]);
    assert [xs[0]][1..] == [];
  }

  /** What a tree displays, added backwards to an empty tree, grows its twin: same shape, same data. */
  method CopyByDisplay(t: BinaryTree) returns (twin: BinaryTree)
    requires t.Valid()
    modifies t.store
    ensures twin.Valid() && twin.Value() == old(t.Value()) == t.Value()
    ensures fresh(twin) && fresh(Nodes(twin.shape))
  {
    ghost var v := t.Value();
    var shown := t.Display();
    twin := GrowTwin(t.store, shown, v);
  }

  method GrowTwin(store: FreeStore<Node>, shown: seq<int>, ghost v: Tree) returns (twin: BinaryTree)
    requires IsSearchTree(v) && shown == PostOrder(v)
    modifies store
    ensures twin.Valid() && twin.Value() == v
    ensures fresh(twin) && fresh(Nodes(twin.shape))
  {
    RebuildFromPostOrder(v);
    twin := new BinaryTree(store);
    AddBackwards(twin, shown);
  }
}
