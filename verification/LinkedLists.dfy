/** linked_list/linked_list.h: a singly linked list on the heap. */
module LinkedLists {
  import opened FreeStores

  class Node {
    const data: int
    var next: Node?

    constructor (data: int)
      ensures this.data == data && next == null
    {
      this.data, next := data, null;
    }

    // Reading through these is reading the cell: it has to be live.

    method GetNext(store: FreeStore<Node>) returns (r: Node?)
      requires this in store.live
      ensures r == next
    {
      r := next;
    }

    method GetData(store: FreeStore<Node>) returns (r: int)
      requires this in store.live
      ensures r == data
    {
      r := data;
    }
  }

  // ----- the specification, on sequences of nodes

  /** The position of the first node holding `x`, or the length. */
  ghost function FirstWith(ns: seq<Node>, x: int): (k: nat)
    ensures k <= |ns|
    ensures forall i | 0 <= i < k :: ns[i].data != x
    ensures k < |ns| ==> ns[k].data == x
  {
    if ns == [] then 0 else if ns[0].data == x then 0 else 1 + FirstWith(ns[1..], x)
  }

  ghost function Without(ns: seq<Node>, k: nat): seq<Node> {
    if k < |ns| then ns[..k] + ns[k + 1..] else ns
  }

  lemma {:induction false} FirstWithIs(ns: seq<Node>, x: int, k: nat)
    requires k <= |ns|
    requires forall i | 0 <= i < k :: ns[i].data != x
    requires k < |ns| ==> ns[k].data == x
    ensures FirstWith(ns, x) == k
  {
  }

  /** Removing takes out one occurrence of the value, if there is one, and leaves all others in order. */
  lemma RemoveTakesOne(ns: seq<Node>, x: int)
    ensures var k := FirstWith(ns, x);
            && Without(ns, k) == (if x in Values(ns) then ns[..k] + ns[k + 1..] else ns)
            && multiset(Values(Without(ns, k))) == multiset(Values(ns)) - multiset{x}
            && Values(Without(ns, k)) == if k < |ns| then Values(ns)[..k] + Values(ns)[k + 1..] else Values(ns)
  {
    var k, xs := FirstWith(ns, x), Values(ns);
    ValuesWithout(ns, k);
    if k < |ns| {
      DropOne(xs, k);
    } else {
      NotThere(xs, x);
    }
  }

  lemma ValuesWithout(ns: seq<Node>, k: nat)
    ensures Values(Without(ns, k)) == if k < |ns| then Values(ns)[..k] + Values(ns)[k + 1..] else Values(ns)
  {
  }

  lemma DropOne(xs: seq<int>, k: nat)
    requires k < |xs|
    ensures multiset(xs[..k] + xs[k + 1..]) == multiset(xs) - multiset{xs[k]}
  {
    assert xs == xs[..k] + [xs[k]] + xs[k + 1..];
  }

  lemma NotThere(xs: seq<int>, x: int)
    requires forall i | 0 <= i < |xs| :: xs[i] != x
    ensures multiset(xs) - multiset{x} == multiset(xs)
  {
    assert x !in multiset(xs);
  }

  ghost predicate Distinct(ns: seq<Node>) {
    forall i, j | 0 <= i < j < |ns| :: ns[i] != ns[j]
  }

  /** The data in order. */
  ghost function Values(ns: seq<Node>): (xs: seq<int>)
    ensures |xs| == |ns| && forall i | 0 <= i < |ns| :: xs[i] == ns[i].data
  {
    seq(|ns|, i requires 0 <= i < |ns| => ns[i].data)
  }

  ghost function Members(ns: seq<Node>): set<Node> {
    set n | n in ns
  }

  /** What a walk over `ns` that performs `act` shows, and what it does to the store. */
  ghost function Shown(act: Action, ns: seq<Node>): seq<int> {
    if act == Show then Values(ns) else []
  }

  ghost function Deleted(act: Action, ns: seq<Node>): seq<Node> {
    if act == Delete then ns else []
  }

  ghost function StillLive(act: Action, live: set<Node>, ns: seq<Node>): set<Node> {
    if act == Delete then live - Members(ns) else live
  }

  lemma OneMore(act: Action, live: set<Node>, freed: seq<Node>, ns: seq<Node>, k: nat)
    requires k < |ns|
    ensures Shown(act, ns[..k + 1]) == Shown(act, ns[..k]) + Shown(act, [ns[k]])
    ensures freed + Deleted(act, ns[..k + 1]) == freed + Deleted(act, ns[..k]) + Deleted(act, [ns[k]])
    ensures StillLive(act, live, ns[..k + 1]) == StillLive(act, StillLive(act, live, ns[..k]), [ns[k]])
  {
    assert ns[..k + 1] == ns[..k] + [ns[k]];
  }

  /** Where the nodes that are left came from. */
  function Origin(k: nat, i: nat): nat {
    if i < k then i else i + 1
  }

  lemma WithoutAt(ns: seq<Node>, k: nat)
    requires k < |ns|
    ensures |Without(ns, k)| == |ns| - 1
    ensures forall i: nat | i < |ns| - 1 :: Without(ns, k)[i] == ns[Origin(k, i)]
    ensures forall n | n in Without(ns, k) :: n in ns
  {
  }

  lemma WithoutDistinct(ns: seq<Node>, k: nat)
    requires k < |ns| && Distinct(ns)
    ensures Distinct(Without(ns, k)) && ns[k] !in Without(ns, k)
  {
    WithoutAt(ns, k);
    var w := Without(ns, k);
    forall i: nat, j: nat | i < j < |w|
      ensures w[i] != w[j]
    {
      assert w[i] == ns[Origin(k, i)] && w[j] == ns[Origin(k, j)];
    }
    forall i: nat | i < |w|
      ensures w[i] != ns[k]
    {
      assert w[i] == ns[Origin(k, i)];
    }
  }

  lemma WithoutAfter(ns: seq<Node>, k: nat, i: nat)
    requires k < |ns| && i < |ns| - 1
    ensures |Without(ns, k)| == |ns| - 1
    ensures After(Without(ns, k), i) == if i + 1 == k then After(ns, k) else After(ns, Origin(k, i))
  {
    WithoutAt(ns, k);
    if i + 1 < |ns| - 1 {
      assert Without(ns, k)[i + 1] == ns[Origin(k, i + 1)];
    }
  }

  /** What follows position `i` in a chain. */
  ghost function After(ns: seq<Node>, i: nat): Node? {
    if i + 1 < |ns| then ns[i + 1] else null
  }

  class LinkedList {
    const store: FreeStore<Node>
    var head: Node?
    ghost var spine: seq<Node>

    ghost predicate Valid()
      reads this, store, spine
    {
      && Distinct(spine)
      && head == (if spine == [] then null else spine[0])
      && (forall i | 0 <= i < |spine| :: spine[i].next == After(spine, i))
      && (forall n | n in spine :: n in store.live)
    }

    constructor (store: FreeStore<Node>)
      ensures Valid() && spine == [] && this.store == store
    {
      this.store := store;
      head, spine := null, [];
    }

    /** A new node in front; no other cell is written. */
    method Add(data: int)
      requires Valid()
      modifies this, store
      ensures Valid() && spine != [] && spine[1..] == old(spine)
      ensures fresh(spine[0]) && spine[0].data == data
      ensures store.live == old(store.live) + {spine[0]} && store.freed == old(store.freed)
    {
      var node := new Node(data);
      store.Register(node);
      node.next := head;
      head := node;
      ghost var before := spine;
      spine := [node] + before;
      forall i | 0 < i < |spine|
        ensures spine[i].next == After(spine, i)
      {
        assert spine[i] == before[i - 1] && before[i - 1].next == After(before, i - 1);
      }
    }

    /** Takes the node at position `k` out of the chain and deletes it. */
    method Unlink(prev: Node?, curr: Node, ghost k: nat)
      requires Valid() && k < |spine| && curr == spine[k]
      requires prev == if k == 0 then null else spine[k - 1]
      modifies this, store, prev
      ensures Valid() && spine == Without(old(spine), k)
      ensures store.live == old(store.live) - {curr} && store.freed == old(store.freed) + [curr]
    {
      assert curr.next == After(spine, k);
      var next := curr.GetNext(store);
      if prev == null {
        head := next;
      } else {
        prev.next := next;
      }
      store.Delete(curr);
      WithoutAt(spine, k);
      WithoutDistinct(spine, k);
      ghost var before := spine;
      spine := Without(before, k);
      forall i: nat | i < |spine|
        ensures spine[i].next == After(spine, i)
      {
        WithoutAfter(before, k, i);
        assert spine[i] == before[Origin(k, i)];
      }
    }

    /** Unlinks and deletes the first node holding `data`, if there is one; order and identity of the
        other nodes stay, and at most the link into the deleted node is written.
        The loop ends at the deletion, so nothing is read from the deleted node. */
    method Remove(data: int)
      requires Valid()
      modifies this, store, spine
      ensures Valid()
      ensures var k := FirstWith(old(spine), data);
              && spine == Without(old(spine), k)
              && store.live == old(store.live) - (if k < |old(spine)| then {old(spine)[k]} else {})
              && store.freed == old(store.freed) + (if k < |old(spine)| then [old(spine)[k]] else [])
              && forall i | 0 <= i < |old(spine)| && !(i + 1 == k < |old(spine)|) ::
                   old(spine)[i].next == old(spine[i].next)
    {
      var prev: Node? := null;
      var curr := head;
      ghost var before, k, found := spine, 0, false;
      while curr != null
        invariant k <= |before| && Valid()
        invariant forall i | 0 <= i < k :: before[i].data != data
        invariant if found then k < |before| && before[k].data == data && curr == null
                  else curr == if k < |before| then before[k] else null
        invariant !found ==> prev == if k == 0 then null else before[k - 1]
        invariant spine == if found then Without(before, k) else before
        invariant store.live == old(store.live) - if found then {before[k]} else {}
        invariant store.freed == old(store.freed) + if found then [before[k]] else []
        invariant forall i | 0 <= i < |before| && !(found && i + 1 == k) :: before[i].next == old(before[i].next)
        decreases !found, |before| - k
      {
        var here := curr.GetData(store);
        if here == data {
          Unlink(prev, curr, k);
          curr := null;
          found := true;
        } else {
          assert curr.next == After(before, k);
          prev := curr;
          curr := curr.GetNext(store);
          k := k + 1;
        }
      }
      FirstWithIs(before, data, k);
    }

    /** Each node once, in order. The next link is read before the action runs, so the action may delete
        the node. */
    method Browse(act: Action) returns (shown: seq<int>)
      requires Valid()
      modifies store
      ensures act == Show ==> |shown| == |spine| && forall i | 0 <= i < |spine| :: shown[i] == spine[i].data
      ensures act == Show ==> store.live == old(store.live) && store.freed == old(store.freed)
      ensures act == Delete ==> shown == [] && store.freed == old(store.freed) + spine
      ensures act == Delete ==> forall n :: n in store.live <==> n in old(store.live) && n !in spine
    {
      var curr := head;
      var prev: Node?;
      shown := [];
      ghost var k := 0;
      while curr != null
        invariant k <= |spine| && curr == (if k < |spine| then spine[k] else null)
        invariant shown == Shown(act, spine[..k])
        invariant store.freed == old(store.freed) + Deleted(act, spine[..k])
        invariant store.live == StillLive(act, old(store.live), spine[..k])
        invariant forall i | k <= i < |spine| :: spine[i] in store.live
        decreases |spine| - k
      {
        assert curr.next == After(spine, k);
        prev := curr;
        curr := curr.GetNext(store);
        var d := Act(prev, act);
        shown := shown + d;
        OneMore(act, old(store.live), old(store.freed), spine, k);
        k := k + 1;
      }
      assert spine[..k] == spine;
    }

    /** The two callbacks given to `browse`. */
    method Act(node: Node, act: Action) returns (shown: seq<int>)
      requires node in store.live
      modifies store
      ensures shown == Shown(act, [node])
      ensures store.freed == old(store.freed) + Deleted(act, [node])
      ensures store.live == StillLive(act, old(store.live), [node])
    {
      match act {
        case Show =>
          var d := node.GetData(store);
          shown := [d];
        case Delete =>
          store.Delete(node);
          shown := [];
      }
    }
  }

  /** Removing what was just added restores the list, node for node. */
  method AddThenRemove(list: LinkedList, data: int)
    requires list.Valid()
    modifies list, list.store, list.spine
    ensures list.Valid() && list.spine == old(list.spine) && list.head == old(list.head)
    ensures forall n | n in list.spine :: n.next == old(n.next)
    ensures list.store.live == old(list.store.live)
  {
    list.Add(data);
    list.Remove(data);
  }
}
