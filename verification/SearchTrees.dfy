/** The mathematical content of BinaryTree.h: insertion, the post-order walk, and how they undo each other. */
module SearchTrees {

  datatype Tree = Empty | Branch(left: Tree, data: int, right: Tree)

  /** One insertion: strictly greater keys go right, equal keys go left. */
  function Insert(t: Tree, x: int): Tree {
    match t
    case Empty => Branch(Empty, x, Empty)
    case Branch(l, d, r) => if x > d then Branch(l, d, Insert(r, x)) else Branch(Insert(l, x), d, r)
  }

  function InsertAll(t: Tree, xs: seq<int>): Tree
    decreases |xs|
  {
    if xs == [] then t else InsertAll(Insert(t, xs[0]), xs[1..])
  }

  function PostOrder(t: Tree): seq<int> {
    match t
    case Empty => []
    case Branch(l, d, r) => PostOrder(l) + PostOrder(r) + [d]
  }

  function Reverse(xs: seq<int>): (ys: seq<int>)
    ensures |ys| == |xs| && forall i | 0 <= i < |xs| :: ys[i] == xs[|xs| - 1 - i]
  {
    if xs == [] then [] else Reverse(xs[1..]) + [xs[0]]
  }

  ghost predicate AllAtMost(xs: seq<int>, d: int) {
    forall x | x in xs :: x <= d
  }

  ghost predicate AllAbove(xs: seq<int>, d: int) {
    forall x | x in xs :: x > d
  }

  /** left descendants <= node < right descendants, at every node */
  ghost predicate IsSearchTree(t: Tree) {
    match t
    case Empty => true
    case Branch(l, d, r) =>
      && IsSearchTree(l) && AllAtMost(PostOrder(l), d)
      && IsSearchTree(r) && AllAbove(PostOrder(r), d)
  }

  // ----- insertion: what it adds, and the order it keeps

  lemma {:induction false} InsertContents(t: Tree, x: int)
    ensures multiset(PostOrder(Insert(t, x))) == multiset(PostOrder(t)) + multiset{x}
  {
    match t
    case Empty =>
    case Branch(l, d, r) =>
      if x > d {
        InsertContents(r, x);
      } else {
        InsertContents(l, x);
      }
  }

  lemma {:induction false} InsertMembers(t: Tree, x: int)
    ensures forall y :: y in PostOrder(Insert(t, x)) <==> y == x || y in PostOrder(t)
  {
    InsertContents(t, x);
    forall y
      ensures y in PostOrder(Insert(t, x)) <==> y == x || y in PostOrder(t)
    {
      assert y in PostOrder(Insert(t, x)) <==> y in multiset(PostOrder(Insert(t, x)));
      assert y in PostOrder(t) <==> y in multiset(PostOrder(t));
    }
  }

  lemma {:induction false} InsertKeepsOrder(t: Tree, x: int)
    requires IsSearchTree(t)
    ensures IsSearchTree(Insert(t, x))
  {
    match t
    case Empty =>
    case Branch(l, d, r) =>
      if x > d {
        InsertKeepsOrder(r, x);
        InsertMembers(r, x);
      } else {
        InsertKeepsOrder(l, x);
        InsertMembers(l, x);
      }
  }

  lemma HeadAndTail(xs: seq<int>)
    requires xs != []
    ensures xs[0] in xs
    ensures forall x :: x in xs <==> x == xs[0] || x in xs[1..]
    ensures multiset(xs) == multiset{xs[0]} + multiset(xs[1..])
  {
    assert xs == [xs[0]] + xs[1..];
  }

  /** Over a whole run of `add`: the order holds and exactly the added data are stored. */
  lemma {:induction false} InsertAllRun(t: Tree, xs: seq<int>)
    requires IsSearchTree(t)
    ensures IsSearchTree(InsertAll(t, xs))
    ensures multiset(PostOrder(InsertAll(t, xs))) == multiset(PostOrder(t)) + multiset(xs)
    decreases |xs|
  {
    if xs == [] {
    } else {
      InsertKeepsOrder(t, xs[0]);
      InsertContents(t, xs[0]);
      InsertAllRun(Insert(t, xs[0]), xs[1..]);
      HeadAndTail(xs);
    }
  }

  // ----- the walk and the insertion undo each other

  lemma {:induction false} InsertAllSplit(t: Tree, xs: seq<int>, ys: seq<int>)
    ensures InsertAll(t, xs + ys) == InsertAll(InsertAll(t, xs), ys)
    decreases |xs|
  {
    if xs == [] {
      assert xs + ys == ys;
    } else {
      assert (xs + ys)[1..] == xs[1..] + ys;
      InsertAllSplit(Insert(t, xs[0]), xs[1..], ys);
    }
  }

  /** Data above a root only ever reach its right subtree, the others only its left. */
  lemma {:induction false} InsertAllRight(l: Tree, d: int, r: Tree, xs: seq<int>)
    requires AllAbove(xs, d)
    ensures InsertAll(Branch(l, d, r), xs) == Branch(l, d, InsertAll(r, xs))
    decreases |xs|
  {
    if xs != [] {
      HeadAndTail(xs);
      InsertAllRight(l, d, Insert(r, xs[0]), xs[1..]);
    }
  }

  lemma {:induction false} InsertAllLeft(l: Tree, d: int, r: Tree, xs: seq<int>)
    requires AllAtMost(xs, d)
    ensures InsertAll(Branch(l, d, r), xs) == Branch(InsertAll(l, xs), d, r)
    decreases |xs|
  {
    if xs != [] {
      HeadAndTail(xs);
      InsertAllLeft(Insert(l, xs[0]), d, r, xs[1..]);
    }
  }

  lemma {:induction false} ReverseAppend(xs: seq<int>, ys: seq<int>)
    ensures Reverse(xs + ys) == Reverse(ys) + Reverse(xs)
  {
    if xs == [] {
      assert xs + ys == ys;
    } else {
      assert (xs + ys)[1..] == xs[1..] + ys;
      ReverseAppend(xs[1..], ys);
    }
  }

  lemma {:induction false} ReverseMembers(xs: seq<int>)
    ensures forall x :: x in Reverse(xs) <==> x in xs
  {
    if xs != [] {
      ReverseMembers(xs[1..]);
      HeadAndTail(xs);
    }
  }

  /** Adding a search tree's post-order backwards to an empty tree rebuilds it, shape and data. */
  lemma {:induction false} RebuildFromPostOrder(t: Tree)
    requires IsSearchTree(t)
    ensures InsertAll(Empty, Reverse(PostOrder(t))) == t
  {
    match t
    case Empty =>
    case Branch(l, d, r) =>
      var right, left := Reverse(PostOrder(r)), Reverse(PostOrder(l));
      assert Reverse(PostOrder(t)) == [d] + right + left by {
        ReverseAppend(PostOrder(l) + PostOrder(r), [d]);
        ReverseAppend(PostOrder(l), PostOrder(r));
        assert Reverse([d]) == [d];
      }
      ReverseMembers(PostOrder(r));
      ReverseMembers(PostOrder(l));
      InsertAllSplit(Empty, [d] + right, left);
      InsertAllSplit(Empty, [d], right);
      assert InsertAll(Empty, [d]) == Branch(Empty, d, Empty) by {
        assert [d][1..] == [];
      }
      InsertAllRight(Empty, d, Empty, right);
      RebuildFromPostOrder(r);
      InsertAllLeft(Empty, d, r, left);
      RebuildFromPostOrder(l);
  }

  /** The trees a run of `add` can reach are exactly the search trees. */
  lemma ReachableIffSearchTree(t: Tree)
    ensures (exists xs :: t == InsertAll(Empty, xs)) <==> IsSearchTree(t)
  {
    if IsSearchTree(t) {
      RebuildFromPostOrder(t);
    }
    forall xs | t == InsertAll(Empty, xs)
      ensures IsSearchTree(t)
    {
      InsertAllRun(Empty, xs);
    }
  }

  /** What `display` shows identifies the tree: no two reachable trees print alike. */
  lemma SamePostOrderSameTree(xs: seq<int>, ys: seq<int>)
    ensures PostOrder(InsertAll(Empty, xs)) == PostOrder(InsertAll(Empty, ys))
            <==> InsertAll(Empty, xs) == InsertAll(Empty, ys)
  {
    InsertAllRun(Empty, xs);
    InsertAllRun(Empty, ys);
    RebuildFromPostOrder(InsertAll(Empty, xs));
    RebuildFromPostOrder(InsertAll(Empty, ys));
  }
}
