/**
 The public tree container and its in-order iterator.

 `Tree` owns the root slot and delegates every operation to it. The iterator
 keeps an explicit stack of nodes that have been reached but not yet yielded;
 the top of the stack is the last element of `unvisited`. Its meaning is
 `Remaining()`, the values it has still to yield, in order.
 */
module Trees {
  import opened Links

  class Tree {
    var root: Link

    /** The ordering invariant every operation keeps. */
    ghost predicate Valid()
      reads this
    {
      IsBST(root)
    }

    /** The set of values the tree represents. */
    ghost function Contents(): set<int>
      reads this
    {
      Elems(root)
    }

    constructor ()
      ensures Valid() && root == Empty && Contents() == {}
    {
      root := Empty;
    }

    /** Insert `v`; a value already present is silently ignored. */
    method Insert(v: int)
      requires Valid()
      modifies this
      ensures Valid()
      ensures Contents() == old(Contents()) + {v}
      ensures if v in old(Contents()) then root == old(root)
              else Links.Size(root) == old(Links.Size(root)) + 1
    {
      root := Links.Insert(root, v);
    }

    /** Remove `v`, returning it; None and no change when it is absent. */
    method Delete(v: int) returns (r: Option<int>)
      requires Valid()
      modifies this
      ensures Valid()
      ensures Contents() == old(Contents()) - {v}
      ensures if v in old(Contents()) then r == Some(v) && Links.Size(root) == old(Links.Size(root)) - 1
              else r == None && root == old(root)
    {
      root, r := Links.Delete(root, v);
    }

    /** The number of values in the tree. */
    function Size(): (n: nat)
      reads this
      requires Valid()
      ensures n == |Contents()|
    {
      SizeIsCardinality(root);
      Links.Size(root)
    }

    function Contains(v: int): (b: bool)
      reads this
      requires Valid()
      ensures b <==> v in Contents()
    {
      Links.Contains(root, v)
    }

    /** A fresh iterator positioned before the smallest value. */
    method Iter() returns (it: TreeIterator)
      ensures fresh(it)
      ensures it.unvisited == LeftSpine(root)
      ensures it.Remaining() == InOrder(root)
    {
      it := new TreeIterator();
      it.PushLeftNodes(root);
    }
  }

  /** The nodes met by following left children from a slot down to an empty one. */
  ghost function LeftSpine(l: Link): seq<Node>
  {
    match l
    case Empty => []
    case NonEmpty(n) => [n] + LeftSpine(n.left)
  }

  /** What a stack of unvisited nodes has still to yield: the top node's value,
      then its right subtree in order, then what the rest of the stack yields. */
  ghost function Pending(stack: seq<Node>): seq<int>
  {
    if stack == [] then []
    else
      var top := stack[|stack| - 1];
      [top.value] + InOrder(top.right) + Pending(stack[..|stack| - 1])
  }

  /** Pushing the left spine of `l` schedules the in-order output of `l` ahead
      of what the stack already held. */
  lemma {:induction false} PendingSpine(stack: seq<Node>, l: Link)
    ensures Pending(stack + LeftSpine(l)) == InOrder(l) + Pending(stack)
    decreases l
  {
    match l
    case Empty =>
      assert stack + [] == stack;
    case NonEmpty(n) =>
      assert stack + LeftSpine(l) == (stack + [n]) + LeftSpine(n.left);
      PendingSpine(stack + [n], n.left);
      assert (stack + [n])[..|stack + [n]| - 1] == stack;
  }

  class TreeIterator {
    var unvisited: seq<Node>

    ghost function Remaining(): seq<int>
      reads this
    {
      Pending(unvisited)
    }

    constructor ()
      ensures unvisited == [] && Remaining() == []
    {
      unvisited := [];
    }

    /** Push `l` and then its left children, one by one, onto the stack. */
    method PushLeftNodes(l: Link)
      modifies this
      ensures unvisited == old(unvisited) + LeftSpine(l)
      ensures Remaining() == InOrder(l) + old(Remaining())
    {
      var cur := l;
      while cur.NonEmpty?
        invariant unvisited + LeftSpine(cur) == old(unvisited) + LeftSpine(l)
        decreases cur
      {
        unvisited := unvisited + [cur.node];
        cur := cur.node.left;
      }
      assert unvisited == old(unvisited) + LeftSpine(l);
      PendingSpine(old(unvisited), l);
    }

    /** Pop the top node, push the left spine of its right subtree and yield
      its value; None once the stack is empty. */
    method Next() returns (r: Option<int>)
      modifies this
      ensures r.None? <==> old(Remaining()) == []
      ensures r.None? ==> unvisited == old(unvisited) == []
      ensures r.Some? ==>
        var top := old(unvisited)[|old(unvisited)| - 1];
        r.value == top.value &&
        unvisited == old(unvisited)[..|old(unvisited)| - 1] + LeftSpine(top.right)
      ensures r.Some? ==> r.value == old(Remaining())[0] && Remaining() == old(Remaining())[1..]
    {
      if unvisited == [] {
        r := None;
      } else {
        var node := unvisited[|unvisited| - 1];
        unvisited := unvisited[..|unvisited| - 1];
        PushLeftNodes(node.right);
        r := Some(node.value);
      }
    }
  }

  /** Run a fresh iterator to exhaustion, collecting what it yields: the values
      of the tree, each once, in strictly ascending order. */
  method Traverse(t: Tree) returns (s: seq<int>)
    requires t.Valid()
    ensures s == InOrder(t.root)
    ensures StrictlyAscending(s)
    ensures |s| == Links.Size(t.root)
    ensures forall x :: x in s <==> x in t.Contents()
  {
    var it := t.Iter();
    s := [];
    while true
      invariant s + it.Remaining() == InOrder(t.root)
      decreases |it.Remaining()|
    {
      ghost var before := it.Remaining();
      var x := it.Next();
      if x.None? {
        break;
      }
      assert before == [x.value] + it.Remaining();
      s := s + [x.value];
    }
    assert s == InOrder(t.root);
    InOrderAscending(t.root);
    InOrderElems(t.root);
  }
}
