/**
 The recursive slots of an unbalanced binary search tree.

 A `Link` is a slot that is either empty or owns one `Node`; a `Node` holds a
 value and two child slots. The operations that change a slot in place
 (insert, delete, delete-min) are methods that take the slot's old contents
 and return what the slot holds afterwards, which is how the ownership-moving
 take-and-write-back of the original reads once aliasing is out of the picture.
 Keys are integers, standing for any totally ordered type.
 */
module Links {

  datatype Option<T> = None | Some(value: T)

  /** The result of a three-way comparison. */
  datatype Ordering = Less | Equal | Greater

  /** Three-way comparison of two keys. */
  function Cmp(a: int, b: int): Ordering
  {
    if a < b then Less else if a == b then Equal else Greater
  }

  datatype Link = Empty | NonEmpty(node: Node)

  datatype Node = Node(value: int, left: Link, right: Link)

  // ---------------------------------------------------------------------------
  // Specification functions

  /** The set of values stored in the subtree of a slot. */
  ghost function Elems(l: Link): set<int>
  {
    match l
    case Empty => {}
    case NonEmpty(n) => Elems(n.left) + {n.value} + Elems(n.right)
  }

  /** The values of the subtree in in-order: left subtree, node, right subtree. */
  ghost function InOrder(l: Link): seq<int>
  {
    match l
    case Empty => []
    case NonEmpty(n) => InOrder(n.left) + [n.value] + InOrder(n.right)
  }

  /** Binary-search-tree ordering: everything left of a node is smaller than its
      value and everything right of it is greater, at every node. */
  ghost predicate IsBST(l: Link)
  {
    match l
    case Empty => true
    case NonEmpty(n) =>
      IsBST(n.left) && IsBST(n.right) &&
      (forall x :: x in Elems(n.left) ==> x < n.value) &&
      (forall x :: x in Elems(n.right) ==> n.value < x)
  }

  ghost predicate StrictlyAscending(s: seq<int>)
  {
    forall i, j :: 0 <= i < j < |s| ==> s[i] < s[j]
  }

  // ---------------------------------------------------------------------------
  // Structural queries

  /** The number of occupied slots, counted by a full traversal. */
  function Size(l: Link): (n: nat)
    ensures n == |InOrder(l)|
  {
    match l
    case Empty => 0
    case NonEmpty(n) => 1 + Size(n.left) + Size(n.right)
  }

  function EmptyTree(l: Link): (r: bool)
    ensures r <==> Elems(l) == {}
    ensures r <==> Size(l) == 0
  {
    match l
    case Empty => true
    case _ => false
  }

  /** Search by comparison along one path from the slot. It only ever finds
      stored values, and on a search tree it finds every stored value. */
  function Contains(l: Link, v: int): (r: bool)
    ensures r ==> v in Elems(l)
    ensures IsBST(l) ==> (r <==> v in Elems(l))
  {
    match l
    case Empty => false
    case NonEmpty(n) =>
      match Cmp(v, n.value)
      case Equal => true
      case Less => Contains(n.left, v)
      case Greater => Contains(n.right, v)
  }

  /** A leaf is a node whose subtree holds its own value and nothing else. */
  function IsLeaf(n: Node): (r: bool)
    ensures r <==> InOrder(NonEmpty(n)) == [n.value]
  {
    EmptyTree(n.left) && EmptyTree(n.right)
  }

  function HasLeftChild(n: Node): (r: bool)
    ensures r <==> Elems(n.left) != {}
  {
    !EmptyTree(n.left)
  }

  function HasRightChild(n: Node): (r: bool)
    ensures r <==> Elems(n.right) != {}
  {
    !EmptyTree(n.right)
  }

  // ---------------------------------------------------------------------------
  // Mutation of a slot

  /** Insert `v` into the slot. An empty slot receives a fresh leaf; a value
      already on the search path leaves the slot as it was. */
  method Insert(l: Link, v: int) returns (l': Link)
    ensures IsBST(l) ==> IsBST(l')
    ensures Elems(l') == Elems(l) + {v}
    ensures Contains(l, v) ==> l' == l
    ensures !Contains(l, v) ==> Size(l') == Size(l) + 1
  {
    match l
    case Empty =>
      l' := NonEmpty(Node(v, Empty, Empty));
    case NonEmpty(n) =>
      match Cmp(v, n.value)
      case Equal =>
        l' := l;
      case Greater =>
        var right := Insert(n.right, v);
        l' := NonEmpty(n.(right := right));
      case Less =>
        var left := Insert(n.left, v);
        l' := NonEmpty(n.(left := left));
  }

  /** Detach the node holding the minimum of the slot's subtree. The detached
      node is returned with both child slots empty; an empty slot yields None. */
  method DeleteMin(l: Link) returns (l': Link, m: Option<Node>)
    requires IsBST(l)
    ensures m.None? <==> l.Empty?
    ensures m.None? ==> l' == Empty
    ensures m.Some? ==> m.value.left == Empty && m.value.right == Empty
    ensures m.Some? ==> m.value.value in Elems(l)
    ensures m.Some? ==> forall x :: x in Elems(l) ==> m.value.value <= x
    ensures m.Some? ==> Elems(l') == Elems(l) - {m.value.value}
    ensures m.Some? ==> Size(l') == Size(l) - 1
    ensures IsBST(l')
  {
    match l
    case Empty =>
      l', m := Empty, None;
    case NonEmpty(n) =>
      if IsLeaf(n) {
        l', m := Empty, Some(n);
      } else if HasLeftChild(n) {
        var left, min := DeleteMin(n.left);
        l', m := NonEmpty(n.(left := left)), min;
      } else {
        // no left child, so the node itself is the minimum and its right
        // subtree takes over the slot
        l', m := n.right, Some(n.(right := Empty));
      }
  }

  /** Remove `v` from the slot, returning it when it was present. A leaf is
      dropped, a node with one child is replaced by that child, and a node with
      two children takes over the minimum of its right subtree. */
  method Delete(l: Link, v: int) returns (l': Link, r: Option<int>)
    requires IsBST(l)
    ensures IsBST(l')
    ensures Elems(l') == Elems(l) - {v}
    ensures r == if v in Elems(l) then Some(v) else None
    ensures v !in Elems(l) ==> l' == l
    ensures Size(l') == if v in Elems(l) then Size(l) - 1 else Size(l)
  {
    match l
    case Empty =>
      l', r := Empty, None;
    case NonEmpty(n) =>
      match Cmp(v, n.value)
      case Equal =>
        if IsLeaf(n) {
          l', r := Empty, Some(n.value);
        } else if HasLeftChild(n) && !HasRightChild(n) {
          l', r := n.left, Some(n.value);
        } else if !HasLeftChild(n) && HasRightChild(n) {
          l', r := n.right, Some(n.value);
        } else {
          var right, min := DeleteMin(n.right);
          var minNode := min.value;
          l', r := NonEmpty(n.(value := minNode.value, right := right)), Some(n.value);
          ReplaceByMinimum(n, right, minNode.value);
        }
      case Less =>
        var left, res := Delete(n.left, v);
        l', r := NonEmpty(n.(left := left)), res;
        RebuildLeft(n, left, v);
      case Greater =>
        var right, res := Delete(n.right, v);
        l', r := NonEmpty(n.(right := right)), res;
        RebuildRight(n, right, v);
  }

  /** After the two-children case of `Delete`: the minimum `m` of the right
      subtree, moved up into the node, is above everything in the left subtree
      and below everything left in the right one, so the node stays ordered
      and has lost exactly its old value. */
  lemma ReplaceByMinimum(n: Node, right: Link, m: int)
    requires IsBST(NonEmpty(n)) && IsBST(right)
    requires m in Elems(n.right) && Elems(right) == Elems(n.right) - {m}
    requires forall x :: x in Elems(n.right) ==> m <= x
    requires Size(right) == Size(n.right) - 1
    ensures forall x :: x in Elems(n.left) ==> x < m
    ensures forall x :: x in Elems(right) ==> m < x
    ensures IsBST(NonEmpty(Node(m, n.left, right)))
    ensures Elems(NonEmpty(Node(m, n.left, right))) == Elems(NonEmpty(n)) - {n.value}
    ensures Size(NonEmpty(Node(m, n.left, right))) == Size(NonEmpty(n)) - 1
  {
    assert n.value < m;
    forall x | x in Elems(right) ensures m < x {
      assert x in Elems(n.right) && x != m;
    }
  }

  /** After deleting `v` below the left child of `n`, reattaching the node keeps
      the ordering and removes exactly `v`. */
  lemma RebuildLeft(n: Node, left: Link, v: int)
    requires IsBST(NonEmpty(n)) && IsBST(left) && v < n.value
    requires Elems(left) == Elems(n.left) - {v}
    ensures IsBST(NonEmpty(n.(left := left)))
    ensures Elems(NonEmpty(n.(left := left))) == Elems(NonEmpty(n)) - {v}
    ensures v in Elems(NonEmpty(n)) <==> v in Elems(n.left)
  {
  }

  /** The mirror image of `RebuildLeft`. */
  lemma RebuildRight(n: Node, right: Link, v: int)
    requires IsBST(NonEmpty(n)) && IsBST(right) && n.value < v
    requires Elems(right) == Elems(n.right) - {v}
    ensures IsBST(NonEmpty(n.(right := right)))
    ensures Elems(NonEmpty(n.(right := right))) == Elems(NonEmpty(n)) - {v}
    ensures v in Elems(NonEmpty(n)) <==> v in Elems(n.right)
  {
  }

  // ---------------------------------------------------------------------------
  // Lemmas about the specification functions

  /** In-order output lists exactly the stored values. */
  lemma {:induction false} InOrderElems(l: Link)
    ensures forall x :: x in InOrder(l) <==> x in Elems(l)
  {
    match l
    case Empty =>
    case NonEmpty(n) =>
      InOrderElems(n.left);
      InOrderElems(n.right);
  }

  lemma JoinAscending(a: seq<int>, v: int, b: seq<int>)
    requires StrictlyAscending(a) && StrictlyAscending(b)
    requires forall x :: x in a ==> x < v
    requires forall x :: x in b ==> v < x
    ensures StrictlyAscending(a + [v] + b)
  {
    var s := a + [v] + b;
    forall i, j | 0 <= i < j < |s| ensures s[i] < s[j] {
      if j < |a| {
      } else if i < |a| {
        assert s[i] in a;
        if j > |a| { assert s[j] in b; }
      } else if i == |a| {
        assert s[j] in b;
      }
    }
  }

  /** The in-order output of a search tree is strictly ascending. */
  lemma {:induction false} InOrderAscending(l: Link)
    requires IsBST(l)
    ensures StrictlyAscending(InOrder(l))
  {
    match l
    case Empty =>
    case NonEmpty(n) =>
      InOrderAscending(n.left);
      InOrderAscending(n.right);
      InOrderElems(n.left);
      InOrderElems(n.right);
      JoinAscending(InOrder(n.left), n.value, InOrder(n.right));
  }

  /** On a search tree no value is stored twice, so the size is the number of
      distinct values. */
  lemma {:induction false} SizeIsCardinality(l: Link)
    requires IsBST(l)
    ensures Size(l) == |Elems(l)|
  {
    match l
    case Empty =>
    case NonEmpty(n) =>
      SizeIsCardinality(n.left);
      SizeIsCardinality(n.right);
      var a, b := Elems(n.left), Elems(n.right);
      assert n.value !in a && n.value !in b;
      assert a * b == {} by {
        forall x | x in a ensures x !in b {
        }
      }
      assert |a + {n.value}| == |a| + 1;
      assert (a + {n.value}) * b == {};
  }

  /** Two strictly ascending sequences with the same members are equal. */
  lemma {:induction false} AscendingUnique(s: seq<int>, t: seq<int>)
    requires StrictlyAscending(s) && StrictlyAscending(t)
    requires forall x :: x in s <==> x in t
    ensures s == t
    decreases |s|
  {
    if s == [] {
      // t has no members, so its multiset is empty and so is t
      forall x ensures multiset(t)[x] == 0 {
        assert x !in t;
      }
      assert multiset(t) == multiset{};
    } else {
      assert s[0] in s;
      assert multiset(t)[s[0]] > 0;
      assert s[0] == t[0] by {
        assert t[0] in t;
        assert s[0] in t;
      }
      forall x ensures x in s[1..] <==> x in t[1..] {
        assert x in s[1..] <==> x in s && x != s[0];
        assert x in t[1..] <==> x in t && x != t[0];
      }
      AscendingUnique(s[1..], t[1..]);
      assert s == [s[0]] + s[1..];
      assert t == [t[0]] + t[1..];
    }
  }
}
