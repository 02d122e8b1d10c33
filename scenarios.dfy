/**
 The unit tests of the library, written as clients of `Tree` whose
 postconditions are the test's assertions. The tests store one-letter
 strings; here each letter is keyed by its character code, which orders the
 letters the same way.
 */
module Scenarios {
  import opened Links
  import opened Trees

  const A: int := 'A' as int
  const B: int := 'B' as int
  const C: int := 'C' as int
  const D: int := 'D' as int
  const E: int := 'E' as int
  const F: int := 'F' as int
  const G: int := 'G' as int

  /** Insert C, B, D: exactly B, C and D are found. */
  method ContainsAfterInserts() returns (a: bool, b: bool, c: bool, d: bool, e: bool)
    ensures !a && b && c && d && !e
  {
    var t := new Tree();
    t.Insert(C);
    t.Insert(B);
    t.Insert(D);
    a, b, c, d, e := t.Contains(A), t.Contains(B), t.Contains(C), t.Contains(D), t.Contains(E);
  }

  /** Insert B, A, C and delete the root B, which has two children. */
  method RemoveNodeWithTwoChildren() returns (r: Option<int>, oldSize: nat, newSize: nat)
    ensures r == Some(B) && oldSize == 3 && newSize == oldSize - 1
  {
    var t := new Tree();
    t.Insert(B);
    t.Insert(A);
    t.Insert(C);
    assert t.Contents() == {A, B, C};
    oldSize := t.Size();
    assert B in t.Contents();
    r := t.Delete(B);
    newSize := t.Size();
  }

  /** Insert B, A, C and delete the absent D. */
  method RemoveUnknownNode() returns (r: Option<int>, oldSize: nat, newSize: nat)
    ensures r == None && oldSize == 3 && newSize == oldSize
  {
    var t := new Tree();
    t.Insert(B);
    t.Insert(A);
    t.Insert(C);
    assert t.Contents() == {A, B, C};
    oldSize := t.Size();
    assert D !in t.Contents();
    r := t.Delete(D);
    newSize := t.Size();
  }

  /** Delete from a tree that holds nothing. */
  method RemoveFromEmptyTree() returns (oldSize: nat, r: Option<int>, newSize: nat)
    ensures oldSize == 0 && r == None && newSize == 0
  {
    var t := new Tree();
    oldSize := t.Size();
    r := t.Delete(D);
    newSize := t.Size();
  }

  /** Insert D, A, B, C, F, E, G: iteration yields A to G in order. */
  method Iterate() returns (s: seq<int>)
    ensures s == [A, B, C, D, E, F, G]
  {
    var t := SevenLetterTree();
    s := Traverse(t);
    AscendingLetters(s, t.Contents());
  }

  /** The tree the iteration test builds. */
  method SevenLetterTree() returns (t: Tree)
    ensures fresh(t) && t.Valid()
    ensures t.Contents() == {D, A, B, C, F, E, G}
  {
    t := new Tree();
    t.Insert(D);
    t.Insert(A);
    t.Insert(B);
    t.Insert(C);
    t.Insert(F);
    t.Insert(E);
    t.Insert(G);
  }

  /** The only strictly ascending arrangement of the letters A to G. */
  lemma AscendingLetters(s: seq<int>, letters: set<int>)
    requires letters == {D, A, B, C, F, E, G}
    requires StrictlyAscending(s)
    requires forall x :: x in s <==> x in letters
    ensures s == [A, B, C, D, E, F, G]
  {
    var expected := [A, B, C, D, E, F, G];
    assert StrictlyAscending(expected);
    AscendingUnique(s, expected);
  }
}
