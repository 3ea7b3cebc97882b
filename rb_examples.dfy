/**
 * Whole-container walks and small scenarios of the red-black trees: the
 * range-for over `begin()` .. `end()` (and, for includes/RBTree.h, over
 * `rbegin()` .. `rend()`), the size `clear` leaves behind and the one the
 * corrected `ClearAll` leaves, and where the postfix `++` and `--` of the
 * legacy reverse iterator go.
 */
module RBExamples {
  import opened RBShape
  import opened Results
  import opened RBIterator
  import RBTree
  import LegacyRB

  /** A range-for over the tree of include/RBTree: from `begin()` until the
      iterator equals `end()`, `*it` then `++it`.  It produces every pair
      once, in key order. */
  method Traversal<V>(tree: RBTree.RBTree<V>) returns (s: seq<(int, V)>)
    requires tree.Valid()
    ensures s == Elements(tree.shape)
  {
    var it := tree.Begin();
    var end := tree.End();
    s := [];
    while !it.Equals(end)
      invariant it.Valid() && it.shape == tree.shape && end.current == 0
      invariant s == Elements(tree.shape)[..it.Pos()]
      decreases |Elements(tree.shape)| - it.Pos()
    {
      s := s + [it.Get()];
      var _ := it.Next();
    }
  }

  /** The same over includes/RBTree.h, whose `*it` is the value alone: the
      values in key order. */
  method LegacyTraversal<V>(tree: LegacyRB.LegacyRBTree<V>) returns (s: seq<V>)
    requires tree.Valid()
    ensures |s| == |Elements(tree.shape)|
    ensures forall i :: 0 <= i < |s| ==> s[i] == Elements(tree.shape)[i].1
  {
    var it := tree.Begin();
    var end := tree.End();
    s := [];
    while !it.Equals(end)
      invariant it.Valid() && it.shape == tree.shape && end.current == 0
      invariant |s| == it.Pos()
      invariant forall i :: 0 <= i < |s| ==> s[i] == Elements(tree.shape)[i].1
      decreases |Elements(tree.shape)| - it.Pos()
    {
      s := s + [it.Get()];
      it.Next();
    }
  }

  /** From `rbegin()` until `rend()` with the prefix `++`: the values from
      the largest key down. */
  method LegacyReverseTraversal<V>(tree: LegacyRB.LegacyRBTree<V>) returns (s: seq<V>)
    requires tree.Valid()
    ensures |s| == |Elements(tree.shape)|
    ensures forall i :: 0 <= i < |s| ==> s[i] == Elements(tree.shape)[|s| - 1 - i].1
  {
    var it := tree.RBegin();
    var end := tree.REnd();
    ghost var n := |Elements(tree.shape)|;
    s := [];
    while it.base.current != end.base.current
      invariant it.Valid() && it.base.shape == tree.shape && end.base.current == 0
      invariant it.base.current != 0 ==> |s| + it.base.Pos() + 1 == n
      invariant it.base.current == 0 ==> |s| == n
      invariant forall i :: 0 <= i < |s| ==> s[i] == Elements(tree.shape)[n - 1 - i].1
      decreases if it.base.current == 0 then 0 else it.base.Pos() + 1
    {
      s := s + [it.Get()];
      it.Next();
    }
  }

  /** `insert(1, .)`, `insert(2, .)`, `clear()`: the tree is empty, but
      `size()` still says 2; a second `insert(1, .)` before the clear is
      refused. */
  method ClearKeepsSize() returns (before: nat, after: nat, refused: bool)
    ensures before == 2 && after == 2 && refused
  {
    var t := new RBTree.RBTree<int>(0);
    ghost var at;
    var r;
    r, at := t.Insert(1, 10);
    r, at := t.Insert(2, 20);
    r, at := t.Insert(1, 30);
    refused := r == Err(RBTree.AlreadyExists);
    before := t.Size();
    t.Clear();
    after := t.Size();
    assert t.shape == Leaf;
  }

  /** The same insertions followed by the corrected `ClearAll`: `size()`
      then says 0. */
  method ClearAllResetsSize() returns (before: nat, after: nat)
    ensures before == 2 && after == 0
  {
    var t := new RBTree.RBTree<int>(0);
    ghost var at;
    var r;
    r, at := t.Insert(1, 10);
    r, at := t.Insert(2, 20);
    before := t.Size();
    t.ClearAll();
    after := t.Size();
  }

  /** With keys 1 and 2 in the legacy tree, `rbegin()` stands on 2.  The
      postfix `++` as written moves forward, off the end: the iterator is
      then on the sentinel, `rend()`.  As documented it moves back to 1. */
  method ReversePostIncrement() returns (written: nat, intended: int)
    ensures written == 0 && intended == 10
  {
    var t := new LegacyRB.LegacyRBTree<int>(0);
    ghost var at := t.Add(1, 10);
    assert Elements(t.shape) == [(1, 10)];
    at := t.Add(2, 20);
    assert Elements(t.shape)[0].0 <= Elements(t.shape)[1].0;
    assert Elements(t.shape) == [(1, 10), (2, 20)];
    var it := t.RBegin();
    var _ := it.PostNextAsWritten();
    written := it.base.current;
    var it2 := t.RBegin();
    var _ := it2.PostNext();
    intended := it2.Get();
  }

  /** With keys 1 and 2, from `rbegin()` on 2 the postfix `--` as written
      moves back, to 1; as documented it moves forward, off the end, onto
      the sentinel. */
  method ReversePostDecrement() returns (written: int, intended: nat)
    ensures written == 10 && intended == 0
  {
    var t := new LegacyRB.LegacyRBTree<int>(0);
    ghost var at := t.Add(1, 10);
    assert Elements(t.shape) == [(1, 10)];
    at := t.Add(2, 20);
    assert Elements(t.shape)[0].0 <= Elements(t.shape)[1].0;
    assert Elements(t.shape) == [(1, 10), (2, 20)];
    var it := t.RBegin();
    var _ := it.PostPrevAsWritten();
    written := it.Get();
    var it2 := t.RBegin();
    var _ := it2.PostPrev();
    intended := it2.base.current;
  }
}
