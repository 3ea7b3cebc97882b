/**
 * Worked examples of the AVL tree: the insertion order whose rebalancing the
 * tree code is meant to show, and the range-for of test/mainteste2.cpp.  Keys
 * are any integers in the stated order, values anything.
 */
module AVLExamples {
  import opened AVLNode
  import opened AVLSubtree
  import opened AVLIterator
  import opened AVLTree

  /** The leaf `AVLNode(k, v)` builds. */
  function Leaf<V>(k: int, v: V): Tree<V>
  {
    Node(k, v, Nil, Nil, 1)
  }

  /** Three ascending keys: the third insertion makes the root right-heavy by
      two, and one left rotation puts the middle key at the root. */
  lemma ThreeAscending<V>(a: int, b: int, c: int, va: V, vb: V, vc: V)
    requires a < b < c
    ensures InsertInto(Nil, a, va) == Inserted(Leaf(a, va), true, 0)
    ensures InsertInto(Leaf(a, va), b, vb) == Inserted(Node(a, va, Nil, Leaf(b, vb), 2), true, 0)
    ensures InsertInto(Node(a, va, Nil, Leaf(b, vb), 2), c, vc) ==
            Inserted(Node(b, vb, Leaf(a, va), Leaf(c, vc), 2), true, 1)
  {
    assert InsertInto(Leaf(b, vb), c, vc) == Inserted(Node(b, vb, Nil, Leaf(c, vc), 2), true, 0);
    var m := Node(a, va, Nil, Node(b, vb, Nil, Leaf(c, vc), 2), 2);
    assert RotateLeft(Recomputed(m)) == Node(b, vb, Leaf(a, va), Leaf(c, vc), 2);
    assert FixupNode(m, c) == Fixed(Node(b, vb, Leaf(a, va), Leaf(c, vc), 2), 1);
  }

  /** The in-order pairs of a node with two leaves. */
  lemma ThreeElements<V>(a: int, b: int, c: int, va: V, vb: V, vc: V)
    ensures Elements(Node(b, vb, Leaf(a, va), Leaf(c, vc), 2)) == [(a, va), (b, vb), (c, vc)]
  {
    assert Elements(Leaf(a, va)) == [(a, va)];
    assert Elements(Leaf(c, vc)) == [(c, vc)];
  }

  /** A fourth, largest key hangs below the right leaf; no rotation. */
  lemma FourthAscending<V>(a: int, b: int, c: int, d: int, va: V, vb: V, vc: V, vd: V)
    requires a < b < c < d
    ensures InsertInto(Node(b, vb, Leaf(a, va), Leaf(c, vc), 2), d, vd) ==
            Inserted(Node(b, vb, Leaf(a, va), Node(c, vc, Nil, Leaf(d, vd), 2), 3), true, 0)
  {
    assert InsertInto(Leaf(c, vc), d, vd) == Inserted(Node(c, vc, Nil, Leaf(d, vd), 2), true, 0);
    var m := Node(b, vb, Leaf(a, va), Node(c, vc, Nil, Leaf(d, vd), 2), 2);
    assert FixupNode(m, d) == Fixed(Node(b, vb, Leaf(a, va), Node(c, vc, Nil, Leaf(d, vd), 2), 3), 0);
  }

  /** A fifth, largest key makes the right child right-heavy by two; one left
      rotation there, none at the root. */
  lemma FifthAscending<V>(a: int, b: int, c: int, d: int, e: int, va: V, vb: V, vc: V, vd: V, ve: V)
    requires a < b < c < d < e
    ensures InsertInto(Node(b, vb, Leaf(a, va), Node(c, vc, Nil, Leaf(d, vd), 2), 3), e, ve) ==
            Inserted(Node(b, vb, Leaf(a, va), Node(d, vd, Leaf(c, vc), Leaf(e, ve), 2), 3), true, 1)
  {
    assert InsertInto(Leaf(d, vd), e, ve) == Inserted(Node(d, vd, Nil, Leaf(e, ve), 2), true, 0);
    var m := Node(c, vc, Nil, Node(d, vd, Nil, Leaf(e, ve), 2), 2);
    assert RotateLeft(Recomputed(m)) == Node(d, vd, Leaf(c, vc), Leaf(e, ve), 2);
    assert FixupNode(m, e) == Fixed(Node(d, vd, Leaf(c, vc), Leaf(e, ve), 2), 1);
    assert InsertInto(Node(c, vc, Nil, Leaf(d, vd), 2), e, ve) ==
           Inserted(Node(d, vd, Leaf(c, vc), Leaf(e, ve), 2), true, 1);
    var n := Node(b, vb, Leaf(a, va), Node(d, vd, Leaf(c, vc), Leaf(e, ve), 2), 3);
    assert FixupNode(n, e) == Fixed(n, 0);
  }

  /** A key between the root's and its right child's left child: the root
      becomes right-heavy by two with the new key on the inner side, so a
      right-left double rotation lifts that grandchild to the root. */
  lemma SixthBetween<V>(a: int, b: int, f: int, c: int, d: int, e: int,
                        va: V, vb: V, vf: V, vc: V, vd: V, ve: V)
    requires a < b < f < c < d < e
    ensures InsertInto(Node(b, vb, Leaf(a, va), Node(d, vd, Leaf(c, vc), Leaf(e, ve), 2), 3), f, vf) ==
            Inserted(Node(c, vc, Node(b, vb, Leaf(a, va), Leaf(f, vf), 2), Node(d, vd, Nil, Leaf(e, ve), 2), 3), true, 2)
  {
    assert InsertInto(Leaf(c, vc), f, vf) == Inserted(Node(c, vc, Leaf(f, vf), Nil, 2), true, 0);
    var dl := Node(d, vd, Node(c, vc, Leaf(f, vf), Nil, 2), Leaf(e, ve), 2);
    assert FixupNode(dl, f) == Fixed(dl.(height := 3), 0);
    assert InsertInto(Node(d, vd, Leaf(c, vc), Leaf(e, ve), 2), f, vf) == Inserted(dl.(height := 3), true, 0);
    var m := Node(b, vb, Leaf(a, va), dl.(height := 3), 3);
    var r := RotateRight(dl.(height := 3));
    assert r == Node(c, vc, Leaf(f, vf), Node(d, vd, Nil, Leaf(e, ve), 2), 3);
    assert RotateLeft(Node(b, vb, Leaf(a, va), r, 4)) ==
           Node(c, vc, Node(b, vb, Leaf(a, va), Leaf(f, vf), 2), Node(d, vd, Nil, Leaf(e, ve), 2), 3);
    assert FixupNode(m, f) ==
           Fixed(Node(c, vc, Node(b, vb, Leaf(a, va), Leaf(f, vf), 2), Node(d, vd, Nil, Leaf(e, ve), 2), 3), 2);
  }

  /** Inserting 10, 20, 30, 40, 50, 25 in that order leaves 30 at the root of
      height 3, with 20 (children 10 and 25) on its left and 40 (right child
      50) on its right, after four rotations in all. */
  lemma SixInsertions<V>(v10: V, v20: V, v30: V, v40: V, v50: V, v25: V)
    ensures var r1 := InsertInto(Nil, 10, v10);
            var r2 := InsertInto(r1.tree, 20, v20);
            var r3 := InsertInto(r2.tree, 30, v30);
            var r4 := InsertInto(r3.tree, 40, v40);
            var r5 := InsertInto(r4.tree, 50, v50);
            var r6 := InsertInto(r5.tree, 25, v25);
            && r6.tree == Node(30, v30, Node(20, v20, Leaf(10, v10), Leaf(25, v25), 2),
                                        Node(40, v40, Nil, Leaf(50, v50), 2), 3)
            && r1.rotations + r2.rotations + r3.rotations + r4.rotations + r5.rotations + r6.rotations == 4
  {
    ThreeAscending(10, 20, 30, v10, v20, v30);
    FourthAscending(10, 20, 30, 40, v10, v20, v30, v40);
    FifthAscending(10, 20, 30, 40, 50, v10, v20, v30, v40, v50);
    SixthBetween(10, 20, 25, 30, 40, 50, v10, v20, v25, v30, v40, v50);
  }

  /** A tree object after three insertions in ascending key order, as in
      test/mainteste2.cpp. */
  method BuildAscending<V>(a: int, b: int, c: int, va: V, vb: V, vc: V) returns (tree: AVLTree<V>)
    requires a < b < c
    ensures fresh(tree) && tree.Valid() && tree.size == 3
    ensures tree.root == Node(b, vb, Leaf(a, va), Leaf(c, vc), 2)
  {
    ThreeAscending(a, b, c, va, vb, vc);
    tree := new AVLTree<V>();
    tree.Insert(a, va);
    tree.Insert(b, vb);
    tree.Insert(c, vc);
  }

  /** test/mainteste2.cpp: insert ("a", 1), ("b", 2), ("c", 3), with the keys
      1 < 2 < 3 standing for the strings, then range-for over the tree; the
      pairs come out in that order. */
  method RangeForExample() returns (s: seq<(int, int)>)
    ensures s == [(1, 1), (2, 2), (3, 3)]
  {
    var tree := BuildAscending(1, 2, 3, 1, 2, 3);
    s := ToSequence(tree.root);
    ThreeElements(1, 2, 3, 1, 2, 3);
  }
}
