/**
 * The older AVL tree of includes/AVLTree.h.  Its nodes, rotations and insertion
 * fixup behave as those of include/AVLTree/AVLTree.hpp, and the model shares
 * them: `_rotateLeft`/`_rotateRight` are `RotateLeft`/`RotateRight`, and
 * `_fixup_node` tests the same four cases in another order, which makes the
 * same decision as `FixupNode` (the cases exclude one another).  What differs
 * is that a new node starts at height 0 (`int height{}`), there is no size or
 * rotation counter, and `find` builds an iterator rooted at the found node.
 */
module LegacyAVL {
  import opened AVLNode
  import opened AVLSubtree
  import opened AVLIterator
  import opened AVLTree

  /** `new Node(key, value)`: no children and the default height 0. */
  function Leaf<V>(k: int, v: V): (n: Tree<V>)
  {
    Node(k, v, Nil, Nil, 0)
  }

  /**
   * `_add(p, key, value)`: a new node where the search falls off the tree,
   * returned as it is; the subtree unchanged where the key is found; otherwise
   * the key goes left when smaller and right when not, and `_fixup_node` is
   * applied on the way back up.
   */
  function AddTo<V>(t: Tree<V>, k: int, v: V): Tree<V>
    decreases t
  {
    match t
    case Nil => Leaf(k, v)
    case Node(x, _, l, r, _) =>
      if k == x then t
      else if k < x then FixupNode(t.(left := AddTo(l, k, v)), k).tree
      else FixupNode(t.(right := AddTo(r, k, v)), k).tree
  }

  /** `_add` keeps the search order, adds an absent key with its value and
      leaves the value of a present key as it was. */
  lemma {:induction false} AddCorrect<V>(t: Tree<V>, k: int, v: V)
    requires Ordered(t)
    ensures Ordered(AddTo(t, k, v))
    ensures Keys(AddTo(t, k, v)) == Keys(t) + {k}
    ensures Content(AddTo(t, k, v)) == if k in Keys(t) then Content(t) else Content(t)[k := v]
    decreases t
  {
    match t
    case Nil =>
    case Node(x, _, l, r, _) =>
      if k < x {
        AddCorrect(l, k, v);
        ReplacedLeft(t, k, v, AddTo(l, k, v), k !in Keys(l));
      } else if x < k {
        AddCorrect(r, k, v);
        ReplacedRight(t, k, v, AddTo(r, k, v), k !in Keys(r));
      }
  }

  /** A node with a child whose stored height follows the equation is not
      changed by recomputing it. */
  lemma RecomputedSame<V>(n: Tree<V>)
    requires n.Node? && Shaped(n, 0) && (n.left.Node? || n.right.Node?)
    ensures Recomputed(n) == n && -1 <= Balance(n) <= 1
  {
  }

  /**
   * Adding a key that is already stored gives back the very same tree when the
   * stored heights follow the height equation (a childless node may keep 0)
   * and every balance is -1, 0 or 1: no height moves and no rotation fires.
   */
  lemma {:induction false} AddPresentUnchanged<V>(t: Tree<V>, k: int, v: V)
    requires Ordered(t) && Shaped(t, 0) && k in Keys(t)
    ensures AddTo(t, k, v) == t
    decreases t
  {
    match t
    case Node(x, _, l, r, _) =>
      if k < x {
        assert k !in Keys(r);
        AddPresentUnchanged(l, k, v);
        assert t.(left := AddTo(l, k, v)) == t;
        RecomputedSame(t);
      } else if x < k {
        assert k !in Keys(l);
        AddPresentUnchanged(r, k, v);
        assert t.(right := AddTo(r, k, v)) == t;
        RecomputedSame(t);
      }
  }

  /**
   * What `_add` keeps of the shape: the result is a node whose stored heights
   * follow the height equation (a childless node may keep 0) with every
   * balance in -1..1; its height grew by at most one (not at all from an
   * empty subtree), and when it grew, the new key lies on the side that
   * became one higher, or the result is one level above its leaves.
   */
  ghost predicate AddedShape<V>(t: Tree<V>, k: int, r: Tree<V>)
  {
    Shaped(r, 0) && r.Node? && Height(t) <= Height(r) <= Height(t) + 1 &&
    (t.Nil? ==> Height(r) == 0) &&
    (Height(r) == Height(t) + 1 ==>
       Height(r) == 1 || (k < r.key && Balance(r) == -1) || (r.key < k && Balance(r) == 1))
  }

  /** `_add` keeps the stored balances in -1..1, by induction on the tree:
      each step back up is `AddedLeftShape` or `AddedRightShape`. */
  lemma {:induction false} AddKeepsShape<V>(t: Tree<V>, k: int, v: V)
    requires Ordered(t) && Shaped(t, 0)
    ensures AddedShape(t, k, AddTo(t, k, v))
    decreases t
  {
    match t
    case Nil =>
    case Node(x, _, l, r, _) =>
      if k < x {
        AddKeepsShape(l, k, v);
        AddCorrect(l, k, v);
        assert k in Keys(AddTo(l, k, v));
        AddedLeftShape(t, k, AddTo(l, k, v));
      } else if x < k {
        AddKeepsShape(r, k, v);
        AddCorrect(r, k, v);
        assert k in Keys(AddTo(r, k, v));
        AddedRightShape(t, k, AddTo(r, k, v));
      }
  }

  /** `_fixup_node` after `_add` went left: the grown left child `s` put back
      and the node fixed up. */
  lemma AddedLeftShape<V>(t: Tree<V>, k: int, s: Tree<V>)
    requires t.Node? && Shaped(t, 0) && k < t.key && AddedShape(t.left, k, s)
    requires Ordered(s) && k in Keys(s)
    ensures AddedShape(t, k, FixupNode(t.(left := s), k).tree)
  {
    var m := Recomputed(t.(left := s));
    if Balance(m) < -1 {
      if k < s.key {
        RotateRightRebalances(m, 0);
      } else {
        assert s.key < k;
        LeftRightRebalances(m, 0);
      }
    }
  }

  /** The mirror image of `AddedLeftShape`. */
  lemma AddedRightShape<V>(t: Tree<V>, k: int, s: Tree<V>)
    requires t.Node? && Shaped(t, 0) && t.key < k && AddedShape(t.right, k, s)
    requires Ordered(s) && k in Keys(s)
    ensures AddedShape(t, k, FixupNode(t.(right := s), k).tree)
  {
    var m := Recomputed(t.(right := s));
    if Balance(m) > 1 {
      if s.key < k {
        RotateLeftRebalances(m, 0);
      } else {
        assert k < s.key;
        RightLeftRebalances(m, 0);
      }
    }
  }

  /** The second of three ascending additions: a leaf gets a right child. */
  lemma SecondAscending<V>(a: int, b: int, va: V, vb: V)
    requires a < b
    ensures AddTo(Leaf(a, va), b, vb) == Node(a, va, Nil, Leaf(b, vb), 1)
  {
    assert AddTo(Nil, b, vb) == Leaf(b, vb);
    assert FixupNode(Node(a, va, Nil, Leaf(b, vb), 0), b) == Fixed(Node(a, va, Nil, Leaf(b, vb), 1), 0);
  }

  /** The third of three ascending additions. */
  lemma ThirdAscending<V>(a: int, b: int, c: int, va: V, vb: V, vc: V)
    requires a < b < c
    ensures AddTo(Node(a, va, Nil, Leaf(b, vb), 1), c, vc) ==
            Node(a, va, Nil, Node(b, vb, Nil, Leaf(c, vc), 1), 2)
  {
    SecondAscending(b, c, vb, vc);
    var s := Node(b, vb, Nil, Leaf(c, vc), 1);
    assert AddTo(Leaf(b, vb), c, vc) == s;
    assert FixupNode(Node(a, va, Nil, s, 1), c) == Fixed(Node(a, va, Nil, s, 2), 0);
  }

  /**
   * Because a new node keeps height 0, `_balance` cannot tell it from an
   * absent child: three ascending keys make a chain of three nodes with stored
   * heights 2, 1 and 0, `height()` reports 2, and no rotation is made although
   * the real heights below the root differ by two.
   */
  lemma AscendingChain<V>(a: int, b: int, c: int, va: V, vb: V, vc: V)
    requires a < b < c
    ensures var t := AddTo(AddTo(AddTo(Nil, a, va), b, vb), c, vc);
            t == Node(a, va, Nil, Node(b, vb, Nil, Node(c, vc, Nil, Nil, 0), 1), 2) &&
            Height(t) == 2 && Balance(t) == 1 && Depth(t.right) - Depth(t.left) == 2
  {
    assert AddTo(Nil, a, va) == Leaf(a, va);
    SecondAscending(a, b, va, vb);
    ThirdAscending(a, b, c, va, vb, vc);
  }

  /**
   * `_add` as the height bookkeeping intends it: `_height` counts an absent
   * child 0, so a new node has to start at height 1, as the node of
   * include/AVLTree/AVLNode.hpp does.  Descent and fixup are unchanged.
   */
  function AddToExact<V>(t: Tree<V>, k: int, v: V): Tree<V>
    decreases t
  {
    match t
    case Nil => NewNode(k, v)
    case Node(x, _, l, r, _) =>
      if k == x then t
      else if k < x then FixupNode(t.(left := AddToExact(l, k, v)), k).tree
      else FixupNode(t.(right := AddToExact(r, k, v)), k).tree
  }

  /** With new nodes at height 1 the legacy `_add` builds the very tree the
      `_insert` of include/AVLTree/AVLTree.hpp builds. */
  lemma {:induction false} AddToExactIsInsert<V>(t: Tree<V>, k: int, v: V)
    ensures AddToExact(t, k, v) == InsertInto(t, k, v).tree
    decreases t
  {
    match t
    case Nil =>
    case Node(x, _, l, r, _) =>
      if k < x {
        AddToExactIsInsert(l, k, v);
      } else if x < k {
        AddToExactIsInsert(r, k, v);
      }
  }

  /** So the corrected `_add` keeps an AVL search tree: every stored height is
      the real height and the real heights of the two sides of every node
      differ by at most one, which the as-written `_add` does not keep
      (`AscendingChain`). */
  lemma AddToExactBalanced<V>(t: Tree<V>, k: int, v: V)
    requires Ordered(t) && IsAVL(t)
    ensures var r := AddToExact(t, k, v);
            Ordered(r) && IsAVL(r) && HeightsExact(r) && Keys(r) == Keys(t) + {k} &&
            -1 <= Depth(r.right) - Depth(r.left) <= 1
  {
    AddToExactIsInsert(t, k, v);
    InsertIntoCorrect(t, k, v);
    var r := AddToExact(t, k, v);
    AVLHeightsExact(r);
    AVLHeightsExact(r.left);
    AVLHeightsExact(r.right);
  }

  /** The three ascending keys of `AscendingChain` with the corrected `_add`:
      one left rotation puts the middle key at the root. */
  lemma AscendingBalanced<V>(a: int, b: int, c: int, va: V, vb: V, vc: V)
    requires a < b < c
    ensures AddToExact(AddToExact(AddToExact(Nil, a, va), b, vb), c, vc) ==
            Node(b, vb, NewNode(a, va), NewNode(c, vc), 2)
  {
    assert AddToExact(Nil, a, va) == NewNode(a, va);
    assert AddToExact(NewNode(a, va), b, vb) == Node(a, va, Nil, NewNode(b, vb), 2) by {
      assert FixupNode(Node(a, va, Nil, NewNode(b, vb), 1), b) == Fixed(Node(a, va, Nil, NewNode(b, vb), 2), 0);
    }
    var s := Node(b, vb, Nil, NewNode(c, vc), 2);
    assert AddToExact(NewNode(b, vb), c, vc) == s by {
      assert FixupNode(Node(b, vb, Nil, NewNode(c, vc), 1), c) == Fixed(s, 0);
    }
    var m := Node(a, va, Nil, s, 2);
    assert RotateLeft(Recomputed(m)) == Node(b, vb, NewNode(a, va), NewNode(c, vc), 2);
    assert FixupNode(m, c) == Fixed(Node(b, vb, NewNode(a, va), NewNode(c, vc), 2), 1);
  }

  /** The subtree the search loop stops at is a search tree again. */
  lemma {:induction false} SubtreeAtOrdered<V>(root: Tree<V>, k: int)
    requires Ordered(root)
    ensures Ordered(SubtreeAt(root, k))
    decreases root
  {
    if root.Node? && root.key != k {
      if root.key > k {
        SubtreeAtOrdered(root.left, k);
      } else {
        SubtreeAtOrdered(root.right, k);
      }
    }
  }

  /**
   * `find(key)` builds its iterator with the found node as the root, so it
   * starts at the least key of that node's subtree: at `key` itself only when
   * the found node has no left child.
   */
  lemma FindStartsAtSubtreeMinimum<V>(root: Tree<V>, k: int)
    requires Ordered(root) && k in Keys(root)
    ensures |Elements(SubtreeAt(root, k))| > 0
    ensures Elements(SubtreeAt(root, k))[0].0 == k <==> SubtreeAt(root, k).left.Nil?
  {
    SubtreeAtFinds(root, k);
    SubtreeAtOrdered(root, k);
    var n := SubtreeAt(root, k);
    assert Elements(n) == Elements(n.left) + [(n.key, n.value)] + Elements(n.right);
    if n.left.Node? {
      assert |Elements(n.left)| > 0 by {
        var i := KeyInElements(n.left, n.left.key);
      }
      ElementKeys(n.left, 0);
    }
  }

  /** The tree object: only the root. */
  class LegacyAVLTree<V> {
    var root: Tree<V>

    /** The root is a search tree whose stored heights follow the height
        equation, with every balance in -1..1 (`AddKeepsShape`). */
    ghost predicate Valid()
      reads this
    {
      Ordered(root) && Shaped(root, 0)
    }

    /** `AVLTree() = default`: empty. */
    constructor ()
      ensures Valid() && root == Nil
    {
      root := Nil;
    }

    /** `clear()`. */
    method Clear()
      modifies this
      ensures Valid() && root == Nil
    {
      root := Nil;
    }

    /** `add(key, value)`: `root = _add(root, key, value)`; an absent key is
        added with its value, a present key leaves the tree as it was. */
    method Add(k: int, v: V)
      requires Valid()
      modifies this
      ensures Valid() && root == AddTo(old(root), k, v)
      ensures Content(root) == if k in Keys(old(root)) then Content(old(root)) else Content(old(root))[k := v]
      ensures k in Keys(old(root)) ==> root == old(root)
    {
      AddCorrect(root, k, v);
      AddKeepsShape(root, k, v);
      if k in Keys(root) {
        AddPresentUnchanged(root, k, v);
      }
      root := AddTo(root, k, v);
    }

    /** `height()`: the stored height of the root, 0 for an empty tree. */
    function TreeHeight(): (h: nat)
      reads this
      ensures root.Nil? ==> h == 0
      ensures root.Node? ==> h == root.height
    {
      Height(root)
    }

    /** `contains(key)`: whether `_find` stops at a node. */
    method Contains(k: int) returns (b: bool)
      requires Valid()
      ensures b <==> k in Content(root)
    {
      var cur := FindNode(root, k);
      b := cur.Node?;
    }

    /** `begin()`: `Iterator(root)`, which visits every pair in key order. */
    method Begin() returns (it: AVLTreeIterator<V>)
      requires Valid()
      ensures fresh(it) && it.Valid() && it.Remaining() == Elements(root)
      ensures Ascending(it.Remaining())
    {
      OrderedIsAscending(root);
      it := new AVLTreeIterator.FromRoot(root);
    }

    /** `end()`: `Iterator(nullptr)`. */
    method End() returns (it: AVLTreeIterator<V>)
      ensures fresh(it) && it.Valid() && it.AtEnd()
    {
      it := new AVLTreeIterator.FromRoot(Nil);
    }

    /** `find(key)`: `Iterator(_find(key))`, which visits the found node's
        subtree only, and is at the end for an absent key. */
    method Find(k: int) returns (it: AVLTreeIterator<V>)
      requires Valid()
      ensures fresh(it) && it.Valid() && it.Remaining() == Elements(SubtreeAt(root, k))
      ensures it.AtEnd() <==> k !in Keys(root)
    {
      SubtreeAtFinds(root, k);
      var cur := FindNode(root, k);
      it := new AVLTreeIterator.FromRoot(cur);
    }
  }
}
