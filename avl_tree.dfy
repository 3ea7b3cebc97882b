/**
 * The tree object of include/AVLTree/AVLTree.hpp: the root, `_size` and the
 * rotation counter, the search loops, and the public operations.
 */
module AVLTree {
  import opened AVLNode
  import opened AVLSubtree
  import opened AVLIterator
  import opened Results

  // ------------------------------------------------------------------ search

  /** `AVL_ValueNotFoundException`. */
  datatype TreeError = ValueNotFound

  /** `_findNode(k)`: walk down from the root, right when the node's key is
      less than `k` and left otherwise, until the key or the end is reached. */
  method FindNode<V>(root: Tree<V>, k: int) returns (cur: Tree<V>)
    ensures cur == SubtreeAt(root, k)
    ensures Ordered(root) ==> (cur.Node? <==> k in Keys(root))
    ensures Ordered(root) && cur.Node? ==> cur.key == k && cur.value == Content(root)[k]
  {
    cur := root;
    while cur.Node? && cur.key != k
      invariant SubtreeAt(cur, k) == SubtreeAt(root, k)
      decreases cur
    {
      if cur.key < k {
        cur := cur.right;
      } else {
        cur := cur.left;
      }
    }
    if Ordered(root) {
      SubtreeAtFinds(root, k);
    }
  }

  /** `minimum(node)`: follow left children to the node whose pair comes first
      in order. */
  method Minimum<V>(node: Tree<V>) returns (m: Tree<V>)
    requires node.Node?
    ensures m.Node? && m.left.Nil?
    ensures |Elements(node)| > 0 && Elements(node)[0] == (m.key, m.value)
  {
    m := node;
    while m.left.Node?
      invariant m.Node? && |Elements(m)| > 0 && Elements(m)[0] == Elements(node)[0]
      decreases m
    {
      assert Elements(m) == Elements(m.left) + [(m.key, m.value)] + Elements(m.right);
      m := m.left;
    }
  }

  /** `maximum(node)`: follow right children to the node whose pair comes last
      in order. */
  method Maximum<V>(node: Tree<V>) returns (m: Tree<V>)
    requires node.Node?
    ensures m.Node? && m.right.Nil?
    ensures |Elements(node)| > 0 && Elements(node)[|Elements(node)| - 1] == (m.key, m.value)
  {
    m := node;
    while m.right.Node?
      invariant m.Node? && |Elements(m)| > 0
      invariant Elements(m)[|Elements(m)| - 1] == Elements(node)[|Elements(node)| - 1]
      decreases m
    {
      assert Elements(m) == Elements(m.left) + [(m.key, m.value)] + Elements(m.right);
      m := m.right;
    }
  }

  // --------------------------------------------------------------- the class

  /** Taking a member out of a set shrinks it by one. */
  lemma CardMinus(a: set<int>, k: int)
    requires k in a
    ensures |a - {k}| == |a| - 1
  {
    assert a == (a - {k}) + {k};
  }

  /** A root and a count the tree object may hold: an AVL search tree and
      the number of its keys. */
  ghost predicate WellFormed<V>(t: Tree<V>, n: nat)
  {
    Ordered(t) && IsAVL(t) && n == Count(t)
  }

  /** What `insert` needs of `_insert`: the new root and count are well formed
      again. */
  lemma InsertedCount<V>(t: Tree<V>, n: nat, k: int, v: V)
    requires WellFormed(t, n)
    ensures InsertInto(t, k, v).added <==> k !in Keys(t)
    ensures k !in Keys(t) ==> WellFormed(InsertInto(t, k, v).tree, n + 1)
    ensures k !in Keys(t) ==> Content(InsertInto(t, k, v).tree) == Content(t)[k := v]
    ensures k in Keys(t) ==> InsertInto(t, k, v).tree == t && InsertInto(t, k, v).rotations == 0
  {
    InsertIntoCorrect(t, k, v);
    var r := InsertInto(t, k, v);
    CountIsKeys(t);
    CountIsKeys(r.tree);
  }

  /** What `erase` needs of `_remove`. */
  lemma ErasedCount<V>(t: Tree<V>, n: nat, k: int)
    requires WellFormed(t, n)
    ensures RemoveFrom(t, k).removed <==> k in Keys(t)
    ensures Content(RemoveFrom(t, k).tree) == Content(t) - {k}
    ensures k in Keys(t) ==> n > 0 && WellFormed(RemoveFrom(t, k).tree, n - 1)
    ensures k !in Keys(t) ==> RemoveFrom(t, k).tree == t && RemoveFrom(t, k).rotations == 0
  {
    RemoveFromCorrect(t, k);
    var r := RemoveFrom(t, k);
    CountIsKeys(t);
    CountIsKeys(r.tree);
    if k in Keys(t) {
      CardMinus(Keys(t), k);
    }
  }

  /** The tree object: the root, `_size` and `_n_rotations`. */
  class AVLTree<V> {
    var root: Tree<V>
    var size: nat
    var rotations: nat

    /** The root is an AVL search tree and `_size` counts its keys. */
    ghost predicate Valid()
      reads this
    {
      WellFormed(root, size)
    }

    /** `AVLTree()`: empty, with the counters at zero. */
    constructor ()
      ensures Valid() && root == Nil && size == 0 && rotations == 0
    {
      root := Nil;
      size := 0;
      rotations := 0;
    }

    /** `insert(k, v)`: `_root = _insert(_root, k, v)`.  An absent key is added
        with its value and counted; a present key changes nothing. */
    method Insert(k: int, v: V)
      requires Valid()
      modifies this
      ensures Valid()
      ensures root == InsertInto(old(root), k, v).tree
      ensures rotations == old(rotations) + InsertInto(old(root), k, v).rotations
      ensures k in Keys(old(root)) ==> root == old(root) && size == old(size) && rotations == old(rotations)
      ensures k !in Keys(old(root)) ==> Content(root) == Content(old(root))[k := v] && size == old(size) + 1
    {
      InsertedCount(root, size, k, v);
      var r := InsertInto(root, k, v);
      var n := if r.added then size + 1 else size;
      root, size, rotations := r.tree, n, rotations + r.rotations;
    }

    /** `erase(k)`: `_root = _remove(_root, k)`.  A present key is removed with
        its value and the count drops by one; an absent key changes nothing. */
    method Erase(k: int)
      requires Valid()
      modifies this
      ensures Valid()
      ensures root == RemoveFrom(old(root), k).tree
      ensures rotations == old(rotations) + RemoveFrom(old(root), k).rotations
      ensures Content(root) == Content(old(root)) - {k}
      ensures k in Keys(old(root)) ==> size == old(size) - 1
      ensures k !in Keys(old(root)) ==> root == old(root) && size == old(size) && rotations == old(rotations)
    {
      ErasedCount(root, size, k);
      var r := RemoveFrom(root, k);
      var n := if r.removed then size - 1 else size;
      root, size, rotations := r.tree, n, rotations + r.rotations;
    }

    /** `clear()`: drop every node; the rotation counter is kept. */
    method Clear()
      modifies this
      ensures Valid() && root == Nil && size == 0 && rotations == old(rotations)
    {
      root := Nil;
      size := 0;
    }

    /** `empty()`. */
    function Empty(): (b: bool)
      reads this
      requires Valid()
      ensures b <==> Content(root) == map[]
    {
      size == 0
    }

    /** `size()`. */
    function Size(): (n: nat)
      reads this
      requires Valid()
      ensures n == |Content(root)|
    {
      CountIsKeys(root);
      size
    }

    /** `rotations()`: the number of rotations made so far. */
    function Rotations(): nat
      reads this
    {
      rotations
    }

    /** `contains(k)`. */
    method Contains(k: int) returns (b: bool)
      requires Valid()
      ensures b <==> k in Content(root)
    {
      var cur := FindNode(root, k);
      b := cur.Node?;
    }

    /** `at(k)` and `operator[](k)`: the stored value, or
        `AVL_ValueNotFoundException` for an absent key. */
    method At(k: int) returns (r: Result<V, TreeError>)
      requires Valid()
      ensures r.Ok? <==> k in Content(root)
      ensures r.Ok? ==> r.value == Content(root)[k]
      ensures r.Err? ==> r.error == ValueNotFound
    {
      var cur := FindNode(root, k);
      if cur.Nil? {
        return Err(ValueNotFound);
      }
      return Ok(cur.value);
    }

    /** `find(k)`: an iterator built by the (root, cur) constructor on the node
        holding `k`, or `AVL_ValueNotFoundException`. */
    method Find(k: int) returns (r: Result<AVLTreeIterator<V>, TreeError>)
      requires Valid()
      ensures r.Ok? <==> k in Content(root)
      ensures r.Err? ==> r.error == ValueNotFound
      ensures r.Ok? ==> fresh(r.value) && r.value.Valid() && r.value.current.Node?
      ensures r.Ok? ==> r.value.Remaining() == FoundRemaining(root, k) && r.value.Get() == (k, Content(root)[k])
    {
      var cur := FindNode(root, k);
      if cur.Nil? {
        return Err(ValueNotFound);
      }
      var it := new AVLTreeIterator.AtNode(root, cur);
      return Ok(it);
    }

    /** `find(k)` corrected: the iterator stands on the node holding `k` and
        goes on through the keys above it in order, each pair once. */
    method FindInOrder(k: int) returns (r: Result<AVLTreeIterator<V>, TreeError>)
      requires Valid()
      ensures r.Ok? <==> k in Content(root)
      ensures r.Err? ==> r.error == ValueNotFound
      ensures r.Ok? ==> fresh(r.value) && r.value.Valid() && r.value.current.Node?
      ensures r.Ok? ==> r.value.Remaining() == AtOrAbove(Elements(root), k) && r.value.Get() == (k, Content(root)[k])
    {
      var cur := FindNode(root, k);
      if cur.Nil? {
        return Err(ValueNotFound);
      }
      var it := new AVLTreeIterator.AtNodeOnce(root, cur);
      return Ok(it);
    }

    /** `begin()`: an iterator on the least key. */
    method Begin() returns (it: AVLTreeIterator<V>)
      requires Valid()
      ensures fresh(it) && it.Valid() && it.Remaining() == Elements(root)
    {
      it := new AVLTreeIterator.FromRoot(root);
    }

    /** `end()`: the iterator on no node. */
    method End() returns (it: AVLTreeIterator<V>)
      ensures fresh(it) && it.Valid() && it.AtEnd()
    {
      it := new AVLTreeIterator.FromRoot(Nil);
    }
  }
}
