/**
 * The class `RBTree` of include/RBTree/RBTree.hpp: a red-black tree with its
 * nodes in an arena (module RBArena), the root index `_root`, and the
 * counters `m_size` and `_n_rotations`.  Keys are unique: `insert` refuses a
 * key that is already there.  The ghost `shape` is the tree the links spell
 * out; `Valid()` says it is red-black and strictly ordered.
 *
 * `clear` drops every node but leaves `m_size` as it was, so `size()` counts
 * the pairs in the tree plus those `clear` dropped; the ghost `dropped`
 * keeps that difference.
 */
module RBTree {
  import opened RBShape
  import opened RBNodes
  import opened RBArena
  import opened RBColors
  import opened RBWalk
  import RBInsert
  import RBDelete
  import opened RBIterator
  import opened Results

  /** `RB_AlreadyExistsException` and `RB_ValueNotFoundException`. */
  datatype TreeError = AlreadyExists | ValueNotFound

  class RBTree<V> {
    var nodes: Arena<V>
    var root: nat
    var size: nat
    var rotations: nat
    ghost var shape: Tree<V>
    /** The pairs dropped by `clear` and still counted by `m_size`. */
    ghost var dropped: nat

    ghost predicate Valid()
      reads this
    {
      Wf(nodes, root, shape) && IsRB(shape) && Ordered(shape, true) &&
      size == Count(shape) + dropped
    }

    /** `RBTree()`: only the sentinel, black, its links to itself, and the
        root set to it; nothing counted.  `blank` stands for `Value()`. */
    constructor (blank: V)
      ensures Valid() && nodes == [Sentinel(blank)] && root == 0 && shape == Leaf
      ensures size == 0 && rotations == 0 && dropped == 0
    {
      nodes, root, size, rotations := [Sentinel(blank)], 0, 0, 0;
      shape, dropped := Leaf, 0;
    }

    /** `insert(key, value)`: `RB_AlreadyExistsException` and no change for
        a key already there; otherwise the pair goes in at its place in key
        order, the count grows by one and the rotations of the fixup (at most
        two) are counted. */
    method Insert(key: int, value: V) returns (r: Result<(), TreeError>, ghost at: nat)
      requires Valid()
      modifies this
      ensures Valid() && dropped == old(dropped)
      ensures r.Err? <==> key in old(Keys(shape))
      ensures r.Err? ==> r.error == AlreadyExists && nodes == old(nodes) && root == old(root)
      ensures r.Err? ==> shape == old(shape) && size == old(size) && rotations == old(rotations)
      ensures r.Ok? ==> at <= |old(Elements(shape))|
      ensures r.Ok? ==> Elements(shape) == old(Elements(shape))[..at] + [(key, value)] + old(Elements(shape))[at..]
      ensures r.Ok? ==> Keys(shape) == old(Keys(shape)) + {key} && size == old(size) + 1
      ensures r.Ok? ==> old(rotations) <= rotations <= old(rotations) + 2
    {
      var found, b, root', n;
      ghost var t';
      found, b, root', n, t', at := RBInsert.Insert(nodes, root, key, value, true, shape);
      if found {
        return Err(AlreadyExists), at;
      }
      nodes, root, shape, size, rotations := b, root', t', size + 1, rotations + n;
      return Ok(()), at;
    }

    /** `remove(key)`, with the splice of `_rb_delete`: an absent key changes
        nothing and throws nothing; a present one loses its pair, the count
        drops by one and the rotations of the fixup (at most three) are
        counted. */
    method Remove(key: int) returns (ghost at: nat)
      requires Valid()
      modifies this
      ensures Valid() && dropped == old(dropped)
      ensures key !in old(Keys(shape)) ==> nodes == old(nodes) && root == old(root) && shape == old(shape)
      ensures key !in old(Keys(shape)) ==> size == old(size) && rotations == old(rotations)
      ensures key in old(Keys(shape)) ==> at < |old(Elements(shape))| && old(Elements(shape))[at].0 == key
      ensures key in old(Keys(shape)) ==>
                Elements(shape) == old(Elements(shape))[..at] + old(Elements(shape))[at + 1..]
      ensures key in old(Keys(shape)) ==> Keys(shape) == old(Keys(shape)) - {key} && size + 1 == old(size)
      ensures key in old(Keys(shape)) ==> old(rotations) <= rotations <= old(rotations) + 3
    {
      var found, b, root', n;
      ghost var t';
      found, b, root', n, t', at := RBDelete.Remove(nodes, root, key, true, shape);
      var s := if found then size - 1 else size;
      nodes, root, shape, size, rotations := b, root', t', s, rotations + n;
    }

    /** `search(key)`: the value stored with `key`, or
        `RB_ValueNotFoundException`. */
    method Search(key: int) returns (r: Result<V, TreeError>)
      requires Valid()
      ensures r.Ok? <==> key in Keys(shape)
      ensures r.Ok? ==> (key, r.value) in Elements(shape)
      ensures r.Err? ==> r.error == ValueNotFound
    {
      StrictIsLoose(Elements(shape));
      var p;
      ghost var c, s;
      p, c, s := RBWalk.Search(nodes, root, key, shape);
      if p == 0 {
        return Err(ValueNotFound);
      }
      PositionElement(c, s);
      return Ok(nodes[p].value);
    }

    /** `contains(key)`. */
    method Contains(key: int) returns (b: bool)
      requires Valid()
      ensures b <==> key in Keys(shape)
    {
      StrictIsLoose(Elements(shape));
      var p;
      ghost var c, s;
      p, c, s := RBWalk.Search(nodes, root, key, shape);
      b := p != 0;
    }

    /** `size()`: `m_size`, the pairs in the tree and those `clear`
        dropped. */
    function Size(): (n: nat)
      reads this
      requires Valid()
      ensures n == |Elements(shape)| + dropped
    {
      CountElements(shape);
      size
    }

    /** `rotations()`: the rotations made so far. */
    function Rotations(): (n: nat)
      reads this
    {
      rotations
    }

    /** `clear()`: the tree becomes empty; `m_size` and the rotation counter
        stay as they were. */
    method Clear()
      requires Valid()
      modifies this
      ensures Valid() && root == 0 && shape == Leaf && nodes == old(nodes)
      ensures size == old(size) && rotations == old(rotations)
      ensures dropped == old(dropped) + |old(Elements(shape))|
    {
      CountElements(shape);
      root := 0;
      shape, dropped := Leaf, dropped + Count(shape);
    }

    /** `clear()` as the tree's other counters and the AVL tree's `clear`
        intend it: the tree becomes empty and `m_size` drops to 0, so
        `size()` counts the pairs in the tree again; the rotation counter
        stays. */
    method ClearAll()
      requires Valid()
      modifies this
      ensures Valid() && root == 0 && shape == Leaf && nodes == old(nodes)
      ensures size == 0 && dropped == 0 && rotations == old(rotations)
      ensures Size() == |Elements(shape)|
    {
      root, size := 0, 0;
      shape, dropped := Leaf, 0;
    }

    /** `begin()`: an iterator on the least key, or on the sentinel when the
        tree is empty. */
    method Begin() returns (it: RBTreeIterator<V>)
      requires Valid()
      ensures fresh(it) && it.Valid() && it.nodes == nodes && it.shape == shape && it.Pos() == 0
    {
      it := new RBTreeIterator(nodes, root, root, shape);
    }

    /** `end()`: the iterator on the sentinel. */
    method End() returns (it: RBTreeIterator<V>)
      requires Valid()
      ensures fresh(it) && it.Valid() && it.nodes == nodes && it.shape == shape && it.current == 0
    {
      it := new RBTreeIterator(nodes, 0, root, shape);
    }
  }
}
