/**
 * The older red-black tree of includes/RBTree.h: the same arena of nodes,
 * rotations and fixups as include/RBTree (modules RBRotate, RBInsert and
 * RBDelete), but `add` never refuses a key, an equal key going to the right,
 * so the order kept is the loose one; `remove` takes out the first node with
 * the key that the search walk meets.  Its iterators step through the parent
 * links without checking for the sentinel, and its reverse iterator swaps
 * the directions.
 */
module LegacyRB {
  import opened RBShape
  import opened RBNodes
  import opened RBArena
  import opened RBColors
  import opened RBWalk
  import RBInsert
  import RBDelete
  import opened RBIterator
  import opened Results

  /** The `std::out_of_range` thrown by `operator[]`. */
  datatype LegacyError = KeyOutOfRange

  /** `Iterator`: a node, or the sentinel for `end()`. */
  class Iterator<V> {
    const nodes: Arena<V>
    var current: nat
    ghost const root: nat
    ghost const shape: Tree<V>
    ghost var ctx: Ctx<V>
    ghost var focus: Tree<V>

    ghost predicate Valid()
      reads this
    {
      Wf(nodes, root, shape) && current < |nodes| &&
      (current != 0 ==> Plug(ctx, focus) == shape && focus.Br? && current == focus.id)
    }

    /** The in-order position of the current node; the sentinel is one past
        the last. */
    ghost function Pos(): (p: nat)
      reads this
      requires Valid()
      ensures p <= |Elements(shape)| && (p == |Elements(shape)| <==> current == 0)
    {
      if current == 0 then |Elements(shape)|
      else
        PositionElement(ctx, focus);
        Position(ctx, focus)
    }

    /** `Iterator(current, NIL)`: on the given node of the tree, or on the
        sentinel. */
    constructor (nodes: Arena<V>, current: nat, ghost root: nat, ghost shape: Tree<V>,
                 ghost ctx: Ctx<V>, ghost focus: Tree<V>)
      requires Wf(nodes, root, shape) && current < |nodes|
      requires current != 0 ==> Plug(ctx, focus) == shape && focus.Br? && current == focus.id
      ensures Valid() && this.nodes == nodes && this.current == current
      ensures this.root == root && this.shape == shape
      ensures current != 0 ==> Pos() == Position(ctx, focus)
    {
      this.nodes, this.current, this.root, this.shape := nodes, current, root, shape;
      this.ctx, this.focus := ctx, focus;
    }

    /** The copy the postfix operators return. */
    constructor Copy(other: Iterator<V>)
      requires other.Valid()
      ensures Valid() && nodes == other.nodes && root == other.root && shape == other.shape
      ensures current == other.current && Pos() == other.Pos()
    {
      nodes, root, shape := other.nodes, other.root, other.shape;
      current, ctx, focus := other.current, other.ctx, other.focus;
    }

    /** `operator*`: the value of the current node, the value of the pair at
        its position. */
    function Get(): (v: V)
      reads this
      requires Valid()
      ensures current != 0 ==> v == Elements(shape)[Pos()].1
    {
      var v := nodes[current].value;
      if current == 0 then v
      else
        FocusPair(nodes, root, shape, ctx, focus);
        v
    }

    /** `operator++`: one position on, to the sentinel after the last
        node. */
    method Next()
      requires Valid() && current != 0
      modifies this
      ensures Valid() && Pos() == old(Pos()) + 1
    {
      var next;
      ghost var c, s;
      next, c, s := Successor(nodes, root, current, shape, ctx, focus);
      current := next;
      if next != 0 {
        ctx, focus := c, s;
      }
    }

    /** `operator--`: one position back, from the first node to the
        sentinel. */
    method Prev()
      requires Valid() && current != 0
      modifies this
      ensures Valid()
      ensures old(Pos()) == 0 ==> current == 0
      ensures old(Pos()) > 0 ==> current != 0 && Pos() + 1 == old(Pos())
    {
      var prev;
      ghost var c, s;
      prev, c, s := Predecessor(nodes, root, current, shape, ctx, focus);
      current := prev;
      if prev != 0 {
        ctx, focus := c, s;
      }
    }

    /** `operator++(int)`: a copy as it was, then `++`. */
    method PostNext() returns (before: Iterator<V>)
      requires Valid() && current != 0
      modifies this
      ensures Valid() && Pos() == old(Pos()) + 1
      ensures fresh(before) && before.Valid() && before.shape == shape
      ensures before.current == old(current) && before.Pos() == old(Pos())
    {
      before := new Iterator.Copy(this);
      Next();
    }

    /** `operator--(int)`: a copy as it was, then `--`. */
    method PostPrev() returns (before: Iterator<V>)
      requires Valid() && current != 0
      modifies this
      ensures Valid()
      ensures old(Pos()) == 0 ==> current == 0
      ensures old(Pos()) > 0 ==> current != 0 && Pos() + 1 == old(Pos())
      ensures fresh(before) && before.Valid() && before.shape == shape
      ensures before.current == old(current) && before.Pos() == old(Pos())
    {
      before := new Iterator.Copy(this);
      Prev();
    }

    /** `operator==` compares the current nodes; `operator!=` is its
        negation. */
    function Equals(other: Iterator<V>): bool
      reads this, other
    {
      current == other.current
    }
  }

  /** Two iterators over the same tree are equal exactly when they stand at
      the same position. */
  lemma EqualsSamePosition<V>(i: Iterator<V>, j: Iterator<V>)
    requires i.Valid() && j.Valid() && i.shape == j.shape
    ensures i.Equals(j) <==> i.Pos() == j.Pos()
  {
    if i.current != 0 && j.current != 0 {
      SameNodeSamePosition(i.shape, i.ctx, i.focus, j.ctx, j.focus);
    }
  }

  /** `ReverseIterator`, an `Iterator` whose prefix `++` is the base `--`
      and whose prefix `--` is the base `++`. */
  class ReverseIterator<V> {
    const base: Iterator<V>

    ghost predicate Valid()
      reads this, base
    {
      base.Valid()
    }

    /** The constructor it inherits: on the given node, or the sentinel. */
    constructor (nodes: Arena<V>, current: nat, ghost root: nat, ghost shape: Tree<V>,
                 ghost ctx: Ctx<V>, ghost focus: Tree<V>)
      requires Wf(nodes, root, shape) && current < |nodes|
      requires current != 0 ==> Plug(ctx, focus) == shape && focus.Br? && current == focus.id
      ensures Valid() && fresh(base) && base.nodes == nodes && base.current == current
      ensures base.root == root && base.shape == shape
      ensures current != 0 ==> base.Pos() == Position(ctx, focus)
    {
      base := new Iterator(nodes, current, root, shape, ctx, focus);
    }

    /** `operator*`, inherited. */
    function Get(): (v: V)
      reads this, base
      requires Valid()
      ensures base.current != 0 ==> v == Elements(base.shape)[base.Pos()].1
    {
      base.Get()
    }

    /** Prefix `operator++`: one position back in key order. */
    method Next()
      requires Valid() && base.current != 0
      modifies base
      ensures Valid()
      ensures old(base.Pos()) == 0 ==> base.current == 0
      ensures old(base.Pos()) > 0 ==> base.current != 0 && base.Pos() + 1 == old(base.Pos())
    {
      base.Prev();
    }

    /** Prefix `operator--`: one position on in key order. */
    method Prev()
      requires Valid() && base.current != 0
      modifies base
      ensures Valid() && base.Pos() == old(base.Pos()) + 1
    {
      base.Next();
    }

    /** `operator++(int)` as written: the copy, then `--(*this)`, which is
        this class's own `--` and so the base `++`: it steps forward in key
        order, the opposite of the prefix `++`. */
    method PostNextAsWritten() returns (before: Iterator<V>)
      requires Valid() && base.current != 0
      modifies base
      ensures Valid() && base.Pos() == old(base.Pos()) + 1
      ensures fresh(before) && before.Valid() && before.Pos() == old(base.Pos())
    {
      before := new Iterator.Copy(base);
      Prev();
    }

    /** `operator++(int)` as its documentation describes it, the base
        `operator--(int)`: the copy, then one position back. */
    method PostNext() returns (before: Iterator<V>)
      requires Valid() && base.current != 0
      modifies base
      ensures Valid()
      ensures old(base.Pos()) == 0 ==> base.current == 0
      ensures old(base.Pos()) > 0 ==> base.current != 0 && base.Pos() + 1 == old(base.Pos())
      ensures fresh(before) && before.Valid() && before.Pos() == old(base.Pos())
    {
      before := new Iterator.Copy(base);
      Next();
    }

    /** `operator--(int)` as written: the copy, then `++(*this)`, the base
        `--`: it steps back in key order, the opposite of the prefix `--`. */
    method PostPrevAsWritten() returns (before: Iterator<V>)
      requires Valid() && base.current != 0
      modifies base
      ensures Valid()
      ensures old(base.Pos()) == 0 ==> base.current == 0
      ensures old(base.Pos()) > 0 ==> base.current != 0 && base.Pos() + 1 == old(base.Pos())
      ensures fresh(before) && before.Valid() && before.Pos() == old(base.Pos())
    {
      before := new Iterator.Copy(base);
      Next();
    }

    /** `operator--(int)` as its documentation describes it, the base
        `operator++(int)`: the copy, then one position on. */
    method PostPrev() returns (before: Iterator<V>)
      requires Valid() && base.current != 0
      modifies base
      ensures Valid() && base.Pos() == old(base.Pos()) + 1
      ensures fresh(before) && before.Valid() && before.Pos() == old(base.Pos())
    {
      before := new Iterator.Copy(base);
      Prev();
    }
  }

  class LegacyRBTree<V> {
    var nodes: Arena<V>
    var root: nat
    ghost var shape: Tree<V>

    ghost predicate Valid()
      reads this
    {
      Wf(nodes, root, shape) && IsRB(shape) && Ordered(shape, false)
    }

    /** `RBTree()`: the sentinel, black, its links to itself, as the root.
        `blank` stands for `V()`. */
    constructor (blank: V)
      ensures Valid() && nodes == [Sentinel(blank)] && root == 0 && shape == Leaf
    {
      nodes, root, shape := [Sentinel(blank)], 0, Leaf;
    }

    /** `add(key, value)`: `_rb_insert`, which never refuses a key; the pair
        goes in at a place that keeps the keys in order. */
    method Add(key: int, value: V) returns (ghost at: nat)
      requires Valid()
      modifies this
      ensures Valid() && at <= |old(Elements(shape))|
      ensures Elements(shape) == old(Elements(shape))[..at] + [(key, value)] + old(Elements(shape))[at..]
      ensures Keys(shape) == old(Keys(shape)) + {key} && Count(shape) == old(Count(shape)) + 1
    {
      var found, b, root', n;
      ghost var t';
      found, b, root', n, t', at := RBInsert.Insert(nodes, root, key, value, false, shape);
      nodes, root, shape := b, root', t';
    }

    /** `remove(key)`: `_remove`, which walks to a node with the key and
        deletes it with `_rb_delete`; an absent key changes nothing. */
    method Remove(key: int) returns (ghost at: nat)
      requires Valid()
      modifies this
      ensures Valid()
      ensures key !in old(Keys(shape)) ==> nodes == old(nodes) && root == old(root) && shape == old(shape)
      ensures key in old(Keys(shape)) ==> at < |old(Elements(shape))| && old(Elements(shape))[at].0 == key
      ensures key in old(Keys(shape)) ==>
                Elements(shape) == old(Elements(shape))[..at] + old(Elements(shape))[at + 1..]
      ensures key in old(Keys(shape)) ==> Count(shape) + 1 == old(Count(shape))
    {
      var found, b, root', n;
      ghost var t';
      found, b, root', n, t', at := RBDelete.Remove(nodes, root, key, false, shape);
      nodes, root, shape := b, root', t';
    }

    /** `operator[](key)`: the value of the node the search walk finds, or
        `std::out_of_range`. */
    method Subscript(key: int) returns (r: Result<V, LegacyError>)
      requires Valid()
      ensures r.Ok? <==> key in Keys(shape)
      ensures r.Ok? ==> (key, r.value) in Elements(shape)
      ensures r.Err? ==> r.error == KeyOutOfRange
    {
      var p;
      ghost var c, s;
      p, c, s := RBWalk.Search(nodes, root, key, shape);
      if p == 0 {
        return Err(KeyOutOfRange);
      }
      PositionElement(c, s);
      return Ok(nodes[p].value);
    }

    /** `find(key)`: an iterator on the node the search walk finds, or on
        the sentinel, `end()`, for an absent key. */
    method Find(key: int) returns (it: Iterator<V>)
      requires Valid()
      ensures fresh(it) && it.Valid() && it.nodes == nodes && it.shape == shape
      ensures it.current == 0 <==> key !in Keys(shape)
      ensures it.current != 0 ==> Elements(shape)[it.Pos()].0 == key
    {
      var p;
      ghost var c, s;
      p, c, s := RBWalk.Search(nodes, root, key, shape);
      if p != 0 {
        FocusPair(nodes, root, shape, c, s);
      }
      it := new Iterator(nodes, p, root, shape, c, s);
    }

    /** `begin()`: the leftmost node, the sentinel for an empty tree. */
    method Begin() returns (it: Iterator<V>)
      requires Valid()
      ensures fresh(it) && it.Valid() && it.nodes == nodes && it.shape == shape && it.Pos() == 0
    {
      var m;
      ghost var c, s;
      m, c, s := First(nodes, root, shape);
      it := new Iterator(nodes, m, root, shape, c, s);
    }

    /** `end()`: the sentinel. */
    method End() returns (it: Iterator<V>)
      requires Valid()
      ensures fresh(it) && it.Valid() && it.nodes == nodes && it.shape == shape && it.current == 0
    {
      it := new Iterator(nodes, 0, root, shape, Top, Leaf);
    }

    /** `rbegin()`: the rightmost node, the sentinel for an empty tree. */
    method RBegin() returns (it: ReverseIterator<V>)
      requires Valid()
      ensures fresh(it) && fresh(it.base) && it.Valid() && it.base.nodes == nodes && it.base.shape == shape
      ensures it.base.current == 0 <==> |Elements(shape)| == 0
      ensures it.base.current != 0 ==> it.base.Pos() + 1 == |Elements(shape)|
    {
      var m;
      ghost var c, s;
      m, c, s := Last(nodes, root, shape);
      it := new ReverseIterator(nodes, m, root, shape, c, s);
    }

    /** `rend()`: the sentinel. */
    method REnd() returns (it: ReverseIterator<V>)
      requires Valid()
      ensures fresh(it) && fresh(it.base) && it.Valid() && it.base.nodes == nodes && it.base.shape == shape
      ensures it.base.current == 0
    {
      it := new ReverseIterator(nodes, 0, root, shape, Top, Leaf);
    }
  }
}
