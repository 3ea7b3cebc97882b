/**
 * The parent-link iterator of include/RBTree/RBTreeIterator.hpp: it stands on
 * one node of a red-black tree, or on the sentinel `_NIL`, which is `end()`.
 * The iterator does not change the tree; it keeps the arena it walks (a
 * snapshot of the nodes, which no operation changes while it iterates) and,
 * as ghost state, where its node sits in the shape.  `Pos()` is the in-order
 * position of that node, with the sentinel one past the last.
 *
 * The lemmas at the top relate node identity to in-order position; the
 * iterators of includes/RBTree.h (module LegacyRB) use them too.
 */
module RBIterator {
  import opened RBShape
  import opened RBNodes
  import opened RBArena
  import opened RBWalk
  import opened Results

  /** `std::out_of_range`, which `++` and `--` throw on the sentinel. */
  datatype IteratorError = OutOfRange

  // ------------------------------------------------ identity and position

  /** The in-order position of the node with index `id` in `t`. */
  ghost function PosOf<V>(t: Tree<V>, id: nat): nat
  {
    match t
    case Leaf => 0
    case Br(i, _, _, _, l, r) =>
      if i == id then |Elements(l)|
      else if id in Ids(l) then PosOf(l, id)
      else |Elements(l)| + 1 + PosOf(r, id)
  }

  lemma {:induction false} PosOfBound<V>(t: Tree<V>, id: nat)
    requires id in Ids(t)
    ensures PosOf(t, id) < |Elements(t)|
  {
    if t.id != id {
      if id in Ids(t.left) {
        PosOfBound(t.left, id);
      } else {
        PosOfBound(t.right, id);
      }
    }
  }

  /** Two nodes of a tree at the same position are the same node. */
  lemma {:induction false} PosOfInjective<V>(t: Tree<V>, i: nat, j: nat)
    requires Distinct(t) && i in Ids(t) && j in Ids(t) && PosOf(t, i) == PosOf(t, j)
    ensures i == j
  {
    if i != t.id && i in Ids(t.left) {
      PosOfBound(t.left, i);
    }
    if j != t.id && j in Ids(t.left) {
      PosOfBound(t.left, j);
    }
    if i != t.id && j != t.id {
      if i in Ids(t.left) && j in Ids(t.left) {
        PosOfInjective(t.left, i, j);
      } else if i !in Ids(t.left) && j !in Ids(t.left) {
        PosOfInjective(t.right, i, j);
      }
    }
  }

  /** The position of a node in the whole tree is its position in the focus
      after the pairs before the focus. */
  lemma {:induction false} PosOfPlug<V>(ctx: Ctx<V>, s: Tree<V>, id: nat)
    requires Distinct(Plug(ctx, s)) && id in Ids(s)
    ensures PosOf(Plug(ctx, s), id) == |CtxLeft(ctx)| + PosOf(s, id)
    decreases ctx
  {
    if !ctx.Top? {
      var t := Lift(ctx, s);
      DistinctPlug(ctx.up, t);
      assert Ids(t) == Ids(s) + {ctx.id} + Ids(ctx.sib);
      PosOfPlug(ctx.up, t, id);
    }
  }

  /** The root of the focus sits at the focus's position. */
  lemma FocusPosition<V>(ctx: Ctx<V>, s: Tree<V>)
    requires Distinct(Plug(ctx, s)) && s.Br?
    ensures s.id in Ids(Plug(ctx, s)) && PosOf(Plug(ctx, s), s.id) == Position(ctx, s)
  {
    IdsPlug(ctx, s);
    PosOfPlug(ctx, s, s.id);
  }

  /** Two places in one tree hold the same node exactly when they are at the
      same in-order position: comparing node pointers, as the iterators'
      `==` does, compares positions. */
  lemma SameNodeSamePosition<V>(t: Tree<V>, c1: Ctx<V>, s1: Tree<V>, c2: Ctx<V>, s2: Tree<V>)
    requires Distinct(t) && Plug(c1, s1) == t && Plug(c2, s2) == t && s1.Br? && s2.Br?
    ensures s1.id == s2.id <==> Position(c1, s1) == Position(c2, s2)
  {
    FocusPosition(c1, s1);
    FocusPosition(c2, s2);
    if Position(c1, s1) == Position(c2, s2) {
      PosOfInjective(t, s1.id, s2.id);
    }
  }

  /** What the iterators read at a node: its key and value are the pair at
      its position. */
  lemma FocusPair<V>(a: Arena<V>, root: nat, t: Tree<V>, ctx: Ctx<V>, s: Tree<V>)
    requires Wf(a, root, t) && Plug(ctx, s) == t && s.Br?
    ensures 0 < s.id < |a| && Position(ctx, s) < |Elements(t)|
    ensures Elements(t)[Position(ctx, s)] == (a[s.id].key, a[s.id].value)
  {
    ReadFocus(a, ctx, s);
    PositionElement(ctx, s);
  }

  /** The first node of a tree in order, found as `_minimum(root)` finds it;
      the sentinel for an empty tree. */
  method First<V>(a: Arena<V>, root: nat, ghost t: Tree<V>)
      returns (m: nat, ghost ctx: Ctx<V>, ghost s: Tree<V>)
    requires Wf(a, root, t)
    ensures m < |a| && (m == 0 <==> |Elements(t)| == 0)
    ensures m != 0 ==> Plug(ctx, s) == t && s.Br? && m == s.id && Position(ctx, s) == 0
  {
    ctx, s := Top, t;
    if root == 0 {
      m := 0;
      return;
    }
    m, ctx, s := Minimum(a, root, t, 0);
    AllLeftNothingBefore(ctx);
  }

  /** The last node in order, as `_maximum(root)` finds it. */
  method Last<V>(a: Arena<V>, root: nat, ghost t: Tree<V>)
      returns (m: nat, ghost ctx: Ctx<V>, ghost s: Tree<V>)
    requires Wf(a, root, t)
    ensures m < |a| && (m == 0 <==> |Elements(t)| == 0)
    ensures m != 0 ==> Plug(ctx, s) == t && s.Br? && m == s.id && Position(ctx, s) + 1 == |Elements(t)|
  {
    ctx, s := Top, t;
    if root == 0 {
      m := 0;
      return;
    }
    m, ctx, s := Maximum(a, root, t, 0);
    ElementsPlug(ctx, s);
    AllRightNothingAfter(ctx);
    assert Elements(s) == Elements(s.left) + [(s.key, s.value)];
  }

  // ------------------------------------------------------------ the class

  class RBTreeIterator<V> {
    /** The nodes the iterator walks, with the sentinel at index 0. */
    const nodes: Arena<V>
    /** `current`: a node, or 0 for the sentinel. */
    var current: nat
    ghost const root: nat
    ghost const shape: Tree<V>
    ghost var ctx: Ctx<V>
    ghost var focus: Tree<V>

    ghost predicate Valid()
      reads this
    {
      Wf(nodes, root, shape) && current < |nodes| &&
      (current != 0 ==> Plug(ctx, focus) == shape && focus.Br? && current == focus.id)
    }

    /** The in-order position of the current node; the sentinel is one past
        the last. */
    ghost function Pos(): (p: nat)
      reads this
      requires Valid()
      ensures p <= |Elements(shape)| && (p == |Elements(shape)| <==> current == 0)
    {
      if current == 0 then |Elements(shape)|
      else
        PositionElement(ctx, focus);
        Position(ctx, focus)
    }

    /** `RBTreeIterator(root, nil)`: on `_minimum(root)`, or on the sentinel
        when `root` is the sentinel, as `end()` passes it.  `root` is the
        root of the tree `shape` or the sentinel. */
    constructor (nodes: Arena<V>, start: nat, ghost root: nat, ghost shape: Tree<V>)
      requires Wf(nodes, root, shape) && (start == root || start == 0)
      ensures Valid() && this.nodes == nodes && this.root == root && this.shape == shape
      ensures start == 0 ==> current == 0
      ensures start != 0 ==> Pos() == 0
    {
      var m := 0;
      ghost var c, s := Top, shape;
      if start != 0 {
        m, c, s := First(nodes, start, shape);
      }
      this.nodes, this.root, this.shape := nodes, root, shape;
      current, ctx, focus := m, c, s;
    }

    /** A copy, as the postfix operators make one. */
    constructor Copy(other: RBTreeIterator<V>)
      requires other.Valid()
      ensures Valid() && nodes == other.nodes && root == other.root && shape == other.shape
      ensures current == other.current && Pos() == other.Pos()
    {
      nodes, root, shape := other.nodes, other.root, other.shape;
      current, ctx, focus := other.current, other.ctx, other.focus;
    }

    /** `operator*`: the key and value of the current node, the pair at its
        position; on the sentinel, the sentinel's default key and value. */
    function Get(): (r: (int, V))
      reads this
      requires Valid()
      ensures current != 0 ==> r == Elements(shape)[Pos()]
    {
      var r := (nodes[current].key, nodes[current].value);
      if current == 0 then r
      else
        FocusPair(nodes, root, shape, ctx, focus);
        r
    }

    /** `operator++`: one position on, to the sentinel after the last node;
        `std::out_of_range` on the sentinel. */
    method Next() returns (r: Result<(), IteratorError>)
      requires Valid()
      modifies this
      ensures Valid()
      ensures old(current) == 0 ==> r == Err(OutOfRange) && current == 0
      ensures old(current) != 0 ==> r.Ok? && Pos() == old(Pos()) + 1
    {
      if current == 0 {
        return Err(OutOfRange);
      }
      var next;
      ghost var c, s;
      next, c, s := Successor(nodes, root, current, shape, ctx, focus);
      current := next;
      if next != 0 {
        ctx, focus := c, s;
      }
      return Ok(());
    }

    /** `operator--`: one position back; from the first node to the
        sentinel; `std::out_of_range` on the sentinel. */
    method Prev() returns (r: Result<(), IteratorError>)
      requires Valid()
      modifies this
      ensures Valid()
      ensures old(current) == 0 ==> r == Err(OutOfRange) && current == 0
      ensures old(current) != 0 ==> r.Ok?
      ensures old(current) != 0 && old(Pos()) == 0 ==> current == 0
      ensures old(current) != 0 && old(Pos()) > 0 ==> current != 0 && Pos() + 1 == old(Pos())
    {
      if current == 0 {
        return Err(OutOfRange);
      }
      var prev;
      ghost var c, s;
      prev, c, s := Predecessor(nodes, root, current, shape, ctx, focus);
      current := prev;
      if prev != 0 {
        ctx, focus := c, s;
      }
      return Ok(());
    }

    /** `operator++(int)`: a copy of the iterator as it was, then `++`. */
    method PostNext() returns (r: Result<RBTreeIterator<V>, IteratorError>)
      requires Valid()
      modifies this
      ensures Valid()
      ensures old(current) == 0 ==> r == Err(OutOfRange) && current == 0
      ensures old(current) != 0 ==> r.Ok? && Pos() == old(Pos()) + 1
      ensures r.Ok? ==> fresh(r.value) && r.value.Valid() && r.value.shape == shape
      ensures r.Ok? ==> r.value.current == old(current) && r.value.Pos() == old(Pos())
    {
      var tmp := new RBTreeIterator.Copy(this);
      var step := Next();
      if step.Err? {
        return Err(step.error);
      }
      return Ok(tmp);
    }

    /** `operator--(int)`: a copy of the iterator as it was, then `--`. */
    method PostPrev() returns (r: Result<RBTreeIterator<V>, IteratorError>)
      requires Valid()
      modifies this
      ensures Valid()
      ensures old(current) == 0 ==> r == Err(OutOfRange) && current == 0
      ensures old(current) != 0 && old(Pos()) == 0 ==> current == 0
      ensures old(current) != 0 && old(Pos()) > 0 ==> current != 0 && Pos() + 1 == old(Pos())
      ensures old(current) != 0 ==> r.Ok? && fresh(r.value) && r.value.Valid() && r.value.shape == shape
      ensures r.Ok? ==> r.value.current == old(current) && r.value.Pos() == old(Pos())
    {
      var tmp := new RBTreeIterator.Copy(this);
      var step := Prev();
      if step.Err? {
        return Err(step.error);
      }
      return Ok(tmp);
    }

    /** `operator==` compares the current nodes; `operator!=` is its
        negation. */
    function Equals(other: RBTreeIterator<V>): bool
      reads this, other
    {
      current == other.current
    }
  }

  /** Two iterators over the same tree are equal exactly when they stand at
      the same position. */
  lemma EqualsSamePosition<V>(i: RBTreeIterator<V>, j: RBTreeIterator<V>)
    requires i.Valid() && j.Valid() && i.shape == j.shape
    ensures i.Equals(j) <==> i.Pos() == j.Pos()
  {
    if i.current != 0 && j.current != 0 {
      SameNodeSamePosition(i.shape, i.ctx, i.focus, j.ctx, j.focus);
    }
  }
}
