/**
 * The loops that walk the links of a red-black tree without changing it:
 * `_search`, `_minimum` and `_maximum` (include/RBTree/RBTree.hpp lines
 * 73-111, includes/RBTree.h lines 193-196 and 258-267), and the successor and
 * predecessor walks of the iterators' `operator++` and `operator--`
 * (include/RBTree/RBTreeIterator.hpp lines 60-108 and 148-166,
 * includes/RBTree.h lines 392-446).  Each returns the index it stops at and,
 * as ghost results, where that node sits in the shape.
 */
module RBWalk {
  import opened RBShape
  import opened RBNodes
  import opened RBArena

  /** `_search(key)`: from the root, left when `key` is less than the node's
      key, right otherwise, until the key or the sentinel.  On an ordered tree
      it finds a node exactly when the key is present; the modern tree orders
      strictly, which is also loosely. */
  method Search<V>(a: Arena<V>, root: nat, key: int, ghost t: Tree<V>)
      returns (p: nat, ghost ctx: Ctx<V>, ghost s: Tree<V>)
    requires Wf(a, root, t)
    ensures Plug(ctx, s) == t && RootId(s) == p && p < |a|
    ensures p != 0 ==> s.Br? && s.key == key && a[p].key == key && a[p].value == s.value
    ensures Ordered(t, false) ==> (p != 0 <==> key in Keys(t))
  {
    p, ctx, s := root, Top, t;
    while p != 0 && a[p].key != key
      invariant Plug(ctx, s) == t && RootId(s) == p && Rep(a, s, UpId(ctx))
      invariant Ordered(t, false) && key in Keys(t) ==> key in Keys(s)
      decreases s
    {
      if Ordered(t, false) {
        OrderedFocus(ctx, s, false);
        OrderedChildren(s, false);
      }
      if key < a[p].key {
        ctx := InLeft(s.id, s.color, s.key, s.value, s.right, ctx);
        s := s.left;
        p := a[p].left;
      } else {
        ctx := InRight(s.id, s.color, s.key, s.value, s.left, ctx);
        s := s.right;
        p := a[p].right;
      }
    }
    if p != 0 {
      KeysPlug(ctx, s);
    }
  }

  /** `_minimum(x)`: follow left links to the first node in order of the
      subtree rooted at `x`.  The ghost `spine` is the path walked, all to the
      left. */
  method Minimum<V>(a: Arena<V>, x: nat, ghost s: Tree<V>, ghost par: nat)
      returns (m: nat, ghost spine: Ctx<V>, ghost ms: Tree<V>)
    requires Rep(a, s, par) && s.Br? && x == s.id
    ensures Plug(spine, ms) == s && AllLeft(spine) && ms.Br? && ms.left.Leaf? && m == ms.id
    ensures 0 < m < |a| && a[m].left == 0
    ensures |Elements(s)| > 0 && Elements(s)[0] == (ms.key, ms.value)
  {
    m, spine, ms := x, Top, s;
    ghost var q := par;
    while a[m].left != 0
      invariant Plug(spine, ms) == s && AllLeft(spine) && ms.Br? && m == ms.id && Rep(a, ms, q)
      decreases ms
    {
      spine := InLeft(ms.id, ms.color, ms.key, ms.value, ms.right, spine);
      q, ms, m := m, ms.left, a[m].left;
    }
    ElementsPlug(spine, ms);
    AllLeftNothingBefore(spine);
  }

  /** `_maximum(x)`: follow right links to the last node in order. */
  method Maximum<V>(a: Arena<V>, x: nat, ghost s: Tree<V>, ghost par: nat)
      returns (m: nat, ghost spine: Ctx<V>, ghost ms: Tree<V>)
    requires Rep(a, s, par) && s.Br? && x == s.id
    ensures Plug(spine, ms) == s && AllRight(spine) && ms.Br? && ms.right.Leaf? && m == ms.id
    ensures 0 < m < |a| && a[m].right == 0
    ensures |Elements(s)| > 0 && Elements(s)[|Elements(s)| - 1] == (ms.key, ms.value)
  {
    m, spine, ms := x, Top, s;
    ghost var q := par;
    while a[m].right != 0
      invariant Plug(spine, ms) == s && AllRight(spine) && ms.Br? && m == ms.id && Rep(a, ms, q)
      decreases ms
    {
      spine := InRight(ms.id, ms.color, ms.key, ms.value, ms.left, spine);
      q, ms, m := m, ms.right, a[m].right;
    }
    ElementsPlug(spine, ms);
    AllRightNothingAfter(spine);
  }

  /** The in-order successor of the node at `cur`: the minimum of its right
      subtree if it has one, else the first ancestor reached from a left
      child, else the sentinel.  It is the node one position further on, and
      the sentinel exactly after the last position. */
  method Successor<V>(a: Arena<V>, ghost root: nat, cur: nat, ghost t: Tree<V>, ghost ctx: Ctx<V>, ghost s: Tree<V>)
      returns (next: nat, ghost ctx': Ctx<V>, ghost s': Tree<V>)
    requires Wf(a, root, t) && Plug(ctx, s) == t && s.Br? && cur == s.id
    ensures next < |a| && (next == 0 <==> Position(ctx, s) + 1 == |Elements(t)|)
    ensures next != 0 ==> Plug(ctx', s') == t && s'.Br? && next == s'.id
    ensures next != 0 ==> Position(ctx', s') == Position(ctx, s) + 1
  {
    RepPlug(a, ctx, s);
    ctx', s' := ctx, s;
    if a[cur].right != 0 {
      ghost var below := InRight(s.id, s.color, s.key, s.value, s.left, ctx);
      ghost var spine;
      next, spine, s' := Minimum(a, a[cur].right, s.right, cur);
      ctx' := Append(spine, below);
      PlugAppend(spine, below, s');
      CtxAppend(spine, below);
      AllLeftNothingBefore(spine);
      PositionElement(ctx', s');
    } else {
      var c, p := cur, a[cur].parent;
      ghost var cc, cs := ctx, s;
      if !ctx.Top? {
        ChildSide(a, ctx, s);
      }
      while p != 0 && c == a[p].right
        invariant Plug(cc, cs) == t && cs.Br? && c == cs.id && p == UpId(cc) && p < |a|
        invariant cc.Top? <==> p == 0
        invariant |CtxLeft(cc)| + |Elements(cs)| == Position(ctx, s) + 1
        decreases Depth(cc)
      {
        ChildSide(a, cc, cs);
        c, p := p, a[p].parent;
        cs, cc := Lift(cc, cs), cc.up;
        if !cc.Top? {
          ChildSide(a, cc, cs);
        }
      }
      next := p;
      if p != 0 {
        ChildSide(a, cc, cs);
        ctx', s' := cc.up, Lift(cc, cs);
        PositionElement(ctx', s');
      }
    }
  }

  /** The in-order predecessor, the mirror image: the node one position
      back, and the sentinel exactly before the first position. */
  method Predecessor<V>(a: Arena<V>, ghost root: nat, cur: nat, ghost t: Tree<V>, ghost ctx: Ctx<V>, ghost s: Tree<V>)
      returns (prev: nat, ghost ctx': Ctx<V>, ghost s': Tree<V>)
    requires Wf(a, root, t) && Plug(ctx, s) == t && s.Br? && cur == s.id
    ensures prev < |a| && (prev == 0 <==> Position(ctx, s) == 0)
    ensures prev != 0 ==> Plug(ctx', s') == t && s'.Br? && prev == s'.id
    ensures prev != 0 ==> Position(ctx', s') + 1 == Position(ctx, s)
  {
    RepPlug(a, ctx, s);
    ctx', s' := ctx, s;
    if a[cur].left != 0 {
      ghost var below := InLeft(s.id, s.color, s.key, s.value, s.right, ctx);
      ghost var spine;
      prev, spine, s' := Maximum(a, a[cur].left, s.left, cur);
      ctx' := Append(spine, below);
      PlugAppend(spine, below, s');
      CtxAppend(spine, below);
      ElementsPlug(spine, s');
      AllRightNothingAfter(spine);
      assert Elements(s') == Elements(s'.left) + [(s'.key, s'.value)];
    } else {
      var c, p := cur, a[cur].parent;
      ghost var cc, cs := ctx, s;
      if !ctx.Top? {
        ChildSide(a, ctx, s);
      }
      while p != 0 && c == a[p].left
        invariant Plug(cc, cs) == t && cs.Br? && c == cs.id && p == UpId(cc) && p < |a|
        invariant cc.Top? <==> p == 0
        invariant |CtxLeft(cc)| == Position(ctx, s)
        decreases Depth(cc)
      {
        ChildSide(a, cc, cs);
        c, p := p, a[p].parent;
        cs, cc := Lift(cc, cs), cc.up;
        if !cc.Top? {
          ChildSide(a, cc, cs);
        }
      }
      prev := p;
      if p != 0 {
        ChildSide(a, cc, cs);
        ctx', s' := cc.up, Lift(cc, cs);
      }
    }
  }
}
