/**
 * `_leftRotate` and `_rightRotate`, which include/RBTree/RBTree.hpp
 * (lines 115-157) and includes/RBTree.h (lines 276-323) write identically:
 * six pointer writes on the arena, which turn the shape at the focus into
 * its rotation and leave the rest of the tree as it was.
 */
module RBRotate {
  import opened RBShape
  import opened RBNodes
  import opened RBArena

  /** `_leftRotate(x)`, where `x` is the root of the focus `t` of the tree
      `Plug(ctx, t)`, and its right child is a node.  The arena afterwards
      spells out the same tree with `t` rotated left, the root index follows
      when `x` was the root, and the sentinel is untouched. */
  method LeftRotate<V>(a: Arena<V>, root: nat, x: nat, ghost ctx: Ctx<V>, ghost t: Tree<V>)
      returns (b: Arena<V>, root': nat)
    requires Wf(a, root, Plug(ctx, t)) && t.Br? && t.right.Br? && x == t.id
    ensures Wf(b, root', Plug(ctx, RotL(t)))
    ensures |b| == |a| && b[0] == a[0]
  {
    LeftIndices(a, root, ctx, t);

    var y := a[x].right;
    b := a[x := a[x].(right := a[y].left)];
    if b[y].left != 0 {
      b := b[b[y].left := b[b[y].left].(parent := x)];
    }
    b := b[y := b[y].(parent := b[x].parent)];
    if b[x].parent == 0 {
      root' := y;
    } else if x == b[b[x].parent].left {
      b := b[b[x].parent := b[b[x].parent].(left := y)];
      root' := root;
    } else {
      b := b[b[x].parent := b[b[x].parent].(right := y)];
      root' := root;
    }
    b := b[y := b[y].(left := x)];
    b := b[x := b[x].(parent := y)];

    RotatedLeft(a, b, root, root', ctx, t);
  }

  /** What the writes of `_leftRotate` leave in the arena, node by node, spell
      out the rotated tree. */
  lemma RotatedLeft<V>(a: Arena<V>, b: Arena<V>, root: nat, root': nat, ctx: Ctx<V>, t: Tree<V>)
    requires Wf(a, root, Plug(ctx, t)) && t.Br? && t.right.Br?
    requires |b| == |a| && 0 < t.id < |a| && 0 < t.right.id < |a|
    requires t.right.left.Br? ==> 0 < t.right.left.id < |a|
    requires !ctx.Top? ==> 0 < ctx.id < |a|
    requires SameExcept(a, b, {t.id, t.right.id, RootId(t.right.left), UpId(ctx)}) && b[0] == a[0]
    requires b[t.id] == a[t.id].(right := RootId(t.right.left), parent := t.right.id)
    requires b[t.right.id] == a[t.right.id].(parent := UpId(ctx), left := t.id)
    requires t.right.left.Br? ==> b[t.right.left.id] == a[t.right.left.id].(parent := t.id)
    requires ctx.InLeft? ==> b[ctx.id] == a[ctx.id].(left := t.right.id)
    requires ctx.InRight? ==> b[ctx.id] == a[ctx.id].(right := t.right.id)
    requires root' == if ctx.Top? then t.right.id else root
    ensures Wf(b, root', Plug(ctx, RotL(t)))
  {
    var y := t.right;
    var w := {t.id, y.id, RootId(y.left), UpId(ctx)};
    RepPlug(a, ctx, t);
    DistinctPlug(ctx, t);
    RepIds(a, t, UpId(ctx));
    RepCtxIds(a, ctx, t.id);
    assert Ids(t) == Ids(t.left) + {t.id} + Ids(y.left) + {y.id} + Ids(y.right);
    assert y.left.Br? ==> y.left.id in Ids(y.left);
    assert !ctx.Top? ==> ctx.id in CtxIds(ctx);
    RepFrame(a, b, w, t.left, t.id);
    Reparent(a, b, w, y.left, y.id, t.id);
    RepFrame(a, b, w, y.right, y.id);
    Relink(a, b, w, ctx, t.id, y.id);
    var t' := RotL(t);
    assert Rep(b, t'.left, y.id);
    assert Rep(b, t', UpId(ctx));
    RepPlug(b, ctx, t');
    RotLKeeps(t);
    DistinctReplace(ctx, t, t');
    if !ctx.Top? {
      PlugRootId(ctx, t, t');
    }
  }

  /** `_rightRotate(x)`, the mirror image. */
  method RightRotate<V>(a: Arena<V>, root: nat, x: nat, ghost ctx: Ctx<V>, ghost t: Tree<V>)
      returns (b: Arena<V>, root': nat)
    requires Wf(a, root, Plug(ctx, t)) && t.Br? && t.left.Br? && x == t.id
    ensures Wf(b, root', Plug(ctx, RotR(t)))
    ensures |b| == |a| && b[0] == a[0]
  {
    RightIndices(a, root, ctx, t);

    var y := a[x].left;
    b := a[x := a[x].(left := a[y].right)];
    if b[y].right != 0 {
      b := b[b[y].right := b[b[y].right].(parent := x)];
    }
    b := b[y := b[y].(parent := b[x].parent)];
    if b[x].parent == 0 {
      root' := y;
    } else if x == b[b[x].parent].right {
      b := b[b[x].parent := b[b[x].parent].(right := y)];
      root' := root;
    } else {
      b := b[b[x].parent := b[b[x].parent].(left := y)];
      root' := root;
    }
    b := b[y := b[y].(right := x)];
    b := b[x := b[x].(parent := y)];

    RotatedRight(a, b, root, root', ctx, t);
  }

  lemma RotatedRight<V>(a: Arena<V>, b: Arena<V>, root: nat, root': nat, ctx: Ctx<V>, t: Tree<V>)
    requires Wf(a, root, Plug(ctx, t)) && t.Br? && t.left.Br?
    requires |b| == |a| && 0 < t.id < |a| && 0 < t.left.id < |a|
    requires t.left.right.Br? ==> 0 < t.left.right.id < |a|
    requires !ctx.Top? ==> 0 < ctx.id < |a|
    requires SameExcept(a, b, {t.id, t.left.id, RootId(t.left.right), UpId(ctx)}) && b[0] == a[0]
    requires b[t.id] == a[t.id].(left := RootId(t.left.right), parent := t.left.id)
    requires b[t.left.id] == a[t.left.id].(parent := UpId(ctx), right := t.id)
    requires t.left.right.Br? ==> b[t.left.right.id] == a[t.left.right.id].(parent := t.id)
    requires ctx.InLeft? ==> b[ctx.id] == a[ctx.id].(left := t.left.id)
    requires ctx.InRight? ==> b[ctx.id] == a[ctx.id].(right := t.left.id)
    requires root' == if ctx.Top? then t.left.id else root
    ensures Wf(b, root', Plug(ctx, RotR(t)))
  {
    var y := t.left;
    var w := {t.id, y.id, RootId(y.right), UpId(ctx)};
    RepPlug(a, ctx, t);
    DistinctPlug(ctx, t);
    RepIds(a, t, UpId(ctx));
    RepCtxIds(a, ctx, t.id);
    assert Ids(t) == Ids(y.left) + {y.id} + Ids(y.right) + {t.id} + Ids(t.right);
    assert y.right.Br? ==> y.right.id in Ids(y.right);
    assert !ctx.Top? ==> ctx.id in CtxIds(ctx);
    RepFrame(a, b, w, t.right, t.id);
    Reparent(a, b, w, y.right, y.id, t.id);
    RepFrame(a, b, w, y.left, y.id);
    Relink(a, b, w, ctx, t.id, y.id);
    var t' := RotR(t);
    assert Rep(b, t'.right, y.id);
    assert Rep(b, t', UpId(ctx));
    RepPlug(b, ctx, t');
    RotRKeeps(t);
    DistinctReplace(ctx, t, t');
    if !ctx.Top? {
      PlugRootId(ctx, t, t');
    }
  }

  /** The nodes `_leftRotate` writes: the pivot, its right child, that
      child's left child and the pivot's parent, all distinct but for the
      sentinel. */
  lemma LeftIndices<V>(a: Arena<V>, root: nat, ctx: Ctx<V>, t: Tree<V>)
    requires Wf(a, root, Plug(ctx, t)) && t.Br? && t.right.Br?
    ensures 0 < t.id < |a| && 0 < t.right.id < |a| && t.id != t.right.id
    ensures a[t.id] == RBNode(t.key, t.value, UpId(ctx), RootId(t.left), t.right.id, t.color)
    ensures a[t.right.id] == RBNode(t.right.key, t.right.value, t.id, RootId(t.right.left),
                                    RootId(t.right.right), t.right.color)
    ensures RootId(t.right.left) < |a| && RootId(t.right.left) != t.id && RootId(t.right.left) != t.right.id
    ensures t.right.left.Br? ==> 0 < t.right.left.id
    ensures UpId(ctx) < |a| && UpId(ctx) != t.id && UpId(ctx) != t.right.id
    ensures UpId(ctx) != 0 ==> UpId(ctx) != RootId(t.right.left)
    ensures UpId(ctx) == 0 <==> ctx.Top?
    ensures ctx.InLeft? ==> a[ctx.id].left == t.id
    ensures ctx.InRight? ==> a[ctx.id].left != t.id && a[ctx.id].right == t.id
  {
    var y := t.right;
    RepPlug(a, ctx, t);
    DistinctPlug(ctx, t);
    RepIds(a, t, UpId(ctx));
    RepCtxIds(a, ctx, t.id);
    assert t.id in Ids(t) && y.id in Ids(t);
    assert y.left.Br? ==> y.left.id in Ids(y.left) && y.left.id in Ids(t);
    assert !ctx.Top? ==> ctx.id in CtxIds(ctx);
    if !ctx.Top? {
      ChildSide(a, ctx, t);
    }
  }

  lemma RightIndices<V>(a: Arena<V>, root: nat, ctx: Ctx<V>, t: Tree<V>)
    requires Wf(a, root, Plug(ctx, t)) && t.Br? && t.left.Br?
    ensures 0 < t.id < |a| && 0 < t.left.id < |a| && t.id != t.left.id
    ensures a[t.id] == RBNode(t.key, t.value, UpId(ctx), t.left.id, RootId(t.right), t.color)
    ensures a[t.left.id] == RBNode(t.left.key, t.left.value, t.id, RootId(t.left.left),
                                   RootId(t.left.right), t.left.color)
    ensures RootId(t.left.right) < |a| && RootId(t.left.right) != t.id && RootId(t.left.right) != t.left.id
    ensures t.left.right.Br? ==> 0 < t.left.right.id
    ensures UpId(ctx) < |a| && UpId(ctx) != t.id && UpId(ctx) != t.left.id
    ensures UpId(ctx) != 0 ==> UpId(ctx) != RootId(t.left.right)
    ensures UpId(ctx) == 0 <==> ctx.Top?
    ensures ctx.InRight? ==> a[ctx.id].right == t.id
    ensures ctx.InLeft? ==> a[ctx.id].right != t.id && a[ctx.id].left == t.id
  {
    var y := t.left;
    RepPlug(a, ctx, t);
    DistinctPlug(ctx, t);
    RepIds(a, t, UpId(ctx));
    RepCtxIds(a, ctx, t.id);
    assert t.id in Ids(t) && y.id in Ids(t);
    assert y.right.Br? ==> y.right.id in Ids(y.right) && y.right.id in Ids(t);
    assert !ctx.Top? ==> ctx.id in CtxIds(ctx);
    if !ctx.Top? {
      ChildSide(a, ctx, t);
    }
  }
}
