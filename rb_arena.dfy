/**
 * The nodes of a red-black tree of include/RBTree/RBTree.hpp and
 * includes/RBTree.h, kept in an arena: a sequence of `RBNode` records whose
 * links are indices, with the sentinel `_NIL` at index 0.  `Rep` says which
 * shape (module RBShape) the links spell out; the lemmas here say what
 * writing one field of one node does to that shape.
 */
module RBArena {
  import opened RBShape
  import opened RBNodes

  type Arena<V> = seq<RBNode<V>>

  /** The sentinel: black, both children itself.  Its parent is whatever the
      last delete wrote there. */
  predicate NilOk<V>(a: Arena<V>)
  {
    |a| > 0 && a[0].left == 0 && a[0].right == 0 && a[0].color == Black
  }

  /** The links of `a` spell out `t` below a node whose parent is `parent`:
      every node of `t` sits at its own index, with its colour, key and value,
      its parent and its children's indices (0 for the sentinel). */
  ghost predicate Rep<V>(a: Arena<V>, t: Tree<V>, parent: nat)
  {
    match t
    case Leaf => true
    case Br(id, c, k, v, l, r) =>
      0 < id < |a| && a[id] == RBNode(k, v, parent, RootId(l), RootId(r), c) &&
      Rep(a, l, id) && Rep(a, r, id)
  }

  /** The links of `a` spell out the path `ctx` above a focus whose index is
      `focus`. */
  ghost predicate RepCtx<V>(a: Arena<V>, ctx: Ctx<V>, focus: nat)
  {
    match ctx
    case Top => true
    case InLeft(id, c, k, v, sib, up) =>
      0 < id < |a| && a[id] == RBNode(k, v, UpId(up), focus, RootId(sib), c) &&
      Rep(a, sib, id) && RepCtx(a, up, id)
    case InRight(id, c, k, v, sib, up) =>
      0 < id < |a| && a[id] == RBNode(k, v, UpId(up), RootId(sib), focus, c) &&
      Rep(a, sib, id) && RepCtx(a, up, id)
  }

  /** A tree object's state: the sentinel, the root index and the shape, with
      no node reachable twice. */
  ghost predicate Wf<V>(a: Arena<V>, root: nat, t: Tree<V>)
  {
    NilOk(a) && root == RootId(t) && Rep(a, t, 0) && Distinct(t)
  }

  /** The whole tree is represented exactly when the focus is, below its
      parent, and the path is, above it. */
  lemma {:induction false} RepPlug<V>(a: Arena<V>, ctx: Ctx<V>, s: Tree<V>)
    ensures Rep(a, Plug(ctx, s), 0) <==> Rep(a, s, UpId(ctx)) && RepCtx(a, ctx, RootId(s))
    decreases ctx
  {
    if !ctx.Top? {
      RepPlug(a, ctx.up, Lift(ctx, s));
    }
  }

  /** Every node of a represented subtree is a real index of the arena. */
  lemma {:induction false} RepIds<V>(a: Arena<V>, t: Tree<V>, p: nat)
    requires Rep(a, t, p)
    ensures forall i :: i in Ids(t) ==> 0 < i < |a|
  {
    if t.Br? {
      RepIds(a, t.left, t.id);
      RepIds(a, t.right, t.id);
    }
  }

  lemma {:induction false} RepCtxIds<V>(a: Arena<V>, ctx: Ctx<V>, f: nat)
    requires RepCtx(a, ctx, f)
    ensures forall i :: i in CtxIds(ctx) ==> 0 < i < |a|
  {
    if !ctx.Top? {
      RepIds(a, ctx.sib, ctx.id);
      RepCtxIds(a, ctx.up, ctx.id);
    }
  }

  // ----------------------------------------------------------------- frames

  /** `b` is `a`, perhaps longer, changed at most at the indices in `w`. */
  ghost predicate SameExcept<V>(a: Arena<V>, b: Arena<V>, w: set<nat>)
  {
    |a| <= |b| && forall i :: 0 <= i < |a| && i !in w ==> b[i] == a[i]
  }

  /** A subtree none of whose nodes was written is represented as before. */
  lemma {:induction false} RepFrame<V>(a: Arena<V>, b: Arena<V>, w: set<nat>, t: Tree<V>, p: nat)
    requires Rep(a, t, p) && SameExcept(a, b, w) && Ids(t) !! w
    ensures Rep(b, t, p)
  {
    if t.Br? {
      RepFrame(a, b, w, t.left, t.id);
      RepFrame(a, b, w, t.right, t.id);
    }
  }

  lemma {:induction false} RepCtxFrame<V>(a: Arena<V>, b: Arena<V>, w: set<nat>, ctx: Ctx<V>, f: nat)
    requires RepCtx(a, ctx, f) && SameExcept(a, b, w) && CtxIds(ctx) !! w
    ensures RepCtx(b, ctx, f)
  {
    if !ctx.Top? {
      RepFrame(a, b, w, ctx.sib, ctx.id);
      RepCtxFrame(a, b, w, ctx.up, ctx.id);
    }
  }

  /** A subtree whose root alone was written, and only its `parent` field, is
      represented below the new parent. */
  lemma Reparent<V>(a: Arena<V>, b: Arena<V>, w: set<nat>, t: Tree<V>, p: nat, q: nat)
    requires Rep(a, t, p) && Distinct(t) && SameExcept(a, b, w) && (Ids(t) - {RootId(t)}) !! w
    requires t.Br? ==> b[t.id] == a[t.id].(parent := q)
    ensures Rep(b, t, q)
  {
    if t.Br? {
      RepFrame(a, b, w, t.left, t.id);
      RepFrame(a, b, w, t.right, t.id);
    }
  }

  /** The path above a focus whose first node alone was written, and only in
      the link to the focus, is represented above the new focus. */
  lemma Relink<V>(a: Arena<V>, b: Arena<V>, w: set<nat>, ctx: Ctx<V>, f: nat, g: nat)
    requires RepCtx(a, ctx, f) && DistinctCtx(ctx) && SameExcept(a, b, w)
    requires !ctx.Top? ==> (CtxIds(ctx) - {ctx.id}) !! w
    requires ctx.InLeft? ==> b[ctx.id] == a[ctx.id].(left := g)
    requires ctx.InRight? ==> b[ctx.id] == a[ctx.id].(right := g)
    ensures RepCtx(b, ctx, g)
  {
    if !ctx.Top? {
      RepFrame(a, b, w, ctx.sib, ctx.id);
      RepCtxFrame(a, b, w, ctx.up, ctx.id);
    }
  }

  // -------------------------------------------------------------- one field

  /** `x->color = c`. */
  function Paint<V>(a: Arena<V>, i: nat, c: Color): (b: Arena<V>)
    requires i < |a|
    ensures |b| == |a| && b[i].color == c
  {
    a[i := a[i].(color := c)]
  }

  /** Writing the colour, key or value of the root of the focus changes that
      node of the shape and nothing else. */
  lemma SetRoot<V>(a: Arena<V>, ctx: Ctx<V>, s: Tree<V>, c: Color, k: int, v: V)
    requires Rep(a, Plug(ctx, s), 0) && Distinct(Plug(ctx, s)) && s.Br?
    ensures s.id < |a|
    ensures Rep(a[s.id := a[s.id].(key := k, value := v, color := c)],
                Plug(ctx, Br(s.id, c, k, v, s.left, s.right)), 0)
  {
    RepPlug(a, ctx, s);
    DistinctPlug(ctx, s);
    var b := a[s.id := a[s.id].(key := k, value := v, color := c)];
    var s' := Br(s.id, c, k, v, s.left, s.right);
    assert SameExcept(a, b, {s.id});
    RepFrame(a, b, {s.id}, s.left, s.id);
    RepFrame(a, b, {s.id}, s.right, s.id);
    RepCtxFrame(a, b, {s.id}, ctx, s.id);
    RepPlug(b, ctx, s');
  }

  /** Painting the root of the focus paints that node of the shape, and
      changes neither the pairs, nor the indices, nor the root. */
  lemma PaintFocus<V>(a: Arena<V>, ctx: Ctx<V>, s: Tree<V>, c: Color)
    requires Rep(a, Plug(ctx, s), 0) && Distinct(Plug(ctx, s)) && s.Br?
    ensures 0 < s.id < |a| && Rep(Paint(a, s.id, c), Plug(ctx, s.(color := c)), 0)
    ensures Distinct(Plug(ctx, s.(color := c)))
    ensures Elements(Plug(ctx, s.(color := c))) == Elements(Plug(ctx, s))
    ensures Ids(Plug(ctx, s.(color := c))) == Ids(Plug(ctx, s))
    ensures RootId(Plug(ctx, s.(color := c))) == RootId(Plug(ctx, s))
  {
    SetRoot(a, ctx, s, c, s.key, s.value);
    assert 0 < s.id < |a| && a[s.id].(key := s.key, value := s.value, color := c) == a[s.id].(color := c) by {
      RepPlug(a, ctx, s);
    }
    PaintKeeps(ctx, s, c);
  }

  lemma PaintKeeps<V>(ctx: Ctx<V>, s: Tree<V>, c: Color)
    requires Distinct(Plug(ctx, s)) && s.Br?
    ensures Distinct(Plug(ctx, s.(color := c)))
    ensures Elements(Plug(ctx, s.(color := c))) == Elements(Plug(ctx, s))
    ensures Ids(Plug(ctx, s.(color := c))) == Ids(Plug(ctx, s))
    ensures RootId(Plug(ctx, s.(color := c))) == RootId(Plug(ctx, s))
  {
    var s' := s.(color := c);
    DistinctPlug(ctx, s);
    assert Ids(s') == Ids(s);
    DistinctReplace(ctx, s, s');
    ElementsPlug(ctx, s);
    ElementsPlug(ctx, s');
    IdsPlug(ctx, s);
    IdsPlug(ctx, s');
    if !ctx.Top? {
      PlugRootId(ctx, s, s');
    }
  }

  /** Replacing the focus by a subtree with the same root index and indices
      among its own, written only at those indices, keeps the rest of the
      tree represented. */
  lemma FocusSwap<V>(a: Arena<V>, b: Arena<V>, ctx: Ctx<V>, f: Tree<V>, f': Tree<V>)
    requires Rep(a, Plug(ctx, f), 0) && Distinct(Plug(ctx, f))
    requires SameExcept(a, b, Ids(f)) && Rep(b, f', UpId(ctx)) && Distinct(f') && Ids(f') <= Ids(f)
    requires RootId(f') == RootId(f)
    ensures Rep(b, Plug(ctx, f'), 0) && Distinct(Plug(ctx, f'))
    ensures RootId(Plug(ctx, f')) == RootId(Plug(ctx, f))
  {
    RepPlug(a, ctx, f);
    DistinctPlug(ctx, f);
    RepCtxFrame(a, b, Ids(f), ctx, RootId(f));
    RepPlug(b, ctx, f');
    DistinctReplace(ctx, f, f');
    if !ctx.Top? {
      PlugRootId(ctx, f, f');
    }
  }

  // ------------------------------------------------------------ reading

  /** Which child of its parent the focus is, told by comparing indices as
      the source compares pointers: the focus and its sibling cannot share an
      index unless both are the sentinel. */
  lemma ChildSide<V>(a: Arena<V>, ctx: Ctx<V>, s: Tree<V>)
    requires Rep(a, Plug(ctx, s), 0) && Distinct(Plug(ctx, s)) && !ctx.Top?
    requires s.Br? || ctx.sib.Br?
    ensures 0 < ctx.id < |a|
    ensures a[ctx.id].left == RootId(s) <==> ctx.InLeft?
    ensures a[ctx.id].right == RootId(s) <==> ctx.InRight?
    ensures a[ctx.id].color == ctx.color && a[ctx.id].parent == UpId(ctx.up)
    ensures !ctx.up.Top? ==> 0 < ctx.up.id < |a|
    ensures (if ctx.InLeft? then a[ctx.id].right else a[ctx.id].left) == RootId(ctx.sib)
  {
    RepPlug(a, ctx, s);
    DistinctPlug(ctx, s);
    if s.Br? && ctx.sib.Br? {
      assert s.id in Ids(s);
      assert ctx.sib.id in Ids(ctx.sib) && Ids(ctx.sib) <= CtxIds(ctx);
    }
  }

  /** The node at the focus and the link from it to its parent. */
  lemma ReadFocus<V>(a: Arena<V>, ctx: Ctx<V>, s: Tree<V>)
    requires Rep(a, Plug(ctx, s), 0) && s.Br?
    ensures 0 < s.id < |a|
    ensures a[s.id] == RBNode(s.key, s.value, UpId(ctx), RootId(s.left), RootId(s.right), s.color)
  {
    RepPlug(a, ctx, s);
  }

  /** The colour read at an index: that of the node, black for the
      sentinel. */
  lemma ReadColor<V>(a: Arena<V>, ctx: Ctx<V>, s: Tree<V>)
    requires Rep(a, Plug(ctx, s), 0) && NilOk(a)
    ensures RootId(s) < |a| && a[RootId(s)].color == ColorOf(s)
  {
    RepPlug(a, ctx, s);
  }

  /** The root index of a tree does not depend on the focus, unless the focus
      is the root. */
  lemma {:induction false} PlugRootId<V>(ctx: Ctx<V>, s1: Tree<V>, s2: Tree<V>)
    requires !ctx.Top?
    ensures RootId(Plug(ctx, s1)) == RootId(Plug(ctx, s2))
    decreases ctx
  {
    if !ctx.up.Top? {
      PlugRootId(ctx.up, Lift(ctx, s1), Lift(ctx, s2));
    }
  }

  /** A focus that is not the root is not at the root's index. */
  lemma NotRoot<V>(a: Arena<V>, ctx: Ctx<V>, s: Tree<V>)
    requires Rep(a, Plug(ctx, s), 0) && Distinct(Plug(ctx, s)) && !ctx.Top?
    ensures RootId(s) != RootId(Plug(ctx, s))
  {
    RepPlug(a, ctx, s);
    RepCtxIds(a, ctx, RootId(s));
    DistinctPlug(ctx, s);
    RootInCtx(ctx, s);
    if s.Br? {
      assert s.id in Ids(s);
    }
  }

  lemma {:induction false} RootInCtx<V>(ctx: Ctx<V>, s: Tree<V>)
    requires !ctx.Top?
    ensures RootId(Plug(ctx, s)) in CtxIds(ctx)
    decreases ctx
  {
    if !ctx.up.Top? {
      RootInCtx(ctx.up, Lift(ctx, s));
    }
  }
}
