/**
 * Insertion into a red-black tree: the walk down to a sentinel, the link of
 * a new red node there, and `_insert_fixup`, which include/RBTree/RBTree.hpp
 * (lines 167-226, 357-388) and includes/RBTree.h (lines 70-146) write alike.
 * The walk differs: the tree of include/RBTree stops at an equal key and
 * refuses it, the one of includes/RBTree.h sends equal keys to the right.
 */
module RBInsert {
  import opened RBShape
  import opened RBColors
  import opened RBNodes
  import opened RBArena
  import opened RBRotate

  // ------------------------------------------------------------- the walk

  /** The sentinel at the end of `ctx` is where `key` belongs: every pair
      before it is below the key, every pair after it above, and the last
      step went left exactly when the key is less than its node's. */
  ghost predicate Slot<V>(ctx: Ctx<V>, key: int, strict: bool)
  {
    (forall i :: 0 <= i < |CtxLeft(ctx)| ==> Below(CtxLeft(ctx)[i].0, key, strict)) &&
    (forall i :: 0 <= i < |CtxRight(ctx)| ==> key < CtxRight(ctx)[i].0) &&
    (!ctx.Top? ==> (ctx.InLeft? <==> key < ctx.key))
  }

  /** A key below the pair `x` of a node, and so below all of its right
      subtree `r`, is also below everything after the node. */
  lemma AboveAfter<V>(key: int, x: (int, V), r: seq<(int, V)>, after: seq<(int, V)>, strict: bool)
    requires key < x.0 && forall i :: 0 <= i < |r| ==> Below(x.0, r[i].0, strict)
    requires forall i :: 0 <= i < |after| ==> key < after[i].0
    ensures forall i :: 0 <= i < |[x] + r + after| ==> key < ([x] + r + after)[i].0
  {
    var all := [x] + r + after;
    forall i | 0 <= i < |all|
      ensures key < all[i].0
    {
      if 0 < i <= |r| {
        assert all[i] == r[i - 1];
      } else if i > |r| {
        assert all[i] == after[i - 1 - |r|];
      }
    }
  }

  /** A key at or above the pair `x` of a node, and so above all of its
      left subtree `l`, is also above everything before the node. */
  lemma BelowBefore<V>(key: int, before: seq<(int, V)>, l: seq<(int, V)>, x: (int, V), strict: bool)
    requires Below(x.0, key, strict) && forall i :: 0 <= i < |l| ==> Below(l[i].0, x.0, strict)
    requires forall i :: 0 <= i < |before| ==> Below(before[i].0, key, strict)
    ensures forall i :: 0 <= i < |before + l + [x]| ==> Below((before + l + [x])[i].0, key, strict)
  {
    var all := before + l + [x];
    forall i | 0 <= i < |all|
      ensures Below(all[i].0, key, strict)
    {
      var n := |before|;
      if i < n {
        assert all[i] == before[i];
      } else if i < n + |l| {
        assert all[i] == l[i - n];
      }
    }
  }

  /** One step of the walk keeps the key's place between the pairs before
      and after it. */
  lemma SlotDown<V>(ctx: Ctx<V>, s: Tree<V>, key: int, strict: bool)
    requires Slot(ctx, key, strict) && s.Br? && Sorted(Elements(s), strict)
    requires !(strict && key == s.key)
    ensures Sorted(Elements(s.left), strict) && Sorted(Elements(s.right), strict)
    ensures key < s.key ==> Slot(InLeft(s.id, s.color, s.key, s.value, s.right, ctx), key, strict)
    ensures !(key < s.key) ==> Slot(InRight(s.id, s.color, s.key, s.value, s.left, ctx), key, strict)
  {
    var l, x, r := Elements(s.left), (s.key, s.value), Elements(s.right);
    assert Elements(s) == l + [x] + r;
    SortedSplit(l, x, r, strict);
    if key < s.key {
      var c := InLeft(s.id, s.color, s.key, s.value, s.right, ctx);
      assert CtxRight(c) == [x] + r + CtxRight(ctx);
      AboveAfter(key, x, r, CtxRight(ctx), strict);
    } else {
      var c := InRight(s.id, s.color, s.key, s.value, s.left, ctx);
      assert CtxLeft(c) == CtxLeft(ctx) + l + [x];
      BelowBefore(key, CtxLeft(ctx), l, x, strict);
    }
  }

  /** Under strict order a key between all the pairs before its place and
      all those after it is not in the tree. */
  lemma SlotAbsent<V>(ctx: Ctx<V>, key: int)
    requires Slot(ctx, key, true)
    ensures key !in Keys(Plug(ctx, Leaf))
  {
    var t := Plug(ctx, Leaf);
    ElementsPlug(ctx, Leaf);
    KeysElements(t, key);
    forall i | 0 <= i < |Elements(t)|
      ensures Elements(t)[i].0 != key
    {
      if i < |CtxLeft(ctx)| {
        assert Elements(t)[i] == CtxLeft(ctx)[i];
      } else {
        assert Elements(t)[i] == CtxRight(ctx)[i - |CtxLeft(ctx)|];
      }
    }
  }

  /** The new pair put at its place keeps the pairs in order, and sits
      between those before the place and those after it. */
  lemma SlotFilled<V>(ctx: Ctx<V>, s: Tree<V>, strict: bool)
    requires s.Br? && s.left.Leaf? && s.right.Leaf?
    requires Slot(ctx, s.key, strict) && Sorted(Elements(Plug(ctx, Leaf)), strict)
    ensures Elements(Plug(ctx, Leaf)) == CtxLeft(ctx) + CtxRight(ctx)
    ensures Elements(Plug(ctx, s)) == CtxLeft(ctx) + [(s.key, s.value)] + CtxRight(ctx)
    ensures Sorted(Elements(Plug(ctx, s)), strict)
  {
    ElementsPlug(ctx, Leaf);
    ElementsPlug(ctx, s);
    assert CtxLeft(ctx) + [] + CtxRight(ctx) == CtxLeft(ctx) + CtxRight(ctx);
    SortedInsert(CtxLeft(ctx), (s.key, s.value), CtxRight(ctx), strict);
  }

  /** The walk of `insert` (`refuse`: stop at an equal key, as
      include/RBTree/RBTree.hpp lines 361-374 do) or of `_rb_insert` (equal
      keys go right, includes/RBTree.h lines 73-80).  It finds an equal key
      exactly when refusing and the key is there; otherwise it ends at the
      sentinel where the key belongs, with `p` the last node passed. */
  method Descend<V>(a: Arena<V>, root: nat, key: int, refuse: bool, ghost t: Tree<V>)
      returns (found: bool, p: nat, ghost ctx: Ctx<V>)
    requires Wf(a, root, t) && Ordered(t, refuse)
    ensures found <==> refuse && key in Keys(t)
    ensures !found ==> Plug(ctx, Leaf) == t && p == UpId(ctx) && Slot(ctx, key, refuse)
  {
    var c := root;
    p, found, ctx := 0, false, Top;
    ghost var s := t;
    while c != 0
      invariant Plug(ctx, s) == t && RootId(s) == c && p == UpId(ctx) && Rep(a, s, p)
      invariant Sorted(Elements(s), refuse) && Slot(ctx, key, refuse)
      decreases s
    {
      p := c;
      if refuse && key == a[c].key {
        KeysPlug(ctx, s);
        found := true;
        return;
      }
      SlotDown(ctx, s, key, refuse);
      if key < a[c].key {
        ctx, s, c := InLeft(s.id, s.color, s.key, s.value, s.right, ctx), s.left, a[c].left;
      } else {
        ctx, s, c := InRight(s.id, s.color, s.key, s.value, s.left, ctx), s.right, a[c].right;
      }
    }
    if refuse {
      SlotAbsent(ctx, key);
    }
  }

  /** The new node: `new RBNode(key, value, p, _NIL, _NIL, RED)` appended to
      the arena, made the root if `p` is the sentinel and otherwise the left
      or right child of `p` as the key compares with `p`'s. */
  method Link<V>(a: Arena<V>, root: nat, key: int, value: V, p: nat, ghost ctx: Ctx<V>)
      returns (b: Arena<V>, root': nat, n: nat)
    requires Wf(a, root, Plug(ctx, Leaf)) && p == UpId(ctx)
    requires !ctx.Top? ==> (ctx.InLeft? <==> key < ctx.key)
    ensures n == |a| && |b| == |a| + 1 && b[0] == a[0]
    ensures Wf(b, root', Plug(ctx, Br(n, Red, key, value, Leaf, Leaf)))
  {
    n := |a|;
    NewNodeDefaults(key, value, p);
    b := a + [NewNode(key, value, p)];
    RepPlug(a, ctx, Leaf);
    RepCtxIds(a, ctx, 0);
    if !ctx.Top? {
      assert ctx.id in CtxIds(ctx);
    }
    if p == 0 {
      root' := n;
    } else if key < b[p].key {
      b := b[p := b[p].(left := n)];
      root' := root;
    } else {
      b := b[p := b[p].(right := n)];
      root' := root;
    }
    Linked(a, b, root, root', ctx, Br(n, Red, key, value, Leaf, Leaf));
  }

  /** What `Link` writes spells out the tree with the new node at the
      place. */
  lemma Linked<V>(a: Arena<V>, b: Arena<V>, root: nat, root': nat, ctx: Ctx<V>, s: Tree<V>)
    requires Wf(a, root, Plug(ctx, Leaf)) && s.Br? && s.left.Leaf? && s.right.Leaf? && s.id == |a|
    requires |b| == |a| + 1 && SameExcept(a, b, {UpId(ctx)}) && b[0] == a[0]
    requires !ctx.Top? ==> 0 < ctx.id < |a|
    requires b[s.id] == RBNode(s.key, s.value, UpId(ctx), 0, 0, s.color)
    requires ctx.InLeft? ==> b[ctx.id] == a[ctx.id].(left := s.id)
    requires ctx.InRight? ==> b[ctx.id] == a[ctx.id].(right := s.id)
    requires root' == if ctx.Top? then s.id else root
    ensures Wf(b, root', Plug(ctx, s))
  {
    RepPlug(a, ctx, Leaf);
    RepCtxIds(a, ctx, 0);
    DistinctPlug(ctx, Leaf);
    Relink(a, b, {UpId(ctx)}, ctx, 0, s.id);
    RepPlug(b, ctx, s);
    assert s.id !in CtxIds(ctx);
    DistinctPlug(ctx, s);
    if !ctx.Top? {
      PlugRootId(ctx, Leaf, s);
    }
  }

  // ------------------------------------------------------------- the fixup

  /** The state of the loop of `_insert_fixup`: the arena spells out the
      tree, `z` is the focus and the insert invariant holds there. */
  ghost predicate Fixing<V>(a: Arena<V>, root: nat, z: nat, ctx: Ctx<V>, s: Tree<V>)
  {
    Wf(a, root, Plug(ctx, s)) && InsInv(ctx, s) && z == s.id
  }

  /** What the loop condition `z->parent->color == RED` reads. */
  lemma Look<V>(a: Arena<V>, root: nat, ctx: Ctx<V>, s: Tree<V>)
    requires Wf(a, root, Plug(ctx, s)) && s.Br?
    ensures 0 < s.id < |a| && a[s.id].parent == UpId(ctx) && UpId(ctx) < |a|
    ensures a[UpId(ctx)].color == Red <==> !ctx.Top? && ctx.color == Red
  {
    ReadFocus(a, ctx, s);
    if !ctx.Top? {
      ChildSide(a, ctx, s);
    }
  }

  /** The paints of case 1: parent and uncle black, grandparent red.  The
      grandparent, read back from z, is the node z moves up to; the parent
      and grandparent links are read before the paints, which leave every
      link as it was. */
  method Recolor<V>(a: Arena<V>, root: nat, z: nat, y: nat, ghost ctx: Ctx<V>, ghost s: Tree<V>)
      returns (b: Arena<V>, z': nat, ghost s': Tree<V>)
    requires Fixing(a, root, z, ctx, s) && !ctx.Top? && !ctx.up.Top?
    requires ctx.up.sib.Br? && y == ctx.up.sib.id
    ensures s' == Lift(WithSib(WithColor(ctx.up, Red), ctx.up.sib.(color := Black)), Lift(WithColor(ctx, Black), s))
    ensures Wf(b, root, Plug(ctx.up.up, s')) && z' == ctx.up.id
    ensures Elements(Plug(ctx.up.up, s')) == Elements(Plug(ctx, s)) && Ids(Plug(ctx.up.up, s')) == Ids(Plug(ctx, s))
    ensures |b| == |a| && b[0] == a[0]
  {
    ghost var g := ctx.up;
    ReadFocus(a, ctx, s);
    ChildSide(a, ctx, s);
    ghost var p1 := Lift(ctx, s).(color := Black);
    var parent := a[z].parent;
    var grand := a[parent].parent;
    PaintFocus(a, g, Lift(ctx, s), Black);
    b := Paint(a, parent, Black);
    ghost var cu := Flip(g, p1);
    PaintFocus(b, cu, g.sib, Black);
    b := Paint(b, y, Black);
    ghost var g1 := Lift(cu, g.sib.(color := Black));
    PaintFocus(b, g.up, g1, Red);
    b := Paint(b, grand, Red);
    z' := grand;
    s' := g1.(color := Red);
    assert s' == Lift(WithSib(WithColor(g, Red), g.sib.(color := Black)), Lift(WithColor(ctx, Black), s));
  }

  /** Case 1, the uncle `y` is red: parent and uncle turn black, the
      grandparent red, and z moves up to the grandparent. */
  method FixupCase1<V>(a: Arena<V>, root: nat, z: nat, y: nat, ghost ctx: Ctx<V>, ghost s: Tree<V>)
      returns (b: Arena<V>, z': nat, ghost ctx': Ctx<V>, ghost s': Tree<V>)
    requires Fixing(a, root, z, ctx, s) && !ctx.Top? && ctx.color == Red && !ctx.up.Top?
    requires ColorOf(ctx.up.sib) == Red && y == RootId(ctx.up.sib)
    ensures Fixing(b, root, z', ctx', s') && Depth(ctx') < Depth(ctx)
    ensures Elements(Plug(ctx', s')) == Elements(Plug(ctx, s)) && Ids(Plug(ctx', s')) == Ids(Plug(ctx, s))
    ensures |b| == |a| && b[0] == a[0]
  {
    InsRecolor(ctx, s);
    b, z', s' := Recolor(a, root, z, y, ctx, s);
    ctx' := ctx.up.up;
  }

  /** Case 2 with the parent a left child and z its right child: z moves up
      to the parent, which is rotated left, so that case 3 applies. */
  method FixupCase2Left<V>(a: Arena<V>, root: nat, z: nat, ghost ctx: Ctx<V>, ghost s: Tree<V>)
      returns (b: Arena<V>, root': nat, z': nat, ghost ctx': Ctx<V>, ghost s': Tree<V>)
    requires Fixing(a, root, z, ctx, s) && ctx.InRight? && ctx.color == Red && ctx.up.InLeft?
    requires ColorOf(ctx.up.sib) == Black
    ensures Fixing(b, root', z', ctx', s') && ctx'.InLeft? && ctx'.color == Red && ctx'.up == ctx.up
    ensures Elements(Plug(ctx', s')) == Elements(Plug(ctx, s)) && Ids(Plug(ctx', s')) == Ids(Plug(ctx, s))
    ensures |b| == |a| && b[0] == a[0]
  {
    ReadFocus(a, ctx, s);
    z' := a[z].parent;
    b, root' := LeftRotate(a, root, z', ctx.up, Lift(ctx, s));
    InsZigZagLeft(ctx, s);
    ctx', s' := InLeft(s.id, s.color, s.key, s.value, s.right, ctx.up),
                Br(ctx.id, ctx.color, ctx.key, ctx.value, ctx.sib, s.left);
    RotLKeeps(Lift(ctx, s));
    ElementsPlug(ctx.up, Lift(ctx, s));
    ElementsPlug(ctx.up, RotL(Lift(ctx, s)));
    IdsPlug(ctx.up, Lift(ctx, s));
    IdsPlug(ctx.up, RotL(Lift(ctx, s)));
  }

  /** Case 2 with the parent a right child and z its left child, the mirror
      image. */
  method FixupCase2Right<V>(a: Arena<V>, root: nat, z: nat, ghost ctx: Ctx<V>, ghost s: Tree<V>)
      returns (b: Arena<V>, root': nat, z': nat, ghost ctx': Ctx<V>, ghost s': Tree<V>)
    requires Fixing(a, root, z, ctx, s) && ctx.InLeft? && ctx.color == Red && ctx.up.InRight?
    requires ColorOf(ctx.up.sib) == Black
    ensures Fixing(b, root', z', ctx', s') && ctx'.InRight? && ctx'.color == Red && ctx'.up == ctx.up
    ensures Elements(Plug(ctx', s')) == Elements(Plug(ctx, s)) && Ids(Plug(ctx', s')) == Ids(Plug(ctx, s))
    ensures |b| == |a| && b[0] == a[0]
  {
    ReadFocus(a, ctx, s);
    z' := a[z].parent;
    b, root' := RightRotate(a, root, z', ctx.up, Lift(ctx, s));
    InsZigZagRight(ctx, s);
    ctx', s' := InRight(s.id, s.color, s.key, s.value, s.left, ctx.up),
                Br(ctx.id, ctx.color, ctx.key, ctx.value, s.right, ctx.sib);
    RotRKeeps(Lift(ctx, s));
    ElementsPlug(ctx.up, Lift(ctx, s));
    ElementsPlug(ctx.up, RotR(Lift(ctx, s)));
    IdsPlug(ctx.up, Lift(ctx, s));
    IdsPlug(ctx.up, RotR(Lift(ctx, s)));
  }

  /** Case 3 with the parent a left child and z its left child: the parent
      turns black, the grandparent red, and the grandparent is rotated
      right.  z's new parent is black, which ends the loop. */
  method FixupCase3Left<V>(a: Arena<V>, root: nat, z: nat, ghost ctx: Ctx<V>, ghost s: Tree<V>)
      returns (b: Arena<V>, root': nat, ghost ctx': Ctx<V>)
    requires Fixing(a, root, z, ctx, s) && ctx.InLeft? && ctx.color == Red && ctx.up.InLeft?
    requires ColorOf(ctx.up.sib) == Black
    ensures Fixing(b, root', z, ctx', s) && !ctx'.Top? && ctx'.color == Black && Depth(ctx') < Depth(ctx)
    ensures Elements(Plug(ctx', s)) == Elements(Plug(ctx, s)) && Ids(Plug(ctx', s)) == Ids(Plug(ctx, s))
    ensures |b| == |a| && b[0] == a[0]
  {
    ghost var g := ctx.up;
    ReadFocus(a, ctx, s);
    ChildSide(a, ctx, s);
    ghost var p1 := Lift(ctx, s).(color := Black);
    PaintFocus(a, g, Lift(ctx, s), Black);
    b := Paint(a, a[z].parent, Black);
    ghost var g1 := Lift(g, p1);
    PaintFocus(b, g.up, g1, Red);
    b := Paint(b, b[b[z].parent].parent, Red);
    ghost var g2 := g1.(color := Red);
    b, root' := RightRotate(b, root, b[b[z].parent].parent, g.up, g2);
    ctx' := InLeft(ctx.id, Black, ctx.key, ctx.value, Br(g.id, Red, g.key, g.value, ctx.sib, g.sib), g.up);
    InsZigZigLeft(ctx, s);
    assert RotR(g2) == Lift(ctx', s);
    RotRKeeps(g2);
    ElementsPlug(g.up, g2);
    ElementsPlug(g.up, RotR(g2));
    IdsPlug(g.up, g2);
    IdsPlug(g.up, RotR(g2));
  }

  /** Case 3 with the parent a right child and z its right child, the
      mirror image. */
  method FixupCase3Right<V>(a: Arena<V>, root: nat, z: nat, ghost ctx: Ctx<V>, ghost s: Tree<V>)
      returns (b: Arena<V>, root': nat, ghost ctx': Ctx<V>)
    requires Fixing(a, root, z, ctx, s) && ctx.InRight? && ctx.color == Red && ctx.up.InRight?
    requires ColorOf(ctx.up.sib) == Black
    ensures Fixing(b, root', z, ctx', s) && !ctx'.Top? && ctx'.color == Black && Depth(ctx') < Depth(ctx)
    ensures Elements(Plug(ctx', s)) == Elements(Plug(ctx, s)) && Ids(Plug(ctx', s)) == Ids(Plug(ctx, s))
    ensures |b| == |a| && b[0] == a[0]
  {
    ghost var g := ctx.up;
    ReadFocus(a, ctx, s);
    ChildSide(a, ctx, s);
    ghost var p1 := Lift(ctx, s).(color := Black);
    PaintFocus(a, g, Lift(ctx, s), Black);
    b := Paint(a, a[z].parent, Black);
    ghost var g1 := Lift(g, p1);
    PaintFocus(b, g.up, g1, Red);
    b := Paint(b, b[b[z].parent].parent, Red);
    ghost var g2 := g1.(color := Red);
    b, root' := LeftRotate(b, root, b[b[z].parent].parent, g.up, g2);
    ctx' := InRight(ctx.id, Black, ctx.key, ctx.value, Br(g.id, Red, g.key, g.value, g.sib, ctx.sib), g.up);
    InsZigZigRight(ctx, s);
    assert RotL(g2) == Lift(ctx', s);
    RotLKeeps(g2);
    ElementsPlug(g.up, g2);
    ElementsPlug(g.up, RotL(g2));
    IdsPlug(g.up, g2);
    IdsPlug(g.up, RotL(g2));
  }

  /** `_insert_fixup(z)`: from a new red node z below a red-black tree, the
      loop restores the red-black properties with at most two rotations,
      keeping the pairs in their order and the nodes where they are; the
      root is painted black at the end. */
  method InsertFixup<V>(a: Arena<V>, root: nat, z: nat, ghost ctx: Ctx<V>, ghost s: Tree<V>)
      returns (b: Arena<V>, root': nat, rotations: nat, ghost t: Tree<V>)
    requires Fixing(a, root, z, ctx, s)
    ensures Wf(b, root', t) && IsRB(t)
    ensures Elements(t) == Elements(Plug(ctx, s)) && Ids(t) == Ids(Plug(ctx, s))
    ensures |b| == |a| && b[0] == a[0] && rotations <= 2
  {
    b, root', rotations := a, root, 0;
    var zi: nat := z;
    ghost var c, f := ctx, s;
    Look(b, root', c, f);
    while b[b[zi].parent].color == Red
      invariant Fixing(b, root', zi, c, f)
      invariant 0 < zi < |b| && b[zi].parent == UpId(c) && UpId(c) < |b|
      invariant b[UpId(c)].color == Red <==> !c.Top? && c.color == Red
      invariant Elements(Plug(c, f)) == Elements(Plug(ctx, s)) && Ids(Plug(c, f)) == Ids(Plug(ctx, s))
      invariant |b| == |a| && b[0] == a[0]
      invariant rotations <= 2 && (rotations > 0 ==> c.Top? || c.color == Black)
      decreases Depth(c)
    {
      InsGrandparent(c, f);
      ChildSide(b, c, f);
      ChildSide(b, c.up, Lift(c, f));
      ReadColor(b, Flip(c.up, Lift(c, f)), c.up.sib);
      var pi := b[zi].parent;
      if pi == b[b[pi].parent].left {
        var y := b[b[pi].parent].right;
        if b[y].color == Red {
          b, zi, c, f := FixupCase1(b, root', zi, y, c, f);
        } else {
          if zi == b[pi].right {
            b, root', zi, c, f := FixupCase2Left(b, root', zi, c, f);
            rotations := rotations + 1;
          }
          b, root', c := FixupCase3Left(b, root', zi, c, f);
          rotations := rotations + 1;
        }
      } else {
        var y := b[b[pi].parent].left;
        if b[y].color == Red {
          b, zi, c, f := FixupCase1(b, root', zi, y, c, f);
        } else {
          if zi == b[pi].left {
            b, root', zi, c, f := FixupCase2Right(b, root', zi, c, f);
            rotations := rotations + 1;
          }
          b, root', c := FixupCase3Right(b, root', zi, c, f);
          rotations := rotations + 1;
        }
      }
      Look(b, root', c, f);
    }
    InsDone(c, f);
    ghost var whole := Plug(c, f);
    PlugBr(c, f);
    BlackenRoot(whole);
    PaintFocus(b, Top, whole, Black);
    b := Paint(b, root', Black);
    t := whole.(color := Black);
  }

  // ------------------------------------------------------------- together

  /** A whole insertion.  With `refuse`, a key already there is refused and
      nothing changes.  Otherwise the tree stays red-black and ordered, and
      its pairs are the old ones with the new pair put in at one place. */
  method Insert<V>(a: Arena<V>, root: nat, key: int, value: V, refuse: bool, ghost t: Tree<V>)
      returns (found: bool, b: Arena<V>, root': nat, rotations: nat, ghost t': Tree<V>, ghost at: nat)
    requires Wf(a, root, t) && IsRB(t) && Ordered(t, refuse)
    ensures found <==> refuse && key in Keys(t)
    ensures found ==> b == a && root' == root && t' == t && rotations == 0
    ensures Wf(b, root', t') && IsRB(t') && Ordered(t', refuse) && b[0] == a[0]
    ensures !found ==> |b| == |a| + 1 && rotations <= 2 && at <= |Elements(t)|
    ensures !found ==> Elements(t') == Elements(t)[..at] + [(key, value)] + Elements(t)[at..]
    ensures !found ==> Keys(t') == Keys(t) + {key} && Count(t') == Count(t) + 1
  {
    var p;
    ghost var ctx;
    found, p, ctx := Descend(a, root, key, refuse, t);
    if found {
      b, root', rotations, t', at := a, root, 0, t, 0;
      return;
    }
    var n;
    b, root', n := Link(a, root, key, value, p, ctx);
    ghost var s := Br(n, Red, key, value, Leaf, Leaf);
    InsStart(ctx, s);
    SlotFilled(ctx, s, refuse);
    b, root', rotations, t' := InsertFixup(b, root', n, ctx, s);
    at := |CtxLeft(ctx)|;
    ghost var l, r := CtxLeft(ctx), CtxRight(ctx);
    assert Elements(t) == l + r;
    assert Elements(t)[..at] == l && Elements(t)[at..] == r;
    KeysPairs(t);
    KeysPairs(t');
    PairKeysAppend(l, r);
    PairKeysAppend(l + [(key, value)], r);
    PairKeysAppend(l, [(key, value)]);
    assert PairKeys([(key, value)]) == {key} by {
      assert [(key, value)][1..] == [];
    }
    CountElements(t);
    CountElements(t');
  }
}
