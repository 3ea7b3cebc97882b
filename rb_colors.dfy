/**
 * The red-black properties of include/RBTree/RBTree.hpp and includes/RBTree.h
 * on shapes, and what each case of the insert and delete fixups does to them.
 * Black heights count the nodes strictly above the sentinel, so a `Leaf` has
 * black height 0.
 */
module RBColors {
  import opened RBShape

  function Weight(c: Color): nat
  {
    if c == Black then 1 else 0
  }

  /** The number of black nodes on the leftmost path. */
  function BH<V>(t: Tree<V>): nat
  {
    match t
    case Leaf => 0
    case Br(_, c, _, _, l, _) => BH(l) + Weight(c)
  }

  /** Every path from a node down to the sentinel has the same number of black
      nodes. */
  predicate Balanced<V>(t: Tree<V>)
  {
    match t
    case Leaf => true
    case Br(_, _, _, _, l, r) => BH(l) == BH(r) && Balanced(l) && Balanced(r)
  }

  /** No red node has a red child. */
  predicate NoRedRed<V>(t: Tree<V>)
  {
    match t
    case Leaf => true
    case Br(_, c, _, _, l, r) =>
      (c == Red ==> ColorOf(l) == Black && ColorOf(r) == Black) && NoRedRed(l) && NoRedRed(r)
  }

  /** A red-black tree: black root, no red-red link, one black height. */
  predicate IsRB<V>(t: Tree<V>)
  {
    ColorOf(t) == Black && Balanced(t) && NoRedRed(t)
  }

  /** A path around which a subtree of black height `h` and root colour `c`
      may be put back without breaking the red-black properties below the
      root. */
  predicate CtxRB<V>(ctx: Ctx<V>, h: nat, c: Color)
    decreases ctx
  {
    ctx.Top? ||
    (Balanced(ctx.sib) && NoRedRed(ctx.sib) && BH(ctx.sib) == h &&
     (ctx.color == Red ==> c == Black && ColorOf(ctx.sib) == Black) &&
     CtxRB(ctx.up, h + Weight(ctx.color), ctx.color))
  }

  /** The same, except that the link between the focus and its parent may be
      red-red: the one defect the fixups carry up the tree. */
  predicate CtxLoose<V>(ctx: Ctx<V>, h: nat)
  {
    ctx.Top? ||
    (Balanced(ctx.sib) && NoRedRed(ctx.sib) && BH(ctx.sib) == h &&
     (ctx.color == Red ==> ColorOf(ctx.sib) == Black) &&
     CtxRB(ctx.up, h + Weight(ctx.color), ctx.color))
  }

  lemma CtxRBLoose<V>(ctx: Ctx<V>, h: nat, c: Color)
    ensures CtxRB(ctx, h, c) <==> CtxLoose(ctx, h) && (ctx.Top? || ctx.color == Black || c == Black)
  {
  }

  /** A whole tree keeps the properties below its root exactly when the focus
      does and its path accepts it. */
  lemma {:induction false} PlugRB<V>(ctx: Ctx<V>, s: Tree<V>)
    ensures Balanced(Plug(ctx, s)) && NoRedRed(Plug(ctx, s)) <==>
            Balanced(s) && NoRedRed(s) && CtxRB(ctx, BH(s), ColorOf(s))
    decreases ctx
  {
    if !ctx.Top? {
      var t := Lift(ctx, s);
      PlugRB(ctx.up, t);
      assert Balanced(t) <==> BH(s) == BH(ctx.sib) && Balanced(s) && Balanced(ctx.sib);
      assert BH(s) == BH(ctx.sib) ==> BH(t) == BH(s) + Weight(ctx.color);
    }
  }

  /** The root of a whole tree does not depend on the focus below it. */
  lemma {:induction false} PlugRootColor<V>(ctx: Ctx<V>, s1: Tree<V>, s2: Tree<V>)
    requires !ctx.Top?
    ensures ColorOf(Plug(ctx, s1)) == ColorOf(Plug(ctx, s2))
    decreases ctx
  {
    if !ctx.up.Top? {
      PlugRootColor(ctx.up, Lift(ctx, s1), Lift(ctx, s2));
    }
  }

  /** Below a root frame, the whole tree is that frame's node. */
  lemma PlugOneFrame<V>(ctx: Ctx<V>, s: Tree<V>)
    requires !ctx.Top?
    ensures ctx.up.Top? ==> Plug(ctx, s) == Lift(ctx, s)
  {
  }

  /** A black subtree of black height 0 is the sentinel. */
  lemma BlackZeroIsLeaf<V>(t: Tree<V>)
    requires ColorOf(t) == Black && BH(t) == 0
    ensures t.Leaf?
  {
  }

  /** Painting the root of a tree black keeps it red-black below the root and
      makes it red-black. */
  lemma BlackenRoot<V>(t: Tree<V>)
    requires t.Br? && Balanced(t) && NoRedRed(t)
    ensures IsRB(t.(color := Black))
  {
  }

  /** The red-black properties do not look at keys or values. */
  lemma RekeyRB<V>(ctx: Ctx<V>, s: Tree<V>, k: int, v: V)
    requires IsRB(Plug(ctx, s)) && s.Br?
    ensures IsRB(Plug(ctx, Br(s.id, s.color, k, v, s.left, s.right)))
  {
    var s' := Br(s.id, s.color, k, v, s.left, s.right);
    PlugRB(ctx, s);
    PlugRB(ctx, s');
    if !ctx.Top? {
      PlugRootColor(ctx, s, s');
    }
  }

  // ------------------------------------------------------------ insert fixup

  /** The invariant of the loop of `_insert_fixup`: the focus z is red and a
      red-black subtree, its path is right except perhaps for the link to z's
      parent, and the root is black unless z is the root. */
  ghost predicate InsInv<V>(ctx: Ctx<V>, z: Tree<V>)
  {
    z.Br? && z.color == Red && Balanced(z) && NoRedRed(z) && CtxLoose(ctx, BH(z)) &&
    (ctx.Top? || ColorOf(Plug(ctx, z)) == Black)
  }

  /** A new red node with two sentinel children, linked where a red-black tree
      had a sentinel, satisfies the invariant. */
  lemma InsStart<V>(ctx: Ctx<V>, z: Tree<V>)
    requires IsRB(Plug(ctx, Leaf))
    requires z.Br? && z.color == Red && z.left.Leaf? && z.right.Leaf?
    ensures InsInv(ctx, z)
  {
    PlugRB(ctx, Leaf);
    if !ctx.Top? {
      PlugRootColor(ctx, Leaf, z);
    }
  }

  /** When z's parent is red it is not the root, so z has a grandparent, which
      is black. */
  lemma InsGrandparent<V>(ctx: Ctx<V>, z: Tree<V>)
    requires InsInv(ctx, z) && !ctx.Top? && ctx.color == Red
    ensures !ctx.up.Top? && ctx.up.color == Black
  {
    PlugOneFrame(ctx, z);
  }

  /** Case 1: the uncle is red.  The parent and the uncle turn black, the
      grandparent red, and the grandparent becomes z. */
  lemma InsRecolor<V>(ctx: Ctx<V>, z: Tree<V>)
    requires InsInv(ctx, z) && !ctx.Top? && ctx.color == Red && !ctx.up.Top?
    requires ColorOf(ctx.up.sib) == Red
    ensures InsInv(ctx.up.up,
                   Lift(WithSib(WithColor(ctx.up, Red), ctx.up.sib.(color := Black)),
                        Lift(WithColor(ctx, Black), z)))
  {
    var g, u, h := ctx.up, ctx.up.sib, BH(z);
    assert g.color == Black && BH(u) == h && Balanced(u) && NoRedRed(u);
    assert BH(ctx.sib) == h && Balanced(ctx.sib) && NoRedRed(ctx.sib);
    assert CtxRB(g.up, h + 1, Black);
    var p' := Lift(WithColor(ctx, Black), z);
    assert BH(p') == h + 1 && Balanced(p') && NoRedRed(p');
    var u' := u.(color := Black);
    assert BH(u') == h + 1 && Balanced(u') && NoRedRed(u');
    var z' := Lift(WithSib(WithColor(g, Red), u'), p');
    assert BH(z') == h + 1 && Balanced(z') && NoRedRed(z');
    assert CtxLoose(g.up, BH(z'));
    if !g.up.Top? {
      assert Plug(ctx, z) == Plug(g.up, Lift(g, Lift(ctx, z)));
      PlugRootColor(g.up, z', Lift(g, Lift(ctx, z)));
    }
  }

  /** Case 2 with the parent on the left: z is the right child of its parent,
      which becomes z and is rotated left; z's old node takes its place. */
  lemma InsZigZagLeft<V>(ctx: Ctx<V>, z: Tree<V>)
    requires InsInv(ctx, z) && ctx.InRight? && ctx.color == Red && ctx.up.InLeft?
    requires ColorOf(ctx.up.sib) == Black
    ensures InsInv(InLeft(z.id, z.color, z.key, z.value, z.right, ctx.up),
                   Br(ctx.id, ctx.color, ctx.key, ctx.value, ctx.sib, z.left))
    ensures Plug(InLeft(z.id, z.color, z.key, z.value, z.right, ctx.up),
                 Br(ctx.id, ctx.color, ctx.key, ctx.value, ctx.sib, z.left)) ==
            Plug(ctx.up, RotL(Lift(ctx, z)))
  {
    var c2 := InLeft(z.id, z.color, z.key, z.value, z.right, ctx.up);
    var z2 := Br(ctx.id, ctx.color, ctx.key, ctx.value, ctx.sib, z.left);
    if !ctx.up.Top? {
      assert Plug(ctx, z) == Plug(ctx.up, Lift(ctx, z));
      assert Plug(c2, z2) == Plug(ctx.up, Lift(c2, z2));
      PlugRootColor(ctx.up, Lift(c2, z2), Lift(ctx, z));
    }
  }

  /** Case 2 with the parent on the right, the mirror image. */
  lemma InsZigZagRight<V>(ctx: Ctx<V>, z: Tree<V>)
    requires InsInv(ctx, z) && ctx.InLeft? && ctx.color == Red && ctx.up.InRight?
    requires ColorOf(ctx.up.sib) == Black
    ensures InsInv(InRight(z.id, z.color, z.key, z.value, z.left, ctx.up),
                   Br(ctx.id, ctx.color, ctx.key, ctx.value, z.right, ctx.sib))
    ensures Plug(InRight(z.id, z.color, z.key, z.value, z.left, ctx.up),
                 Br(ctx.id, ctx.color, ctx.key, ctx.value, z.right, ctx.sib)) ==
            Plug(ctx.up, RotR(Lift(ctx, z)))
  {
    var c2 := InRight(z.id, z.color, z.key, z.value, z.left, ctx.up);
    var z2 := Br(ctx.id, ctx.color, ctx.key, ctx.value, z.right, ctx.sib);
    if !ctx.up.Top? {
      assert Plug(ctx, z) == Plug(ctx.up, Lift(ctx, z));
      assert Plug(c2, z2) == Plug(ctx.up, Lift(c2, z2));
      PlugRootColor(ctx.up, Lift(c2, z2), Lift(ctx, z));
    }
  }

  /** Case 3 with the parent on the left: the parent turns black, the
      grandparent red, and a right rotation at the grandparent lifts the
      parent above it. */
  lemma InsZigZigLeft<V>(ctx: Ctx<V>, z: Tree<V>)
    requires InsInv(ctx, z) && ctx.InLeft? && ctx.color == Red && ctx.up.InLeft?
    requires ColorOf(ctx.up.sib) == Black
    ensures InsInv(InLeft(ctx.id, Black, ctx.key, ctx.value,
                          Br(ctx.up.id, Red, ctx.up.key, ctx.up.value, ctx.sib, ctx.up.sib),
                          ctx.up.up), z)
  {
    var g := ctx.up;
    var c3 := InLeft(ctx.id, Black, ctx.key, ctx.value,
                     Br(g.id, Red, g.key, g.value, ctx.sib, g.sib), g.up);
    if !g.up.Top? {
      assert Plug(ctx, z) == Plug(g.up, Lift(g, Lift(ctx, z)));
      assert Plug(c3, z) == Plug(g.up, Lift(c3, z));
      PlugRootColor(g.up, Lift(c3, z), Lift(g, Lift(ctx, z)));
    }
  }

  /** Case 3 with the parent on the right, the mirror image. */
  lemma InsZigZigRight<V>(ctx: Ctx<V>, z: Tree<V>)
    requires InsInv(ctx, z) && ctx.InRight? && ctx.color == Red && ctx.up.InRight?
    requires ColorOf(ctx.up.sib) == Black
    ensures InsInv(InRight(ctx.id, Black, ctx.key, ctx.value,
                           Br(ctx.up.id, Red, ctx.up.key, ctx.up.value, ctx.up.sib, ctx.sib),
                           ctx.up.up), z)
  {
    var g := ctx.up;
    var c3 := InRight(ctx.id, Black, ctx.key, ctx.value,
                      Br(g.id, Red, g.key, g.value, g.sib, ctx.sib), g.up);
    if !g.up.Top? {
      assert Plug(ctx, z) == Plug(g.up, Lift(g, Lift(ctx, z)));
      assert Plug(c3, z) == Plug(g.up, Lift(c3, z));
      PlugRootColor(g.up, Lift(c3, z), Lift(g, Lift(ctx, z)));
    }
  }

  /** When the loop stops, the tree is red-black below its root. */
  lemma InsDone<V>(ctx: Ctx<V>, z: Tree<V>)
    requires InsInv(ctx, z) && (ctx.Top? || ctx.color == Black)
    ensures Balanced(Plug(ctx, z)) && NoRedRed(Plug(ctx, z))
  {
    PlugRB(ctx, z);
  }

  // ------------------------------------------------------------ delete fixup

  /** The children of a node have no red-red link. */
  predicate NoRedRedBelow<V>(t: Tree<V>)
  {
    t.Leaf? || (NoRedRed(t.left) && NoRedRed(t.right))
  }

  /** The invariant of the loop of `_remove_fixup`: x carries an extra black,
      so its path expects one black more than x has; x itself may be red with
      a red child or parent, which the final `x->color = BLACK` repairs. */
  ghost predicate DelInv<V>(ctx: Ctx<V>, x: Tree<V>)
  {
    Balanced(x) && NoRedRedBelow(x) && CtxLoose(ctx, BH(x) + 1) &&
    (ctx.Top? || ColorOf(Plug(ctx, x)) == Black)
  }

  /** The subtree at the focus of a red-black tree is red-black inside, and
      fits the path around it. */
  lemma RBFocus<V>(ctx: Ctx<V>, y: Tree<V>)
    requires IsRB(Plug(ctx, y)) && y.Br?
    ensures Balanced(y) && NoRedRed(y) && CtxRB(ctx, BH(y), y.color)
    ensures ColorOf(Plug(ctx, y)) == Black
  {
    PlugRB(ctx, y);
  }

  /** Unlinking a node with a sentinel child, and putting its other child x in
      its place, leaves a red-black tree when the node was red, and x with an
      extra black when it was black.  The node is the focus of a red-black
      tree, as `RBFocus` describes it. */
  lemma DelStart<V>(ctx: Ctx<V>, y: Tree<V>, x: Tree<V>)
    requires y.Br? && Balanced(y) && NoRedRed(y) && CtxRB(ctx, BH(y), y.color)
    requires ColorOf(Plug(ctx, y)) == Black && (y.left.Leaf? || y.right.Leaf?)
    requires x == if y.left.Leaf? then y.right else y.left
    ensures y.color == Black ==> DelInv(ctx, x)
    ensures y.color == Red ==> IsRB(Plug(ctx, x))
  {
    if !ctx.Top? {
      PlugRootColor(ctx, y, x);
    }
    Unlink(ctx, y, x);
  }

  lemma Unlink<V>(ctx: Ctx<V>, y: Tree<V>, x: Tree<V>)
    requires y.Br? && (y.left.Leaf? || y.right.Leaf?)
    requires x == if y.left.Leaf? then y.right else y.left
    requires Balanced(y) && NoRedRed(y) && CtxRB(ctx, BH(y), y.color)
    requires ctx.Top? || ColorOf(Plug(ctx, x)) == Black
    ensures y.color == Black ==> DelInv(ctx, x)
    ensures y.color == Red ==> IsRB(Plug(ctx, x))
  {
    UnlinkedChild(y, x);
    if y.color == Red {
      RedUnlink(ctx, y, x);
    } else {
      CtxRBLoose(ctx, 1, Black);
    }
  }

  /** The child that takes the place of a node with a sentinel child. */
  lemma UnlinkedChild<V>(y: Tree<V>, x: Tree<V>)
    requires y.Br? && (y.left.Leaf? || y.right.Leaf?) && Balanced(y) && NoRedRed(y)
    requires x == if y.left.Leaf? then y.right else y.left
    ensures BH(x) == 0 && Balanced(x) && NoRedRed(x) && BH(y) == Weight(y.color)
    ensures y.color == Red ==> ColorOf(x) == Black
  {
  }

  lemma RedUnlink<V>(ctx: Ctx<V>, y: Tree<V>, x: Tree<V>)
    requires y.Br? && y.color == Red && (y.left.Leaf? || y.right.Leaf?)
    requires x == if y.left.Leaf? then y.right else y.left
    requires Balanced(y) && NoRedRed(y) && CtxRB(ctx, BH(y), y.color)
    requires ctx.Top? || ColorOf(Plug(ctx, x)) == Black
    ensures IsRB(Plug(ctx, x))
  {
    assert ColorOf(x) == Black && BH(x) == 0;
    BlackZeroIsLeaf(x);
    PlugRB(ctx, x);
  }

  /** On the loop's side of the parent there is a sibling node. */
  lemma DelSibling<V>(ctx: Ctx<V>, x: Tree<V>)
    requires DelInv(ctx, x) && !ctx.Top?
    ensures ctx.sib.Br? && BH(ctx.sib) == BH(x) + 1
  {
  }

  /** Case 1 with x on the left: the sibling w is red.  w turns black, the
      parent red, and a left rotation at the parent makes w's left child x's
      new, black, sibling. */
  lemma DelRedSiblingLeft<V>(ctx: Ctx<V>, x: Tree<V>)
    requires DelInv(ctx, x) && ctx.InLeft? && ColorOf(x) == Black && ColorOf(ctx.sib) == Red
    ensures ctx.color == Black && ctx.sib.left.Br? && ColorOf(ctx.sib.left) == Black
    ensures DelInv(InLeft(ctx.id, Red, ctx.key, ctx.value, ctx.sib.left,
                          InLeft(ctx.sib.id, Black, ctx.sib.key, ctx.sib.value, ctx.sib.right, ctx.up)), x)
  {
    var w, h := ctx.sib, BH(x);
    assert ctx.color == Black;
    assert BH(w.left) == h + 1 && BH(w.right) == h + 1;
    assert CtxRB(ctx.up, h + 2, Black);
    var c1 := InLeft(ctx.id, Red, ctx.key, ctx.value, w.left,
                     InLeft(w.id, Black, w.key, w.value, w.right, ctx.up));
    assert CtxRB(c1.up, h + 1, Red);
    assert CtxLoose(c1, h + 1);
    if !ctx.up.Top? {
      assert Plug(ctx, x) == Plug(ctx.up, Lift(ctx, x));
      assert Plug(c1, x) == Plug(ctx.up, Lift(c1.up, Lift(c1, x)));
      PlugRootColor(ctx.up, Lift(c1.up, Lift(c1, x)), Lift(ctx, x));
    } else {
      assert Plug(c1, x) == Plug(c1.up, Lift(c1, x));
      assert Plug(c1.up, Lift(c1, x)) == Lift(c1.up, Lift(c1, x));
    }
  }

  /** Case 1 with x on the right, the mirror image. */
  lemma DelRedSiblingRight<V>(ctx: Ctx<V>, x: Tree<V>)
    requires DelInv(ctx, x) && ctx.InRight? && ColorOf(x) == Black && ColorOf(ctx.sib) == Red
    ensures ctx.color == Black && ctx.sib.right.Br? && ColorOf(ctx.sib.right) == Black
    ensures DelInv(InRight(ctx.id, Red, ctx.key, ctx.value, ctx.sib.right,
                           InRight(ctx.sib.id, Black, ctx.sib.key, ctx.sib.value, ctx.sib.left, ctx.up)), x)
  {
    var w, h := ctx.sib, BH(x);
    assert ctx.color == Black;
    assert BH(w.left) == h + 1 && BH(w.right) == h + 1;
    assert CtxRB(ctx.up, h + 2, Black);
    var c1 := InRight(ctx.id, Red, ctx.key, ctx.value, w.right,
                      InRight(w.id, Black, w.key, w.value, w.left, ctx.up));
    assert CtxRB(c1.up, h + 1, Red);
    assert CtxLoose(c1, h + 1);
    if !ctx.up.Top? {
      assert Plug(ctx, x) == Plug(ctx.up, Lift(ctx, x));
      assert Plug(c1, x) == Plug(ctx.up, Lift(c1.up, Lift(c1, x)));
      PlugRootColor(ctx.up, Lift(c1.up, Lift(c1, x)), Lift(ctx, x));
    } else {
      assert Plug(c1, x) == Plug(c1.up, Lift(c1, x));
      assert Plug(c1.up, Lift(c1, x)) == Lift(c1.up, Lift(c1, x));
    }
  }

  /** Case 2, either side: the black sibling has two black children.  It turns
      red and the parent becomes x, carrying the extra black up. */
  lemma DelPushUp<V>(ctx: Ctx<V>, x: Tree<V>)
    requires DelInv(ctx, x) && !ctx.Top? && ColorOf(x) == Black
    requires ctx.sib.Br? && ctx.sib.color == Black
    requires ColorOf(ctx.sib.left) == Black && ColorOf(ctx.sib.right) == Black
    ensures DelInv(ctx.up, Lift(WithSib(ctx, ctx.sib.(color := Red)), x))
  {
    var x' := Lift(WithSib(ctx, ctx.sib.(color := Red)), x);
    assert BH(ctx.sib.(color := Red)) == BH(x);
    assert BH(x') == BH(x) + Weight(ctx.color);
    if !ctx.up.Top? {
      assert Plug(ctx, x) == Plug(ctx.up, Lift(ctx, x));
      PlugRootColor(ctx.up, x', Lift(ctx, x));
    }
  }

  /** Case 3 with x on the left: the black sibling w has a red left and a
      black right child.  The left child turns black, w red, and a right
      rotation at w gives x a sibling with a red right child. */
  lemma DelNearRedLeft<V>(ctx: Ctx<V>, x: Tree<V>)
    requires DelInv(ctx, x) && ctx.InLeft? && ColorOf(x) == Black
    requires ctx.sib.Br? && ctx.sib.color == Black
    requires ColorOf(ctx.sib.left) == Red && ColorOf(ctx.sib.right) == Black
    ensures DelInv(WithSib(ctx, NearRedTurned(ctx.sib)), x)
  {
    var w, h := ctx.sib, BH(x);
    var l := w.left;
    assert Balanced(w) && NoRedRed(w) && BH(w) == h + 1;
    assert Balanced(l) && NoRedRed(l) && BH(l) == h && BH(w.right) == h;
    assert BH(l.left) == h && BH(l.right) == h;
    assert ColorOf(l.left) == Black && ColorOf(l.right) == Black;
    var inner := Br(w.id, Red, w.key, w.value, l.right, w.right);
    assert BH(inner) == h && Balanced(inner) && NoRedRed(inner);
    var w3 := NearRedTurned(w);
    assert BH(w3) == h + 1 && Balanced(w3) && NoRedRed(w3);
    NearRedRoot(ctx, x, w3);
  }

  /** Case 3 with x on the right, the mirror image. */
  lemma DelNearRedRight<V>(ctx: Ctx<V>, x: Tree<V>)
    requires DelInv(ctx, x) && ctx.InRight? && ColorOf(x) == Black
    requires ctx.sib.Br? && ctx.sib.color == Black
    requires ColorOf(ctx.sib.right) == Red && ColorOf(ctx.sib.left) == Black
    ensures DelInv(WithSib(ctx, NearRedTurnedMirror(ctx.sib)), x)
  {
    var w, h := ctx.sib, BH(x);
    var r := w.right;
    assert Balanced(w) && NoRedRed(w) && BH(w) == h + 1;
    assert Balanced(r) && NoRedRed(r) && BH(r) == h && BH(w.left) == h;
    assert BH(r.left) == h && BH(r.right) == h;
    assert ColorOf(r.left) == Black && ColorOf(r.right) == Black;
    var inner := Br(w.id, Red, w.key, w.value, w.left, r.left);
    assert BH(inner) == h && Balanced(inner) && NoRedRed(inner);
    var w3 := NearRedTurnedMirror(w);
    assert BH(w3) == h + 1 && Balanced(w3) && NoRedRed(w3);
    NearRedRoot(ctx, x, w3);
  }

  /** The sibling after case 3 on the left: `_rightRotate(w)` once w's left
      child is black and w red. */
  function NearRedTurned<V>(w: Tree<V>): (r: Tree<V>)
    requires w.Br? && w.left.Br?
    ensures r == RotR(w.(color := Red, left := w.left.(color := Black)))
  {
    var l := w.left;
    Br(l.id, Black, l.key, l.value, l.left, Br(w.id, Red, w.key, w.value, l.right, w.right))
  }

  /** The mirror image: `_leftRotate(w)` once w's right child is black and w
      red. */
  function NearRedTurnedMirror<V>(w: Tree<V>): (r: Tree<V>)
    requires w.Br? && w.right.Br?
    ensures r == RotL(w.(color := Red, right := w.right.(color := Black)))
  {
    var rc := w.right;
    Br(rc.id, Black, rc.key, rc.value, Br(w.id, Red, w.key, w.value, w.left, rc.left), rc.right)
  }

  /** Replacing x's black sibling by another of the same black height keeps
      the invariant. */
  lemma NearRedRoot<V>(ctx: Ctx<V>, x: Tree<V>, w3: Tree<V>)
    requires DelInv(ctx, x) && !ctx.Top? && ColorOf(ctx.sib) == Black
    requires BH(w3) == BH(ctx.sib) && Balanced(w3) && NoRedRed(w3) && ColorOf(w3) == Black
    ensures DelInv(WithSib(ctx, w3), x)
  {
    var c3 := WithSib(ctx, w3);
    if !ctx.up.Top? {
      assert Plug(ctx, x) == Plug(ctx.up, Lift(ctx, x));
      assert Plug(c3, x) == Plug(ctx.up, Lift(c3, x));
      PlugRootColor(ctx.up, Lift(c3, x), Lift(ctx, x));
    } else {
      assert Plug(ctx, x) == Lift(ctx, x);
      assert Plug(c3, x) == Lift(c3, x);
    }
  }

  /** Case 4 with x on the left: the black sibling w has a red right child.
      w takes the parent's colour, the parent and w's right child turn black,
      and a left rotation at the parent absorbs the extra black: the whole
      tree is red-black below its root. */
  lemma DelFarRedLeft<V>(ctx: Ctx<V>, x: Tree<V>)
    requires DelInv(ctx, x) && ctx.InLeft? && ColorOf(x) == Black
    requires ctx.sib.Br? && ctx.sib.color == Black && ColorOf(ctx.sib.right) == Red
    ensures Balanced(Plug(ctx.up, FarRedTurned(ctx, x))) && NoRedRed(Plug(ctx.up, FarRedTurned(ctx, x)))
    ensures ctx.up.Top? || ColorOf(Plug(ctx.up, FarRedTurned(ctx, x))) == Black
  {
    var w, h := ctx.sib, BH(x);
    assert Balanced(w) && NoRedRed(w) && BH(w) == h + 1;
    assert BH(w.left) == h && BH(w.right) == h && NoRedRed(x);
    var pl := Br(ctx.id, Black, ctx.key, ctx.value, x, w.left);
    assert BH(pl) == h + 1 && Balanced(pl) && NoRedRed(pl);
    var r := w.right;
    assert Balanced(r) && NoRedRed(r) && BH(r.left) == h;
    var rr := Br(r.id, Black, r.key, r.value, r.left, r.right);
    assert BH(rr) == h + 1 && Balanced(rr) && NoRedRed(rr);
    FarRedDone(ctx, x, FarRedTurned(ctx, x));
  }

  /** Case 4 with x on the right, the mirror image. */
  lemma DelFarRedRight<V>(ctx: Ctx<V>, x: Tree<V>)
    requires DelInv(ctx, x) && ctx.InRight? && ColorOf(x) == Black
    requires ctx.sib.Br? && ctx.sib.color == Black && ColorOf(ctx.sib.left) == Red
    ensures Balanced(Plug(ctx.up, FarRedTurned(ctx, x))) && NoRedRed(Plug(ctx.up, FarRedTurned(ctx, x)))
    ensures ctx.up.Top? || ColorOf(Plug(ctx.up, FarRedTurned(ctx, x))) == Black
  {
    var w, h := ctx.sib, BH(x);
    assert Balanced(w) && NoRedRed(w) && BH(w) == h + 1;
    assert BH(w.left) == h && BH(w.right) == h && NoRedRed(x);
    var pr := Br(ctx.id, Black, ctx.key, ctx.value, w.right, x);
    assert BH(pr) == h + 1 && Balanced(pr) && NoRedRed(pr);
    var l := w.left;
    assert Balanced(l) && NoRedRed(l) && BH(l.left) == h;
    var ll := Br(l.id, Black, l.key, l.value, l.left, l.right);
    assert BH(ll) == h + 1 && Balanced(ll) && NoRedRed(ll);
    FarRedDone(ctx, x, FarRedTurned(ctx, x));
  }

  /** The parent's subtree after case 4: the sibling w in the parent's place
      and colour, the black parent and w's black far child below it. */
  function FarRedTurned<V>(ctx: Ctx<V>, x: Tree<V>): Tree<V>
    requires !ctx.Top? && ctx.sib.Br?
  {
    var w := ctx.sib;
    if ctx.InLeft? && w.right.Br? then
      Br(w.id, ctx.color, w.key, w.value,
         Br(ctx.id, Black, ctx.key, ctx.value, x, w.left), w.right.(color := Black))
    else if ctx.InRight? && w.left.Br? then
      Br(w.id, ctx.color, w.key, w.value,
         w.left.(color := Black), Br(ctx.id, Black, ctx.key, ctx.value, w.right, x))
    else Lift(ctx, x)
  }

  lemma FarRedDone<V>(ctx: Ctx<V>, x: Tree<V>, t: Tree<V>)
    requires DelInv(ctx, x) && !ctx.Top? && t.Br? && t.color == ctx.color
    requires BH(t) == BH(x) + 1 + Weight(ctx.color) && Balanced(t) && NoRedRed(t)
    ensures Balanced(Plug(ctx.up, t)) && NoRedRed(Plug(ctx.up, t))
    ensures ctx.up.Top? || ColorOf(Plug(ctx.up, t)) == Black
  {
    PlugRB(ctx.up, t);
    if !ctx.up.Top? {
      assert Plug(ctx, x) == Plug(ctx.up, Lift(ctx, x));
      PlugRootColor(ctx.up, t, Lift(ctx, x));
    }
  }

  /** When the loop stops at the root or at a red x, painting x black leaves a
      red-black tree. */
  lemma DelDone<V>(ctx: Ctx<V>, x: Tree<V>)
    requires DelInv(ctx, x) && (ctx.Top? || ColorOf(x) == Red)
    ensures IsRB(Plug(ctx, if x.Leaf? then x else x.(color := Black)))
  {
    var x' := if x.Leaf? then x else x.(color := Black);
    if !ctx.Top? {
      assert BH(x') == BH(x) + 1;
      PlugRB(ctx, x');
      PlugRootColor(ctx, x', x);
    }
  }
}
