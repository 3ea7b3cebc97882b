/**
 * Removal from a red-black tree: `_rb_delete`, which unlinks the node or
 * its successor and moves the successor's pair into the node
 * (includes/RBTree.h lines 169-185), and the loop of `_remove_fixup`,
 * which include/RBTree/RBTree.hpp (lines 237-315) and includes/RBTree.h
 * (lines 203-256) write alike.  The sentinel may stand for x, the child
 * that took the unlinked node's place: its parent field then tells the loop
 * where it is.
 */
module RBDelete {
  import opened RBShape
  import opened RBColors
  import opened RBNodes
  import opened RBArena
  import opened RBRotate
  import opened RBWalk

  // ------------------------------------------------------------- the splice

  /** The indices the unlink of y reads and writes. */
  lemma UnlinkIndices<V>(a: Arena<V>, root: nat, cy: Ctx<V>, ty: Tree<V>)
    requires Wf(a, root, Plug(cy, ty)) && ty.Br?
    ensures 0 < ty.id < |a| && a[ty.id].parent == UpId(cy) && a[ty.id].color == ty.color
    ensures a[ty.id].key == ty.key && a[ty.id].value == ty.value
    ensures a[ty.id].left == RootId(ty.left) && a[ty.id].right == RootId(ty.right)
    ensures RootId(ty.left) == 0 <==> ty.left.Leaf?
    ensures RootId(ty.right) == 0 <==> ty.right.Leaf?
    ensures RootId(ty.left) < |a| && RootId(ty.right) < |a| && UpId(cy) < |a|
    ensures RootId(ty.left) != ty.id && RootId(ty.right) != ty.id && UpId(cy) != ty.id
    ensures UpId(cy) == 0 <==> cy.Top?
    ensures !cy.Top? ==> UpId(cy) != RootId(ty.left) && UpId(cy) != RootId(ty.right)
    ensures cy.InLeft? ==> a[cy.id].left == ty.id
    ensures cy.InRight? ==> a[cy.id].left != ty.id && a[cy.id].right == ty.id
  {
    RepPlug(a, cy, ty);
    DistinctPlug(cy, ty);
    RepIds(a, ty, UpId(cy));
    RepCtxIds(a, cy, ty.id);
    assert ty.id in Ids(ty);
    assert ty.left.Br? ==> ty.left.id in Ids(ty.left) && ty.left.id in Ids(ty);
    assert ty.right.Br? ==> ty.right.id in Ids(ty.right) && ty.right.id in Ids(ty);
    assert !cy.Top? ==> cy.id in CtxIds(cy);
    if !cy.Top? {
      ChildSide(a, cy, ty);
    }
  }

  /** Around the unlinked node y: x below it and the path above it, whose
      indices the unlink writes only at their ends. */
  lemma UnlinkFrame<V>(a: Arena<V>, cy: Ctx<V>, ty: Tree<V>, tx: Tree<V>)
    requires Rep(a, Plug(cy, ty), 0) && Distinct(Plug(cy, ty)) && ty.Br?
    requires tx == ty.left || tx == ty.right
    ensures Rep(a, tx, ty.id) && RepCtx(a, cy, ty.id) && Distinct(tx) && DistinctCtx(cy)
    ensures Ids(tx) <= Ids(ty)
    ensures (Ids(tx) - {RootId(tx)}) !! {RootId(tx), UpId(cy)}
    ensures !cy.Top? ==> (CtxIds(cy) - {cy.id}) !! {RootId(tx), UpId(cy)}
  {
    RepPlug(a, cy, ty);
    DistinctPlug(cy, ty);
    RepIds(a, ty, UpId(cy));
    RepCtxIds(a, cy, ty.id);
    assert Ids(ty) == Ids(ty.left) + {ty.id} + Ids(ty.right);
    assert !cy.Top? ==> cy.id in CtxIds(cy);
    assert tx.Br? ==> tx.id in Ids(ty);
  }

  /** What the writes of the unlink leave, `x->parent = y->parent` and the
      parent's link (or the root) now x: the arena spells out the tree with
      x in y's place. */
  lemma Unlinked<V>(a: Arena<V>, b: Arena<V>, root: nat, root': nat, cy: Ctx<V>, ty: Tree<V>, tx: Tree<V>)
    requires Wf(a, root, Plug(cy, ty)) && ty.Br? && (tx == ty.left || tx == ty.right)
    requires NilOk(b) && |b| == |a| && SameExcept(a, b, {RootId(tx), UpId(cy)})
    requires RootId(tx) < |a| && UpId(cy) < |a|
    requires tx.Br? ==> b[tx.id] == a[tx.id].(parent := UpId(cy))
    requires cy.InLeft? ==> b[cy.id] == a[cy.id].(left := RootId(tx))
    requires cy.InRight? ==> b[cy.id] == a[cy.id].(right := RootId(tx))
    requires root' == if cy.Top? then RootId(tx) else root
    ensures Wf(b, root', Plug(cy, tx))
  {
    UnlinkedShape(a, b, cy, ty, tx);
    if !cy.Top? {
      PlugRootId(cy, ty, tx);
    }
  }

  lemma UnlinkedShape<V>(a: Arena<V>, b: Arena<V>, cy: Ctx<V>, ty: Tree<V>, tx: Tree<V>)
    requires Rep(a, Plug(cy, ty), 0) && Distinct(Plug(cy, ty)) && ty.Br? && (tx == ty.left || tx == ty.right)
    requires SameExcept(a, b, {RootId(tx), UpId(cy)})
    requires RootId(tx) < |a| && UpId(cy) < |a|
    requires tx.Br? ==> b[tx.id] == a[tx.id].(parent := UpId(cy))
    requires cy.InLeft? ==> b[cy.id] == a[cy.id].(left := RootId(tx))
    requires cy.InRight? ==> b[cy.id] == a[cy.id].(right := RootId(tx))
    ensures Rep(b, Plug(cy, tx), 0) && Distinct(Plug(cy, tx))
  {
    var w := {RootId(tx), UpId(cy)};
    UnlinkFrame(a, cy, ty, tx);
    Reparent(a, b, w, tx, ty.id, UpId(cy));
    Relink(a, b, w, cy, ty.id, RootId(tx));
    RepPlug(b, cy, tx);
    DistinctReplace(cy, ty, tx);
  }

  /** Writing the key and value of the root of the focus: the arena spells
      out the tree with the new pair there. */
  lemma Rekeyed<V>(a: Arena<V>, root: nat, ctx: Ctx<V>, s: Tree<V>, k: int, v: V)
    requires Wf(a, root, Plug(ctx, s)) && s.Br?
    ensures s.id < |a| &&
            Wf(a[s.id := a[s.id].(key := k, value := v)], root, Plug(ctx, Br(s.id, s.color, k, v, s.left, s.right)))
  {
    var s' := Br(s.id, s.color, k, v, s.left, s.right);
    ReadFocus(a, ctx, s);
    SetRoot(a, ctx, s, s.color, k, v);
    assert a[s.id].(key := k, value := v, color := s.color) == a[s.id].(key := k, value := v);
    DistinctPlug(ctx, s);
    assert Ids(s') == Ids(s);
    DistinctReplace(ctx, s, s');
    if !ctx.Top? {
      PlugRootId(ctx, s, s');
    }
  }

  /** Taking out the middle pair of a node's subtree, in the midst of the
      pairs around it. */
  lemma CutOut<V>(lc: seq<(int, V)>, l: seq<(int, V)>, e: (int, V), r: seq<(int, V)>, rc: seq<(int, V)>,
                  whole: seq<(int, V)>, cut: seq<(int, V)>, p: nat)
    requires whole == lc + (l + [e] + r) + rc && cut == lc + (l + r) + rc && p == |lc| + |l|
    ensures p < |whole| && cut == whole[..p] + whole[p + 1..]
  {
    assert whole == (lc + l) + [e] + (r + rc);
    SliceAround(lc + l, e, r + rc);
    assert cut == (lc + l) + (r + rc);
  }

  /** Putting in the place of node `s` a subtree holding the pairs of its two
      children takes the pair of `s` out of the whole tree. */
  lemma CutPlug<V>(ctx: Ctx<V>, s: Tree<V>, s': Tree<V>)
    requires s.Br? && Elements(s') == Elements(s.left) + Elements(s.right)
    ensures Position(ctx, s) < |Elements(Plug(ctx, s))|
    ensures Elements(Plug(ctx, s')) ==
            Elements(Plug(ctx, s))[..Position(ctx, s)] + Elements(Plug(ctx, s))[Position(ctx, s) + 1..]
  {
    ElementsPlug(ctx, s);
    ElementsPlug(ctx, s');
    CutOut(CtxLeft(ctx), Elements(s.left), (s.key, s.value), Elements(s.right), CtxRight(ctx),
           Elements(Plug(ctx, s)), Elements(Plug(ctx, s')), Position(ctx, s));
  }

  /** Below a path that only goes left, the focus comes first. */
  lemma AllLeftPairs<V>(spine: Ctx<V>, s: Tree<V>)
    requires AllLeft(spine)
    ensures Elements(Plug(spine, s)) == Elements(s) + CtxRight(spine)
  {
    ElementsPlug(spine, s);
    AllLeftNothingBefore(spine);
  }

  /** The pairs of the right subtree of z once its first node y is unlinked
      and y's pair copied into z. */
  lemma SuccessorPairs<V>(sz: Tree<V>, spine: Ctx<V>, ty: Tree<V>)
    requires sz.Br? && ty.Br? && ty.left.Leaf? && AllLeft(spine) && Plug(spine, ty) == sz.right
    ensures Elements(Br(sz.id, sz.color, ty.key, ty.value, sz.left, Plug(spine, ty.right))) ==
            Elements(sz.left) + Elements(sz.right)
  {
    AllLeftPairs(spine, ty);
    AllLeftPairs(spine, ty.right);
    var l, e, m, sr := Elements(sz.left), (ty.key, ty.value), Elements(ty.right), CtxRight(spine);
    assert Elements(ty) == [e] + m;
    assert (l + [e]) + (m + sr) == l + (([e] + m) + sr);
  }

  /** `(z->left == NIL || z->right == NIL) ? z : _minimun(z->right)`: the
      node to unlink, which has a sentinel child.  When it is not z, it is the
      first node of z's right subtree, reached down `spine`. */
  method Victim<V>(a: Arena<V>, root: nat, z: nat, ghost cz: Ctx<V>, ghost sz: Tree<V>)
      returns (y: nat, ghost cy: Ctx<V>, ghost ty: Tree<V>, ghost spine: Ctx<V>)
    requires Wf(a, root, Plug(cz, sz)) && sz.Br? && z == sz.id
    ensures Plug(cy, ty) == Plug(cz, sz) && ty.Br? && y == ty.id && (ty.left.Leaf? || ty.right.Leaf?)
    ensures y == z <==> sz.left.Leaf? || sz.right.Leaf?
    ensures y == z ==> cy == cz && ty == sz
    ensures y != z ==> ty.left.Leaf? && AllLeft(spine) && Plug(spine, ty) == sz.right &&
                       cy == Append(spine, InRight(sz.id, sz.color, sz.key, sz.value, sz.left, cz))
  {
    ReadFocus(a, cz, sz);
    RepPlug(a, cz, sz);
    spine := Top;
    if a[z].left == 0 || a[z].right == 0 {
      y, cy, ty := z, cz, sz;
    } else {
      ghost var top := InRight(sz.id, sz.color, sz.key, sz.value, sz.left, cz);
      y, spine, ty := Minimum(a, a[z].right, sz.right, z);
      cy := Append(spine, top);
      PlugAppend(spine, top, ty);
      assert sz.right.Br? && sz.id !in Ids(sz.right) by {
        DistinctPlug(cz, sz);
      }
      assert ty.id in Ids(sz.right) by {
        IdsPlug(spine, ty);
      }
    }
  }

  /** The unlink of y: `x->parent = y->parent`, then the root or the
      parent's link to y becomes x.  The arena afterwards spells out the tree
      with x in y's place; y's own record is as it was. */
  method Unlink<V>(a: Arena<V>, root: nat, y: nat, ghost cy: Ctx<V>, ghost ty: Tree<V>)
      returns (b: Arena<V>, root': nat, x: nat, ghost tx: Tree<V>)
    requires Wf(a, root, Plug(cy, ty)) && ty.Br? && y == ty.id && (ty.left.Leaf? || ty.right.Leaf?)
    ensures tx == (if ty.left.Leaf? then ty.right else ty.left) && x == RootId(tx)
    ensures Wf(b, root', Plug(cy, tx)) && |b| == |a|
    ensures 0 < y < |b| && b[y] == a[y] && b[y].key == ty.key && b[y].value == ty.value && b[y].color == ty.color
    ensures tx.Leaf? ==> b[0].parent == UpId(cy)
  {
    UnlinkIndices(a, root, cy, ty);
    x := if a[y].left == 0 then a[y].right else a[y].left;
    tx := if ty.left.Leaf? then ty.right else ty.left;
    b := a[x := a[x].(parent := a[y].parent)];
    if b[y].parent == 0 {
      root' := x;
    } else if y == b[b[y].parent].left {
      b := b[b[y].parent := b[b[y].parent].(left := x)];
      root' := root;
    } else {
      b := b[b[y].parent := b[b[y].parent].(right := x)];
      root' := root;
    }
    Unlinked(a, b, root, root', cy, ty, tx);
  }

  /** `_rb_delete(z)` up to the fixup: y is z when z has a sentinel child and
      otherwise `_minimun(z->right)`; y's other child x takes y's place, and z
      receives y's key and value.  The arena afterwards spells out the tree
      without z's pair; `ty` is the unlinked node in the path of x, so
      `DelStart` tells what the fixup starts from. */
  method Splice<V>(a: Arena<V>, root: nat, z: nat, ghost cz: Ctx<V>, ghost sz: Tree<V>)
      returns (b: Arena<V>, root': nat, x: nat, yColor: Color,
               ghost cx: Ctx<V>, ghost tx: Tree<V>, ghost ty: Tree<V>)
    requires Wf(a, root, Plug(cz, sz)) && sz.Br? && z == sz.id
    ensures Wf(b, root', Plug(cx, tx)) && x == RootId(tx) && |b| == |a|
    ensures tx.Leaf? ==> b[0].parent == UpId(cx)
    ensures ty.Br? && yColor == ty.color && (ty.left.Leaf? || ty.right.Leaf?)
    ensures tx == if ty.left.Leaf? then ty.right else ty.left
    ensures IsRB(Plug(cz, sz)) ==> IsRB(Plug(cx, ty))
    ensures Position(cz, sz) < |Elements(Plug(cz, sz))|
    ensures Elements(Plug(cx, tx)) ==
            Elements(Plug(cz, sz))[..Position(cz, sz)] + Elements(Plug(cz, sz))[Position(cz, sz) + 1..]
  {
    var y;
    ghost var cy, spine;
    y, cy, ty, spine := Victim(a, root, z, cz, sz);
    b, root', x, tx := Unlink(a, root, y, cy, ty);
    yColor := b[y].color;
    if y != z {
      ghost var top := InRight(sz.id, sz.color, sz.key, sz.value, sz.left, cz);
      ghost var zt := Br(z, sz.color, sz.key, sz.value, sz.left, Plug(spine, tx));
      PlugAppend(spine, top, tx);
      Rekeyed(b, root', cz, zt, b[y].key, b[y].value);
      b := b[z := b[z].(key := b[y].key, value := b[y].value)];
      ghost var top' := InRight(z, sz.color, ty.key, ty.value, sz.left, cz);
      cx := Append(spine, top');
      PlugAppend(spine, top', tx);
      PlugAppend(spine, top', ty);
      SuccessorPairs(sz, spine, ty);
      CutPlug(cz, sz, Br(z, sz.color, ty.key, ty.value, sz.left, Plug(spine, tx)));
      if IsRB(Plug(cz, sz)) {
        RekeyRB(cz, sz, ty.key, ty.value);
      }
    } else {
      cx := cy;
      assert Elements(tx) == Elements(sz.left) + Elements(sz.right) by {
        if sz.left.Leaf? {
          assert Elements(sz.left) == [];
        } else {
          assert Elements(sz.right) == [];
        }
      }
      CutPlug(cz, sz, tx);
    }
  }

  // -------------------------------------------------------------- the fixup

  /** The state of the loop of `_remove_fixup`: the arena spells out the
      tree, x is the focus and carries the extra black, and when x is the
      sentinel its parent field names the focus's parent. */
  ghost predicate Removing<V>(a: Arena<V>, root: nat, xi: nat, c: Ctx<V>, x: Tree<V>)
  {
    Wf(a, root, Plug(c, x)) && DelInv(c, x) && xi == RootId(x) &&
    (x.Leaf? ==> a[0].parent == UpId(c))
  }

  /** What the loop reads at x: its colour, its parent, and whether it is
      the root. */
  lemma DelLook<V>(a: Arena<V>, root: nat, xi: nat, c: Ctx<V>, x: Tree<V>)
    requires Removing(a, root, xi, c, x)
    ensures xi < |a| && a[xi].color == ColorOf(x) && a[xi].parent == UpId(c)
    ensures xi == root <==> c.Top?
  {
    ReadColor(a, c, x);
    if x.Br? {
      ReadFocus(a, c, x);
    }
    if !c.Top? {
      NotRoot(a, c, x);
    }
  }

  /** What the loop reads at x's sibling w: its colour and its children's. */
  lemma SibLook<V>(a: Arena<V>, c: Ctx<V>, x: Tree<V>)
    requires Rep(a, Plug(c, x), 0) && NilOk(a) && !c.Top? && c.sib.Br?
    ensures 0 < c.sib.id < |a| && a[c.sib.id].color == c.sib.color
    ensures a[c.sib.id].left == RootId(c.sib.left) && a[c.sib.id].right == RootId(c.sib.right)
    ensures RootId(c.sib.left) < |a| && a[RootId(c.sib.left)].color == ColorOf(c.sib.left)
    ensures RootId(c.sib.right) < |a| && a[RootId(c.sib.right)].color == ColorOf(c.sib.right)
  {
    var w, f := c.sib, Flip(c, x);
    ReadFocus(a, f, w);
    var cl := InLeft(w.id, w.color, w.key, w.value, w.right, f);
    var cr := InRight(w.id, w.color, w.key, w.value, w.left, f);
    assert Lift(cl, w.left) == w && Lift(cr, w.right) == w;
    ReadColor(a, cl, w.left);
    ReadColor(a, cr, w.right);
  }

  /** Case 1 with x a left child, its sibling w red: w turns black, the
      parent red, the parent is rotated left, and w's old left child, black,
      is x's new sibling below the now red parent. */
  method DelCase1Left<V>(a: Arena<V>, root: nat, xi: nat, w: nat, ghost c: Ctx<V>, ghost x: Tree<V>)
      returns (b: Arena<V>, root': nat, w': nat, ghost c': Ctx<V>)
    requires Removing(a, root, xi, c, x) && c.InLeft? && ColorOf(x) == Black
    requires c.sib.Br? && c.sib.color == Red && w == c.sib.id
    ensures Removing(b, root', xi, c', x) && c'.InLeft? && c'.color == Red && Depth(c') == Depth(c) + 1
    ensures c'.sib.Br? && c'.sib.color == Black && w' == c'.sib.id
    ensures Elements(Plug(c', x)) == Elements(Plug(c, x)) && |b| == |a|
  {
    DelRedSiblingLeft(c, x);
    DelLook(a, root, xi, c, x);
    ghost var cw := Flip(c, x);
    PaintFocus(a, cw, c.sib, Black);
    b := Paint(a, w, Black);
    ghost var p1 := Lift(cw, c.sib.(color := Black));
    PaintFocus(b, c.up, p1, Red);
    b := Paint(b, b[xi].parent, Red);
    ghost var p2 := p1.(color := Red);
    b, root' := LeftRotate(b, root, b[xi].parent, c.up, p2);
    c' := InLeft(c.id, Red, c.key, c.value, c.sib.left,
                 InLeft(c.sib.id, Black, c.sib.key, c.sib.value, c.sib.right, c.up));
    assert RotL(p2) == Lift(c'.up, Lift(c', x));
    RotLKeeps(p2);
    ElementsPlug(c.up, p2);
    ElementsPlug(c.up, RotL(p2));
    DelLook(b, root', xi, c', x);
    ChildSide(b, c', x);
    w' := b[b[xi].parent].right;
  }

  /** Case 1 with x a right child, the mirror image. */
  method DelCase1Right<V>(a: Arena<V>, root: nat, xi: nat, w: nat, ghost c: Ctx<V>, ghost x: Tree<V>)
      returns (b: Arena<V>, root': nat, w': nat, ghost c': Ctx<V>)
    requires Removing(a, root, xi, c, x) && c.InRight? && ColorOf(x) == Black
    requires c.sib.Br? && c.sib.color == Red && w == c.sib.id
    ensures Removing(b, root', xi, c', x) && c'.InRight? && c'.color == Red && Depth(c') == Depth(c) + 1
    ensures c'.sib.Br? && c'.sib.color == Black && w' == c'.sib.id
    ensures Elements(Plug(c', x)) == Elements(Plug(c, x)) && |b| == |a|
  {
    DelRedSiblingRight(c, x);
    DelLook(a, root, xi, c, x);
    ghost var cw := Flip(c, x);
    PaintFocus(a, cw, c.sib, Black);
    b := Paint(a, w, Black);
    ghost var p1 := Lift(cw, c.sib.(color := Black));
    PaintFocus(b, c.up, p1, Red);
    b := Paint(b, b[xi].parent, Red);
    ghost var p2 := p1.(color := Red);
    b, root' := RightRotate(b, root, b[xi].parent, c.up, p2);
    c' := InRight(c.id, Red, c.key, c.value, c.sib.right,
                  InRight(c.sib.id, Black, c.sib.key, c.sib.value, c.sib.left, c.up));
    assert RotR(p2) == Lift(c'.up, Lift(c', x));
    RotRKeeps(p2);
    ElementsPlug(c.up, p2);
    ElementsPlug(c.up, RotR(p2));
    DelLook(b, root', xi, c', x);
    ChildSide(b, c', x);
    w' := b[b[xi].parent].left;
  }

  /** Case 2, either side: the black sibling w has two black children.  w
      turns red and x moves up to its parent, taking the extra black along. */
  method DelCase2<V>(a: Arena<V>, root: nat, xi: nat, w: nat, ghost c: Ctx<V>, ghost x: Tree<V>)
      returns (b: Arena<V>, xi': nat, ghost c': Ctx<V>, ghost x': Tree<V>)
    requires Removing(a, root, xi, c, x) && !c.Top? && ColorOf(x) == Black
    requires c.sib.Br? && c.sib.color == Black && w == c.sib.id
    requires ColorOf(c.sib.left) == Black && ColorOf(c.sib.right) == Black
    ensures Removing(b, root, xi', c', x') && Depth(c') + 1 == Depth(c) && ColorOf(x') == c.color
    ensures Elements(Plug(c', x')) == Elements(Plug(c, x)) && |b| == |a|
  {
    DelPushUp(c, x);
    DelLook(a, root, xi, c, x);
    PaintFocus(a, Flip(c, x), c.sib, Red);
    b := Paint(a, w, Red);
    xi' := b[xi].parent;
    c', x' := c.up, Lift(WithSib(c, c.sib.(color := Red)), x);
    assert Plug(Flip(c, x), c.sib.(color := Red)) == Plug(c', x');
  }

  /** Case 3 with x a left child: the black sibling w has a red left and a
      black right child.  That child turns black, w red, w is rotated right,
      and x's new black sibling has a red right child. */
  method DelCase3Left<V>(a: Arena<V>, root: nat, xi: nat, w: nat, ghost c: Ctx<V>, ghost x: Tree<V>)
      returns (b: Arena<V>, root': nat, w': nat, ghost c': Ctx<V>)
    requires Removing(a, root, xi, c, x) && c.InLeft? && ColorOf(x) == Black
    requires c.sib.Br? && c.sib.color == Black && w == c.sib.id
    requires ColorOf(c.sib.left) == Red && ColorOf(c.sib.right) == Black
    ensures Removing(b, root', xi, c', x) && c'.InLeft? && Depth(c') == Depth(c)
    ensures c'.sib.Br? && c'.sib.color == Black && ColorOf(c'.sib.right) == Red && w' == c'.sib.id
    ensures Elements(Plug(c', x)) == Elements(Plug(c, x)) && |b| == |a|
  {
    ghost var wt := c.sib;
    DelNearRedLeft(c, x);
    DelLook(a, root, xi, c, x);
    SibLook(a, c, x);
    ghost var cw := Flip(c, x);
    ghost var cl := InLeft(wt.id, wt.color, wt.key, wt.value, wt.right, cw);
    assert Lift(cl, wt.left) == wt;
    PaintFocus(a, cl, wt.left, Black);
    b := Paint(a, a[w].left, Black);
    ghost var w1 := wt.(left := wt.left.(color := Black));
    assert Lift(cl, wt.left.(color := Black)) == w1;
    PaintFocus(b, cw, w1, Red);
    b := Paint(b, w, Red);
    ghost var w2 := w1.(color := Red);
    b, root' := RightRotate(b, root, w, cw, w2);
    c' := WithSib(c, NearRedTurned(wt));
    assert Plug(cw, RotR(w2)) == Plug(c', x);
    RotRKeeps(w2);
    ElementsPlug(cw, w2);
    ElementsPlug(cw, RotR(w2));
    DelLook(b, root', xi, c', x);
    ChildSide(b, c', x);
    w' := b[b[xi].parent].right;
  }

  /** Case 3 with x a right child, the mirror image. */
  method DelCase3Right<V>(a: Arena<V>, root: nat, xi: nat, w: nat, ghost c: Ctx<V>, ghost x: Tree<V>)
      returns (b: Arena<V>, root': nat, w': nat, ghost c': Ctx<V>)
    requires Removing(a, root, xi, c, x) && c.InRight? && ColorOf(x) == Black
    requires c.sib.Br? && c.sib.color == Black && w == c.sib.id
    requires ColorOf(c.sib.right) == Red && ColorOf(c.sib.left) == Black
    ensures Removing(b, root', xi, c', x) && c'.InRight? && Depth(c') == Depth(c)
    ensures c'.sib.Br? && c'.sib.color == Black && ColorOf(c'.sib.left) == Red && w' == c'.sib.id
    ensures Elements(Plug(c', x)) == Elements(Plug(c, x)) && |b| == |a|
  {
    ghost var wt := c.sib;
    DelNearRedRight(c, x);
    DelLook(a, root, xi, c, x);
    SibLook(a, c, x);
    ghost var cw := Flip(c, x);
    ghost var cr := InRight(wt.id, wt.color, wt.key, wt.value, wt.left, cw);
    assert Lift(cr, wt.right) == wt;
    PaintFocus(a, cr, wt.right, Black);
    b := Paint(a, a[w].right, Black);
    ghost var w1 := wt.(right := wt.right.(color := Black));
    assert Lift(cr, wt.right.(color := Black)) == w1;
    PaintFocus(b, cw, w1, Red);
    b := Paint(b, w, Red);
    ghost var w2 := w1.(color := Red);
    b, root' := LeftRotate(b, root, w, cw, w2);
    c' := WithSib(c, NearRedTurnedMirror(wt));
    assert Plug(cw, RotL(w2)) == Plug(c', x);
    RotLKeeps(w2);
    ElementsPlug(cw, w2);
    ElementsPlug(cw, RotL(w2));
    DelLook(b, root', xi, c', x);
    ChildSide(b, c', x);
    w' := b[b[xi].parent].left;
  }

  /** The paints of case 4 with x a left child: w takes the parent's
      colour, the parent and w's right child turn black.  `p` is the
      parent, read back from x. */
  method FarPaintLeft<V>(a: Arena<V>, root: nat, xi: nat, w: nat, ghost c: Ctx<V>, ghost x: Tree<V>)
      returns (b: Arena<V>, p: nat, ghost p3: Tree<V>)
    requires Removing(a, root, xi, c, x) && c.InLeft?
    requires c.sib.Br? && ColorOf(c.sib.right) == Red && w == c.sib.id
    ensures Wf(b, root, Plug(c.up, p3)) && p == c.id && |b| == |a|
    ensures Elements(Plug(c.up, p3)) == Elements(Plug(c, x))
    ensures p3 == Br(c.id, Black, c.key, c.value, x,
                     Br(w, c.color, c.sib.key, c.sib.value, c.sib.left, c.sib.right.(color := Black)))
  {
    ghost var wt := c.sib;
    DelLook(a, root, xi, c, x);
    ChildSide(a, c, x);
    SibLook(a, c, x);
    ghost var cw := Flip(c, x);
    PaintFocus(a, cw, wt, c.color);
    b := Paint(a, w, a[a[xi].parent].color);
    ghost var p1 := Lift(cw, wt.(color := c.color));
    PaintFocus(b, c.up, p1, Black);
    p := b[xi].parent;
    b := Paint(b, p, Black);
    ghost var cr := InRight(wt.id, c.color, wt.key, wt.value, wt.left,
                            InRight(c.id, Black, c.key, c.value, x, c.up));
    assert Plug(cr, wt.right) == Plug(c.up, p1.(color := Black));
    PaintFocus(b, cr, wt.right, Black);
    b := Paint(b, b[w].right, Black);
    p3 := Br(c.id, Black, c.key, c.value, x,
             Br(wt.id, c.color, wt.key, wt.value, wt.left, wt.right.(color := Black)));
    assert Plug(cr, wt.right.(color := Black)) == Plug(c.up, p3);
  }

  /** Case 4 with x a left child: the black sibling w has a red right child.
      After the paints of `FarPaintLeft` the parent is rotated left.  The
      whole tree is then red-black below its root, and the loop goes on from
      the root. */
  method DelCase4Left<V>(a: Arena<V>, root: nat, xi: nat, w: nat, ghost c: Ctx<V>, ghost x: Tree<V>)
      returns (b: Arena<V>, root': nat, ghost t: Tree<V>)
    requires Removing(a, root, xi, c, x) && c.InLeft? && ColorOf(x) == Black
    requires c.sib.Br? && c.sib.color == Black && ColorOf(c.sib.right) == Red && w == c.sib.id
    ensures Removing(b, root', root', Top, t)
    ensures Elements(t) == Elements(Plug(c, x)) && |b| == |a|
  {
    DelFarRedLeft(c, x);
    var p;
    ghost var p3;
    b, p, p3 := FarPaintLeft(a, root, xi, w, c, x);
    ElementsPlug(c.up, p3);
    b, root' := LeftRotate(b, root, p, c.up, p3);
    assert RotL(p3) == FarRedTurned(c, x);
    t := Plug(c.up, RotL(p3));
    RotLKeeps(p3);
    ElementsPlug(c.up, RotL(p3));
    PlugBr(c.up, RotL(p3));
  }

  /** The paints of case 4 with x a right child, the mirror image. */
  method FarPaintRight<V>(a: Arena<V>, root: nat, xi: nat, w: nat, ghost c: Ctx<V>, ghost x: Tree<V>)
      returns (b: Arena<V>, p: nat, ghost p3: Tree<V>)
    requires Removing(a, root, xi, c, x) && c.InRight?
    requires c.sib.Br? && ColorOf(c.sib.left) == Red && w == c.sib.id
    ensures Wf(b, root, Plug(c.up, p3)) && p == c.id && |b| == |a|
    ensures Elements(Plug(c.up, p3)) == Elements(Plug(c, x))
    ensures p3 == Br(c.id, Black, c.key, c.value,
                     Br(w, c.color, c.sib.key, c.sib.value, c.sib.left.(color := Black), c.sib.right), x)
  {
    ghost var wt := c.sib;
    DelLook(a, root, xi, c, x);
    ChildSide(a, c, x);
    SibLook(a, c, x);
    ghost var cw := Flip(c, x);
    PaintFocus(a, cw, wt, c.color);
    b := Paint(a, w, a[a[xi].parent].color);
    ghost var p1 := Lift(cw, wt.(color := c.color));
    PaintFocus(b, c.up, p1, Black);
    p := b[xi].parent;
    b := Paint(b, p, Black);
    ghost var cl := InLeft(wt.id, c.color, wt.key, wt.value, wt.right,
                           InLeft(c.id, Black, c.key, c.value, x, c.up));
    assert Plug(cl, wt.left) == Plug(c.up, p1.(color := Black));
    PaintFocus(b, cl, wt.left, Black);
    b := Paint(b, b[w].left, Black);
    p3 := Br(c.id, Black, c.key, c.value,
             Br(wt.id, c.color, wt.key, wt.value, wt.left.(color := Black), wt.right), x);
    assert Plug(cl, wt.left.(color := Black)) == Plug(c.up, p3);
  }

  /** Case 4 with x a right child, the mirror image. */
  method DelCase4Right<V>(a: Arena<V>, root: nat, xi: nat, w: nat, ghost c: Ctx<V>, ghost x: Tree<V>)
      returns (b: Arena<V>, root': nat, ghost t: Tree<V>)
    requires Removing(a, root, xi, c, x) && c.InRight? && ColorOf(x) == Black
    requires c.sib.Br? && c.sib.color == Black && ColorOf(c.sib.left) == Red && w == c.sib.id
    ensures Removing(b, root', root', Top, t)
    ensures Elements(t) == Elements(Plug(c, x)) && |b| == |a|
  {
    DelFarRedRight(c, x);
    var p;
    ghost var p3;
    b, p, p3 := FarPaintRight(a, root, xi, w, c, x);
    ElementsPlug(c.up, p3);
    b, root' := RightRotate(b, root, p, c.up, p3);
    assert RotR(p3) == FarRedTurned(c, x);
    t := Plug(c.up, RotR(p3));
    RotRKeeps(p3);
    ElementsPlug(c.up, RotR(p3));
    PlugBr(c.up, RotR(p3));
  }

  /** One round of the loop of `_remove_fixup` with x a left child: case 1
      if the sibling is red, then case 2, or case 3 if needed and case 4.
      x moves up, or the loop is over. */
  method DelStepLeft<V>(a: Arena<V>, root: nat, xi: nat, ghost c: Ctx<V>, ghost x: Tree<V>)
      returns (b: Arena<V>, root': nat, xi': nat, rotations: nat, ghost c': Ctx<V>, ghost x': Tree<V>)
    requires Removing(a, root, xi, c, x) && c.InLeft? && ColorOf(x) == Black
    ensures Removing(b, root', xi', c', x') && Elements(Plug(c', x')) == Elements(Plug(c, x)) && |b| == |a|
    ensures rotations <= 3 && (rotations > 0 ==> c'.Top? || ColorOf(x') == Red)
    ensures Depth(c') < Depth(c) || (Depth(c') == Depth(c) && ColorOf(x') == Red)
  {
    DelSibling(c, x);
    DelLook(a, root, xi, c, x);
    ChildSide(a, c, x);
    ReadColor(a, Flip(c, x), c.sib);
    SibLook(a, c, x);
    b, root', xi', rotations, c', x' := a, root, xi, 0, c, x;
    var w := b[b[xi].parent].right;
    if b[w].color == Red {
      b, root', w, c' := DelCase1Left(b, root', xi, w, c', x');
      rotations := 1;
      SibLook(b, c', x');
    }
    if b[b[w].left].color == Black && b[b[w].right].color == Black {
      b, xi', c', x' := DelCase2(b, root', xi, w, c', x');
    } else {
      if b[b[w].right].color == Black {
        b, root', w, c' := DelCase3Left(b, root', xi, w, c', x');
        rotations := rotations + 1;
        SibLook(b, c', x');
      }
      b, root', x' := DelCase4Left(b, root', xi, w, c', x');
      rotations := rotations + 1;
      xi', c' := root', Top;
    }
  }

  /** The same with x a right child, the mirror image. */
  method DelStepRight<V>(a: Arena<V>, root: nat, xi: nat, ghost c: Ctx<V>, ghost x: Tree<V>)
      returns (b: Arena<V>, root': nat, xi': nat, rotations: nat, ghost c': Ctx<V>, ghost x': Tree<V>)
    requires Removing(a, root, xi, c, x) && c.InRight? && ColorOf(x) == Black
    ensures Removing(b, root', xi', c', x') && Elements(Plug(c', x')) == Elements(Plug(c, x)) && |b| == |a|
    ensures rotations <= 3 && (rotations > 0 ==> c'.Top? || ColorOf(x') == Red)
    ensures Depth(c') < Depth(c) || (Depth(c') == Depth(c) && ColorOf(x') == Red)
  {
    DelSibling(c, x);
    DelLook(a, root, xi, c, x);
    ChildSide(a, c, x);
    ReadColor(a, Flip(c, x), c.sib);
    SibLook(a, c, x);
    b, root', xi', rotations, c', x' := a, root, xi, 0, c, x;
    var w := b[b[xi].parent].left;
    if b[w].color == Red {
      b, root', w, c' := DelCase1Right(b, root', xi, w, c', x');
      rotations := 1;
      SibLook(b, c', x');
    }
    if b[b[w].right].color == Black && b[b[w].left].color == Black {
      b, xi', c', x' := DelCase2(b, root', xi, w, c', x');
    } else {
      if b[b[w].left].color == Black {
        b, root', w, c' := DelCase3Right(b, root', xi, w, c', x');
        rotations := rotations + 1;
        SibLook(b, c', x');
      }
      b, root', x' := DelCase4Right(b, root', xi, w, c', x');
      rotations := rotations + 1;
      xi', c' := root', Top;
    }
  }

  /** `_remove_fixup(x)`: from x with its extra black, the loop restores the
      red-black properties with at most three rotations, keeping the pairs in
      their order; x is painted black at the end. */
  method DeleteFixup<V>(a: Arena<V>, root: nat, x: nat, ghost ctx: Ctx<V>, ghost s: Tree<V>)
      returns (b: Arena<V>, root': nat, rotations: nat, ghost t: Tree<V>)
    requires Removing(a, root, x, ctx, s)
    ensures Wf(b, root', t) && IsRB(t)
    ensures Elements(t) == Elements(Plug(ctx, s)) && |b| == |a| && rotations <= 3
  {
    b, root', rotations := a, root, 0;
    var xi: nat := x;
    ghost var c, f := ctx, s;
    DelLook(b, root', xi, c, f);
    while xi != root' && b[xi].color == Black
      invariant Removing(b, root', xi, c, f)
      invariant xi < |b| && b[xi].color == ColorOf(f) && b[xi].parent == UpId(c) && (xi == root' <==> c.Top?)
      invariant Elements(Plug(c, f)) == Elements(Plug(ctx, s)) && |b| == |a|
      invariant rotations <= 3 && (rotations > 0 ==> c.Top? || ColorOf(f) == Red)
      decreases Depth(c), if ColorOf(f) == Black then 1 else 0
    {
      DelSibling(c, f);
      ChildSide(b, c, f);
      var r;
      if xi == b[b[xi].parent].left {
        b, root', xi, r, c, f := DelStepLeft(b, root', xi, c, f);
      } else {
        b, root', xi, r, c, f := DelStepRight(b, root', xi, c, f);
      }
      rotations := r;
      DelLook(b, root', xi, c, f);
    }
    DelDone(c, f);
    if f.Leaf? {
      assert Paint(b, xi, Black) == b;
      t := Plug(c, f);
    } else {
      PaintFocus(b, c, f, Black);
      t := Plug(c, f.(color := Black));
    }
    b := Paint(b, xi, Black);
  }

  // ---------------------------------------------------------- together

  /** Taking out the pair at `at` keeps a sorted sequence sorted, and when
      the order is strict its key is gone and every other key stays. */
  lemma RemoveAt<V>(e: seq<(int, V)>, at: nat, strict: bool)
    requires at < |e| && Sorted(e, strict)
    ensures Sorted(e[..at] + e[at + 1..], strict)
    ensures strict ==> PairKeys(e[..at] + e[at + 1..]) == PairKeys(e) - {e[at].0}
  {
    var l, r := e[..at], e[at + 1..];
    assert e == l + [e[at]] + r;
    SortedRemove(l, e[at], r, strict);
    if strict {
      PairKeysAppend(l + [e[at]], r);
      PairKeysAppend(l, [e[at]]);
      PairKeysAppend(l, r);
      assert PairKeys([e[at]]) == {e[at].0} by {
        assert [e[at]][1..] == [];
      }
      forall i | 0 <= i < |l|
        ensures l[i].0 != e[at].0
      {
        assert e[i] == l[i];
      }
      forall i | 0 <= i < |r|
        ensures r[i].0 != e[at].0
      {
        assert e[at + 1 + i] == r[i];
      }
      PairKeysIndex(l, e[at].0);
      PairKeysIndex(r, e[at].0);
    }
  }

  /** The tree left when the pair at `at` is taken out of `t`: still
      ordered, one node fewer, and, with unique keys, without that key. */
  lemma RemovedTree<V>(t: Tree<V>, t': Tree<V>, at: nat, strict: bool)
    requires at < |Elements(t)| && Ordered(t, strict)
    requires Elements(t') == Elements(t)[..at] + Elements(t)[at + 1..]
    ensures Ordered(t', strict) && Count(t') + 1 == Count(t)
    ensures strict ==> Keys(t') == Keys(t) - {Elements(t)[at].0}
  {
    RemoveAt(Elements(t), at, strict);
    CountElements(t);
    CountElements(t');
    KeysPairs(t);
    KeysPairs(t');
  }

  /** A whole removal: the walk of `remove` (or the legacy `_remove`), then,
      when the key is found, `_rb_delete` with `_remove_fixup` after it if
      the unlinked node was black.  An absent key changes nothing; a present
      one loses the pair at one position, found on the walk, and the tree
      stays red-black and ordered. */
  method Remove<V>(a: Arena<V>, root: nat, key: int, strict: bool, ghost t: Tree<V>)
      returns (found: bool, b: Arena<V>, root': nat, rotations: nat, ghost t': Tree<V>, ghost at: nat)
    requires Wf(a, root, t) && IsRB(t) && Ordered(t, strict)
    ensures found <==> key in Keys(t)
    ensures !found ==> b == a && root' == root && t' == t && rotations == 0
    ensures Wf(b, root', t') && IsRB(t') && Ordered(t', strict) && |b| == |a|
    ensures found ==> at < |Elements(t)| && Elements(t)[at].0 == key
    ensures found ==> Elements(t') == Elements(t)[..at] + Elements(t)[at + 1..]
    ensures found ==> Count(t') + 1 == Count(t) && rotations <= 3
    ensures found && strict ==> Keys(t') == Keys(t) - {key}
  {
    if strict {
      StrictIsLoose(Elements(t));
    }
    var z;
    ghost var cz, sz;
    z, cz, sz := Search(a, root, key, t);
    found := z != 0;
    if !found {
      b, root', rotations, t', at := a, root, 0, t, 0;
      return;
    }
    var x, yColor;
    ghost var cx, tx, ty;
    b, root', x, yColor, cx, tx, ty := Splice(a, root, z, cz, sz);
    RBFocus(cx, ty);
    DelStart(cx, ty, tx);
    if yColor == Black {
      b, root', rotations, t' := DeleteFixup(b, root', x, cx, tx);
    } else {
      rotations, t' := 0, Plug(cx, tx);
    }
    at := Position(cz, sz);
    PositionElement(cz, sz);
    RemovedTree(t, t', at, strict);
  }
}
