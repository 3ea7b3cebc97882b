/**
 * The shape of a red-black tree of include/RBTree/RBTree.hpp and
 * includes/RBTree.h, as a value.  The trees themselves keep their nodes in an
 * arena (module RBArena), where `parent`, `left` and `right` are indices; a
 * `Tree` is what those links spell out from the root: every node with the
 * index (`id`) it has in the arena, its colour, key and value.  A `Ctx` is the
 * path from a node up to the root (a zipper), which is what the fixup loops
 * and the iterators walk with `x->parent`.
 */
module RBShape {
  datatype Color = Red | Black

  /** `Leaf` is the sentinel `_NIL`; a `Br` is a node with its arena index. */
  datatype Tree<V> =
    | Leaf
    | Br(id: nat, color: Color, key: int, value: V, left: Tree<V>, right: Tree<V>)

  /** The path from a focused subtree up to the root.  `InLeft` says the focus
      is the left child of node `id`, whose right child is `sib`; `InRight` the
      mirror image; `up` continues from node `id` to the root. */
  datatype Ctx<V> =
    | Top
    | InLeft(id: nat, color: Color, key: int, value: V, sib: Tree<V>, up: Ctx<V>)
    | InRight(id: nat, color: Color, key: int, value: V, sib: Tree<V>, up: Ctx<V>)

  /** The arena index of a subtree's root; 0, the sentinel, for `Leaf`. */
  function RootId<V>(t: Tree<V>): nat
  {
    if t.Leaf? then 0 else t.id
  }

  /** The index of the parent of the focus; 0, the sentinel, at the root. */
  function UpId<V>(ctx: Ctx<V>): nat
  {
    if ctx.Top? then 0 else ctx.id
  }

  /** The colour a node reads for a child: the sentinel is black. */
  function ColorOf<V>(t: Tree<V>): Color
  {
    if t.Leaf? then Black else t.color
  }

  /** The node of the first frame of `ctx`, with `s` put back as its child. */
  function Lift<V>(ctx: Ctx<V>, s: Tree<V>): (t: Tree<V>)
    requires !ctx.Top?
    ensures t.Br? && t.id == ctx.id && t.color == ctx.color
  {
    match ctx
    case InLeft(id, c, k, v, sib, _) => Br(id, c, k, v, s, sib)
    case InRight(id, c, k, v, sib, _) => Br(id, c, k, v, sib, s)
  }

  /** The first frame of `ctx` with its node painted `c`. */
  function WithColor<V>(ctx: Ctx<V>, c: Color): (r: Ctx<V>)
    requires !ctx.Top?
    ensures !r.Top? && r.id == ctx.id && r.color == c && r.sib == ctx.sib && r.up == ctx.up
    ensures r.InLeft? == ctx.InLeft?
  {
    match ctx
    case InLeft(id, _, k, v, sib, up) => InLeft(id, c, k, v, sib, up)
    case InRight(id, _, k, v, sib, up) => InRight(id, c, k, v, sib, up)
  }

  /** The first frame of `ctx` with `s` as the other child. */
  function WithSib<V>(ctx: Ctx<V>, s: Tree<V>): (r: Ctx<V>)
    requires !ctx.Top?
    ensures !r.Top? && r.id == ctx.id && r.color == ctx.color && r.sib == s && r.up == ctx.up
    ensures r.InLeft? == ctx.InLeft?
  {
    match ctx
    case InLeft(id, c, k, v, _, up) => InLeft(id, c, k, v, s, up)
    case InRight(id, c, k, v, _, up) => InRight(id, c, k, v, s, up)
  }

  /** The same place seen from the other child: the focus of the result is
      the sibling of `s`, and `s` is its sibling. */
  function Flip<V>(ctx: Ctx<V>, s: Tree<V>): (r: Ctx<V>)
    requires !ctx.Top?
    ensures !r.Top? && r.id == ctx.id && r.color == ctx.color && r.sib == s && r.up == ctx.up
    ensures r.InLeft? == ctx.InRight?
    ensures Lift(r, ctx.sib) == Lift(ctx, s) && Plug(r, ctx.sib) == Plug(ctx, s)
  {
    match ctx
    case InLeft(id, c, k, v, sib, up) => InRight(id, c, k, v, s, up)
    case InRight(id, c, k, v, sib, up) => InLeft(id, c, k, v, s, up)
  }

  /** The whole tree: `s` put back at the place `ctx` describes. */
  function Plug<V>(ctx: Ctx<V>, s: Tree<V>): Tree<V>
    decreases ctx
  {
    if ctx.Top? then s else Plug(ctx.up, Lift(ctx, s))
  }

  /** A tree with a node at the focus is not empty. */
  lemma {:induction false} PlugBr<V>(ctx: Ctx<V>, s: Tree<V>)
    requires s.Br?
    ensures Plug(ctx, s).Br?
    decreases ctx
  {
    if !ctx.Top? {
      PlugBr(ctx.up, Lift(ctx, s));
    }
  }

  /** The number of links from the focus up to the root. */
  function Depth<V>(ctx: Ctx<V>): nat
  {
    if ctx.Top? then 0 else 1 + Depth(ctx.up)
  }

  /** The path `inner` followed by the path `outer`. */
  function Append<V>(inner: Ctx<V>, outer: Ctx<V>): Ctx<V>
  {
    match inner
    case Top => outer
    case InLeft(id, c, k, v, sib, up) => InLeft(id, c, k, v, sib, Append(up, outer))
    case InRight(id, c, k, v, sib, up) => InRight(id, c, k, v, sib, Append(up, outer))
  }

  lemma {:induction false} PlugAppend<V>(inner: Ctx<V>, outer: Ctx<V>, s: Tree<V>)
    ensures Plug(Append(inner, outer), s) == Plug(outer, Plug(inner, s))
    ensures UpId(Append(inner, outer)) == if inner.Top? then UpId(outer) else UpId(inner)
    decreases inner
  {
    if !inner.Top? {
      PlugAppend(inner.up, outer, Lift(inner, s));
    }
  }

  // ------------------------------------------------------------- contents

  /** The key/value pairs in in-order, the order the iterators visit. */
  function Elements<V>(t: Tree<V>): seq<(int, V)>
  {
    match t
    case Leaf => []
    case Br(_, _, k, v, l, r) => Elements(l) + [(k, v)] + Elements(r)
  }

  /** The pairs of the whole tree before the focus. */
  function CtxLeft<V>(ctx: Ctx<V>): seq<(int, V)>
  {
    match ctx
    case Top => []
    case InLeft(_, _, _, _, _, up) => CtxLeft(up)
    case InRight(_, _, k, v, sib, up) => CtxLeft(up) + Elements(sib) + [(k, v)]
  }

  /** The pairs of the whole tree after the focus. */
  function CtxRight<V>(ctx: Ctx<V>): seq<(int, V)>
  {
    match ctx
    case Top => []
    case InLeft(_, _, k, v, sib, up) => [(k, v)] + Elements(sib) + CtxRight(up)
    case InRight(_, _, _, _, _, up) => CtxRight(up)
  }

  lemma {:induction false} ElementsPlug<V>(ctx: Ctx<V>, s: Tree<V>)
    ensures Elements(Plug(ctx, s)) == CtxLeft(ctx) + Elements(s) + CtxRight(ctx)
    decreases ctx
  {
    if !ctx.Top? {
      ElementsPlug(ctx.up, Lift(ctx, s));
    }
  }

  /** The pairs before and after the focus along a path made of two. */
  lemma {:induction false} CtxAppend<V>(inner: Ctx<V>, outer: Ctx<V>)
    ensures CtxLeft(Append(inner, outer)) == CtxLeft(outer) + CtxLeft(inner)
    ensures CtxRight(Append(inner, outer)) == CtxRight(inner) + CtxRight(outer)
    decreases inner
  {
    if !inner.Top? {
      CtxAppend(inner.up, outer);
    }
  }

  /** A path that only goes down to the left, as `_minimum` walks. */
  predicate AllLeft<V>(ctx: Ctx<V>)
  {
    ctx.Top? || (ctx.InLeft? && AllLeft(ctx.up))
  }

  /** A path that only goes down to the right, as `_maximum` walks. */
  predicate AllRight<V>(ctx: Ctx<V>)
  {
    ctx.Top? || (ctx.InRight? && AllRight(ctx.up))
  }

  lemma {:induction false} AllLeftNothingBefore<V>(ctx: Ctx<V>)
    requires AllLeft(ctx)
    ensures CtxLeft(ctx) == []
  {
    if !ctx.Top? {
      AllLeftNothingBefore(ctx.up);
    }
  }

  lemma {:induction false} AllRightNothingAfter<V>(ctx: Ctx<V>)
    requires AllRight(ctx)
    ensures CtxRight(ctx) == []
  {
    if !ctx.Top? {
      AllRightNothingAfter(ctx.up);
    }
  }

  /** The in-order position of the root of the focus in the whole tree. */
  function Position<V>(ctx: Ctx<V>, s: Tree<V>): nat
  {
    |CtxLeft(ctx)| + if s.Leaf? then 0 else |Elements(s.left)|
  }

  /** The root of the focus is the pair at its position. */
  lemma PositionElement<V>(ctx: Ctx<V>, s: Tree<V>)
    requires s.Br?
    ensures Position(ctx, s) < |Elements(Plug(ctx, s))|
    ensures Elements(Plug(ctx, s))[Position(ctx, s)] == (s.key, s.value)
  {
    ElementsPlug(ctx, s);
    assert Elements(s) == Elements(s.left) + [(s.key, s.value)] + Elements(s.right);
  }

  /** The keys of a subtree. */
  function Keys<V>(t: Tree<V>): set<int>
  {
    match t
    case Leaf => {}
    case Br(_, _, k, _, l, r) => Keys(l) + {k} + Keys(r)
  }

  /** The keys of the focus are keys of the whole tree. */
  lemma {:induction false} KeysPlug<V>(ctx: Ctx<V>, s: Tree<V>)
    ensures Keys(s) <= Keys(Plug(ctx, s))
    decreases ctx
  {
    if !ctx.Top? {
      KeysPlug(ctx.up, Lift(ctx, s));
    }
  }

  /** The pieces around one element of a sequence. */
  lemma SliceAround<V>(x: seq<(int, V)>, e: (int, V), y: seq<(int, V)>)
    ensures |x| < |x + [e] + y| && (x + [e] + y)[|x|] == e
    ensures (x + [e] + y)[..|x|] == x && (x + [e] + y)[|x| + 1..] == y
  {
    var s := x + [e] + y;
    assert s[..|x|] == x;
    assert s[|x| + 1..] == y;
  }

  /** The keys of a sequence of pairs. */
  function PairKeys<V>(s: seq<(int, V)>): set<int>
  {
    if |s| == 0 then {} else {s[0].0} + PairKeys(s[1..])
  }

  lemma {:induction false} PairKeysAppend<V>(x: seq<(int, V)>, y: seq<(int, V)>)
    ensures PairKeys(x + y) == PairKeys(x) + PairKeys(y)
    decreases |x|
  {
    if |x| == 0 {
      assert x + y == y;
    } else {
      assert (x + y)[1..] == x[1..] + y;
      PairKeysAppend(x[1..], y);
    }
  }

  /** A key of a sequence of pairs is exactly the key of one of its pairs. */
  lemma {:induction false} PairKeysIndex<V>(s: seq<(int, V)>, k: int)
    ensures k in PairKeys(s) <==> exists i :: 0 <= i < |s| && s[i].0 == k
    decreases |s|
  {
    if |s| > 0 {
      PairKeysIndex(s[1..], k);
      if exists i :: 0 <= i < |s[1..]| && s[1..][i].0 == k {
        var i :| 0 <= i < |s[1..]| && s[1..][i].0 == k;
        assert s[i + 1].0 == k;
      }
      if exists i :: 0 <= i < |s| && s[i].0 == k {
        var i :| 0 <= i < |s| && s[i].0 == k;
        if i > 0 {
          assert s[1..][i - 1].0 == k;
        }
      }
    }
  }

  /** The keys of a tree are the keys of its in-order pairs. */
  lemma {:induction false} KeysPairs<V>(t: Tree<V>)
    ensures Keys(t) == PairKeys(Elements(t))
  {
    if t.Br? {
      KeysPairs(t.left);
      KeysPairs(t.right);
      var kv := (t.key, t.value);
      PairKeysAppend(Elements(t.left) + [kv], Elements(t.right));
      PairKeysAppend(Elements(t.left), [kv]);
      assert [kv][1..] == [];
    }
  }

  /** The number of nodes. */
  function Count<V>(t: Tree<V>): nat
  {
    match t
    case Leaf => 0
    case Br(_, _, _, _, l, r) => Count(l) + 1 + Count(r)
  }

  lemma {:induction false} CountElements<V>(t: Tree<V>)
    ensures |Elements(t)| == Count(t)
  {
    if t.Br? {
      CountElements(t.left);
      CountElements(t.right);
    }
  }

  /** A key occurs in the in-order pairs exactly when it is a key of the tree. */
  lemma {:induction false} KeysElements<V>(t: Tree<V>, k: int)
    ensures k in Keys(t) <==> exists i :: 0 <= i < |Elements(t)| && Elements(t)[i].0 == k
  {
    if t.Br? {
      KeysElements(t.left, k);
      KeysElements(t.right, k);
      var l, r := Elements(t.left), Elements(t.right);
      assert Elements(t) == l + [(t.key, t.value)] + r;
      if k in Keys(t.left) {
        var i :| 0 <= i < |l| && l[i].0 == k;
        assert Elements(t)[i] == l[i];
      }
      if k in Keys(t.right) {
        var i :| 0 <= i < |r| && r[i].0 == k;
        assert Elements(t)[|l| + 1 + i] == r[i];
      }
      if k == t.key {
        assert Elements(t)[|l|].0 == k;
      }
      if exists i :: 0 <= i < |Elements(t)| && Elements(t)[i].0 == k {
        var i :| 0 <= i < |Elements(t)| && Elements(t)[i].0 == k;
        if i < |l| {
          assert l[i].0 == k;
        } else if i > |l| {
          assert r[i - |l| - 1].0 == k;
        }
      }
    }
  }

  // ------------------------------------------------------------ arena indices

  /** The arena indices of the nodes of a subtree. */
  ghost function Ids<V>(t: Tree<V>): set<nat>
  {
    match t
    case Leaf => {}
    case Br(id, _, _, _, l, r) => Ids(l) + {id} + Ids(r)
  }

  /** No index is used twice. */
  ghost predicate Distinct<V>(t: Tree<V>)
  {
    match t
    case Leaf => true
    case Br(id, _, _, _, l, r) =>
      Distinct(l) && Distinct(r) && id !in Ids(l) && id !in Ids(r) && Ids(l) !! Ids(r)
  }

  /** The indices of the nodes on and beside a path. */
  ghost function CtxIds<V>(ctx: Ctx<V>): set<nat>
  {
    if ctx.Top? then {} else {ctx.id} + Ids(ctx.sib) + CtxIds(ctx.up)
  }

  ghost predicate DistinctCtx<V>(ctx: Ctx<V>)
  {
    ctx.Top? ||
    (Distinct(ctx.sib) && DistinctCtx(ctx.up) && ctx.id !in Ids(ctx.sib) &&
     ctx.id !in CtxIds(ctx.up) && Ids(ctx.sib) !! CtxIds(ctx.up))
  }

  lemma {:induction false} IdsPlug<V>(ctx: Ctx<V>, s: Tree<V>)
    ensures Ids(Plug(ctx, s)) == Ids(s) + CtxIds(ctx)
    decreases ctx
  {
    if !ctx.Top? {
      IdsPlug(ctx.up, Lift(ctx, s));
    }
  }

  /** A whole tree has distinct indices exactly when the focus, the path and
      the two together do. */
  lemma {:induction false} DistinctPlug<V>(ctx: Ctx<V>, s: Tree<V>)
    ensures Distinct(Plug(ctx, s)) <==> Distinct(s) && DistinctCtx(ctx) && Ids(s) !! CtxIds(ctx)
    decreases ctx
  {
    if !ctx.Top? {
      var t := Lift(ctx, s);
      DistinctPlug(ctx.up, t);
      assert Ids(t) == Ids(s) + {ctx.id} + Ids(ctx.sib);
    }
  }

  /** Replacing the focus by a subtree with the same indices keeps them
      distinct. */
  lemma DistinctReplace<V>(ctx: Ctx<V>, s: Tree<V>, s': Tree<V>)
    requires Distinct(Plug(ctx, s)) && Distinct(s') && Ids(s') <= Ids(s)
    ensures Distinct(Plug(ctx, s'))
  {
    DistinctPlug(ctx, s);
    DistinctPlug(ctx, s');
  }

  // ---------------------------------------------------------------- order

  /** `x` before `y`: strictly for the tree of include/RBTree, which refuses a
      second equal key; loosely for includes/RBTree.h, which keeps it. */
  predicate Below(x: int, y: int, strict: bool)
  {
    if strict then x < y else x <= y
  }

  ghost predicate Sorted<V>(s: seq<(int, V)>, strict: bool)
  {
    forall i, j :: 0 <= i < j < |s| ==> Below(s[i].0, s[j].0, strict)
  }

  /** Binary-search-tree order, stated on the in-order pairs. */
  ghost predicate Ordered<V>(t: Tree<V>, strict: bool)
  {
    Sorted(Elements(t), strict)
  }

  /** In an ordered node, the left keys come before the node's and the right
      keys after it. */
  lemma SortedSplit<V>(l: seq<(int, V)>, x: (int, V), r: seq<(int, V)>, strict: bool)
    requires Sorted(l + [x] + r, strict)
    ensures Sorted(l, strict) && Sorted(r, strict)
    ensures forall i :: 0 <= i < |l| ==> Below(l[i].0, x.0, strict)
    ensures forall i :: 0 <= i < |r| ==> Below(x.0, r[i].0, strict)
  {
    var s := l + [x] + r;
    forall i, j | 0 <= i < j < |r|
      ensures Below(r[i].0, r[j].0, strict)
    {
      assert s[|l| + 1 + i] == r[i] && s[|l| + 1 + j] == r[j];
    }
    forall i | 0 <= i < |l|
      ensures Below(l[i].0, x.0, strict)
    {
      assert s[i] == l[i] && s[|l|] == x;
    }
    forall i | 0 <= i < |r|
      ensures Below(x.0, r[i].0, strict)
    {
      assert s[|l| + 1 + i] == r[i] && s[|l|] == x;
    }
    forall i, j | 0 <= i < j < |l|
      ensures Below(l[i].0, l[j].0, strict)
    {
      assert s[i] == l[i] && s[j] == l[j];
    }
  }

  /** A sorted sequence with one element taken out is sorted. */
  lemma SortedRemove<V>(a: seq<(int, V)>, x: (int, V), b: seq<(int, V)>, strict: bool)
    requires Sorted(a + [x] + b, strict)
    ensures Sorted(a + b, strict)
  {
    var s, t := a + [x] + b, a + b;
    forall i, j | 0 <= i < j < |t|
      ensures Below(t[i].0, t[j].0, strict)
    {
      var i' := if i < |a| then i else i + 1;
      var j' := if j < |a| then j else j + 1;
      assert t[i] == s[i'] && t[j] == s[j'];
    }
  }

  /** A sorted sequence with one element put in where it fits is sorted. */
  lemma SortedInsert<V>(a: seq<(int, V)>, x: (int, V), b: seq<(int, V)>, strict: bool)
    requires Sorted(a + b, strict)
    requires forall i :: 0 <= i < |a| ==> Below(a[i].0, x.0, strict)
    requires forall i :: 0 <= i < |b| ==> x.0 < b[i].0
    ensures Sorted(a + [x] + b, strict)
  {
    var s, t := a + [x] + b, a + b;
    forall i, j | 0 <= i < j < |s|
      ensures Below(s[i].0, s[j].0, strict)
    {
      if i < |a| && j < |a| {
        assert s[i] == t[i] && s[j] == t[j];
      } else if i < |a| && j > |a| {
        assert s[i] == t[i] && s[j] == t[j - 1];
      } else if i < |a| {
        assert s[i] == a[i] && s[j] == x;
      } else if i == |a| {
        assert s[j] == b[j - |a| - 1];
      } else {
        assert s[i] == t[i - 1] && s[j] == t[j - 1];
      }
    }
  }

  /** Inside an ordered tree every subtree is ordered. */
  lemma SortedInfix<V>(a: seq<(int, V)>, m: seq<(int, V)>, b: seq<(int, V)>, strict: bool)
    requires Sorted(a + m + b, strict)
    ensures Sorted(m, strict)
  {
    var s := a + m + b;
    forall i, j | 0 <= i < j < |m|
      ensures Below(m[i].0, m[j].0, strict)
    {
      assert s[|a| + i] == m[i] && s[|a| + j] == m[j];
    }
  }

  /** A strictly ordered tree is loosely ordered. */
  lemma StrictIsLoose<V>(s: seq<(int, V)>)
    requires Sorted(s, true)
    ensures Sorted(s, false)
  {
  }

  /** In an ordered node the left keys come before its key and the right
      keys after it, and both subtrees are ordered. */
  lemma OrderedChildren<V>(t: Tree<V>, strict: bool)
    requires t.Br? && Ordered(t, strict)
    ensures Ordered(t.left, strict) && Ordered(t.right, strict)
    ensures forall k :: k in Keys(t.left) ==> Below(k, t.key, strict)
    ensures forall k :: k in Keys(t.right) ==> Below(t.key, k, strict)
  {
    var l, r := Elements(t.left), Elements(t.right);
    SortedSplit(l, (t.key, t.value), r, strict);
    forall k | k in Keys(t.left)
      ensures Below(k, t.key, strict)
    {
      KeysElements(t.left, k);
    }
    forall k | k in Keys(t.right)
      ensures Below(t.key, k, strict)
    {
      KeysElements(t.right, k);
    }
  }

  /** Every subtree of an ordered tree is ordered. */
  lemma OrderedFocus<V>(ctx: Ctx<V>, s: Tree<V>, strict: bool)
    requires Ordered(Plug(ctx, s), strict)
    ensures Ordered(s, strict)
  {
    ElementsPlug(ctx, s);
    SortedInfix(CtxLeft(ctx), Elements(s), CtxRight(ctx), strict);
  }

  // ------------------------------------------------------------ rotations

  /** `_leftRotate(x)` on shapes: x's right child y takes x's place, x becomes
      y's left child and y's left subtree becomes x's right one. */
  function RotL<V>(t: Tree<V>): (r: Tree<V>)
    requires t.Br? && t.right.Br?
    ensures r.Br? && r.left.Br?
  {
    var y := t.right;
    Br(y.id, y.color, y.key, y.value, Br(t.id, t.color, t.key, t.value, t.left, y.left), y.right)
  }

  /** `_rightRotate(x)`, the mirror image. */
  function RotR<V>(t: Tree<V>): (r: Tree<V>)
    requires t.Br? && t.left.Br?
    ensures r.Br? && r.right.Br?
  {
    var y := t.left;
    Br(y.id, y.color, y.key, y.value, y.left, Br(t.id, t.color, t.key, t.value, y.right, t.right))
  }

  /** A rotation keeps the in-order sequence, the indices and the keys. */
  lemma {:induction false} RotLKeeps<V>(t: Tree<V>)
    requires t.Br? && t.right.Br?
    ensures Elements(RotL(t)) == Elements(t) && Ids(RotL(t)) == Ids(t) && Keys(RotL(t)) == Keys(t)
    ensures Distinct(t) ==> Distinct(RotL(t))
  {
    var y := t.right;
    var x := Br(t.id, t.color, t.key, t.value, t.left, y.left);
    assert Elements(RotL(t)) == (Elements(t.left) + [(t.key, t.value)] + Elements(y.left)) + [(y.key, y.value)] + Elements(y.right);
    assert Ids(x) == Ids(t.left) + {t.id} + Ids(y.left);
    assert Ids(y) == Ids(y.left) + {y.id} + Ids(y.right);
    assert Ids(RotL(t)) == Ids(x) + {y.id} + Ids(y.right);
    if Distinct(t) {
      assert Distinct(y);
      assert Distinct(x);
    }
  }

  lemma {:induction false} RotRKeeps<V>(t: Tree<V>)
    requires t.Br? && t.left.Br?
    ensures Elements(RotR(t)) == Elements(t) && Ids(RotR(t)) == Ids(t) && Keys(RotR(t)) == Keys(t)
    ensures Distinct(t) ==> Distinct(RotR(t))
  {
    var y := t.left;
    var x := Br(t.id, t.color, t.key, t.value, y.right, t.right);
    assert Elements(RotR(t)) == Elements(y.left) + [(y.key, y.value)] + (Elements(y.right) + [(t.key, t.value)] + Elements(t.right));
    assert Ids(x) == Ids(y.right) + {t.id} + Ids(t.right);
    assert Ids(y) == Ids(y.left) + {y.id} + Ids(y.right);
    assert Ids(RotR(t)) == Ids(y.left) + {y.id} + Ids(x);
    if Distinct(t) {
      assert Distinct(y);
      assert Distinct(x);
    }
  }

  /** The left and right rotations undo each other. */
  lemma RotationsInverse<V>(t: Tree<V>)
    requires t.Br? && t.right.Br?
    ensures RotR(RotL(t)) == t
  {
  }
}
