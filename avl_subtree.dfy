/**
 * The private recursive part of include/AVLTree/AVLTree.hpp: `_height`,
 * `_balance`, the rotations, `_insert`, `_fixup_node`, `_remove`,
 * `_remove_successor` and `_fixup_deletion`.  Each is a function from the old
 * subtree to the new one; the rotations a call makes are returned beside the
 * new subtree, and the `AVLTree` class adds them to its counter.
 */
module AVLSubtree {
  import opened AVLNode
  import opened Results

  function Max(a: int, b: int): int { if a < b then b else a }

  /** `_height`: the stored height, 0 for an absent child. */
  function Height<V>(t: Tree<V>): nat
  {
    if t.Nil? then 0 else t.height
  }

  /** `_balance`: right height minus left height. */
  function Balance<V>(t: Tree<V>): int
    requires t.Node?
  {
    Height(t.right) - Height(t.left)
  }

  /** The real height of a subtree (longest root-to-leaf path). */
  function Depth<V>(t: Tree<V>): nat
  {
    if t.Nil? then 0 else 1 + Max(Depth(t.left), Depth(t.right))
  }

  /** The statement `node->height = 1 + max(_height(left), _height(right))`. */
  function Recomputed<V>(t: Tree<V>): (r: Tree<V>)
    requires t.Node?
    ensures r.Node? && r.key == t.key && r.value == t.value && r.left == t.left && r.right == t.right
    ensures Height(r) == 1 + Max(Height(t.left), Height(t.right))
  {
    t.(height := 1 + Max(Height(t.left), Height(t.right)))
  }

  /**
   * Height bookkeeping and balance of every node: a node stores 1 + the larger
   * height of its children, and the two heights differ by at most one.  `leaf`
   * is the height a newly created node carries; a node without children may
   * keep it (it equals the equation for this file's nodes, which start at 1;
   * the legacy tree's start at 0).
   */
  ghost predicate Shaped<V>(t: Tree<V>, leaf: nat)
  {
    match t
    case Nil => true
    case Node(_, _, l, r, h) =>
      Shaped(l, leaf) && Shaped(r, leaf) &&
      (h == 1 + Max(Height(l), Height(r)) || (l.Nil? && r.Nil? && h == leaf)) &&
      -1 <= Height(r) - Height(l) <= 1
  }

  /** The AVL invariant of this file's tree. */
  ghost predicate IsAVL<V>(t: Tree<V>)
  {
    Shaped(t, 1)
  }

  /** Every stored height equals the real height of its subtree. */
  ghost predicate HeightsExact<V>(t: Tree<V>)
  {
    match t
    case Nil => true
    case Node(_, _, l, r, h) => HeightsExact(l) && HeightsExact(r) && h == Depth(t)
  }

  /** In an AVL tree the stored heights are exact and every balance factor is
      -1, 0 or 1. */
  lemma {:induction false} AVLHeightsExact<V>(t: Tree<V>)
    requires IsAVL(t)
    ensures HeightsExact(t) && Height(t) == Depth(t)
    ensures t.Node? ==> -1 <= Balance(t) <= 1
  {
    match t
    case Nil =>
    case Node(_, _, l, r, _) =>
      AVLHeightsExact(l);
      AVLHeightsExact(r);
  }

  /** A node fresh from the constructor already satisfies the height equation,
      since both absent children count 0. */
  lemma NewNodeIsAVL<V>(k: int, v: V)
    ensures IsAVL(NewNode(k, v)) && Ordered(NewNode(k, v))
    ensures Height(NewNode(k, v)) == 1 + Max(Height(NewNode(k, v).left), Height(NewNode(k, v).right))
  {
  }

  // ---------------------------------------------------------------- rotations

  /** `_rotateLeft`: the right child q becomes the subtree root, p takes q's
      left subtree as its right child, and p's then q's heights are recomputed. */
  function RotateLeft<V>(p: Tree<V>): (q: Tree<V>)
    requires p.Node? && p.right.Node?
    ensures q.Node? && q.left.Node?
    ensures q.key == p.right.key && q.left.key == p.key
    ensures q.left.left == p.left && q.left.right == p.right.left && q.right == p.right.right
    ensures Height(q.left) == 1 + Max(Height(p.left), Height(p.right.left))
    ensures Height(q) == 1 + Max(Height(q.left), Height(p.right.right))
    ensures Elements(q) == Elements(p) && Keys(q) == Keys(p) && Content(q) == Content(p)
  {
    var r := p.right;
    var p' := Recomputed(Node(p.key, p.value, p.left, r.left, p.height));
    Recomputed(Node(r.key, r.value, p', r.right, r.height))
  }

  /** `_rotateRight`: the mirror image of `RotateLeft`. */
  function RotateRight<V>(p: Tree<V>): (q: Tree<V>)
    requires p.Node? && p.left.Node?
    ensures q.Node? && q.right.Node?
    ensures q.key == p.left.key && q.right.key == p.key
    ensures q.left == p.left.left && q.right.left == p.left.right && q.right.right == p.right
    ensures Height(q.right) == 1 + Max(Height(p.left.right), Height(p.right))
    ensures Height(q) == 1 + Max(Height(p.left.left), Height(q.right))
    ensures Elements(q) == Elements(p) && Keys(q) == Keys(p) && Content(q) == Content(p)
  {
    var l := p.left;
    var p' := Recomputed(Node(p.key, p.value, l.right, p.right, p.height));
    Recomputed(Node(l.key, l.value, l.left, p', l.height))
  }

  /** A left rotation keeps the search-tree order. */
  lemma RotateLeftKeepsOrder<V>(p: Tree<V>)
    requires p.Node? && p.right.Node?
    ensures Ordered(p) ==> Ordered(RotateLeft(p))
  {
    if !Ordered(p) { return; }
    var r := p.right;
    assert r.key in Keys(r);
    var q := RotateLeft(p);
    assert Ordered(r);
    assert Keys(q.left) == Keys(p.left) + {p.key} + Keys(r.left);
    assert Ordered(q.left);
  }

  /** A right rotation keeps the search-tree order. */
  lemma RotateRightKeepsOrder<V>(p: Tree<V>)
    requires p.Node? && p.left.Node?
    ensures Ordered(p) ==> Ordered(RotateRight(p))
  {
    if !Ordered(p) { return; }
    var l := p.left;
    assert l.key in Keys(l);
    var q := RotateRight(p);
    assert Ordered(l);
    assert Keys(q.right) == Keys(l.right) + {p.key} + Keys(p.right);
    assert Ordered(q.right);
  }

  /** A single right rotation balances a node whose left subtree is two higher
      than its right one and not right-heavy. */
  lemma RotateRightRebalances<V>(n: Tree<V>, leaf: nat)
    requires leaf <= 1 && n.Node? && n.left.Node? && Shaped(n.left, leaf) && Shaped(n.right, leaf)
    requires Height(n.left) == Height(n.right) + 2 && Balance(n.left) <= 0
    ensures Shaped(RotateRight(n), leaf)
    ensures Height(RotateRight(n)) == Height(n.left) + (if Balance(n.left) == 0 then 1 else 0)
  {
  }

  /** A single left rotation balances a node whose right subtree is two higher
      than its left one and not left-heavy. */
  lemma RotateLeftRebalances<V>(n: Tree<V>, leaf: nat)
    requires leaf <= 1 && n.Node? && n.right.Node? && Shaped(n.left, leaf) && Shaped(n.right, leaf)
    requires Height(n.right) == Height(n.left) + 2 && Balance(n.right) >= 0
    ensures Shaped(RotateLeft(n), leaf)
    ensures Height(RotateLeft(n)) == Height(n.right) + (if Balance(n.right) == 0 then 1 else 0)
  {
  }

  /** A left rotation of the left child followed by a right rotation balances a
      node whose left subtree is two higher and right-heavy. */
  lemma LeftRightRebalances<V>(n: Tree<V>, leaf: nat)
    requires leaf <= 1 && n.Node? && n.left.Node? && n.left.right.Node?
    requires Shaped(n.left, leaf) && Shaped(n.right, leaf)
    requires Height(n.left) == Height(n.right) + 2 && Balance(n.left) == 1
    ensures Shaped(RotateRight(n.(left := RotateLeft(n.left))), leaf)
    ensures Height(RotateRight(n.(left := RotateLeft(n.left)))) == Height(n.left)
  {
  }

  /** The mirror image of `LeftRightRebalances`. */
  lemma RightLeftRebalances<V>(n: Tree<V>, leaf: nat)
    requires leaf <= 1 && n.Node? && n.right.Node? && n.right.left.Node?
    requires Shaped(n.left, leaf) && Shaped(n.right, leaf)
    requires Height(n.right) == Height(n.left) + 2 && Balance(n.right) == -1
    ensures Shaped(RotateLeft(n.(right := RotateRight(n.right))), leaf)
    ensures Height(RotateLeft(n.(right := RotateRight(n.right)))) == Height(n.right)
  {
  }

  // ---------------------------------------------------------------- insertion

  /** A subtree returned by a fixup, with the number of rotations it took. */
  datatype Fixed<V> = Fixed(tree: Tree<V>, rotations: nat)

  /** What `_insert` returns, with whether `_size` was incremented and how many
      rotations were made on the way back up. */
  datatype Inserted<V> = Inserted(tree: Tree<V>, added: bool, rotations: nat)

  /**
   * `_fixup_node(node, key)`: recompute the node's height, then rotate only when
   * the balance factor is below -1 or above 1, choosing a single or a double
   * rotation by comparing the inserted key with the heavy child's key.  The
   * double rotations lift a grandchild that insertion always provides
   * (`InsertLeftCanFix`); should it be missing, the model rotates once.
   */
  function FixupNode<V>(n: Tree<V>, k: int): (r: Fixed<V>)
    requires n.Node?
    ensures Elements(r.tree) == Elements(n) && Keys(r.tree) == Keys(n) && Content(r.tree) == Content(n)
    ensures Ordered(n) ==> Ordered(r.tree)
    ensures r.rotations <= 2
    ensures r.rotations == 0 <==> !((Balance(n) < -1 && k != n.left.key) || (Balance(n) > 1 && k != n.right.key))
    ensures r.rotations == 0 ==> r.tree == Recomputed(n)
    ensures r.rotations == 2 <==>
              (Balance(n) < -1 && n.left.key < k && n.left.right.Node?) ||
              (Balance(n) > 1 && k < n.right.key && n.right.left.Node?)
  {
    var m := Recomputed(n);
    if Balance(m) < -1 && k != m.left.key then LeftHeavyInsertFixup(m, k)
    else if Balance(m) > 1 && k != m.right.key then RightHeavyInsertFixup(m, k)
    else Fixed(m, 0)
  }

  /** The rotations of `_fixup_node` for a left-heavy node: a single right
      rotation when `k` went into the left child's left subtree, a left-right
      double rotation when it went into its right subtree. */
  function LeftHeavyInsertFixup<V>(m: Tree<V>, k: int): (r: Fixed<V>)
    requires m.Node? && Balance(m) < -1 && k != m.left.key
    ensures Elements(r.tree) == Elements(m) && Keys(r.tree) == Keys(m) && Content(r.tree) == Content(m)
    ensures Ordered(m) ==> Ordered(r.tree)
    ensures r.rotations == (if m.left.key < k && m.left.right.Node? then 2 else 1)
  {
    if k < m.left.key || m.left.right.Nil? then
      RotateRightKeepsOrder(m);
      Fixed(RotateRight(m), 1)
    else
      var l := RotateLeft(m.left);
      RotateLeftKeepsOrder(m.left);
      RotateRightKeepsOrder(m.(left := l));
      Fixed(RotateRight(m.(left := l)), 2)
  }

  /** The mirror image of `LeftHeavyInsertFixup`. */
  function RightHeavyInsertFixup<V>(m: Tree<V>, k: int): (r: Fixed<V>)
    requires m.Node? && Balance(m) > 1 && k != m.right.key
    ensures Elements(r.tree) == Elements(m) && Keys(r.tree) == Keys(m) && Content(r.tree) == Content(m)
    ensures Ordered(m) ==> Ordered(r.tree)
    ensures r.rotations == (if k < m.right.key && m.right.left.Node? then 2 else 1)
  {
    if m.right.key < k || m.right.left.Nil? then
      RotateLeftKeepsOrder(m);
      Fixed(RotateLeft(m), 1)
    else
      var r := RotateRight(m.right);
      RotateRightKeepsOrder(m.right);
      RotateLeftKeepsOrder(m.(right := r));
      Fixed(RotateLeft(m.(right := r)), 2)
  }

  /** Everything `InsertInto` promises about `r` as the result of inserting (k, v)
      into `t`. */
  ghost predicate InsertedCorrectly<V>(t: Tree<V>, k: int, v: V, r: Inserted<V>)
    requires Ordered(t) && IsAVL(t)
  {
    Ordered(r.tree) && IsAVL(r.tree) && r.tree.Node? &&
    (r.added <==> k !in Keys(t)) &&
    Keys(r.tree) == Keys(t) + {k} &&
    Content(r.tree) == (if r.added then Content(t)[k := v] else Content(t)) &&
    (!r.added ==> r.tree == t && r.rotations == 0) &&
    Height(t) <= Height(r.tree) <= Height(t) + 1 &&
    (Height(r.tree) == Height(t) + 1 ==>
       Height(r.tree) == 1 ||
       (k < r.tree.key && Balance(r.tree) == -1) ||
       (r.tree.key < k && Balance(r.tree) == 1))
  }

  /**
   * `_insert(node, key, value)`.  An absent key is stored in a new node and
   * counted; a key already present leaves the subtree, and so its value,
   * untouched.  Every node on the way back gets `_fixup_node`, so the result is
   * again an AVL search tree whose height grew by at most one; when it grew,
   * the new key lies on the side that became one higher (or the result is a
   * single level), which is what lets the caller's fixup choose its rotation.
   */
  function InsertInto<V>(t: Tree<V>, k: int, v: V): Inserted<V>
    decreases t
  {
    match t
    case Nil => Inserted(NewNode(k, v), true, 0)
    case Node(x, _, l, rt, _) =>
      if k == x then
        Inserted(t, false, 0)
      else if k < x then
        var s := InsertInto(l, k, v);
        var f := FixupNode(t.(left := s.tree), k);
        Inserted(f.tree, s.added, s.rotations + f.rotations)
      else
        var s := InsertInto(rt, k, v);
        var f := FixupNode(t.(right := s.tree), k);
        Inserted(f.tree, s.added, s.rotations + f.rotations)
  }

  /** What `_insert` achieves on an AVL search tree, by induction on the tree:
      each step back up is `InsertedLeft` or `InsertedRight`. */
  lemma {:induction false} InsertIntoCorrect<V>(t: Tree<V>, k: int, v: V)
    requires Ordered(t) && IsAVL(t)
    ensures InsertedCorrectly(t, k, v, InsertInto(t, k, v))
    decreases t
  {
    match t
    case Nil =>
    case Node(x, _, l, rt, _) =>
      if k < x {
        InsertIntoCorrect(l, k, v);
        InsertStepLeft(t, k, v);
      } else if x < k {
        InsertIntoCorrect(rt, k, v);
        InsertStepRight(t, k, v);
      }
  }

  /** One step of `_insert` to the left: what the recursive call achieves on the
      left child, the fixup turns into the same for the node. */
  lemma InsertStepLeft<V>(t: Tree<V>, k: int, v: V)
    requires t.Node? && Ordered(t) && IsAVL(t) && k < t.key
    requires Ordered(t.left) && IsAVL(t.left) && InsertedCorrectly(t.left, k, v, InsertInto(t.left, k, v))
    ensures InsertedCorrectly(t, k, v, InsertInto(t, k, v))
  {
    var s := InsertInto(t.left, k, v);
    InsertLeftCanFix(t, k, v, s);
    var f := FixupNode(t.(left := s.tree), k);
    InsertedLeft(t, k, v, s, f);
    assert InsertInto(t, k, v) == Inserted(f.tree, s.added, s.rotations + f.rotations);
  }

  /** One step of `_insert` to the right. */
  lemma InsertStepRight<V>(t: Tree<V>, k: int, v: V)
    requires t.Node? && Ordered(t) && IsAVL(t) && t.key < k
    requires Ordered(t.right) && IsAVL(t.right) && InsertedCorrectly(t.right, k, v, InsertInto(t.right, k, v))
    ensures InsertedCorrectly(t, k, v, InsertInto(t, k, v))
  {
    var s := InsertInto(t.right, k, v);
    InsertRightCanFix(t, k, v, s);
    var f := FixupNode(t.(right := s.tree), k);
    InsertedRight(t, k, v, s, f);
    assert InsertInto(t, k, v) == Inserted(f.tree, s.added, s.rotations + f.rotations);
  }

  /** After an insertion on the left, `_fixup_node` finds the child pointers it
      dereferences. */
  lemma InsertLeftCanFix<V>(t: Tree<V>, k: int, v: V, s: Inserted<V>)
    requires t.Node? && Ordered(t) && IsAVL(t) && k < t.key
    requires Ordered(t.left) && IsAVL(t.left) && InsertedCorrectly(t.left, k, v, s)
    ensures var n := t.(left := s.tree);
            (Balance(n) < -1 && n.left.key < k ==> n.left.right.Node?) &&
            (Balance(n) > 1 ==> false)
  {
    assert k in Keys(s.tree);
  }

  /** After an insertion on the right, `_fixup_node` finds the child pointers it
      dereferences. */
  lemma InsertRightCanFix<V>(t: Tree<V>, k: int, v: V, s: Inserted<V>)
    requires t.Node? && Ordered(t) && IsAVL(t) && t.key < k
    requires Ordered(t.right) && IsAVL(t.right) && InsertedCorrectly(t.right, k, v, s)
    ensures var n := t.(right := s.tree);
            (Balance(n) > 1 && k < n.right.key ==> n.right.left.Node?) &&
            (Balance(n) < -1 ==> false)
  {
    assert k in Keys(s.tree);
  }

  /** Updating the left part of a union at a key the other parts lack updates
      the union. */
  lemma UpdateLeft<V>(a: map<int, V>, b: map<int, V>, c: map<int, V>, k: int, v: V)
    requires k !in b && k !in c
    ensures a[k := v] + b + c == (a + b + c)[k := v]
  {
  }

  /** Updating the right part of a union updates the union. */
  lemma UpdateRight<V>(a: map<int, V>, b: map<int, V>, c: map<int, V>, k: int, v: V)
    ensures a + b + c[k := v] == (a + b + c)[k := v]
  {
  }

  /** `InsertedCorrectly` for a key already there: the tree is kept. */
  lemma KeptParts<V>(t: Tree<V>, k: int, v: V, r: Inserted<V>)
    requires Ordered(t) && IsAVL(t) && t.Node? && k in Keys(t)
    requires r == Inserted(t, false, 0)
    ensures InsertedCorrectly(t, k, v, r)
  {
  }

  /** The fixup leaves a node of an AVL tree as it is. */
  lemma FixupBalanced<V>(t: Tree<V>, k: int)
    requires t.Node? && IsAVL(t)
    ensures FixupNode(t, k) == Fixed(t, 0)
  {
    AVLHeightEquation(t);
  }

  /** The step of `InsertInto` that descends to the left and fixes the node up. */
  lemma InsertedLeft<V>(t: Tree<V>, k: int, v: V, s: Inserted<V>, f: Fixed<V>)
    requires t.Node? && Ordered(t) && IsAVL(t) && k < t.key
    requires Ordered(t.left) && IsAVL(t.left) && InsertedCorrectly(t.left, k, v, s)
    requires f == FixupNode(t.(left := s.tree), k)
    ensures InsertedCorrectly(t, k, v, Inserted(f.tree, s.added, s.rotations + f.rotations))
  {
    if s.added {
      InsertedLeftNew(t, k, v, s, f);
    } else {
      assert t.(left := s.tree) == t;
      FixupBalanced(t, k);
      KeptParts(t, k, v, Inserted(f.tree, s.added, s.rotations + f.rotations));
    }
  }

  /** `InsertedLeft` for a key that was not in the left subtree. */
  lemma InsertedLeftNew<V>(t: Tree<V>, k: int, v: V, s: Inserted<V>, f: Fixed<V>)
    requires t.Node? && Ordered(t) && IsAVL(t) && k < t.key
    requires Ordered(t.left) && IsAVL(t.left) && InsertedCorrectly(t.left, k, v, s) && s.added
    requires f == FixupNode(t.(left := s.tree), k)
    ensures InsertedCorrectly(t, k, v, Inserted(f.tree, s.added, s.rotations + f.rotations))
  {
    InsertedLeftContent(t, k, v, s.tree, s.added, f);
    InsertedLeftShape(t, k, s.tree, f);
  }

  /** The order and contents half of `InsertedLeft`. */
  lemma InsertedLeftContent<V>(t: Tree<V>, k: int, v: V, s: Tree<V>, added: bool, f: Fixed<V>)
    requires t.Node? && Ordered(t) && k < t.key && Ordered(s) && s.Node?
    requires Keys(s) == Keys(t.left) + {k}
    requires Content(s) == if added then Content(t.left)[k := v] else Content(t.left)
    requires added <==> k !in Keys(t.left)
    requires s.key < k ==> s.right.Node?
    requires Height(t.left) <= Height(s) <= Height(t.left) + 1
    requires IsAVL(t) && IsAVL(s)
    requires f == FixupNode(t.(left := s), k)
    ensures Ordered(f.tree) && Keys(f.tree) == Keys(t) + {k}
    ensures added <==> k !in Keys(t)
    ensures Content(f.tree) == if added then Content(t)[k := v] else Content(t)
  {
    ReplacedLeft(t, k, v, s, added);
  }

  /** Putting the grown subtree back in place of the left child. */
  lemma ReplacedLeft<V>(t: Tree<V>, k: int, v: V, s: Tree<V>, added: bool)
    requires t.Node? && Ordered(t) && k < t.key && Ordered(s)
    requires Keys(s) == Keys(t.left) + {k}
    requires Content(s) == if added then Content(t.left)[k := v] else Content(t.left)
    requires added <==> k !in Keys(t.left)
    ensures Ordered(t.(left := s)) && Keys(t.(left := s)) == Keys(t) + {k}
    ensures added <==> k !in Keys(t)
    ensures Content(t.(left := s)) == if added then Content(t)[k := v] else Content(t)
  {
    if added {
      UpdateLeft(Content(t.left), map[t.key := t.value], Content(t.right), k, v);
    }
  }

  /** The height half of `InsertedLeft`. */
  lemma InsertedLeftShape<V>(t: Tree<V>, k: int, s: Tree<V>, f: Fixed<V>)
    requires t.Node? && IsAVL(t) && k < t.key && IsAVL(s) && s.Node?
    requires Height(t.left) <= Height(s) <= Height(t.left) + 1
    requires Height(s) == Height(t.left) + 1 ==>
               Height(s) == 1 || (k < s.key && Balance(s) == -1) || (s.key < k && Balance(s) == 1)
    requires s.key < k ==> s.right.Node?
    requires f == FixupNode(t.(left := s), k)
    ensures IsAVL(f.tree) && Height(t) <= Height(f.tree) <= Height(t) + 1
    ensures Height(f.tree) == Height(t) + 1 ==> f.tree.key == t.key && Balance(f.tree) == -1
  {
    var n := t.(left := s);
    var m := Recomputed(n);
    AVLHeightsExact(t);
    if Balance(n) < -1 {
      if k < s.key {
        RotateRightRebalances(m, 1);
      } else {
        LeftRightRebalances(m, 1);
      }
    }
  }

  /** The step of `InsertInto` that descends to the right and fixes the node up. */
  lemma InsertedRight<V>(t: Tree<V>, k: int, v: V, s: Inserted<V>, f: Fixed<V>)
    requires t.Node? && Ordered(t) && IsAVL(t) && t.key < k
    requires Ordered(t.right) && IsAVL(t.right) && InsertedCorrectly(t.right, k, v, s)
    requires f == FixupNode(t.(right := s.tree), k)
    ensures InsertedCorrectly(t, k, v, Inserted(f.tree, s.added, s.rotations + f.rotations))
  {
    if s.added {
      InsertedRightNew(t, k, v, s, f);
    } else {
      assert t.(right := s.tree) == t;
      FixupBalanced(t, k);
      KeptParts(t, k, v, Inserted(f.tree, s.added, s.rotations + f.rotations));
    }
  }

  /** `InsertedRight` for a key that was not in the right subtree. */
  lemma InsertedRightNew<V>(t: Tree<V>, k: int, v: V, s: Inserted<V>, f: Fixed<V>)
    requires t.Node? && Ordered(t) && IsAVL(t) && t.key < k
    requires Ordered(t.right) && IsAVL(t.right) && InsertedCorrectly(t.right, k, v, s) && s.added
    requires f == FixupNode(t.(right := s.tree), k)
    ensures InsertedCorrectly(t, k, v, Inserted(f.tree, s.added, s.rotations + f.rotations))
  {
    InsertedRightContent(t, k, v, s.tree, s.added, f);
    InsertedRightShape(t, k, s.tree, f);
  }

  /** The order and contents half of `InsertedRight`. */
  lemma InsertedRightContent<V>(t: Tree<V>, k: int, v: V, s: Tree<V>, added: bool, f: Fixed<V>)
    requires t.Node? && Ordered(t) && t.key < k && Ordered(s) && s.Node?
    requires Keys(s) == Keys(t.right) + {k}
    requires Content(s) == if added then Content(t.right)[k := v] else Content(t.right)
    requires added <==> k !in Keys(t.right)
    requires k < s.key ==> s.left.Node?
    requires Height(t.right) <= Height(s) <= Height(t.right) + 1
    requires IsAVL(t) && IsAVL(s)
    requires f == FixupNode(t.(right := s), k)
    ensures Ordered(f.tree) && Keys(f.tree) == Keys(t) + {k}
    ensures added <==> k !in Keys(t)
    ensures Content(f.tree) == if added then Content(t)[k := v] else Content(t)
  {
    ReplacedRight(t, k, v, s, added);
  }

  /** Putting the grown subtree back in place of the right child. */
  lemma ReplacedRight<V>(t: Tree<V>, k: int, v: V, s: Tree<V>, added: bool)
    requires t.Node? && Ordered(t) && t.key < k && Ordered(s)
    requires Keys(s) == Keys(t.right) + {k}
    requires Content(s) == if added then Content(t.right)[k := v] else Content(t.right)
    requires added <==> k !in Keys(t.right)
    ensures Ordered(t.(right := s)) && Keys(t.(right := s)) == Keys(t) + {k}
    ensures added <==> k !in Keys(t)
    ensures Content(t.(right := s)) == if added then Content(t)[k := v] else Content(t)
  {
    if added {
      UpdateRight(Content(t.left), map[t.key := t.value], Content(t.right), k, v);
    }
  }

  /** The height half of `InsertedRight`. */
  lemma InsertedRightShape<V>(t: Tree<V>, k: int, s: Tree<V>, f: Fixed<V>)
    requires t.Node? && IsAVL(t) && t.key < k && IsAVL(s) && s.Node?
    requires Height(t.right) <= Height(s) <= Height(t.right) + 1
    requires Height(s) == Height(t.right) + 1 ==>
               Height(s) == 1 || (k < s.key && Balance(s) == -1) || (s.key < k && Balance(s) == 1)
    requires k < s.key ==> s.left.Node?
    requires f == FixupNode(t.(right := s), k)
    ensures IsAVL(f.tree) && Height(t) <= Height(f.tree) <= Height(t) + 1
    ensures Height(f.tree) == Height(t) + 1 ==> f.tree.key == t.key && Balance(f.tree) == 1
  {
    var n := t.(right := s);
    var m := Recomputed(n);
    AVLHeightsExact(t);
    if Balance(n) > 1 {
      if s.key < k {
        RotateLeftRebalances(m, 1);
      } else {
        RightLeftRebalances(m, 1);
      }
    }
  }

  // ----------------------------------------------------------------- deletion

  /** In this file's AVL trees the stored height of a node is the height
      equation, so recomputing it changes nothing. */
  lemma AVLHeightEquation<V>(t: Tree<V>)
    requires IsAVL(t) && t.Node?
    ensures Height(t) == 1 + Max(Height(t.left), Height(t.right))
    ensures Recomputed(t) == t
  {
  }

  /**
   * `_fixup_deletion(node)`: nothing for an absent node; otherwise recompute the
   * height and rotate when the balance factor is below -1 or above 1, choosing a
   * single or a double rotation by the balance factor of the heavy child.
   */
  function FixupDeletion<V>(n: Tree<V>): (r: Fixed<V>)
    ensures Elements(r.tree) == Elements(n) && Keys(r.tree) == Keys(n) && Content(r.tree) == Content(n)
    ensures Ordered(n) ==> Ordered(r.tree)
    ensures n.Nil? ==> r == Fixed(Nil, 0)
    ensures r.rotations <= 2
    ensures r.rotations == 0 <==> n.Nil? || -1 <= Balance(n) <= 1
    ensures r.rotations == 0 && n.Node? ==> r.tree == Recomputed(n)
    ensures r.rotations == 2 <==>
              n.Node? && ((Balance(n) < -1 && Balance(n.left) > 0) || (Balance(n) > 1 && Balance(n.right) < 0))
  {
    if n.Nil? then Fixed(Nil, 0)
    else
      var m := Recomputed(n);
      if Balance(m) < -1 then LeftHeavyFixup(m)
      else if Balance(m) > 1 then RightHeavyFixup(m)
      else Fixed(m, 0)
  }

  /** The branch of `_fixup_deletion` for a node whose left side is too high. */
  function LeftHeavyFixup<V>(m: Tree<V>): (r: Fixed<V>)
    requires m.Node? && Balance(m) < -1
    ensures Elements(r.tree) == Elements(m) && Keys(r.tree) == Keys(m) && Content(r.tree) == Content(m)
    ensures Ordered(m) ==> Ordered(r.tree)
    ensures r.rotations == (if Balance(m.left) <= 0 then 1 else 2)
  {
    if Balance(m.left) <= 0 then
      RotateRightKeepsOrder(m);
      Fixed(RotateRight(m), 1)
    else
      var l := RotateLeft(m.left);
      RotateLeftKeepsOrder(m.left);
      RotateRightKeepsOrder(m.(left := l));
      Fixed(RotateRight(m.(left := l)), 2)
  }

  /** The branch of `_fixup_deletion` for a node whose right side is too high. */
  function RightHeavyFixup<V>(m: Tree<V>): (r: Fixed<V>)
    requires m.Node? && Balance(m) > 1
    ensures Elements(r.tree) == Elements(m) && Keys(r.tree) == Keys(m) && Content(r.tree) == Content(m)
    ensures Ordered(m) ==> Ordered(r.tree)
    ensures r.rotations == (if Balance(m.right) >= 0 then 1 else 2)
  {
    if Balance(m.right) >= 0 then
      RotateLeftKeepsOrder(m);
      Fixed(RotateLeft(m), 1)
    else
      var r := RotateRight(m.right);
      RotateRightKeepsOrder(m.right);
      RotateLeftKeepsOrder(m.(right := r));
      Fixed(RotateLeft(m.(right := r)), 2)
  }

  /** `_fixup_deletion` turns a node whose AVL children differ in height by at
      most two into an AVL tree at most one lower than the recomputed node. */
  lemma FixupDeletionRebalances<V>(n: Tree<V>)
    requires n.Node? && IsAVL(n.left) && IsAVL(n.right) && -2 <= Balance(n) <= 2
    ensures IsAVL(FixupDeletion(n).tree)
    ensures Height(Recomputed(n)) - 1 <= Height(FixupDeletion(n).tree) <= Height(Recomputed(n))
  {
    var m := Recomputed(n);
    if Balance(m) == -2 {
      if Balance(m.left) <= 0 {
        RotateRightRebalances(m, 1);
      } else {
        LeftRightRebalances(m, 1);
      }
    } else if Balance(m) == 2 {
      if Balance(m.right) >= 0 {
        RotateLeftRebalances(m, 1);
      } else {
        RightLeftRebalances(m, 1);
      }
    }
  }

  /** What `_remove_successor` hands back: the subtree without its leftmost
      node, that node's key and value (copied into the node being erased), and
      the rotations made. */
  datatype Successor<V> = Successor(tree: Tree<V>, key: int, value: V, rotations: nat)

  /**
   * `_remove_successor(node, successor)` on the right subtree `s` of the node
   * being erased: unlink the leftmost node of `s`, fixing up every node on the
   * way back.  The leftmost pair is returned; it is the first pair of the
   * in-order sequence, and the rest of the sequence is the new subtree.
   */
  function RemoveSuccessor<V>(s: Tree<V>): (r: Successor<V>)
    requires s.Node?
    ensures Elements(s) == [(r.key, r.value)] + Elements(r.tree)
    ensures Keys(s) == Keys(r.tree) + {r.key}
    ensures Content(s) == map[r.key := r.value] + Content(r.tree)
    ensures Ordered(s) ==> Ordered(r.tree) && r.key !in Keys(r.tree) && (forall j :: j in Keys(r.tree) ==> r.key < j)
    ensures IsAVL(s) ==> IsAVL(r.tree) && Height(s) - 1 <= Height(r.tree) <= Height(s)
    decreases s
  {
    if s.left.Nil? then
      Successor(s.right, s.key, s.value, 0)
    else
      var m := RemoveSuccessor(s.left);
      var f := FixupDeletion(s.(left := m.tree));
      RemovedSuccessorFacts(s, m, f);
      Successor(f.tree, m.key, m.value, m.rotations + f.rotations)
  }

  /** The step of `RemoveSuccessor` that descends to the left. */
  lemma RemovedSuccessorFacts<V>(s: Tree<V>, m: Successor<V>, f: Fixed<V>)
    requires s.Node? && s.left.Node?
    requires Elements(s.left) == [(m.key, m.value)] + Elements(m.tree)
    requires Keys(s.left) == Keys(m.tree) + {m.key}
    requires Content(s.left) == map[m.key := m.value] + Content(m.tree)
    requires Ordered(s.left) ==> Ordered(m.tree) && m.key !in Keys(m.tree) && (forall j :: j in Keys(m.tree) ==> m.key < j)
    requires IsAVL(s.left) ==> IsAVL(m.tree) && Height(s.left) - 1 <= Height(m.tree) <= Height(s.left)
    requires f == FixupDeletion(s.(left := m.tree))
    ensures Elements(s) == [(m.key, m.value)] + Elements(f.tree)
    ensures Keys(s) == Keys(f.tree) + {m.key}
    ensures Content(s) == map[m.key := m.value] + Content(f.tree)
    ensures Ordered(s) ==> Ordered(f.tree) && m.key !in Keys(f.tree) && (forall j :: j in Keys(f.tree) ==> m.key < j)
    ensures IsAVL(s) ==> IsAVL(f.tree) && Height(s) - 1 <= Height(f.tree) <= Height(s)
  {
    var n := s.(left := m.tree);
    SuccessorSplit(s, m);
    if Ordered(s) {
      SuccessorOrder(s, m);
    }
    if IsAVL(s) {
      AVLHeightEquation(s);
      FixupDeletionRebalances(n);
    }
  }

  /** Unlinking the leftmost node of the left subtree splits off the first pair. */
  lemma SuccessorSplit<V>(s: Tree<V>, m: Successor<V>)
    requires s.Node? && s.left.Node?
    requires Elements(s.left) == [(m.key, m.value)] + Elements(m.tree)
    requires Keys(s.left) == Keys(m.tree) + {m.key}
    requires Content(s.left) == map[m.key := m.value] + Content(m.tree)
    ensures Elements(s) == [(m.key, m.value)] + Elements(s.(left := m.tree))
    ensures Keys(s) == Keys(s.(left := m.tree)) + {m.key}
    ensures Content(s) == map[m.key := m.value] + Content(s.(left := m.tree))
  {
    SuccessorSplitElements(s, m);
    SuccessorSplitContent(s, m);
  }

  /** The in-order half of `SuccessorSplit`. */
  lemma SuccessorSplitElements<V>(s: Tree<V>, m: Successor<V>)
    requires s.Node? && s.left.Node?
    requires Elements(s.left) == [(m.key, m.value)] + Elements(m.tree)
    ensures Elements(s) == [(m.key, m.value)] + Elements(s.(left := m.tree))
  {
    var n := s.(left := m.tree);
    assert Elements(s) == Elements(s.left) + [(s.key, s.value)] + Elements(s.right);
    assert Elements(n) == Elements(m.tree) + [(s.key, s.value)] + Elements(s.right);
  }

  /** The map half of `SuccessorSplit`. */
  lemma SuccessorSplitContent<V>(s: Tree<V>, m: Successor<V>)
    requires s.Node? && s.left.Node?
    requires Content(s.left) == map[m.key := m.value] + Content(m.tree)
    ensures Content(s) == map[m.key := m.value] + Content(s.(left := m.tree))
  {
    UnionFirst(map[m.key := m.value], Content(m.tree), map[s.key := s.value], Content(s.right));
  }

  /** Map union is associative. */
  lemma UnionFirst<V>(a: map<int, V>, b: map<int, V>, c: map<int, V>, d: map<int, V>)
    ensures (a + b) + c + d == a + (b + c + d)
  {
  }

  /** The leftmost key is below every key left behind, which stay ordered. */
  lemma SuccessorOrder<V>(s: Tree<V>, m: Successor<V>)
    requires s.Node? && s.left.Node? && Ordered(s)
    requires Keys(s.left) == Keys(m.tree) + {m.key}
    requires Ordered(m.tree) && m.key !in Keys(m.tree) && (forall j :: j in Keys(m.tree) ==> m.key < j)
    ensures Ordered(s.(left := m.tree))
    ensures m.key !in Keys(s.(left := m.tree))
    ensures forall j :: j in Keys(s.(left := m.tree)) ==> m.key < j
  {
    assert m.key in Keys(s.left);
  }

  /** What `_remove` returns, with whether `_size` was decremented and how many
      rotations were made. */
  datatype Removed<V> = Removed(tree: Tree<V>, removed: bool, rotations: nat)

  /** Everything `RemoveFrom` promises about `r` as the result of erasing `k` from
      `t`. */
  ghost predicate RemovedCorrectly<V>(t: Tree<V>, k: int, r: Removed<V>)
    requires Ordered(t) && IsAVL(t)
  {
    Ordered(r.tree) && IsAVL(r.tree) &&
    (r.removed <==> k in Keys(t)) &&
    Keys(r.tree) == Keys(t) - {k} &&
    Content(r.tree) == Content(t) - {k} &&
    (!r.removed ==> r.tree == t && r.rotations == 0) &&
    Height(t) - 1 <= Height(r.tree) <= Height(t)
  }

  /**
   * `_remove(node, key)`.  An absent key leaves every node as it was (the
   * fixups on the way back find nothing to do).  A present key is erased: a
   * node without a right child is replaced by its left child; otherwise it
   * takes over the key and value of its in-order successor, which is unlinked
   * from the right subtree.  The result is again an AVL search tree, at most
   * one lower, holding every other pair.
   */
  function RemoveFrom<V>(t: Tree<V>, k: int): Removed<V>
    decreases t
  {
    match t
    case Nil => Removed(Nil, false, 0)
    case Node(x, _, l, rt, h) =>
      if k < x then
        var s := RemoveFrom(l, k);
        var f := FixupDeletion(t.(left := s.tree));
        Removed(f.tree, s.removed, s.rotations + f.rotations)
      else if x < k then
        var s := RemoveFrom(rt, k);
        var f := FixupDeletion(t.(right := s.tree));
        Removed(f.tree, s.removed, s.rotations + f.rotations)
      else if rt.Nil? then
        Removed(l, true, 0)
      else
        var m := RemoveSuccessor(rt);
        var f := FixupDeletion(Node(m.key, m.value, l, m.tree, h));
        Removed(f.tree, true, m.rotations + f.rotations)
  }

  /** What `_remove` achieves on an AVL search tree, by induction on the tree:
      each step back up is one of the four cases below. */
  lemma {:induction false} RemoveFromCorrect<V>(t: Tree<V>, k: int)
    requires Ordered(t) && IsAVL(t)
    ensures RemovedCorrectly(t, k, RemoveFrom(t, k))
    decreases t
  {
    match t
    case Nil =>
    case Node(x, _, l, rt, h) =>
      if k < x {
        RemoveFromCorrect(l, k);
        var s := RemoveFrom(l, k);
        RemovedLeft(t, k, s, FixupDeletion(t.(left := s.tree)));
      } else if x < k {
        RemoveFromCorrect(rt, k);
        var s := RemoveFrom(rt, k);
        RemovedRight(t, k, s, FixupDeletion(t.(right := s.tree)));
      } else if rt.Nil? {
        RemovedWithoutRight(t);
      } else {
        var m := RemoveSuccessor(rt);
        RemovedBySuccessor(t, m, FixupDeletion(Node(m.key, m.value, l, m.tree, h)));
      }
  }

  /** Erasing from a map union a key only the first part holds. */
  lemma MinusFirst<V>(a: map<int, V>, b: map<int, V>, c: map<int, V>, k: int)
    requires k !in b && k !in c
    ensures (a + b + c) - {k} == (a - {k}) + b + c
  {
  }

  /** Erasing from a map union a key only the last part holds. */
  lemma MinusLast<V>(a: map<int, V>, b: map<int, V>, c: map<int, V>, k: int)
    requires k !in a && k !in b
    ensures (a + b + c) - {k} == a + b + (c - {k})
  {
  }

  /** Erasing from a map union a key only the middle part holds. */
  lemma MinusMiddle<V>(a: map<int, V>, b: map<int, V>, c: map<int, V>, k: int)
    requires k !in a && k !in c && b.Keys == {k}
    ensures (a + b + c) - {k} == a + c
  {
  }

  /** The node holding the key has no right child: its left child replaces it. */
  lemma RemovedWithoutRight<V>(t: Tree<V>)
    requires t.Node? && t.right.Nil? && Ordered(t) && IsAVL(t)
    ensures RemovedCorrectly(t, t.key, Removed(t.left, true, 0))
  {
    assert t.key !in Keys(t.left);
    MinusMiddle(Content(t.left), map[t.key := t.value], map[], t.key);
    assert Content(t.left) + map[] == Content(t.left);
  }

  /** The node holding the key is overwritten by its successor's pair. */
  lemma RemovedBySuccessor<V>(t: Tree<V>, m: Successor<V>, f: Fixed<V>)
    requires t.Node? && t.right.Node? && Ordered(t) && IsAVL(t)
    requires m == RemoveSuccessor(t.right)
    requires f == FixupDeletion(Node(m.key, m.value, t.left, m.tree, t.height))
    ensures RemovedCorrectly(t, t.key, Removed(f.tree, true, m.rotations + f.rotations))
  {
    RemovedBySuccessorContent(t, m);
    RemovedBySuccessorShape(t, m.key, m.value, m.tree, f);
  }

  /** Balance and height of the node overwritten by its successor's pair,
      once fixed up: at most one level lower than before. */
  lemma RemovedBySuccessorShape<V>(t: Tree<V>, k: int, v: V, rest: Tree<V>, f: Fixed<V>)
    requires t.Node? && t.right.Node? && IsAVL(t)
    requires IsAVL(rest) && Height(t.right) - 1 <= Height(rest) <= Height(t.right)
    requires f == FixupDeletion(Node(k, v, t.left, rest, t.height))
    ensures IsAVL(f.tree) && Height(t) - 1 <= Height(f.tree) <= Height(t)
  {
    AVLHeightEquation(t);
    FixupDeletionRebalances(Node(k, v, t.left, rest, t.height));
  }

  /** Order and contents of the node overwritten by its successor's pair. */
  lemma RemovedBySuccessorContent<V>(t: Tree<V>, m: Successor<V>)
    requires t.Node? && t.right.Node? && Ordered(t)
    requires m == RemoveSuccessor(t.right)
    ensures var n := Node(m.key, m.value, t.left, m.tree, t.height);
            Ordered(n) && Keys(n) == Keys(t) - {t.key} && Content(n) == Content(t) - {t.key}
  {
    SuccessorReplacesOrder(t, m);
    SuccessorReplacesContent(t, m);
  }

  /** The contents half of `RemovedBySuccessorContent`. */
  lemma SuccessorReplacesContent<V>(t: Tree<V>, m: Successor<V>)
    requires t.Node? && t.right.Node? && Ordered(t)
    requires Content(t.right) == map[m.key := m.value] + Content(m.tree)
    ensures Content(Node(m.key, m.value, t.left, m.tree, t.height)) == Content(t) - {t.key}
  {
    assert t.key !in Keys(t.left) && t.key !in Keys(t.right);
    MinusMiddle(Content(t.left), map[t.key := t.value], Content(t.right), t.key);
    UnionAssoc(Content(t.left), map[m.key := m.value], Content(m.tree));
  }

  /** Map union is associative (three parts). */
  lemma UnionAssoc<V>(a: map<int, V>, b: map<int, V>, c: map<int, V>)
    ensures a + (b + c) == a + b + c
  {
  }

  /** The successor's key fits between the left subtree and the rest of the
      right one. */
  lemma SuccessorReplacesOrder<V>(t: Tree<V>, m: Successor<V>)
    requires t.Node? && t.right.Node? && Ordered(t)
    requires m == RemoveSuccessor(t.right)
    ensures Ordered(Node(m.key, m.value, t.left, m.tree, t.height))
  {
    assert m.key in Keys(t.right);
  }

  /** The step of `RemoveFrom` that descends to the left and fixes the node up. */
  lemma RemovedLeft<V>(t: Tree<V>, k: int, s: Removed<V>, f: Fixed<V>)
    requires t.Node? && Ordered(t) && IsAVL(t) && k < t.key
    requires Ordered(t.left) && IsAVL(t.left) && RemovedCorrectly(t.left, k, s)
    requires f == FixupDeletion(t.(left := s.tree))
    ensures RemovedCorrectly(t, k, Removed(f.tree, s.removed, s.rotations + f.rotations))
  {
    ReplacedLeftRemoved(t, k, s.tree);
    RemovedLeftShape(t, s.tree, f);
  }

  /** Order and contents after erasing from the left subtree. */
  lemma ReplacedLeftRemoved<V>(t: Tree<V>, k: int, s: Tree<V>)
    requires t.Node? && Ordered(t) && k < t.key && Ordered(s)
    requires Keys(s) == Keys(t.left) - {k} && Content(s) == Content(t.left) - {k}
    ensures Ordered(t.(left := s)) && (k in Keys(t) <==> k in Keys(t.left))
    ensures Keys(t.(left := s)) == Keys(t) - {k} && Content(t.(left := s)) == Content(t) - {k}
  {
    assert k !in Keys(t.right);
    MinusFirst(Content(t.left), map[t.key := t.value], Content(t.right), k);
  }

  /** Heights after erasing from the left subtree. */
  lemma RemovedLeftShape<V>(t: Tree<V>, s: Tree<V>, f: Fixed<V>)
    requires t.Node? && IsAVL(t) && IsAVL(s) && Height(t.left) - 1 <= Height(s) <= Height(t.left)
    requires f == FixupDeletion(t.(left := s))
    ensures IsAVL(f.tree) && Height(t) - 1 <= Height(f.tree) <= Height(t)
    ensures s == t.left ==> f == Fixed(t, 0)
  {
    AVLHeightEquation(t);
    FixupDeletionRebalances(t.(left := s));
  }

  /** The step of `RemoveFrom` that descends to the right and fixes the node up. */
  lemma RemovedRight<V>(t: Tree<V>, k: int, s: Removed<V>, f: Fixed<V>)
    requires t.Node? && Ordered(t) && IsAVL(t) && t.key < k
    requires Ordered(t.right) && IsAVL(t.right) && RemovedCorrectly(t.right, k, s)
    requires f == FixupDeletion(t.(right := s.tree))
    ensures RemovedCorrectly(t, k, Removed(f.tree, s.removed, s.rotations + f.rotations))
  {
    ReplacedRightRemoved(t, k, s.tree);
    RemovedRightShape(t, s.tree, f);
  }

  /** Order and contents after erasing from the right subtree. */
  lemma ReplacedRightRemoved<V>(t: Tree<V>, k: int, s: Tree<V>)
    requires t.Node? && Ordered(t) && t.key < k && Ordered(s)
    requires Keys(s) == Keys(t.right) - {k} && Content(s) == Content(t.right) - {k}
    ensures Ordered(t.(right := s)) && (k in Keys(t) <==> k in Keys(t.right))
    ensures Keys(t.(right := s)) == Keys(t) - {k} && Content(t.(right := s)) == Content(t) - {k}
  {
    assert k !in Keys(t.left);
    MinusLast(Content(t.left), map[t.key := t.value], Content(t.right), k);
  }

  /** Heights after erasing from the right subtree. */
  lemma RemovedRightShape<V>(t: Tree<V>, s: Tree<V>, f: Fixed<V>)
    requires t.Node? && IsAVL(t) && IsAVL(s) && Height(t.right) - 1 <= Height(s) <= Height(t.right)
    requires f == FixupDeletion(t.(right := s))
    ensures IsAVL(f.tree) && Height(t) - 1 <= Height(f.tree) <= Height(t)
    ensures s == t.right ==> f == Fixed(t, 0)
  {
    AVLHeightEquation(t);
    FixupDeletionRebalances(t.(right := s));
  }
}
