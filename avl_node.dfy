/**
 * The node of the AVL tree (include/AVLTree/AVLNode.hpp) and the meaning of a
 * subtree built from such nodes.  Keys are integers ordered by `<`, which stands
 * for the tree's strict total order; values are of any type.
 */
module AVLNode {
  /** A subtree: `Nil` is the null pointer; a `Node` holds a key, its value, both
      children and the height that the tree code stores in it. */
  datatype Tree<V> = Nil | Node(key: int, value: V, left: Tree<V>, right: Tree<V>, height: nat)

  /** The keys stored in a subtree. */
  function Keys<V>(t: Tree<V>): set<int>
  {
    match t
    case Nil => {}
    case Node(k, _, l, r, _) => Keys(l) + {k} + Keys(r)
  }

  /** The key/value pairs of a subtree in in-order (left, node, right). */
  function Elements<V>(t: Tree<V>): seq<(int, V)>
  {
    match t
    case Nil => []
    case Node(k, v, l, r, _) => Elements(l) + [(k, v)] + Elements(r)
  }

  /** The key -> value map a subtree represents. */
  function Content<V>(t: Tree<V>): (m: map<int, V>)
    ensures m.Keys == Keys(t)
  {
    match t
    case Nil => map[]
    case Node(k, v, l, r, _) => Content(l) + map[k := v] + Content(r)
  }

  /** Binary-search-tree order: every key on the left is smaller than the node's
      key and every key on the right is larger. */
  ghost predicate Ordered<V>(t: Tree<V>)
  {
    match t
    case Nil => true
    case Node(k, _, l, r, _) =>
      Ordered(l) && Ordered(r) &&
      (forall j :: j in Keys(l) ==> j < k) &&
      (forall j :: j in Keys(r) ==> k < j)
  }

  /** A sequence of pairs whose keys strictly increase. */
  ghost predicate Ascending<V>(s: seq<(int, V)>)
  {
    forall i, j :: 0 <= i < j < |s| ==> s[i].0 < s[j].0
  }

  /** The constructor `AVLNode(key, value)`: a leaf of height 1. */
  function NewNode<V>(k: int, v: V): (n: Tree<V>)
    ensures n.Node? && n.left.Nil? && n.right.Nil? && n.height == 1
    ensures Content(n) == map[k := v] && Elements(n) == [(k, v)]
  {
    Node(k, v, Nil, Nil, 1)
  }

  /** A pair occurs in the in-order sequence exactly when the map holds it. */
  lemma {:induction false} ElementsAreContent<V>(t: Tree<V>, k: int, v: V)
    requires Ordered(t)
    ensures (k, v) in Elements(t) <==> k in Content(t) && Content(t)[k] == v
  {
    match t
    case Nil =>
    case Node(x, xv, l, r, _) =>
      ElementsAreContent(l, k, v);
      ElementsAreContent(r, k, v);
      assert Elements(t) == Elements(l) + [(x, xv)] + Elements(r);
      if (k, v) in Elements(l) {
        assert k in Keys(l);
      }
      if (k, v) in Elements(r) {
        assert k in Keys(r);
      }
  }

  /** The keys of the in-order sequence are exactly the keys of the subtree. */
  lemma {:induction false} ElementKeys<V>(t: Tree<V>, i: int)
    requires 0 <= i < |Elements(t)|
    ensures Elements(t)[i].0 in Keys(t)
  {
    match t
    case Node(x, xv, l, r, _) =>
      if i < |Elements(l)| {
        ElementKeys(l, i);
      } else if i > |Elements(l)| {
        ElementKeys(r, i - |Elements(l)| - 1);
      }
  }

  /** In an ordered subtree the in-order sequence is ascending. */
  lemma {:induction false} OrderedIsAscending<V>(t: Tree<V>)
    requires Ordered(t)
    ensures Ascending(Elements(t))
  {
    match t
    case Nil =>
    case Node(x, xv, l, r, _) =>
      OrderedIsAscending(l);
      OrderedIsAscending(r);
      var s := Elements(t);
      var nl := |Elements(l)|;
      forall i, j | 0 <= i < j < |s| ensures s[i].0 < s[j].0 {
        if i < nl { ElementKeys(l, i); }
        if j > nl { ElementKeys(r, j - nl - 1); }
        if i > nl { ElementKeys(r, i - nl - 1); }
        if j < nl { ElementKeys(l, j); }
      }
  }

  /** Every key of a subtree occurs in its in-order sequence. */
  lemma {:induction false} KeyInElements<V>(t: Tree<V>, j: int) returns (i: nat)
    requires j in Keys(t)
    ensures i < |Elements(t)| && Elements(t)[i].0 == j
  {
    match t
    case Node(x, xv, l, r, _) =>
      if j in Keys(l) {
        i := KeyInElements(l, j);
      } else if j == x {
        i := |Elements(l)|;
      } else {
        var i' := KeyInElements(r, j);
        i := |Elements(l)| + 1 + i';
      }
  }

  /** The number of nodes of a subtree. */
  function Count<V>(t: Tree<V>): nat
  {
    match t
    case Nil => 0
    case Node(_, _, l, r, _) => Count(l) + 1 + Count(r)
  }

  /** In a search tree the keys are distinct, so there are as many keys as
      nodes. */
  lemma {:induction false} CountIsKeys<V>(t: Tree<V>)
    requires Ordered(t)
    ensures |Keys(t)| == Count(t)
  {
    match t
    case Nil =>
    case Node(k, _, l, r, _) =>
      CountIsKeys(l);
      CountIsKeys(r);
      assert Keys(l) !! {k};
      forall j | j in Keys(r)
        ensures j !in Keys(l) + {k}
      {
        assert k < j;
      }
  }
}
