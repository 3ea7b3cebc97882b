/**
 * The stack-based in-order iterator of include/AVLTree/AVLTreeIterator.hpp.
 * The iterator holds the node it stands on and a stack of nodes still to be
 * visited (the top is the last element of `stack`); what it will still produce
 * is `Remaining()`, the pairs of the current node and its right subtree
 * followed by those the stacked nodes stand for.
 */
module AVLIterator {
  import opened AVLNode
  import opened Results

  /** The `std::runtime_error` thrown by the (root, key) constructor. */
  datatype IteratorError = NodeNotFound

  /** What a stacked (or current) node still stands for when it is popped: its
      own pair, then its right subtree in order. */
  function Visit<V>(n: Tree<V>): (s: seq<(int, V)>)
    ensures n.Nil? <==> s == []
  {
    if n.Nil? then [] else [(n.key, n.value)] + Elements(n.right)
  }

  /** The pairs the stacked nodes stand for, from the top of the stack down. */
  function Pending<V>(stack: seq<Tree<V>>): seq<(int, V)>
    decreases |stack|
  {
    if |stack| == 0 then [] else Visit(stack[|stack| - 1]) + Pending(stack[..|stack| - 1])
  }

  /** The nodes `push_left(node)` pushes: `node`, its left child, that node's
      left child, and so on down the left spine. */
  function LeftSpine<V>(n: Tree<V>): (s: seq<Tree<V>>)
    ensures forall i :: 0 <= i < |s| ==> s[i].Node?
    ensures n.Nil? <==> s == []
  {
    if n.Nil? then [] else [n] + LeftSpine(n.left)
  }

  /** Pushing one node puts what it stands for in front of the rest. */
  lemma PendingPush<V>(stack: seq<Tree<V>>, n: Tree<V>)
    ensures Pending(stack + [n]) == Visit(n) + Pending(stack)
  {
    assert (stack + [n])[..|stack|] == stack;
  }

  /** Pushing the left spine of a subtree puts the whole subtree, in order, in
      front of what the stack stood for before. */
  lemma {:induction false} PendingSpine<V>(stack: seq<Tree<V>>, n: Tree<V>)
    ensures Pending(stack + LeftSpine(n)) == Elements(n) + Pending(stack)
    decreases n
  {
    if n.Node? {
      SpineUnfolds(stack, n);
      PendingSpine(stack + [n], n.left);
      PendingPush(stack, n);
      ElementsUnfold(n);
    } else {
      assert stack + LeftSpine(n) == stack;
    }
  }

  /** The left spine of a node is the node, then the left spine of its left
      child. */
  lemma SpineUnfolds<V>(stack: seq<Tree<V>>, n: Tree<V>)
    requires n.Node?
    ensures stack + LeftSpine(n) == (stack + [n]) + LeftSpine(n.left)
  {
  }

  /** The in-order sequence of a node is its left subtree's, then what the node
      stands for on the stack. */
  lemma ElementsUnfold<V>(n: Tree<V>)
    requires n.Node?
    ensures Elements(n) == Elements(n.left) + Visit(n)
  {
  }

  /** The stack `operator++` pops from stands for everything but the pair
      just produced. */
  lemma NextDropsHead<V>(c: Tree<V>, stack: seq<Tree<V>>)
    requires c.Node?
    ensures Pending(stack + LeftSpine(c.right)) == (Visit(c) + Pending(stack))[1..]
  {
    PendingSpine(stack, c.right);
    VisitDropsHead(c, Pending(stack));
  }

  /** Past its own pair, a node stands for its right subtree. */
  lemma VisitDropsHead<V>(c: Tree<V>, rest: seq<(int, V)>)
    requires c.Node?
    ensures (Visit(c) + rest)[1..] == Elements(c.right) + rest
  {
    assert Visit(c) + rest == [(c.key, c.value)] + (Elements(c.right) + rest);
  }

  /** The nodes the search loop of the (root, key) and (root, cur) constructors
      pushes: every node on the way from the root down to the node holding `key`,
      that node included when it is reached. */
  function SearchPath<V>(root: Tree<V>, key: int): (s: seq<Tree<V>>)
    ensures forall i :: 0 <= i < |s| ==> s[i].Node?
    decreases root
  {
    if root.Nil? then []
    else if root.key == key then [root]
    else if root.key > key then [root] + SearchPath(root.left, key)
    else [root] + SearchPath(root.right, key)
  }

  /** The node the search loop stops at (`Nil` when it falls off the tree). */
  function SubtreeAt<V>(root: Tree<V>, key: int): Tree<V>
    decreases root
  {
    if root.Nil? then Nil
    else if root.key == key then root
    else if root.key > key then SubtreeAt(root.left, key)
    else SubtreeAt(root.right, key)
  }

  /** In a search tree the loop reaches a node exactly when the key is stored,
      and that node holds the key and its value. */
  lemma {:induction false} SubtreeAtFinds<V>(root: Tree<V>, key: int)
    requires Ordered(root)
    ensures SubtreeAt(root, key).Node? <==> key in Keys(root)
    ensures SubtreeAt(root, key).Node? ==>
              SubtreeAt(root, key).key == key && SubtreeAt(root, key).value == Content(root)[key]
    decreases root
  {
    if root.Node? && root.key != key {
      if root.key > key {
        SubtreeAtFinds(root.left, key);
        assert key !in Keys(root.right);
      } else {
        SubtreeAtFinds(root.right, key);
        assert key !in Keys(root.left);
      }
    }
  }

  /** When the node is found it is the last one pushed. */
  lemma {:induction false} SearchPathEndsAtNode<V>(root: Tree<V>, key: int)
    ensures SubtreeAt(root, key).Node? ==>
              |SearchPath(root, key)| > 0 && SearchPath(root, key)[|SearchPath(root, key)| - 1] == SubtreeAt(root, key)
    decreases root
  {
    if root.Node? && root.key != key {
      if root.key > key {
        SearchPathEndsAtNode(root.left, key);
      } else {
        SearchPathEndsAtNode(root.right, key);
      }
    }
  }

  /**
   * The search loop shared by the (root, key) and (root, cur) constructors:
   * every visited node is pushed, and the loop stops at the node holding `key`
   * or falls off the tree.
   */
  method DescendTo<V>(root: Tree<V>, key: int) returns (path: seq<Tree<V>>, found: Tree<V>)
    ensures path == SearchPath(root, key) && found == SubtreeAt(root, key)
    ensures found.Node? ==> found.key == key && |path| > 0 && path[|path| - 1] == found
  {
    var node := root;
    path := [];
    while node.Node?
      invariant path + SearchPath(node, key) == SearchPath(root, key)
      invariant SubtreeAt(node, key) == SubtreeAt(root, key)
      decreases node
    {
      path := path + [node];
      if node.key == key {
        return path, node;
      }
      if node.key > key {
        node := node.left;
      } else {
        node := node.right;
      }
    }
    found := Nil;
  }

  /** What the iterator built by `find(key)` for a stored key produces. */
  function FoundRemaining<V>(root: Tree<V>, key: int): seq<(int, V)>
  {
    if SubtreeAt(root, key).Nil? then [] else Visit(SubtreeAt(root, key)) + Pending(SearchPath(root, key))
  }

  class AVLTreeIterator<V> {
    /** `current`; `Nil` is the end position. */
    var current: Tree<V>
    /** `traversal_stack`, top last. */
    var stack: seq<Tree<V>>

    /** Only real nodes are ever pushed. */
    ghost predicate Valid()
      reads this
    {
      forall i :: 0 <= i < |stack| ==> stack[i].Node?
    }

    /** The pairs still to be produced, the current one first. */
    ghost function Remaining(): seq<(int, V)>
      reads this
    {
      if current.Nil? then [] else Visit(current) + Pending(stack)
    }

    /** `push_left(node)`: push the left spine of `node`. */
    method PushLeft(node: Tree<V>)
      requires Valid()
      modifies this
      ensures Valid() && current == old(current)
      ensures stack == old(stack) + LeftSpine(node)
      ensures Pending(stack) == Elements(node) + Pending(old(stack))
    {
      var n := node;
      while n.Node?
        invariant Valid() && current == old(current)
        invariant stack + LeftSpine(n) == old(stack) + LeftSpine(node)
        decreases n
      {
        assert LeftSpine(n) == [n] + LeftSpine(n.left);
        stack := stack + [n];
        n := n.left;
      }
      PendingSpine(old(stack), node);
    }

    /** Pop the top of the stack into `current`, or reach the end. */
    method PopOrEnd()
      requires Valid()
      modifies this
      ensures Valid()
      ensures |old(stack)| > 0 ==> current == old(stack)[|old(stack)| - 1] && stack == old(stack)[..|old(stack)| - 1]
      ensures |old(stack)| == 0 ==> current.Nil? && stack == []
      ensures Remaining() == Pending(old(stack))
    {
      if |stack| > 0 {
        current := stack[|stack| - 1];
        stack := stack[..|stack| - 1];
      } else {
        current := Nil;
      }
    }

    /** `AVLTreeIterator(root)`: stack the left spine of the tree and pop its
        bottom, the leftmost node; an empty tree gives the end position. */
    constructor FromRoot(root: Tree<V>)
      ensures Valid() && Remaining() == Elements(root)
      ensures current.Nil? <==> root.Nil?
    {
      current := Nil;
      stack := [];
      new;
      PushLeft(root);
      PopOrEnd();
    }

    /** `AVLTreeIterator(root, cur)`: search for `cur` as the loop does, pushing
        every node on the way, the one found included; when the search falls off
        the tree the iterator is at the end.  Node identity is the key, which is
        unique in a search tree. */
    constructor AtNode(root: Tree<V>, cur: Tree<V>)
      requires cur.Node?
      ensures Valid()
      ensures current == SubtreeAt(root, cur.key) && stack == SearchPath(root, cur.key)
      ensures Remaining() == FoundRemaining(root, cur.key)
    {
      current := Nil;
      stack := [];
      new;
      var path, found := DescendTo(root, cur.key);
      current := found;
      stack := path;
    }

    /** `AVLTreeIterator(root, key)`: as `AtNode`, but a key not on the search
        path is the `runtime_error` of the source. */
    static method AtKey(root: Tree<V>, key: int) returns (r: Result<AVLTreeIterator<V>, IteratorError>)
      ensures r.Err? <==> SubtreeAt(root, key).Nil?
      ensures r.Err? ==> r.error == NodeNotFound
      ensures r.Ok? ==> fresh(r.value) && r.value.Valid() && r.value.Remaining() == FoundRemaining(root, key)
      ensures r.Ok? ==> r.value.current == SubtreeAt(root, key) && r.value.stack == SearchPath(root, key)
    {
      var path, found := DescendTo(root, key);
      if found.Nil? {
        return Err(NodeNotFound);
      }
      var it := new AVLTreeIterator.AtNode(root, found);
      return Ok(it);
    }

    /** `AVLTreeIterator(root, cur)` corrected: the node found is current
        and only the ancestors where the search went left are stacked. */
    constructor AtNodeOnce(root: Tree<V>, cur: Tree<V>)
      requires cur.Node?
      ensures Valid()
      ensures current == SubtreeAt(root, cur.key) && stack == LeftTurns(root, cur.key)
      ensures Ordered(root) && current.Node? ==> Remaining() == AtOrAbove(Elements(root), cur.key)
    {
      current := Nil;
      stack := [];
      new;
      var path, found := DescendLeft(root, cur.key);
      current := found;
      stack := path;
      if Ordered(root) && found.Node? {
        LeftTurnsWalk(root, cur.key);
      }
    }

    /**
     * `AVLTreeIterator(root, key)` corrected: a key not on the search path is
     * the `runtime_error`; otherwise the iterator produces the in-order walk
     * from `key` on, each pair once.
     */
    static method FindFrom(root: Tree<V>, key: int) returns (r: Result<AVLTreeIterator<V>, IteratorError>)
      ensures r.Err? <==> SubtreeAt(root, key).Nil?
      ensures r.Err? ==> r.error == NodeNotFound
      ensures r.Ok? ==> fresh(r.value) && r.value.Valid() &&
                        r.value.current == SubtreeAt(root, key) && r.value.stack == LeftTurns(root, key)
      ensures r.Ok? && Ordered(root) ==> r.value.Remaining() == AtOrAbove(Elements(root), key)
    {
      var path, found := DescendTo(root, key);
      if found.Nil? {
        return Err(NodeNotFound);
      }
      var it := new AVLTreeIterator.AtNodeOnce(root, found);
      return Ok(it);
    }

    /** `operator*`: the pair of the current node, which is the next one the
        iterator produces. */
    function Get(): (p: (int, V))
      reads this
      requires current.Node?
      ensures p == Remaining()[0]
    {
      (current.key, current.value)
    }

    /** Whether the iterator equals `end()`. */
    predicate AtEnd()
      reads this
      ensures AtEnd() <==> Remaining() == []
    {
      current.Nil?
    }

    /** `operator==`: both at the end, or both on the node with the same key. */
    predicate Equals(other: AVLTreeIterator<V>)
      reads this, other
      ensures Equals(other) ==> (AtEnd() <==> other.AtEnd())
      ensures AtEnd() && other.AtEnd() ==> Equals(other)
    {
      if current.Nil? || other.current.Nil? then current.Nil? == other.current.Nil?
      else current.key == other.current.key
    }

    /** `operator++`: stack the left spine of the right child, then pop; the
        pair just produced drops off the front of `Remaining()`. */
    method Next()
      requires Valid() && current.Node?
      modifies this
      ensures Valid() && Remaining() == old(Remaining())[1..]
      ensures var s := old(stack) + LeftSpine(old(current).right);
              if |s| > 0 then current == s[|s| - 1] && stack == s[..|s| - 1]
              else current.Nil? && stack == []
    {
      NextDropsHead(current, stack);
      if current.right.Node? {
        PushLeft(current.right);
      } else {
        assert stack == old(stack) + LeftSpine(current.right);
      }
      PopOrEnd();
    }
  }

  /** Two iterators standing in the in-order walk of one search tree (at
      positions `m` and `n`) are equal exactly when they produce the same
      pairs: in a search tree a key names one node, so comparing keys is
      comparing the nodes `operator==` compares. */
  lemma EqualsSameRemaining<V>(root: Tree<V>, i: AVLTreeIterator<V>, j: AVLTreeIterator<V>, m: nat, n: nat)
    requires Ordered(root) && m <= |Elements(root)| && n <= |Elements(root)|
    requires i.Remaining() == Elements(root)[m..] && j.Remaining() == Elements(root)[n..]
    ensures i.Equals(j) <==> i.Remaining() == j.Remaining()
  {
    if i.current.Node? && j.current.Node? {
      OrderedIsAscending(root);
      assert i.Remaining()[0] == (i.current.key, i.current.value);
      assert j.Remaining()[0] == (j.current.key, j.current.value);
      assert i.Remaining()[0] == Elements(root)[m];
      assert j.Remaining()[0] == Elements(root)[n];
      if m != n {
        assert i.current.key != j.current.key;
        assert |i.Remaining()| != |j.Remaining()|;
      }
    }
  }

  /** A range-for over the tree (test/mainteste2.cpp): from `begin()`, take
      `*it` and `++it` until the iterator equals `end()`.  The pairs come out in
      in-order, each exactly once. */
  method ToSequence<V>(root: Tree<V>) returns (s: seq<(int, V)>)
    ensures s == Elements(root)
  {
    var it := new AVLTreeIterator.FromRoot(root);
    s := [];
    while !it.AtEnd()
      invariant it.Valid() && s + it.Remaining() == Elements(root)
      decreases |it.Remaining()|
    {
      ghost var rest := it.Remaining();
      var p := it.Get();
      it.Next();
      HeadThenTail(s, p, rest);
      s := s + [p];
    }
  }

  /** Moving the head of a sequence to the end of the prefix keeps the whole. */
  lemma HeadThenTail<T>(s: seq<T>, p: T, rest: seq<T>)
    requires |rest| > 0 && p == rest[0]
    ensures (s + [p]) + rest[1..] == s + rest
  {
    assert rest == [p] + rest[1..];
  }

  /** The iterator that `find` builds on a stored key produces that key's pair
      first. */
  lemma FoundFirst<V>(root: Tree<V>, key: int)
    requires Ordered(root) && key in Keys(root)
    ensures |FoundRemaining(root, key)| > 0
    ensures FoundRemaining(root, key)[0] == (key, Content(root)[key])
  {
    SubtreeAtFinds(root, key);
  }

  /** The iterator `find` builds stands on the found node and also has it on
      top of the stack, so `++` produces the found pair a second time and then
      the path's ancestors: in the tree 2 with right child 3, `find(3)` yields
      3, 3, 2, 3 before reaching the end, where an in-order walk from 3 yields
      only 3. */
  lemma FindRevisits()
    ensures var root := Node(2, 20, Nil, Node(3, 30, Nil, Nil, 1), 2);
            FoundRemaining(root, 3) == [(3, 30), (3, 30), (2, 20), (3, 30)]
  {
    var three := Node(3, 30, Nil, Nil, 1);
    var root := Node(2, 20, Nil, three, 2);
    assert SearchPath(root, 3) == [root, three];
    assert Pending([root]) == [(2, 20), (3, 30)];
    assert Pending([root, three]) == [(3, 30)] + Pending([root]);
  }

  // ------------------------------------------------- corrected find

  /** The pairs an in-order walk from `key` on produces: those of `s` whose
      key is not below `key`. */
  function AtOrAbove<V>(s: seq<(int, V)>, key: int): (r: seq<(int, V)>)
    ensures |r| <= |s|
  {
    if |s| == 0 then []
    else (if s[0].0 >= key then [s[0]] else []) + AtOrAbove(s[1..], key)
  }

  lemma {:induction false} AtOrAboveAppend<V>(a: seq<(int, V)>, b: seq<(int, V)>, key: int)
    ensures AtOrAbove(a + b, key) == AtOrAbove(a, key) + AtOrAbove(b, key)
    decreases |a|
  {
    if |a| == 0 {
      assert a + b == b;
    } else {
      var h := if a[0].0 >= key then [a[0]] else [];
      assert (a + b)[0] == a[0] && (a + b)[1..] == a[1..] + b;
      assert AtOrAbove(a + b, key) == h + AtOrAbove(a[1..] + b, key);
      AtOrAboveAppend(a[1..], b, key);
      assert h + (AtOrAbove(a[1..], key) + AtOrAbove(b, key)) == (h + AtOrAbove(a[1..], key)) + AtOrAbove(b, key);
    }
  }

  /** Keys all below `key` are all dropped; keys all at or above are all kept. */
  lemma {:induction false} AtOrAboveAll<V>(s: seq<(int, V)>, key: int)
    ensures (forall i :: 0 <= i < |s| ==> s[i].0 < key) ==> AtOrAbove(s, key) == []
    ensures (forall i :: 0 <= i < |s| ==> key <= s[i].0) ==> AtOrAbove(s, key) == s
    decreases |s|
  {
    if |s| > 0 {
      AtOrAboveAll(s[1..], key);
      assert s == [s[0]] + s[1..];
    }
  }

  /** A subtree whose keys are all below, or all at or above, `key`. */
  lemma SubtreeAtOrAbove<V>(t: Tree<V>, key: int)
    ensures (forall j :: j in Keys(t) ==> j < key) ==> AtOrAbove(Elements(t), key) == []
    ensures (forall j :: j in Keys(t) ==> key <= j) ==> AtOrAbove(Elements(t), key) == Elements(t)
  {
    forall i | 0 <= i < |Elements(t)|
      ensures Elements(t)[i].0 in Keys(t)
    {
      ElementKeys(t, i);
    }
    AtOrAboveAll(Elements(t), key);
  }

  /** The nodes of the search path where the search goes left: the ancestors
      of the found node that come after it in order, the lowest on top. */
  function LeftTurns<V>(root: Tree<V>, key: int): (s: seq<Tree<V>>)
    ensures forall i :: 0 <= i < |s| ==> s[i].Node?
    decreases root
  {
    if root.Nil? || root.key == key then []
    else if root.key > key then [root] + LeftTurns(root.left, key)
    else LeftTurns(root.right, key)
  }

  /** The nodes on top of a stack are produced before those below them. */
  lemma {:induction false} PendingConcat<V>(below: seq<Tree<V>>, above: seq<Tree<V>>)
    ensures Pending(below + above) == Pending(above) + Pending(below)
    decreases |above|
  {
    if |above| == 0 {
      assert below + above == below;
    } else {
      var init, top := above[..|above| - 1], above[|above| - 1];
      assert above == init + [top];
      assert below + above == (below + init) + [top];
      PendingPush(init, top);
      PendingPush(below + init, top);
      PendingConcat(below, init);
      AppendAssoc(Visit(top), Pending(init), Pending(below));
    }
  }

  /** Concatenation regrouped. */
  lemma AppendAssoc<T>(a: seq<T>, b: seq<T>, c: seq<T>)
    ensures a + (b + c) == (a + b) + c
  {
  }

  /** A node at the bottom of the stack is produced last. */
  lemma PendingBottom<V>(n: Tree<V>, rest: seq<Tree<V>>)
    ensures Pending([n] + rest) == Pending(rest) + Visit(n)
  {
    PendingConcat([n], rest);
    assert [n][..0] == [];
    assert Pending([n]) == Visit(n) + Pending([]);
  }

  /** The walk from `key` over a node: that of its left subtree, the node's
      own pair when not below `key`, and that of its right subtree. */
  lemma AtOrAboveNode<V>(root: Tree<V>, key: int)
    requires root.Node?
    ensures AtOrAbove(Elements(root), key) ==
            (AtOrAbove(Elements(root.left), key) + (if root.key >= key then [(root.key, root.value)] else [])) +
            AtOrAbove(Elements(root.right), key)
  {
    var l, e, r := Elements(root.left), [(root.key, root.value)], Elements(root.right);
    assert Elements(root) == l + e + r;
    AtOrAboveAppend(l + e, r, key);
    AtOrAboveAppend(l, e, key);
    assert e[0] == (root.key, root.value) && e[1..] == [];
  }

  /**
   * In a search tree, the found node followed by the nodes where the search
   * went left stands for exactly the in-order walk from `key` on: every pair
   * whose key is not below `key`, each once, in ascending order.
   */
  lemma {:induction false} LeftTurnsWalk<V>(root: Tree<V>, key: int)
    requires Ordered(root) && SubtreeAt(root, key).Node?
    ensures Visit(SubtreeAt(root, key)) + Pending(LeftTurns(root, key)) == AtOrAbove(Elements(root), key)
    decreases root
  {
    if root.key == key {
      LeftTurnsWalkHere(root, key);
    } else if root.key > key {
      LeftTurnsWalk(root.left, key);
      LeftTurnsWalkGoLeft(root, key);
    } else {
      LeftTurnsWalk(root.right, key);
      LeftTurnsWalkGoRight(root, key);
    }
  }

  /** The case of `LeftTurnsWalk` where the root holds the key. */
  lemma LeftTurnsWalkHere<V>(root: Tree<V>, key: int)
    requires Ordered(root) && root.Node? && root.key == key
    ensures Visit(SubtreeAt(root, key)) + Pending(LeftTurns(root, key)) == AtOrAbove(Elements(root), key)
  {
    AtOrAboveNode(root, key);
    SubtreeAtOrAbove(root.left, key);
    SubtreeAtOrAbove(root.right, key);
  }

  /** The case of `LeftTurnsWalk` where the search goes left, from the walk
      of the left subtree. */
  lemma LeftTurnsWalkGoLeft<V>(root: Tree<V>, key: int)
    requires Ordered(root) && root.Node? && root.key > key
    requires Visit(SubtreeAt(root.left, key)) + Pending(LeftTurns(root.left, key)) ==
             AtOrAbove(Elements(root.left), key)
    ensures Visit(SubtreeAt(root, key)) + Pending(LeftTurns(root, key)) == AtOrAbove(Elements(root), key)
  {
    AtOrAboveNode(root, key);
    forall j | j in Keys(root.right) ensures key <= j {
      assert root.key < j;
    }
    SubtreeAtOrAbove(root.right, key);
    LeftTurnsWalkLeft(root, key, AtOrAbove(Elements(root.left), key), AtOrAbove(Elements(root), key));
  }

  /** The case of `LeftTurnsWalk` where the search goes right, from the walk
      of the right subtree. */
  lemma LeftTurnsWalkGoRight<V>(root: Tree<V>, key: int)
    requires Ordered(root) && root.Node? && root.key < key
    requires Visit(SubtreeAt(root.right, key)) + Pending(LeftTurns(root.right, key)) ==
             AtOrAbove(Elements(root.right), key)
    ensures Visit(SubtreeAt(root, key)) + Pending(LeftTurns(root, key)) == AtOrAbove(Elements(root), key)
  {
    AtOrAboveNode(root, key);
    forall j | j in Keys(root.left) ensures j < key {
      assert j < root.key;
    }
    SubtreeAtOrAbove(root.left, key);
  }

  /** The step of `LeftTurnsWalk` where the search goes left: the node is
      stacked below the turns of its left subtree. */
  lemma LeftTurnsWalkLeft<V>(root: Tree<V>, key: int, al: seq<(int, V)>, whole: seq<(int, V)>)
    requires root.Node? && root.key > key
    requires Visit(SubtreeAt(root.left, key)) + Pending(LeftTurns(root.left, key)) == al
    requires whole == (al + [(root.key, root.value)]) + Elements(root.right)
    ensures Visit(SubtreeAt(root, key)) + Pending(LeftTurns(root, key)) == whole
  {
    var found, turns := SubtreeAt(root.left, key), LeftTurns(root.left, key);
    PendingTurnLeft(root, key);
    var e, r := [(root.key, root.value)], Elements(root.right);
    var vf, pt := Visit(found), Pending(turns);
    assert Visit(root) == e + r;
    assert Pending(LeftTurns(root, key)) == pt + (e + r);
    assert Visit(SubtreeAt(root, key)) == vf;
    AppendRegroup(vf, pt, e, r);
  }

  lemma AppendRegroup<T>(a: seq<T>, b: seq<T>, c: seq<T>, d: seq<T>)
    ensures a + (b + (c + d)) == ((a + b) + c) + d
  {
  }

  /** Where the search goes left, the node is stacked below the turns of its
      left subtree. */
  lemma PendingTurnLeft<V>(root: Tree<V>, key: int)
    requires root.Node? && root.key > key
    ensures SubtreeAt(root, key) == SubtreeAt(root.left, key)
    ensures Pending(LeftTurns(root, key)) == Pending(LeftTurns(root.left, key)) + Visit(root)
  {
    PendingBottom(root, LeftTurns(root.left, key));
  }

  /** The search loop pushing only the nodes where it goes left. */
  method DescendLeft<V>(root: Tree<V>, key: int) returns (path: seq<Tree<V>>, found: Tree<V>)
    ensures path == LeftTurns(root, key) && found == SubtreeAt(root, key)
  {
    var node := root;
    path := [];
    while node.Node? && node.key != key
      invariant path + LeftTurns(node, key) == LeftTurns(root, key)
      invariant SubtreeAt(node, key) == SubtreeAt(root, key)
      decreases node
    {
      if node.key > key {
        path := path + [node];
        node := node.left;
      } else {
        node := node.right;
      }
    }
    found := node;
  }

  /** On the tree of `FindRevisits`, the corrected `find(3)` yields 3 once. */
  lemma FindVisitsOnce()
    ensures var root := Node(2, 20, Nil, Node(3, 30, Nil, Nil, 1), 2);
            Visit(SubtreeAt(root, 3)) + Pending(LeftTurns(root, 3)) == [(3, 30)]
  {
    var three := Node(3, 30, Nil, Nil, 1);
    var root := Node(2, 20, Nil, three, 2);
    assert LeftTurns(root, 3) == [];
  }

  /** From the root the iterator starts at the least key. */
  lemma FirstIsLeast<V>(root: Tree<V>)
    requires Ordered(root) && root.Node?
    ensures |Elements(root)| > 0
    ensures forall j :: j in Keys(root) ==> Elements(root)[0].0 <= j
  {
    OrderedIsAscending(root);
    forall j | j in Keys(root) ensures Elements(root)[0].0 <= j {
      var i := KeyInElements(root, j);
    }
  }
}
