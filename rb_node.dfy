/**
 * The node record of include/RBTree/RBNode.hpp and of the `Node` struct of
 * includes/RBTree.h.  `parent`, `left` and `right` are arena indices (module
 * RBArena); index 0 is the sentinel `_NIL`.  Both files store the colour as a
 * `bool`, with opposite encodings.
 */
module RBNodes {
  import opened RBShape

  datatype RBNode<V> = RBNode(key: int, value: V, parent: nat, left: nat, right: nat, color: Color)

  /** The `bool` include/RBTree/RBNode.hpp stores: RED is false, BLACK true. */
  function ModernBit(c: Color): (b: bool)
    ensures b <==> c == Black
  {
    match c
    case Red => false
    case Black => true
  }

  /** The `bool` includes/RBTree.h stores: RED is true, BLACK false. */
  function LegacyBit(c: Color): (b: bool)
    ensures b <==> c == Red
  {
    match c
    case Red => true
    case Black => false
  }

  /** The two files store every colour as opposite bits, and each encoding
      tells the colours apart. */
  lemma EncodingsOpposite(c: Color, d: Color)
    ensures ModernBit(c) == !LegacyBit(c)
    ensures ModernBit(c) == ModernBit(d) <==> c == d
    ensures LegacyBit(c) == LegacyBit(d) <==> c == d
  {
  }

  /** `RBNode(key, value, parent, left, right, color = RED)`: the node stores
      the key and value it is given; the links default to null, which the
      trees never use (they always pass `_NIL`, index 0). */
  function NewNode<V>(key: int, value: V, parent: nat, left: nat := 0, right: nat := 0,
                      color: Color := Red): (n: RBNode<V>)
    ensures n.key == key && n.value == value
    ensures n.parent == parent && n.left == left && n.right == right && n.color == color
  {
    RBNode(key, value, parent, left, right, color)
  }

  /** A node built with the defaults is red and has no children. */
  lemma NewNodeDefaults<V>(key: int, value: V, parent: nat)
    ensures NewNode(key, value, parent).color == Red
    ensures NewNode(key, value, parent).left == 0 && NewNode(key, value, parent).right == 0
  {
  }

  /** The sentinel as both constructors build it: black, every link to
      itself, a default key and the given default value. */
  function Sentinel<V>(blank: V): (n: RBNode<V>)
    ensures n.color == Black && n.parent == 0 && n.left == 0 && n.right == 0
  {
    RBNode(0, blank, 0, 0, 0, Black)
  }
}
