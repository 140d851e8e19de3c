/** The tree node of a Huffman prefix code (the inner class HuffmanNode).
    A Java reference to a node is a `Tree`: `Nil` is the null reference and
    `Node` a node with its symbol, its weight (the frequency used to order
    nodes while building) and its two child references. Nodes are owned by
    exactly one parent, so a value datatype captures the whole structure. */
module HuffmanNode {

  datatype Tree = Nil | Node(value: nat, weight: int, left: Tree, right: Tree)
  {
    /** Number of nodes in the subtree. */
    function Size(): nat
    {
      match this
      case Nil => 0
      case Node(_, _, l, r) => 1 + l.Size() + r.Size()
    }

    /** isLeaf: a node with neither a left nor a right child, that is, a node
        that is alone in its own subtree. */
    predicate IsLeaf()
      requires Node?
      ensures IsLeaf() <==> Size() == 1
    {
      left == Nil && right == Nil
    }

    /** compareTo: orders nodes by weight (the difference of the weights,
        read only by its sign). */
    function CompareTo(other: Tree): (r: int)
      requires Node? && other.Node?
      ensures r < 0 <==> weight < other.weight
      ensures r == 0 <==> weight == other.weight
      ensures r > 0 <==> weight > other.weight
    {
      weight - other.weight
    }
  }

  /** The symbols of the leaves, left before right. */
  function Leaves(t: Tree): seq<nat>
  {
    match t
    case Nil => []
    case Node(v, _, l, r) => if t.IsLeaf() then [v] else Leaves(l) + Leaves(r)
  }

  /** The number of nodes that are not leaves. */
  function Internals(t: Tree): nat
  {
    match t
    case Nil => 0
    case Node(_, _, l, r) => if t.IsLeaf() then 0 else 1 + Internals(l) + Internals(r)
  }

  /** Every node is a leaf or has both children: no one-child node. */
  predicate Full(t: Tree)
  {
    t.Node? ==>
      (t.IsLeaf() || (t.left.Node? && t.right.Node?)) && Full(t.left) && Full(t.right)
  }

  /** A full tree with n leaves has n - 1 internal nodes; a full tree that is
      not a single leaf has at least two leaves. */
  lemma {:induction false} FullShape(t: Tree)
    requires Full(t) && t.Node?
    ensures |Leaves(t)| == Internals(t) + 1
    ensures !t.IsLeaf() ==> |Leaves(t)| >= 2
  {
    if !t.IsLeaf() {
      FullShape(t.left);
      FullShape(t.right);
    }
  }

  /** The node reached by following `path` from `t`: '0' goes left, '1' goes
      right; any other character, or falling off the tree, reaches Nil. */
  function At(t: Tree, path: string): Tree
    decreases |path|
  {
    if path == [] then t
    else if t.Nil? then Nil
    else if path[0] == '0' then At(t.left, path[1..])
    else if path[0] == '1' then At(t.right, path[1..])
    else Nil
  }

  /** A code made of the characters '0' and '1' only. */
  predicate IsBinary(code: string)
  {
    forall i :: 0 <= i < |code| ==> code[i] == '0' || code[i] == '1'
  }
}
