/** Node<T> and the heap its objects live in.
    The heap is an arena: node objects are the entries of `nodes`, a
    pointer is an index into it, and `Null` is the null pointer. An entry
    once allocated is never freed, as nodes are never deleted one by one. */
module Nodes {
  import opened Trees

  type Ptr = int

  const Null: Ptr := -1

  /** A node object: its value, its two owned children and its non-owning
      back-reference to its parent. */
  datatype Node<T> = Node(value: T, left: Ptr, right: Ptr, parent: Ptr)
  {
    function Link(side: Side): Ptr
    {
      if side == Left then left else right
    }
  }

  /** Node(): every link null; the value is whatever T's default is. */
  method DefaultNode<T(0)>() returns (n: Node<T>)
    ensures n.left == Null && n.right == Null && n.parent == Null
  {
    var v: T := *;
    n := Node(v, Null, Null, Null);
  }

  class Arena<T> {
    var nodes: seq<Node<T>>

    constructor ()
      ensures nodes == []
    {
      nodes := [];
    }

    predicate Allocated(p: Ptr)
      reads this
    {
      0 <= p < |nodes|
    }

    /** `new Node<T>(v)`: a fresh node holding `v`, with every link null;
        no existing node changes. */
    method Alloc(v: T) returns (p: Ptr)
      modifies this
      ensures p == |old(nodes)| && |nodes| == p + 1
      ensures nodes[p] == Node(v, Null, Null, Null)
      ensures nodes[..p] == old(nodes)
    {
      p := |nodes|;
      nodes := nodes + [Node(v, Null, Null, Null)];
    }

    /** `x->add_left(v)`: x's left slot now holds a fresh childless node
        holding `v` whose parent is x; whatever the slot held before is
        detached. x's value, right child and parent, and every other node,
        are unchanged. */
    method AddLeft(x: Ptr, v: T)
      requires Allocated(x)
      modifies this
      ensures |nodes| == |old(nodes)| + 1
      ensures nodes[|old(nodes)|] == Node(v, Null, Null, x)
      ensures nodes[x] == old(nodes[x]).(left := |old(nodes)|)
      ensures forall j :: 0 <= j < |old(nodes)| && j != x ==> nodes[j] == old(nodes[j])
    {
      var n := |nodes|;
      nodes := nodes[x := nodes[x].(left := n)] + [Node(v, Null, Null, x)];
    }

    /** `x->add_right(v)`: the mirror image of AddLeft. */
    method AddRight(x: Ptr, v: T)
      requires Allocated(x)
      modifies this
      ensures |nodes| == |old(nodes)| + 1
      ensures nodes[|old(nodes)|] == Node(v, Null, Null, x)
      ensures nodes[x] == old(nodes[x]).(right := |old(nodes)|)
      ensures forall j :: 0 <= j < |old(nodes)| && j != x ==> nodes[j] == old(nodes[j])
    {
      var n := |nodes|;
      nodes := nodes[x := nodes[x].(right := n)] + [Node(v, Null, Null, x)];
    }

    /** `x->_value = v`: only x's value changes. */
    method SetValue(x: Ptr, v: T)
      requires Allocated(x)
      modifies this
      ensures nodes == old(nodes)[x := old(nodes[x]).(value := v)]
    {
      nodes := nodes[x := nodes[x].(value := v)];
    }
  }
}
