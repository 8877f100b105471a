/** How the node objects in an arena form a tree: the links of every node
    match a ghost Shape, child and parent links mirror each other, and the
    values read along the shape give the abstract Tree. */
module Layout {
  import opened Trees
  import opened Shapes
  import opened Nodes

  /** The pointer to the root of `s`. */
  function Root(s: Shape): Ptr
  {
    if s.Nil? then Null else s.id
  }

  /** Every node of `s` is allocated in an arena of `n` nodes. */
  ghost predicate Within(s: Shape, n: nat)
  {
    match s
    case Nil => true
    case Br(l, i, r) => i < n && Within(l, n) && Within(r, n)
  }

  lemma {:induction false} WithinIds(s: Shape, n: nat)
    requires Within(s, n)
    ensures forall i :: i in Ids(s) ==> i < n
  {
    if s.Br? {
      WithinIds(s.left, n);
      WithinIds(s.right, n);
    }
  }

  /** The nodes reachable from `p` form exactly the shape `s`: each node's
      child links point at the roots of its sub-shapes, and each child's
      parent link points back at the node (`par` for `p` itself). */
  ghost predicate Describes<T>(nodes: seq<Node<T>>, p: Ptr, par: Ptr, s: Shape)
    ensures Describes(nodes, p, par, s) ==> p == Root(s) && Within(s, |nodes|)
    decreases s
  {
    match s
    case Nil => p == Null
    case Br(l, i, r) =>
      p == i && i < |nodes| && nodes[i].parent == par &&
      Describes(nodes, nodes[i].left, i, l) && Describes(nodes, nodes[i].right, i, r)
  }

  /** The value tree that the nodes of shape `s` hold. */
  ghost function ToTree<T>(nodes: seq<Node<T>>, s: Shape): Tree<T>
    requires Within(s, |nodes|)
  {
    match s
    case Nil => Leaf
    case Br(l, i, r) => Branch(ToTree(nodes, l), nodes[i].value, ToTree(nodes, r))
  }

  /** The values held by the nodes `ids`, in that order. */
  ghost function Values<T>(nodes: seq<Node<T>>, ids: seq<nat>): seq<T>
    requires forall k :: 0 <= k < |ids| ==> ids[k] < |nodes|
  {
    seq(|ids|, k requires 0 <= k < |ids| => nodes[ids[k]].value)
  }

  lemma ValuesJoin<T>(nodes: seq<Node<T>>, a: seq<nat>, b: seq<nat>)
    requires forall k :: 0 <= k < |a| ==> a[k] < |nodes|
    requires forall k :: 0 <= k < |b| ==> b[k] < |nodes|
    ensures forall k :: 0 <= k < |a + b| ==> (a + b)[k] < |nodes|
    ensures Values(nodes, a + b) == Values(nodes, a) + Values(nodes, b)
  {
  }

  /** Reading the values along the node order of `s` gives the abstract
      traversal of the tree the nodes hold. */
  lemma {:induction false} TraversalValues<T>(o: Order, nodes: seq<Node<T>>, s: Shape)
    requires Within(s, |nodes|)
    ensures forall k :: 0 <= k < |Seq(o, s)| ==> Seq(o, s)[k] < |nodes|
    ensures Values(nodes, Seq(o, s)) == Traversal(o, ToTree(nodes, s))
  {
    match s
    case Nil =>
    case Br(l, i, r) =>
      TraversalValues(o, nodes, l);
      TraversalValues(o, nodes, r);
      var a, b, c := Seq(o, l), Seq(o, r), [i];
      assert Values(nodes, c) == [nodes[i].value];
      match o
      case Preorder =>
        ValuesJoin(nodes, c, a);
        ValuesJoin(nodes, c + a, b);
      case Inorder =>
        ValuesJoin(nodes, a, c);
        ValuesJoin(nodes, a + c, b);
      case Postorder =>
        ValuesJoin(nodes, a, b);
        ValuesJoin(nodes, a + b, c);
  }

  /** Going down from the root of `s` to node `m`: the links of `m` describe
      the subtree at `m`, and the parent link of `m` leads to the node one
      level up (the given `par` at the root). */
  lemma {:induction false} NodeAt<T>(nodes: seq<Node<T>>, s: Shape, par: Ptr, m: nat)
    requires Describes(nodes, Root(s), par, s) && Distinct(s) && m in Ids(s)
    ensures m < |nodes| && Describes(nodes, m, nodes[m].parent, SubAt(s, m))
    ensures m == s.id ==> nodes[m].parent == par
    ensures m != s.id ==>
      var q := nodes[m].parent;
      q in Ids(s) && 0 <= q < |nodes| && (nodes[q].left == m || nodes[q].right == m)
  {
    WithinIds(s, |nodes|);
    if m != s.id {
      var l, i, r := s.left, s.id, s.right;
      if m in Ids(l) {
        NodeAt(nodes, l, i, m);
        if m == l.id {
          assert nodes[i].left == m;
        }
      } else {
        NodeAt(nodes, r, i, m);
        if m == r.id {
          assert nodes[i].right == m;
        }
      }
    }
  }

  /** Everything a cursor standing on node `m` of a whole tree can learn from
      m's links: its children and their segments in order `o`, and whether
      it has a parent. */
  lemma Around<T>(o: Order, nodes: seq<Node<T>>, s: Shape, m: nat)
    requires Describes(nodes, Root(s), Null, s) && Distinct(s) && m in Ids(s)
    ensures m < |nodes|
    ensures var t, nd := SubAt(s, m), nodes[m];
      Distinct(t) && Ids(t) <= Ids(s) && Off(o, s, m) + Count(t) <= Count(s) &&
      nd.left == Root(t.left) && nd.right == Root(t.right) &&
      m !in Ids(t.left) && m !in Ids(t.right) && Ids(t.left) !! Ids(t.right) &&
      (nd.left != Null ==>
         (nd.left in Ids(s) && 0 <= nd.left < |nodes| && SubAt(s, nd.left) == t.left && nodes[nd.left].parent == m &&
          Off(o, s, nd.left) == Off(o, s, m) + LeftShift(o))) &&
      (nd.right != Null ==>
         (nd.right in Ids(s) && 0 <= nd.right < |nodes| && SubAt(s, nd.right) == t.right && nodes[nd.right].parent == m &&
          Off(o, s, nd.right) == Off(o, s, m) + RightShift(o, t.left))) &&
      (nd.parent == Null <==> m == s.id) &&
      (nd.parent != Null ==>
         (nd.parent in Ids(s) && 0 <= nd.parent < |nodes| && nd.parent !in Ids(t) &&
          (nodes[nd.parent].left == m || nodes[nd.parent].right == m)))
  {
    WithinIds(s, |nodes|);
    NodeAt(nodes, s, Null, m);
    ChildOff(o, s, m);
    SubAtInside(o, s, m);
    var t, nd := SubAt(s, m), nodes[m];
    if nd.left != Null {
      NodeAt(nodes, s, Null, nd.left);
    }
    if nd.right != Null {
      NodeAt(nodes, s, Null, nd.right);
    }
    if m != s.id {
      var q := nd.parent;
      NodeAt(nodes, s, Null, q);
      ChildOff(o, s, q);
      SubAtInside(o, s, q);
    }
  }

  /** Nodes outside the footprint of `s` may change freely: `s` still
      describes the same links and holds the same values. */
  lemma {:induction false} Frame<T>(nodes: seq<Node<T>>, nodes': seq<Node<T>>, p: Ptr, par: Ptr, s: Shape)
    requires Describes(nodes, p, par, s)
    requires forall i :: i in Ids(s) ==> i < |nodes| && i < |nodes'| && nodes'[i] == nodes[i]
    ensures Describes(nodes', p, par, s) && ToTree(nodes', s) == ToTree(nodes, s)
    decreases s
  {
    match s
    case Nil =>
    case Br(l, i, r) =>
      Frame(nodes, nodes', nodes[i].left, i, l);
      Frame(nodes, nodes', nodes[i].right, i, r);
  }
}
