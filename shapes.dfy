/** The shape of a tree of nodes: which node (by its arena index) sits where.
    A shape is the ghost skeleton that the node links of the heap must match;
    it fixes, for every order, the position of every node and the contiguous
    segment its subtree occupies in the traversal. */
module Shapes {
  import opened Trees

  datatype Shape = Nil | Br(left: Shape, id: nat, right: Shape)

  function Count(s: Shape): nat
  {
    match s
    case Nil => 0
    case Br(l, _, r) => Count(l) + 1 + Count(r)
  }

  function Ids(s: Shape): set<nat>
  {
    match s
    case Nil => {}
    case Br(l, i, r) => Ids(l) + {i} + Ids(r)
  }

  /** No node occurs twice: the shape is a tree, not a DAG. */
  ghost predicate Distinct(s: Shape)
  {
    match s
    case Nil => true
    case Br(l, i, r) =>
      i !in Ids(l) && i !in Ids(r) && Ids(l) !! Ids(r) && Distinct(l) && Distinct(r)
  }

  /** The node ids of `s` in order `o`. */
  function Seq(o: Order, s: Shape): seq<nat>
  {
    match s
    case Nil => []
    case Br(l, i, r) =>
      match o
      case Preorder => [i] + Seq(o, l) + Seq(o, r)
      case Inorder => Seq(o, l) + [i] + Seq(o, r)
      case Postorder => Seq(o, l) + Seq(o, r) + [i]
  }

  /** The subtree rooted at node `m`. */
  function SubAt(s: Shape, m: nat): (t: Shape)
    requires m in Ids(s)
    ensures t.Br? && t.id == m
  {
    if s.id == m then s
    else if m in Ids(s.left) then SubAt(s.left, m)
    else SubAt(s.right, m)
  }

  /** Where the left subtree's segment starts, relative to its parent's. */
  function LeftShift(o: Order): nat
  {
    if o == Preorder then 1 else 0
  }

  /** Where the right subtree's segment starts, relative to its parent's. */
  function RightShift(o: Order, l: Shape): nat
  {
    match o
    case Preorder => 1 + Count(l)
    case Inorder => Count(l) + 1
    case Postorder => Count(l)
  }

  /** Where the root of `t` stands within the segment of `t`. */
  function SelfAt(o: Order, t: Shape): nat
    requires t.Br?
  {
    match o
    case Preorder => 0
    case Inorder => Count(t.left)
    case Postorder => Count(t.left) + Count(t.right)
  }

  /** The start, in Seq(o, s), of the segment of the subtree rooted at `m`. */
  function Off(o: Order, s: Shape, m: nat): nat
    requires m in Ids(s)
  {
    if s.id == m then 0
    else if m in Ids(s.left) then LeftShift(o) + Off(o, s.left, m)
    else RightShift(o, s.left) + Off(o, s.right, m)
  }

  /** The index of node `m` in Seq(o, s). */
  function Pos(o: Order, s: Shape, m: nat): nat
    requires m in Ids(s)
  {
    Off(o, s, m) + SelfAt(o, SubAt(s, m))
  }

  /** Descend left while possible. */
  function Leftmost(s: Shape): (m: nat)
    requires s.Br?
    ensures m in Ids(s)
  {
    if s.left.Br? then Leftmost(s.left) else s.id
  }

  /** Descend right while possible. */
  function Rightmost(s: Shape): (m: nat)
    requires s.Br?
    ensures m in Ids(s)
  {
    if s.right.Br? then Rightmost(s.right) else s.id
  }

  /** Descend to a leaf, preferring the right child over the left one. */
  function RightLeftLeaf(s: Shape): (m: nat)
    requires s.Br?
    ensures m in Ids(s)
  {
    if s.right.Br? then RightLeftLeaf(s.right)
    else if s.left.Br? then RightLeftLeaf(s.left)
    else s.id
  }

  /** Descend to a leaf, preferring the left child over the right one. */
  function LeftRightLeaf(s: Shape): (m: nat)
    requires s.Br?
    ensures m in Ids(s)
  {
    if s.left.Br? then LeftRightLeaf(s.left)
    else if s.right.Br? then LeftRightLeaf(s.right)
    else s.id
  }

  /** The length part of SeqEnumerates; it needs no distinct ids, and
      SeqEnumerates, SeqAtPos and the cursor proofs use it where only the
      length is needed. */
  lemma {:induction false} SeqLength(o: Order, s: Shape)
    ensures |Seq(o, s)| == Count(s)
  {
    match s
    case Nil =>
    case Br(l, _, r) => SeqLength(o, l); SeqLength(o, r);
  }

  /** The subtree at `m` lies inside `s`, is itself distinct, and its
      segment fits in the whole sequence. */
  lemma {:induction false} SubAtInside(o: Order, s: Shape, m: nat)
    requires Distinct(s) && m in Ids(s)
    ensures Distinct(SubAt(s, m)) && Ids(SubAt(s, m)) <= Ids(s)
    ensures Off(o, s, m) + Count(SubAt(s, m)) <= Count(s)
  {
    if s.id != m {
      if m in Ids(s.left) {
        SubAtInside(o, s.left, m);
      } else {
        SubAtInside(o, s.right, m);
      }
    }
  }

  /** A node below `m` is found the same way from the whole shape and from
      m's subtree, and its offset adds up. */
  lemma {:induction false} Descendant(o: Order, s: Shape, m: nat, x: nat)
    requires Distinct(s) && m in Ids(s) && x in Ids(SubAt(s, m))
    ensures x in Ids(s) && SubAt(s, x) == SubAt(SubAt(s, m), x)
    ensures Off(o, s, x) == Off(o, s, m) + Off(o, SubAt(s, m), x)
  {
    SubAtInside(o, s, m);
    if s.id != m {
      if m in Ids(s.left) {
        SubAtInside(o, s.left, m);
        Descendant(o, s.left, m, x);
      } else {
        SubAtInside(o, s.right, m);
        Descendant(o, s.right, m, x);
      }
    }
  }

  /** The children of node `m`: where they are found and where their
      segments start. */
  lemma ChildOff(o: Order, s: Shape, m: nat)
    requires Distinct(s) && m in Ids(s)
    ensures var t := SubAt(s, m);
      Distinct(t) && Off(o, s, m) + Count(t) <= Count(s) &&
      (t.left.Br? ==>
         (t.left.id in Ids(s) && SubAt(s, t.left.id) == t.left &&
          Off(o, s, t.left.id) == Off(o, s, m) + LeftShift(o))) &&
      (t.right.Br? ==>
         (t.right.id in Ids(s) && SubAt(s, t.right.id) == t.right &&
          Off(o, s, t.right.id) == Off(o, s, m) + RightShift(o, t.left)))
  {
    var t := SubAt(s, m);
    SubAtInside(o, s, m);
    if t.left.Br? {
      Descendant(o, s, m, t.left.id);
    }
    if t.right.Br? {
      Descendant(o, s, m, t.right.id);
    }
  }

  /** Index `p` of the left child's order, within the order of `s`. */
  lemma SeqIndexLeft(o: Order, s: Shape, p: nat)
    requires s.Br? && p < |Seq(o, s.left)|
    ensures LeftShift(o) + p < |Seq(o, s)| && Seq(o, s)[LeftShift(o) + p] == Seq(o, s.left)[p]
  {
  }

  /** Index `p` of the right child's order, within the order of `s`. */
  lemma SeqIndexRight(o: Order, s: Shape, p: nat)
    requires s.Br? && p < |Seq(o, s.right)|
    ensures RightShift(o, s.left) + p < |Seq(o, s)| && Seq(o, s)[RightShift(o, s.left) + p] == Seq(o, s.right)[p]
  {
    SeqLength(o, s.left);
  }

  /** The root's index within the order of `s`. */
  lemma SeqIndexSelf(o: Order, s: Shape)
    requires s.Br?
    ensures SelfAt(o, s) < |Seq(o, s)| && Seq(o, s)[SelfAt(o, s)] == s.id
  {
    SeqLength(o, s.left);
    SeqLength(o, s.right);
  }

  /** The index of a node below the root, from the index in its child's
      order. */
  lemma PosStep(o: Order, s: Shape, m: nat)
    requires m in Ids(s) && m != s.id
    ensures m in Ids(s.left) ==> Pos(o, s, m) == LeftShift(o) + Pos(o, s.left, m)
    ensures m !in Ids(s.left) ==> m in Ids(s.right) && Pos(o, s, m) == RightShift(o, s.left) + Pos(o, s.right, m)
  {
  }

  /** Node `m` stands at index Pos(o, s, m) of the order. */
  lemma {:induction false} SeqAtPos(o: Order, s: Shape, m: nat)
    requires Distinct(s) && m in Ids(s)
    ensures Pos(o, s, m) < |Seq(o, s)| && Seq(o, s)[Pos(o, s, m)] == m
  {
    if s.id == m {
      SeqIndexSelf(o, s);
    } else if m in Ids(s.left) {
      PosStep(o, s, m);
      SeqAtPos(o, s.left, m);
      SeqIndexLeft(o, s, Pos(o, s.left, m));
    } else {
      PosStep(o, s, m);
      SeqAtPos(o, s.right, m);
      SeqIndexRight(o, s, Pos(o, s.right, m));
    }
  }

  /** Two cursors of one order stand at the same position exactly when they
      stand on the same node. */
  lemma PosInjective(o: Order, s: Shape, m1: nat, m2: nat)
    requires Distinct(s) && m1 in Ids(s) && m2 in Ids(s)
    ensures Pos(o, s, m1) == Pos(o, s, m2) <==> m1 == m2
  {
    SeqAtPos(o, s, m1);
    SeqAtPos(o, s, m2);
  }

  ghost predicate NoRepeats(q: seq<nat>)
  {
    forall j, k :: 0 <= j < k < |q| ==> q[j] != q[k]
  }

  lemma JoinNoRepeats(a: seq<nat>, b: seq<nat>)
    requires NoRepeats(a) && NoRepeats(b)
    requires forall m :: m in a ==> m !in b
    ensures NoRepeats(a + b)
  {
    forall j, k | 0 <= j < k < |a + b| ensures (a + b)[j] != (a + b)[k] {
      if j < |a| && |a| <= k {
        assert (a + b)[j] == a[j] && a[j] in a;
        assert (a + b)[k] == b[k - |a|] && b[k - |a|] in b;
      }
    }
  }

  /** Each order enumerates the nodes of the tree, each exactly once. */
  lemma {:induction false} SeqEnumerates(o: Order, s: Shape)
    requires Distinct(s)
    ensures |Seq(o, s)| == Count(s)
    ensures forall m :: m in Seq(o, s) <==> m in Ids(s)
    ensures NoRepeats(Seq(o, s))
  {
    SeqLength(o, s);
    match s
    case Nil =>
    case Br(l, i, r) =>
      SeqEnumerates(o, l);
      SeqEnumerates(o, r);
      var a, b := Seq(o, l), Seq(o, r);
      assert NoRepeats([i]);
      match o
      case Preorder =>
        JoinNoRepeats([i], a);
        JoinNoRepeats([i] + a, b);
      case Inorder =>
        JoinNoRepeats(a, [i]);
        JoinNoRepeats(a + [i], b);
      case Postorder =>
        JoinNoRepeats(a, b);
        JoinNoRepeats(a + b, [i]);
  }

  /** Inorder: the leftmost node of m's subtree opens m's segment. */
  lemma {:induction false} LeftmostFirst(s: Shape, m: nat)
    requires Distinct(s) && m in Ids(s)
    ensures Leftmost(SubAt(s, m)) in Ids(s)
    ensures Pos(Inorder, s, Leftmost(SubAt(s, m))) == Off(Inorder, s, m)
    decreases Count(SubAt(s, m))
  {
    var t := SubAt(s, m);
    ChildOff(Inorder, s, m);
    if t.left.Br? {
      LeftmostFirst(s, t.left.id);
    }
  }

  /** Inorder: the rightmost node of m's subtree closes m's segment. */
  lemma {:induction false} RightmostLast(s: Shape, m: nat)
    requires Distinct(s) && m in Ids(s)
    ensures Rightmost(SubAt(s, m)) in Ids(s)
    ensures Pos(Inorder, s, Rightmost(SubAt(s, m))) + 1 == Off(Inorder, s, m) + Count(SubAt(s, m))
    decreases Count(SubAt(s, m))
  {
    var t := SubAt(s, m);
    ChildOff(Inorder, s, m);
    if t.right.Br? {
      RightmostLast(s, t.right.id);
    }
  }

  /** Preorder: the right-then-left leaf of m's subtree closes m's segment. */
  lemma {:induction false} RightLeftLeafLast(s: Shape, m: nat)
    requires Distinct(s) && m in Ids(s)
    ensures RightLeftLeaf(SubAt(s, m)) in Ids(s)
    ensures Pos(Preorder, s, RightLeftLeaf(SubAt(s, m))) + 1 == Off(Preorder, s, m) + Count(SubAt(s, m))
    decreases Count(SubAt(s, m))
  {
    var t := SubAt(s, m);
    ChildOff(Preorder, s, m);
    if t.right.Br? {
      RightLeftLeafLast(s, t.right.id);
    } else if t.left.Br? {
      RightLeftLeafLast(s, t.left.id);
    }
  }

  /** Postorder: the left-then-right leaf of m's subtree opens m's segment. */
  lemma {:induction false} LeftRightLeafFirst(s: Shape, m: nat)
    requires Distinct(s) && m in Ids(s)
    ensures LeftRightLeaf(SubAt(s, m)) in Ids(s)
    ensures Pos(Postorder, s, LeftRightLeaf(SubAt(s, m))) == Off(Postorder, s, m)
    decreases Count(SubAt(s, m))
  {
    var t := SubAt(s, m);
    ChildOff(Postorder, s, m);
    if t.left.Br? {
      LeftRightLeafFirst(s, t.left.id);
    } else if t.right.Br? {
      LeftRightLeafFirst(s, t.right.id);
    }
  }

  /** The start and terminal node of each order on a whole, non-empty tree:
      preorder runs from the root to the right-then-left leaf, inorder from
      the leftmost to the rightmost node, postorder from the left-then-right
      leaf to the root. */
  lemma Ends(s: Shape)
    requires Distinct(s) && s.Br?
    ensures Pos(Preorder, s, s.id) == 0
    ensures Pos(Preorder, s, RightLeftLeaf(s)) == Count(s) - 1
    ensures Pos(Inorder, s, Leftmost(s)) == 0
    ensures Pos(Inorder, s, Rightmost(s)) == Count(s) - 1
    ensures Pos(Postorder, s, LeftRightLeaf(s)) == 0
    ensures Pos(Postorder, s, s.id) == Count(s) - 1
  {
    assert SubAt(s, s.id) == s;
    RightLeftLeafLast(s, s.id);
    LeftmostFirst(s, s.id);
    RightmostLast(s, s.id);
    LeftRightLeafFirst(s, s.id);
  }
}
