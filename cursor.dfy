/** BinaryTree<T>::iterator: a stack-free traversal cursor. It keeps the
    node it stands on, the node it stood on just before (which tells it the
    edge it arrived by) and the terminal node of its order, and it moves
    only along left, right and parent links. */
module Cursors {
  import opened Trees
  import opened Shapes
  import opened Nodes
  import opened Layout

  class Iterator<T> {
    /** The heap the cursor reads; it never changes a node. */
    const arena: Arena<T>
    const root: Ptr
    const order: Order
    /** The shape of the tree the cursor was created on. */
    ghost const shape: Shape
    var current: Ptr
    var prev: Ptr
    var last: Ptr

    /** The tree is still the one the cursor was made for, both pointers
        are null or nodes of it, and `last` is the terminal node of the
        order. */
    ghost predicate Wf()
      reads this, arena
    {
      Describes(arena.nodes, root, Null, shape) && Distinct(shape) &&
      (current == Null || (current in Ids(shape) && current < |arena.nodes|)) &&
      (prev == Null || prev in Ids(shape)) &&
      (shape.Nil? ==> last == Null) &&
      (shape.Br? ==> last in Ids(shape) && Pos(order, shape, last) == Count(shape) - 1)
    }

    /** The edge the cursor arrived by, in each order, when it stands on a
        node: in preorder always from the parent; in inorder from the left
        child, or from the parent onto a node without a left child; in
        postorder onto a leaf from above (or at the start), or from the right
        child, or from the left child of a node without a right child. */
    ghost predicate Arrival()
      reads this, arena
      requires Wf() && current != Null
    {
      var nd := arena.nodes[current];
      match order
      case Preorder => prev == nd.parent
      case Inorder => prev == nd.left || (nd.left == Null && prev == nd.parent)
      case Postorder =>
        (nd.left == Null && nd.right == Null && (prev == Null || prev == nd.parent)) ||
        (prev != Null && prev == nd.right) ||
        (prev != Null && prev == nd.left && nd.right == Null)
    }

    ghost predicate Valid()
      reads this, arena
    {
      Wf() && (current != Null ==> Arrival())
    }

    /** The index in the traversal of the node the cursor stands on. */
    ghost function Position(): (k: nat)
      reads this, arena
      requires Wf() && current != Null
      ensures k < Count(shape)
    {
      SeqAtPos(order, shape, current);
      SeqLength(order, shape);
      Pos(order, shape, current)
    }

    /** iterator(root, curr, type): starts on `curr`; the terminal node is
        the root in postorder and the rightmost node otherwise. */
    constructor At(arena: Arena<T>, root: Ptr, curr: Ptr, order: Order, ghost shape: Shape)
      requires Describes(arena.nodes, root, Null, shape) && Distinct(shape)
      requires curr == Null || curr in Ids(shape)
      ensures this.arena == arena && this.root == root && this.order == order && this.shape == shape
      ensures current == curr && prev == Null
      ensures last == if shape.Nil? then Null
                      else if order == Postorder then shape.id
                      else Rightmost(shape)
      ensures order != Preorder ==> Wf()
    {
      WithinIds(shape, |arena.nodes|);
      var l := root;
      if root != Null && order != Postorder {
        l := FindRightmost(arena.nodes, root, shape);
      }
      if shape.Br? {
        Ends(shape);
      }
      this.arena, this.root, this.order, this.shape := arena, root, order, shape;
      current, prev, last := curr, Null, l;
    }

    /** iterator(root, type): starts on the root; the terminal node is the
        rightmost node in inorder, the right-then-left leaf in preorder and
        the root in postorder. */
    constructor Start(arena: Arena<T>, root: Ptr, order: Order, ghost shape: Shape)
      requires Describes(arena.nodes, root, Null, shape) && Distinct(shape)
      ensures this.arena == arena && this.root == root && this.order == order && this.shape == shape
      ensures current == root && prev == Null
      ensures last == if shape.Nil? then Null
                      else if order == Inorder then Rightmost(shape)
                      else if order == Preorder then RightLeftLeaf(shape)
                      else shape.id
      ensures Wf()
      ensures order == Preorder || root == Null ==> Valid()
    {
      var l := root;
      if root != Null {
        if order == Inorder {
          l := FindRightmost(arena.nodes, root, shape);
        } else if order == Preorder {
          l := FindRightLeftLeaf(arena.nodes, root, shape);
        }
        Ends(shape);
        Around(order, arena.nodes, shape, root);
      }
      this.arena, this.root, this.order, this.shape := arena, root, order, shape;
      current, prev, last := root, Null, l;
    }

    /** has_left(): the node has a left subtree. */
    function HasLeft(): (b: bool)
      reads this, arena
      requires Wf() && current != Null
      ensures b <==> SubAt(shape, current).left.Br?
    {
      Around(order, arena.nodes, shape, current);
      arena.nodes[current].left != Null
    }

    /** has_right(): the node has a right subtree. */
    function HasRight(): (b: bool)
      reads this, arena
      requires Wf() && current != Null
      ensures b <==> SubAt(shape, current).right.Br?
    {
      Around(order, arena.nodes, shape, current);
      arena.nodes[current].right != Null
    }

    /** operator*: the value at the cursor is the element of the abstract
        traversal at the cursor's position. */
    function Value(): (v: T)
      reads this, arena
      requires Wf() && current != Null
      ensures Position() < |Traversal(order, ToTree(arena.nodes, shape))|
      ensures v == Traversal(order, ToTree(arena.nodes, shape))[Position()]
    {
      SeqAtPos(order, shape, current);
      TraversalValues(order, arena.nodes, shape);
      arena.nodes[current].value
    }

    /** operator== / operator!=: two cursors are equal when they stand on
        the same node. */
    predicate Equals(other: Iterator<T>)
      reads this, other
    {
      current == other.current
    }

    method GoLeft()
      requires Wf() && current != Null
      modifies this`current, this`prev
      ensures Wf() && prev == old(current) && current == arena.nodes[prev].left
      ensures current != Null ==> arena.nodes[current].parent == prev
    {
      Around(order, arena.nodes, shape, current);
      prev := current;
      current := arena.nodes[current].left;
    }

    method GoRight()
      requires Wf() && current != Null
      modifies this`current, this`prev
      ensures Wf() && prev == old(current) && current == arena.nodes[prev].right
      ensures current != Null ==> arena.nodes[current].parent == prev
    {
      Around(order, arena.nodes, shape, current);
      prev := current;
      current := arena.nodes[current].right;
    }

    method GoUp()
      requires Wf() && current != Null
      modifies this`current, this`prev
      ensures Wf() && prev == old(current) && current == arena.nodes[prev].parent
    {
      Around(order, arena.nodes, shape, current);
      prev := current;
      current := arena.nodes[current].parent;
    }

    /** try_left(): dive from the current node, preferring left children,
        down to the first postorder node of its subtree. */
    method TryLeft()
      requires Wf() && current != Null
      modifies this`current, this`prev
      ensures Wf() && current != Null
      ensures current == LeftRightLeaf(SubAt(shape, old(current)))
      ensures arena.nodes[current].left == Null && arena.nodes[current].right == Null
      ensures prev == arena.nodes[current].parent || (current == old(current) && prev == old(prev))
    {
      ghost var target := LeftRightLeaf(SubAt(shape, current));
      while HasLeft() || HasRight()
        invariant Wf() && current != Null
        invariant LeftRightLeaf(SubAt(shape, current)) == target
        invariant prev == arena.nodes[current].parent || (current == old(current) && prev == old(prev))
        decreases Count(SubAt(shape, current))
      {
        Around(order, arena.nodes, shape, current);
        if HasLeft() {
          GoLeft();
          continue;
        }
        GoRight();
      }
      Around(order, arena.nodes, shape, current);
    }

    /** try_right(): with a right child, step into it and dive to the
        left-then-right leaf of its subtree; without one, stay. */
    method TryRight()
      requires Wf() && current != Null
      modifies this`current, this`prev
      ensures Wf() && current != Null
      ensures SubAt(shape, old(current)).right.Nil? ==> current == old(current) && prev == old(prev)
      ensures SubAt(shape, old(current)).right.Br? ==>
        current == LeftRightLeaf(SubAt(shape, old(current)).right) &&
        prev == arena.nodes[current].parent &&
        arena.nodes[current].left == Null && arena.nodes[current].right == Null
    {
      Around(order, arena.nodes, shape, current);
      if HasRight() {
        GoRight();
        TryLeft();
      }
    }

    /** `while (has_left()) left();` from a node entered from its parent:
        ends on the leftmost node of the subtree. */
    method DiveLeft()
      requires Wf() && current != Null && prev == arena.nodes[current].parent
      modifies this`current, this`prev
      ensures Wf() && current != Null
      ensures current == Leftmost(SubAt(shape, old(current)))
      ensures prev == arena.nodes[current].parent && arena.nodes[current].left == Null
    {
      ghost var target := Leftmost(SubAt(shape, current));
      while HasLeft()
        invariant Wf() && current != Null
        invariant Leftmost(SubAt(shape, current)) == target
        invariant prev == arena.nodes[current].parent
        decreases Count(SubAt(shape, current))
      {
        Around(order, arena.nodes, shape, current);
        GoLeft();
      }
      Around(order, arena.nodes, shape, current);
    }

    /** `while (prev == current->_right) up();` in preorder and inorder,
        where a right child's segment ends where its parent's does. Entered
        just after leaving a subtree whose segment ends at index `k`, it
        stops on the nearest ancestor entered from its left child, never
        climbing past the root as long as index `k` is not the last. */
    method ClimbFromRight(ghost k: nat)
      requires Wf() && order != Postorder && current != Null && prev != Null
      requires prev == arena.nodes[current].left || prev == arena.nodes[current].right
      requires Off(order, shape, prev) + Count(SubAt(shape, prev)) == k + 1 < Count(shape)
      modifies this`current, this`prev
      ensures Wf() && current != Null && prev != Null && prev == arena.nodes[current].left
      ensures Off(order, shape, prev) + Count(SubAt(shape, prev)) == k + 1
      ensures Count(SubAt(shape, prev)) >= old(Count(SubAt(shape, prev)))
    {
      ghost var c0 := Count(SubAt(shape, prev));
      Around(order, arena.nodes, shape, current);
      while prev == arena.nodes[current].right
        invariant Wf() && current != Null && prev != Null
        invariant prev == arena.nodes[current].left || prev == arena.nodes[current].right
        invariant Off(order, shape, prev) + Count(SubAt(shape, prev)) == k + 1
        invariant Count(SubAt(shape, prev)) >= c0
        decreases Count(shape) - Count(SubAt(shape, current))
      {
        Around(order, arena.nodes, shape, current);
        Around(order, arena.nodes, shape, prev);
        assert Off(order, shape, current) + Count(SubAt(shape, current)) == k + 1;
        GoUp();
        Around(order, arena.nodes, shape, current);
      }
    }

    /** The current node is not the terminal one, so a successor exists. */
    lemma NotLast()
      requires Wf() && current != Null && current != last
      ensures shape.Br? && Position() + 1 < Count(shape)
    {
      PosInjective(order, shape, current, last);
      SeqAtPos(order, shape, current);
      SeqLength(order, shape);
    }

    /** Prefix operator++: from the terminal node to the end sentinel,
        otherwise to the next node of the order. */
    method Next()
      requires Valid() && (current != Null || last == Null)
      modifies this`current, this`prev
      ensures Valid()
      ensures old(current) == last ==> current == Null
      ensures old(current) != last ==>
        current != Null && Position() == old(Position()) + 1
    {
      if current == last {
        current := Null;
        return;
      }
      match order
      case Preorder => StepPreorder();
      case Inorder => StepInorder();
      case Postorder => StepPostorder();
    }

    method StepPreorder()
      requires Valid() && order == Preorder && current != Null && current != last
      modifies this`current, this`prev
      ensures Valid() && current != Null && Position() == old(Position()) + 1
    {
      NotLast();
      ghost var k := Position();
      Around(order, arena.nodes, shape, current);
      if prev == Null {
        if HasLeft() {
          GoLeft();
          return;
        }
        if HasRight() {
          GoRight();
          return;
        }
        // A root without children is the terminal node: operator++'s
        // fallback, which nulls the cursor and then reads its parent,
        // is never reached.
        assert false;
      }
      if prev == arena.nodes[current].parent {
        if HasLeft() {
          GoLeft();
          return;
        }
        if HasRight() {
          GoRight();
          return;
        }
        PreorderClimb(k);
      }
    }

    /** The preorder climb from a leaf whose segment ends at index `k`:
        `while (current->_parent) { up(); while (prev == current->_right)
        up(); if (has_right()) break; }` and then a step into the right
        child; it never reaches the root's missing parent while `k` is not
        the last index. */
    method PreorderClimb(ghost k: nat)
      requires Wf() && order == Preorder && current != Null
      requires Off(order, shape, current) + Count(SubAt(shape, current)) == k + 1 < Count(shape)
      modifies this`current, this`prev
      ensures Valid() && current != Null && Position() == k + 1
    {
        while arena.nodes[current].parent != Null
          invariant Wf() && current != Null
          invariant Off(order, shape, current) + Count(SubAt(shape, current)) == k + 1
          decreases Count(shape) - Count(SubAt(shape, current))
        {
          Around(order, arena.nodes, shape, current);
          GoUp();
          Around(order, arena.nodes, shape, current);
          ClimbFromRight(k);
          Around(order, arena.nodes, shape, current);
          if HasRight() {
            break;
          }
        }
        Around(order, arena.nodes, shape, current);
        if HasRight() {
          GoRight();
          return;
        }
        // operator++'s fallback to the end sentinel: not reached, as the
        // climb from a node that is not the terminal one always meets an
        // ancestor with an unvisited right subtree.
        assert false;
    }

    method StepInorder()
      requires Valid() && order == Inorder && current != Null && current != last
      modifies this`current, this`prev
      ensures Valid() && current != Null && Position() == old(Position()) + 1
    {
      NotLast();
      ghost var k := Position();
      Around(order, arena.nodes, shape, current);
      if prev == arena.nodes[current].left {
        if HasRight() {
          GoRight();
          DiveLeft();
          LeftmostFirst(shape, arena.nodes[old(current)].right);
          return;
        }
        GoUp();
        ClimbFromRight(k);
        Around(order, arena.nodes, shape, current);
        return;
      } else if prev == arena.nodes[current].parent {
        if HasLeft() {
          // Entering a node with a left subtree from above never happens
          // in inorder: the cursor always dives to the leftmost node first.
          assert false;
        }
        if HasRight() {
          GoRight();
          DiveLeft();
          LeftmostFirst(shape, arena.nodes[old(current)].right);
          return;
        }
        GoUp();
        ClimbFromRight(k);
        Around(order, arena.nodes, shape, current);
      } else {
        // operator++'s third inorder case, arriving from the right child, cannot
        // occur at a position of the inorder traversal.
        assert false;
      }
    }

    /** `up(); if (prev == current->_left) try_right();` in postorder, leaving
        a subtree whose segment ends at index `k`: the next node is the
        first of the right sibling's subtree, or else the parent. */
    method UpThenTryRight(ghost k: nat)
      requires Wf() && order == Postorder && current != Null
      requires Off(order, shape, current) + Count(SubAt(shape, current)) == k + 1 < Count(shape)
      modifies this`current, this`prev
      ensures Valid() && current != Null && Position() == k + 1
    {
      Around(order, arena.nodes, shape, current);
      GoUp();
      Around(order, arena.nodes, shape, current);
      if prev == arena.nodes[current].left {
        var sibling := arena.nodes[current].right;
        TryRight();
        if sibling != Null {
          LeftRightLeafFirst(shape, sibling);
          Around(order, arena.nodes, shape, current);
        }
      }
    }

    method StepPostorder()
      requires Valid() && order == Postorder && current != Null && current != last
      modifies this`current, this`prev
      ensures Valid() && current != Null && Position() == old(Position()) + 1
    {
      NotLast();
      ghost var k := Position();
      Around(order, arena.nodes, shape, current);
      if prev == Null {
        // The starting leaf: climb one level (the root would be the
        // terminal node, so the parent is never null here).
        GoUp();
        if current == Null {
          return;
        }
        Around(order, arena.nodes, shape, current);
        if prev == arena.nodes[current].left {
          var sibling := arena.nodes[current].right;
          TryRight();
          if sibling != Null {
            LeftRightLeafFirst(shape, sibling);
            Around(order, arena.nodes, shape, current);
          }
        }
        return;
      }
      if prev == arena.nodes[current].parent {
        UpThenTryRight(k);
        return;
      }
      if prev == arena.nodes[current].left {
        var tmp := current;
        TryRight();
        if current == tmp {
          UpThenTryRight(k);
        }
        return;
      }
      if prev == arena.nodes[current].right {
        UpThenTryRight(k);
      }
    }
  }

  /** operator== on two cursors over the same tree and order: equal
      exactly when they stand at the same index of the traversal, or are
      both the end sentinel. */
  lemma {:induction false} EqualsSamePosition<T>(a: Iterator<T>, b: Iterator<T>)
    requires a.Wf() && b.Wf()
    requires a.arena == b.arena && a.shape == b.shape && a.order == b.order
    ensures a.current == Null ==> (a.Equals(b) <==> b.current == Null)
    ensures a.current != Null && b.current != Null ==> (a.Equals(b) <==> a.Position() == b.Position())
  {
    if a.current != Null && b.current != Null {
      PosInjective(a.order, a.shape, a.current, b.current);
    }
  }

  /** `while (p->_right) p = p->_right;` from the root: the rightmost node,
      which is the last node of the inorder traversal. */
  method FindRightmost<T>(nodes: seq<Node<T>>, root: Ptr, ghost shape: Shape) returns (l: Ptr)
    requires Describes(nodes, root, Null, shape) && Distinct(shape) && shape.Br?
    ensures l == Rightmost(shape) && Pos(Inorder, shape, l) == Count(shape) - 1
  {
    WithinIds(shape, |nodes|);
    l := root;
    while nodes[l].right != Null
      invariant l in Ids(shape) && Rightmost(SubAt(shape, l)) == Rightmost(shape)
      decreases Count(SubAt(shape, l))
    {
      Around(Inorder, nodes, shape, l);
      l := nodes[l].right;
    }
    Around(Inorder, nodes, shape, l);
    Ends(shape);
  }

  /** The preorder terminal node: from the root, go right when possible and
      left otherwise, down to a leaf. */
  method FindRightLeftLeaf<T>(nodes: seq<Node<T>>, root: Ptr, ghost shape: Shape) returns (l: Ptr)
    requires Describes(nodes, root, Null, shape) && Distinct(shape) && shape.Br?
    ensures l == RightLeftLeaf(shape) && Pos(Preorder, shape, l) == Count(shape) - 1
  {
    WithinIds(shape, |nodes|);
    l := root;
    while nodes[l].right != Null || nodes[l].left != Null
      invariant l in Ids(shape) && RightLeftLeaf(SubAt(shape, l)) == RightLeftLeaf(shape)
      decreases Count(SubAt(shape, l))
    {
      Around(Preorder, nodes, shape, l);
      if nodes[l].right != Null {
        l := nodes[l].right;
      } else {
        l := nodes[l].left;
      }
    }
    Around(Preorder, nodes, shape, l);
    Ends(shape);
  }

  /** begin_inorder's search: `while (p->_left) p = p->_left;` from the
      root, the first node of the inorder traversal. */
  method FindLeftmost<T>(nodes: seq<Node<T>>, root: Ptr, ghost shape: Shape) returns (l: Ptr)
    requires Describes(nodes, root, Null, shape) && Distinct(shape) && shape.Br?
    ensures l == Leftmost(shape) && Pos(Inorder, shape, l) == 0
    ensures 0 <= l < |nodes| && nodes[l].left == Null
  {
    WithinIds(shape, |nodes|);
    l := root;
    while nodes[l].left != Null
      invariant l in Ids(shape) && Leftmost(SubAt(shape, l)) == Leftmost(shape)
      decreases Count(SubAt(shape, l))
    {
      Around(Inorder, nodes, shape, l);
      l := nodes[l].left;
    }
    Around(Inorder, nodes, shape, l);
    Ends(shape);
  }

  /** begin_postorder's search: from the root, go left when possible and
      right otherwise, down to a leaf, the first node of the postorder
      traversal. */
  method FindLeftRightLeaf<T>(nodes: seq<Node<T>>, root: Ptr, ghost shape: Shape) returns (l: Ptr)
    requires Describes(nodes, root, Null, shape) && Distinct(shape) && shape.Br?
    ensures l == LeftRightLeaf(shape) && Pos(Postorder, shape, l) == 0
    ensures 0 <= l < |nodes| && nodes[l].left == Null && nodes[l].right == Null
  {
    WithinIds(shape, |nodes|);
    l := root;
    while nodes[l].left != Null || nodes[l].right != Null
      invariant l in Ids(shape) && LeftRightLeaf(SubAt(shape, l)) == LeftRightLeaf(shape)
      decreases Count(SubAt(shape, l))
    {
      Around(Postorder, nodes, shape, l);
      if nodes[l].left != Null {
        l := nodes[l].left;
      } else {
        l := nodes[l].right;
      }
    }
    Around(Postorder, nodes, shape, l);
    Ends(shape);
  }
}
