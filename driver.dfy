/** Client code: the range loops of the demonstration program, which walk a
    cursor from a begin cursor to the matching end cursor. */
module Driver {
  import opened Trees
  import opened Shapes
  import opened Nodes
  import opened Layout
  import opened Cursors
  import opened BinaryTrees

  /** `for (; it != stop; ++it) out.push_back(*it);` from a begin cursor:
      the values come out in the cursor's traversal order, each node once. */
  method Drain<T>(it: Iterator<T>, stop: Iterator<T>) returns (vals: seq<T>)
    requires it.Valid() && it != stop && stop.current == Null
    requires it.current == Null <==> it.shape.Nil?
    requires it.current != Null ==> it.Position() == 0
    modifies it
    ensures vals == Traversal(it.order, ToTree(it.arena.nodes, it.shape))
  {
    ghost var all := Traversal(it.order, ToTree(it.arena.nodes, it.shape));
    TraversalValues(it.order, it.arena.nodes, it.shape);
    SeqLength(it.order, it.shape);
    vals := [];
    while !it.Equals(stop)
      invariant it.Valid() && stop.current == Null
      invariant |all| == Count(it.shape) && |vals| <= |all|
      invariant vals == all[..|vals|]
      invariant it.current != Null ==> it.Position() == |vals|
      invariant it.current == Null ==> |vals| == |all|
      decreases |all| - |vals|
    {
      ghost var k := |vals|;
      var v := it.Value();
      assert v == all[k];
      assert all[..k + 1] == all[..k] + [v];
      vals := vals + [v];
      it.Next();
    }
  }

  /** Walking a tree from begin_<order>() to end_<order>() yields its
      traversal in that order. */
  method Walk<T(==)>(tree: BinaryTree<T>, order: Order) returns (vals: seq<T>)
    requires tree.Valid()
    ensures vals == Traversal(order, tree.Abs())
  {
    var it: Iterator<T>;
    match order {
      case Preorder => it := tree.BeginPreorder();
      case Inorder => it := tree.BeginInorder();
      case Postorder => it := tree.BeginPostorder();
    }
    var stop := tree.End(order);
    vals := Drain(it, stop);
  }

  /** `for (T element : tree)`: the range loop over begin() and end() walks
      the tree in inorder. */
  method RangeFor<T(==)>(tree: BinaryTree<T>) returns (vals: seq<T>)
    requires tree.Valid()
    ensures vals == Traversal(Inorder, tree.Abs())
  {
    var it := tree.Begin();
    var stop := tree.End(Inorder);
    vals := Drain(it, stop);
  }

  /** The demonstration program's first tree and the four loops over it. */
  method Demo() returns (pre: seq<int>, ino: seq<int>, post: seq<int>, range: seq<int>)
    ensures pre == [1, 2, 4, 5, 3]
    ensures ino == [4, 2, 5, 1, 3]
    ensures post == [4, 5, 2, 3, 1]
    ensures range == ino
  {
    var tree := new BinaryTree<int>();
    tree.AddRoot(1);
    var status := tree.AddLeft(1, 9);
    status := tree.AddLeft(9, 4);
    status := tree.AddRight(9, 5);
    status := tree.AddRight(1, 3);
    status := tree.AddLeft(1, 2);
    DemoTraversals();
    assert tree.Abs() == DemoTree().value;
    pre := Walk(tree, Preorder);
    ino := Walk(tree, Inorder);
    post := Walk(tree, Postorder);
    range := RangeFor(tree);
  }

  /** A moved-from tree shares its heap with the tree that took its nodes:
      growing the emptied tree again leaves the other tree's nodes, and so
      its values, untouched. */
  method MoveThenRegrow() returns (moved: seq<int>, regrown: seq<int>)
    ensures moved == [1] && regrown == [7]
  {
    var a := new BinaryTree<int>();
    a.AddRoot(1);
    var b := new BinaryTree.Move(a);
    ghost var before := a.arena.nodes;
    WithinIds(b.shape, |before|);
    a.AddRoot(7);
    Frame(before, a.arena.nodes, b.root, Null, b.shape);
    assert b.Abs() == Single(1) && a.Abs() == Single(7);
    moved := Walk(b, Preorder);
    regrown := Walk(a, Preorder);
  }

  /** Advancing an end_<order>() cursor: its terminal node is null, so ++
      leaves it on no node. */
  method EndStaysEnd<T>(tree: BinaryTree<T>, order: Order) returns (e: Iterator<T>)
    ensures e.Valid() && e.current == Null && e.order == order
  {
    e := tree.End(order);
    e.Next();
  }

  function Single(v: int): Tree<int>
  {
    Branch(Leaf, v, Leaf)
  }

  /** The trees the second demonstration builds, one per call. */
  function SecondSteps(k: nat): Tree<int>
    requires k <= 8
  {
    var t4 := Branch(Single(4), 2, Single(5));
    match k
    case 0 => Single(1)
    case 1 => Branch(Single(2), 1, Leaf)
    case 2 => Branch(Single(2), 1, Single(3))
    case 3 => Branch(Branch(Single(4), 2, Leaf), 1, Single(3))
    case 4 => Branch(t4, 1, Single(3))
    case 5 => Branch(t4.(right := Branch(Single(10), 5, Leaf)), 1, Single(3))
    case 6 => Branch(t4.(right := Branch(Single(10), 5, Single(11))), 1, Single(3))
    case 7 => Branch(t4.(right := Branch(Branch(Single(20), 10, Leaf), 5, Single(11))), 1, Single(3))
    case _ => Branch(t4.(right := Branch(Branch(Single(20), 10, Leaf), 5, Branch(Leaf, 11, Single(23)))), 1, Single(3))
  }

  /** The k-th add_left/add_right call of the second demonstration. */
  function SecondCall(k: nat): (Side, int, int)
  {
    match k
    case 0 => (Left, 1, 2)
    case 1 => (Right, 1, 3)
    case 2 => (Left, 2, 4)
    case 3 => (Right, 2, 5)
    case 4 => (Left, 5, 10)
    case 5 => (Right, 5, 11)
    case 6 => (Left, 10, 20)
    case _ => (Right, 11, 23)
  }

  /** The first five add_left/add_right calls of the second demonstration
      each find their parent and produce the next tree. */
  lemma SecondStepsEarly()
    ensures var (side, p, c) := SecondCall(0);
      Add(SecondSteps(0), side, p, c) == Ok(SecondSteps(1))
    ensures var (side, p, c) := SecondCall(1);
      Add(SecondSteps(1), side, p, c) == Ok(SecondSteps(2))
    ensures var (side, p, c) := SecondCall(2);
      Add(SecondSteps(2), side, p, c) == Ok(SecondSteps(3))
    ensures var (side, p, c) := SecondCall(3);
      Add(SecondSteps(3), side, p, c) == Ok(SecondSteps(4))
    ensures var (side, p, c) := SecondCall(4);
      Add(SecondSteps(4), side, p, c) == Ok(SecondSteps(5))
  {
    assert Traversal(Preorder, SecondSteps(4)) == [1, 2, 4, 5, 3];
  }

  /** The sixth call, add_right(5, 11). */
  lemma SecondStep5()
    ensures var (side, p, c) := SecondCall(5);
      Add(SecondSteps(5), side, p, c) == Ok(SecondSteps(6))
  {
    assert Traversal(Preorder, SecondSteps(5)) == [1, 2, 4, 5, 10, 3];
  }

  /** The seventh call, add_left(10, 20). */
  lemma SecondStep6()
    ensures var (side, p, c) := SecondCall(6);
      Add(SecondSteps(6), side, p, c) == Ok(SecondSteps(7))
  {
    assert Traversal(Preorder, SecondSteps(6)) == [1, 2, 4, 5, 10, 11, 3];
  }

  /** The last call, add_right(11, 23). */
  lemma SecondStep7()
    ensures var (side, p, c) := SecondCall(7);
      Add(SecondSteps(7), side, p, c) == Ok(SecondSteps(8))
  {
    assert Traversal(Preorder, SecondSteps(7)) == [1, 2, 4, 5, 10, 20, 11, 3];
  }

  /** The subtree under 5 of the second tree, in postorder and inorder. */
  lemma SecondFive()
    ensures var five := Branch(Branch(Single(20), 10, Leaf), 5, Branch(Leaf, 11, Single(23)));
      Traversal(Postorder, five) == [20, 10, 23, 11, 5] &&
      Traversal(Inorder, five) == [20, 10, 5, 11, 23]
  {
  }

  /** The second tree's postorder, as the demonstration's comment gives it,
      and its inorder. */
  lemma SecondTraversals()
    ensures Traversal(Postorder, SecondSteps(8)) == [4, 20, 10, 23, 11, 5, 2, 3, 1]
    ensures Traversal(Inorder, SecondSteps(8)) == [4, 2, 20, 10, 5, 11, 23, 1, 3]
  {
    var five := Branch(Branch(Single(20), 10, Leaf), 5, Branch(Leaf, 11, Single(23)));
    assert SecondSteps(8) == Branch(Branch(Single(4), 2, five), 1, Single(3));
    SecondFive();
    var two := Branch(Single(4), 2, five);
    assert Traversal(Postorder, two) == [4] + [20, 10, 23, 11, 5] + [2];
    assert Traversal(Inorder, two) == [4] + [2] + [20, 10, 5, 11, 23];
  }

  /** Each call of the second demonstration finds its parent and produces
      the next tree. */
  lemma SecondCallOk(k: nat)
    requires k < 8
    ensures var (side, p, c) := SecondCall(k);
      Add(SecondSteps(k), side, p, c) == Ok(SecondSteps(k + 1))
  {
    if k < 5 {
      SecondStepsEarly();
    } else if k == 5 {
      SecondStep5();
    } else if k == 6 {
      SecondStep6();
    } else {
      SecondStep7();
    }
  }

  /** The k-th call of the second demonstration on the tree. */
  method Step(tree: BinaryTree<int>, k: nat)
    requires tree.Valid() && k < 8 && tree.Abs() == SecondSteps(k)
    modifies tree, tree.arena
    ensures tree.Valid() && tree.Abs() == SecondSteps(k + 1)
  {
    SecondCallOk(k);
    var (side, p, c) := SecondCall(k);
    var status: Result<()>;
    if side == Left {
      status := tree.AddLeft(p, c);
    } else {
      status := tree.AddRight(p, c);
    }
  }

  /** add_root(1) and the first four add_left/add_right calls of the
      second demonstration. */
  method SecondBuildEarly() returns (tree: BinaryTree<int>)
    ensures fresh(tree) && fresh(tree.arena) && tree.Valid() && tree.Abs() == SecondSteps(4)
  {
    tree := new BinaryTree<int>();
    tree.AddRoot(1);
    Step(tree, 0);
    Step(tree, 1);
    Step(tree, 2);
    Step(tree, 3);
  }

  /** The demonstration program's second tree, built with distinct values
      by add_root and eight add_left/add_right calls. */
  method SecondBuild() returns (tree: BinaryTree<int>)
    ensures fresh(tree) && fresh(tree.arena) && tree.Valid() && tree.Abs() == SecondSteps(8)
  {
    tree := SecondBuildEarly();
    Step(tree, 4);
    Step(tree, 5);
    Step(tree, 6);
    Step(tree, 7);
  }

  /** The second tree's postorder and inorder walks. */
  method SecondDemo() returns (post: seq<int>, ino: seq<int>, range: seq<int>)
    ensures post == [4, 20, 10, 23, 11, 5, 2, 3, 1]
    ensures ino == [4, 2, 20, 10, 5, 11, 23, 1, 3]
    ensures range == ino
  {
    var tree := SecondBuild();
    SecondTraversals();
    post := Walk(tree, Postorder);
    ino := Walk(tree, Inorder);
    range := RangeFor(tree);
  }
}
