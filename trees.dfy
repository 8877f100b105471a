/** The abstract binary tree: the values a BinaryTree<T> holds, the three
    depth-first orders, and the value-level meaning of the mutators. */
module Trees {

  /** A binary tree of values, as a value. */
  datatype Tree<T> = Leaf | Branch(left: Tree<T>, value: T, right: Tree<T>)

  /** The three traversal orders a cursor can follow. */
  datatype Order = Preorder | Inorder | Postorder

  /** Which child slot of a node an operation addresses. */
  datatype Side = Left | Right

  /** The two failures of the mutators: `find` on a tree without a root,
      and a parent value that no node holds (both are std::invalid_argument). */
  datatype Error = EmptyTree | ParentNotFound

  datatype Result<R> = Ok(value: R) | Err(error: Error)

  function Size<T>(t: Tree<T>): nat
  {
    match t
    case Leaf => 0
    case Branch(l, _, r) => Size(l) + 1 + Size(r)
  }

  /** The standard depth-first sequence of the values of `t` in order `o`. */
  function Traversal<T>(o: Order, t: Tree<T>): seq<T>
  {
    match t
    case Leaf => []
    case Branch(l, v, r) =>
      match o
      case Preorder => [v] + Traversal(o, l) + Traversal(o, r)
      case Inorder => Traversal(o, l) + [v] + Traversal(o, r)
      case Postorder => Traversal(o, l) + Traversal(o, r) + [v]
  }

  /** Every order lists each node of the tree once: the three traversals are
      permutations of one another, of length Size(t). */
  lemma {:induction false} TraversalsArePermutations<T>(o1: Order, o2: Order, t: Tree<T>)
    ensures |Traversal(o1, t)| == Size(t)
    ensures multiset(Traversal(o1, t)) == multiset(Traversal(o2, t))
  {
    match t
    case Leaf =>
    case Branch(l, v, r) =>
      TraversalsArePermutations(o1, o2, l);
      TraversalsArePermutations(o1, o2, r);
  }

  function Child<T>(t: Tree<T>, side: Side): Tree<T>
    requires t.Branch?
  {
    if side == Left then t.left else t.right
  }

  function WithChild<T>(t: Tree<T>, side: Side, c: Tree<T>): Tree<T>
    requires t.Branch?
  {
    if side == Left then t.(left := c) else t.(right := c)
  }

  /** add_root: a tree without a root gets a childless root holding `v`;
      otherwise only the root's value changes. */
  function AddRoot<T>(t: Tree<T>, v: T): Tree<T>
  {
    if t.Leaf? then Branch(Leaf, v, Leaf) else t.(value := v)
  }

  /** The effect of add_left/add_right on the node they located: an empty
      slot receives a new leaf holding `c`; an occupied slot keeps its node
      and that node's subtrees and only takes the value `c`. */
  function SetChild<T>(t: Tree<T>, side: Side, c: T): Tree<T>
    requires t.Branch?
  {
    var ch := Child(t, side);
    WithChild(t, side, if ch.Leaf? then Branch(Leaf, c, Leaf) else ch.(value := c))
  }

  /** SetChild applied at the first node, in left-before-right depth-first
      order, whose value is `p`. */
  function AddAtFirst<T(==)>(t: Tree<T>, side: Side, p: T, c: T): Tree<T>
    requires p in Traversal(Preorder, t)
  {
    if t.value == p then SetChild(t, side, c)
    else if p in Traversal(Preorder, t.left) then t.(left := AddAtFirst(t.left, side, p, c))
    else t.(right := AddAtFirst(t.right, side, p, c))
  }

  /** add_left (side Left) and add_right (side Right) on the value level. */
  function Add<T(==)>(t: Tree<T>, side: Side, p: T, c: T): Result<Tree<T>>
  {
    if t.Leaf? then Err(EmptyTree)
    else if p !in Traversal(Preorder, t) then Err(ParentNotFound)
    else Ok(AddAtFirst(t, side, p, c))
  }

  /** The subtree rooted at the first node, in left-before-right
      depth-first order, whose value is `p`: the node add_left/add_right
      act on. */
  function FirstSub<T(==)>(t: Tree<T>, p: T): (s: Tree<T>)
    requires p in Traversal(Preorder, t)
    ensures s.Branch? && s.value == p
    ensures Size(s) <= Size(t)
  {
    if t.value == p then t
    else if p in Traversal(Preorder, t.left) then FirstSub(t.left, p)
    else FirstSub(t.right, p)
  }

  /** add_left/add_right never remove a node: they add exactly one when the
      located node's slot was empty and none when it was occupied, and the
      new value `c` is then in the tree. */
  lemma {:induction false} AddAtFirstSize<T>(t: Tree<T>, side: Side, p: T, c: T)
    requires p in Traversal(Preorder, t)
    ensures Size(AddAtFirst(t, side, p, c)) ==
      Size(t) + (if Child(FirstSub(t, p), side).Leaf? then 1 else 0)
    ensures c in Traversal(Preorder, AddAtFirst(t, side, p, c))
  {
    if t.value == p {
      var ch := Child(t, side);
      if side == Left {
        assert Traversal(Preorder, SetChild(t, side, c)) ==
          [t.value] + Traversal(Preorder, SetChild(t, side, c).left) + Traversal(Preorder, t.right);
        assert Traversal(Preorder, SetChild(t, side, c).left)[0] == c;
      } else {
        assert Traversal(Preorder, SetChild(t, side, c)) ==
          [t.value] + Traversal(Preorder, t.left) + Traversal(Preorder, SetChild(t, side, c).right);
        assert Traversal(Preorder, SetChild(t, side, c).right)[0] == c;
      }
    } else if p in Traversal(Preorder, t.left) {
      AddAtFirstSize(t.left, side, p, c);
    } else {
      assert p in Traversal(Preorder, t.right);
      AddAtFirstSize(t.right, side, p, c);
    }
  }

  /** The tree the demonstration driver builds: add_root(1), add_left(1, 9),
      add_left(9, 4), add_right(9, 5), add_right(1, 3), add_left(1, 2). */
  function DemoTree(): Result<Tree<int>>
  {
    var t0 := AddRoot(Leaf, 1);
    var r1 := Add(t0, Left, 1, 9);
    if r1.Err? then r1 else
    var r2 := Add(r1.value, Left, 9, 4);
    if r2.Err? then r2 else
    var r3 := Add(r2.value, Right, 9, 5);
    if r3.Err? then r3 else
    var r4 := Add(r3.value, Right, 1, 3);
    if r4.Err? then r4 else
    Add(r4.value, Left, 1, 2)
  }

  /** The last add_left(1, 2) overwrites the value 9 and keeps 9's children,
      so the three traversals print 1 2 4 5 3, 4 2 5 1 3 and 4 5 2 3 1. */
  lemma DemoTraversals()
    ensures DemoTree().Ok?
    ensures Traversal(Preorder, DemoTree().value) == [1, 2, 4, 5, 3]
    ensures Traversal(Inorder, DemoTree().value) == [4, 2, 5, 1, 3]
    ensures Traversal(Postorder, DemoTree().value) == [4, 5, 2, 3, 1]
  {
    var four := Branch(Leaf, 4, Leaf);
    var five := Branch(Leaf, 5, Leaf);
    var three := Branch(Leaf, 3, Leaf);
    var t0 := Branch(Leaf, 1, Leaf);
    assert AddRoot(Leaf, 1) == t0;
    var t1 := Branch(Branch(Leaf, 9, Leaf), 1, Leaf);
    assert Add(t0, Left, 1, 9) == Ok(t1);
    var t2 := Branch(Branch(four, 9, Leaf), 1, Leaf);
    assert Traversal(Preorder, t1) == [1, 9];
    assert Add(t1, Left, 9, 4) == Ok(t2);
    var t3 := Branch(Branch(four, 9, five), 1, Leaf);
    assert Traversal(Preorder, t2) == [1, 9, 4];
    assert Add(t2, Right, 9, 5) == Ok(t3);
    var t4 := Branch(Branch(four, 9, five), 1, three);
    assert Add(t3, Right, 1, 3) == Ok(t4);
    var t5 := Branch(Branch(four, 2, five), 1, three);
    assert Add(t4, Left, 1, 2) == Ok(t5);
    assert DemoTree() == Ok(t5);
  }
}
