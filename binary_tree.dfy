/** BinaryTree<T>: the owner of the root pointer, with the value search that
    add_left/add_right rely on, the mutators and the cursor factories. */
module BinaryTrees {
  import opened Trees
  import opened Shapes
  import opened Nodes
  import opened Layout
  import opened Cursors

  /** The first node among `ids` that holds `val`, or Null. */
  ghost function FirstWith<T>(nodes: seq<Node<T>>, ids: seq<nat>, val: T): Ptr
  {
    if ids == [] then Null
    else if ids[0] < |nodes| && nodes[ids[0]].value == val then ids[0]
    else FirstWith(nodes, ids[1..], val)
  }

  /** FirstWith finds a node exactly when some node in `ids` holds `val`,
      and then it is the earliest such node. */
  lemma {:induction false} FirstWithSpec<T>(nodes: seq<Node<T>>, ids: seq<nat>, val: T)
    requires forall k :: 0 <= k < |ids| ==> ids[k] < |nodes|
    ensures FirstWith(nodes, ids, val) == Null <==> val !in Values(nodes, ids)
    ensures FirstWith(nodes, ids, val) != Null ==>
      exists i :: 0 <= i < |ids| && ids[i] == FirstWith(nodes, ids, val) &&
        nodes[ids[i]].value == val &&
        forall j :: 0 <= j < i ==> nodes[ids[j]].value != val
  {
    if ids != [] {
      FirstWithSpec(nodes, ids[1..], val);
      assert Values(nodes, ids) == [nodes[ids[0]].value] + Values(nodes, ids[1..]);
      if nodes[ids[0]].value != val && FirstWith(nodes, ids, val) != Null {
        var i :| 0 <= i < |ids[1..]| && ids[1..][i] == FirstWith(nodes, ids, val) &&
          nodes[ids[1..][i]].value == val &&
          forall j :: 0 <= j < i ==> nodes[ids[1..][j]].value != val;
        assert forall j :: 0 <= j < i + 1 ==> nodes[ids[j]].value != val by {
          forall j | 0 <= j < i + 1
            ensures nodes[ids[j]].value != val
          {
            if j > 0 {
              assert ids[j] == ids[1..][j - 1];
            }
          }
        }
        assert ids[i + 1] == ids[1..][i];
      }
    }
  }

  lemma {:induction false} FirstWithJoin<T>(nodes: seq<Node<T>>, a: seq<nat>, b: seq<nat>, val: T)
    ensures FirstWith(nodes, a + b, val) ==
      if FirstWith(nodes, a, val) != Null then FirstWith(nodes, a, val) else FirstWith(nodes, b, val)
  {
    if a == [] {
      assert a + b == b;
    } else {
      assert (a + b)[0] == a[0];
      assert (a + b)[1..] == a[1..] + b;
      FirstWithJoin(nodes, a[1..], b, val);
    }
  }

  lemma {:induction false} FirstWithIn<T>(nodes: seq<Node<T>>, ids: seq<nat>, val: T)
    ensures FirstWith(nodes, ids, val) != Null ==> FirstWith(nodes, ids, val) in ids
  {
    if ids != [] {
      FirstWithIn(nodes, ids[1..], val);
    }
  }

  /** The preorder search from the root of `s` splits into the root, then
      the left subtree, then the right subtree. */
  lemma FirstWithPreorder<T>(nodes: seq<Node<T>>, s: Shape, val: T)
    requires s.Br?
    ensures var l, r := Seq(Preorder, s.left), Seq(Preorder, s.right);
      FirstWith(nodes, Seq(Preorder, s), val) ==
        if s.id < |nodes| && nodes[s.id].value == val then s.id
        else if FirstWith(nodes, l, val) != Null then FirstWith(nodes, l, val)
        else FirstWith(nodes, r, val)
  {
    var l, r := Seq(Preorder, s.left), Seq(Preorder, s.right);
    assert Seq(Preorder, s) == [s.id] + (l + r);
    FirstWithJoin(nodes, l, r, val);
  }

  /** find(val, node): the first node, in preorder, of the subtree at `p`
      that holds `val`, or Null. */
  function FindFrom<T(==)>(nodes: seq<Node<T>>, val: T, p: Ptr, ghost par: Ptr, ghost s: Shape): (r: Ptr)
    requires Describes(nodes, p, par, s) && s.Br?
    ensures r == FirstWith(nodes, Seq(Preorder, s), val)
    decreases s
  {
    FirstWithPreorder(nodes, s, val);
    var nd := nodes[p];
    if val == nd.value then p
    else if nd.left == Null && nd.right == Null then Null
    else
      var n1 := if nd.left != Null then FindFrom(nodes, val, nd.left, p, s.left) else Null;
      if n1 != Null then n1
      else
        var n2 := if nd.right != Null then FindFrom(nodes, val, nd.right, p, s.right) else Null;
        if n2 != Null then n2 else Null
  }

  /** The arena after add_left (side Left) or add_right (side Right) acted
      on node `x`: an empty slot receives a fresh node holding `c` whose
      parent is `x`; an occupied slot's node takes the value `c`. */
  ghost predicate ChildSet<T>(nodes: seq<Node<T>>, nodes': seq<Node<T>>, x: Ptr, side: Side, c: T)
  {
    0 <= x < |nodes| &&
    var y := nodes[x].Link(side);
    if y == Null then
      |nodes'| == |nodes| + 1 && nodes'[|nodes|] == Node(c, Null, Null, x) &&
      nodes'[x] == (if side == Left then nodes[x].(left := |nodes|) else nodes[x].(right := |nodes|)) &&
      forall j :: 0 <= j < |nodes| && j != x ==> nodes'[j] == nodes[j]
    else
      0 <= y < |nodes| && nodes' == nodes[y := nodes[y].(value := c)]
  }

  /** The shape after ChildSet at `x`: node `n` fills x's empty slot. */
  ghost function Graft(s: Shape, x: Ptr, side: Side, n: nat): Shape
  {
    match s
    case Nil => Nil
    case Br(l, i, r) =>
      if i == x then
        if side == Left && l.Nil? then Br(Br(Nil, n, Nil), i, r)
        else if side == Right && r.Nil? then Br(l, i, Br(Nil, n, Nil))
        else s
      else Br(Graft(l, x, side, n), i, Graft(r, x, side, n))
  }

  /** Grafting keeps the root, adds at most the new node, keeps the shape
      free of repeats, and leaves shapes without `x` alone. */
  lemma {:induction false} GraftIds(s: Shape, x: Ptr, side: Side, n: nat)
    ensures Root(Graft(s, x, side, n)) == Root(s)
    ensures Ids(Graft(s, x, side, n)) <= Ids(s) + {n}
    ensures x !in Ids(s) ==> Graft(s, x, side, n) == s
    ensures Distinct(s) && n !in Ids(s) ==> Distinct(Graft(s, x, side, n))
  {
    if s.Br? {
      GraftIds(s.left, x, side, n);
      GraftIds(s.right, x, side, n);
    }
  }

  /** ChildSet leaves alone every node other than `x` and the slot's node. */
  lemma ChildSetFrame<T>(nodes: seq<Node<T>>, nodes': seq<Node<T>>, x: Ptr, side: Side, c: T, ids: set<nat>)
    requires ChildSet(nodes, nodes', x, side, c)
    requires forall i :: i in ids ==> i < |nodes|
    requires x !in ids && nodes[x].Link(side) !in ids
    ensures forall i :: i in ids ==> i < |nodes| && i < |nodes'| && nodes'[i] == nodes[i]
  {
  }

  /** A link of a node of `s` leads to a node of `s`. */
  lemma {:induction false} LinkInside<T>(nodes: seq<Node<T>>, s: Shape, par: Ptr, x: Ptr, side: Side)
    requires Describes(nodes, Root(s), par, s) && x in Ids(s)
    ensures 0 <= x < |nodes|
    ensures nodes[x].Link(side) != Null ==> nodes[x].Link(side) in Ids(s)
  {
    if x != s.id {
      if x in Ids(s.left) {
        LinkInside(nodes, s.left, s.id, x, side);
      } else {
        LinkInside(nodes, s.right, s.id, x, side);
      }
    }
  }

  /** ChildSet at the root of `s`. */
  lemma AddAtRoot<T>(nodes: seq<Node<T>>, nodes': seq<Node<T>>, s: Shape, par: Ptr, side: Side, c: T)
    requires Describes(nodes, Root(s), par, s) && Distinct(s) && s.Br?
    requires ChildSet(nodes, nodes', s.id, side, c)
    ensures Describes(nodes', Root(s), par, Graft(s, s.id, side, |nodes|))
    ensures ToTree(nodes', Graft(s, s.id, side, |nodes|)) == SetChild(ToTree(nodes, s), side, c)
  {
    WithinIds(s.left, |nodes|);
    WithinIds(s.right, |nodes|);
    var l, i, r := s.left, s.id, s.right;
    var y := nodes[i].Link(side);
    var ch := if side == Left then l else r;
    var other := if side == Left then r else l;
    assert y == Root(ch) && nodes[i].Link(if side == Left then Right else Left) == Root(other);
    ChildSetFrame(nodes, nodes', i, side, c, Ids(other));
    Frame(nodes, nodes', Root(other), i, other);
    if y == Null {
      var n := |nodes|;
      assert ch.Nil? && nodes'[n] == Node(c, Null, Null, i) && nodes'[i].value == nodes[i].value;
      if side == Left {
        assert Graft(s, i, side, n) == Br(Br(Nil, n, Nil), i, r);
        assert ToTree(nodes', Br(Nil, n, Nil)) == Branch(Leaf, c, Leaf);
        assert ToTree(nodes', r) == ToTree(nodes, r);
        assert ToTree(nodes', Br(Br(Nil, n, Nil), i, r)) ==
          Branch(Branch(Leaf, c, Leaf), nodes[i].value, ToTree(nodes, r));
      } else {
        assert Graft(s, i, side, n) == Br(l, i, Br(Nil, n, Nil));
        assert ToTree(nodes', Br(Nil, n, Nil)) == Branch(Leaf, c, Leaf);
        assert ToTree(nodes', l) == ToTree(nodes, l);
        assert ToTree(nodes', Br(l, i, Br(Nil, n, Nil))) ==
          Branch(ToTree(nodes, l), nodes[i].value, Branch(Leaf, c, Leaf));
      }
    } else {
      WithinIds(ch.left, |nodes|);
      WithinIds(ch.right, |nodes|);
      ChildSetFrame(nodes, nodes', i, side, c, Ids(ch.left));
      ChildSetFrame(nodes, nodes', i, side, c, Ids(ch.right));
      Frame(nodes, nodes', Root(ch.left), y, ch.left);
      Frame(nodes, nodes', Root(ch.right), y, ch.right);
      assert nodes'[i] == nodes[i] && Graft(s, i, side, |nodes|) == s;
      assert ToTree(nodes', ch) == Branch(ToTree(nodes, ch.left), c, ToTree(nodes, ch.right));
      if side == Left {
        assert ToTree(nodes', s) == Branch(ToTree(nodes', ch), nodes[i].value, ToTree(nodes, other));
      } else {
        assert ToTree(nodes', s) == Branch(ToTree(nodes, other), nodes[i].value, ToTree(nodes', ch));
      }
    }
  }

  /** The subtree of `s` holding the node that the preorder search for
      `val` finds, when the root does not hold `val`, and the other one. */
  lemma SearchSide<T>(nodes: seq<Node<T>>, s: Shape, par: Ptr, val: T, side: Side)
    requires Describes(nodes, Root(s), par, s) && Distinct(s) && s.Br?
    requires nodes[s.id].value != val && val in Traversal(Preorder, ToTree(nodes, s))
    ensures var x := FirstWith(nodes, Seq(Preorder, s), val);
      var inLeft := val in Traversal(Preorder, ToTree(nodes, s.left));
      var sub := if inLeft then s.left else s.right;
      x != Null && x == FirstWith(nodes, Seq(Preorder, sub), val) &&
      val in Traversal(Preorder, ToTree(nodes, sub)) &&
      x in Ids(sub) && 0 <= x < |nodes| &&
      (nodes[x].Link(side) != Null ==> nodes[x].Link(side) in Ids(sub))
  {
    WithinIds(s, |nodes|);
    var l, i, r := s.left, s.id, s.right;
    FirstWithPreorder(nodes, s, val);
    TraversalValues(Preorder, nodes, l);
    TraversalValues(Preorder, nodes, r);
    FirstWithSpec(nodes, Seq(Preorder, l), val);
    FirstWithSpec(nodes, Seq(Preorder, r), val);
    assert Traversal(Preorder, ToTree(nodes, s)) ==
      [nodes[i].value] + Traversal(Preorder, ToTree(nodes, l)) + Traversal(Preorder, ToTree(nodes, r));
    var inLeft := val in Traversal(Preorder, ToTree(nodes, l));
    var sub := if inLeft then l else r;
    var x := FirstWith(nodes, Seq(Preorder, s), val);
    FirstWithIn(nodes, Seq(Preorder, sub), val);
    SeqEnumerates(Preorder, sub);
    LinkInside(nodes, sub, i, x, side);
  }

  /** add_left/add_right below the root of `s`: acting on the node that
      the preorder search for `val` finds, the arena holds the abstract
      AddAtFirst of the tree it held. */
  lemma {:induction false} AddAtNode<T>(nodes: seq<Node<T>>, nodes': seq<Node<T>>, s: Shape, par: Ptr,
                                           x: Ptr, val: T, side: Side, c: T)
    requires Describes(nodes, Root(s), par, s) && Distinct(s)
    requires x == FirstWith(nodes, Seq(Preorder, s), val) && x != Null
    requires val in Traversal(Preorder, ToTree(nodes, s))
    requires ChildSet(nodes, nodes', x, side, c)
    ensures Describes(nodes', Root(s), par, Graft(s, x, side, |nodes|))
    ensures ToTree(nodes', Graft(s, x, side, |nodes|)) == AddAtFirst(ToTree(nodes, s), side, val, c)
    decreases s
  {
    WithinIds(s.left, |nodes|);
    WithinIds(s.right, |nodes|);
    var l, i, r := s.left, s.id, s.right;
    var n := |nodes|;
    FirstWithPreorder(nodes, s, val);
    if nodes[i].value == val {
      AddAtRoot(nodes, nodes', s, par, side, c);
    } else {
      SearchSide(nodes, s, par, val, side);
      if val in Traversal(Preorder, ToTree(nodes, l)) {
        AddAtNode(nodes, nodes', l, i, x, val, side, c);
        AfterLeft(nodes, nodes', s, par, x, val, side, c);
      } else {
        AddAtNode(nodes, nodes', r, i, x, val, side, c);
        AfterRight(nodes, nodes', s, par, x, val, side, c);
      }
    }
  }

  /** The step of AddAtNode when the node found is in the left subtree. */
  lemma AfterLeft<T>(nodes: seq<Node<T>>, nodes': seq<Node<T>>, s: Shape, par: Ptr,
                     x: Ptr, val: T, side: Side, c: T)
    requires Describes(nodes, Root(s), par, s) && Distinct(s) && s.Br?
    requires nodes[s.id].value != val && val in Traversal(Preorder, ToTree(nodes, s.left))
    requires x in Ids(s.left) && 0 <= x < |nodes|
    requires nodes[x].Link(side) != Null ==> nodes[x].Link(side) in Ids(s.left)
    requires ChildSet(nodes, nodes', x, side, c)
    requires Describes(nodes', Root(s.left), s.id, Graft(s.left, x, side, |nodes|))
    requires ToTree(nodes', Graft(s.left, x, side, |nodes|)) == AddAtFirst(ToTree(nodes, s.left), side, val, c)
    ensures val in Traversal(Preorder, ToTree(nodes, s))
    ensures Describes(nodes', Root(s), par, Graft(s, x, side, |nodes|))
    ensures ToTree(nodes', Graft(s, x, side, |nodes|)) == AddAtFirst(ToTree(nodes, s), side, val, c)
  {
    var l, i, r, n := s.left, s.id, s.right, |nodes|;
    WithinIds(r, n);
    GraftIds(r, x, side, n);
    GraftIds(l, x, side, n);
    ChildSetFrame(nodes, nodes', x, side, c, Ids(r) + {i});
    Frame(nodes, nodes', Root(r), i, r);
    assert Graft(s, x, side, n) == Br(Graft(l, x, side, n), i, r);
  }

  /** The step of AddAtNode when the node found is in the right subtree. */
  lemma AfterRight<T>(nodes: seq<Node<T>>, nodes': seq<Node<T>>, s: Shape, par: Ptr,
                      x: Ptr, val: T, side: Side, c: T)
    requires Describes(nodes, Root(s), par, s) && Distinct(s) && s.Br?
    requires nodes[s.id].value != val && val !in Traversal(Preorder, ToTree(nodes, s.left))
    requires val in Traversal(Preorder, ToTree(nodes, s.right))
    requires x in Ids(s.right) && 0 <= x < |nodes|
    requires nodes[x].Link(side) != Null ==> nodes[x].Link(side) in Ids(s.right)
    requires ChildSet(nodes, nodes', x, side, c)
    requires Describes(nodes', Root(s.right), s.id, Graft(s.right, x, side, |nodes|))
    requires ToTree(nodes', Graft(s.right, x, side, |nodes|)) == AddAtFirst(ToTree(nodes, s.right), side, val, c)
    ensures val in Traversal(Preorder, ToTree(nodes, s))
    ensures Describes(nodes', Root(s), par, Graft(s, x, side, |nodes|))
    ensures ToTree(nodes', Graft(s, x, side, |nodes|)) == AddAtFirst(ToTree(nodes, s), side, val, c)
  {
    var l, i, r, n := s.left, s.id, s.right, |nodes|;
    WithinIds(l, n);
    GraftIds(l, x, side, n);
    GraftIds(r, x, side, n);
    ChildSetFrame(nodes, nodes', x, side, c, Ids(l) + {i});
    Frame(nodes, nodes', Root(l), i, l);
    assert Graft(s, x, side, n) == Br(l, i, Graft(r, x, side, n));
  }

  class BinaryTree<T(==)> {
    /** The heap holding the tree's node objects. */
    const arena: Arena<T>
    var root: Ptr
    /** The shape the nodes reachable from `root` form. */
    ghost var shape: Shape

    ghost predicate Valid()
      reads this, arena
    {
      Describes(arena.nodes, root, Null, shape) && Distinct(shape)
    }

    /** The tree of values the object holds. */
    ghost function Abs(): Tree<T>
      reads this, arena
      requires Valid()
    {
      ToTree(arena.nodes, shape)
    }

    /** BinaryTree(): the empty tree. */
    constructor ()
      ensures Valid() && fresh(arena) && Abs() == Leaf
    {
      arena := new Arena();
      root := Null;
      shape := Nil;
    }

    /** BinaryTree(BinaryTree&&): takes over the other tree's nodes, which
        is left empty. */
    constructor Move(other: BinaryTree<T>)
      requires other.Valid()
      modifies other
      ensures Valid() && arena == other.arena && Abs() == old(other.Abs())
      ensures root == old(other.root) && shape == old(other.shape)
      ensures other.Valid() && other.Abs() == Leaf
    {
      arena := other.arena;
      root := other.root;
      shape := other.shape;
      new;
      other.root := Null;
      other.shape := Nil;
    }

    /** find(val): an empty tree is an error; otherwise the first node in
        preorder holding `val`, and Null when no node does. */
    function Find(val: T): (r: Result<Ptr>)
      reads this, arena
      requires Valid()
      ensures r.Err? <==> Abs().Leaf?
      ensures r.Err? ==> r.error == EmptyTree
      ensures r.Ok? ==> r.value == FirstWith(arena.nodes, Seq(Preorder, shape), val)
      ensures r.Ok? ==> (r.value != Null <==> val in Traversal(Preorder, Abs()))
      ensures r.Ok? && r.value != Null ==>
        r.value in Ids(shape) && 0 <= r.value < |arena.nodes| && arena.nodes[r.value].value == val
    {
      TraversalValues(Preorder, arena.nodes, shape);
      FirstWithSpec(arena.nodes, Seq(Preorder, shape), val);
      FirstWithIn(arena.nodes, Seq(Preorder, shape), val);
      SeqEnumerates(Preorder, shape);
      WithinIds(shape, |arena.nodes|);
      if root == Null then Err(EmptyTree)
      else Ok(FindFrom(arena.nodes, val, root, Null, shape))
    }

    /** add_root(val): an empty tree gets a childless root holding `val`;
        otherwise the root's value becomes `val`. */
    method AddRoot(val: T)
      requires Valid()
      modifies this, arena
      ensures Valid() && Abs() == Trees.AddRoot(old(Abs()), val)
      ensures old(root) != Null ==> root == old(root)
      ensures old(root) != Null ==>
        shape == old(shape) && arena.nodes == old(arena.nodes)[root := old(arena.nodes[root]).(value := val)]
      ensures old(root) == Null ==> root == |old(arena.nodes)|
      ensures |arena.nodes| >= |old(arena.nodes)|
      ensures forall j :: 0 <= j < |old(arena.nodes)| && j != root ==> arena.nodes[j] == old(arena.nodes[j])
    {
      if root == Null {
        root := arena.Alloc(val);
        shape := Br(Nil, root, Nil);
      }
      ghost var before := arena.nodes;
      WithinIds(shape.left, |before|);
      WithinIds(shape.right, |before|);
      arena.SetValue(root, val);
      Frame(before, arena.nodes, before[root].left, root, shape.left);
      Frame(before, arena.nodes, before[root].right, root, shape.right);
    }

    /** The common body of add_left and add_right. */
    method AddChild(side: Side, parent: T, child: T) returns (status: Result<()>)
      requires Valid()
      modifies this, arena
      ensures Valid()
      ensures var expected := Trees.Add(old(Abs()), side, parent, child);
        (expected.Ok? ==> status == Ok(()) && Abs() == expected.value) &&
        (expected.Err? ==>
           status == Err(expected.error) &&
           arena.nodes == old(arena.nodes) && root == old(root) && shape == old(shape))
      ensures root == old(root) && |arena.nodes| >= |old(arena.nodes)|
      ensures forall j :: 0 <= j < |old(arena.nodes)| && j !in old(Ids(shape)) ==>
        arena.nodes[j] == old(arena.nodes[j])
      ensures var x := FirstWith(old(arena.nodes), Seq(Preorder, old(shape)), parent);
        status.Ok? ==>
          ChildSet(old(arena.nodes), arena.nodes, x, side, child) &&
          shape == Graft(old(shape), x, side, |old(arena.nodes)|)
    {
      var found := Find(parent);
      if found.Err? {
        return Err(found.error);
      }
      var x := found.value;
      if x == Null {
        return Err(ParentNotFound);
      }
      ghost var before := arena.nodes;
      WithinIds(shape, |before|);
      LinkInside(before, shape, Null, x, side);
      if side == Left {
        if arena.nodes[x].left == Null {
          arena.AddLeft(x, child);
        } else {
          arena.SetValue(arena.nodes[x].left, child);
        }
      } else {
        if arena.nodes[x].right == Null {
          arena.AddRight(x, child);
        } else {
          arena.SetValue(arena.nodes[x].right, child);
        }
      }
      AddAtNode(before, arena.nodes, shape, Null, x, parent, side, child);
      GraftIds(shape, x, side, |before|);
      shape := Graft(shape, x, side, |before|);
      status := Ok(());
    }

    /** add_left(parent, child). */
    method AddLeft(parent: T, child: T) returns (status: Result<()>)
      requires Valid()
      modifies this, arena
      ensures Valid()
      ensures var expected := Trees.Add(old(Abs()), Left, parent, child);
        (expected.Ok? ==> status == Ok(()) && Abs() == expected.value) &&
        (expected.Err? ==>
           status == Err(expected.error) &&
           arena.nodes == old(arena.nodes) && root == old(root) && shape == old(shape))
      ensures root == old(root) && |arena.nodes| >= |old(arena.nodes)|
      ensures forall j :: 0 <= j < |old(arena.nodes)| && j !in old(Ids(shape)) ==>
        arena.nodes[j] == old(arena.nodes[j])
      ensures var x := FirstWith(old(arena.nodes), Seq(Preorder, old(shape)), parent);
        status.Ok? ==>
          ChildSet(old(arena.nodes), arena.nodes, x, Left, child) &&
          shape == Graft(old(shape), x, Left, |old(arena.nodes)|)
    {
      status := AddChild(Left, parent, child);
    }

    /** add_right(parent, child). */
    method AddRight(parent: T, child: T) returns (status: Result<()>)
      requires Valid()
      modifies this, arena
      ensures Valid()
      ensures var expected := Trees.Add(old(Abs()), Right, parent, child);
        (expected.Ok? ==> status == Ok(()) && Abs() == expected.value) &&
        (expected.Err? ==>
           status == Err(expected.error) &&
           arena.nodes == old(arena.nodes) && root == old(root) && shape == old(shape))
      ensures root == old(root) && |arena.nodes| >= |old(arena.nodes)|
      ensures forall j :: 0 <= j < |old(arena.nodes)| && j !in old(Ids(shape)) ==>
        arena.nodes[j] == old(arena.nodes[j])
      ensures var x := FirstWith(old(arena.nodes), Seq(Preorder, old(shape)), parent);
        status.Ok? ==>
          ChildSet(old(arena.nodes), arena.nodes, x, Right, child) &&
          shape == Graft(old(shape), x, Right, |old(arena.nodes)|)
    {
      status := AddChild(Right, parent, child);
    }

    /** begin_preorder(): a cursor on the first preorder node. */
    method BeginPreorder() returns (it: Iterator<T>)
      requires Valid()
      ensures fresh(it) && it.Valid() && it.arena == arena && it.shape == shape && it.order == Preorder
      ensures it.current == Null <==> Abs().Leaf?
      ensures it.current != Null ==> it.Position() == 0
    {
      if root == Null {
        it := new Iterator.Start(arena, Null, Preorder, shape);
      } else {
        it := new Iterator.Start(arena, root, Preorder, shape);
        Ends(shape);
      }
    }

    /** begin_inorder(): a cursor on the leftmost node. */
    method BeginInorder() returns (it: Iterator<T>)
      requires Valid()
      ensures fresh(it) && it.Valid() && it.arena == arena && it.shape == shape && it.order == Inorder
      ensures it.current == Null <==> Abs().Leaf?
      ensures it.current != Null ==> it.Position() == 0
    {
      if root == Null {
        it := new Iterator.Start(arena, Null, Inorder, shape);
        return;
      }
      var p := FindLeftmost(arena.nodes, root, shape);
      it := new Iterator.At(arena, root, p, Inorder, shape);
    }

    /** begin_postorder(): a cursor on the left-then-right leaf. */
    method BeginPostorder() returns (it: Iterator<T>)
      requires Valid()
      ensures fresh(it) && it.Valid() && it.arena == arena && it.shape == shape && it.order == Postorder
      ensures it.current == Null <==> Abs().Leaf?
      ensures it.current != Null ==> it.Position() == 0
    {
      if root == Null {
        it := new Iterator.Start(arena, Null, Postorder, shape);
        return;
      }
      var p := FindLeftRightLeaf(arena.nodes, root, shape);
      it := new Iterator.At(arena, root, p, Postorder, shape);
    }

    /** end_preorder(), end_inorder(), end_postorder(): the sentinel cursor
        on no node. */
    method End(order: Order) returns (it: Iterator<T>)
      ensures fresh(it) && it.Valid() && it.order == order && it.current == Null
      ensures it.arena == arena && it.shape == Nil && it.last == Null
    {
      it := new Iterator.Start(arena, Null, order, Nil);
    }

    /** begin(): the inorder cursor. */
    method Begin() returns (it: Iterator<T>)
      requires Valid()
      ensures fresh(it) && it.Valid() && it.arena == arena && it.shape == shape && it.order == Inorder
      ensures it.current == Null <==> Abs().Leaf?
      ensures it.current != Null ==> it.Position() == 0
    {
      it := BeginInorder();
    }
  }
}
