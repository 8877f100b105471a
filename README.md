# ariel::BinaryTree in Dafny

A model of the generic binary tree `ariel::BinaryTree<T>` and its node type
`ariel::Node<T>`, with proofs about it. The tree owns a root pointer. Its
nodes carry a value, two owned child pointers and a back-pointer to their
parent. Values are located by a left-before-right depth-first search, and
`add_root`, `add_left` and `add_right` grow or overwrite the tree by value.
A stack-free cursor walks the tree in preorder, inorder or postorder. It
moves only along child and parent links and decides each step from the node
it arrived from.

## Modules

- `trees.dfy` (`Trees`): the abstract tree of values, the three standard
  traversals, and the effect of the mutators on that abstract tree
  (`AddRoot`, `AddAtFirst`, `Add`).
- `shapes.dfy` (`Shapes`): the ghost shape of a tree of node identities. It
  defines each node's index in each traversal (`Pos`), where its subtree's
  segment starts (`Off`), and the first and last nodes of each order.
- `nodes.dfy` (`Nodes`): `Node<T>` and the heap. The heap is an arena object
  whose sequence of nodes is updated in place. A pointer is an index into
  it, and `Null` is -1.
- `layout.dfy` (`Layout`): `Describes` ties the arena's links to a shape,
  including the parent/child mirror. `ToTree` reads the abstract tree off
  the arena.
- `cursor.dfy` (`Cursors`): the iterator class. It has `iterator`'s fields,
  its `left`/`right`/`up` moves, the dives and climbs, and prefix `++` for
  each order.
- `binary_tree.dfy` (`BinaryTrees`): `find`, the mutators, the move
  constructor and the cursor factories.
- `driver.dfy` (`Driver`): the demonstration program's range loops and its
  two example trees.

The cursor invariant `Iterator.Valid` records two things about the node the
cursor stands on. The first is the link it arrived by: in preorder always
from the parent, and in inorder from the left child, or from the parent onto
a node without a left subtree. In postorder it is a leaf from above, the
right child, or the left child of a node without a right subtree. The
second is that `last` is the final node of the order. From this, `Next` is
proved to move from traversal index k to index k + 1, or from the terminal
node to the end sentinel. The climb loops never step above the root,
because the `current == last` test catches the only node from which they
would.

## Model

| member | source | states |
|---|---|---|
| Trees.TraversalsArePermutations | sources/BinaryTree.hpp:390-552 | every order lists each node of the tree exactly once: each traversal has Size(t) elements and all three are permutations of one another |
| Trees.FirstSub | sources/BinaryTree.hpp:27-56 | the node the preorder search for p locates holds p, and its subtree is no larger than the tree |
| Trees.AddAtFirstSize | sources/BinaryTree.hpp:197-231 | add_left/add_right add exactly one node when the located node's slot was empty and none when it was occupied, and the new value is then in the tree |
| Trees.DemoTraversals | Demo.cpp:18-47 | the demonstration's six calls succeed, and the tree they build has preorder 1 2 4 5 3, inorder 4 2 5 1 3 and postorder 4 5 2 3 1 (the last add_left(1, 2) overwrites 9 and keeps its children) |
| Shapes.SeqEnumerates | sources/BinaryTree.hpp:390-552 | the node order of each traversal has one entry per node, contains exactly the tree's nodes, and repeats none |
| Shapes.Ends | sources/BinaryTree.hpp:277-323 | preorder runs from the root to the right-then-left leaf, inorder from the leftmost to the rightmost node, and postorder from the left-then-right leaf to the root |
| Layout.TraversalValues | sources/BinaryTree.hpp:340-343 | reading the node values along the node order of a traversal gives the abstract traversal of the tree the nodes hold |
| Nodes.DefaultNode | sources/Node.hpp:23 | Node(): all three links are null |
| Nodes.Arena.Alloc | sources/Node.hpp:24 | Node(val) allocated: a fresh node holding val with null links; no existing node changes |
| Nodes.Arena.AddLeft | sources/Node.hpp:18-22 | x's left slot holds a fresh childless node with value v and parent x; x's value, right child and parent, and all other nodes, are unchanged |
| Nodes.Arena.AddRight | sources/Node.hpp:13-17 | the mirror image of AddLeft for the right slot |
| Nodes.Arena.SetValue | sources/BinaryTree.hpp:208-211 | overwriting an occupied child's value changes only that value |
| Cursors.Iterator.At | sources/BinaryTree.hpp:277-292 | the 3-argument constructor starts on curr with no previous node; its terminal node is the root in postorder and the rightmost node otherwise |
| Cursors.Iterator.Start | sources/BinaryTree.hpp:293-323 | the 2-argument constructor starts on the root; its terminal node is the rightmost node in inorder, the right-then-left leaf in preorder and the root in postorder; the result is a valid preorder cursor |
| Cursors.Iterator.HasLeft | sources/BinaryTree.hpp:330-333 | true exactly when the node's subtree has a left part |
| Cursors.Iterator.HasRight | sources/BinaryTree.hpp:335-338 | true exactly when the node's subtree has a right part |
| Cursors.Iterator.Value | sources/BinaryTree.hpp:340-343 | operator* yields the element of the abstract traversal at the cursor's index |
| Cursors.EqualsSamePosition | sources/BinaryTree.hpp:350-358 | operator== and operator!= (the predicate Iterator.Equals, which compares the current pointers): two cursors over the same tree and order are equal exactly when they stand at the same traversal index, or are both the end sentinel |
| Cursors.Iterator.GoLeft | sources/BinaryTree.hpp:258-262 | prev becomes the old current and current its left link |
| Cursors.Iterator.GoRight | sources/BinaryTree.hpp:264-268 | prev becomes the old current and current its right link |
| Cursors.Iterator.GoUp | sources/BinaryTree.hpp:270-274 | prev becomes the old current and current its parent link |
| Cursors.Iterator.TryLeft | sources/BinaryTree.hpp:360-371 | the dive ends on the first postorder node of the current subtree, a leaf |
| Cursors.Iterator.TryRight | sources/BinaryTree.hpp:373-388 | without a right subtree nothing moves; otherwise the cursor ends on the first postorder node of the right subtree, entered from its parent |
| Cursors.Iterator.DiveLeft | sources/BinaryTree.hpp:454-457 | the dive ends on the leftmost node of the subtree it starts in |
| Cursors.Iterator.ClimbFromRight | sources/BinaryTree.hpp:461-464 | leaving a subtree whose segment ends at index k, the climb stops on the nearest ancestor entered from its left child, whose left segment also ends at k |
| Cursors.Iterator.NotLast | sources/BinaryTree.hpp:392-396 | a cursor not on the terminal node has a successor index inside the traversal |
| Cursors.Iterator.Next | sources/BinaryTree.hpp:390-552 | prefix ++ keeps the cursor valid; from the terminal node it yields the end sentinel, and otherwise it moves to the next traversal index |
| Cursors.Iterator.StepPreorder | sources/BinaryTree.hpp:400-447 | the preorder step moves from index k to index k + 1 and arrives from the parent |
| Cursors.Iterator.PreorderClimb | sources/BinaryTree.hpp:428-446 | from the last node of a left subtree, the climb finds the ancestor with an unvisited right subtree and steps into it, never reading the root's missing parent |
| Cursors.Iterator.StepInorder | sources/BinaryTree.hpp:448-499 | the inorder step moves from index k to index k + 1 |
| Cursors.Iterator.UpThenTryRight | sources/BinaryTree.hpp:515-523 | after a postorder subtree ending at index k, the next node is the first of the right sibling's subtree or else the parent, at index k + 1 |
| Cursors.Iterator.StepPostorder | sources/BinaryTree.hpp:500-549 | the postorder step moves from index k to index k + 1 |
| Cursors.FindRightmost | sources/BinaryTree.hpp:302-306 | the right-link walk from the root ends on the last inorder node |
| Cursors.FindRightLeftLeaf | sources/BinaryTree.hpp:310-320 | the right-preferring walk from the root ends on the last preorder node |
| Cursors.FindLeftmost | sources/BinaryTree.hpp:580-584 | the left-link walk from the root ends on the first inorder node |
| Cursors.FindLeftRightLeaf | sources/BinaryTree.hpp:598-609 | the left-preferring walk from the root ends on the first postorder node, a leaf |
| BinaryTrees.FirstWithSpec | sources/BinaryTree.hpp:27-56 | the reference search finds a node exactly when some node holds the value, and then it is the earliest such node in the order |
| BinaryTrees.FindFrom | sources/BinaryTree.hpp:27-56 | find(val, node) returns the first node of the subtree in preorder that holds val, or null |
| BinaryTrees.BinaryTree.Find | sources/BinaryTree.hpp:18-25 | an empty tree is an error; otherwise the result is non-null exactly when val is in the tree, and then it is a node of the tree holding val |
| BinaryTrees.AddAtNode | sources/BinaryTree.hpp:197-231 | acting on the node that find locates turns the arena into the abstract AddAtFirst of the tree it held, with the parent/child mirror kept |
| BinaryTrees.GraftIds | sources/BinaryTree.hpp:204-206 | attaching a new node keeps the root and adds only the new node, so node identities stay distinct |
| BinaryTrees.BinaryTree.constructor | sources/BinaryTree.hpp:90 | the default tree is empty |
| BinaryTrees.BinaryTree.Move | sources/BinaryTree.hpp:106-110 | the new tree takes over the other tree's root pointer, nodes and heap, and holds the same tree; the other tree is left empty, so its traversals are empty |
| BinaryTrees.BinaryTree.AddRoot | sources/BinaryTree.hpp:187-195 | an empty tree gets a fresh childless root holding val; otherwise the root node, its links and the shape are kept and the heap differs only in the root's value; no other node of the heap changes |
| BinaryTrees.BinaryTree.AddChild | sources/BinaryTree.hpp:197-231 | on an empty tree or an absent parent the matching error is reported and nothing changes; otherwise the tree becomes Add of the old tree; at node level the first preorder node holding parent gets its slot filled by a fresh node or its slot's node takes the new value, the shape grows by that node only, the root pointer is kept, and no other heap node changes |
| BinaryTrees.BinaryTree.AddLeft | sources/BinaryTree.hpp:197-213 | add_left: AddChild for the left slot, with the same error cases, the same frame, and the same node-level effect (only the located node's left slot, or that slot's node's value, changes) |
| BinaryTrees.BinaryTree.AddRight | sources/BinaryTree.hpp:215-231 | add_right: AddChild for the right slot, with the same error cases, the same frame, and the same node-level effect (only the located node's right slot, or that slot's node's value, changes) |
| BinaryTrees.BinaryTree.BeginPreorder | sources/BinaryTree.hpp:561-568 | a valid preorder cursor at index 0, or the end sentinel for an empty tree |
| BinaryTrees.BinaryTree.BeginInorder | sources/BinaryTree.hpp:574-586 | a valid inorder cursor at index 0, or the end sentinel for an empty tree |
| BinaryTrees.BinaryTree.BeginPostorder | sources/BinaryTree.hpp:592-611 | a valid postorder cursor at index 0, or the end sentinel for an empty tree |
| BinaryTrees.BinaryTree.End | sources/BinaryTree.hpp:569-572 | end_preorder, end_inorder and end_postorder: a valid cursor on no node, over the tree's heap, with an empty shape and a null terminal node |
| Driver.EndStaysEnd | sources/BinaryTree.hpp:390-396 | ++ on an end cursor leaves it on no node, since its terminal node is null |
| BinaryTrees.BinaryTree.Begin | sources/BinaryTree.hpp:617-620 | begin() is the inorder begin cursor |
| Driver.Drain | Demo.cpp:34-37 | advancing a begin cursor until it equals the end cursor yields the abstract traversal, each node once, and stops |
| Driver.Walk | Demo.cpp:34-47 | walking from begin_X to end_X yields the X-order traversal of the tree |
| Driver.RangeFor | Demo.cpp:49-52 | the range loop over begin() and end() yields the inorder traversal |
| Driver.Demo | Demo.cpp:18-52 | the demonstration program's four loops print 1 2 4 5 3, 4 2 5 1 3, 4 5 2 3 1 and 4 2 5 1 3 |
| Driver.MoveThenRegrow | sources/BinaryTree.hpp:106-110 | after a move (and then add_root on the emptied tree), growing the emptied tree again leaves the tree that took the nodes intact: their traversals are 1 and 7 |
| Driver.SecondTraversals | Demo.cpp:80-87 | the second example tree has postorder 4 20 10 23 11 5 2 3 1 |
| Driver.SecondDemo | Demo.cpp:57-87 | building the second example tree and walking it gives that postorder, and its inorder agrees with the range loop |

## Left out

- Printing: `printTree` and `operator<<` (sources/BinaryTree.hpp:58-87, 233-239) only render to a stream.
- The destructor and both assignment operators (sources/BinaryTree.hpp:111-185) free nodes with `delete`. The arena never frees an entry, so node reclamation is not modelled. The move assignment also never pops its queue (lines 168-171), so it would not terminate, and it lacks a return statement.
- The copy constructor (sources/BinaryTree.hpp:91-105) reads the root of the other tree without a null check. It rebuilds the copy by value lookups, which is faithful only for trees with distinct values. It is not part of this model.
- Postfix `operator++` (sources/BinaryTree.hpp:553-558) is not modelled. Its returned copy is built with the 3-argument constructor, which resets `prev` and, in preorder, takes the rightmost node as terminal node. So the copy is not an equivalent cursor.
- `operator->` and the `Node()` accessor (sources/BinaryTree.hpp:325-328, 345-348) expose addresses. Reading through `operator*` is modelled by `Value`, which returns a copy; writing through the `T&` that `operator*` returns is not modelled.
- Raw pointers are indices into the arena. `new Node(val)` in `add_root` is `Arena.Alloc`; inside `Node::add_left`/`add_right` the allocation is written out in `Arena.AddLeft`/`Arena.AddRight`. Pointer arithmetic and dangling pointers do not arise.
- Exceptions (`std::invalid_argument`) are `Err` results, and the method chaining through `return *this` is not modelled.
- Cursors.Iterator.Value, HasLeft and HasRight require a cursor on a node. On the end sentinel `operator*`, `has_left` and `has_right` dereference a null pointer.
- Nodes.DefaultNode: `Node()` leaves the value default-constructed. The model picks an arbitrary value of `T`.
- Cursors.Iterator.Next: requires a cursor on a node, or the end sentinel of an empty tree. On the end sentinel of a non-empty tree, `operator++` reads through a null pointer. Next is proved only for cursors satisfying `Valid`. These are the cursors made by the `begin_*`/`end_*` factories and by earlier `++` steps. Cursors made directly by `iterator(root, INORDER)` or `iterator(root, POSTORDER)` on a root with children are outside it.
- Some branches of prefix `++` cannot be reached from a valid cursor, and the model states them as `assert false`:
  - preorder with no previous node on a childless node (`operator++` nulls the cursor and then reads its parent);
  - preorder's final fallback to the end sentinel;
  - inorder arrival from the parent onto a node with a left subtree;
  - inorder arrival from the right child.
- The postorder null test after the first `up()` is kept in the model, but it is never taken.
- Cursors.Iterator.At: states that the cursor is well formed only for inorder and postorder. In preorder, its terminal node is the rightmost node, which is not the last preorder node in general.
