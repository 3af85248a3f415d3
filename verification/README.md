# Red-black tree: a Dafny model of `rbt.cpp`

This project models the left-right-symmetric red-black tree of `rbt.cpp`.
The tree is a `RedBlackTree<Tkey, Tval>` map. Insertion repairs red-red
edges bottom-up with `fix_red_edge`. Removal splices out a node and repairs
the resulting double-black deficiency bottom-up with the
`fix_*doubleblack*` family. `debug_print_helper` checks the tree and
reports its black height.

The C++ tree owns its nodes through `shared_ptr` and mutates them in
place. No node is ever shared, so the model is an immutable datatype:

- `Tree<V> = Empty | DBEmpty | Node(c, l, k, v, r)`. `Empty` is `nullptr`.
  `DBEmpty` is the shared `doubleBlackNilNode` sentinel, and pointer tests
  against it become constructor tests.
- Every procedure is a pure function that returns the new subtree.
- Keys are `int`, compared with `==` and `<` as the source does. Values are
  an opaque type parameter `V`.
- `extract_min` writes the minimum into the caller's node. Here it returns a
  triple: the rest of the subtree, the minimum key and its value.
- The source's `assert`s become `requires` clauses, and so do the
  dereferences that would crash on `nullptr`. The verifier shows that every
  call site meets them.

The colour scale is RED < BLACK < DOUBLE_BLACK, with `Rank` 0, 1 and 2. A
subtree's black height `Bh` counts the rank of each node down its leftmost
path, plus 1 for the sentinel. Every repair preserves it exactly.

The content of a subtree is its in-order sequence of key/value pairs. Every
rotation, flip, colour step and repair is proved to preserve it. From it
follow the key set, the map view `Elems` and BST order (`Contents`).

Modules:

- `Colors`: the colour scale.
- `Trees`: the datatype and the invariants.
- `Contents`: the in-order view.
- `Restructure`: colour steps, rotations and flips.
- `Insertion` and `Removal`: the two algorithms.
- `Validation`: the black-height validator, `debug_print_helper`.
- `Depth`: the height bound those invariants imply.

Three places where the model and a literal reading of the code part ways,
or where the code does something one might not expect:

- **Re-inserting a present key** is not a pure value update, and here the
  model follows the code. `insert_helper` overwrites the value
  (rbt.cpp:136-138), but every ancestor still runs `fix_red_edge` on the way
  back up. `push_black` fires wherever both children are red, and the
  recolouring can then make a red-red edge higher up that a rotation
  repairs. `Insertion.ReinsertRecolours` gives a three-node tree whose
  colours change. `Insertion.ReinsertRotates` gives a seven-node tree whose
  root moves. `Insertion.ReinsertRebinds` proves what does hold: the
  in-order sequence changes only in that key's value.
- **The validator's fall-through** (rbt.cpp:319-321) leaves a non-void
  function without a return value for a node that is neither RED nor BLACK.
  That is undefined behaviour in C++, so the code gives no result to
  follow. The model chooses an invalid verdict. The C++ validator prints
  each error and carries on; the model stops at the first violation, in the
  source's order of checks: left subtree, right subtree, height mismatch,
  red-red edge, colour.
- **The sentinel's colour** is where the model departs from the code. The
  sentinel's value-initialised fields (rbt.cpp:332) read as RED in C++. The
  model does not reproduce this: `IsRed` and `IsBlack` are both false on
  `DBEmpty`, and `IsDoubleBlack` is true (`Trees.ColourTests`). In the C++
  code the sentinel is only ever tested with `is_double_black`, or compared
  by identity, before it is replaced, so the choice does not change any
  path the algorithm takes. The validator likewise reports the sentinel as
  a stray deficiency (`StrayDeficiency`), where `debug_print_helper` would
  read it as a RED leaf of black height 0 (rbt.cpp:317-318). No sentinel
  survives a public operation (`Removal.RemoveCorrect`), so the validator
  never meets one.

## Model

| member | source | states |
|---|---|---|
| Colors.Increment | rbt.cpp:43-46 | defined only on RED and BLACK; the result is exactly one step higher on the scale |
| Colors.Decrement | rbt.cpp:48-51 | defined only on BLACK and DOUBLE_BLACK; the result is one step lower, is RED or BLACK, and increment restores the original |
| Colors.StepsAreInverse | rbt.cpp:43-51 | increment and decrement undo each other wherever each is defined |
| Trees.ColourTests | rbt.cpp:31-41 | nullptr passes only is_black; a real node passes exactly the test of its colour; the sentinel passes only is_double_black, whereas in C++ its colour would also read as RED |
| Restructure.PushBlack | rbt.cpp:53-57 | the node drops one rank and both children rise one; keys and grandchildren stay in place; in-order sequence and black height are kept; over two red children no double-black is created |
| Restructure.PullBlack | rbt.cpp:59-71 | the node rises one rank; each real child drops one; a sentinel child becomes nullptr; in-order sequence and black height are kept |
| Restructure.RotateRight | rbt.cpp:73-78 | the left child becomes the root, no colour changes, subtrees move as a right rotation prescribes, the in-order sequence is kept |
| Restructure.RotateLeft | rbt.cpp:85-90 | mirror of RotateRight |
| Restructure.FlipRight | rbt.cpp:80-83 | the root keeps g's colour and the demoted g takes its left child's colour; in-order sequence kept; black height kept when the left child is red |
| Restructure.FlipLeft | rbt.cpp:92-95 | mirror of FlipRight |
| Restructure.RotationsAreInverse | rbt.cpp:73-90 | a left rotation undoes a right rotation and vice versa |
| Restructure.PushPullAreInverse | rbt.cpp:53-71 | pull_black undoes push_black, and push_black undoes pull_black, on a node with two real children |
| Insertion.FixRedEdge | rbt.cpp:101-125 | keeps the in-order sequence, black height and absence of double-black; turns a black node with one nearly-valid red child into a red-red-free subtree; leaves a red node over valid children unchanged |
| Insertion.InsertHelper | rbt.cpp:127-150 | the result is a balanced node of unchanged black height; below a black or empty position it is red-red free; below a red node it is red with at most one red child |
| Insertion.Insert | rbt.cpp:336-341 | the result satisfies every red-black invariant and has a black root |
| Insertion.InsertHelperContents | rbt.cpp:127-150 | the key set gains exactly k; on an ordered tree order is kept and the map is the old map with k bound to v |
| Insertion.InsertCorrect | rbt.cpp:336-341 | from an ordered red-black tree, insert gives an ordered red-black tree with a black root, the old keys plus k, and the old map with k bound to v |
| Insertion.ReinsertHelperRebinds | rbt.cpp:127-150 | when k is already present, the in-order sequence keeps every key in place and changes only k's value |
| Insertion.ReinsertRebinds | rbt.cpp:136-138 | insert on a present key changes the in-order sequence only in that key's value |
| Insertion.ReinsertRecolours | rbt.cpp:101-105 | a concrete valid tree in which re-inserting a present key recolours both children of the root |
| Insertion.ReinsertRotates | rbt.cpp:101-124 | a concrete valid ordered tree in which re-inserting a present key ends with a rotation that changes the root key from 6 to 4 |
| Removal.Splice | rbt.cpp:156-171 | the in-order sequence is the two children's; a red node leaves nullptr; a black node with a child leaves that child painted black; a black leaf leaves the sentinel; black height is kept |
| Removal.SpliceRestores | rbt.cpp:156-171 | in a red-black tree, a node with an empty side meets all of splice's asserts, and the result has the same black height and at most a one-unit deficiency at its root |
| Removal.SpliceContents | rbt.cpp:156-171 | splicing keeps BST order and removes exactly the node's own binding |
| Removal.FixLeftDoubleBlackRightBlack | rbt.cpp:173-184 | keeps the in-order sequence; what the repair achieves is stated by Removal.FixLeftBlackSiblingRestores |
| Removal.FixLeftBlackSiblingRestores | rbt.cpp:173-184 | with a deficient left child and a black sibling, the result is a red-black tree of the same black height, or a double-black root passing the deficiency up, and only when z was black |
| Removal.FixLeftDoubleBlack | rbt.cpp:186-195 | keeps the in-order sequence; what the repair achieves is stated by Removal.FixLeftRestores |
| Removal.FixLeftRestores | rbt.cpp:186-195 | a left deficiency under valid siblings meets every assert of the repair, and the repair settles it or passes one unit up |
| Removal.FixRightDoubleBlackLeftBlack | rbt.cpp:197-208 | keeps the in-order sequence; what the repair achieves is stated by Removal.FixRightBlackSiblingRestores |
| Removal.FixRightBlackSiblingRestores | rbt.cpp:197-208 | mirror of FixLeftBlackSiblingRestores |
| Removal.FixRightDoubleBlack | rbt.cpp:210-219 | keeps the in-order sequence; what the repair achieves is stated by Removal.FixRightRestores |
| Removal.FixRightRestores | rbt.cpp:210-219 | mirror of FixLeftRestores |
| Removal.FixDoubleBlack | rbt.cpp:221-229 | keeps the in-order sequence, and is the identity when neither child is double-black |
| Removal.FixDoubleBlackRestores | rbt.cpp:221-229 | whichever side reports a deficiency, the repair settles it or passes one unit up |
| Removal.RepairAfterLeft | rbt.cpp:274-280 | a subtree removed from on the left, put back under its old node, is repairable, and after the repair the node keeps its black height with at most a root deficiency |
| Removal.RepairAfterRight | rbt.cpp:268-280 | mirror of RepairAfterLeft, including the successor case |
| Removal.ExtractMin | rbt.cpp:231-251 | the extracted pair is the first in-order entry and the rest of the sequence is what remains; the rest keeps the black height with at most a root deficiency |
| Removal.ExtractMinContents | rbt.cpp:231-251 | on an ordered subtree the extracted key is the smallest and is bound to the extracted value; the rest is ordered and holds exactly the other bindings |
| Removal.SuccessorContents | rbt.cpp:264-271 | moving the successor's binding into the node keeps order and removes exactly the node's own binding |
| Removal.RemoveHelper | rbt.cpp:253-281 | the result has the same black height, is a red-black tree or carries a one-unit deficiency at its root, and is never red where the input was not |
| Removal.RemoveHelperContents | rbt.cpp:253-281 | removal keeps BST order and removes exactly the binding of key |
| Removal.RemoveHelperAbsent | rbt.cpp:253-281 | for an absent key, the search falls off the tree and no repair changes anything |
| Removal.Remove | rbt.cpp:343-352 | the result satisfies every red-black invariant, has a non-red root when the input did, and loses at most one unit of black height |
| Removal.RemoveCorrect | rbt.cpp:343-352 | from an ordered red-black tree, remove gives an ordered red-black tree without deficiency whose keys and map are the old ones minus key |
| Removal.RemoveAbsent | rbt.cpp:343-352 | remove of an absent key returns the tree unchanged |
| Validation.ValidateCorrect | rbt.cpp:287-326 | `Validation.Validate`, the model of debug_print_helper, which has no contract of its own, gives a valid verdict exactly on the red-black trees, and then reports their black height |
| Validation.ValidateReportsRedRed | rbt.cpp:309-312 | a red node over a red child, left or right, with otherwise valid, equal-height subtrees is reported as a red-red edge at that node |
| Depth.HeightBound | rbt.cpp:364 | no code computes this: it is the shape bound behind the O(log n) claim, and the cited comment names ascending insertion as the worst case for an unbalanced tree. A tree satisfying IsRBTree has height at most twice its black height, plus one for a red root |
| Depth.SizeBound | rbt.cpp:364 | no code computes this: with HeightBound it is the shape bound behind the O(log n) claim. A tree satisfying IsRBTree holds at least 2^h - 1 entries, where h is its black height |

## Left out

- `main` (rbt.cpp:359-401) is a demo driver using `srand` and `time`, so it is not modelled.
- The console output of `debug_print_helper` is not modelled: indentation, `setw`, and the printed keys, colours and errors. Only its verdict and black height are.
- `shared_ptr` reference counting, `make_shared` allocation and pointer identity are not modelled; the tree never shares a node.
- Templated keys are modelled as `int`, because the source only uses `==` and `<` on them.
- Running time is not modelled; `Depth.HeightBound` and `Depth.SizeBound` give the shape bound behind the O(log n) claim.
- Insertion.Insert, Removal.Remove: require a red-black input. In C++ this is the class invariant every public operation maintains, since the tree starts empty.
- Removal.FixLeftDoubleBlackRightBlack, Removal.FixRightDoubleBlackLeftBlack: also require the black sibling to be a real node. `pull_black` would dereference a null sibling. The restore lemmas show that every call from the algorithm meets this.
- Insertion.ReinsertRebinds: states that only the in-order sequence is unchanged apart from the value. The code can recolour and rotate on a re-insert, so shape and colours are not promised (see Insertion.ReinsertRecolours and Insertion.ReinsertRotates).
- Validation.ValidateCorrect: the model's validator stops at the first violation, whereas the C++ validator prints every violation and keeps computing a height.
