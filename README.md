# Binary tree inorder traversal, modelled in Dafny

This project models the logic behind a visualiser for LeetCode 94, binary tree inorder traversal. The modelled parts are:

- the traversal engine `src/algorithms/inorderTraversal.ts`, which holds:
  - the plain recursive and iterative traversals;
  - the recursive tracer and the phase-driven iterative tracer;
  - the dispatcher between the tracers;
  - the older tracer that also records missing children;
- the tree builder and the conversion into diagram records in `src/types/TreeNode.ts`;
- the depth and node-count folds in `src/utils/tree/treeAnalysis.ts`.

A traversal step record holds:
- the identities and values on the stack;
- the current node's identity and value;
- the result so far;
- the visited identities;
- the action: push, pop, visit or move right.

Every method is proved to compute a function of the tree.
- The plain traversals compute `Inorder`.
- The recursive tracer computes `RecursiveTrace`.
- The iterative tracer computes `IterativeTrace`.
- The older tracer computes `LegacySteps`.
- The builder computes `Build`.
- The depth and count methods compute `Depth` and `Count`.

The properties the source promises are proved about those functions. Those properties are:
- the trace length;
- the opening and closing records;
- records that follow one another with at most one push or pop;
- a result that only grows, by one value at a visit;
- parallel lists that stay paired;
- push and pop orders;
- the root-to-node stack of the recursive tracer.

The iterative tracer's `while (true)` loop is modelled round for round. It is a loop over a `Phase` tag, with a variant that bounds the rounds left. `LoopSteps` gives its one-round-per-unfolding semantics. `TraversalSteps.LoopCoversTree` connects that semantics to the structural description `IterSteps`.

Modules:
- `TreeNode`: `tree_node.dfy`;
- `TreeAnalysis`: `tree_analysis.dfy`;
- `TraversalSteps`: `traversal_steps.dfy`, the orders and the record sequences;
- `TraceProperties`: `trace_properties.dfy`, relations between records;
- `RecursiveTraceFacts`, `IterativeTraceFacts` and `LegacyTraceFacts`: lemmas on each tracer;
- `InorderTraversal`: `inorder_traversal.dfy`, the engine's methods.

How the model represents the source's data:
- **Identities.** The `TreeNode` class (`src/types/TreeNode.ts:1-11`) has no `id` field, yet the engine reads `node.id`.
  - The model's `Tree` gives every node an identity `id: nat`.
  - `ArrayToTree` uses the node's array slot as its identity.
  - Properties about visited identities are stated under `DistinctIds`.
- **Tree builder.** The builder reads the array as a binary heap: the children of slot `i` are at `2i+1` and `2i+2`.
  - An entry whose parent slot is `null` is therefore never read.
  - `src/types/TreeNode.ts:20` calls the input LeetCode's array representation. That representation is a compact level order: a `null` takes no child slots. In it, `[5,4,7,3,null,2,null,-1,null,9]` puts the `9` as the left child of `2`.
  - The code's heap indexing (`src/types/TreeNode.ts:31-41`) reads the `9` at slot 9 instead. Slot 9 is a child of the `null` at slot 4, so the `9` is dropped.
  - The model follows the code. `TreeNode.BuiltIdsExactlyReachable` states exactly which entries are kept. `InorderTraversal.ExampleOrphanDropped` works through this input.

## Model

| member | source | states |
|---|---|---|
| TreeNode.ArrayToTree | src/types/TreeNode.ts:21-46 | returns the tree `Build(arr, 0)`; that is `null` exactly when the array is empty or its first entry is `null`; every node sits at its slot with that slot's value and has a left (right) child exactly when slot 2i+1 (2i+2) holds a value; identities are distinct; the nodes are exactly the slots whose heap ancestors all hold values; there are no more nodes than non-null entries |
| TreeNode.LinkChildren | src/types/TreeNode.ts:25-43 | the queue loop ends, and the links it assigns point to later slots holding values and, read from slot 0, form the tree `Build(arr, 0)` |
| TreeNode.LinkHead | src/types/TreeNode.ts:27-42 | one round of the queue loop links the head slot to each present child slot, appends those slots to the queue, keeps the builder's state, and moves the head of a non-empty queue to a later slot |
| TreeNode.BuilderStep | src/types/TreeNode.ts:27-43 | one round of the queue loop keeps the builder's state (queue increasing, all queued slots present and beyond the processed ones, links assigned exactly for the processed slots) and strictly increases the slot at the head of the queue, so the loop ends |
| TreeNode.BuilderDone | src/types/TreeNode.ts:43-45 | when the queue is empty, the linked nodes read from slot 0 form the tree `Build(arr, 0)` |
| TreeNode.BuildHeapShaped | src/types/TreeNode.ts:31-41 | a built node has a left child exactly when slot 2i+1 exists and is non-null, with that slot's value, and likewise the right child at 2i+2 |
| TreeNode.BuiltIdsExactlyReachable | src/types/TreeNode.ts:25-43 | a slot becomes a node exactly when every slot on its heap path from the root holds a value |
| TreeNode.BuildDistinct | src/types/TreeNode.ts:25-43 | the built tree never holds the same slot twice |
| TreeNode.BuildSizeBound | src/types/TreeNode.ts:25-43 | the node count is at most the number of non-null entries |
| TreeNode.ExampleRightChildOnly | src/types/TreeNode.ts:31-41 | `[1, null, 2, 3]` builds 1 with only the right child 2; the 3 is dropped |
| TreeNode.ToD3 | src/types/TreeNode.ts:49-71 | the conversion is `null` exactly for the empty tree |
| TreeNode.NatToString | src/types/TreeNode.ts:53 | a label is a non-empty string of decimal digits, one digit long exactly for values below 10 |
| TreeNode.DecimalStringDenotes | src/types/TreeNode.ts:53 | a node's label is its value in decimal: it starts with '-' exactly for negative values and its digits denote the magnitude |
| TreeNode.DecimalStringInjective | src/types/TreeNode.ts:53 | different values get different labels |
| TreeNode.PresentChildren | src/types/TreeNode.ts:56-64 | a node gets one child record per present child |
| TreeNode.ToD3ChildLabels | src/types/TreeNode.ts:56-68 | the labels of a converted node's children, each child's in preorder, are the left subtree's labels followed by the right subtree's |
| TreeNode.NodeLabels | src/types/TreeNode.ts:49-71 | the labels of a converted node are its own label, then the left child's labels, then the right child's |
| TreeNode.NodeDecimalStrings | src/types/TreeNode.ts:49-71 | the decimal strings of a node's preorder are its own, then the left subtree's, then the right subtree's |
| TreeNode.ToD3LeafOmitsChildren | src/types/TreeNode.ts:66-68 | a converted node has no `children` field exactly when it has neither child |
| TreeNode.ToD3Preorder | src/types/TreeNode.ts:49-71 | the labels of the converted tree, root before children, are the decimal strings of the tree's values in preorder |
| TreeNode.ToD3ForgetsSide | src/types/TreeNode.ts:56-68 | a node with only a left child and one with only a right child convert to the same record |
| TreeAnalysis.DetermineTreeDepth | src/utils/tree/treeAnalysis.ts:6-17 | returns `Depth`: 0 for `null`, otherwise the depth of the node |
| TreeAnalysis.NodeDepth | src/utils/tree/treeAnalysis.ts:8-16 | the `forEach` fold computes 1 for a node without a `children` field or with an empty one, and otherwise one more than the largest child depth |
| TreeAnalysis.CountNodes | src/utils/tree/treeAnalysis.ts:24-30 | the `forEach` fold computes one plus the counts of all children |
| TreeAnalysis.DepthAtMostCount | src/utils/tree/treeAnalysis.ts:6-31 | for every record, 1 <= depth <= count |
| TreeAnalysis.LeafIffDepthOne | src/utils/tree/treeAnalysis.ts:8-8 | depth is 1, and count is 1, exactly when a record has no children |
| TreeAnalysis.ToD3CountAndDepth | src/utils/tree/treeAnalysis.ts:6-31 | the depth of a converted tree is the tree's height, and its count is the tree's node count |
| TraversalSteps.Inorder | src/algorithms/inorderTraversal.ts:7-17 | the left-root-right values number exactly the nodes |
| TraversalSteps.RecSteps | src/algorithms/inorderTraversal.ts:70-168 | the recursive helper writes exactly five records per node of the subtree |
| TraversalSteps.RecursiveTrace | src/algorithms/inorderTraversal.ts:25-186 | the recursive tracer writes two records for the empty tree and 5n+3 for n nodes |
| TraversalSteps.IterSteps | src/algorithms/inorderTraversal.ts:286-432 | the iterative loop writes exactly five records per node of a subtree it walks |
| TraversalSteps.IterativeTrace | src/algorithms/inorderTraversal.ts:234-447 | the iterative tracer writes two records for the empty tree and 5n+3 for n nodes |
| TraversalSteps.LoopCoversTree | src/algorithms/inorderTraversal.ts:286-432 | run round by round from the root, the `while (true)` loop writes push, left, pop, visit, right for each node in the tree's order and stops with the inorder result |
| TraversalSteps.LoopCoversSubtree | src/algorithms/inorderTraversal.ts:286-432 | reaching a subtree in the left phase, the loop walks exactly that subtree and returns to the node phase with the same stack and the subtree's values appended |
| TraversalSteps.LegacySteps | src/algorithms/inorderTraversal.ts:450-479 | the older tracer writes 4n+1 records for n nodes |
| TraceProperties.TraceResultsArePrefixes | src/algorithms/inorderTraversal.ts:113-125 | in a well-formed trace, each result is a prefix of every later one and of the final inorder values, and grows by at most one value per record |
| TraceProperties.ChainedGrowth | src/algorithms/inorderTraversal.ts:362-375 | along records that follow one another, results and visited lists only grow, by at most one value per record |
| TraceProperties.OrdersListEachNodeOnce | src/algorithms/inorderTraversal.ts:286-432 | preorder, inorder and postorder identities list exactly the tree's identities, each once when identities are distinct |
| TraceProperties.TraceAroundBody | src/algorithms/inorderTraversal.ts:25-186 | wrapping a walk from a push of the root down to an empty stack between the opening records and the closing record gives a well-formed trace |
| RecursiveTraceFacts.RecStepsChained | src/algorithms/inorderTraversal.ts:70-168 | the helper's records follow one another (at most one push or pop, results growing only at visits, by the current node); it starts with the push of the node and ends with the outer stack and the subtree's values added |
| RecursiveTraceFacts.RecursiveTraceShape | src/algorithms/inorderTraversal.ts:25-186 | the recursive trace opens with an empty record, closes with an empty stack, no current node and the inorder result, its records follow one another, and it shows only nodes of the tree with their own values |
| RecursiveTraceFacts.RecursivePushPaths | src/algorithms/inorderTraversal.ts:70-84 | at every push the stack is the path of identities from the root to the pushed node |
| RecursiveTraceFacts.RecursivePushPopOrders | src/algorithms/inorderTraversal.ts:70-168 | the recursive tracer pushes the nodes in preorder and pops them in postorder |
| IterativeTraceFacts.IterStepsChained | src/algorithms/inorderTraversal.ts:286-432 | the loop's records for a subtree follow one another, start with the push of its root and end with the outer stack and the subtree's values added |
| IterativeTraceFacts.IterativeTraceShape | src/algorithms/inorderTraversal.ts:234-447 | the iterative trace opens with an empty record, closes with the inorder result, its records follow one another, and it shows only nodes of the tree |
| IterativeTraceFacts.IterativePushPopOrders | src/algorithms/inorderTraversal.ts:286-432 | the iterative tracer pushes the nodes in preorder and pops them in inorder |
| LegacyTraceFacts.LegacyStepsShape | src/algorithms/inorderTraversal.ts:454-475 | the older helper's records open at the node with the result it was reached with, grow the result by at most one value per record, and close with the subtree's values added |
| LegacyTraceFacts.LegacyNullEntries | src/algorithms/inorderTraversal.ts:454-475 | one record per missing child, n+1 in all, and three per node |
| LegacyTraceFacts.LegacyTraceResults | src/algorithms/inorderTraversal.ts:450-479 | the first record is at the root with an empty result, the last holds the inorder values, and every result is a prefix of the later ones and of the inorder values |
| InorderTraversal.InorderTraversalRecursive | src/algorithms/inorderTraversal.ts:4-22 | returns the inorder values |
| InorderTraversal.InorderInto | src/algorithms/inorderTraversal.ts:7-17 | the helper appends the subtree's inorder values to the result so far |
| InorderTraversal.InorderTraversalIterative | src/algorithms/inorderTraversal.ts:189-210 | the explicit-stack loops return the same inorder values as the recursive traversal |
| InorderTraversal.DescendLeft | src/algorithms/inorderTraversal.ts:196-199 | pushing the current node and moving left keeps the values still owed |
| InorderTraversal.PopTop | src/algorithms/inorderTraversal.ts:202-206 | popping, outputting and moving right keeps the values still owed |
| InorderTraversal.InorderTraversalRecursiveWithSteps | src/algorithms/inorderTraversal.ts:25-186 | returns `RecursiveTrace(root)` |
| InorderTraversal.TraceSubtree | src/algorithms/inorderTraversal.ts:70-168 | hands back the stack it was given, appends `RecSteps` for the subtree, and adds the subtree's inorder values and identities |
| InorderTraversal.InorderTraversalIterativeWithSteps | src/algorithms/inorderTraversal.ts:234-447 | the phase-driven loop terminates and returns `IterativeTrace(root)`, whose closing record has an empty stack; the catch-all exit is unreachable |
| InorderTraversal.IterativeLoopEnds | src/algorithms/inorderTraversal.ts:434-446 | at the loop's exit, the records with the closing record appended are the whole iterative trace |
| InorderTraversal.LeftDescends | src/algorithms/inorderTraversal.ts:289-317 | a left-phase round at a node with a left child writes push and visit, moves left, and lowers the variant |
| InorderTraversal.LeftBottoms | src/algorithms/inorderTraversal.ts:289-334 | a left-phase round at a node without a left child writes push and visit, switches to the node phase, and lowers the variant |
| InorderTraversal.NodePops | src/algorithms/inorderTraversal.ts:346-378 | a node-phase round pops the top, outputs it, switches to the right phase, and lowers the variant |
| InorderTraversal.RightMoves | src/algorithms/inorderTraversal.ts:385-427 | a right-phase round moves to the right child and back to the left phase, or past the node towards the next pop or the exit, and lowers the variant |
| InorderTraversal.InorderTraversalWithSteps | src/algorithms/inorderTraversal.ts:225-231 | returns the chosen tracer's records unchanged; the iterative one by default |
| InorderTraversal.TracersCompared | src/algorithms/inorderTraversal.ts:225-231 | both choices give the same length, opening and closing records and push order (preorder); the recursive tracer pops in postorder, the iterative one in inorder |
| InorderTraversal.EachNodeOnce | src/algorithms/inorderTraversal.ts:286-432 | with distinct identities each tracer pushes and pops every node exactly once, and its final visited list names every node once |
| InorderTraversal.GetInorderTraversalSteps | src/algorithms/inorderTraversal.ts:450-479 | returns `LegacySteps(root, [])` |
| InorderTraversal.LegacyInto | src/algorithms/inorderTraversal.ts:454-475 | appends `LegacySteps` for the subtree and adds its inorder values to the result |
| InorderTraversal.ExampleOrphanDropped | src/types/TreeNode.ts:21-46 | `[5, 4, 7, 3, null, 2, null, -1, null, 9]` builds a tree of slots 0, 1, 2, 3, 5, 7 whose inorder values are -1, 3, 4, 5, 2, 7; the 9 below the null at slot 4 is dropped |
| InorderTraversal.LeftSkewedExample | src/utils/treeExamples.ts:28-43 | the left-leaning chain 1, 2, 3 has inorder values 3, 2, 1 and pushes 1, 2, 3; the iterative tracer writes 18 records and pops 3, 2, 1. The fixture's numeric ids 1, 2, 3 stand in for string identities here: given the fixture as written, the iterative tracer throws at its first push (see Left out) |

## Left out

- Description strings are left out: the human-readable `description` of every record, including the `id.substring(0, 6)` excerpts. Only `action` and the state fields are modelled.
- The iterative tracer's descriptions call `id.substring(0, 6)` (`src/algorithms/inorderTraversal.ts:300`, and likewise at lines 316, 328, 359, 374, 399 and 414). So it throws on any node whose `id` is not a string: a missing `id`, or a numeric one such as the ids of the fixtures in `src/utils/treeExamples.ts` (declared `id: number` at line 3). In the model every node has an identity and the descriptions are left out, so this error path does not exist.
- The recursion depth counter of the recursive tracer's helper feeds only the descriptions and is left out.
- Object identity and mutation of `TreeNode` objects are left out. The tree is an immutable datatype: no traversal changes it, and the builder's freshly created nodes are modelled as an arena of slots linked by maps.
- The builder's queue holds slots instead of (node, slot) pairs, because a node is known from its slot.
- Identities are natural numbers, not strings. The model compares them only for equality; the source also reads them as strings in the iterative tracer's descriptions, which are left out.
- Values are unbounded integers rather than JavaScript numbers. Traversals only copy them, so no arithmetic is affected; labels are another matter (next line).
- TreeNode.ToD3: `DecimalString` matches JavaScript's `toString` for integers of magnitude at most 2^53. Above that, `toString` prints the shortest digits that read back as the same double, padded with zeros (2^60 prints as 1152921504606847000), and from 10^21 on it uses exponent notation (`1e+21`). Those cases are left out, along with fractions, `-0` and `NaN`.
- The `highlighted` field of `TreeNodeData` is never set by the conversion and is left out.
- TreeAnalysis.CountNodes: the `!node` guard returning 0 is not modelled. The parameter's type excludes `null`, and every recursive call passes a child from a list.
- In the recursive tracer, the pop guard `if (poppedNode)` is modelled as a test that the stack is non-empty. It always holds there.
- The React components, playback timers, input parsing, random tree generator and D3/SVG drawing are left out: they are presentation, not traversal logic. So are the layout, scaling and overlap geometry, which are floating-point.
- The example-tree fixtures are left out, except for the left-leaning chain used in `InorderTraversal.LeftSkewedExample`.
