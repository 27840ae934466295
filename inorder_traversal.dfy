/** The traversal engine: the plain recursive and iterative inorder traversals, the two
    step tracers, the dispatcher between them and the older tracer, each proved to
    compute the function of the tree that specifies it. */
module InorderTraversal {
  import opened TreeNode
  import opened TraversalSteps
  import opened TraceProperties
  import opened RecursiveTraceFacts
  import opened IterativeTraceFacts

  // ---------------------------------------------------------------------------
  // Plain traversals
  // ---------------------------------------------------------------------------

  /** `inorderTraversalRecursive`: the values in left-root-right order. */
  method InorderTraversalRecursive(root: Tree) returns (result: seq<int>)
    ensures result == Inorder(root)
  {
    result := InorderInto(root, []);
  }

  /** The inner `inorder` helper: appends the values of `node`'s subtree, in order, to
      the result built so far. */
  method InorderInto(node: Tree, acc: seq<int>) returns (result: seq<int>)
    ensures result == acc + Inorder(node)
    decreases node
  {
    if node.Nil? {
      return acc;
    }
    result := InorderInto(node.left, acc);
    result := result + [node.val];
    result := InorderInto(node.right, result);
  }

  /** The values still owed to the nodes on an explicit stack, top first: each node's
      own value followed by its right subtree. */
  ghost function Pending(stack: seq<NodeRef>): seq<int>
  {
    if stack == [] then []
    else [stack[|stack| - 1].val] + Inorder(stack[|stack| - 1].right) + Pending(stack[..|stack| - 1])
  }

  lemma PendingPush(stack: seq<NodeRef>, t: NodeRef)
    ensures Pending(stack + [t]) == [t.val] + Inorder(t.right) + Pending(stack)
  {
    assert (stack + [t])[..|stack|] == stack;
  }

  /** Pushing `t` and moving to its left child leaves the values still owed unchanged. */
  lemma DescendLeft(result: seq<int>, t: NodeRef, stack: seq<NodeRef>)
    ensures result + Inorder(t) + Pending(stack) == result + Inorder(t.left) + Pending(stack + [t])
  {
    PendingPush(stack, t);
    Assoc4(result, Inorder(t.left), [t.val] + Inorder(t.right), Pending(stack));
  }

  /** Popping `t` and outputting it, then moving to its right child, leaves the values
      still owed unchanged. */
  lemma PopTop(result: seq<int>, stack: seq<NodeRef>, t: NodeRef)
    ensures result + Inorder(Nil) + Pending(stack + [t]) == result + [t.val] + Inorder(t.right) + Pending(stack)
  {
    PendingPush(stack, t);
    assert result + Inorder(Nil) == result;
    Assoc4(result, [t.val], Inorder(t.right), Pending(stack));
  }

  lemma Assoc4<T>(a: seq<T>, b: seq<T>, c: seq<T>, d: seq<T>)
    ensures a + (b + c) + d == a + b + (c + d) == a + (b + c + d) == a + b + c + d
  {
  }

  /** `inorderTraversalIterative`: walk left pushing every node, pop the top, output it
      and continue with its right child, until there is neither a current node nor a
      node on the stack. */
  method InorderTraversalIterative(root: Tree) returns (result: seq<int>)
    ensures result == Inorder(root)
  {
    result := [];
    var stack: seq<NodeRef> := [];
    var current := root;
    while current.Node? || |stack| > 0
      invariant result + Inorder(current) + Pending(stack) == Inorder(root)
      decreases |Inorder(root)| - |result|
    {
      while current.Node?
        invariant current.Node? || |stack| > 0
        invariant result + Inorder(current) + Pending(stack) == Inorder(root)
        decreases Size(current)
      {
        DescendLeft(result, current, stack);
        stack := stack + [current];
        current := current.left;
      }
      var top := stack[|stack| - 1];
      ghost var before := stack;
      stack := stack[..|stack| - 1];
      assert before == stack + [top];
      PopTop(result, stack, top);
      result := result + [top.val];
      current := top.right;
    }
  }

  // ---------------------------------------------------------------------------
  // The recursive tracer
  // ---------------------------------------------------------------------------

  /** `inorderTraversalRecursiveWithSteps`: an opening record, then either a closing
      record for the empty tree, or a record of the root, the records of the walk and a
      closing record with the result. */
  method InorderTraversalRecursiveWithSteps(root: Tree) returns (steps: seq<Step>)
    ensures steps == RecursiveTrace(root)
  {
    steps := [InitialStep()];
    if root.Nil? {
      steps := steps + [FinalStep([], [])];
      return;
    }
    steps := steps + [Snap([], root, [], [], Visit)];
    var stack, result, visited;
    stack, steps, result, visited := TraceSubtree(root, [], steps, [], []);
    steps := steps + [FinalStep(result, visited)];
    assert [] + Inorder(root) == Inorder(root) && [] + InorderIds(root) == InorderIds(root);
  }

  /** The inner `inorderWithSteps` helper, with the shared stack, record list, result and
      visited list passed in and handed back: for a node it pushes it, walks the left
      side, outputs the node, walks the right side and pops it, writing one record at
      each of these five points. */
  method TraceSubtree(node: Tree, stack: seq<NodeRef>, steps: seq<Step>, result: seq<int>, visited: seq<nat>)
    returns (stack': seq<NodeRef>, steps': seq<Step>, result': seq<int>, visited': seq<nat>)
    ensures stack' == stack
    ensures steps' == steps + (if node.Nil? then [] else RecSteps(node, stack, result, visited))
    ensures result' == result + Inorder(node)
    ensures visited' == visited + InorderIds(node)
    decreases node
  {
    if node.Nil? {
      assert steps + [] == steps;
      return stack, steps, result, visited;
    }
    stack', steps', result', visited' := stack + [node], steps, result, visited;
    var push := [Snap(stack', node, result', visited', Push)];
    steps' := steps' + push;
    ghost var afterPush := steps';
    if node.left.Node? {
      steps' := steps' + [Snap(stack', node.left, result', visited', Visit)];
      stack', steps', result', visited' := TraceSubtree(node.left, stack', steps', result', visited');
      TreeNode.AppendAssoc(afterPush, [Snap(stack + [node], node.left, result, visited, Visit)],
        RecSteps(node.left, stack + [node], result, visited));
    } else {
      steps' := steps' + [Snap(stack', node, result', visited', Visit)];
      assert result + Inorder(node.left) == result && visited + InorderIds(node.left) == visited;
    }
    assert steps' == afterPush + RecLeft(node, stack + [node], result, visited);
    assert stack' == stack + [node];
    assert result' == result + Inorder(node.left) && visited' == visited + InorderIds(node.left);
    result' := result' + [node.val];
    visited' := visited' + [node.id];
    var visit := [Snap(stack', node, result', visited', Visit)];
    steps' := steps' + visit;
    ghost var afterVisit := steps';
    if node.right.Node? {
      steps' := steps' + [Snap(stack', node.right, result', visited', MoveRight)];
      ghost var r0, v0 := result', visited';
      stack', steps', result', visited' := TraceSubtree(node.right, stack', steps', result', visited');
      TreeNode.AppendAssoc(afterVisit, [Snap(stack + [node], node.right, r0, v0, MoveRight)],
        RecSteps(node.right, stack + [node], r0, v0));
    } else {
      steps' := steps' + [Snap(stack', node, result', visited', Visit)];
      assert result' + Inorder(node.right) == result' && visited' + InorderIds(node.right) == visited';
    }
    ghost var right := RecRight(node, stack + [node], result + Inorder(node.left) + [node.val],
      visited + InorderIds(node.left) + [node.id]);
    assert steps' == afterVisit + right;
    if |stack'| > 0 {
      stack' := stack'[..|stack'| - 1];
      steps' := steps' + [Snap(stack', node, result', visited', Pop)];
    }
    InorderSplit(node, result, visited);
    ghost var pop := [Snap(stack, node, result', visited', Pop)];
    assert steps' == afterVisit + right + pop;
    Assoc6(steps, push, RecLeft(node, stack + [node], result, visited), visit, right, pop);
  }

  lemma Assoc6<T>(s: seq<T>, a: seq<T>, b: seq<T>, c: seq<T>, d: seq<T>, e: seq<T>)
    ensures s + a + b + c + d + e == s + (a + b + c + d + e)
  {
  }

  // ---------------------------------------------------------------------------
  // The iterative tracer
  // ---------------------------------------------------------------------------

  /** `inorderTraversalIterativeWithSteps`: after the opening records, a loop driven by
      a phase tag. In the left phase it pushes the current node and moves to its left
      child, or switches to the node phase when there is none; in the node phase it pops
      the top and outputs it; in the right phase it moves to the right child and back
      to the left phase, or past the node towards the next pop. The loop stops when it
      needs a node from an empty stack. */
  method InorderTraversalIterativeWithSteps(root: Tree) returns (steps: seq<Step>)
    ensures steps == IterativeTrace(root)
  {
    steps := [InitialStep()];
    if root.Nil? {
      steps := steps + [FinalStep([], [])];
      return;
    }
    steps := steps + [Snap([], root, [], [], Visit)];
    ghost var open := steps;
    assert open == [InitialStep(), Snap([], root, [], [], Visit)];
    ghost var whole := open + LoopSteps(LeftPhase, root, [], [], []);
    assert whole == steps + LoopSteps(LeftPhase, root, [], [], []);
    var stack: seq<NodeRef> := [];
    var result: seq<int> := [];
    var visited: seq<nat> := [];
    var current := root;
    var phase := LeftPhase;
    while true
      invariant steps + LoopSteps(phase, current, stack, result, visited) == whole
      invariant phase == RightPhase ==> current.Node?
      decreases LoopMeasure(phase, current, stack)
    {
      if phase == LeftPhase {
        if current.Node? {
          if current.left.Node? {
            LeftDescends(steps, current, stack, result, visited);
          } else {
            LeftBottoms(steps, current, stack, result, visited);
          }
          stack := stack + [current];
          steps := steps + [Snap(stack, current, result, visited, Push)];
          if current.left.Node? {
            current := current.left;
            steps := steps + [Snap(stack, current, result, visited, Visit)];
          } else {
            steps := steps + [Snap(stack, current, result, visited, Visit)];
            phase := NodePhase;
          }
        } else if |stack| > 0 {
          phase := NodePhase;
        } else {
          IterativeLoopEnds(root, open, steps, result, visited);
          break;
        }
      } else if phase == NodePhase {
        if |stack| > 0 {
          ghost var all := stack;
          var top := stack[|stack| - 1];
          stack := stack[..|stack| - 1];
          assert all == stack + [top];
          NodePops(steps, current, stack, top, result, visited);
          current := top;
          steps := steps + [Snap(stack, current, result, visited, Pop)];
          result := result + [current.val];
          visited := visited + [current.id];
          steps := steps + [Snap(stack, current, result, visited, Visit)];
          phase := RightPhase;
        } else {
          IterativeLoopEnds(root, open, steps, result, visited);
          break;
        }
      } else if phase == RightPhase && current.Node? {
        RightMoves(steps, current, stack, result, visited);
        if current.right.Node? {
          current := current.right;
          steps := steps + [Snap(stack, current, result, visited, MoveRight)];
          phase := LeftPhase;
        } else {
          steps := steps + [Snap(stack, current, result, visited, MoveRight)];
          current := Nil;
          if |stack| > 0 {
            phase := NodePhase;
          } else {
            IterativeLoopEnds(root, open, steps, result, visited);
            break;
          }
        }
      } else {
        assert false;
        break;
      }
    }
    steps := steps + [FinalStep(result, visited)];
  }

  /** When the loop stops, its records and the closing record are the whole trace. */
  lemma IterativeLoopEnds(root: NodeRef, open: seq<Step>, steps: seq<Step>, result: seq<int>, visited: seq<nat>)
    requires open == [InitialStep(), Snap([], root, [], [], Visit)]
    requires steps + [FinalStep(result, visited)] == open + LoopSteps(LeftPhase, root, [], [], [])
    ensures steps + [FinalStep(result, visited)] == IterativeTrace(root)
  {
    LoopCoversTree(root);
    TreeNode.AppendAssoc(open, IterSteps(root, [], [], []), [FinalStep(Inorder(root), InorderIds(root))]);
  }

  // One lemma per branch of the loop: the records the round writes, the state it
  // leaves, and the drop of the loop measure.

  lemma LeftDescends(before: seq<Step>, t: NodeRef, stack: seq<NodeRef>, res: seq<int>, vis: seq<nat>)
    requires t.left.Node?
    ensures before + LoopSteps(LeftPhase, t, stack, res, vis)
      == before + [Snap(stack + [t], t, res, vis, Push)] + [Snap(stack + [t], t.left, res, vis, Visit)]
         + LoopSteps(LeftPhase, t.left, stack + [t], res, vis)
    ensures LoopMeasure(LeftPhase, t.left, stack + [t]) < LoopMeasure(LeftPhase, t, stack)
  {
    LoopLeftRound(t, stack, res, vis);
    BacklogPush(stack, t);
    Assoc4(before, [Snap(stack + [t], t, res, vis, Push)], [Snap(stack + [t], t.left, res, vis, Visit)],
      LoopSteps(LeftPhase, t.left, stack + [t], res, vis));
  }

  lemma LeftBottoms(before: seq<Step>, t: NodeRef, stack: seq<NodeRef>, res: seq<int>, vis: seq<nat>)
    requires t.left.Nil?
    ensures before + LoopSteps(LeftPhase, t, stack, res, vis)
      == before + [Snap(stack + [t], t, res, vis, Push)] + [Snap(stack + [t], t, res, vis, Visit)]
         + LoopSteps(NodePhase, t, stack + [t], res, vis)
    ensures LoopMeasure(NodePhase, t, stack + [t]) < LoopMeasure(LeftPhase, t, stack)
  {
    LoopLeftRound(t, stack, res, vis);
    BacklogPush(stack, t);
    NodePhaseIgnoresCurrent(t, Nil, stack + [t], res, vis);
    Assoc4(before, [Snap(stack + [t], t, res, vis, Push)], [Snap(stack + [t], t, res, vis, Visit)],
      LoopSteps(NodePhase, t, stack + [t], res, vis));
  }

  lemma NodePops(before: seq<Step>, x: Tree, rest: seq<NodeRef>, top: NodeRef, res: seq<int>, vis: seq<nat>)
    ensures before + LoopSteps(NodePhase, x, rest + [top], res, vis)
      == before + [Snap(rest, top, res, vis, Pop)] + [Snap(rest, top, res + [top.val], vis + [top.id], Visit)]
         + LoopSteps(RightPhase, top, rest, res + [top.val], vis + [top.id])
    ensures LoopMeasure(RightPhase, top, rest) < LoopMeasure(NodePhase, x, rest + [top])
  {
    LoopNodeRound(x, rest, top, res, vis);
    BacklogPush(rest, top);
    Assoc4(before, [Snap(rest, top, res, vis, Pop)], [Snap(rest, top, res + [top.val], vis + [top.id], Visit)],
      LoopSteps(RightPhase, top, rest, res + [top.val], vis + [top.id]));
  }

  lemma RightMoves(before: seq<Step>, t: NodeRef, stack: seq<NodeRef>, res: seq<int>, vis: seq<nat>)
    ensures t.right.Node? ==>
      && before + LoopSteps(RightPhase, t, stack, res, vis)
        == before + [Snap(stack, t.right, res, vis, MoveRight)] + LoopSteps(LeftPhase, t.right, stack, res, vis)
      && LoopMeasure(LeftPhase, t.right, stack) < LoopMeasure(RightPhase, t, stack)
    ensures t.right.Nil? && |stack| > 0 ==>
      && before + LoopSteps(RightPhase, t, stack, res, vis)
        == before + [Snap(stack, t, res, vis, MoveRight)] + LoopSteps(NodePhase, Nil, stack, res, vis)
      && LoopMeasure(NodePhase, Nil, stack) < LoopMeasure(RightPhase, t, stack)
    ensures t.right.Nil? && |stack| == 0 ==>
      before + LoopSteps(RightPhase, t, stack, res, vis)
        == before + [Snap(stack, t, res, vis, MoveRight)] + [FinalStep(res, vis)]
  {
    LoopRightRound(t, stack, res, vis);
    if t.right.Node? {
      TreeNode.AppendAssoc(before, [Snap(stack, t.right, res, vis, MoveRight)], LoopSteps(LeftPhase, t.right, stack, res, vis));
    } else {
      TreeNode.AppendAssoc(before, [Snap(stack, t, res, vis, MoveRight)], LoopSteps(NodePhase, Nil, stack, res, vis));
    }
  }

  // ---------------------------------------------------------------------------
  // The dispatcher
  // ---------------------------------------------------------------------------

  /** Which tracer `inorderTraversalWithSteps` runs. */
  datatype Strategy = Recursive | Iterative

  /** `inorderTraversalWithSteps`: the records of the chosen tracer, unchanged; the
      iterative one unless asked otherwise. */
  method InorderTraversalWithSteps(root: Tree, strategy: Strategy := Iterative) returns (steps: seq<Step>)
    ensures strategy == Recursive ==> steps == RecursiveTrace(root)
    ensures strategy == Iterative ==> steps == IterativeTrace(root)
  {
    if strategy == Recursive {
      steps := InorderTraversalRecursiveWithSteps(root);
    } else {
      steps := InorderTraversalIterativeWithSteps(root);
    }
  }

  // ---------------------------------------------------------------------------
  // The older tracer
  // ---------------------------------------------------------------------------

  /** `getInorderTraversalSteps`: the older tracer's records for the whole tree. */
  method GetInorderTraversalSteps(root: Tree) returns (steps: seq<LegacyStep>)
    ensures steps == LegacySteps(root, [])
  {
    var result;
    steps, result := LegacyInto(root, [], []);
  }

  /** Its inner `inorder` helper, with the shared record list and result passed in and
      handed back: one record for a missing child; for a node, one on arrival, one after
      adding its value and one when its subtree is done. */
  method LegacyInto(node: Tree, steps: seq<LegacyStep>, result: seq<int>)
    returns (steps': seq<LegacyStep>, result': seq<int>)
    ensures steps' == steps + LegacySteps(node, result)
    ensures result' == result + Inorder(node)
    decreases node
  {
    if node.Nil? {
      return steps + [LegacyStep(Nil, result)], result;
    }
    steps' := steps + [LegacyStep(node, result)];
    steps', result' := LegacyInto(node.left, steps', result);
    result' := result' + [node.val];
    ghost var r1 := result';
    steps' := steps' + [LegacyStep(node, result')];
    steps', result' := LegacyInto(node.right, steps', result');
    steps' := steps' + [LegacyStep(node, result')];
    assert result' == r1 + Inorder(node.right);
    Assoc6(steps, [LegacyStep(node, result)], LegacySteps(node.left, result), [LegacyStep(node, r1)],
      LegacySteps(node.right, r1), [LegacyStep(node, result')]);
    InorderSplit(node, result, []);
  }

  // ---------------------------------------------------------------------------
  // The two tracers side by side
  // ---------------------------------------------------------------------------

  /** Both tracers write 5n + 3 records (2 for the empty tree) that open and close alike
      and push the nodes in preorder; they differ in when they pop: the recursive one
      after a node's right subtree (postorder), the iterative one before it (inorder). */
  lemma TracersCompared(root: Tree)
    ensures |RecursiveTrace(root)| == |IterativeTrace(root)|
    ensures RecursiveTrace(root)[0] == IterativeTrace(root)[0] == InitialStep()
    ensures RecursiveTrace(root)[|RecursiveTrace(root)| - 1] == IterativeTrace(root)[|IterativeTrace(root)| - 1]
      == FinalStep(Inorder(root), InorderIds(root))
    ensures ActionIds(RecursiveTrace(root), Push) == ActionIds(IterativeTrace(root), Push) == PreorderIds(root)
    ensures ActionIds(RecursiveTrace(root), Pop) == PostorderIds(root)
    ensures ActionIds(IterativeTrace(root), Pop) == InorderIds(root)
  {
    RecursiveTraceShape(root);
    IterativeTraceShape(root);
    RecursivePushPopOrders(root);
    IterativePushPopOrders(root);
  }

  /** The trace pushes every node of `root` exactly once and pops it exactly once, and its
      last visited list names every node once. */
  ghost predicate EachNodeOnceIn(steps: seq<Step>, root: Tree)
    requires |steps| > 0
  {
    && NoDuplicates(ActionIds(steps, Push)) && NoDuplicates(ActionIds(steps, Pop))
    && (forall x :: x in ActionIds(steps, Push) <==> x in Ids(root))
    && (forall x :: x in ActionIds(steps, Pop) <==> x in Ids(root))
    && NoDuplicates(steps[|steps| - 1].visitedIds)
    && (forall x :: x in steps[|steps| - 1].visitedIds <==> x in Ids(root))
  }

  /** With distinct identities, each tracer handles each node once. */
  lemma EachNodeOnce(root: Tree)
    requires DistinctIds(root)
    ensures EachNodeOnceIn(RecursiveTrace(root), root)
    ensures EachNodeOnceIn(IterativeTrace(root), root)
  {
    TracersCompared(root);
    OrdersListEachNodeOnce(root);
  }

  /** The array [5, 4, 7, 3, null, 2, null, -1, null, 9] read as a heap: the 9 at slot 9
      hangs below the null at slot 4, so it is never reached, and the inorder values are
      -1, 3, 4, 5, 2, 7. */
  lemma ExampleOrphanDropped(arr: seq<Option<int>>)
    requires |arr| == 10 && arr[0] == Some(5) && arr[1] == Some(4) && arr[2] == Some(7)
    requires arr[3] == Some(3) && arr[4].None? && arr[5] == Some(2) && arr[6].None?
    requires arr[7] == Some(-1) && arr[8].None? && arr[9] == Some(9)
    ensures Inorder(Build(arr, 0)) == [-1, 3, 4, 5, 2, 7]
    ensures Ids(Build(arr, 0)) == {0, 1, 2, 3, 5, 7}
  {
    assert Build(arr, 15) == Nil && Build(arr, 16) == Nil && Build(arr, 8) == Nil;
    assert Build(arr, 4) == Nil;
    assert Build(arr, 11) == Nil && Build(arr, 12) == Nil && Build(arr, 6) == Nil;
    assert Build(arr, 7) == Node(7, -1, Nil, Nil);
    assert Build(arr, 3) == Node(3, 3, Build(arr, 7), Nil);
    assert Build(arr, 1) == Node(1, 4, Build(arr, 3), Nil);
    assert Build(arr, 5) == Node(5, 2, Nil, Nil);
    assert Build(arr, 2) == Node(2, 7, Build(arr, 5), Nil);
    OrphanShapeOrders(Build(arr, 0), 0, 1, 2, 3, 5, 7, 5, 4, 7, 3, 2, -1);
  }

  /** Inorder values and identities of a root a with a left spine a - b - d - g and a
      right child c whose only child is its left child e. */
  lemma OrphanShapeOrders(t: Tree, a: nat, b: nat, c: nat, d: nat, e: nat, g: nat,
                          va: int, vb: int, vc: int, vd: int, ve: int, vg: int)
    requires t == Node(a, va, Node(b, vb, Node(d, vd, Node(g, vg, Nil, Nil), Nil), Nil),
                       Node(c, vc, Node(e, ve, Nil, Nil), Nil))
    ensures Inorder(t) == [vg, vd, vb, va, ve, vc]
    ensures Ids(t) == {a, b, c, d, e, g}
  {
    var ng := Node(g, vg, Nil, Nil);
    var nd := Node(d, vd, ng, Nil);
    var nb := Node(b, vb, nd, Nil);
    var ne := Node(e, ve, Nil, Nil);
    var nc := Node(c, vc, ne, Nil);
    assert Inorder(ng) == [vg];
    assert Inorder(nd) == [vg, vd];
    assert Inorder(nb) == [vg, vd, vb];
    assert Inorder(ne) == [ve];
    assert Inorder(nc) == [ve, vc];
    assert Ids(ng) == {g};
    assert Ids(nd) == {d, g};
    assert Ids(nb) == {b, d, g};
    assert Ids(nc) == {c, e};
  }

  /** The left-leaning chain 1 - 2 - 3 of the example trees: inorder values 3, 2, 1 and
      pushes 1, 2, 3; the iterative tracer writes 18 records and pops 3, 2, 1.  The
      example's numeric ids 1, 2, 3 stand in for string identities. */
  lemma LeftSkewedExample(t: Tree)
    requires t == Node(1, 1, Node(2, 2, Node(3, 3, Nil, Nil), Nil), Nil)
    ensures Inorder(t) == [3, 2, 1]
    ensures PreorderIds(t) == [1, 2, 3]
    ensures ActionIds(IterativeTrace(t), Push) == [1, 2, 3]
    ensures |IterativeTrace(t)| == 18
    ensures ActionIds(IterativeTrace(t), Pop) == [3, 2, 1]
  {
    LeftChainOrders(1, 2, 3, 1, 2, 3);
    IterativePushPopOrders(t);
  }

  /** A chain of three nodes, each the left child of the one above it. */
  lemma LeftChainOrders(a: nat, b: nat, c: nat, u: int, v: int, w: int)
    ensures var t := Node(a, u, Node(b, v, Node(c, w, Nil, Nil), Nil), Nil);
      && Inorder(t) == [w, v, u] && InorderIds(t) == [c, b, a] && PreorderIds(t) == [a, b, c]
      && Size(t) == 3
  {
    var z := Node(c, w, Nil, Nil);
    var y := Node(b, v, z, Nil);
    assert Inorder(z) == [w] && InorderIds(z) == [c] && PreorderIds(z) == [c];
    assert Inorder(y) == [w, v] && InorderIds(y) == [c, b] && PreorderIds(y) == [b, c];
  }
}
