/** The orders of a binary tree and the step records of the traversal tracers, with
    the record sequences the tracers emit given as functions of the tree. */
module TraversalSteps {
  import opened TreeNode

  // ---------------------------------------------------------------------------
  // Orders of a tree
  // ---------------------------------------------------------------------------

  /** Values in left-root-right order: the answer of the traversal. */
  function Inorder(t: Tree): (vs: seq<int>)
    ensures |vs| == Size(t)
  {
    match t
    case Nil => []
    case Node(_, v, l, r) => Inorder(l) + [v] + Inorder(r)
  }

  /** Identities in left-root-right order. */
  function InorderIds(t: Tree): (ids: seq<nat>)
    ensures |ids| == Size(t)
  {
    match t
    case Nil => []
    case Node(i, _, l, r) => InorderIds(l) + [i] + InorderIds(r)
  }

  /** Identities in root-left-right order. */
  function PreorderIds(t: Tree): (ids: seq<nat>)
    ensures |ids| == Size(t)
  {
    match t
    case Nil => []
    case Node(i, _, l, r) => [i] + PreorderIds(l) + PreorderIds(r)
  }

  /** Identities in left-right-root order. */
  function PostorderIds(t: Tree): (ids: seq<nat>)
    ensures |ids| == Size(t)
  {
    match t
    case Nil => []
    case Node(i, _, l, r) => PostorderIds(l) + PostorderIds(r) + [i]
  }

  /** The values (identities) of a node's subtree extend a result in three parts. */
  lemma InorderSplit(t: NodeRef, res: seq<int>, vis: seq<nat>)
    ensures res + Inorder(t) == res + Inorder(t.left) + [t.val] + Inorder(t.right)
    ensures vis + InorderIds(t) == vis + InorderIds(t.left) + [t.id] + InorderIds(t.right)
  {
    assert Inorder(t) == Inorder(t.left) + [t.val] + Inorder(t.right);
    assert InorderIds(t) == InorderIds(t.left) + [t.id] + InorderIds(t.right);
    AppendAround(res, Inorder(t.left), t.val, Inorder(t.right));
    AppendAround(vis, InorderIds(t.left), t.id, InorderIds(t.right));
  }

  lemma AppendAround<T>(r: seq<T>, a: seq<T>, x: T, b: seq<T>)
    ensures r + (a + [x] + b) == r + a + [x] + b
  {
  }

  // ---------------------------------------------------------------------------
  // Step records
  // ---------------------------------------------------------------------------

  datatype Action = Push | Pop | Visit | MoveRight

  /** A snapshot of a tracer: the identities and values on the stack (bottom first),
      the node being processed, the result so far with the identities it came from,
      and what the step did. */
  datatype Step = Step(
    stack: seq<nat>,
    stackVals: seq<int>,
    currentId: Option<nat>,
    currentVal: Option<int>,
    result: seq<int>,
    visitedIds: seq<nat>,
    action: Action)

  function StackIds(s: seq<NodeRef>): (ids: seq<nat>)
    ensures |ids| == |s| && forall k :: 0 <= k < |s| ==> ids[k] == s[k].id
  {
    seq(|s|, k requires 0 <= k < |s| => s[k].id)
  }

  function StackVals(s: seq<NodeRef>): (vs: seq<int>)
    ensures |vs| == |s| && forall k :: 0 <= k < |s| ==> vs[k] == s[k].val
  {
    seq(|s|, k requires 0 <= k < |s| => s[k].val)
  }

  /** The record a tracer writes with `stack` as its stack and `cur` as its current node. */
  function Snap(stack: seq<NodeRef>, cur: NodeRef, res: seq<int>, vis: seq<nat>, a: Action): Step
  {
    Step(StackIds(stack), StackVals(stack), Some(cur.id), Some(cur.val), res, vis, a)
  }

  /** The record without a stack or a current node, closing a trace with its result
      (and, with an empty result, also opening it). */
  function FinalStep(res: seq<int>, vis: seq<nat>): Step
  {
    Step([], [], None, None, res, vis, Visit)
  }

  function InitialStep(): Step
  {
    FinalStep([], [])
  }

  // ---------------------------------------------------------------------------
  // The recursive tracer
  // ---------------------------------------------------------------------------

  /** The records the recursive tracer writes for the subtree `t`, entered with `stack`
      on the stack and `res`/`vis` as the result so far: push, move towards the left,
      visit, move towards the right, pop. */
  ghost function RecSteps(t: NodeRef, stack: seq<NodeRef>, res: seq<int>, vis: seq<nat>): (steps: seq<Step>)
    ensures |steps| == 5 * Size(t)
    decreases t, 1
  {
    var inner := stack + [t];
    var res', vis' := res + Inorder(t.left) + [t.val], vis + InorderIds(t.left) + [t.id];
    [Snap(inner, t, res, vis, Push)]
      + RecLeft(t, inner, res, vis)
      + [Snap(inner, t, res', vis', Visit)]
      + RecRight(t, inner, res', vis')
      + [Snap(stack, t, res' + Inorder(t.right), vis' + InorderIds(t.right), Pop)]
  }

  /** The records for the left side: a visit of the left child and its records, or a
      visit of `t` itself noting that there is no left child. */
  ghost function RecLeft(t: NodeRef, inner: seq<NodeRef>, res: seq<int>, vis: seq<nat>): (steps: seq<Step>)
    ensures |steps| == 1 + 5 * Size(t.left)
    decreases t, 0
  {
    if t.left.Node? then [Snap(inner, t.left, res, vis, Visit)] + RecSteps(t.left, inner, res, vis)
    else [Snap(inner, t, res, vis, Visit)]
  }

  /** The records for the right side: a move to the right child and its records, or a
      visit of `t` itself noting that there is no right child. */
  ghost function RecRight(t: NodeRef, inner: seq<NodeRef>, res: seq<int>, vis: seq<nat>): (steps: seq<Step>)
    ensures |steps| == 1 + 5 * Size(t.right)
    decreases t, 0
  {
    if t.right.Node? then [Snap(inner, t.right, res, vis, MoveRight)] + RecSteps(t.right, inner, res, vis)
    else [Snap(inner, t, res, vis, Visit)]
  }

  /** Everything the recursive tracer returns. */
  ghost function RecursiveTrace(root: Tree): (steps: seq<Step>)
    ensures |steps| == if root.Nil? then 2 else 5 * Size(root) + 3
  {
    if root.Nil? then [InitialStep(), FinalStep([], [])]
    else ([InitialStep(), Snap([], root, [], [], Visit)]
      + RecSteps(root, [], [], [])
      + [FinalStep(Inorder(root), InorderIds(root))])
  }

  // ---------------------------------------------------------------------------
  // The iterative tracer
  // ---------------------------------------------------------------------------

  /** The records the iterative tracer writes for the subtree `t`, from the moment it
      reaches `t` with `stack` on the stack until it has moved past the right end of
      `t`: push, move towards the left, pop, visit, move to the right. */
  ghost function IterSteps(t: NodeRef, stack: seq<NodeRef>, res: seq<int>, vis: seq<nat>): (steps: seq<Step>)
    ensures |steps| == 5 * Size(t)
    decreases t, 1
  {
    var inner := stack + [t];
    var res', vis' := res + Inorder(t.left), vis + InorderIds(t.left);
    [Snap(inner, t, res, vis, Push)]
      + IterLeft(t, inner, res, vis)
      + [Snap(stack, t, res', vis', Pop), Snap(stack, t, res' + [t.val], vis' + [t.id], Visit)]
      + IterRight(t, stack, res' + [t.val], vis' + [t.id])
  }

  ghost function IterLeft(t: NodeRef, inner: seq<NodeRef>, res: seq<int>, vis: seq<nat>): (steps: seq<Step>)
    ensures |steps| == 1 + 5 * Size(t.left)
    decreases t, 0
  {
    if t.left.Node? then [Snap(inner, t.left, res, vis, Visit)] + IterSteps(t.left, inner, res, vis)
    else [Snap(inner, t, res, vis, Visit)]
  }

  ghost function IterRight(t: NodeRef, stack: seq<NodeRef>, res: seq<int>, vis: seq<nat>): (steps: seq<Step>)
    ensures |steps| == 1 + 5 * Size(t.right)
    decreases t, 0
  {
    if t.right.Node? then [Snap(stack, t.right, res, vis, MoveRight)] + IterSteps(t.right, stack, res, vis)
    else [Snap(stack, t, res, vis, MoveRight)]
  }

  /** Everything the iterative tracer returns. */
  ghost function IterativeTrace(root: Tree): (steps: seq<Step>)
    ensures |steps| == if root.Nil? then 2 else 5 * Size(root) + 3
  {
    if root.Nil? then [InitialStep(), FinalStep([], [])]
    else ([InitialStep(), Snap([], root, [], [], Visit)]
      + IterSteps(root, [], [], [])
      + [FinalStep(Inorder(root), InorderIds(root))])
  }

  /** The phase of the iterative tracer's loop. */
  datatype Phase = LeftPhase | NodePhase | RightPhase

  /** Work still owed to the nodes on a stack: each will be popped, visited and moved
      past, and its right subtree walked. */
  ghost function Backlog(stack: seq<NodeRef>): nat
  {
    if stack == [] then 0 else Backlog(stack[..|stack| - 1]) + 5 * Size(stack[|stack| - 1].right) + 3
  }

  lemma BacklogPush(stack: seq<NodeRef>, t: NodeRef)
    ensures Backlog(stack + [t]) == Backlog(stack) + 5 * Size(t.right) + 3
  {
    assert (stack + [t])[..|stack|] == stack;
  }

  /** A bound on the rounds the iterative tracer's loop has left. */
  ghost function LoopMeasure(phase: Phase, current: Tree, stack: seq<NodeRef>): nat
  {
    Backlog(stack) + match phase {
      case LeftPhase => 5 * Size(current) + 1
      case NodePhase => 0
      case RightPhase => if current.Node? then 5 * Size(current.right) + 2 else 0
    }
  }

  /** The records the iterative tracer's loop writes from a given state to its end,
      the closing record included: one round of the loop per unfolding. */
  ghost function LoopSteps(phase: Phase, current: Tree, stack: seq<NodeRef>, res: seq<int>, vis: seq<nat>): seq<Step>
    decreases LoopMeasure(phase, current, stack)
  {
    match phase
    case LeftPhase =>
      if current.Node? then
        var inner := stack + [current];
        BacklogPush(stack, current);
        [Snap(inner, current, res, vis, Push)]
          + if current.left.Node? then
              [Snap(inner, current.left, res, vis, Visit)] + LoopSteps(LeftPhase, current.left, inner, res, vis)
            else
              [Snap(inner, current, res, vis, Visit)] + LoopSteps(NodePhase, current, inner, res, vis)
      else if |stack| > 0 then LoopSteps(NodePhase, current, stack, res, vis)
      else [FinalStep(res, vis)]
    case NodePhase =>
      if |stack| > 0 then
        var top, rest := stack[|stack| - 1], stack[..|stack| - 1];
        [Snap(rest, top, res, vis, Pop), Snap(rest, top, res + [top.val], vis + [top.id], Visit)]
          + LoopSteps(RightPhase, top, rest, res + [top.val], vis + [top.id])
      else [FinalStep(res, vis)]
    case RightPhase =>
      if current.Node? then
        if current.right.Node? then
          [Snap(stack, current.right, res, vis, MoveRight)] + LoopSteps(LeftPhase, current.right, stack, res, vis)
        else
          [Snap(stack, current, res, vis, MoveRight)]
            + if |stack| > 0 then LoopSteps(NodePhase, Nil, stack, res, vis) else [FinalStep(res, vis)]
      else [FinalStep(res, vis)]
  }

  /** In the node phase the loop pops its current node fresh from the stack. */
  lemma NodePhaseIgnoresCurrent(a: Tree, b: Tree, stack: seq<NodeRef>, res: seq<int>, vis: seq<nat>)
    ensures LoopSteps(NodePhase, a, stack, res, vis) == LoopSteps(NodePhase, b, stack, res, vis)
  {
  }

  /** One round in the left phase at `t`: push it, then go left or switch to the node phase. */
  lemma LoopLeftRound(t: NodeRef, stack: seq<NodeRef>, res: seq<int>, vis: seq<nat>)
    ensures LoopSteps(LeftPhase, t, stack, res, vis)
      == [Snap(stack + [t], t, res, vis, Push)]
         + if t.left.Node? then
             [Snap(stack + [t], t.left, res, vis, Visit)] + LoopSteps(LeftPhase, t.left, stack + [t], res, vis)
           else
             [Snap(stack + [t], t, res, vis, Visit)] + LoopSteps(NodePhase, Nil, stack + [t], res, vis)
  {
    NodePhaseIgnoresCurrent(t, Nil, stack + [t], res, vis);
  }

  /** One round in the node phase with `t` on top: pop it and visit it. */
  lemma LoopNodeRound(x: Tree, stack: seq<NodeRef>, t: NodeRef, res: seq<int>, vis: seq<nat>)
    ensures LoopSteps(NodePhase, x, stack + [t], res, vis)
      == [Snap(stack, t, res, vis, Pop), Snap(stack, t, res + [t.val], vis + [t.id], Visit)]
         + LoopSteps(RightPhase, t, stack, res + [t.val], vis + [t.id])
  {
    var inner := stack + [t];
    assert inner[|inner| - 1] == t && inner[..|inner| - 1] == stack;
  }

  /** One round in the right phase at `t`: move to its right child, or past `t`. */
  lemma LoopRightRound(t: NodeRef, stack: seq<NodeRef>, res: seq<int>, vis: seq<nat>)
    ensures LoopSteps(RightPhase, t, stack, res, vis)
      == if t.right.Node? then
           [Snap(stack, t.right, res, vis, MoveRight)] + LoopSteps(LeftPhase, t.right, stack, res, vis)
         else
           [Snap(stack, t, res, vis, MoveRight)] + LoopSteps(NodePhase, Nil, stack, res, vis)
  {
  }

  /** Reaching `t` in the left phase, the loop writes the records of `t`'s subtree and
      then goes on in the node phase with the same stack and `t`'s values added. */
  lemma {:induction false} LoopCoversSubtree(t: NodeRef, stack: seq<NodeRef>, res: seq<int>, vis: seq<nat>)
    ensures LoopSteps(LeftPhase, t, stack, res, vis)
      == IterSteps(t, stack, res, vis) + LoopSteps(NodePhase, Nil, stack, res + Inorder(t), vis + InorderIds(t))
    decreases t, 1
  {
    var inner := stack + [t];
    var res', vis' := res + Inorder(t.left), vis + InorderIds(t.left);
    var res'', vis'' := res' + [t.val], vis' + [t.id];
    var fin, finIds := res'' + Inorder(t.right), vis'' + InorderIds(t.right);
    InorderSplit(t, res, vis);
    var head := [Snap(inner, t, res, vis, Push)] + IterLeft(t, inner, res, vis);
    var pv := [Snap(stack, t, res', vis', Pop), Snap(stack, t, res'', vis'', Visit)];
    LoopCoversLeft(t, stack, res, vis);
    LoopNodeRound(Nil, stack, t, res', vis');
    LoopCoversRight(t, stack, res'', vis'');
    Regroup(LoopSteps(LeftPhase, t, stack, res, vis), head,
            LoopSteps(NodePhase, Nil, inner, res', vis'), pv,
            LoopSteps(RightPhase, t, stack, res'', vis''), IterRight(t, stack, res'', vis''),
            LoopSteps(NodePhase, Nil, stack, fin, finIds));
  }

  lemma Regroup<T>(x: seq<T>, a: seq<T>, y: seq<T>, b: seq<T>, z: seq<T>, c: seq<T>, rest: seq<T>)
    requires x == a + y && y == b + z && z == c + rest
    ensures x == (a + b + c) + rest
  {
  }

  /** The left-phase round at `t` and the walk of `t`'s left subtree end with `t` on top
      of the stack in the node phase. */
  lemma {:induction false} LoopCoversLeft(t: NodeRef, stack: seq<NodeRef>, res: seq<int>, vis: seq<nat>)
    ensures LoopSteps(LeftPhase, t, stack, res, vis)
      == [Snap(stack + [t], t, res, vis, Push)] + IterLeft(t, stack + [t], res, vis)
         + LoopSteps(NodePhase, Nil, stack + [t], res + Inorder(t.left), vis + InorderIds(t.left))
    decreases t, 0
  {
    var inner := stack + [t];
    var push := [Snap(inner, t, res, vis, Push)];
    LoopLeftRound(t, stack, res, vis);
    if t.left.Node? {
      var visit := [Snap(inner, t.left, res, vis, Visit)];
      LoopCoversSubtree(t.left, inner, res, vis);
      assert IterLeft(t, inner, res, vis) == visit + IterSteps(t.left, inner, res, vis);
      Regroup3(push, visit, IterSteps(t.left, inner, res, vis),
               LoopSteps(NodePhase, Nil, inner, res + Inorder(t.left), vis + InorderIds(t.left)));
    } else {
      assert res + Inorder(t.left) == res && vis + InorderIds(t.left) == vis;
      assert IterLeft(t, inner, res, vis) == [Snap(inner, t, res, vis, Visit)];
    }
  }

  lemma Regroup3<T>(a: seq<T>, b: seq<T>, c: seq<T>, d: seq<T>)
    ensures a + (b + (c + d)) == a + (b + c) + d
  {
  }

  /** The right-phase round at `t` and the walk of `t`'s right subtree end in the node
      phase with the stack `t` was popped from. */
  lemma {:induction false} LoopCoversRight(t: NodeRef, stack: seq<NodeRef>, res: seq<int>, vis: seq<nat>)
    ensures LoopSteps(RightPhase, t, stack, res, vis)
      == IterRight(t, stack, res, vis)
         + LoopSteps(NodePhase, Nil, stack, res + Inorder(t.right), vis + InorderIds(t.right))
    decreases t, 0
  {
    LoopRightRound(t, stack, res, vis);
    if t.right.Node? {
      var move := [Snap(stack, t.right, res, vis, MoveRight)];
      LoopCoversSubtree(t.right, stack, res, vis);
      assert IterRight(t, stack, res, vis) == move + IterSteps(t.right, stack, res, vis);
      TreeNode.AppendAssoc(move, IterSteps(t.right, stack, res, vis),
                           LoopSteps(NodePhase, Nil, stack, res + Inorder(t.right), vis + InorderIds(t.right)));
    } else {
      assert res + Inorder(t.right) == res && vis + InorderIds(t.right) == vis;
      assert IterRight(t, stack, res, vis) == [Snap(stack, t, res, vis, MoveRight)];
    }
  }

  lemma LoopCoversTree(root: NodeRef)
    ensures LoopSteps(LeftPhase, root, [], [], [])
      == IterSteps(root, [], [], []) + [FinalStep(Inorder(root), InorderIds(root))]
  {
    LoopCoversSubtree(root, [], [], []);
    assert [] + Inorder(root) == Inorder(root) && [] + InorderIds(root) == InorderIds(root);
    assert LoopSteps(NodePhase, Nil, [], Inorder(root), InorderIds(root)) == [FinalStep(Inorder(root), InorderIds(root))];
  }

  // ---------------------------------------------------------------------------
  // The older tracer
  // ---------------------------------------------------------------------------

  /** A record of the older tracer: the node reached (`Nil` for a missing child) and
      the result at that moment. */
  datatype LegacyStep = LegacyStep(node: Tree, result: seq<int>)

  /** The older tracer's records for `t`, entered with result `res`: on reaching a node,
      after adding its value, and after finishing its subtree; one record per missing
      child. */
  ghost function LegacySteps(t: Tree, res: seq<int>): (steps: seq<LegacyStep>)
    ensures |steps| == 4 * Size(t) + 1
  {
    match t
    case Nil => [LegacyStep(Nil, res)]
    case Node(_, v, l, r) =>
      var res' := res + Inorder(l) + [v];
      [LegacyStep(t, res)] + LegacySteps(l, res) + [LegacyStep(t, res')]
        + LegacySteps(r, res') + [LegacyStep(t, res' + Inorder(r))]
  }
}
