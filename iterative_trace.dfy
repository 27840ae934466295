/** Properties of the iterative tracer's records: the trace shape and the push and pop
    orders. */
module IterativeTraceFacts {
  import opened TreeNode
  import opened TraversalSteps
  import opened TraceProperties

  // ---------------------------------------------------------------------------
  // Chaining
  // ---------------------------------------------------------------------------

  lemma {:induction false} IterStepsChained(t: NodeRef, stack: seq<NodeRef>, res: seq<int>, vis: seq<nat>)
    ensures var steps := IterSteps(t, stack, res, vis);
      && Chained(steps)
      && steps[0] == Snap(stack + [t], t, res, vis, Push)
      && steps[|steps| - 1].stack == StackIds(stack)
      && steps[|steps| - 1].result == res + Inorder(t)
      && steps[|steps| - 1].visitedIds == vis + InorderIds(t)
    decreases t, 1
  {
    var inner := stack + [t];
    var res', vis' := res + Inorder(t.left), vis + InorderIds(t.left);
    var push := [Snap(inner, t, res, vis, Push)];
    var left := IterLeft(t, inner, res, vis);
    var popVisit := [Snap(stack, t, res', vis', Pop), Snap(stack, t, res' + [t.val], vis' + [t.id], Visit)];
    var right := IterRight(t, stack, res' + [t.val], vis' + [t.id]);
    assert IterSteps(t, stack, res, vis) == push + left + popVisit + right;
    IterLeftChained(t, inner, res, vis);
    IterRightChained(t, stack, res' + [t.val], vis' + [t.id]);
    StackIdsPush(stack, t);
    ChainedOfTwo(popVisit[0], popVisit[1]);
    ChainedAppend(push, left);
    ChainedAppend(push + left, popVisit);
    ChainedAppend(push + left + popVisit, right);
    InorderSplit(t, res, vis);
  }

  lemma {:induction false} IterLeftChained(t: NodeRef, inner: seq<NodeRef>, res: seq<int>, vis: seq<nat>)
    ensures var steps := IterLeft(t, inner, res, vis);
      && Chained(steps)
      && steps[0].action == Visit && steps[0].stack == StackIds(inner)
      && steps[0].result == res && steps[0].visitedIds == vis
      && steps[|steps| - 1].stack == StackIds(inner)
      && steps[|steps| - 1].result == res + Inorder(t.left)
      && steps[|steps| - 1].visitedIds == vis + InorderIds(t.left)
    decreases t, 0
  {
    if t.left.Node? {
      IterStepsChained(t.left, inner, res, vis);
      StackIdsPush(inner, t.left);
      ChainedAppend([Snap(inner, t.left, res, vis, Visit)], IterSteps(t.left, inner, res, vis));
    } else {
      assert res + Inorder(t.left) == res && vis + InorderIds(t.left) == vis;
    }
  }

  lemma {:induction false} IterRightChained(t: NodeRef, stack: seq<NodeRef>, res: seq<int>, vis: seq<nat>)
    ensures var steps := IterRight(t, stack, res, vis);
      && Chained(steps)
      && steps[0].action == MoveRight && steps[0].stack == StackIds(stack)
      && steps[0].result == res && steps[0].visitedIds == vis
      && steps[|steps| - 1].stack == StackIds(stack)
      && steps[|steps| - 1].result == res + Inorder(t.right)
      && steps[|steps| - 1].visitedIds == vis + InorderIds(t.right)
    decreases t, 0
  {
    if t.right.Node? {
      IterStepsChained(t.right, stack, res, vis);
      StackIdsPush(stack, t.right);
      ChainedAppend([Snap(stack, t.right, res, vis, MoveRight)], IterSteps(t.right, stack, res, vis));
    } else {
      assert res + Inorder(t.right) == res && vis + InorderIds(t.right) == vis;
    }
  }

  // ---------------------------------------------------------------------------
  // Only nodes of the tree are shown
  // ---------------------------------------------------------------------------

  lemma {:induction false} IterStepsIn(t: NodeRef, stack: seq<NodeRef>, res: seq<int>, vis: seq<nat>, labels: set<(nat, int)>)
    requires IdValuePairs(t) <= labels && StackIn(stack, labels) && PairsIn(vis, res, labels)
    ensures AllIn(IterSteps(t, stack, res, vis), labels)
    decreases t, 1
  {
    var inner := stack + [t];
    var res', vis' := res + Inorder(t.left), vis + InorderIds(t.left);
    assert StackIn(inner, labels);
    PairsGrow(vis, res, t, labels);
    SnapIn(inner, t, res, vis, Push, labels);
    SnapIn(stack, t, res', vis', Pop, labels);
    SnapIn(stack, t, res' + [t.val], vis' + [t.id], Visit, labels);
    var push := [Snap(inner, t, res, vis, Push)];
    var left := IterLeft(t, inner, res, vis);
    var popVisit := [Snap(stack, t, res', vis', Pop), Snap(stack, t, res' + [t.val], vis' + [t.id], Visit)];
    var right := IterRight(t, stack, res' + [t.val], vis' + [t.id]);
    IterLeftIn(t, inner, res, vis, labels);
    IterRightIn(t, stack, res' + [t.val], vis' + [t.id], labels);
    AllInAppend(push, left, labels);
    AllInAppend(push + left, popVisit, labels);
    AllInAppend(push + left + popVisit, right, labels);
  }

  lemma {:induction false} IterLeftIn(t: NodeRef, inner: seq<NodeRef>, res: seq<int>, vis: seq<nat>, labels: set<(nat, int)>)
    requires IdValuePairs(t) <= labels && StackIn(inner, labels) && PairsIn(vis, res, labels)
    ensures AllIn(IterLeft(t, inner, res, vis), labels)
    decreases t, 0
  {
    if t.left.Node? {
      SnapIn(inner, t.left, res, vis, Visit, labels);
      IterStepsIn(t.left, inner, res, vis, labels);
      AllInAppend([Snap(inner, t.left, res, vis, Visit)], IterSteps(t.left, inner, res, vis), labels);
    } else {
      SnapIn(inner, t, res, vis, Visit, labels);
    }
  }

  lemma {:induction false} IterRightIn(t: NodeRef, stack: seq<NodeRef>, res: seq<int>, vis: seq<nat>, labels: set<(nat, int)>)
    requires IdValuePairs(t) <= labels && StackIn(stack, labels) && PairsIn(vis, res, labels)
    ensures AllIn(IterRight(t, stack, res, vis), labels)
    decreases t, 0
  {
    if t.right.Node? {
      SnapIn(stack, t.right, res, vis, MoveRight, labels);
      IterStepsIn(t.right, stack, res, vis, labels);
      AllInAppend([Snap(stack, t.right, res, vis, MoveRight)], IterSteps(t.right, stack, res, vis), labels);
    } else {
      SnapIn(stack, t, res, vis, MoveRight, labels);
    }
  }

  /** The records of the iterative tracer open empty, close with the inorder values,
      follow one another, and show only nodes of the tree. */
  lemma IterativeTraceShape(root: Tree)
    ensures WellTraced(IterativeTrace(root), root)
  {
    if root.Node? {
      IterStepsChained(root, [], [], []);
      IterStepsIn(root, [], [], [], IdValuePairs(root));
      SubtreeOf(root, root);
      assert [] + [root] == [root];
      assert [] + Inorder(root) == Inorder(root) && [] + InorderIds(root) == InorderIds(root);
      TraceAroundBody(root, IterSteps(root, [], [], []));
    }
  }

  // ---------------------------------------------------------------------------
  // Push and pop orders
  // ---------------------------------------------------------------------------

  /** A node's own records: pushed first, ahead of its left part. */
  lemma IterShapePushes(push: Step, left: seq<Step>, pop: Step, visit: Step, right: seq<Step>, id: nat)
    requires push.action == Push && push.currentId == Some(id)
    requires pop.action == Pop && visit.action == Visit
    ensures ActionIds([push] + left + [pop, visit] + right, Push)
      == [id] + ActionIds(left, Push) + ActionIds(right, Push)
  {
    ActionIdsOne(push, Push);
    ActionIdsPair(pop, visit, Push);
    ActionIdsAppend([push], left, Push);
    ActionIdsAppend([push] + left, [pop, visit], Push);
    ActionIdsAppend([push] + left + [pop, visit], right, Push);
    assert [id] + ActionIds(left, Push) + [] == [id] + ActionIds(left, Push);
  }

  /** A node's own records: popped between its left and right parts. */
  lemma IterShapePops(push: Step, left: seq<Step>, pop: Step, visit: Step, right: seq<Step>, id: nat)
    requires push.action == Push && pop.action == Pop && pop.currentId == Some(id) && visit.action == Visit
    ensures ActionIds([push] + left + [pop, visit] + right, Pop)
      == ActionIds(left, Pop) + [id] + ActionIds(right, Pop)
  {
    ActionIdsOne(push, Pop);
    ActionIdsPair(pop, visit, Pop);
    ActionIdsAppend([push], left, Pop);
    ActionIdsAppend([push] + left, [pop, visit], Pop);
    ActionIdsAppend([push] + left + [pop, visit], right, Pop);
    assert [] + ActionIds(left, Pop) == ActionIds(left, Pop);
  }

  lemma ActionIdsPair(s1: Step, s2: Step, a: Action)
    requires s2.action == Visit && a != Visit
    ensures ActionIds([s1, s2], a) == if s1.action == a && s1.currentId.Some? then [s1.currentId.value] else []
  {
    assert [s1, s2][1..] == [s2];
    ActionIdsOne(s2, a);
    assert ActionIds([s1, s2], a)
      == (if s1.action == a && s1.currentId.Some? then [s1.currentId.value] else []) + ActionIds([s2], a);
  }

  lemma {:induction false} IterStepsOrders(t: NodeRef, stack: seq<NodeRef>, res: seq<int>, vis: seq<nat>)
    ensures ActionIds(IterSteps(t, stack, res, vis), Push) == PreorderIds(t)
    ensures ActionIds(IterSteps(t, stack, res, vis), Pop) == InorderIds(t)
    decreases t, 1
  {
    var inner := stack + [t];
    var res', vis' := res + Inorder(t.left), vis + InorderIds(t.left);
    var push := Snap(inner, t, res, vis, Push);
    var pop := Snap(stack, t, res', vis', Pop);
    var visit := Snap(stack, t, res' + [t.val], vis' + [t.id], Visit);
    var left := IterLeft(t, inner, res, vis);
    var right := IterRight(t, stack, res' + [t.val], vis' + [t.id]);
    assert IterSteps(t, stack, res, vis) == [push] + left + [pop, visit] + right;
    IterLeftOrders(t, inner, res, vis);
    IterRightOrders(t, stack, res' + [t.val], vis' + [t.id]);
    IterShapePushes(push, left, pop, visit, right, t.id);
    IterShapePops(push, left, pop, visit, right, t.id);
  }

  lemma {:induction false} IterLeftOrders(t: NodeRef, inner: seq<NodeRef>, res: seq<int>, vis: seq<nat>)
    ensures ActionIds(IterLeft(t, inner, res, vis), Push) == PreorderIds(t.left)
    ensures ActionIds(IterLeft(t, inner, res, vis), Pop) == InorderIds(t.left)
    decreases t, 0
  {
    if t.left.Node? {
      var visit := Snap(inner, t.left, res, vis, Visit);
      IterStepsOrders(t.left, inner, res, vis);
      ActionIdsOne(visit, Push);
      ActionIdsOne(visit, Pop);
      ActionIdsAppend([visit], IterSteps(t.left, inner, res, vis), Push);
      ActionIdsAppend([visit], IterSteps(t.left, inner, res, vis), Pop);
    } else {
      ActionIdsOne(Snap(inner, t, res, vis, Visit), Push);
      ActionIdsOne(Snap(inner, t, res, vis, Visit), Pop);
    }
  }

  lemma {:induction false} IterRightOrders(t: NodeRef, stack: seq<NodeRef>, res: seq<int>, vis: seq<nat>)
    ensures ActionIds(IterRight(t, stack, res, vis), Push) == PreorderIds(t.right)
    ensures ActionIds(IterRight(t, stack, res, vis), Pop) == InorderIds(t.right)
    decreases t, 0
  {
    if t.right.Node? {
      var move := Snap(stack, t.right, res, vis, MoveRight);
      IterStepsOrders(t.right, stack, res, vis);
      ActionIdsOne(move, Push);
      ActionIdsOne(move, Pop);
      ActionIdsAppend([move], IterSteps(t.right, stack, res, vis), Push);
      ActionIdsAppend([move], IterSteps(t.right, stack, res, vis), Pop);
    } else {
      ActionIdsOne(Snap(stack, t, res, vis, MoveRight), Push);
      ActionIdsOne(Snap(stack, t, res, vis, MoveRight), Pop);
    }
  }

  /** The iterative tracer pushes the nodes in preorder and pops them in inorder. */
  lemma IterativePushPopOrders(root: Tree)
    ensures ActionIds(IterativeTrace(root), Push) == PreorderIds(root)
    ensures ActionIds(IterativeTrace(root), Pop) == InorderIds(root)
  {
    if root.Node? {
      var open := [InitialStep(), Snap([], root, [], [], Visit)];
      var body := IterSteps(root, [], [], []);
      var close := [FinalStep(Inorder(root), InorderIds(root))];
      IterStepsOrders(root, [], [], []);
      ActionIdsBetweenVisits(open, body, close, Push);
      ActionIdsBetweenVisits(open, body, close, Pop);
    } else {
      OnlyVisits(IterativeTrace(root), Push);
      OnlyVisits(IterativeTrace(root), Pop);
    }
  }

}
