/** Properties of the recursive tracer's records: the trace shape, the stack being the
    path from the root at every push, and the push and pop orders. */
module RecursiveTraceFacts {
  import opened TreeNode
  import opened TraversalSteps
  import opened TraceProperties

  // ---------------------------------------------------------------------------
  // Chaining
  // ---------------------------------------------------------------------------

  lemma {:induction false} RecStepsChained(t: NodeRef, stack: seq<NodeRef>, res: seq<int>, vis: seq<nat>)
    ensures var steps := RecSteps(t, stack, res, vis);
      && Chained(steps)
      && steps[0] == Snap(stack + [t], t, res, vis, Push)
      && steps[|steps| - 1] == Snap(stack, t, res + Inorder(t), vis + InorderIds(t), Pop)
    decreases t, 1
  {
    var inner := stack + [t];
    var res', vis' := res + Inorder(t.left) + [t.val], vis + InorderIds(t.left) + [t.id];
    var push := [Snap(inner, t, res, vis, Push)];
    var left := RecLeft(t, inner, res, vis);
    var visit := [Snap(inner, t, res', vis', Visit)];
    var right := RecRight(t, inner, res', vis');
    var pop := [Snap(stack, t, res' + Inorder(t.right), vis' + InorderIds(t.right), Pop)];
    RecLeftChained(t, inner, res, vis);
    RecRightChained(t, inner, res', vis');
    StackIdsPush(stack, t);
    ChainedAppend(push, left);
    ChainedAppend(push + left, visit);
    ChainedAppend(push + left + visit, right);
    ChainedAppend(push + left + visit + right, pop);
    InorderSplit(t, res, vis);
  }

  lemma {:induction false} RecLeftChained(t: NodeRef, inner: seq<NodeRef>, res: seq<int>, vis: seq<nat>)
    ensures var steps := RecLeft(t, inner, res, vis);
      && Chained(steps)
      && steps[0].action == Visit && steps[0].stack == StackIds(inner)
      && steps[0].result == res && steps[0].visitedIds == vis
      && steps[|steps| - 1].stack == StackIds(inner)
      && steps[|steps| - 1].result == res + Inorder(t.left)
      && steps[|steps| - 1].visitedIds == vis + InorderIds(t.left)
    decreases t, 0
  {
    if t.left.Node? {
      RecStepsChained(t.left, inner, res, vis);
      StackIdsPush(inner, t.left);
      ChainedAppend([Snap(inner, t.left, res, vis, Visit)], RecSteps(t.left, inner, res, vis));
    } else {
      assert res + Inorder(t.left) == res && vis + InorderIds(t.left) == vis;
    }
  }

  lemma {:induction false} RecRightChained(t: NodeRef, inner: seq<NodeRef>, res: seq<int>, vis: seq<nat>)
    ensures var steps := RecRight(t, inner, res, vis);
      && Chained(steps)
      && steps[0].action in {Visit, MoveRight} && steps[0].stack == StackIds(inner)
      && steps[0].result == res && steps[0].visitedIds == vis
      && steps[|steps| - 1].stack == StackIds(inner)
      && steps[|steps| - 1].result == res + Inorder(t.right)
      && steps[|steps| - 1].visitedIds == vis + InorderIds(t.right)
    decreases t, 0
  {
    if t.right.Node? {
      RecStepsChained(t.right, inner, res, vis);
      StackIdsPush(inner, t.right);
      ChainedAppend([Snap(inner, t.right, res, vis, MoveRight)], RecSteps(t.right, inner, res, vis));
    } else {
      assert res + Inorder(t.right) == res && vis + InorderIds(t.right) == vis;
    }
  }

  // ---------------------------------------------------------------------------
  // Only nodes of the tree are shown
  // ---------------------------------------------------------------------------

  lemma {:induction false} RecStepsIn(t: NodeRef, stack: seq<NodeRef>, res: seq<int>, vis: seq<nat>, labels: set<(nat, int)>)
    requires IdValuePairs(t) <= labels && StackIn(stack, labels) && PairsIn(vis, res, labels)
    ensures AllIn(RecSteps(t, stack, res, vis), labels)
    decreases t, 1
  {
    var inner := stack + [t];
    var res', vis' := res + Inorder(t.left) + [t.val], vis + InorderIds(t.left) + [t.id];
    var res'', vis'' := res' + Inorder(t.right), vis' + InorderIds(t.right);
    assert StackIn(inner, labels);
    PairsGrow(vis, res, t, labels);
    InorderSplit(t, res, vis);
    SnapIn(inner, t, res, vis, Push, labels);
    SnapIn(inner, t, res', vis', Visit, labels);
    SnapIn(stack, t, res'', vis'', Pop, labels);
    var push := [Snap(inner, t, res, vis, Push)];
    var left := RecLeft(t, inner, res, vis);
    var visit := [Snap(inner, t, res', vis', Visit)];
    var right := RecRight(t, inner, res', vis');
    var pop := [Snap(stack, t, res'', vis'', Pop)];
    RecLeftIn(t, inner, res, vis, labels);
    RecRightIn(t, inner, res', vis', labels);
    AllInAppend(push, left, labels);
    AllInAppend(push + left, visit, labels);
    AllInAppend(push + left + visit, right, labels);
    AllInAppend(push + left + visit + right, pop, labels);
  }

  lemma {:induction false} RecLeftIn(t: NodeRef, inner: seq<NodeRef>, res: seq<int>, vis: seq<nat>, labels: set<(nat, int)>)
    requires IdValuePairs(t) <= labels && StackIn(inner, labels) && PairsIn(vis, res, labels)
    ensures AllIn(RecLeft(t, inner, res, vis), labels)
    decreases t, 0
  {
    if t.left.Node? {
      SnapIn(inner, t.left, res, vis, Visit, labels);
      RecStepsIn(t.left, inner, res, vis, labels);
      AllInAppend([Snap(inner, t.left, res, vis, Visit)], RecSteps(t.left, inner, res, vis), labels);
    } else {
      SnapIn(inner, t, res, vis, Visit, labels);
    }
  }

  lemma {:induction false} RecRightIn(t: NodeRef, inner: seq<NodeRef>, res: seq<int>, vis: seq<nat>, labels: set<(nat, int)>)
    requires IdValuePairs(t) <= labels && StackIn(inner, labels) && PairsIn(vis, res, labels)
    ensures AllIn(RecRight(t, inner, res, vis), labels)
    decreases t, 0
  {
    if t.right.Node? {
      SnapIn(inner, t.right, res, vis, MoveRight, labels);
      RecStepsIn(t.right, inner, res, vis, labels);
      AllInAppend([Snap(inner, t.right, res, vis, MoveRight)], RecSteps(t.right, inner, res, vis), labels);
    } else {
      SnapIn(inner, t, res, vis, Visit, labels);
    }
  }

  /** The records of the recursive tracer open empty, close with the inorder values,
      follow one another, and show only nodes of the tree. */
  lemma RecursiveTraceShape(root: Tree)
    ensures WellTraced(RecursiveTrace(root), root)
  {
    if root.Node? {
      RecStepsChained(root, [], [], []);
      RecStepsIn(root, [], [], [], IdValuePairs(root));
      SubtreeOf(root, root);
      assert [] + [root] == [root];
      assert [] + Inorder(root) == Inorder(root) && [] + InorderIds(root) == InorderIds(root);
      TraceAroundBody(root, RecSteps(root, [], [], []));
    }
  }

  // ---------------------------------------------------------------------------
  // The stack is the path from the root
  // ---------------------------------------------------------------------------

  /** `ids` are the identities along a downward path that starts at the root of `t`. */
  ghost predicate DownPath(t: Tree, ids: seq<nat>)
    decreases |ids|
  {
    && t.Node? && |ids| > 0 && ids[0] == t.id
    && (|ids| == 1 || DownPath(t.left, ids[1..]) || DownPath(t.right, ids[1..]))
  }

  /** A push record whose stack is `prefix` followed by a downward path from the root of
      `t` to the node pushed. */
  ghost predicate PushPath(s: Step, prefix: seq<nat>, t: Tree)
  {
    && |s.stack| > |prefix| && s.stack[..|prefix|] == prefix
    && DownPath(t, s.stack[|prefix|..])
    && s.currentId == Some(s.stack[|s.stack| - 1])
  }

  lemma PushPathUp(s: Step, stack: seq<NodeRef>, t: NodeRef, c: Tree)
    requires c == t.left || c == t.right
    requires PushPath(s, StackIds(stack + [t]), c)
    ensures PushPath(s, StackIds(stack), t)
  {
    var p, q := StackIds(stack), StackIds(stack + [t]);
    StackIdsPush(stack, t);
    assert s.stack[..|p|] == q[..|p|] == p;
    assert s.stack[|p|..][1..] == s.stack[|q|..];
  }

  lemma {:induction false} RecStepsPushPaths(t: NodeRef, stack: seq<NodeRef>, res: seq<int>, vis: seq<nat>)
    ensures forall s :: s in RecSteps(t, stack, res, vis) && s.action == Push ==> PushPath(s, StackIds(stack), t)
    decreases t
  {
    var inner := stack + [t];
    var res', vis' := res + Inorder(t.left) + [t.val], vis + InorderIds(t.left) + [t.id];
    var own := Snap(inner, t, res, vis, Push);
    var visit := Snap(inner, t, res', vis', Visit);
    var pop := Snap(stack, t, res' + Inorder(t.right), vis' + InorderIds(t.right), Pop);
    var left, right := RecLeft(t, inner, res, vis), RecRight(t, inner, res', vis');
    assert RecSteps(t, stack, res, vis) == [own] + left + [visit] + right + [pop];
    OwnPushPath(stack, t, res, vis);
    LeftPushPaths(t, stack, res, vis);
    RightPushPaths(t, stack, res', vis');
  }

  lemma OwnPushPath(stack: seq<NodeRef>, t: NodeRef, res: seq<int>, vis: seq<nat>)
    ensures PushPath(Snap(stack + [t], t, res, vis, Push), StackIds(stack), t)
  {
    StackIdsPush(stack, t);
    var own := Snap(stack + [t], t, res, vis, Push);
    assert own.stack[|stack|..] == [t.id];
  }

  lemma {:induction false} LeftPushPaths(t: NodeRef, stack: seq<NodeRef>, res: seq<int>, vis: seq<nat>)
    ensures forall s :: s in RecLeft(t, stack + [t], res, vis) && s.action == Push ==> PushPath(s, StackIds(stack), t)
    decreases t, 0
  {
    var inner := stack + [t];
    if t.left.Node? {
      RecStepsPushPaths(t.left, inner, res, vis);
      forall s | s in RecLeft(t, inner, res, vis) && s.action == Push
        ensures PushPath(s, StackIds(stack), t)
      {
        assert s in RecSteps(t.left, inner, res, vis);
        PushPathUp(s, stack, t, t.left);
      }
    }
  }

  lemma {:induction false} RightPushPaths(t: NodeRef, stack: seq<NodeRef>, res: seq<int>, vis: seq<nat>)
    ensures forall s :: s in RecRight(t, stack + [t], res, vis) && s.action == Push ==> PushPath(s, StackIds(stack), t)
    decreases t, 0
  {
    var inner := stack + [t];
    if t.right.Node? {
      RecStepsPushPaths(t.right, inner, res, vis);
      forall s | s in RecRight(t, inner, res, vis) && s.action == Push
        ensures PushPath(s, StackIds(stack), t)
      {
        assert s in RecSteps(t.right, inner, res, vis);
        PushPathUp(s, stack, t, t.right);
      }
    }
  }

  /** Whenever the recursive tracer pushes a node, its stack holds exactly the path from
      the root down to that node. */
  lemma RecursivePushPaths(root: Tree)
    ensures forall s :: s in RecursiveTrace(root) && s.action == Push ==>
      DownPath(root, s.stack) && s.currentId == Some(s.stack[|s.stack| - 1])
  {
    if root.Node? {
      RecStepsPushPaths(root, [], [], []);
      forall s | s in RecursiveTrace(root) && s.action == Push
        ensures DownPath(root, s.stack) && s.currentId == Some(s.stack[|s.stack| - 1])
      {
        assert s in RecSteps(root, [], [], []);
        assert s.stack[0..] == s.stack;
      }
    }
  }

  // ---------------------------------------------------------------------------
  // Push and pop orders
  // ---------------------------------------------------------------------------

  /** A node's own records: pushed first, ahead of its left part. */
  lemma RecShapePushes(push: Step, left: seq<Step>, visit: Step, right: seq<Step>, pop: Step, id: nat)
    requires push.action == Push && push.currentId == Some(id)
    requires visit.action == Visit && pop.action == Pop
    ensures ActionIds([push] + left + [visit] + right + [pop], Push)
      == [id] + ActionIds(left, Push) + ActionIds(right, Push)
  {
    ActionIdsOne(push, Push);
    ActionIdsOne(visit, Push);
    ActionIdsOne(pop, Push);
    ActionIdsAppend([push], left, Push);
    ActionIdsAppend([push] + left, [visit], Push);
    ActionIdsAppend([push] + left + [visit], right, Push);
    ActionIdsAppend([push] + left + [visit] + right, [pop], Push);
    assert [id] + ActionIds(left, Push) + [] == [id] + ActionIds(left, Push);
  }

  /** A node's own records: popped last, after its right part. */
  lemma RecShapePops(push: Step, left: seq<Step>, visit: Step, right: seq<Step>, pop: Step, id: nat)
    requires push.action == Push && visit.action == Visit && pop.action == Pop && pop.currentId == Some(id)
    ensures ActionIds([push] + left + [visit] + right + [pop], Pop)
      == ActionIds(left, Pop) + ActionIds(right, Pop) + [id]
  {
    ActionIdsOne(push, Pop);
    ActionIdsOne(visit, Pop);
    ActionIdsOne(pop, Pop);
    ActionIdsAppend([push], left, Pop);
    ActionIdsAppend([push] + left, [visit], Pop);
    ActionIdsAppend([push] + left + [visit], right, Pop);
    ActionIdsAppend([push] + left + [visit] + right, [pop], Pop);
    assert [] + ActionIds(left, Pop) + [] == ActionIds(left, Pop);
  }

  lemma {:induction false} RecStepsOrders(t: NodeRef, stack: seq<NodeRef>, res: seq<int>, vis: seq<nat>)
    ensures ActionIds(RecSteps(t, stack, res, vis), Push) == PreorderIds(t)
    ensures ActionIds(RecSteps(t, stack, res, vis), Pop) == PostorderIds(t)
    decreases t, 1
  {
    var inner := stack + [t];
    var res', vis' := res + Inorder(t.left) + [t.val], vis + InorderIds(t.left) + [t.id];
    var push := Snap(inner, t, res, vis, Push);
    var visit := Snap(inner, t, res', vis', Visit);
    var pop := Snap(stack, t, res' + Inorder(t.right), vis' + InorderIds(t.right), Pop);
    var left, right := RecLeft(t, inner, res, vis), RecRight(t, inner, res', vis');
    assert RecSteps(t, stack, res, vis) == [push] + left + [visit] + right + [pop];
    RecLeftOrders(t, inner, res, vis);
    RecRightOrders(t, inner, res', vis');
    RecShapePushes(push, left, visit, right, pop, t.id);
    RecShapePops(push, left, visit, right, pop, t.id);
  }

  lemma {:induction false} RecLeftOrders(t: NodeRef, inner: seq<NodeRef>, res: seq<int>, vis: seq<nat>)
    ensures ActionIds(RecLeft(t, inner, res, vis), Push) == PreorderIds(t.left)
    ensures ActionIds(RecLeft(t, inner, res, vis), Pop) == PostorderIds(t.left)
    decreases t, 0
  {
    if t.left.Node? {
      var visit := Snap(inner, t.left, res, vis, Visit);
      RecStepsOrders(t.left, inner, res, vis);
      ActionIdsOne(visit, Push);
      ActionIdsOne(visit, Pop);
      ActionIdsAppend([visit], RecSteps(t.left, inner, res, vis), Push);
      ActionIdsAppend([visit], RecSteps(t.left, inner, res, vis), Pop);
    } else {
      ActionIdsOne(Snap(inner, t, res, vis, Visit), Push);
      ActionIdsOne(Snap(inner, t, res, vis, Visit), Pop);
    }
  }

  lemma {:induction false} RecRightOrders(t: NodeRef, inner: seq<NodeRef>, res: seq<int>, vis: seq<nat>)
    ensures ActionIds(RecRight(t, inner, res, vis), Push) == PreorderIds(t.right)
    ensures ActionIds(RecRight(t, inner, res, vis), Pop) == PostorderIds(t.right)
    decreases t, 0
  {
    if t.right.Node? {
      var move := Snap(inner, t.right, res, vis, MoveRight);
      RecStepsOrders(t.right, inner, res, vis);
      ActionIdsOne(move, Push);
      ActionIdsOne(move, Pop);
      ActionIdsAppend([move], RecSteps(t.right, inner, res, vis), Push);
      ActionIdsAppend([move], RecSteps(t.right, inner, res, vis), Pop);
    } else {
      ActionIdsOne(Snap(inner, t, res, vis, Visit), Push);
      ActionIdsOne(Snap(inner, t, res, vis, Visit), Pop);
    }
  }

  /** The recursive tracer pushes the nodes in preorder and pops them in postorder. */
  lemma RecursivePushPopOrders(root: Tree)
    ensures ActionIds(RecursiveTrace(root), Push) == PreorderIds(root)
    ensures ActionIds(RecursiveTrace(root), Pop) == PostorderIds(root)
  {
    if root.Node? {
      var open := [InitialStep(), Snap([], root, [], [], Visit)];
      var body := RecSteps(root, [], [], []);
      var close := [FinalStep(Inorder(root), InorderIds(root))];
      RecStepsOrders(root, [], [], []);
      ActionIdsBetweenVisits(open, body, close, Push);
      ActionIdsBetweenVisits(open, body, close, Pop);
    } else {
      OnlyVisits(RecursiveTrace(root), Push);
      OnlyVisits(RecursiveTrace(root), Pop);
    }
  }

}
