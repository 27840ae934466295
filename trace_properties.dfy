/** What the tracers' record sequences promise: they open empty and close with the
    answer, each record follows from the one before by at most one stack operation and
    at most one visit, every identity and value shown belongs to one node of the tree,
    and nodes are pushed and popped in fixed orders. */
module TraceProperties {
  import opened TreeNode
  import opened TraversalSteps

  // ---------------------------------------------------------------------------
  // Consecutive records
  // ---------------------------------------------------------------------------

  /** Record `b` may follow record `a`: the result is unchanged, or `b` is a visit that
      appends the current node's value to the result and its identity to the visited
      list; a push adds the current node on top of the stack, a pop removes the current
      node from the top, and every other step leaves the stack alone. */
  predicate Follows(a: Step, b: Step)
  {
    && (|| (b.result == a.result && b.visitedIds == a.visitedIds)
        || (&& b.action == Visit && b.currentId.Some? && b.currentVal.Some?
            && b.result == a.result + [b.currentVal.value]
            && b.visitedIds == a.visitedIds + [b.currentId.value]))
    && match b.action
       case Push => b.currentId.Some? && b.stack == a.stack + [b.currentId.value]
       case Pop => b.currentId.Some? && a.stack == b.stack + [b.currentId.value]
       case _ => b.stack == a.stack
  }

  /** Every record follows the one before it. */
  predicate Chained(steps: seq<Step>)
    decreases |steps|
  {
    |steps| < 2 || (Follows(steps[0], steps[1]) && Chained(steps[1..]))
  }

  lemma {:induction false} ChainedAt(steps: seq<Step>, k: nat)
    requires Chained(steps) && 0 < k < |steps|
    ensures Follows(steps[k - 1], steps[k])
    decreases k
  {
    if k > 1 {
      ChainedAt(steps[1..], k - 1);
    }
  }

  lemma {:induction false} ChainedAppend(a: seq<Step>, b: seq<Step>)
    requires Chained(a) && Chained(b) && |a| > 0 && |b| > 0
    requires Follows(a[|a| - 1], b[0])
    ensures Chained(a + b)
    decreases |a|
  {
    if |a| == 1 {
      assert (a + b)[0] == a[0] && (a + b)[1..] == b;
    } else {
      assert (a + b)[0] == a[0] && (a + b)[1] == a[1] && (a + b)[1..] == a[1..] + b;
      ChainedAppend(a[1..], b);
    }
  }

  /** Records meant to stand in a sequence one after another. */
  lemma ChainedOfTwo(x: Step, y: Step)
    requires Follows(x, y)
    ensures Chained([x, y])
  {
    assert [x, y][1..] == [y];
  }

  lemma StackIdsPush(stack: seq<NodeRef>, t: NodeRef)
    ensures StackIds(stack + [t]) == StackIds(stack) + [t.id]
  {
  }

  /** Along a chain the result only grows, by at most one value per record. */
  lemma {:induction false} ChainedGrowth(steps: seq<Step>, i: nat, j: nat)
    requires Chained(steps) && i <= j < |steps|
    ensures steps[i].result <= steps[j].result
    ensures steps[i].visitedIds <= steps[j].visitedIds
    ensures |steps[j].result| <= |steps[i].result| + (j - i)
    decreases j - i
  {
    if i < j {
      ChainedGrowth(steps, i, j - 1);
      ChainedAt(steps, j);
    }
  }

  // ---------------------------------------------------------------------------
  // Identities and values shown belong to nodes of the tree
  // ---------------------------------------------------------------------------

  /** Paired identities and values, each pair an (id, value) of a node in `labels`. */
  ghost predicate PairsIn(ids: seq<nat>, vals: seq<int>, labels: set<(nat, int)>)
  {
    |ids| == |vals| && forall k :: 0 <= k < |ids| ==> (ids[k], vals[k]) in labels
  }

  /** A record shows only nodes in `labels`: the stack's identities beside their values,
      the current identity beside the current value, the visited list beside the result. */
  ghost predicate StepIn(s: Step, labels: set<(nat, int)>)
  {
    && PairsIn(s.stack, s.stackVals, labels)
    && s.currentId.Some? == s.currentVal.Some?
    && (s.currentId.Some? ==> (s.currentId.value, s.currentVal.value) in labels)
    && PairsIn(s.visitedIds, s.result, labels)
  }

  ghost predicate AllIn(steps: seq<Step>, labels: set<(nat, int)>)
  {
    forall s :: s in steps ==> StepIn(s, labels)
  }

  lemma AllInAppend(a: seq<Step>, b: seq<Step>, labels: set<(nat, int)>)
    requires AllIn(a, labels) && AllIn(b, labels)
    ensures AllIn(a + b, labels)
  {
  }

  ghost predicate StackIn(stack: seq<NodeRef>, labels: set<(nat, int)>)
  {
    forall k :: 0 <= k < |stack| ==> (stack[k].id, stack[k].val) in labels
  }

  lemma PairsAppend(ids: seq<nat>, vals: seq<int>, ids': seq<nat>, vals': seq<int>, labels: set<(nat, int)>)
    requires PairsIn(ids, vals, labels) && PairsIn(ids', vals', labels)
    ensures PairsIn(ids + ids', vals + vals', labels)
  {
    var a, b := ids + ids', vals + vals';
    forall k | 0 <= k < |a|
      ensures (a[k], b[k]) in labels
    {
      if k >= |ids| {
        assert a[k] == ids'[k - |ids|] && b[k] == vals'[k - |ids|];
      }
    }
  }

  lemma {:induction false} InorderPairs(t: Tree)
    ensures PairsIn(InorderIds(t), Inorder(t), IdValuePairs(t))
  {
    match t
    case Nil =>
    case Node(i, v, l, r) =>
      InorderPairs(l);
      InorderPairs(r);
      PairsAppend(InorderIds(l), Inorder(l), [i], [v], IdValuePairs(t));
      PairsAppend(InorderIds(l) + [i], Inorder(l) + [v], InorderIds(r), Inorder(r), IdValuePairs(t));
  }

  /** Adding the values of a subtree, and its node, to the result keeps it inside `labels`. */
  lemma PairsGrow(vis: seq<nat>, res: seq<int>, t: NodeRef, labels: set<(nat, int)>)
    requires PairsIn(vis, res, labels) && IdValuePairs(t) <= labels
    ensures PairsIn(vis + InorderIds(t.left), res + Inorder(t.left), labels)
    ensures PairsIn(vis + InorderIds(t.left) + [t.id], res + Inorder(t.left) + [t.val], labels)
    ensures PairsIn(vis + InorderIds(t), res + Inorder(t), labels)
  {
    InorderPairs(t);
    InorderPairs(t.left);
    PairsAppend(vis, res, InorderIds(t.left), Inorder(t.left), labels);
    PairsAppend(vis + InorderIds(t.left), res + Inorder(t.left), [t.id], [t.val], labels);
    PairsAppend(vis, res, InorderIds(t), Inorder(t), labels);
  }

  lemma SnapIn(stack: seq<NodeRef>, cur: NodeRef, res: seq<int>, vis: seq<nat>, a: Action, labels: set<(nat, int)>)
    requires StackIn(stack, labels) && (cur.id, cur.val) in labels && PairsIn(vis, res, labels)
    ensures StepIn(Snap(stack, cur, res, vis, a), labels)
  {
  }

  // ---------------------------------------------------------------------------
  // Orders of pushes and pops
  // ---------------------------------------------------------------------------

  /** The identities of the current nodes of the records with action `a`, in order. */
  function ActionIds(steps: seq<Step>, a: Action): seq<nat>
  {
    if steps == [] then []
    else
      (if steps[0].action == a && steps[0].currentId.Some? then [steps[0].currentId.value] else [])
      + ActionIds(steps[1..], a)
  }

  lemma {:induction false} ActionIdsAppend(x: seq<Step>, y: seq<Step>, a: Action)
    ensures ActionIds(x + y, a) == ActionIds(x, a) + ActionIds(y, a)
    decreases |x|
  {
    if x == [] {
      assert x + y == y;
    } else {
      assert (x + y)[0] == x[0] && (x + y)[1..] == x[1..] + y;
      ActionIdsAppend(x[1..], y, a);
    }
  }

  lemma ActionIdsOne(s: Step, a: Action)
    ensures ActionIds([s], a) == if s.action == a && s.currentId.Some? then [s.currentId.value] else []
  {
    assert [s][1..] == [];
  }

  /** Records that are all visits contribute nothing to the pushes or pops. */
  lemma {:induction false} OnlyVisits(steps: seq<Step>, a: Action)
    requires a != Visit && forall k :: 0 <= k < |steps| ==> steps[k].action == Visit
    ensures ActionIds(steps, a) == []
    decreases |steps|
  {
    if steps != [] {
      OnlyVisits(steps[1..], a);
    }
  }

  /** Visit records around a body add nothing to its pushes or pops. */
  lemma ActionIdsBetweenVisits(open: seq<Step>, body: seq<Step>, close: seq<Step>, a: Action)
    requires a != Visit
    requires forall k :: 0 <= k < |open| ==> open[k].action == Visit
    requires forall k :: 0 <= k < |close| ==> close[k].action == Visit
    ensures ActionIds(open + body + close, a) == ActionIds(body, a)
  {
    OnlyVisits(open, a);
    OnlyVisits(close, a);
    ActionIdsAppend(open, body, a);
    ActionIdsAppend(open + body, close, a);
    assert [] + ActionIds(body, a) + [] == ActionIds(body, a);
  }

  /** No value occurs twice. */
  predicate NoDuplicates(s: seq<nat>)
  {
    forall i, j :: 0 <= i < j < |s| ==> s[i] != s[j]
  }

  lemma NoDuplicatesAppend(a: seq<nat>, b: seq<nat>)
    requires NoDuplicates(a) && NoDuplicates(b) && forall x :: x in a ==> x !in b
    ensures NoDuplicates(a + b)
  {
    var c := a + b;
    forall i, j | 0 <= i < j < |c|
      ensures c[i] != c[j]
    {
      if i < |a| && j >= |a| {
        assert c[i] in a && c[j] == b[j - |a|] && c[j] in b;
      } else if i >= |a| {
        assert c[i] == b[i - |a|] && c[j] == b[j - |a|];
      }
    }
  }

  /** Each order lists exactly the identities of the tree, and, when they are distinct,
      each of them once: a tracer whose pushes (pops) follow one of these orders pushes
      (pops) every node exactly once. */
  lemma {:induction false} OrdersListEachNodeOnce(t: Tree)
    ensures forall x :: x in PreorderIds(t) <==> x in Ids(t)
    ensures forall x :: x in InorderIds(t) <==> x in Ids(t)
    ensures forall x :: x in PostorderIds(t) <==> x in Ids(t)
    ensures DistinctIds(t) ==>
      NoDuplicates(PreorderIds(t)) && NoDuplicates(InorderIds(t)) && NoDuplicates(PostorderIds(t))
  {
    match t
    case Nil =>
    case Node(i, _, l, r) =>
      OrdersListEachNodeOnce(l);
      OrdersListEachNodeOnce(r);
      if DistinctIds(t) {
        NoDuplicatesAppend([i], PreorderIds(l));
        NoDuplicatesAppend([i] + PreorderIds(l), PreorderIds(r));
        NoDuplicatesAppend(InorderIds(l), [i]);
        NoDuplicatesAppend(InorderIds(l) + [i], InorderIds(r));
        NoDuplicatesAppend(PostorderIds(l), PostorderIds(r));
        NoDuplicatesAppend(PostorderIds(l) + PostorderIds(r), [i]);
      }
  }

  // ---------------------------------------------------------------------------
  // Whole traces
  // ---------------------------------------------------------------------------

  /** The shape every trace of `root` has: an empty opening record, a closing record
      with the inorder values and identities of `root`, a chain of records in between,
      and only nodes of `root` shown. */
  ghost predicate WellTraced(steps: seq<Step>, root: Tree)
  {
    && |steps| >= 2
    && steps[0] == InitialStep()
    && steps[|steps| - 1] == FinalStep(Inorder(root), InorderIds(root))
    && Chained(steps)
    && AllIn(steps, IdValuePairs(root))
  }

  /** A trace that opens empty, shows the root, runs `body` from a push of the root to an
      empty stack holding the inorder values, and closes with them, is well traced. */
  lemma TraceAroundBody(root: Tree, body: seq<Step>)
    requires root.Node? && |body| > 0 && Chained(body) && AllIn(body, IdValuePairs(root))
    requires body[0] == Snap([root], root, [], [], Push)
    requires body[|body| - 1].stack == [] && body[|body| - 1].result == Inorder(root)
    requires body[|body| - 1].visitedIds == InorderIds(root)
    ensures WellTraced([InitialStep(), Snap([], root, [], [], Visit)] + body
      + [FinalStep(Inorder(root), InorderIds(root))], root)
  {
    var open := [InitialStep(), Snap([], root, [], [], Visit)];
    var close := [FinalStep(Inorder(root), InorderIds(root))];
    StackIdsPush([], root);
    assert [] + [root] == [root];
    ChainedOfTwo(open[0], open[1]);
    ChainedAppend(open, body);
    ChainedAppend(open + body, close);
    SubtreeOf(root, root);
    InorderPairs(root);
    SnapIn([], root, [], [], Visit, IdValuePairs(root));
    AllInAppend(open, body, IdValuePairs(root));
    AllInAppend(open + body, close, IdValuePairs(root));
  }

  /** In a trace, every result so far is a prefix of the final answer, later results
      extend earlier ones, and each record adds at most one value. */
  lemma TraceResultsArePrefixes(steps: seq<Step>, root: Tree)
    requires WellTraced(steps, root)
    ensures forall i, j :: 0 <= i <= j < |steps| ==>
      steps[i].result <= steps[j].result && |steps[j].result| <= |steps[i].result| + (j - i)
    ensures forall i :: 0 <= i < |steps| ==>
      steps[i].result <= Inorder(root) && steps[i].visitedIds <= InorderIds(root)
  {
    forall i, j | 0 <= i <= j < |steps|
      ensures steps[i].result <= steps[j].result && |steps[j].result| <= |steps[i].result| + (j - i)
    {
      ChainedGrowth(steps, i, j);
    }
    forall i | 0 <= i < |steps|
      ensures steps[i].result <= Inorder(root) && steps[i].visitedIds <= InorderIds(root)
    {
      ChainedGrowth(steps, i, |steps| - 1);
    }
  }
}
