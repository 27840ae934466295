/** Properties of the older tracer's records: one record per missing child besides three
    per node, and a result that only grows, one value at a time, up to the inorder
    values. */
module LegacyTraceFacts {
  import opened TreeNode
  import opened TraversalSteps

  /** Each record's result extends the one before by at most one value. */
  predicate LegacyChained(steps: seq<LegacyStep>)
    decreases |steps|
  {
    |steps| < 2
    || (&& steps[0].result <= steps[1].result
        && |steps[1].result| <= |steps[0].result| + 1
        && LegacyChained(steps[1..]))
  }

  lemma {:induction false} LegacyChainedAppend(a: seq<LegacyStep>, b: seq<LegacyStep>)
    requires LegacyChained(a) && LegacyChained(b) && |a| > 0 && |b| > 0
    requires a[|a| - 1].result <= b[0].result && |b[0].result| <= |a[|a| - 1].result| + 1
    ensures LegacyChained(a + b)
    decreases |a|
  {
    if |a| == 1 {
      assert (a + b)[0] == a[0] && (a + b)[1..] == b;
    } else {
      assert (a + b)[0] == a[0] && (a + b)[1] == a[1] && (a + b)[1..] == a[1..] + b;
      LegacyChainedAppend(a[1..], b);
    }
  }

  lemma {:induction false} LegacyChainedGrowth(steps: seq<LegacyStep>, i: nat, j: nat)
    requires LegacyChained(steps) && i <= j < |steps|
    ensures steps[i].result <= steps[j].result
    ensures |steps[j].result| <= |steps[i].result| + (j - i)
    decreases |steps|
  {
    if 0 < i {
      LegacyChainedGrowth(steps[1..], i - 1, j - 1);
    } else if 0 < j {
      LegacyChainedGrowth(steps[1..], 0, j - 1);
    }
  }

  /** The records for `t` follow one another, open at `t` with the result it was reached
      with and close with the values of `t` added. */
  lemma {:induction false} LegacyStepsShape(t: Tree, res: seq<int>)
    ensures var steps := LegacySteps(t, res);
      && LegacyChained(steps)
      && steps[0] == LegacyStep(t, res)
      && steps[|steps| - 1].result == res + Inorder(t)
  {
    match t
    case Nil =>
      assert res + Inorder(t) == res;
    case Node(_, v, l, r) =>
      var res' := res + Inorder(l) + [v];
      LegacyStepsShape(l, res);
      LegacyStepsShape(r, res');
      var a := [LegacyStep(t, res)];
      var b := LegacySteps(l, res);
      var c := [LegacyStep(t, res')];
      var d := LegacySteps(r, res');
      var e := [LegacyStep(t, res' + Inorder(r))];
      assert LegacySteps(t, res) == a + b + c + d + e;
      assert res + Inorder(l) <= res' && |res'| == |res + Inorder(l)| + 1;
      Ends(a, b);
      LegacyChainedAppend(a, b);
      Ends(a + b, c);
      LegacyChainedAppend(a + b, c);
      Ends(a + b + c, d);
      LegacyChainedAppend(a + b + c, d);
      Ends(a + b + c + d, e);
      LegacyChainedAppend(a + b + c + d, e);
      InorderSplit(t, res, []);
  }

  lemma Ends<T>(x: seq<T>, y: seq<T>)
    requires |x| > 0 && |y| > 0
    ensures (x + y)[0] == x[0] && (x + y)[|x + y| - 1] == y[|y| - 1]
  {
  }

  /** The number of records made at a missing child. */
  function NullEntries(steps: seq<LegacyStep>): nat
  {
    if steps == [] then 0
    else (if steps[0].node.Nil? then 1 else 0) + NullEntries(steps[1..])
  }

  lemma {:induction false} NullEntriesAppend(a: seq<LegacyStep>, b: seq<LegacyStep>)
    ensures NullEntries(a + b) == NullEntries(a) + NullEntries(b)
    decreases |a|
  {
    if a == [] {
      assert a + b == b;
    } else {
      assert (a + b)[0] == a[0] && (a + b)[1..] == a[1..] + b;
      NullEntriesAppend(a[1..], b);
    }
  }

  /** A tree of n nodes has n + 1 missing children, one record each; the other 3n
      records are the three made at each node. */
  lemma {:induction false} LegacyNullEntries(t: Tree, res: seq<int>)
    ensures NullEntries(LegacySteps(t, res)) == Size(t) + 1
    ensures |LegacySteps(t, res)| - NullEntries(LegacySteps(t, res)) == 3 * Size(t)
  {
    match t
    case Nil =>
      assert [LegacyStep(Nil, res)][1..] == [];
    case Node(_, v, l, r) =>
      var res' := res + Inorder(l) + [v];
      LegacyNullEntries(l, res);
      LegacyNullEntries(r, res');
      var a := [LegacyStep(t, res)];
      var b := LegacySteps(l, res);
      var c := [LegacyStep(t, res')];
      var d := LegacySteps(r, res');
      var e := [LegacyStep(t, res' + Inorder(r))];
      assert a[1..] == [] && c[1..] == [] && e[1..] == [];
      NullEntriesAppend(a, b);
      NullEntriesAppend(a + b, c);
      NullEntriesAppend(a + b + c, d);
      NullEntriesAppend(a + b + c + d, e);
  }

  /** Over the whole tree: the first record is at the root with an empty result, the
      last holds the inorder values, and every result in between is a prefix of the
      later ones and of the inorder values, growing by at most one value per record. */
  lemma LegacyTraceResults(root: Tree)
    ensures var steps := LegacySteps(root, []);
      && steps[0] == LegacyStep(root, [])
      && steps[|steps| - 1].result == Inorder(root)
      && (forall i, j :: 0 <= i <= j < |steps| ==>
            steps[i].result <= steps[j].result && |steps[j].result| <= |steps[i].result| + (j - i))
      && (forall i :: 0 <= i < |steps| ==> steps[i].result <= Inorder(root))
  {
    var steps := LegacySteps(root, []);
    LegacyStepsShape(root, []);
    assert [] + Inorder(root) == Inorder(root);
    forall i, j | 0 <= i <= j < |steps|
      ensures steps[i].result <= steps[j].result && |steps[j].result| <= |steps[i].result| + (j - i)
    {
      LegacyChainedGrowth(steps, i, j);
    }
    forall i | 0 <= i < |steps|
      ensures steps[i].result <= Inorder(root)
    {
      LegacyChainedGrowth(steps, i, |steps| - 1);
    }
  }
}
