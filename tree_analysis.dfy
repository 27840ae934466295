/** Depth and node count of a drawn record tree, each computed by a recursion that folds
    a node's children left to right into an accumulator. */
module TreeAnalysis {
  import opened TreeNode

  /** The depth of a possibly absent record tree: 0 when absent. */
  function Depth(node: Option<TreeNodeData>): nat
  {
    if node.None? then 0 else DepthOf(node.value)
  }

  /** A node without children, or with an empty list of them, has depth 1; any other
      has one more than its deepest child. */
  function DepthOf(d: TreeNodeData): nat
    decreases d, 1
  {
    if d.children.Omitted? || |d.children.nodes| == 0 then 1
    else 1 + MaxChildDepth(d, |d.children.nodes|)
  }

  /** The largest depth among the first k children of `d`, 0 when there are none. */
  function MaxChildDepth(d: TreeNodeData, k: nat): nat
    requires d.children.Listed? && k <= |d.children.nodes|
    decreases d, 0, k
  {
    if k == 0 then 0 else Max(MaxChildDepth(d, k - 1), DepthOf(d.children.nodes[k - 1]))
  }

  /** The number of records in a record tree: one for the node and those of its children. */
  function Count(d: TreeNodeData): nat
    decreases d, 1
  {
    if d.children.Omitted? then 1 else 1 + ChildCount(d, |d.children.nodes|)
  }

  /** The records under the first k children of `d`. */
  function ChildCount(d: TreeNodeData, k: nat): nat
    requires d.children.Listed? && k <= |d.children.nodes|
    decreases d, 0, k
  {
    if k == 0 then 0 else ChildCount(d, k - 1) + Count(d.children.nodes[k - 1])
  }

  /** `determineTreeDepth`: 0 for a missing tree, otherwise the depth of its root. */
  method DetermineTreeDepth(node: Option<TreeNodeData>) returns (depth: nat)
    ensures depth == Depth(node)
  {
    if node.None? {
      return 0;
    }
    depth := NodeDepth(node.value);
  }

  /** The depth of a present node: its children's depths folded with `max`, plus one. */
  method NodeDepth(d: TreeNodeData) returns (depth: nat)
    ensures depth == DepthOf(d)
    decreases d
  {
    if d.children.Omitted? || |d.children.nodes| == 0 {
      return 1;
    }
    var children := d.children.nodes;
    var maxChildDepth := 0;
    var k := 0;
    while k < |children|
      invariant 0 <= k <= |children|
      invariant maxChildDepth == MaxChildDepth(d, k)
    {
      var childDepth := NodeDepth(children[k]);
      maxChildDepth := Max(maxChildDepth, childDepth);
      k := k + 1;
    }
    depth := maxChildDepth + 1;
  }

  /** `countNodes`: one for the node itself plus the counts of its children, summed. */
  method CountNodes(d: TreeNodeData) returns (count: nat)
    ensures count == Count(d)
    decreases d
  {
    count := 1;
    if d.children.Listed? {
      var children := d.children.nodes;
      var k := 0;
      while k < |children|
        invariant 0 <= k <= |children|
        invariant count == 1 + ChildCount(d, k)
      {
        var c := CountNodes(children[k]);
        count := count + c;
        k := k + 1;
      }
    }
  }

  /** Every record counts itself, and the deepest child is no deeper than the children
      hold records. */
  lemma {:induction false} DepthAtMostCount(d: TreeNodeData)
    ensures 1 <= DepthOf(d) <= Count(d)
    decreases d, 1
  {
    if d.children.Listed? && |d.children.nodes| > 0 {
      ChildDepthAtMostCount(d, |d.children.nodes|);
    }
  }

  lemma {:induction false} ChildDepthAtMostCount(d: TreeNodeData, k: nat)
    requires d.children.Listed? && k <= |d.children.nodes|
    ensures MaxChildDepth(d, k) <= ChildCount(d, k)
    decreases d, 0, k
  {
    if k > 0 {
      ChildDepthAtMostCount(d, k - 1);
      DepthAtMostCount(d.children.nodes[k - 1]);
    }
  }

  /** The prefix folds are positive as soon as one child is included. */
  lemma {:induction false} ChildFoldsPositive(d: TreeNodeData, k: nat)
    requires d.children.Listed? && 0 < k <= |d.children.nodes|
    ensures MaxChildDepth(d, k) >= 1 && ChildCount(d, k) >= 1
  {
    DepthAtMostCount(d.children.nodes[k - 1]);
  }

  /** A record has depth 1 exactly when it has no children, and only then counts 1. */
  lemma LeafIffDepthOne(d: TreeNodeData)
    ensures DepthOf(d) == 1 <==> d.children.Omitted? || |d.children.nodes| == 0
    ensures Count(d) == 1 <==> d.children.Omitted? || |d.children.nodes| == 0
  {
    if d.children.Listed? && |d.children.nodes| > 0 {
      ChildFoldsPositive(d, |d.children.nodes|);
    }
  }

  lemma ChildFoldsOfOne(d: TreeNodeData, a: TreeNodeData)
    requires d.children == Listed([a])
    ensures MaxChildDepth(d, 1) == DepthOf(a) && ChildCount(d, 1) == Count(a)
  {
    assert MaxChildDepth(d, 0) == 0 && ChildCount(d, 0) == 0;
  }

  lemma ChildFoldsOfTwo(d: TreeNodeData, a: TreeNodeData, b: TreeNodeData)
    requires d.children == Listed([a, b])
    ensures MaxChildDepth(d, 2) == Max(DepthOf(a), DepthOf(b))
    ensures ChildCount(d, 2) == Count(a) + Count(b)
  {
    assert d.children.nodes[0] == a && d.children.nodes[1] == b;
    assert MaxChildDepth(d, 0) == 0 && ChildCount(d, 0) == 0;
    assert MaxChildDepth(d, 1) == DepthOf(a) && ChildCount(d, 1) == Count(a);
  }

  /** Converting a tree for drawing keeps its number of nodes and its height. */
  lemma {:induction false} ToD3CountAndDepth(t: Tree)
    ensures Depth(ToD3(t)) == Height(t)
    ensures t.Node? ==> Count(ToD3(t).value) == Size(t)
  {
    if t.Node? {
      var l, r := t.left, t.right;
      var d := ToD3(t).value;
      ToD3CountAndDepth(l);
      ToD3CountAndDepth(r);
      if l.Node? && r.Node? {
        ChildFoldsOfTwo(d, ToD3(l).value, ToD3(r).value);
      } else if l.Node? {
        assert PresentChildren(t) == [ToD3(l).value];
        ChildFoldsOfOne(d, ToD3(l).value);
      } else if r.Node? {
        assert PresentChildren(t) == [ToD3(r).value];
        ChildFoldsOfOne(d, ToD3(r).value);
      }
    }
  }
}
