/** Binary tree nodes, the level-order array builder and the conversion of a tree
    into the `{name, children?}` records the diagram library draws. */
module TreeNode {

  datatype Option<T> = None | Some(value: T)

  /** A binary tree; `Nil` is the missing child (`null`).  Every node carries a stable
      identity `id` besides its value, so that nodes with equal values can be told apart. */
  datatype Tree = Nil | Node(id: nat, val: int, left: Tree, right: Tree)

  /** A reference to an existing node, as held on a traversal stack. */
  type NodeRef = t: Tree | t.Node? witness Node(0, 0, Nil, Nil)

  function Size(t: Tree): nat
  {
    match t
    case Nil => 0
    case Node(_, _, l, r) => Size(l) + 1 + Size(r)
  }

  function Max(a: nat, b: nat): nat
  {
    if a < b then b else a
  }

  /** Number of nodes on the longest root-to-leaf path. */
  function Height(t: Tree): nat
  {
    match t
    case Nil => 0
    case Node(_, _, l, r) => 1 + Max(Height(l), Height(r))
  }

  function Ids(t: Tree): set<nat>
  {
    match t
    case Nil => {}
    case Node(i, _, l, r) => {i} + Ids(l) + Ids(r)
  }

  /** The (id, value) pairs of the nodes of `t`. */
  ghost function IdValuePairs(t: Tree): set<(nat, int)>
  {
    match t
    case Nil => {}
    case Node(i, v, l, r) => {(i, v)} + IdValuePairs(l) + IdValuePairs(r)
  }

  /** The non-empty subtrees of `t`, `t` itself included. */
  ghost function Subtrees(t: Tree): set<Tree>
  {
    match t
    case Nil => {}
    case Node(_, _, l, r) => {t} + Subtrees(l) + Subtrees(r)
  }

  /** No identity occurs twice in `t`. */
  ghost predicate DistinctIds(t: Tree)
  {
    match t
    case Nil => true
    case Node(i, _, l, r) =>
      && i !in Ids(l) && i !in Ids(r) && Ids(l) !! Ids(r)
      && DistinctIds(l) && DistinctIds(r)
  }

  /** Values in root-left-right order. */
  function Preorder(t: Tree): seq<int>
  {
    match t
    case Nil => []
    case Node(_, v, l, r) => [v] + Preorder(l) + Preorder(r)
  }

  lemma {:induction false} DistinctIdsSize(t: Tree)
    requires DistinctIds(t)
    ensures |Ids(t)| == Size(t)
  {
    match t
    case Nil =>
    case Node(i, _, l, r) =>
      DistinctIdsSize(l);
      DistinctIdsSize(r);
      assert {i} !! Ids(l) + Ids(r);
  }

  lemma {:induction false} SubtreeOf(t: Tree, s: Tree)
    requires s in Subtrees(t)
    ensures Subtrees(s) <= Subtrees(t)
    ensures IdValuePairs(s) <= IdValuePairs(t)
    ensures s.Node? && (s.id, s.val) in IdValuePairs(t)
  {
    match t
    case Nil =>
    case Node(_, _, l, r) =>
      if s != t {
        if s in Subtrees(l) { SubtreeOf(l, s); } else { SubtreeOf(r, s); }
      }
  }

  // ---------------------------------------------------------------------------
  // Building a tree from a level-order array with `null` entries.
  //
  // Slot i of the array is the node at heap position i: its children are read
  // from slots 2i+1 and 2i+2.  A slot whose parent slot is missing is never read.
  // The builder's nodes live in an arena indexed by slot; a node's identity is
  // its slot, and the links the builder assigns are maps from a parent slot to
  // the slot of its left or right child.
  // ---------------------------------------------------------------------------

  /** Slot i exists and holds a value. */
  predicate Present(arr: seq<Option<int>>, i: nat)
  {
    i < |arr| && arr[i].Some?
  }

  /** The slots that hold a value. */
  ghost function PresentSlots(arr: seq<Option<int>>): set<nat>
  {
    set k: nat | k < |arr| && arr[k].Some?
  }

  /** The subtree the builder produces for heap position i. */
  ghost function Build(arr: seq<Option<int>>, i: nat): Tree
    decreases |arr| - i
  {
    if Present(arr, i) then Node(i, arr[i].value, Build(arr, 2 * i + 1), Build(arr, 2 * i + 2))
    else Nil
  }

  /** Slot k is reached from slot i: every slot on the heap path from i down to k
      (both ends included) holds a value. */
  ghost predicate Reachable(arr: seq<Option<int>>, k: nat, i: nat)
    decreases k
  {
    Present(arr, k) && (k == i || (k > i && Reachable(arr, (k - 1) / 2, i)))
  }

  /** Every node of `t` sits at the slot named by its id, carries that slot's value, and
      has a left (right) child exactly when slot 2i+1 (2i+2) holds a value. */
  ghost predicate HeapShaped(arr: seq<Option<int>>, t: Tree)
  {
    match t
    case Nil => true
    case Node(i, v, l, r) =>
      && Present(arr, i) && arr[i].value == v
      && (l.Node? <==> Present(arr, 2 * i + 1)) && (l.Node? ==> l.id == 2 * i + 1)
      && (r.Node? <==> Present(arr, 2 * i + 2)) && (r.Node? ==> r.id == 2 * i + 2)
      && HeapShaped(arr, l) && HeapShaped(arr, r)
  }

  lemma {:induction false} BuildHeapShaped(arr: seq<Option<int>>, i: nat)
    ensures HeapShaped(arr, Build(arr, i))
    decreases |arr| - i
  {
    if Present(arr, i) {
      BuildHeapShaped(arr, 2 * i + 1);
      BuildHeapShaped(arr, 2 * i + 2);
    }
  }

  lemma {:induction false} ReachableFromChild(arr: seq<Option<int>>, k: nat, i: nat, c: nat)
    requires Present(arr, i) && (c == 2 * i + 1 || c == 2 * i + 2)
    requires Reachable(arr, k, c)
    ensures Reachable(arr, k, i)
    decreases k
  {
    if k != c {
      ReachableFromChild(arr, (k - 1) / 2, i, c);
    }
  }

  /** Every node of the subtree built at slot i is reached from i. */
  lemma {:induction false} BuiltIdsReachable(arr: seq<Option<int>>, i: nat, k: nat)
    requires k in Ids(Build(arr, i))
    ensures Reachable(arr, k, i)
    decreases |arr| - i
  {
    if k != i {
      var c := if k in Ids(Build(arr, 2 * i + 1)) then 2 * i + 1 else 2 * i + 2;
      BuiltIdsReachable(arr, c, k);
      ReachableFromChild(arr, k, i, c);
    }
  }

  lemma {:induction false} ChildInBuild(arr: seq<Option<int>>, i: nat, p: nat, c: nat)
    requires p in Ids(Build(arr, i))
    requires (c == 2 * p + 1 || c == 2 * p + 2) && Present(arr, c)
    ensures c in Ids(Build(arr, i))
    decreases |arr| - i
  {
    if p != i {
      if p in Ids(Build(arr, 2 * i + 1)) {
        ChildInBuild(arr, 2 * i + 1, p, c);
      } else {
        ChildInBuild(arr, 2 * i + 2, p, c);
      }
    }
  }

  /** Every slot reached from i is a node of the subtree built at slot i. */
  lemma {:induction false} ReachableInBuild(arr: seq<Option<int>>, i: nat, k: nat)
    requires Reachable(arr, k, i)
    ensures k in Ids(Build(arr, i))
    decreases k
  {
    if k != i {
      var p := (k - 1) / 2;
      ReachableInBuild(arr, i, p);
      ChildInBuild(arr, i, p, k);
    }
  }

  /** A slot included in the built tree is exactly one whose heap ancestors all hold
      values; `[1, null, 2, 3]` therefore loses the 3, whose parent slot is `null`. */
  lemma BuiltIdsExactlyReachable(arr: seq<Option<int>>)
    ensures forall k: nat :: k in Ids(Build(arr, 0)) <==> Reachable(arr, k, 0)
  {
    forall k: nat
      ensures k in Ids(Build(arr, 0)) <==> Reachable(arr, k, 0)
    {
      if k in Ids(Build(arr, 0)) { BuiltIdsReachable(arr, 0, k); }
      if Reachable(arr, k, 0) { ReachableInBuild(arr, 0, k); }
    }
  }

  /** Two heap paths ending at the same slot k share their upper part. */
  lemma {:induction false} ReachableChain(arr: seq<Option<int>>, k: nat, a: nat, b: nat)
    requires Reachable(arr, k, a) && Reachable(arr, k, b) && a <= b
    ensures Reachable(arr, b, a)
    decreases k
  {
    if k != b {
      ReachableChain(arr, (k - 1) / 2, a, b);
    }
  }

  lemma {:induction false} BuildDistinct(arr: seq<Option<int>>, i: nat)
    ensures DistinctIds(Build(arr, i))
    decreases |arr| - i
  {
    if Present(arr, i) {
      var l, r := 2 * i + 1, 2 * i + 2;
      BuildDistinct(arr, l);
      BuildDistinct(arr, r);
      forall k | k in Ids(Build(arr, l)) || k in Ids(Build(arr, r))
        ensures k != i
        ensures !(k in Ids(Build(arr, l)) && k in Ids(Build(arr, r)))
      {
        if k in Ids(Build(arr, l)) { BuiltIdsReachable(arr, l, k); }
        if k in Ids(Build(arr, r)) { BuiltIdsReachable(arr, r, k); }
        if k in Ids(Build(arr, l)) && k in Ids(Build(arr, r)) {
          ReachableChain(arr, k, l, r);
          assert false;
        }
      }
    }
  }

  lemma {:induction false} BuiltIdsPresent(arr: seq<Option<int>>, i: nat)
    ensures Ids(Build(arr, i)) <= PresentSlots(arr)
    decreases |arr| - i
  {
    if Present(arr, i) {
      BuiltIdsPresent(arr, 2 * i + 1);
      BuiltIdsPresent(arr, 2 * i + 2);
    }
  }

  /** The built tree has at most as many nodes as the array has non-null entries. */
  lemma BuildSizeBound(arr: seq<Option<int>>)
    ensures Size(Build(arr, 0)) <= |PresentSlots(arr)|
  {
    BuildDistinct(arr, 0);
    DistinctIdsSize(Build(arr, 0));
    BuiltIdsPresent(arr, 0);
    SubsetCardinality(Ids(Build(arr, 0)), PresentSlots(arr));
  }

  lemma {:induction false} SubsetCardinality(a: set<nat>, b: set<nat>)
    requires a <= b
    ensures |a| <= |b|
    decreases |b|
  {
    if a != {} {
      var x :| x in a;
      SubsetCardinality(a - {x}, b - {x});
    }
  }

  /** Slot c is one of the two child slots of slot p. */
  predicate ChildSlot(p: nat, c: nat)
  {
    c == 2 * p + 1 || c == 2 * p + 2
  }

  /** Links from a parent slot to a child slot point forward, to a slot holding a value. */
  ghost predicate ForwardLinks(arr: seq<Option<int>>, links: map<nat, nat>)
  {
    forall p :: p in links ==> p < links[p] && Present(arr, links[p])
  }

  /** The tree formed by the arena's nodes reachable from slot i. */
  function Assemble(arr: seq<Option<int>>, leftOf: map<nat, nat>, rightOf: map<nat, nat>, i: nat): Tree
    requires Present(arr, i) && ForwardLinks(arr, leftOf) && ForwardLinks(arr, rightOf)
    decreases |arr| - i
  {
    Node(i, arr[i].value,
         if i in leftOf then Assemble(arr, leftOf, rightOf, leftOf[i]) else Nil,
         if i in rightOf then Assemble(arr, leftOf, rightOf, rightOf[i]) else Nil)
  }

  /** The slots in `done` have been processed: each holds a value and has exactly the
      links its present child slots call for. */
  ghost predicate LinksAssigned(arr: seq<Option<int>>, leftOf: map<nat, nat>, rightOf: map<nat, nat>, done: set<nat>)
  {
    forall p :: p in done ==>
      Present(arr, p) && SideLinked(arr, leftOf, p, 1) && SideLinked(arr, rightOf, p, 2)
  }

  /** Slot p has a link on the side at offset `off` exactly when that child slot holds a
      value, and the link points there. */
  ghost predicate SideLinked(arr: seq<Option<int>>, links: map<nat, nat>, p: nat, off: nat)
  {
    (p in links <==> Present(arr, 2 * p + off)) && (p in links ==> links[p] == 2 * p + off)
  }

  lemma {:induction false} AssembleIsBuild(arr: seq<Option<int>>, leftOf: map<nat, nat>, rightOf: map<nat, nat>, done: set<nat>, i: nat)
    requires ForwardLinks(arr, leftOf) && ForwardLinks(arr, rightOf)
    requires LinksAssigned(arr, leftOf, rightOf, done)
    requires forall p, c :: p in done && ChildSlot(p, c) && Present(arr, c) ==> c in done
    requires i in done
    ensures Assemble(arr, leftOf, rightOf, i) == Build(arr, i)
    decreases |arr| - i
  {
    var l, r := 2 * i + 1, 2 * i + 2;
    assert Present(arr, i) && (i in leftOf <==> Present(arr, l)) && (i in rightOf <==> Present(arr, r));
    assert ChildSlot(i, l) && ChildSlot(i, r);
    if i in leftOf {
      assert leftOf[i] == l && l in done;
      AssembleIsBuild(arr, leftOf, rightOf, done, l);
    }
    if i in rightOf {
      assert rightOf[i] == r && r in done;
      AssembleIsBuild(arr, leftOf, rightOf, done, r);
    }
    assert Build(arr, i) == Node(i, arr[i].value, Build(arr, l), Build(arr, r));
  }

  /** The builder's queue holds, in increasing order, slots holding values, none beyond
      twice the first and all above the processed ones. */
  ghost predicate QueueShape(arr: seq<Option<int>>, queue: seq<nat>, done: set<nat>)
  {
    && (forall j :: 0 <= j < |queue| ==> Present(arr, queue[j]))
    && (forall j, k :: 0 <= j < k < |queue| ==> queue[j] < queue[k])
    && (forall j :: 0 <= j < |queue| ==> queue[j] <= 2 * queue[0])
    && (forall p, j :: p in done && 0 <= j < |queue| ==> p < queue[j])
  }

  /** The arena's links point forward and are exactly those of the processed slots. */
  ghost predicate LinkState(arr: seq<Option<int>>, leftOf: map<nat, nat>, rightOf: map<nat, nat>, done: set<nat>)
  {
    && ForwardLinks(arr, leftOf) && ForwardLinks(arr, rightOf)
    && LinksAssigned(arr, leftOf, rightOf, done)
    && (forall p :: p in leftOf || p in rightOf ==> p in done)
  }

  /** Every present child of a processed slot is processed or queued, and so is the root. */
  ghost predicate Closed(arr: seq<Option<int>>, queue: seq<nat>, done: set<nat>)
  {
    && (forall p, c :: p in done && ChildSlot(p, c) && Present(arr, c) ==> c in done || c in queue)
    && (0 in done || 0 in queue)
  }

  /** The state of the builder's loop. */
  ghost predicate BuilderState(arr: seq<Option<int>>, leftOf: map<nat, nat>, rightOf: map<nat, nat>, queue: seq<nat>, done: set<nat>)
  {
    QueueShape(arr, queue, done) && LinkState(arr, leftOf, rightOf, done) && Closed(arr, queue, done)
  }

  /** The queue after processing its head slot i: the rest, then i's present children. */
  ghost function NextQueue(arr: seq<Option<int>>, queue: seq<nat>): seq<nat>
    requires |queue| > 0
  {
    queue[1..] + ChildrenToQueue(arr, queue[0])
  }

  /** The present child slots of slot i, left first. */
  ghost function ChildrenToQueue(arr: seq<Option<int>>, i: nat): seq<nat>
  {
    (if Present(arr, 2 * i + 1) then [2 * i + 1] else [])
    + (if Present(arr, 2 * i + 2) then [2 * i + 2] else [])
  }

  lemma ChildrenInOrder(arr: seq<Option<int>>, i: nat)
    ensures var kids := ChildrenToQueue(arr, i);
      && (forall j :: 0 <= j < |kids| ==> 2 * i < kids[j] <= 2 * i + 2 && Present(arr, kids[j]))
      && (forall j, k :: 0 <= j < k < |kids| ==> kids[j] < kids[k])
  {
  }

  /** Processing the head keeps the queue's shape and moves the head forward. */
  lemma QueueStep(arr: seq<Option<int>>, queue: seq<nat>, done: set<nat>)
    requires |queue| > 0 && QueueShape(arr, queue, done)
    ensures QueueShape(arr, NextQueue(arr, queue), done + {queue[0]})
    ensures forall j :: 0 <= j < |NextQueue(arr, queue)| ==> queue[0] < NextQueue(arr, queue)[j]
  {
    var i := queue[0];
    var rest := queue[1..];
    var kids := ChildrenToQueue(arr, i);
    ChildrenInOrder(arr, i);
    QueueParts(arr, i, rest, kids);
    var q' := rest + kids;
    assert NextQueue(arr, queue) == q';
    forall p, j | p in done + {i} && 0 <= j < |q'|
      ensures p < q'[j]
    {
    }
  }

  lemma QueueParts(arr: seq<Option<int>>, i: nat, rest: seq<nat>, kids: seq<nat>)
    requires forall j :: 0 <= j < |rest| ==> i < rest[j] <= 2 * i && Present(arr, rest[j])
    requires forall j, k :: 0 <= j < k < |rest| ==> rest[j] < rest[k]
    requires forall j :: 0 <= j < |kids| ==> 2 * i < kids[j] <= 2 * i + 2 && Present(arr, kids[j])
    requires forall j, k :: 0 <= j < k < |kids| ==> kids[j] < kids[k]
    ensures forall j :: 0 <= j < |rest + kids| ==> i < (rest + kids)[j] <= 2 * i + 2 && Present(arr, (rest + kids)[j])
    ensures forall j, k :: 0 <= j < k < |rest + kids| ==> (rest + kids)[j] < (rest + kids)[k]
  {
    var q := rest + kids;
    forall j | 0 <= j < |q|
      ensures i < q[j] <= 2 * i + 2 && Present(arr, q[j])
    {
      if j < |rest| { assert q[j] == rest[j]; } else { assert q[j] == kids[j - |rest|]; }
    }
    forall j, k | 0 <= j < k < |q|
      ensures q[j] < q[k]
    {
      if k < |rest| {
        assert q[j] == rest[j] && q[k] == rest[k];
      } else if j >= |rest| {
        assert q[j] == kids[j - |rest|] && q[k] == kids[k - |rest|];
      } else {
        assert q[j] == rest[j] && q[k] == kids[k - |rest|];
      }
    }
  }

  lemma ClosureStep(arr: seq<Option<int>>, queue: seq<nat>, done: set<nat>, c: nat)
    requires |queue| > 0 && queue[0] !in done
    requires c in done || c in queue
    ensures c in done + {queue[0]} || c in NextQueue(arr, queue)
  {
    if c !in done && c != queue[0] {
      var j :| 0 <= j < |queue| && queue[j] == c;
      assert NextQueue(arr, queue)[j - 1] == c;
    }
  }

  /** Linking slot i to a present child slot above it keeps every link forward. */
  lemma ForwardLinksStep(arr: seq<Option<int>>, links: map<nat, nat>, i: nat, c: nat)
    requires ForwardLinks(arr, links) && i < c && Present(arr, c)
    ensures ForwardLinks(arr, links[i := c])
  {
  }

  /** Processing slot i adds exactly i's links, all pointing forward. */
  lemma LinksStep(arr: seq<Option<int>>, leftOf: map<nat, nat>, rightOf: map<nat, nat>, done: set<nat>, i: nat,
                  leftOf': map<nat, nat>, rightOf': map<nat, nat>)
    requires LinkState(arr, leftOf, rightOf, done)
    requires Present(arr, i) && i !in done
    requires leftOf' == if Present(arr, 2 * i + 1) then leftOf[i := 2 * i + 1] else leftOf
    requires rightOf' == if Present(arr, 2 * i + 2) then rightOf[i := 2 * i + 2] else rightOf
    ensures LinkState(arr, leftOf', rightOf', done + {i})
  {
    if Present(arr, 2 * i + 1) { ForwardLinksStep(arr, leftOf, i, 2 * i + 1); }
    if Present(arr, 2 * i + 2) { ForwardLinksStep(arr, rightOf, i, 2 * i + 2); }
    AssignedStep(arr, leftOf, rightOf, done, i, leftOf', rightOf');
    KeysStep(leftOf, rightOf, done, i, leftOf', rightOf');
  }

  lemma AssignedStep(arr: seq<Option<int>>, leftOf: map<nat, nat>, rightOf: map<nat, nat>, done: set<nat>, i: nat,
                     leftOf': map<nat, nat>, rightOf': map<nat, nat>)
    requires LinksAssigned(arr, leftOf, rightOf, done)
    requires forall p :: p in leftOf || p in rightOf ==> p in done
    requires Present(arr, i)
    requires leftOf' == if Present(arr, 2 * i + 1) then leftOf[i := 2 * i + 1] else leftOf
    requires rightOf' == if Present(arr, 2 * i + 2) then rightOf[i := 2 * i + 2] else rightOf
    ensures LinksAssigned(arr, leftOf', rightOf', done + {i})
  {
    forall p | p in done + {i}
      ensures Present(arr, p) && SideLinked(arr, leftOf', p, 1) && SideLinked(arr, rightOf', p, 2)
    {
      SideStep(arr, leftOf, done, i, 1, leftOf', p);
      SideStep(arr, rightOf, done, i, 2, rightOf', p);
    }
  }

  lemma KeysStep(leftOf: map<nat, nat>, rightOf: map<nat, nat>, done: set<nat>, i: nat,
                 leftOf': map<nat, nat>, rightOf': map<nat, nat>)
    requires forall p :: p in leftOf || p in rightOf ==> p in done
    requires leftOf'.Keys <= leftOf.Keys + {i} && rightOf'.Keys <= rightOf.Keys + {i}
    ensures forall p :: p in leftOf' || p in rightOf' ==> p in done + {i}
  {
    forall p | p in leftOf' || p in rightOf'
      ensures p in done + {i}
    {
      if p != i {
        assert p in leftOf || p in rightOf;
      }
    }
  }

  /** One side's link at slot p after processing slot i: present exactly when p's
      child slot on that side is present, and pointing there. */
  lemma SideStep(arr: seq<Option<int>>, links: map<nat, nat>, done: set<nat>, i: nat, off: nat, links': map<nat, nat>, p: nat)
    requires p in done ==> SideLinked(arr, links, p, off)
    requires p in links ==> p in done
    requires links' == if Present(arr, 2 * i + off) then links[i := 2 * i + off] else links
    requires p in done + {i}
    ensures SideLinked(arr, links', p, off)
  {
    if p != i {
      assert p in links' <==> p in links;
    }
  }

  /** Processing the queue's head keeps every present child of a processed slot
      processed or queued. */
  lemma ClosureAll(arr: seq<Option<int>>, queue: seq<nat>, done: set<nat>)
    requires |queue| > 0 && queue[0] !in done && Closed(arr, queue, done)
    ensures Closed(arr, NextQueue(arr, queue), done + {queue[0]})
  {
    var i := queue[0];
    forall p, c | p in done + {i} && ChildSlot(p, c) && Present(arr, c)
      ensures c in done + {i} || c in NextQueue(arr, queue)
    {
      if p != i { ClosureStep(arr, queue, done, c); }
      else { assert c in ChildrenToQueue(arr, i); }
    }
    ClosureStep(arr, queue, done, 0);
  }

  /** One round of the builder's loop keeps its state and moves the queue's head forward. */
  lemma BuilderStep(arr: seq<Option<int>>, leftOf: map<nat, nat>, rightOf: map<nat, nat>, queue: seq<nat>, done: set<nat>,
                    leftOf': map<nat, nat>, rightOf': map<nat, nat>, queue': seq<nat>, done': set<nat>)
    requires BuilderState(arr, leftOf, rightOf, queue, done) && |queue| > 0
    requires leftOf' == if Present(arr, 2 * queue[0] + 1) then leftOf[queue[0] := 2 * queue[0] + 1] else leftOf
    requires rightOf' == if Present(arr, 2 * queue[0] + 2) then rightOf[queue[0] := 2 * queue[0] + 2] else rightOf
    requires queue' == NextQueue(arr, queue) && done' == done + {queue[0]}
    ensures BuilderState(arr, leftOf', rightOf', queue', done')
    ensures |queue'| > 0 ==> queue'[0] > queue[0]
  {
    var i := queue[0];
    assert i !in done;
    QueueStep(arr, queue, done);
    LinksStep(arr, leftOf, rightOf, done, i, leftOf', rightOf');
    ClosureAll(arr, queue, done);
  }

  /** When the queue runs empty, the arena read from slot 0 is the built tree. */
  lemma BuilderDone(arr: seq<Option<int>>, leftOf: map<nat, nat>, rightOf: map<nat, nat>, done: set<nat>)
    requires BuilderState(arr, leftOf, rightOf, [], done)
    ensures Present(arr, 0) && ForwardLinks(arr, leftOf) && ForwardLinks(arr, rightOf)
    ensures Assemble(arr, leftOf, rightOf, 0) == Build(arr, 0)
  {
    AssembleIsBuild(arr, leftOf, rightOf, done, 0);
  }

  /** Builds the tree of a level-order array: a `null` root for an empty array or a
      missing first entry, otherwise the nodes linked by a breadth-first walk over
      heap slots. */
  method ArrayToTree(arr: seq<Option<int>>) returns (root: Tree)
    ensures root == Build(arr, 0)
    ensures root == Nil <==> |arr| == 0 || arr[0].None?
    ensures HeapShaped(arr, root) && DistinctIds(root)
    ensures forall k: nat :: k in Ids(root) <==> Reachable(arr, k, 0)
    ensures Size(root) <= |PresentSlots(arr)|
  {
    if |arr| == 0 || arr[0].None? {
      root := Nil;
    } else {
      var leftOf, rightOf := LinkChildren(arr);
      root := Assemble(arr, leftOf, rightOf, 0);
    }
    BuildHeapShaped(arr, 0);
    BuildDistinct(arr, 0);
    BuiltIdsExactlyReachable(arr);
    BuildSizeBound(arr);
  }

  /** The queue loop: pops a slot, links it to its present child slots and queues them.
      The links it leaves, read from slot 0, form the built tree. */
  method LinkChildren(arr: seq<Option<int>>) returns (leftOf: map<nat, nat>, rightOf: map<nat, nat>)
    requires Present(arr, 0)
    ensures ForwardLinks(arr, leftOf) && ForwardLinks(arr, rightOf)
    ensures Assemble(arr, leftOf, rightOf, 0) == Build(arr, 0)
  {
    leftOf, rightOf := map[], map[];
    var queue: seq<nat> := [0];
    ghost var done: set<nat> := {};
    while |queue| > 0
      invariant BuilderState(arr, leftOf, rightOf, queue, done)
      decreases if |queue| == 0 then 0 else |arr| + 1 - queue[0]
    {
      leftOf, rightOf, queue, done := LinkHead(arr, leftOf, rightOf, queue, done);
    }
    BuilderDone(arr, leftOf, rightOf, done);
  }

  /** One round of the queue loop: takes the head slot off the queue, links it to its
      present child slots and queues them. */
  method LinkHead(arr: seq<Option<int>>, leftOf: map<nat, nat>, rightOf: map<nat, nat>, queue: seq<nat>, ghost done: set<nat>)
    returns (leftOf': map<nat, nat>, rightOf': map<nat, nat>, queue': seq<nat>, ghost done': set<nat>)
    requires BuilderState(arr, leftOf, rightOf, queue, done) && |queue| > 0
    ensures leftOf' == if Present(arr, 2 * queue[0] + 1) then leftOf[queue[0] := 2 * queue[0] + 1] else leftOf
    ensures rightOf' == if Present(arr, 2 * queue[0] + 2) then rightOf[queue[0] := 2 * queue[0] + 2] else rightOf
    ensures queue' == NextQueue(arr, queue) && done' == done + {queue[0]}
    ensures BuilderState(arr, leftOf', rightOf', queue', done')
    ensures |queue'| > 0 ==> queue[0] < queue'[0] < |arr|
  {
    var index := queue[0];
    leftOf', rightOf', queue' := leftOf, rightOf, queue[1..];
    var leftIndex := 2 * index + 1;
    if leftIndex < |arr| && arr[leftIndex].Some? {
      leftOf' := leftOf'[index := leftIndex];
      queue' := queue' + [leftIndex];
    }
    var rightIndex := 2 * index + 2;
    if rightIndex < |arr| && arr[rightIndex].Some? {
      rightOf' := rightOf'[index := rightIndex];
      queue' := queue' + [rightIndex];
    }
    done' := done + {index};
    assert queue' == NextQueue(arr, queue);
    BuilderStep(arr, leftOf, rightOf, queue, done, leftOf', rightOf', queue', done');
    assert |queue'| > 0 ==> Present(arr, queue'[0]);
  }

  /** `[1, null, 2, 3]`: root 1 with only a right child 2; the 3 at slot 3, below the
      `null` at slot 1, is dropped. */
  lemma ExampleRightChildOnly()
    ensures Build([Some(1), None, Some(2), Some(3)], 0) == Node(0, 1, Nil, Node(2, 2, Nil, Nil))
  {
    var arr := [Some(1), None, Some(2), Some(3)];
    assert Build(arr, 5) == Nil && Build(arr, 6) == Nil;
    assert Build(arr, 1) == Nil;
    assert Build(arr, 2) == Node(2, 2, Nil, Nil);
  }

  // ---------------------------------------------------------------------------
  // Conversion into the diagram library's records.
  // ---------------------------------------------------------------------------

  /** The diagram library's node record: a label and, for inner nodes only, the list of
      children.  `Omitted` is a missing `children` field. */
  datatype TreeNodeData = TreeNodeData(name: string, children: ChildList)
  datatype ChildList = Omitted | Listed(nodes: seq<TreeNodeData>)

  function DigitChar(d: nat): char
    requires d < 10
  {
    ('0' as int + d) as char
  }

  /** Decimal digits of n, most significant first, without leading zeros. */
  function NatToString(n: nat): (s: string)
    ensures |s| >= 1 && forall k :: 0 <= k < |s| ==> '0' <= s[k] <= '9'
    ensures (|s| == 1) == (n < 10)
    decreases n
  {
    if n < 10 then [DigitChar(n)] else NatToString(n / 10) + [DigitChar(n % 10)]
  }

  /** The decimal notation of an integer, with a leading '-' when it is negative. */
  function DecimalString(n: int): string
  {
    if n < 0 then "-" + NatToString(-n) else NatToString(n)
  }

  /** The number a string of decimal digits denotes. */
  function DigitsValue(s: string): nat
    requires forall k :: 0 <= k < |s| ==> '0' <= s[k] <= '9'
  {
    if s == [] then 0 else 10 * DigitsValue(s[..|s| - 1]) + (s[|s| - 1] as int - '0' as int)
  }

  lemma {:induction false} DigitsRoundTrip(n: nat)
    ensures DigitsValue(NatToString(n)) == n
    decreases n
  {
    if n >= 10 {
      var s := NatToString(n);
      var q, d := n / 10, n % 10;
      assert s == NatToString(q) + [DigitChar(d)];
      assert s[..|s| - 1] == NatToString(q) && s[|s| - 1] == DigitChar(d);
      DigitsRoundTrip(q);
      assert n == 10 * q + d;
    }
  }

  /** A node's label reads back as its value: the sign and the digits denote `n`. */
  lemma DecimalStringDenotes(n: int)
    ensures var s := DecimalString(n);
      && |s| >= 1
      && (s[0] == '-' <==> n < 0)
      && (n < 0 ==> DigitsValue(s[1..]) == -n)
      && (n >= 0 ==> DigitsValue(s) == n)
  {
    var s := DecimalString(n);
    if n < 0 {
      assert s == "-" + NatToString(-n);
      assert s[1..] == NatToString(-n);
      DigitsRoundTrip(-n);
    } else {
      assert s == NatToString(n);
      assert '0' <= s[0] <= '9';
      DigitsRoundTrip(n);
    }
  }

  lemma DecimalStringInjective(a: int, b: int)
    requires DecimalString(a) == DecimalString(b)
    ensures a == b
  {
    DecimalStringDenotes(a);
    DecimalStringDenotes(b);
  }

  /** The record for each present child of a node, left before right. */
  function PresentChildren(t: Tree): (cs: seq<TreeNodeData>)
    requires t.Node?
    ensures |cs| == (if t.left.Node? then 1 else 0) + (if t.right.Node? then 1 else 0)
    decreases t, 0
  {
    (if t.left.Node? then [ToD3(t.left).value] else [])
      + (if t.right.Node? then [ToD3(t.right).value] else [])
  }

  /** `treeToD3Format`: `null` for the empty tree; otherwise the value in decimal as the
      label and the present children in left-then-right order, the field left out for
      a leaf. */
  function ToD3(t: Tree): (d: Option<TreeNodeData>)
    ensures d.None? <==> t.Nil?
    decreases t, 1
  {
    match t
    case Nil => None
    case Node(_, v, _, _) =>
      var children := PresentChildren(t);
      Some(TreeNodeData(DecimalString(v), if |children| > 0 then Listed(children) else Omitted))
  }

  /** The name labels of a record tree in root-then-children order. */
  function LabelsPreorder(d: TreeNodeData): seq<string>
    decreases d, 1
  {
    [d.name] + ChildLabelsFrom(d, 0)
  }

  /** The name labels of the children of `d` from the k-th on, each child's in preorder. */
  function ChildLabelsFrom(d: TreeNodeData, k: nat): seq<string>
    decreases d, 0, if d.children.Listed? then |d.children.nodes| - k else 0
  {
    if d.children.Omitted? || k >= |d.children.nodes| then []
    else LabelsPreorder(d.children.nodes[k]) + ChildLabelsFrom(d, k + 1)
  }

  function DecimalStrings(vs: seq<int>): (ss: seq<string>)
    ensures |ss| == |vs| && forall k :: 0 <= k < |vs| ==> ss[k] == DecimalString(vs[k])
  {
    if vs == [] then [] else [DecimalString(vs[0])] + DecimalStrings(vs[1..])
  }

  lemma DecimalStringsAppend(a: seq<int>, b: seq<int>)
    ensures DecimalStrings(a + b) == DecimalStrings(a) + DecimalStrings(b)
  {
  }

  lemma ChildLabelsOfOne(d: TreeNodeData, a: TreeNodeData)
    requires d.children == Listed([a])
    ensures ChildLabelsFrom(d, 0) == LabelsPreorder(a)
  {
    assert ChildLabelsFrom(d, 1) == [];
  }

  lemma ChildLabelsOfTwo(d: TreeNodeData, a: TreeNodeData, b: TreeNodeData)
    requires d.children == Listed([a, b])
    ensures ChildLabelsFrom(d, 0) == LabelsPreorder(a) + LabelsPreorder(b)
  {
    assert ChildLabelsFrom(d, 2) == [];
    assert ChildLabelsFrom(d, 1) == LabelsPreorder(b);
  }

  /** The children labels of a converted node: the left subtree's, then the right's. */
  lemma ToD3ChildLabels(t: Tree)
    requires t.Node?
    ensures ChildLabelsFrom(ToD3(t).value, 0) ==
      (if t.left.Node? then LabelsPreorder(ToD3(t.left).value) else [])
      + (if t.right.Node? then LabelsPreorder(ToD3(t.right).value) else [])
  {
    var d := ToD3(t).value;
    var cs := PresentChildren(t);
    assert d.children == if |cs| > 0 then Listed(cs) else Omitted;
    if t.left.Node? && t.right.Node? {
      assert cs == [ToD3(t.left).value, ToD3(t.right).value];
      ChildLabelsOfTwo(d, ToD3(t.left).value, ToD3(t.right).value);
    } else if t.left.Node? {
      assert cs == [ToD3(t.left).value];
      ChildLabelsOfOne(d, ToD3(t.left).value);
    } else if t.right.Node? {
      assert cs == [ToD3(t.right).value];
      ChildLabelsOfOne(d, ToD3(t.right).value);
    } else {
      assert cs == [];
    }
  }

  /** A converted node has no `children` field exactly when it is a leaf. */
  lemma ToD3LeafOmitsChildren(t: Tree)
    requires t.Node?
    ensures ToD3(t).value.children.Omitted? <==> t.left.Nil? && t.right.Nil?
  {
    var cs := PresentChildren(t);
    assert ToD3(t).value.children == if |cs| > 0 then Listed(cs) else Omitted;
  }

  /** The conversion keeps the root-left-right sequence of values, as labels. */
  lemma {:induction false} ToD3Preorder(t: Tree)
    requires t.Node?
    ensures LabelsPreorder(ToD3(t).value) == DecimalStrings(Preorder(t))
  {
    if t.left.Node? { ToD3Preorder(t.left); }
    if t.right.Node? { ToD3Preorder(t.right); }
    NodeLabels(t);
    NodeDecimalStrings(t);
  }

  /** The labels of a converted node: its own, then its subtrees' in order. */
  lemma NodeLabels(t: Tree)
    requires t.Node?
    ensures LabelsPreorder(ToD3(t).value) == [DecimalString(t.val)]
      + (if t.left.Node? then LabelsPreorder(ToD3(t.left).value) else [])
      + (if t.right.Node? then LabelsPreorder(ToD3(t.right).value) else [])
  {
    var d := ToD3(t).value;
    var left := if t.left.Node? then LabelsPreorder(ToD3(t.left).value) else [];
    var right := if t.right.Node? then LabelsPreorder(ToD3(t.right).value) else [];
    ToD3ChildLabels(t);
    assert d.name == DecimalString(t.val);
    assert LabelsPreorder(d) == [d.name] + ChildLabelsFrom(d, 0);
    AppendAssoc([d.name], left, right);
  }

  lemma AppendAssoc<T>(a: seq<T>, b: seq<T>, c: seq<T>)
    ensures a + (b + c) == a + b + c
  {
  }

  /** The decimal strings of a node's preorder: its own, then its subtrees' in order. */
  lemma NodeDecimalStrings(t: Tree)
    requires t.Node?
    ensures DecimalStrings(Preorder(t)) == [DecimalString(t.val)]
      + (if t.left.Node? then DecimalStrings(Preorder(t.left)) else [])
      + (if t.right.Node? then DecimalStrings(Preorder(t.right)) else [])
  {
    var l, r := t.left, t.right;
    DecimalStringsAppend([t.val] + Preorder(l), Preorder(r));
    DecimalStringsAppend([t.val], Preorder(l));
    assert DecimalStrings([t.val]) == [DecimalString(t.val)];
    assert l.Nil? ==> DecimalStrings(Preorder(l)) == [];
    assert r.Nil? ==> DecimalStrings(Preorder(r)) == [];
  }

  /** A node with one child gets the same record whichever side the child is on. */
  lemma ToD3ForgetsSide(i: nat, v: int, c: Tree)
    requires c.Node?
    ensures ToD3(Node(i, v, c, Nil)) == ToD3(Node(i, v, Nil, c))
  {
    assert PresentChildren(Node(i, v, c, Nil)) == [ToD3(c).value] == PresentChildren(Node(i, v, Nil, c));
  }
}
