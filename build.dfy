/** The tree build of huffman.py as written: `insert_node`'s position rule and
    the `while True` merge loop of `build_huffman_tree`, as functions that the
    methods of the `Huffman` class are proved against. */
module TreeBuild {
  import opened Frequency
  import opened Tree
  import opened Outcomes

  /** The index `insert_node` inserts at: the first element whose key is at
      most `w`, or `|l|` when there is none. */
  function InsertPos(l: seq<Node>, w: nat): (k: nat)
    ensures k <= |l|
    ensures forall j :: 0 <= j < k ==> l[j].key > w
    ensures k < |l| ==> l[k].key <= w
  {
    if l == [] then 0
    else if l[0].key <= w then 0
    else 1 + InsertPos(l[1..], w)
  }

  /** `nodeList` after `insert_node(n)`: either unchanged, `n` dropped, or one
      longer and holding `n`; `InsertedRule` states where `n` goes. */
  function Inserted(l: seq<Node>, n: Node): (r: seq<Node>)
    ensures r == l || (|r| == |l| + 1 && n in r)
  {
    var k := InsertPos(l, n.key);
    if k < |l| then l[..k] + [n] + l[k..] else l
  }

  /** `n` goes in front of the first element whose key is at most its own;
      when there is none (an empty list included) the list is left as it was
      and `n` is dropped. */
  lemma InsertedRule(l: seq<Node>, n: Node)
    ensures (forall j :: 0 <= j < |l| ==> l[j].key > n.key) ==> Inserted(l, n) == l
    ensures (exists j :: 0 <= j < |l| && l[j].key <= n.key) ==>
      exists k :: 0 <= k < |l| && l[k].key <= n.key &&
        (forall j :: 0 <= j < k ==> l[j].key > n.key) &&
        Inserted(l, n) == l[..k] + [n] + l[k..]
  {
    var k := InsertPos(l, n.key);
    if k < |l| {
      assert l[k].key <= n.key && Inserted(l, n) == l[..k] + [n] + l[k..];
    } else {
      assert Inserted(l, n) == l;
      assert forall j :: 0 <= j < |l| ==> l[j].key > n.key;
    }
  }

  /** How `build_huffman_tree` ends: normally, or with the IndexError that
      `list.pop(0)` raises on an empty list. */
  datatype Status = Built | PopFromEmpty

  /** The outcome of a build: its status, `nodeList` afterwards, the root it
      sets (`None`: `root` is not assigned), and the nodes that left
      `nodeList` without reaching the root: the merged nodes `insert_node`
      dropped and a node popped just before a failing pop. */
  datatype Run = Run(status: Status, nodes: seq<Node>, root: Option<Node>, lost: seq<Node>)

  /** The leaves under an optional root. */
  function RootLeaves(root: Option<Node>): seq<Entry> {
    if root.Some? then LeafEntries(root.value) else []
  }

  /** The `while True` loop of `build_huffman_tree` and the final merge after it,
      started on `nodes` with `lost` nodes already lost. */
  function MergeLoop(nodes: seq<Node>, lost: seq<Node>): (r: Run)
    ensures r.nodes == []
    ensures r.status == Built <==> r.root.Some?
    decreases |nodes|
  {
    if |nodes| < 2 then Run(PopFromEmpty, [], None, lost + nodes)
    else
      var m := Merge(nodes[0], nodes[1]);
      var rest := nodes[2..];
      var next := Inserted(rest, m);
      var lost' := if |next| == |rest| then lost + [m] else lost;
      if |next| == 2 then Run(Built, [], Some(Merge(next[0], next[1])), lost')
      else MergeLoop(next, lost')
  }

  /** `build_huffman_tree` once `make_node_list` has produced `nodes`: a single
      node becomes the root and stays in the list; otherwise the merge loop runs. */
  function BuildTree(nodes: seq<Node>): (r: Run)
    ensures r.status == Built <==> r.root.Some?
    ensures |nodes| == 1 ==> r.nodes == nodes
    ensures |nodes| != 1 ==> r.nodes == []
  {
    if |nodes| == 1 then Run(Built, nodes, Some(nodes[0]), [])
    else MergeLoop(nodes, [])
  }

  /** Inserting either adds `n` to the leaves of the list or leaves them alone,
      and every element afterwards is `n` or was there before. */
  lemma InsertedLeaves(l: seq<Node>, n: Node)
    ensures var r := Inserted(l, n);
      && (|r| == |l| || |r| == |l| + 1)
      && multiset(Forest(r)) == multiset(Forest(l)) +
           (if |r| == |l| then multiset{} else multiset(LeafEntries(n)))
      && (forall x :: x in r ==> x in l || x == n)
  {
    var k := InsertPos(l, n.key);
    var r := Inserted(l, n);
    if k < |l| {
      var a, b := l[..k], l[k..];
      assert r == a + [n] + b && |r| == |l| + 1;
      assert a + b == l;
      SplitInsert(a, n, b);
    } else {
      assert r == l;
    }
  }

  lemma SplitInsert(a: seq<Node>, n: Node, b: seq<Node>)
    ensures multiset(Forest(a + [n] + b)) == multiset(Forest(a + b)) + multiset(LeafEntries(n))
    ensures forall x :: x in a + [n] + b ==> x in a + b || x == n
  {
    ForestAppend(a + [n], b);
    ForestAppend(a, [n]);
    ForestAppend(a, b);
    ForestSingle(n);
  }

  /** One merge step: the two front nodes merged, the merged node reinserted. */
  lemma MergeStepLeaves(nodes: seq<Node>, lost: seq<Node>)
    requires |nodes| >= 2
    ensures var m := Merge(nodes[0], nodes[1]);
      var next := Inserted(nodes[2..], m);
      var lost' := if |next| == |nodes[2..]| then lost + [m] else lost;
      multiset(Forest(next)) + multiset(Forest(lost')) ==
        multiset(Forest(nodes)) + multiset(Forest(lost))
  {
    var m := Merge(nodes[0], nodes[1]);
    var rest := nodes[2..];
    var next := Inserted(rest, m);
    InsertedLeaves(rest, m);
    ForestFront(nodes);
    assert multiset(Forest(nodes)) == multiset(LeafEntries(m)) + multiset(Forest(rest));
    if |next| == |rest| {
      ForestAppend(lost, [m]);
      ForestSingle(m);
      assert multiset(Forest(lost + [m])) == multiset(Forest(lost)) + multiset(LeafEntries(m));
    }
  }

  /** The leaves of the list are those of its first two nodes merged, then
      those of the rest. */
  lemma ForestFront(nodes: seq<Node>)
    requires |nodes| >= 2
    ensures Forest(nodes) == LeafEntries(Merge(nodes[0], nodes[1])) + Forest(nodes[2..])
  {
    assert nodes[1..][1..] == nodes[2..];
    assert Forest(nodes[1..]) == LeafEntries(nodes[1]) + Forest(nodes[2..]);
  }

  /** One turn of the loop: it either ends with the final merge or goes on
      with the list after the reinsert. */
  lemma MergeLoopUnfold(nodes: seq<Node>, lost: seq<Node>)
    requires |nodes| >= 2
    ensures var m := Merge(nodes[0], nodes[1]);
      var next := Inserted(nodes[2..], m);
      var lost' := if |next| == |nodes[2..]| then lost + [m] else lost;
      MergeLoop(nodes, lost) ==
        if |next| == 2 then Run(Built, [], Some(Merge(next[0], next[1])), lost')
        else MergeLoop(next, lost')
  {
  }

  /** Fewer than two nodes: a pop fails, and what was left is lost. */
  lemma MergeLoopShort(nodes: seq<Node>, lost: seq<Node>)
    requires |nodes| < 2
    ensures MergeLoop(nodes, lost) == Run(PopFromEmpty, [], None, lost + nodes)
  {
  }

  /** No leaf appears or disappears: the leaves of the list and of the lost
      nodes together are the leaves of the root and of the lost nodes at the end. */
  lemma {:induction false} MergeLoopConserves(nodes: seq<Node>, lost: seq<Node>)
    ensures var r := MergeLoop(nodes, lost);
      multiset(Forest(nodes)) + multiset(Forest(lost)) ==
        multiset(RootLeaves(r.root)) + multiset(Forest(r.lost))
    decreases |nodes|
  {
    if |nodes| < 2 {
      ForestAppend(lost, nodes);
      assert RootLeaves(None) == [];
    } else {
      var m := Merge(nodes[0], nodes[1]);
      var next := Inserted(nodes[2..], m);
      var lost' := if |next| == |nodes[2..]| then lost + [m] else lost;
      MergeStepLeaves(nodes, lost);
      MergeLoopUnfold(nodes, lost);
      if |next| == 2 {
        FinalMergeLeaves(next);
      } else {
        MergeLoopConserves(next, lost');
      }
    }
  }

  lemma FinalMergeLeaves(next: seq<Node>)
    requires |next| == 2
    ensures LeafEntries(Merge(next[0], next[1])) == Forest(next)
  {
    assert next == [next[0]] + [next[1]];
    ForestAppend([next[0]], [next[1]]);
    ForestSingle(next[0]);
    ForestSingle(next[1]);
  }

  /** Every node the loop creates is internal with the sum of its children's
      keys as its key: from well-weighted nodes it builds a well-weighted root. */
  lemma {:induction false} MergeLoopWellWeighted(nodes: seq<Node>, lost: seq<Node>)
    requires forall x :: x in nodes ==> WellWeighted(x)
    requires forall x :: x in lost ==> WellWeighted(x)
    ensures var r := MergeLoop(nodes, lost);
      && (r.root.Some? ==> r.root.value.Internal? && WellWeighted(r.root.value))
      && (forall x :: x in r.lost ==> WellWeighted(x))
    decreases |nodes|
  {
    if |nodes| >= 2 {
      var m := Merge(nodes[0], nodes[1]);
      var rest := nodes[2..];
      var next := Inserted(rest, m);
      var lost' := if |next| == |rest| then lost + [m] else lost;
      InsertedLeaves(rest, m);
      assert nodes[0] in nodes && nodes[1] in nodes;
      assert WellWeighted(m);
      assert forall x :: x in rest ==> x in nodes;
      assert forall x :: x in next ==> WellWeighted(x);
      assert forall x :: x in lost' ==> WellWeighted(x);
      MergeLoopUnfold(nodes, lost);
      if |next| == 2 {
        assert next[0] in next && next[1] in next;
      } else {
        MergeLoopWellWeighted(next, lost');
      }
    } else {
      assert forall x :: x in lost + nodes ==> x in lost || x in nodes;
    }
  }

  /** A run on two or more nodes that ends in the IndexError has lost a node. */
  lemma {:induction false} FailureLoses(nodes: seq<Node>, lost: seq<Node>)
    requires |nodes| >= 2
    ensures var r := MergeLoop(nodes, lost);
      r.status == PopFromEmpty ==> |r.lost| > |lost|
    decreases |nodes|
  {
    var m := Merge(nodes[0], nodes[1]);
    var rest := nodes[2..];
    var next := Inserted(rest, m);
    var lost' := if |next| == |rest| then lost + [m] else lost;
    InsertedLeaves(rest, m);
    if |next| >= 3 {
      FailureLoses(next, lost');
    }
  }

  /** The shape of a build's outcome. One node becomes the root and stays in
      `nodeList`; otherwise `nodeList` ends empty. The root is set exactly when
      the build does not fail. No node or two nodes make `pop(0)` fail: with two,
      the merged node is dropped into the emptied list. */
  lemma BuildTreeShape(nodes: seq<Node>)
    ensures var r := BuildTree(nodes);
      && (r.status == Built <==> r.root.Some?)
      && (|nodes| == 1 ==> r.status == Built && r.nodes == nodes && r.root == Some(nodes[0]) && r.lost == [])
      && (|nodes| != 1 ==> r.nodes == [])
      && (|nodes| == 0 ==> r.status == PopFromEmpty && r.lost == [])
      && (|nodes| == 2 ==> r.status == PopFromEmpty && r.lost == [Merge(nodes[0], nodes[1])])
  {
    if |nodes| == 2 {
      var m := Merge(nodes[0], nodes[1]);
      assert Inserted(nodes[2..], m) == [];
      assert MergeLoop(nodes, []) == MergeLoop([], [m]);
    }
  }

  /** A single node is both the root and the whole of `nodeList`. Otherwise
      the leaves of the root and of the lost nodes are together exactly the
      leaves of the nodes the build started with. */
  lemma BuildTreeConserves(nodes: seq<Node>)
    ensures var r := BuildTree(nodes);
      && (|nodes| == 1 ==> RootLeaves(r.root) == Forest(r.nodes) == Forest(nodes))
      && (|nodes| != 1 ==>
            multiset(Forest(nodes)) == multiset(RootLeaves(r.root)) + multiset(Forest(r.lost)))
  {
    if |nodes| == 1 {
      ForestSingle(nodes[0]);
    } else {
      MergeLoopConserves(nodes, []);
    }
  }

  /** From well-weighted nodes (leaves in particular) a build gives a
      well-weighted root, internal unless it was the one and only node. */
  lemma BuildTreeWellWeighted(nodes: seq<Node>)
    requires forall x :: x in nodes ==> WellWeighted(x)
    ensures var r := BuildTree(nodes);
      && (r.root.Some? ==> WellWeighted(r.root.value))
      && (r.root.Some? && |nodes| != 1 ==> r.root.value.Internal?)
  {
    if |nodes| != 1 {
      MergeLoopWellWeighted(nodes, []);
    }
  }

  /** When no merged node is dropped, the build ends normally with `nodeList`
      empty (or with the single node), and the root's leaves are exactly the
      leaves it started with. */
  lemma BuildTreeNoLoss(nodes: seq<Node>)
    requires |nodes| >= 1
    requires BuildTree(nodes).lost == []
    ensures var r := BuildTree(nodes);
      && r.status == Built
      && (|nodes| >= 2 ==> r.nodes == [])
      && multiset(RootLeaves(r.root)) == multiset(Forest(nodes))
  {
    BuildTreeConserves(nodes);
    assert Forest([]) == [];
    if |nodes| >= 2 {
      FailureLoses(nodes, []);
    }
  }

  /** Leaves a:1, b:1, c:5, in queue order: the merged node of key 2 finds
      no key at most 2 in `[c:5]` and is dropped, and the next turn's second
      pop fails. */
  lemma DroppedMergeExample()
    ensures var a, b, c := Leaf('a', 1), Leaf('b', 1), Leaf('c', 5);
      BuildTree([a, b, c]) == Run(PopFromEmpty, [], None, [Merge(a, b), c])
  {
    var a, b, c := Leaf('a', 1), Leaf('b', 1), Leaf('c', 5);
    assert [a, b, c][2..] == [c];
    assert Inserted([c], Merge(a, b)) == [c];
    MergeLoopUnfold([a, b, c], []);
    MergeLoopShort([c], [Merge(a, b)]);
  }

  /** A dropped merge need not end in the IndexError: for leaves a:1, b:1,
      c:5, d:5, e:5 in queue order the merged node of key 2 is dropped, and
      the build still ends normally with a root that has lost a and b. */
  lemma DroppedMergeBuilt()
    ensures var a, b, c, d, e := Leaf('a', 1), Leaf('b', 1), Leaf('c', 5), Leaf('d', 5), Leaf('e', 5);
      BuildTree([a, b, c, d, e]) == Run(Built, [], Some(Merge(Merge(c, d), e)), [Merge(a, b)])
  {
    var a, b, c, d, e := Leaf('a', 1), Leaf('b', 1), Leaf('c', 5), Leaf('d', 5), Leaf('e', 5);
    assert [a, b, c, d, e][2..] == [c, d, e];
    assert [c, d, e][2..] == [e];
    assert Inserted([c, d, e], Merge(a, b)) == [c, d, e];
    assert Inserted([e], Merge(c, d)) == [Merge(c, d), e];
    MergeLoopUnfold([a, b, c, d, e], []);
    MergeLoopUnfold([c, d, e], [Merge(a, b)]);
  }
}
