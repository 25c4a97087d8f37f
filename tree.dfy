/** The `Node` record of huffman.py as a value: a leaf carries a character and
    its frequency, an internal node carries the merged key and its two
    children. No node is ever shared, so a tree of values loses nothing. */
module Tree {
  import opened Frequency

  datatype Node =
    | Leaf(ch: char, key: nat)
    | Internal(key: nat, left: Node, right: Node)

  /** `Node(None, l.key + r.key, l, r)`, the merge step of the build. */
  function Merge(l: Node, r: Node): (m: Node)
    ensures m.Internal? && m.left == l && m.right == r
    ensures m.key == l.key + r.key
  {
    Internal(l.key + r.key, l, r)
  }

  function Size(t: Node): nat {
    match t
    case Leaf(_, _) => 1
    case Internal(_, l, r) => 1 + Size(l) + Size(r)
  }

  /** The leaves of `t` as frequency entries, from left to right. */
  function LeafEntries(t: Node): (q: seq<Entry>)
    ensures |q| >= 1
    ensures t.Leaf? ==> q == [Entry(t.ch, t.key)]
    ensures t.Internal? ==> |q| >= 2
  {
    match t
    case Leaf(c, k) => [Entry(c, k)]
    case Internal(_, l, r) => LeafEntries(l) + LeafEntries(r)
  }

  /** The leaves of a list of trees, tree after tree. */
  function Forest(ts: seq<Node>): seq<Entry> {
    if ts == [] then [] else LeafEntries(ts[0]) + Forest(ts[1..])
  }

  /** One leaf per queue entry, in queue order, as `make_node_list` creates them. */
  function LeafNodes(q: seq<Entry>): (ts: seq<Node>)
    ensures |ts| == |q|
    ensures forall i :: 0 <= i < |q| ==> ts[i] == Leaf(q[i].ch, q[i].count)
  {
    if q == [] then [] else [Leaf(q[0].ch, q[0].count)] + LeafNodes(q[1..])
  }

  /** Every internal node of `t` has the sum of its children's keys as its key. */
  predicate WellWeighted(t: Node) {
    match t
    case Leaf(_, _) => true
    case Internal(k, l, r) => k == l.key + r.key && WellWeighted(l) && WellWeighted(r)
  }

  lemma {:induction false} ForestAppend(a: seq<Node>, b: seq<Node>)
    ensures Forest(a + b) == Forest(a) + Forest(b)
  {
    if a == [] {
      assert a + b == b;
    } else {
      assert (a + b)[1..] == a[1..] + b;
      ForestAppend(a[1..], b);
    }
  }

  lemma ForestSingle(t: Node)
    ensures Forest([t]) == LeafEntries(t)
  {
    assert [t][1..] == [];
  }

  /** The leaves of the leaf list are the queue itself. */
  lemma {:induction false} ForestOfLeaves(q: seq<Entry>)
    ensures Forest(LeafNodes(q)) == q
  {
    if q != [] {
      ForestOfLeaves(q[1..]);
      assert LeafNodes(q)[1..] == LeafNodes(q[1..]);
    }
  }

  /** The key of a well-weighted tree is the total frequency of its leaves. */
  lemma {:induction false} KeyIsLeafTotal(t: Node)
    requires WellWeighted(t)
    ensures t.key == SumCounts(LeafEntries(t))
  {
    match t
    case Leaf(c, k) =>
      assert LeafEntries(t)[1..] == [];
    case Internal(_, l, r) =>
      KeyIsLeafTotal(l);
      KeyIsLeafTotal(r);
      SumCountsAppend(LeafEntries(l), LeafEntries(r));
  }

  /** Merging two well-weighted trees gives a well-weighted tree holding the
      leaves of the first popped node, then those of the second, keyed by
      their total frequency. */
  lemma MergeWeight(l: Node, r: Node)
    requires WellWeighted(l) && WellWeighted(r)
    ensures var m := Merge(l, r);
      && WellWeighted(m)
      && LeafEntries(m) == LeafEntries(l) + LeafEntries(r)
      && m.key == SumCounts(LeafEntries(l)) + SumCounts(LeafEntries(r))
  {
    KeyIsLeafTotal(l);
    KeyIsLeafTotal(r);
  }

  lemma LeafNodesAppend(a: seq<Entry>, b: seq<Entry>)
    ensures LeafNodes(a + b) == LeafNodes(a) + LeafNodes(b)
  {
    var x, y := LeafNodes(a + b), LeafNodes(a) + LeafNodes(b);
    assert |x| == |y|;
    forall i | 0 <= i < |x|
      ensures x[i] == y[i]
    {
      if i < |a| {
        assert (a + b)[i] == a[i];
      } else {
        assert (a + b)[i] == b[i - |a|];
      }
    }
  }

  /** A list of trees has no leaves only when it is empty. */
  lemma ForestEmpty(ts: seq<Node>)
    ensures Forest(ts) == [] <==> ts == []
  {
    if ts != [] {
      assert |LeafEntries(ts[0])| >= 1;
    }
  }
}
