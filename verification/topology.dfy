/** The network as `probOfNodeAndParent` sees it (util/mainHelper.py): a
    `defaultdict(list)` from a parent node index to its `(child, edge)`
    pairs, and the nodes reachable from the root, node 0. */
module Topology {

  /** One `(child, edge)` pair of a parent's adjacency list. */
  datatype Arc = Arc(child: nat, edge: nat)

  /** The adjacency map; a missing key is the empty list, as with
      `defaultdict(list)`. */
  type Graph = map<nat, seq<Arc>>

  const Root: nat := 0

  /** `graph[parent]`. */
  function Arcs(g: Graph, p: nat): (arcs: seq<Arc>)
    ensures p !in g ==> arcs == []
  {
    if p in g then g[p] else []
  }

  /** `rank` witnesses that the part of the graph it covers, which includes
      the root, has no cycle: every arc leads from a ranked node to a ranked
      node of strictly smaller rank. */
  ghost predicate Ranked(g: Graph, rank: map<nat, nat>)
  {
    && Root in rank
    && forall p, k :: p in rank && 0 <= k < |Arcs(g, p)| ==>
         Arcs(g, p)[k].child in rank && rank[Arcs(g, p)[k].child] < rank[p]
  }

  /** Every arc of `arcs` leads to a ranked node of rank below `bound`. */
  ghost predicate ArcsBelow(rank: map<nat, nat>, arcs: seq<Arc>, bound: nat)
  {
    forall k :: 0 <= k < |arcs| ==> arcs[k].child in rank && rank[arcs[k].child] < bound
  }

  /** The number of paths that start at `p`; the breadth-first walk pops
      `p` once per such path. */
  ghost function Weight(g: Graph, rank: map<nat, nat>, p: nat): (w: nat)
    requires Ranked(g, rank) && p in rank
    ensures w >= 1
    decreases rank[p], 1, 0
  {
    1 + ArcsWeight(g, rank, Arcs(g, p), rank[p])
  }

  ghost function ArcsWeight(g: Graph, rank: map<nat, nat>, arcs: seq<Arc>, bound: nat): nat
    requires Ranked(g, rank) && ArcsBelow(rank, arcs, bound)
    decreases bound, 0, |arcs|
  {
    if |arcs| == 0 then 0
    else Weight(g, rank, arcs[0].child) + ArcsWeight(g, rank, arcs[1..], bound)
  }

  /** The weight still to be queued from the arcs of `p` after the first `i`. */
  ghost function RemainingWeight(g: Graph, rank: map<nat, nat>, p: nat, i: nat): nat
    requires Ranked(g, rank) && p in rank && i <= |Arcs(g, p)|
  {
    var arcs := Arcs(g, p);
    assert ArcsBelow(rank, arcs[i..], rank[p]) by {
      forall k | 0 <= k < |arcs[i..]|
        ensures arcs[i..][k].child in rank && rank[arcs[i..][k].child] < rank[p]
      {
        assert arcs[i..][k] == arcs[i + k];
      }
    }
    ArcsWeight(g, rank, arcs[i..], rank[p])
  }

  /** The total weight of the nodes waiting in a queue. */
  ghost function QueueWeight(g: Graph, rank: map<nat, nat>, q: seq<nat>): nat
    requires Ranked(g, rank) && forall i :: 0 <= i < |q| ==> q[i] in rank
  {
    if |q| == 0 then 0 else Weight(g, rank, q[0]) + QueueWeight(g, rank, q[1..])
  }

  lemma {:induction false} QueueWeightAppend(g: Graph, rank: map<nat, nat>, q: seq<nat>, c: nat)
    requires Ranked(g, rank) && (forall i :: 0 <= i < |q| ==> q[i] in rank) && c in rank
    ensures QueueWeight(g, rank, q + [c]) == QueueWeight(g, rank, q) + Weight(g, rank, c)
  {
    if |q| == 0 {
      assert (q + [c])[1..] == [];
    } else {
      assert (q + [c])[0] == q[0];
      assert (q + [c])[1..] == q[1..] + [c];
      QueueWeightAppend(g, rank, q[1..], c);
    }
  }

  /** A node's weight counts itself and the weight of all its arcs. */
  lemma WeightStart(g: Graph, rank: map<nat, nat>, p: nat)
    requires Ranked(g, rank) && p in rank
    ensures Weight(g, rank, p) == 1 + RemainingWeight(g, rank, p, 0)
  {
    assert Arcs(g, p)[0..] == Arcs(g, p);
  }

  /** Splitting off the next arc of a node. */
  lemma RemainingWeightStep(g: Graph, rank: map<nat, nat>, p: nat, i: nat)
    requires Ranked(g, rank) && p in rank && i < |Arcs(g, p)|
    ensures Arcs(g, p)[i].child in rank
    ensures RemainingWeight(g, rank, p, i)
         == Weight(g, rank, Arcs(g, p)[i].child) + RemainingWeight(g, rank, p, i + 1)
  {
    var arcs := Arcs(g, p);
    assert arcs[i..][0] == arcs[i];
    assert arcs[i..][1..] == arcs[i + 1..];
  }

  /** The nodes reachable from `p`, `p` included. */
  ghost function Reach(g: Graph, rank: map<nat, nat>, p: nat): set<nat>
    requires Ranked(g, rank) && p in rank
    decreases rank[p], 1, 0
  {
    {p} + ReachArcs(g, rank, Arcs(g, p), rank[p])
  }

  ghost function ReachArcs(g: Graph, rank: map<nat, nat>, arcs: seq<Arc>, bound: nat): set<nat>
    requires Ranked(g, rank) && ArcsBelow(rank, arcs, bound)
    decreases bound, 0, |arcs|
  {
    if |arcs| == 0 then {}
    else Reach(g, rank, arcs[0].child) + ReachArcs(g, rank, arcs[1..], bound)
  }

  /** The nodes reachable from the root. */
  ghost function Reachable(g: Graph, rank: map<nat, nat>): set<nat>
    requires Ranked(g, rank)
  {
    Reach(g, rank, Root)
  }

  /** Everything reachable from a ranked node is ranked no higher. */
  lemma {:induction false} ReachRanked(g: Graph, rank: map<nat, nat>, p: nat, x: nat)
    requires Ranked(g, rank) && p in rank && x in Reach(g, rank, p)
    ensures x in rank && rank[x] <= rank[p]
    decreases rank[p], 1, 0
  {
    if x != p {
      ReachArcsRanked(g, rank, Arcs(g, p), rank[p], x);
    }
  }

  lemma {:induction false} ReachArcsRanked(g: Graph, rank: map<nat, nat>, arcs: seq<Arc>, bound: nat, x: nat)
    requires Ranked(g, rank) && ArcsBelow(rank, arcs, bound) && x in ReachArcs(g, rank, arcs, bound)
    ensures x in rank && rank[x] < bound
    decreases bound, 0, |arcs|
  {
    if x in Reach(g, rank, arcs[0].child) {
      ReachRanked(g, rank, arcs[0].child, x);
    } else {
      assert ArcsBelow(rank, arcs[1..], bound);
      ReachArcsRanked(g, rank, arcs[1..], bound, x);
    }
  }

  /** Every node reachable through one of `arcs`. */
  lemma {:induction false} ReachArcsContains(g: Graph, rank: map<nat, nat>, arcs: seq<Arc>, bound: nat, k: nat)
    requires Ranked(g, rank) && ArcsBelow(rank, arcs, bound) && k < |arcs|
    ensures Reach(g, rank, arcs[k].child) <= ReachArcs(g, rank, arcs, bound)
    decreases |arcs|
  {
    if k > 0 {
      assert arcs[1..][k - 1] == arcs[k];
      ReachArcsContains(g, rank, arcs[1..], bound, k - 1);
    }
  }

  /** The reachable set is closed under arcs. */
  lemma {:induction false} ReachClosed(g: Graph, rank: map<nat, nat>, p: nat, x: nat, k: nat)
    requires Ranked(g, rank) && p in rank && x in Reach(g, rank, p) && k < |Arcs(g, x)|
    ensures Arcs(g, x)[k].child in Reach(g, rank, p)
    decreases rank[p], 1, 0
  {
    if x == p {
      ReachArcsContains(g, rank, Arcs(g, p), rank[p], k);
    } else {
      ReachArcsClosed(g, rank, Arcs(g, p), rank[p], x, k);
    }
  }

  lemma {:induction false} ReachArcsClosed(g: Graph, rank: map<nat, nat>, arcs: seq<Arc>, bound: nat, x: nat, k: nat)
    requires Ranked(g, rank) && ArcsBelow(rank, arcs, bound) && x in ReachArcs(g, rank, arcs, bound)
    requires k < |Arcs(g, x)|
    ensures Arcs(g, x)[k].child in ReachArcs(g, rank, arcs, bound)
    decreases bound, 0, |arcs|
  {
    if x in Reach(g, rank, arcs[0].child) {
      ReachClosed(g, rank, arcs[0].child, x, k);
    } else {
      assert ArcsBelow(rank, arcs[1..], bound);
      ReachArcsClosed(g, rank, arcs[1..], bound, x, k);
    }
  }

  /** A set of nodes closed under arcs. */
  ghost predicate Closed(g: Graph, s: set<nat>)
  {
    forall p, k :: p in s && 0 <= k < |Arcs(g, p)| ==> Arcs(g, p)[k].child in s
  }

  /** The reachable set is the least closed set holding its start. */
  lemma {:induction false} ReachLeast(g: Graph, rank: map<nat, nat>, p: nat, s: set<nat>)
    requires Ranked(g, rank) && p in rank && p in s && Closed(g, s)
    ensures Reach(g, rank, p) <= s
    decreases rank[p], 1, 0
  {
    ReachArcsLeast(g, rank, Arcs(g, p), rank[p], s);
  }

  lemma {:induction false} ReachArcsLeast(g: Graph, rank: map<nat, nat>, arcs: seq<Arc>, bound: nat, s: set<nat>)
    requires Ranked(g, rank) && ArcsBelow(rank, arcs, bound) && Closed(g, s)
    requires forall k :: 0 <= k < |arcs| ==> arcs[k].child in s
    ensures ReachArcs(g, rank, arcs, bound) <= s
    decreases bound, 0, |arcs|
  {
    if |arcs| > 0 {
      ReachLeast(g, rank, arcs[0].child, s);
      assert ArcsBelow(rank, arcs[1..], bound);
      ReachArcsLeast(g, rank, arcs[1..], bound, s);
    }
  }

  /** No reachable arc leads back to the root. */
  lemma RootNotTarget(g: Graph, rank: map<nat, nat>, x: nat, k: nat)
    requires Ranked(g, rank) && x in Reachable(g, rank) && k < |Arcs(g, x)|
    ensures Arcs(g, x)[k].child != Root
  {
    ReachRanked(g, rank, Root, x);
  }

  /** Among reachable nodes, every node is the target of at most one arc:
      the reachable part of the graph is a tree rooted at node 0. */
  ghost predicate IsTree(g: Graph, rank: map<nat, nat>)
    requires Ranked(g, rank)
  {
    forall p1, k1, p2, k2 ::
      p1 in Reachable(g, rank) && p2 in Reachable(g, rank)
      && 0 <= k1 < |Arcs(g, p1)| && 0 <= k2 < |Arcs(g, p2)|
      && Arcs(g, p1)[k1].child == Arcs(g, p2)[k2].child
      ==> p1 == p2 && k1 == k2
  }
}
