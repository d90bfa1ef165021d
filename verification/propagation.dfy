/** `probOfNodeAndParent` (util/mainHelper.py, and its older copy in
    mainHelper.py): a breadth-first walk from the root that folds every
    parent's updated outage bounds, and those of the connecting edge, into
    each child. */
module Propagation {
  import opened Wrappers
  import opened Topology
  import InclusionExclusion

  /** A `[low, high]` pair of outage probabilities. */
  datatype Bound = Bound(low: real, high: real)

  /** Both entries are probabilities. */
  predicate InRange(b: Bound)
  {
    0.0 <= b.low <= 1.0 && 0.0 <= b.high <= 1.0
  }

  predicate AllInRange(bs: seq<Bound>)
  {
    forall i :: 0 <= i < |bs| ==> InRange(bs[i])
  }

  /** `a` is entry-wise at least `b`. */
  predicate Dominates(a: Bound, b: Bound)
  {
    a.low >= b.low && a.high >= b.high
  }

  /** The update of one child: for each of the two entries, the probability
      that the parent, the child itself or the connecting edge fails. */
  function Fold(parent: Bound, child: Bound, edge: Bound): Bound
  {
    Bound(InclusionExclusion.InclusionExclusion([parent.low, child.low, edge.low]),
          InclusionExclusion.InclusionExclusion([parent.high, child.high, edge.high]))
  }

  /** Each entry of a fold is `1 - (1 - p)(1 - c)(1 - e)`. */
  lemma FoldClosedForm(parent: Bound, child: Bound, edge: Bound)
    ensures Fold(parent, child, edge).low
         == parent.low + child.low + edge.low - parent.low * child.low - parent.low * edge.low
            - child.low * edge.low + parent.low * child.low * edge.low
    ensures Fold(parent, child, edge).high
         == parent.high + child.high + edge.high - parent.high * child.high - parent.high * edge.high
            - child.high * edge.high + parent.high * child.high * edge.high
  {
    InclusionExclusion.ThreeEvents(parent.low, child.low, edge.low);
    InclusionExclusion.ThreeEvents(parent.high, child.high, edge.high);
  }

  /** Folding probabilities gives probabilities that are at least those of
      the parent, of the child and of the edge. */
  lemma FoldBounds(parent: Bound, child: Bound, edge: Bound)
    requires InRange(parent) && InRange(child) && InRange(edge)
    ensures InRange(Fold(parent, child, edge))
    ensures Dominates(Fold(parent, child, edge), parent)
    ensures Dominates(Fold(parent, child, edge), child)
    ensures Dominates(Fold(parent, child, edge), edge)
  {
    var lows, highs := [parent.low, child.low, edge.low], [parent.high, child.high, edge.high];
    assert InclusionExclusion.AreProbabilities(lows);
    assert InclusionExclusion.AreProbabilities(highs);
    InclusionExclusion.UnionAtLeastEach(lows, 0);
    InclusionExclusion.UnionAtLeastEach(lows, 1);
    InclusionExclusion.UnionAtLeastEach(lows, 2);
    InclusionExclusion.UnionAtLeastEach(highs, 0);
    InclusionExclusion.UnionAtLeastEach(highs, 1);
    InclusionExclusion.UnionAtLeastEach(highs, 2);
  }

  /** Every arc the walk follows names an existing parent, child and edge:
      otherwise the list indexing raises `IndexError`. */
  ghost predicate ValidArcs(g: Graph, rank: map<nat, nat>, nodes: nat, edges: nat)
    requires Ranked(g, rank)
  {
    forall p, k :: p in Reachable(g, rank) && 0 <= k < |Arcs(g, p)| ==> ValidArc(g, p, k, nodes, edges)
  }

  /** Arc `k` of `p` names an existing parent, child and edge. */
  predicate ValidArc(g: Graph, p: nat, k: nat, nodes: nat, edges: nat)
    requires k < |Arcs(g, p)|
  {
    p < nodes && Arcs(g, p)[k].child < nodes && Arcs(g, p)[k].edge < edges
  }

  /** Along the tree, every child holds the fold of its parent's bounds,
      its own original ones and its edge's. */
  ghost predicate FoldedAlongTree(g: Graph, rank: map<nat, nat>, probN: seq<Bound>, probE: seq<Bound>, cur: seq<Bound>)
    requires Ranked(g, rank)
  {
    forall p, k :: p in Reachable(g, rank) && 0 <= k < |Arcs(g, p)| ==> FoldedArc(g, probN, probE, cur, p, k)
  }

  // ---------------------------------------------------------------------
  // The state of the walk and what stays true of it.

  /** The values computed so far, the queue, and two ghost sets: the nodes
      whose whole adjacency list has been processed (`done`) and the nodes
      that have been written as a child (`hit`). */
  datatype Walk = Walk(cur: seq<Bound>, queue: seq<nat>, done: set<nat>, hit: set<nat>)

  /** Every queued node is ranked, reachable, and either the root or a
      node already written. */
  ghost predicate QueueOk(rank: map<nat, nat>, reach: set<nat>, w: Walk)
  {
    forall j :: 0 <= j < |w.queue| ==>
      w.queue[j] in rank && w.queue[j] in reach && (w.queue[j] == Root || w.queue[j] in w.hit)
  }

  ghost predicate SetsOk(reach: set<nat>, w: Walk)
  {
    w.done <= reach && w.done <= w.hit + {Root} && w.hit <= reach - {Root}
  }

  /** Every child of a processed node is processed, queued or in `extra`. */
  ghost predicate Frontier(g: Graph, w: Walk, extra: set<nat>)
  {
    forall p, k :: p in w.done && 0 <= k < |Arcs(g, p)| ==>
      Arcs(g, p)[k].child in w.done || Arcs(g, p)[k].child in w.queue || Arcs(g, p)[k].child in extra
  }

  /** Every arc of a processed node had valid indices and wrote its child. */
  ghost predicate DoneValid(g: Graph, nodes: nat, edges: nat, w: Walk)
  {
    forall p, k :: p in w.done && 0 <= k < |Arcs(g, p)| ==>
      ValidArc(g, p, k, nodes, edges) && Arcs(g, p)[k].child in w.hit
  }

  /** Nodes never written keep their original bounds. */
  ghost predicate Untouched(probN: seq<Bound>, w: Walk)
  {
    |w.cur| == |probN| && forall x :: 0 <= x < |w.cur| && x !in w.hit ==> w.cur[x] == probN[x]
  }

  /** With probability inputs, the values are probabilities that dominate
      the originals. */
  ghost predicate Grows(probN: seq<Bound>, probE: seq<Bound>, w: Walk)
    requires |w.cur| == |probN|
  {
    AllInRange(probN) && AllInRange(probE) ==>
      AllInRange(w.cur) && forall x :: 0 <= x < |w.cur| ==> Dominates(w.cur[x], probN[x])
  }

  ghost predicate Distinct(q: seq<nat>)
  {
    forall i, j :: 0 <= i < j < |q| ==> q[i] != q[j]
  }

  /** No arc of a reachable node outside `excluded` has written its child. */
  ghost predicate Fresh(g: Graph, reach: set<nat>, excluded: set<nat>, w: Walk)
  {
    forall p, k :: p in reach && p !in excluded && 0 <= k < |Arcs(g, p)| ==>
      Arcs(g, p)[k].child !in w.hit
  }

  /** The child of arc `k` of `p` holds the fold of `p`'s current bounds,
      its own original ones and its edge's. */
  ghost predicate FoldedArc(g: Graph, probN: seq<Bound>, probE: seq<Bound>, cur: seq<Bound>, p: nat, k: nat)
    requires k < |Arcs(g, p)|
  {
    var a := Arcs(g, p)[k];
    a.child < |cur| && p < |cur| && a.child < |probN| && a.edge < |probE|
    && cur[a.child] == Fold(cur[p], probN[a.child], probE[a.edge])
  }

  ghost predicate Folded(g: Graph, probN: seq<Bound>, probE: seq<Bound>, w: Walk)
  {
    forall p, k :: p in w.done && 0 <= k < |Arcs(g, p)| ==> FoldedArc(g, probN, probE, w.cur, p, k)
  }

  /** What holds at the head of the outer loop. */
  ghost predicate OuterInv(g: Graph, rank: map<nat, nat>, probN: seq<Bound>, probE: seq<Bound>, w: Walk)
    requires Ranked(g, rank)
  {
    var reach := Reachable(g, rank);
    && SetsOk(reach, w) && QueueOk(rank, reach, w)
    && (Root in w.done || Root in w.queue)
    && Frontier(g, w, {})
    && DoneValid(g, |probN|, |probE|, w)
    && Untouched(probN, w) && Grows(probN, probE, w)
    && (IsTree(g, rank) ==>
          && Distinct(w.queue)
          && (forall j :: 0 <= j < |w.queue| ==> w.queue[j] !in w.done)
          && Fresh(g, reach, w.done, w)
          && Folded(g, probN, probE, w))
  }

  /** What holds while the arcs of `parent` are processed, the first `i` of
      them already done. */
  ghost predicate InnerInv(g: Graph, rank: map<nat, nat>, probN: seq<Bound>, probE: seq<Bound>,
                           w: Walk, parent: nat, i: nat)
    requires Ranked(g, rank)
  {
    var reach := Reachable(g, rank);
    var arcs := Arcs(g, parent);
    && i <= |arcs|
    && parent in rank && parent in reach && (parent == Root || parent in w.hit)
    && SetsOk(reach, w) && QueueOk(rank, reach, w)
    && (Root in w.done || Root in w.queue || Root == parent)
    && Frontier(g, w, {parent})
    && (forall k :: 0 <= k < i ==> arcs[k].child in w.queue)
    && DoneValid(g, |probN|, |probE|, w)
    && (forall k :: 0 <= k < i ==> ValidArc(g, parent, k, |probN|, |probE|) && arcs[k].child in w.hit)
    && Untouched(probN, w) && Grows(probN, probE, w)
    && (IsTree(g, rank) ==>
          && Distinct(w.queue)
          && (forall j :: 0 <= j < |w.queue| ==> w.queue[j] !in w.done && w.queue[j] != parent)
          && parent !in w.done
          && Fresh(g, reach, w.done + {parent}, w)
          && (forall k :: i <= k < |arcs| ==> arcs[k].child !in w.hit)
          && Folded(g, probN, probE, w)
          && (forall k :: 0 <= k < i ==> FoldedArc(g, probN, probE, w.cur, parent, k)))
  }

  /** The update the walk makes for arc `i` of `parent`. */
  function Relax(g: Graph, probE: seq<Bound>, w: Walk, parent: nat, i: nat): Walk
    requires i < |Arcs(g, parent)|
    requires parent < |w.cur| && Arcs(g, parent)[i].child < |w.cur| && Arcs(g, parent)[i].edge < |probE|
  {
    var a := Arcs(g, parent)[i];
    Walk(w.cur[a.child := Fold(w.cur[parent], w.cur[a.child], probE[a.edge])],
         w.queue + [a.child], w.done, w.hit + {a.child})
  }

  lemma InitialInv(g: Graph, rank: map<nat, nat>, probN: seq<Bound>, probE: seq<Bound>)
    requires Ranked(g, rank)
    ensures OuterInv(g, rank, probN, probE, Walk(probN, [Root], {}, {}))
  {
    assert Root in Reachable(g, rank);
  }

  /** Facts that only read `done` and `hit` survive a step that keeps
      `done` and only adds to `hit`. */
  lemma DoneValidFrame(g: Graph, nodes: nat, edges: nat, w: Walk, w': Walk)
    requires DoneValid(g, nodes, edges, w) && w'.done == w.done && w.hit <= w'.hit
    ensures DoneValid(g, nodes, edges, w')
  {
    forall p, k | p in w'.done && 0 <= k < |Arcs(g, p)|
      ensures ValidArc(g, p, k, nodes, edges) && Arcs(g, p)[k].child in w'.hit
    {
      assert p in w.done;
    }
  }

  lemma PopStep(g: Graph, rank: map<nat, nat>, probN: seq<Bound>, probE: seq<Bound>, w: Walk)
    requires Ranked(g, rank) && OuterInv(g, rank, probN, probE, w) && |w.queue| > 0
    ensures InnerInv(g, rank, probN, probE, w.(queue := w.queue[1..]), w.queue[0], 0)
  {
    var w' := w.(queue := w.queue[1..]);
    var parent := w.queue[0];
    assert Untouched(probN, w) && Grows(probN, probE, w);
    assert w'.done == w.done && w'.hit == w.hit && w'.cur == w.cur;
    DoneValidFrame(g, |probN|, |probE|, w, w');
    forall p, k | p in w'.done && 0 <= k < |Arcs(g, p)|
      ensures Arcs(g, p)[k].child in w'.done || Arcs(g, p)[k].child in w'.queue || Arcs(g, p)[k].child == parent
    {
      var c := Arcs(g, p)[k].child;
      if c in w.queue && c != parent {
        var j :| 0 <= j < |w.queue| && w.queue[j] == c;
        assert w'.queue[j - 1] == c;
      }
    }
    if IsTree(g, rank) {
      forall j | 0 <= j < |w'.queue|
        ensures w'.queue[j] != parent
      {
        assert w.queue[j + 1] == w'.queue[j];
      }
    }
  }

  /** Relaxing one arc with valid indices keeps the inner invariant. */
  lemma RelaxStep(g: Graph, rank: map<nat, nat>, probN: seq<Bound>, probE: seq<Bound>,
                  w: Walk, parent: nat, i: nat)
    requires Ranked(g, rank) && InnerInv(g, rank, probN, probE, w, parent, i) && i < |Arcs(g, parent)|
    requires parent < |w.cur| && Arcs(g, parent)[i].child < |w.cur| && Arcs(g, parent)[i].edge < |probE|
    ensures InnerInv(g, rank, probN, probE, Relax(g, probE, w, parent, i), parent, i + 1)
  {
    RelaxShape(g, rank, probN, probE, w, parent, i);
    if IsTree(g, rank) {
      RelaxTree(g, rank, probN, probE, w, parent, i);
    }
  }

  /** The part of `InnerInv` that holds of every graph, after relaxing arc `i`. */
  lemma RelaxShape(g: Graph, rank: map<nat, nat>, probN: seq<Bound>, probE: seq<Bound>,
                   w: Walk, parent: nat, i: nat)
    requires Ranked(g, rank) && InnerInv(g, rank, probN, probE, w, parent, i) && i < |Arcs(g, parent)|
    requires parent < |w.cur| && Arcs(g, parent)[i].child < |w.cur| && Arcs(g, parent)[i].edge < |probE|
    ensures var w' := Relax(g, probE, w, parent, i);
      var reach := Reachable(g, rank);
      var arcs := Arcs(g, parent);
      && w'.done == w.done
      && SetsOk(reach, w') && QueueOk(rank, reach, w')
      && (Root in w'.done || Root in w'.queue || Root == parent)
      && Frontier(g, w', {parent})
      && (parent == Root || parent in w'.hit)
      && (forall k :: 0 <= k < i + 1 ==> arcs[k].child in w'.queue)
      && DoneValid(g, |probN|, |probE|, w')
      && (forall k :: 0 <= k < i + 1 ==> ValidArc(g, parent, k, |probN|, |probE|) && arcs[k].child in w'.hit)
      && Untouched(probN, w') && Grows(probN, probE, w')
  {
    var reach := Reachable(g, rank);
    var w' := Relax(g, probE, w, parent, i);
    ReachClosed(g, rank, Root, parent, i);
    RootNotTarget(g, rank, parent, i);
    RelaxStructure(g, rank, reach, w, w', parent, i);
    DoneValidFrame(g, |probN|, |probE|, w, w');
    assert Untouched(probN, w);
    RelaxValues(g, rank, probN, probE, w, parent, i);
  }

  /** The bookkeeping of the queue and the two sets after relaxing arc `i`. */
  lemma RelaxStructure(g: Graph, rank: map<nat, nat>, reach: set<nat>, w: Walk, w': Walk, parent: nat, i: nat)
    requires Ranked(g, rank) && reach == Reachable(g, rank) && i < |Arcs(g, parent)|
    requires parent in rank && parent in reach && (parent == Root || parent in w.hit)
    requires SetsOk(reach, w) && QueueOk(rank, reach, w)
    requires Root in w.done || Root in w.queue || Root == parent
    requires Frontier(g, w, {parent})
    requires forall k :: 0 <= k < i ==> Arcs(g, parent)[k].child in w.queue
    requires w'.queue == w.queue + [Arcs(g, parent)[i].child] && w'.done == w.done
    requires w'.hit == w.hit + {Arcs(g, parent)[i].child}
    ensures SetsOk(reach, w') && QueueOk(rank, reach, w')
    ensures Root in w'.done || Root in w'.queue || Root == parent
    ensures Frontier(g, w', {parent})
    ensures forall k :: 0 <= k < i + 1 ==> Arcs(g, parent)[k].child in w'.queue
  {
    var c := Arcs(g, parent)[i].child;
    ReachClosed(g, rank, Root, parent, i);
    RootNotTarget(g, rank, parent, i);
    assert c in rank;
    assert w'.queue[|w.queue|] == c;
    assert forall x :: x in w.queue ==> x in w'.queue;
  }

  lemma RelaxValues(g: Graph, rank: map<nat, nat>, probN: seq<Bound>, probE: seq<Bound>,
                    w: Walk, parent: nat, i: nat)
    requires Ranked(g, rank) && InnerInv(g, rank, probN, probE, w, parent, i) && i < |Arcs(g, parent)|
    requires parent < |w.cur| && Arcs(g, parent)[i].child < |w.cur| && Arcs(g, parent)[i].edge < |probE|
    ensures var w' := Relax(g, probE, w, parent, i);
      Untouched(probN, w') && Grows(probN, probE, w')
  {
    var a := Arcs(g, parent)[i];
    var w' := Relax(g, probE, w, parent, i);
    if AllInRange(probN) && AllInRange(probE) {
      FoldBounds(w.cur[parent], w.cur[a.child], probE[a.edge]);
      assert Dominates(w'.cur[a.child], probN[a.child]);
    }
  }

  lemma RelaxTree(g: Graph, rank: map<nat, nat>, probN: seq<Bound>, probE: seq<Bound>,
                  w: Walk, parent: nat, i: nat)
    requires Ranked(g, rank) && InnerInv(g, rank, probN, probE, w, parent, i) && i < |Arcs(g, parent)|
    requires parent < |w.cur| && Arcs(g, parent)[i].child < |w.cur| && Arcs(g, parent)[i].edge < |probE|
    requires IsTree(g, rank)
    ensures var w' := Relax(g, probE, w, parent, i);
      var arcs := Arcs(g, parent);
      && Distinct(w'.queue)
      && (forall j :: 0 <= j < |w'.queue| ==> w'.queue[j] !in w'.done && w'.queue[j] != parent)
      && Fresh(g, Reachable(g, rank), w'.done + {parent}, w')
      && (forall k :: i + 1 <= k < |arcs| ==> arcs[k].child !in w'.hit)
      && Folded(g, probN, probE, w')
      && (forall k :: 0 <= k < i + 1 ==> FoldedArc(g, probN, probE, w'.cur, parent, k))
  {
    var reach := Reachable(g, rank);
    var arcs := Arcs(g, parent);
    var c := arcs[i].child;
    var w' := Relax(g, probE, w, parent, i);
    assert Untouched(probN, w);
    assert |w'.cur| == |w.cur| == |probN|;
    RootNotTarget(g, rank, parent, i);
    assert c !in w.hit && c != Root;
    assert c != parent;
    assert c !in w.done;
    assert w'.cur[parent] == w.cur[parent];
    assert w.cur[c] == probN[c];
    forall p, k | p in reach && p !in w'.done + {parent} && 0 <= k < |Arcs(g, p)|
      ensures Arcs(g, p)[k].child !in w'.hit
    {
      assert Arcs(g, p)[k].child != c;
    }
    forall k | i + 1 <= k < |arcs|
      ensures arcs[k].child !in w'.hit
    {
      assert arcs[k].child != c;
    }
    forall p, k | p in w'.done && 0 <= k < |Arcs(g, p)|
      ensures FoldedArc(g, probN, probE, w'.cur, p, k)
    {
      assert FoldedArc(g, probN, probE, w.cur, p, k);
      assert Arcs(g, p)[k].child in w.hit;
    }
    forall k | 0 <= k < i + 1
      ensures FoldedArc(g, probN, probE, w'.cur, parent, k)
    {
      if k < i {
        assert FoldedArc(g, probN, probE, w.cur, parent, k);
      }
    }
  }

  /** An arc with an out-of-range index makes the arcs invalid. */
  lemma RelaxError(g: Graph, rank: map<nat, nat>, probN: seq<Bound>, probE: seq<Bound>,
                   w: Walk, parent: nat, i: nat)
    requires Ranked(g, rank) && InnerInv(g, rank, probN, probE, w, parent, i) && i < |Arcs(g, parent)|
    requires !(parent < |w.cur| && Arcs(g, parent)[i].child < |w.cur| && Arcs(g, parent)[i].edge < |probE|)
    ensures !ValidArcs(g, rank, |probN|, |probE|)
  {
    assert Untouched(probN, w);
    assert parent in Reachable(g, rank);
    assert !ValidArc(g, parent, i, |probN|, |probE|);
  }

  lemma FinishStep(g: Graph, rank: map<nat, nat>, probN: seq<Bound>, probE: seq<Bound>, w: Walk, parent: nat)
    requires Ranked(g, rank) && InnerInv(g, rank, probN, probE, w, parent, |Arcs(g, parent)|)
    ensures OuterInv(g, rank, probN, probE, w.(done := w.done + {parent}))
  {
    var w' := w.(done := w.done + {parent});
    FinishStructure(g, rank, Reachable(g, rank), w, w', parent);
    FinishValid(g, |probN|, |probE|, w, w', parent);
    assert Untouched(probN, w) && Grows(probN, probE, w);
    if IsTree(g, rank) {
      FinishTree(g, rank, probN, probE, w, w', parent);
    }
  }

  lemma FinishStructure(g: Graph, rank: map<nat, nat>, reach: set<nat>, w: Walk, w': Walk, parent: nat)
    requires parent in reach && (parent == Root || parent in w.hit)
    requires SetsOk(reach, w) && QueueOk(rank, reach, w)
    requires Root in w.done || Root in w.queue || Root == parent
    requires Frontier(g, w, {parent})
    requires forall k :: 0 <= k < |Arcs(g, parent)| ==> Arcs(g, parent)[k].child in w.queue
    requires w' == w.(done := w.done + {parent})
    ensures SetsOk(reach, w') && QueueOk(rank, reach, w')
    ensures Root in w'.done || Root in w'.queue
    ensures Frontier(g, w', {})
  {
  }

  lemma FinishValid(g: Graph, nodes: nat, edges: nat, w: Walk, w': Walk, parent: nat)
    requires DoneValid(g, nodes, edges, w)
    requires forall k :: 0 <= k < |Arcs(g, parent)| ==>
               ValidArc(g, parent, k, nodes, edges) && Arcs(g, parent)[k].child in w.hit
    requires w' == w.(done := w.done + {parent})
    ensures DoneValid(g, nodes, edges, w')
  {
  }

  lemma FinishTree(g: Graph, rank: map<nat, nat>, probN: seq<Bound>, probE: seq<Bound>, w: Walk, w': Walk, parent: nat)
    requires Ranked(g, rank)
    requires Distinct(w.queue)
    requires forall j :: 0 <= j < |w.queue| ==> w.queue[j] !in w.done && w.queue[j] != parent
    requires Fresh(g, Reachable(g, rank), w.done + {parent}, w)
    requires Folded(g, probN, probE, w)
    requires forall k :: 0 <= k < |Arcs(g, parent)| ==> FoldedArc(g, probN, probE, w.cur, parent, k)
    requires w' == w.(done := w.done + {parent})
    ensures Distinct(w'.queue)
    ensures forall j :: 0 <= j < |w'.queue| ==> w'.queue[j] !in w'.done
    ensures Fresh(g, Reachable(g, rank), w'.done, w')
    ensures Folded(g, probN, probE, w')
  {
    forall p, k | p in w'.done && 0 <= k < |Arcs(g, p)|
      ensures FoldedArc(g, probN, probE, w'.cur, p, k)
    {
      if p != parent {
        assert FoldedArc(g, probN, probE, w.cur, p, k);
      }
    }
  }

  /** When the queue runs empty, everything reachable has been processed. */
  lemma Conclude(g: Graph, rank: map<nat, nat>, probN: seq<Bound>, probE: seq<Bound>, w: Walk)
    requires Ranked(g, rank) && OuterInv(g, rank, probN, probE, w) && |w.queue| == 0
    ensures ValidArcs(g, rank, |probN|, |probE|)
    ensures |w.cur| == |probN|
    ensures forall x :: 0 <= x < |probN| && (x == Root || x !in Reachable(g, rank)) ==> w.cur[x] == probN[x]
    ensures AllInRange(probN) && AllInRange(probE) ==>
              AllInRange(w.cur) && forall x :: 0 <= x < |probN| ==> Dominates(w.cur[x], probN[x])
    ensures IsTree(g, rank) ==> FoldedAlongTree(g, rank, probN, probE, w.cur)
  {
    assert Closed(g, w.done);
    ReachLeast(g, rank, Root, w.done);
  }

  /** The queue's weight falls by one for every node popped. */
  lemma WeightStep(g: Graph, rank: map<nat, nat>, queue: seq<nat>, parent: nat, i: nat, w0: nat)
    requires Ranked(g, rank) && parent in rank && i < |Arcs(g, parent)|
    requires forall j :: 0 <= j < |queue| ==> queue[j] in rank
    requires QueueWeight(g, rank, queue) + RemainingWeight(g, rank, parent, i) + 1 == w0
    ensures Arcs(g, parent)[i].child in rank
    ensures QueueWeight(g, rank, queue + [Arcs(g, parent)[i].child])
            + RemainingWeight(g, rank, parent, i + 1) + 1 == w0
  {
    RemainingWeightStep(g, rank, parent, i);
    QueueWeightAppend(g, rank, queue, Arcs(g, parent)[i].child);
  }

  /** `probOfNodeAndParent(probN, probE, graph)`. The walk only ends when
      the part of the graph reachable from the root has no cycle; `rank` is
      a ghost witness of that.

      The result keeps the root and every unreachable node as they were, and
      on a tree every child ends up as the fold of its parent's final bounds,
      its own original ones and its edge's. Probabilities stay
      probabilities and never decrease. */
  method ProbOfNodeAndParent(probN: seq<Bound>, probE: seq<Bound>, g: Graph, ghost rank: map<nat, nat>)
    returns (r: Result<seq<Bound>>)
    requires Ranked(g, rank)
    ensures r.Ok? <==> ValidArcs(g, rank, |probN|, |probE|)
    ensures r.Err? ==> r.error == IndexError
    ensures r.Ok? ==> |r.value| == |probN|
    ensures r.Ok? ==> forall x :: 0 <= x < |probN| && (x == Root || x !in Reachable(g, rank)) ==>
              r.value[x] == probN[x]
    ensures r.Ok? && AllInRange(probN) && AllInRange(probE) ==>
              AllInRange(r.value) && forall x :: 0 <= x < |probN| ==> Dominates(r.value[x], probN[x])
    ensures r.Ok? && IsTree(g, rank) ==> FoldedAlongTree(g, rank, probN, probE, r.value)
  {
    var cur := probN;
    var queue: seq<nat> := [Root];
    ghost var done: set<nat> := {};
    ghost var hit: set<nat> := {};
    InitialInv(g, rank, probN, probE);
    while |queue| > 0
      invariant OuterInv(g, rank, probN, probE, Walk(cur, queue, done, hit))
      decreases QueueWeight(g, rank, queue)
    {
      ghost var w0 := QueueWeight(g, rank, queue);
      PopStep(g, rank, probN, probE, Walk(cur, queue, done, hit));
      var parent := queue[0];
      queue := queue[1..];
      var arcs := Arcs(g, parent);
      WeightStart(g, rank, parent);
      var i := 0;
      while i < |arcs|
        invariant InnerInv(g, rank, probN, probE, Walk(cur, queue, done, hit), parent, i)
        invariant QueueWeight(g, rank, queue) + RemainingWeight(g, rank, parent, i) + 1 == w0
      {
        var c, e := arcs[i].child, arcs[i].edge;
        if parent >= |cur| || c >= |cur| || e >= |probE| {
          RelaxError(g, rank, probN, probE, Walk(cur, queue, done, hit), parent, i);
          return Err(IndexError);
        }
        RelaxStep(g, rank, probN, probE, Walk(cur, queue, done, hit), parent, i);
        WeightStep(g, rank, queue, parent, i, w0);
        cur := cur[c := Fold(cur[parent], cur[c], probE[e])];
        queue := queue + [c];
        hit := hit + {c};
        i := i + 1;
      }
      FinishStep(g, rank, probN, probE, Walk(cur, queue, done, hit), parent);
      done := done + {parent};
    }
    Conclude(g, rank, probN, probE, Walk(cur, queue, done, hit));
    return Ok(cur);
  }
}
