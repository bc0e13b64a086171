/** Weighted graphs as the engine reads them, walks in them, and their weights. */
module Graphs {

  /** Adjacency map: node to (neighbour to non-negative edge weight). */
  type Graph<N> = map<N, map<N, nat>>

  /** Every neighbour named in the graph is itself a node of the graph. */
  ghost predicate Closed<N>(g: Graph<N>)
  {
    forall u, v :: u in g && v in g[u] ==> v in g
  }

  /** The step from position i - 1 to position i of w follows an edge of g. */
  ghost predicate Step<N>(g: Graph<N>, w: seq<N>, i: nat)
    requires 1 <= i < |w|
  {
    w[i - 1] in g && w[i] in g[w[i - 1]]
  }

  /** w is a non-empty walk: each node after the first is a neighbour of the one before it. */
  ghost predicate IsWalk<N>(g: Graph<N>, w: seq<N>)
  {
    && |w| >= 1
    && w[0] in g
    && forall i :: 1 <= i < |w| ==> Step(g, w, i)
  }

  /** Sum of the edge weights along a walk. */
  ghost function WalkWeight<N>(g: Graph<N>, w: seq<N>): int
    requires IsWalk(g, w)
    decreases |w|
  {
    if |w| == 1 then 0
    else
      WalkPrefix(g, w);
      assert Step(g, w, |w| - 1);
      WalkWeight(g, w[..|w| - 1]) + g[w[|w| - 2]][w[|w| - 1]]
  }

  /** Dropping the last node of a walk leaves a walk. */
  lemma WalkPrefix<N>(g: Graph<N>, w: seq<N>)
    requires IsWalk(g, w) && |w| > 1
    ensures IsWalk(g, w[..|w| - 1])
  {
    var w' := w[..|w| - 1];
    forall i | 1 <= i < |w'|
      ensures Step(g, w', i)
    {
      assert Step(g, w, i);
    }
  }

  /** No edge can be relaxed: every edge u -> v has dist[v] <= dist[u] + weight. */
  ghost predicate Feasible<N>(g: Graph<N>, dist: map<N, int>)
  {
    forall u, v :: u in g && v in g[u] ==> u in dist && v in dist && dist[v] <= dist[u] + g[u][v]
  }

  /**
   * A feasible distance map that is 0 at the source bounds the weight of every walk from
   * the source from below.
   */
  lemma {:induction false} FeasibleBoundsWalks<N>(g: Graph<N>, dist: map<N, int>, w: seq<N>)
    requires Feasible(g, dist) && IsWalk(g, w) && w[0] in dist && dist[w[0]] == 0
    ensures w[|w| - 1] in dist && dist[w[|w| - 1]] <= WalkWeight(g, w)
    decreases |w|
  {
    if |w| > 1 {
      var w' := w[..|w| - 1];
      WalkPrefix(g, w);
      FeasibleBoundsWalks(g, dist, w');
      assert Step(g, w, |w| - 1);
    }
  }
}
