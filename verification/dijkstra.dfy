/**
 * The eager Dijkstra engine of src/Dijkstra.php: every node is queued up front, the
 * constructor runs the relaxation loop to completion, and the results are queried
 * afterwards. The engine drives the corrected queue of module PriorityQueue.
 */
module Dijkstra {
  import opened Wrappers
  import opened Heap
  import opened PriorityQueue
  import opened Graphs

  /** The "infinite" distance given to nodes not reached yet (Dijkstra::INT_MAX). */
  const INT_MAX: int := 0x7FFF_FFFF

  /** The engine after construction: its inputs and the final distance and predecessor maps. */
  datatype Engine<N> = Engine(
    graph: Graph<N>,
    source: N,
    directed: bool,
    distances: map<N, int>,
    previous: map<N, Option<N>>)

  /** One entry of a reconstructed path: node, weight of the edge into it, weight from the source. */
  datatype Hop<N> = Hop(node: N, weight: int, accumulated: int)

  /** Failure of path reconstruction: the destination was never reached. */
  datatype PathError = Unreachable

  /**
   * getNeighbors: every neighbour for a directed graph; for an undirected graph only the
   * neighbours still waiting in the queue, with their weights unchanged.
   */
  function Neighbors<N>(g: Graph<N>, directed: bool, q: Queue<N>, origin: N): (r: map<N, nat>)
    requires origin in g
    ensures directed ==> r == g[origin]
    ensures !directed ==> forall v :: v in g[origin] ==> (v in r <==> Contains(q, v))
    ensures forall v :: v in r ==> v in g[origin] && r[v] == g[origin][v]
  {
    if directed then g[origin]
    else map v | v in g[origin] && Contains(q, v) :: g[origin][v]
  }

  /**
   * Reference result of relaxing the edges nb out of a node at distance du: a distance
   * changes exactly when the path through that node is strictly shorter.
   */
  function Relaxed<N>(dist: map<N, int>, du: int, nb: map<N, nat>): (d: map<N, int>)
    ensures d.Keys == dist.Keys
    ensures forall v :: v in d ==> d[v] <= dist[v]
    ensures forall v :: v in d && d[v] != dist[v] ==> v in nb && d[v] == du + nb[v] && d[v] < dist[v]
  {
    map v | v in dist :: if v in nb && du + nb[v] < dist[v] then du + nb[v] else dist[v]
  }

  /** Reference predecessor map after relaxing from u: every improved node now points at u. */
  function RelaxedPrevious<N>(prev: map<N, Option<N>>, dist: map<N, int>, du: int, nb: map<N, nat>, u: N)
    : (p: map<N, Option<N>>)
    ensures p.Keys == prev.Keys
    ensures forall v :: v in p && v in dist ==> p[v] == (if Relaxed(dist, du, nb)[v] < dist[v] then Some(u) else prev[v])
  {
    map v | v in prev :: if v in nb && v in dist && du + nb[v] < dist[v] then Some(u) else prev[v]
  }

  /** Every queued node is a node with a distance, and its priority is that distance. */
  ghost predicate QueueAgrees<N>(q: Queue<N>, dist: map<N, int>)
  {
    forall v :: v in q.index ==> v in dist && v in Contents(q) && Contents(q)[v] == dist[v]
  }

  /**
   * One round of the inner foreach of the constructor: alt = du + w; when alt is strictly
   * smaller than the neighbour's distance, store it as distance, record current as
   * predecessor and change the neighbour's priority to alt.
   */
  method RelaxEdge<N>(current: N, du: int, v: N, w: nat, dist: map<N, int>, prev: map<N, Option<N>>, q: Queue<N>)
    returns (dist': map<N, int>, prev': map<N, Option<N>>, q': Queue<N>)
    requires v in dist && Valid(q) && QueueAgrees(q, dist)
    ensures dist' == if du + w < dist[v] then dist[v := du + w] else dist
    ensures prev' == if du + w < dist[v] then prev[v := Some(current)] else prev
    ensures Valid(q') && q'.count == q.count && q'.index.Keys == q.index.Keys && QueueAgrees(q', dist')
  {
    dist', prev', q' := dist, prev, q;
    var alt := du + w;
    if alt < dist[v] {
      dist' := dist[v := alt];
      prev' := prev[v := Some(current)];
      var changed;
      q', changed := ChangePriority(q, v, alt);
      ContentsKeys(q);
      ContentsKeys(q');
    }
  }

  /** The edges of nb whose targets are in done. */
  function Restrict<N>(nb: map<N, nat>, done: set<N>): (r: map<N, nat>)
    ensures r.Keys == nb.Keys * done
    ensures forall v :: v in r ==> r[v] == nb[v]
  {
    map v | v in nb && v in done :: nb[v]
  }

  /**
   * Relaxing one more edge u -> v on top of the edges in done is one RelaxEdge step on the
   * distances d relaxed so far: the distance of v is replaced exactly when du + w is
   * strictly smaller than its distance in d.
   */
  lemma RelaxOneMore<N>(dist: map<N, int>, du: int, nb: map<N, nat>, done: set<N>, v: N, d: map<N, int>)
    requires v in nb && v in dist && v !in done
    requires d == Relaxed(dist, du, Restrict(nb, done))
    ensures v in d && d[v] == dist[v]
    ensures Relaxed(dist, du, Restrict(nb, done + {v})) == if du + nb[v] < d[v] then d[v := du + nb[v]] else d
  {
    var d' := Relaxed(dist, du, Restrict(nb, done + {v}));
    if du + nb[v] < d[v] {
      assert d' == d[v := du + nb[v]];
    } else {
      assert d' == d;
    }
  }

  /** The same step for the predecessors: v now points at u exactly when its distance improved. */
  lemma RelaxOneMorePrevious<N>(prev: map<N, Option<N>>, dist: map<N, int>, du: int, nb: map<N, nat>, u: N,
                                done: set<N>, v: N, p: map<N, Option<N>>)
    requires v in nb && v in dist && v in prev && v !in done
    requires p == RelaxedPrevious(prev, dist, du, Restrict(nb, done), u)
    ensures RelaxedPrevious(prev, dist, du, Restrict(nb, done + {v}), u)
            == if du + nb[v] < dist[v] then p[v := Some(u)] else p
  {
    var p' := RelaxedPrevious(prev, dist, du, Restrict(nb, done + {v}), u);
    if du + nb[v] < dist[v] {
      assert p' == p[v := Some(u)];
    } else {
      assert p' == p;
    }
  }

  /** One pass of the inner foreach, stated against the reference relaxation of the edges seen so far. */
  method RelaxNext<N>(current: N, du: int, nb: map<N, nat>, dist: map<N, int>, prev: map<N, Option<N>>, ghost done: set<N>, v: N,
                      d: map<N, int>, p: map<N, Option<N>>, q: Queue<N>)
    returns (d': map<N, int>, p': map<N, Option<N>>, q': Queue<N>)
    requires v in nb && v in dist && v in prev && v !in done
    requires d == Relaxed(dist, du, Restrict(nb, done)) && p == RelaxedPrevious(prev, dist, du, Restrict(nb, done), current)
    requires Valid(q) && QueueAgrees(q, d)
    ensures d' == Relaxed(dist, du, Restrict(nb, done + {v}))
    ensures p' == RelaxedPrevious(prev, dist, du, Restrict(nb, done + {v}), current)
    ensures Valid(q') && q'.count == q.count && q'.index.Keys == q.index.Keys && QueueAgrees(q', d')
  {
    RelaxOneMore(dist, du, nb, done, v, d);
    RelaxOneMorePrevious(prev, dist, du, nb, current, done, v, p);
    d', p', q' := RelaxEdge(current, du, v, nb[v], d, p, q);
  }

  /**
   * The inner foreach of the constructor: relax every edge in nb out of current, in any
   * order; the result is the reference relaxation.
   */
  method RelaxNeighbors<N>(current: N, nb: map<N, nat>, dist: map<N, int>, prev: map<N, Option<N>>, q: Queue<N>)
    returns (dist': map<N, int>, prev': map<N, Option<N>>, q': Queue<N>)
    requires current in dist && nb.Keys <= dist.Keys && prev.Keys == dist.Keys
    requires Valid(q) && QueueAgrees(q, dist)
    ensures dist' == Relaxed(dist, dist[current], nb)
    ensures prev' == RelaxedPrevious(prev, dist, dist[current], nb, current)
    ensures Valid(q') && q'.count == q.count && q'.index.Keys == q.index.Keys && QueueAgrees(q', dist')
  {
    dist', prev', q' := dist, prev, q;
    var du := dist[current];
    var done: set<N> := {};
    var todo := nb.Keys;
    assert Relaxed(dist, du, Restrict(nb, done)) == dist;
    assert RelaxedPrevious(prev, dist, du, Restrict(nb, done), current) == prev;
    while todo != {}
      invariant done <= nb.Keys && todo == nb.Keys - done
      invariant dist' == Relaxed(dist, du, Restrict(nb, done))
      invariant prev' == RelaxedPrevious(prev, dist, du, Restrict(nb, done), current)
      invariant Valid(q') && q'.count == q.count && q'.index.Keys == q.index.Keys && QueueAgrees(q', dist')
      decreases todo
    {
      var v :| v in todo;
      dist', prev', q' := RelaxNext(current, du, nb, dist, prev, done, v, dist', prev', q');
      done, todo := done + {v}, todo - {v};
    }
    assert Restrict(nb, done) == nb;
  }

  /** Every node of nodes at distance INT_MAX. */
  function Unreached<N>(nodes: set<N>): (d: map<N, int>)
    ensures d.Keys == nodes && forall v :: v in d ==> d[v] == INT_MAX
  {
    map v | v in nodes :: INT_MAX
  }

  /** The initial distances: 0 at the source and INT_MAX at every other node of g. */
  function InitialDistances<N>(g: Graph<N>, source: N): (d: map<N, int>)
    requires source in g
    ensures d.Keys == g.Keys && d[source] == 0
    ensures forall v :: v in g && v != source ==> d[v] == INT_MAX
  {
    Unreached(g.Keys)[source := 0]
  }

  /** Every node of nodes without a predecessor. */
  function Unlinked<N>(nodes: set<N>): (p: map<N, Option<N>>)
    ensures p.Keys == nodes && forall v :: v in p ==> p[v] == None
  {
    map v | v in nodes :: None
  }

  /** Before the initialisation loop: empty maps, and a queue holding only the source at 0. */
  lemma InitStart<N>(source: N)
    ensures Unreached<N>({}) == map[] && Unlinked<N>({}) == map[]
    ensures Unreached({} - {source})[source := 0] == map[source := 0]
  {
    assert {} - {source} == {};
  }

  /** Adding one node to the visited set of the initialisation loop. */
  lemma InitOneMore<N>(done: set<N>, source: N, v: N)
    ensures Unreached(done + {v}) == Unreached(done)[v := INT_MAX]
    ensures Unlinked(done + {v}) == Unlinked(done)[v := None]
    ensures v != source ==>
      Unreached(done + {v} - {source})[source := 0] == Unreached(done - {source})[source := 0][v := INT_MAX]
    ensures v == source ==>
      Unreached(done + {v} - {source})[source := 0] == Unreached(done - {source})[source := 0]
  {
    if v != source {
      assert done + {v} - {source} == (done - {source}) + {v};
    } else {
      assert done + {v} - {source} == done - {source};
    }
  }

  /**
   * One round of the initialisation foreach: origin gets distance INT_MAX and no
   * predecessor, and is queued at INT_MAX unless it is the source, which is queued already.
   */
  method InitNode<N>(source: N, done: set<N>, origin: N, dist: map<N, int>, prev: map<N, Option<N>>, q: Queue<N>)
    returns (dist': map<N, int>, prev': map<N, Option<N>>, q': Queue<N>)
    requires origin !in done
    requires dist == Unreached(done) && prev == Unlinked(done)
    requires Valid(q) && Contents(q) == Unreached(done - {source})[source := 0]
    ensures dist' == Unreached(done + {origin}) && prev' == Unlinked(done + {origin})
    ensures Valid(q') && Contents(q') == Unreached(done + {origin} - {source})[source := 0]
  {
    InitOneMore(done, source, origin);
    dist' := dist[origin := INT_MAX];
    prev' := prev[origin := None];
    q' := q;
    if origin != source {
      ContentsKeys(q);
      var pushed;
      q', pushed := Push(q, origin, INT_MAX);
    }
  }

  /**
   * Once every node has been visited, the maps are the initial ones and the queue holds
   * exactly the nodes of the graph, each with its initial distance.
   */
  lemma InitFinished<N>(g: Graph<N>, source: N, done: set<N>, q: Queue<N>)
    requires source in g && done <= g.Keys && g.Keys - done == {}
    requires Valid(q) && Contents(q) == Unreached(done - {source})[source := 0]
    ensures done == g.Keys && Contents(q) == InitialDistances(g, source)
    ensures q.index.Keys == g.Keys && q.count == |g|
  {
    assert done == g.Keys;
    assert Unreached(done)[source := 0] == Unreached(done - {source})[source := 0];
    ContentsKeys(q);
    IndexSize(q);
  }

  /**
   * Initialisation: every node gets distance INT_MAX and no predecessor, the source gets
   * distance 0, and the queue holds each node once with its distance as priority.
   */
  method Initialize<N>(g: Graph<N>, source: N) returns (dist: map<N, int>, prev: map<N, Option<N>>, q: Queue<N>)
    requires source in g
    ensures dist == InitialDistances(g, source) && prev == Unlinked(g.Keys)
    ensures Valid(q) && q.index.Keys == g.Keys && Contents(q) == dist && q.count == |g|
  {
    var pushed;
    q, pushed := Push(NewQueue(), source, 0);
    dist, prev := map[], map[];
    var done: set<N> := {};
    var todo := g.Keys;
    InitStart(source);
    while todo != {}
      invariant done <= g.Keys && todo == g.Keys - done
      invariant dist == Unreached(done) && prev == Unlinked(done)
      invariant Valid(q) && Contents(q) == Unreached(done - {source})[source := 0]
      decreases todo
    {
      var origin :| origin in todo;
      dist, prev, q := InitNode(source, done, origin, dist, prev, q);
      done, todo := done + {origin}, todo - {origin};
    }
    InitFinished(g, source, done, q);
    dist := dist[source := 0];
  }

  /** The predecessor of v, if any, is joined to v by an edge whose weight is the distance gap. */
  ghost predicate TightAt<N>(g: Graph<N>, dist: map<N, int>, prev: map<N, Option<N>>, v: N)
    requires v in prev
  {
    prev[v].Some? ==>
      var u := prev[v].value;
      u in g && v in g[u] && u in dist && v in dist && dist[v] == dist[u] + g[u][v] && dist[v] < INT_MAX
  }

  /**
   * Walk back from node along the predecessors until the source, for at most fuel steps;
   * the chain is listed from the source to node.
   */
  function ChainTo<N>(prev: map<N, Option<N>>, source: N, node: N, fuel: nat): (r: Option<seq<N>>)
    ensures r.Some? ==> IsChain(prev, source, node, r.value)
    ensures node == source ==> r == Some([source])
    decreases fuel
  {
    if node == source then Some([source])
    else if fuel == 0 || node !in prev || prev[node].None? then None
    else
      match ChainTo(prev, source, prev[node].value, fuel - 1)
      case None => None
      case Some(c) =>
        ChainExtend(prev, source, c, node);
        Some(c + [node])
  }

  /** A chain to the predecessor of node, extended by node, is a chain to node. */
  lemma ChainExtend<N>(prev: map<N, Option<N>>, source: N, c: seq<N>, node: N)
    requires |c| >= 1 && IsChain(prev, source, c[|c| - 1], c)
    requires node in prev && prev[node] == Some(c[|c| - 1])
    ensures IsChain(prev, source, node, c + [node])
  {
    var c' := c + [node];
    forall i | 1 <= i < |c'|
      ensures Linked(prev, c', i)
    {
      if i < |c| {
        assert Linked(prev, c, i);
      }
    }
  }

  /** c runs from the source to node, each entry after the first having its predecessor before it. */
  ghost predicate IsChain<N>(prev: map<N, Option<N>>, source: N, node: N, c: seq<N>)
  {
    && |c| >= 1 && c[0] == source && c[|c| - 1] == node
    && forall i :: 1 <= i < |c| ==> Linked(prev, c, i)
  }

  /** Entry i of c has entry i - 1 as its predecessor. */
  ghost predicate Linked<N>(prev: map<N, Option<N>>, c: seq<N>, i: nat)
    requires 1 <= i < |c|
  {
    c[i] in prev && prev[c[i]] == Some(c[i - 1])
  }

  /** The hop list for a chain: the source with zero weights, then each node with its distance. */
  function Hops<N>(dist: map<N, int>, c: seq<N>): (p: seq<Hop<N>>)
    requires |c| >= 1 && forall i :: 1 <= i < |c| ==> c[i] in dist
    ensures |p| == |c| && p[0] == Hop(c[0], 0, 0) && (|c| == 1 ==> p == [Hop(c[0], 0, 0)])
    ensures forall i :: 0 <= i < |p| ==> p[i].node == c[i]
    ensures forall i :: 1 <= i < |p| ==> p[i].node == c[i] && p[i].accumulated == dist[c[i]]
    ensures forall i :: 1 <= i < |p| ==> p[i].weight == p[i].accumulated - p[i - 1].accumulated
  {
    seq(|c|, i requires 0 <= i < |c| =>
      if i == 0 then Hop(c[0], 0, 0)
      else Hop(c[i], dist[c[i]] - (if i == 1 then 0 else dist[c[i - 1]]), dist[c[i]]))
  }

  /**
   * shortestPathTo: the hops from the source to the destination, found by walking the
   * predecessors backwards. A destination whose predecessors do not lead back to the
   * source within |previous| steps is reported Unreachable.
   */
  function ShortestPathTo<N>(e: Engine<N>, destination: N): (r: Result<seq<Hop<N>>, PathError>)
    requires e.previous.Keys <= e.distances.Keys
    ensures r.Success? ==> IsPathTo(e, destination, r.value)
    ensures r.Failure? ==> r.error == Unreachable && destination != e.source
    ensures destination == e.source ==> r == Success([Hop(e.source, 0, 0)])
  {
    match ChainTo(e.previous, e.source, destination, |e.previous|)
    case None => Failure(Unreachable)
    case Some(c) =>
      HopsArePath(e, destination, c);
      Success(Hops(e.distances, c))
  }

  /**
   * p is a hop list to destination as shortestPathTo promises: it starts with the source at
   * weight 0, ends at the destination, and each later hop is the successor of the hop before
   * it in the predecessor map, carries its node's distance, and its weight is the increase
   * of that distance over the previous hop.
   */
  ghost predicate IsPathTo<N>(e: Engine<N>, destination: N, p: seq<Hop<N>>)
  {
    && |p| >= 1 && p[0] == Hop(e.source, 0, 0) && p[|p| - 1].node == destination
    && forall i :: 1 <= i < |p| ==> HopLinked(e, p, i)
  }

  /** Hop i follows hop i - 1 as described for IsPathTo. */
  ghost predicate HopLinked<N>(e: Engine<N>, p: seq<Hop<N>>, i: nat)
    requires 1 <= i < |p|
  {
    && p[i].node in e.previous && e.previous[p[i].node] == Some(p[i - 1].node)
    && p[i].node in e.distances && p[i].accumulated == e.distances[p[i].node]
    && p[i].weight == p[i].accumulated - p[i - 1].accumulated
  }

  lemma HopsArePath<N>(e: Engine<N>, destination: N, c: seq<N>)
    requires e.previous.Keys <= e.distances.Keys && IsChain(e.previous, e.source, destination, c)
    ensures forall i :: 1 <= i < |c| ==> c[i] in e.distances
    ensures IsPathTo(e, destination, Hops(e.distances, c))
  {
    forall i | 1 <= i < |c|
      ensures c[i] in e.distances
    {
      assert Linked(e.previous, c, i);
    }
    var p := Hops(e.distances, c);
    forall i | 1 <= i < |p|
      ensures HopLinked(e, p, i)
    {
      assert Linked(e.previous, c, i);
      assert p[i - 1].node == c[i - 1];
    }
  }

  /**
   * Every predecessor chain of the kind the engine builds is found: if each reached node
   * other than the source has a reached predecessor of strictly smaller rank, walking back
   * from a reached node with fuel at least its rank ends at the source.
   */
  lemma {:induction false} ChainFound<N>(prev: map<N, Option<N>>, source: N, reached: set<N>, rank: map<N, nat>, v: N, fuel: nat)
    requires v in reached && reached <= rank.Keys && rank[v] <= fuel
    requires forall x {:trigger StepsBack(prev, source, reached, rank, x)} :: x in reached ==> StepsBack(prev, source, reached, rank, x)
    ensures ChainTo(prev, source, v, fuel).Some?
    decreases fuel
  {
    if v != source {
      assert StepsBack(prev, source, reached, rank, v);
      ChainFound(prev, source, reached, rank, prev[v].value, fuel - 1);
    }
  }

  /** Unless x is the source, its predecessor is reached and of smaller rank. */
  ghost predicate StepsBack<N>(prev: map<N, Option<N>>, source: N, reached: set<N>, rank: map<N, nat>, x: N)
    requires reached <= rank.Keys && x in reached
  {
    x != source ==> x in prev && prev[x].Some? && prev[x].value in reached && rank[prev[x].value] < rank[x]
  }

  /**
   * What the constructor establishes about the final maps themselves: they cover the
   * graph, the source is at 0 without predecessor, distances lie in 0..INT_MAX, every
   * predecessor link is a tight edge and no edge can be relaxed.
   */
  ghost predicate Converged<N>(e: Engine<N>)
  {
    && e.source in e.graph && Closed(e.graph)
    && e.distances.Keys == e.graph.Keys && e.previous.Keys == e.graph.Keys
    && e.distances[e.source] == 0 && e.previous[e.source] == None
    && (forall v :: v in e.graph ==> 0 <= e.distances[v] <= INT_MAX)
    && (forall v {:trigger TightAt(e.graph, e.distances, e.previous, v)} :: v in e.previous ==> TightAt(e.graph, e.distances, e.previous, v))
    && Feasible(e.graph, e.distances)
  }

  /** shortestPathTo reports a path exactly for the nodes whose distance is below INT_MAX. */
  ghost predicate PathsFound<N>(e: Engine<N>)
    requires e.previous.Keys <= e.distances.Keys
  {
    forall v :: v in e.graph ==> v in e.distances && (ShortestPathTo(e, v).Success? <==> e.distances[v] < INT_MAX)
  }

  /**
   * nb is what getNeighbors may hand back for origin once the nodes outside queued are
   * settled: edges of origin with their weights, missing only settled nodes, and only for
   * an undirected graph.
   */
  ghost predicate Adjacent<N>(g: Graph<N>, directed: bool, origin: N, queued: set<N>, nb: map<N, nat>)
    requires origin in g
  {
    && (forall v :: v in nb ==> v in g[origin] && nb[v] == g[origin][v])
    && (forall v :: v in g[origin] && v !in nb ==> !directed && v !in queued)
  }

  /**
   * The shape of the main loop's state: the maps cover the graph, and the nodes no longer
   * queued are the settled ones, numbered by rank in the order they were popped.
   */
  ghost predicate Shape<N>(g: Graph<N>, source: N, dist: map<N, int>, prev: map<N, Option<N>>,
                           rank: map<N, nat>, queued: set<N>)
  {
    && source in g && Closed(g) && queued <= g.Keys
    && dist.Keys == g.Keys && prev.Keys == g.Keys
    && rank.Keys == g.Keys - queued
    && (forall v :: v in rank ==> rank[v] < |rank|)
  }

  /**
   * Distances during the main loop: the source is at 0 without predecessor, every distance
   * lies in 0..INT_MAX, settled nodes are no farther than level (the distance of the node
   * popped last) and queued nodes no nearer.
   */
  ghost predicate Levels<N>(g: Graph<N>, source: N, dist: map<N, int>, prev: map<N, Option<N>>,
                            rank: map<N, nat>, level: int, queued: set<N>)
  {
    && source in dist && dist[source] == 0 && source in prev && prev[source] == None
    && (forall v :: v in dist ==> 0 <= dist[v] <= INT_MAX)
    && (forall s :: s in rank ==> s in dist && dist[s] <= level)
    && (forall t :: t in queued ==> t in dist && level <= dist[t])
  }

  /**
   * Predecessor links during the main loop: each is a tight edge from a settled node, of
   * smaller rank when the node itself is settled, and every node other than the source
   * with a finite distance has one.
   */
  ghost predicate Links<N>(g: Graph<N>, source: N, dist: map<N, int>, prev: map<N, Option<N>>, rank: map<N, nat>)
  {
    forall v {:trigger LinkOK(g, source, dist, prev, rank, v)} :: v in prev ==> LinkOK(g, source, dist, prev, rank, v)
  }

  /** The conditions of Links for the link of one node v. */
  ghost predicate LinkOK<N>(g: Graph<N>, source: N, dist: map<N, int>, prev: map<N, Option<N>>, rank: map<N, nat>, v: N)
  {
    && v in prev && TightAt(g, dist, prev, v)
    && (prev[v].Some? ==> prev[v].value in rank && (v in rank ==> rank[prev[v].value] < rank[v]))
    && (v in dist && v != source && dist[v] < INT_MAX ==> prev[v].Some?)
  }

  /** No edge out of a settled node can be relaxed. */
  ghost predicate SettledEdges<N>(g: Graph<N>, dist: map<N, int>, rank: map<N, nat>)
  {
    forall u, v :: u in rank && u in g && v in g[u] ==> u in dist && v in dist && dist[v] <= dist[u] + g[u][v]
  }

  /** The invariant of the main loop, over the maps and the set of nodes still queued. */
  ghost predicate Settling<N>(g: Graph<N>, source: N, dist: map<N, int>, prev: map<N, Option<N>>,
                              rank: map<N, nat>, level: int, queued: set<N>)
  {
    && Shape(g, source, dist, prev, rank, queued)
    && Levels(g, source, dist, prev, rank, level, queued)
    && Links(g, source, dist, prev, rank)
    && SettledEdges(g, dist, rank)
  }

  /** Right after initialisation nothing is settled. */
  lemma SettlingAtStart<N>(g: Graph<N>, source: N)
    requires source in g && Closed(g)
    ensures Settling(g, source, InitialDistances(g, source), Unlinked(g.Keys), map[], 0, g.Keys)
  {
  }

  /**
   * What a round of the main loop starts from: the invariant's shape and levels, a queued
   * node current of least distance, and the edges nb that getNeighbors hands back for it.
   */
  ghost predicate RoundStart<N>(g: Graph<N>, source: N, directed: bool, dist: map<N, int>, prev: map<N, Option<N>>,
                                rank: map<N, nat>, level: int, queued: set<N>, current: N, nb: map<N, nat>)
  {
    && Shape(g, source, dist, prev, rank, queued)
    && Levels(g, source, dist, prev, rank, level, queued)
    && current in queued && current in g && current in dist
    && (forall t :: t in queued ==> t in dist && dist[current] <= dist[t])
    && Adjacent(g, directed, current, queued - {current}, nb)
  }

  /** Relaxing from current changes no settled distance and no distance of current itself. */
  lemma RoundKeepsSettled<N>(g: Graph<N>, source: N, directed: bool, dist: map<N, int>, prev: map<N, Option<N>>,
                             rank: map<N, nat>, level: int, queued: set<N>, current: N, nb: map<N, nat>)
    requires RoundStart(g, source, directed, dist, prev, rank, level, queued, current, nb)
    ensures var dist' := Relaxed(dist, dist[current], nb);
            forall s :: s in rank || s == current ==> s in dist' && dist'[s] == dist[s] <= dist[current]
  {
  }

  /** A round keeps the shape: current moves from the queued nodes to the settled ones. */
  lemma RoundShape<N>(g: Graph<N>, source: N, dist: map<N, int>, prev: map<N, Option<N>>,
                      rank: map<N, nat>, queued: set<N>, current: N, du: int, nb: map<N, nat>)
    requires Shape(g, source, dist, prev, rank, queued) && current in queued
    ensures Shape(g, source, Relaxed(dist, du, nb), RelaxedPrevious(prev, dist, du, nb, current),
                  rank[current := |rank|], queued - {current})
  {
    RankGrows(rank, current);
    assert rank[current := |rank|].Keys == g.Keys - (queued - {current});
  }

  /** Giving a new node the next rank keeps every rank below the number of ranked nodes. */
  lemma RankGrows<N>(rank: map<N, nat>, current: N)
    requires current !in rank && forall v :: v in rank ==> rank[v] < |rank|
    ensures var rank' := rank[current := |rank|];
            |rank'| == |rank| + 1 && forall v :: v in rank' ==> rank'[v] < |rank'|
  {
  }

  /** A round keeps the levels, with level raised to the distance of current. */
  lemma RoundLevels<N>(g: Graph<N>, source: N, directed: bool, dist: map<N, int>, prev: map<N, Option<N>>,
                       rank: map<N, nat>, level: int, queued: set<N>, current: N, nb: map<N, nat>)
    requires RoundStart(g, source, directed, dist, prev, rank, level, queued, current, nb)
    ensures Levels(g, source, Relaxed(dist, dist[current], nb), RelaxedPrevious(prev, dist, dist[current], nb, current),
                   rank[current := |rank|], dist[current], queued - {current})
  {
    var du := dist[current];
    var dist' := Relaxed(dist, du, nb);
    RoundKeepsSettled(g, source, directed, dist, prev, rank, level, queued, current, nb);
    forall v | v in dist' ensures 0 <= dist'[v] <= INT_MAX {
      assert dist'[v] == dist[v] || (v in nb && dist'[v] == du + nb[v]);
    }
    forall t | t in queued - {current} ensures du <= dist'[t] {
      assert dist'[t] == dist[t] || (t in nb && dist'[t] == du + nb[t]);
    }
    var prev' := RelaxedPrevious(prev, dist, du, nb, current);
    var rank' := rank[current := |rank|];
    assert source in dist' && dist'[source] == 0;
    assert source in prev' && prev'[source] == None;
    assert forall s :: s in rank' ==> s in dist' && dist'[s] <= du;
    assert Levels(g, source, dist', prev', rank', du, queued - {current});
  }

  /** A link whose two ends keep their distances stays tight. */
  lemma TightKept<N>(g: Graph<N>, dist: map<N, int>, prev: map<N, Option<N>>,
                     dist': map<N, int>, prev': map<N, Option<N>>, v: N)
    requires v in prev && v in prev' && prev'[v] == prev[v] && TightAt(g, dist, prev, v)
    requires v in dist && v in dist' && dist'[v] == dist[v]
    requires prev[v].Some? ==> prev[v].value in dist' && dist'[prev[v].value] == dist[prev[v].value]
    ensures TightAt(g, dist', prev', v)
  {
  }

  /** A node whose distance just improved through current gets a valid link to it. */
  lemma LinkToCurrent<N>(g: Graph<N>, source: N, dist: map<N, int>, prev: map<N, Option<N>>, rank: map<N, nat>, current: N, v: N)
    requires v in prev && prev[v] == Some(current) && current in rank && v !in rank
    requires current in g && v in g[current] && current in dist && v in dist
    requires dist[v] == dist[current] + g[current][v] < INT_MAX
    ensures LinkOK(g, source, dist, prev, rank, v)
  {
  }

  /** A round keeps every predecessor link tight and ordered by rank. */
  lemma RoundLinks<N>(g: Graph<N>, source: N, directed: bool, dist: map<N, int>, prev: map<N, Option<N>>,
                      rank: map<N, nat>, level: int, queued: set<N>, current: N, nb: map<N, nat>)
    requires RoundStart(g, source, directed, dist, prev, rank, level, queued, current, nb)
    requires Links(g, source, dist, prev, rank)
    ensures Links(g, source, Relaxed(dist, dist[current], nb),
                  RelaxedPrevious(prev, dist, dist[current], nb, current), rank[current := |rank|])
  {
    var du := dist[current];
    var dist' := Relaxed(dist, du, nb);
    var prev' := RelaxedPrevious(prev, dist, du, nb, current);
    var rank' := rank[current := |rank|];
    RoundKeepsSettled(g, source, directed, dist, prev, rank, level, queued, current, nb);
    forall v | v in prev' ensures LinkOK(g, source, dist', prev', rank', v) {
      assert LinkOK(g, source, dist, prev, rank, v);
      if v in nb && du + nb[v] < dist[v] {
        LinkToCurrent(g, source, dist', prev', rank', current, v);
      } else {
        assert prev'[v] == prev[v] && dist'[v] == dist[v];
        TightKept(g, dist, prev, dist', prev', v);
      }
    }
    assert Links(g, source, dist', prev', rank');
  }

  /** A round keeps every edge out of a settled node unrelaxable, current included. */
  lemma RoundEdges<N>(g: Graph<N>, source: N, directed: bool, dist: map<N, int>, prev: map<N, Option<N>>,
                      rank: map<N, nat>, level: int, queued: set<N>, current: N, nb: map<N, nat>)
    requires RoundStart(g, source, directed, dist, prev, rank, level, queued, current, nb)
    requires SettledEdges(g, dist, rank)
    ensures SettledEdges(g, Relaxed(dist, dist[current], nb), rank[current := |rank|])
  {
    var du := dist[current];
    var dist' := Relaxed(dist, du, nb);
    var rank' := rank[current := |rank|];
    RoundKeepsSettled(g, source, directed, dist, prev, rank, level, queued, current, nb);
    forall u, v | u in rank' && v in g[u] ensures dist'[v] <= dist'[u] + g[u][v] {
      if u == current && v !in nb {
        assert v in rank';
      }
    }
    assert SettledEdges(g, dist', rank');
  }

  /**
   * One round of the main loop keeps the invariant: settling a queued node of least
   * distance and relaxing its edges raises level to that distance.
   */
  lemma SettleStep<N>(g: Graph<N>, source: N, directed: bool, dist: map<N, int>, prev: map<N, Option<N>>,
                      rank: map<N, nat>, level: int, queued: set<N>, current: N, nb: map<N, nat>)
    requires Settling(g, source, dist, prev, rank, level, queued)
    requires current in queued && forall t :: t in queued ==> dist[current] <= dist[t]
    requires Adjacent(g, directed, current, queued - {current}, nb)
    ensures Settling(g, source, Relaxed(dist, dist[current], nb),
                     RelaxedPrevious(prev, dist, dist[current], nb, current),
                     rank[current := |rank|], dist[current], queued - {current})
  {
    RoundShape(g, source, dist, prev, rank, queued, current, dist[current], nb);
    RoundLevels(g, source, directed, dist, prev, rank, level, queued, current, nb);
    RoundLinks(g, source, directed, dist, prev, rank, level, queued, current, nb);
    RoundEdges(g, source, directed, dist, prev, rank, level, queued, current, nb);
  }

  /** When nothing is queued any more, the invariant gives everything the constructor promises. */
  lemma SettledIsSolved<N>(g: Graph<N>, source: N, directed: bool, dist: map<N, int>, prev: map<N, Option<N>>,
                           rank: map<N, nat>, level: int)
    requires Settling(g, source, dist, prev, rank, level, {})
    ensures Converged(Engine(g, source, directed, dist, prev))
    ensures PathsFound(Engine(g, source, directed, dist, prev))
  {
    var e := Engine(g, source, directed, dist, prev);
    assert rank.Keys == prev.Keys;
    assert |rank| == |prev| by {
      assert |rank| == |rank.Keys| && |prev| == |prev.Keys|;
    }
    var reached := set v | v in g && dist[v] < INT_MAX;
    forall x | x in reached ensures StepsBack(prev, source, reached, rank, x) {
      assert LinkOK(g, source, dist, prev, rank, x);
    }
    forall v | v in prev ensures TightAt(g, dist, prev, v) {
      assert LinkOK(g, source, dist, prev, rank, v);
    }
    forall v | v in g
      ensures ShortestPathTo(e, v).Success? <==> dist[v] < INT_MAX
    {
      if dist[v] < INT_MAX {
        ChainFound(prev, source, reached, rank, v, |prev|);
      }
    }
  }

  /**
   * One round of the constructor's main loop: pop the closest queued node, relax the edges
   * getNeighbors hands back for it, and settle it. The invariant is kept and the queue
   * shrinks by one.
   */
  method Round<N>(g: Graph<N>, source: N, directed: bool, dist: map<N, int>, prev: map<N, Option<N>>, q: Queue<N>,
                  ghost queued: set<N>, ghost rank: map<N, nat>, ghost level: int)
    returns (dist': map<N, int>, prev': map<N, Option<N>>, q': Queue<N>,
             ghost queued': set<N>, ghost rank': map<N, nat>, ghost level': int)
    requires Valid(q) && QueueAgrees(q, dist) && q.count > 0 && Queued(q, queued)
    requires Settling(g, source, dist, prev, rank, level, queued)
    ensures Valid(q') && QueueAgrees(q', dist') && q'.count == q.count - 1 && Queued(q', queued')
    ensures Settling(g, source, dist', prev', rank', level', queued')
  {
    var popped;
    q', popped := Pop(q);
    var current := popped.value;
    PoppedLeast(q, q', current, dist);
    var nb := Neighbors(g, directed, q', current);
    SettleStep(g, source, directed, dist, prev, rank, level, queued, current, nb);
    queued' := queued - {current};
    rank' := rank[current := |rank|];
    level' := dist[current];
    dist', prev', q' := RelaxNeighbors(current, nb, dist, prev, q');
  }

  /** queued is the set of elements the queue holds. */
  ghost predicate Queued<N>(q: Queue<N>, queued: set<N>)
  {
    && (forall v :: v in queued ==> v in q.index)
    && (forall v :: v in q.index ==> v in queued)
  }

  /**
   * The constructor: initialise, then run rounds until the queue is empty. Each round pops
   * exactly one node and pushes none.
   */
  method Construct<N>(g: Graph<N>, source: N, directed: bool) returns (e: Engine<N>)
    requires source in g && Closed(g)
    ensures e.graph == g && e.source == source && e.directed == directed
    ensures Converged(e)
    ensures PathsFound(e)
  {
    var dist, prev, q := Initialize(g, source);
    // rank numbers the settled nodes in the order they were popped, and level is the
    // distance of the node popped last.
    ghost var rank: map<N, nat> := map[];
    ghost var level := 0;
    ghost var queued := g.Keys;
    SettlingAtStart(g, source);
    while !IsEmpty(q)
      invariant Valid(q) && QueueAgrees(q, dist) && Queued(q, queued)
      invariant Settling(g, source, dist, prev, rank, level, queued)
      decreases q.count
    {
      dist, prev, q, queued, rank, level := Round(g, source, directed, dist, prev, q, queued, rank, level);
    }
    ContentsKeys(q);
    assert queued == {};
    SettledIsSolved(g, source, directed, dist, prev, rank, level);
    e := Engine(g, source, directed, dist, prev);
  }

  /**
   * After pop, the popped node was queued with the least distance, the queue holds the rest
   * of the queued nodes, and their priorities still agree with the distances.
   */
  lemma PoppedLeast<N>(q0: Queue<N>, q: Queue<N>, current: N, dist: map<N, int>)
    requires Valid(q0) && Valid(q) && QueueAgrees(q0, dist) && q0.count > 0
    requires current == Elem(q0.slots, 1)
    requires forall e :: e in Contents(q0) ==> Contents(q0)[current] <= Contents(q0)[e]
    requires Contents(q) == Contents(q0) - {current}
    ensures current in q0.index && q.index.Keys == q0.index.Keys - {current}
    ensures forall t :: t in q0.index ==> dist[current] <= dist[t]
    ensures QueueAgrees(q, dist)
  {
    ContentsKeys(q0);
    ContentsKeys(q);
  }

  /** The nodes of a hop list, in order. */
  function Nodes<N>(p: seq<Hop<N>>): (w: seq<N>)
    ensures |w| == |p| && forall i :: 0 <= i < |p| ==> w[i] == p[i].node
  {
    seq(|p|, i requires 0 <= i < |p| => p[i].node)
  }

  /**
   * When every predecessor link is tight, the first k hops of a hop list built as
   * shortestPathTo builds it form a walk from the source whose weight is the accumulated
   * weight of hop k.
   */
  lemma {:induction false} HopWeights<N>(e: Engine<N>, p: seq<Hop<N>>, k: nat)
    requires e.source in e.graph && e.source in e.distances && e.distances[e.source] == 0
    requires forall v {:trigger TightAt(e.graph, e.distances, e.previous, v)} ::
               v in e.previous ==> TightAt(e.graph, e.distances, e.previous, v)
    requires |p| >= 1 && p[0] == Hop(e.source, 0, 0)
    requires forall i :: 1 <= i < |p| ==> HopLinked(e, p, i)
    requires 1 <= k <= |p|
    ensures IsWalk(e.graph, Nodes(p)[..k]) && WalkWeight(e.graph, Nodes(p)[..k]) == p[k - 1].accumulated
    decreases k
  {
    var w := Nodes(p)[..k];
    if k > 1 {
      var w' := Nodes(p)[..k - 1];
      HopWeights(e, p, k - 1);
      assert w[..k - 1] == w';
      var u, v := p[k - 2].node, p[k - 1].node;
      assert HopLinked(e, p, k - 1);
      assert TightAt(e.graph, e.distances, e.previous, v);
      assert p[k - 2].accumulated == e.distances[u] by {
        if k > 2 {
          assert HopLinked(e, p, k - 2);
        }
      }
      assert Step(e.graph, w, k - 1);
      forall i | 1 <= i < k - 1 ensures Step(e.graph, w, i) {
        assert Step(e.graph, w', i);
      }
      assert WalkWeight(e.graph, w) == WalkWeight(e.graph, w') + e.graph[u][v];
    }
  }

  /**
   * The path shortestPathTo reports follows edges of the graph from the source to the
   * destination, and its weight is the distance the engine found.
   */
  lemma PathWeighsDistance<N>(e: Engine<N>, destination: N)
    requires Converged(e) && ShortestPathTo(e, destination).Success?
    ensures var w := Nodes(ShortestPathTo(e, destination).value);
            && IsWalk(e.graph, w) && w[0] == e.source && w[|w| - 1] == destination
            && destination in e.distances && WalkWeight(e.graph, w) == e.distances[destination]
  {
    var p := ShortestPathTo(e, destination).value;
    HopWeights(e, p, |p|);
    assert Nodes(p)[..|p|] == Nodes(p);
    if |p| > 1 {
      assert HopLinked(e, p, |p| - 1);
    }
  }

  /** No walk in the graph from the source to a node weighs less than that node's distance. */
  lemma DistanceIsOptimal<N>(e: Engine<N>, w: seq<N>)
    requires Converged(e) && IsWalk(e.graph, w) && w[0] == e.source
    ensures w[|w| - 1] in e.distances && e.distances[w[|w| - 1]] <= WalkWeight(e.graph, w)
  {
    FeasibleBoundsWalks(e.graph, e.distances, w);
  }

  /** getDistances: the final distance of every node, 0 at the source, never above INT_MAX. */
  function GetDistances<N>(e: Engine<N>): (d: map<N, int>)
    requires Converged(e)
    ensures d.Keys == e.graph.Keys && d[e.source] == 0
    ensures forall v :: v in d ==> 0 <= d[v] <= INT_MAX
  {
    e.distances
  }

  /** getPrevious: the final predecessors; the source has none, every other link is a tight edge. */
  function GetPrevious<N>(e: Engine<N>): (p: map<N, Option<N>>)
    requires Converged(e)
    ensures p.Keys == e.graph.Keys && p[e.source] == None
    ensures forall v {:trigger TightAt(e.graph, e.distances, p, v)} :: v in p ==> TightAt(e.graph, e.distances, p, v)
  {
    e.previous
  }
}
