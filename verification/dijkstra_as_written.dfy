/**
 * The constructor of src/Dijkstra.php driving the queue as written (module AsWritten) on
 * one concrete undirected graph. Because down_heap never enters the last slot, pop can
 * return a node that is not the closest one, and the engine then settles that node with
 * a distance that is too large.
 *
 * The rest of the model runs the constructor over the corrected queue (Dijkstra.Construct).
 */
module DijkstraAsWritten {
  import opened Wrappers
  import opened Heap
  import opened PriorityQueue
  import opened AsWritten
  import opened Graphs
  import opened Dijkstra

  /**
   * Nodes A, B, C, D as 1, 2, 3, 4, with undirected edges A-B 1, A-C 5, A-D 2 and C-D 1.
   * The shortest walk from A to C goes through D and weighs 3.
   */
  function Diamond(): (g: Graph<int>)
    ensures Closed(g) && g.Keys == {1, 2, 3, 4}
    ensures IsWalk(g, [1, 4, 3]) && WalkWeight(g, [1, 4, 3]) == 3
  {
    var g := map[1 := map[2 := 1, 3 := 5, 4 := 2], 2 := map[1 := 1], 3 := map[1 := 5, 4 := 1], 4 := map[1 := 2, 3 := 1]];
    assert Step(g, [1, 4, 3], 1) && Step(g, [1, 4, 3], 2);
    g
  }

  /**
   * One pass of the inner foreach (lines 116-121 of src/Dijkstra.php) over the queue as
   * written: when alt = du + w is strictly smaller than the neighbour's distance, store it,
   * record current as predecessor and change the neighbour's priority with change_priority
   * as written; otherwise nothing changes.
   */
  function RelaxAsWritten<N>(current: N, v: N, w: nat, dist: map<N, int>, prev: map<N, Option<N>>, q: Queue<N>)
    : (r: (map<N, int>, map<N, Option<N>>, Queue<N>))
    requires current in dist && v in dist && Indexed(q)
    ensures r.0.Keys == dist.Keys && r.0[v] <= dist[v]
    ensures r.0[v] < dist[v] ==> r.0[v] == dist[current] + w && r.0 == dist[v := r.0[v]] && r.1 == prev[v := Some(current)]
    ensures r.0[v] == dist[v] ==> r == (dist, prev, q)
  {
    var alt := dist[current] + w;
    if alt < dist[v] then
      (dist[v := alt], prev[v := Some(current)], ChangePriorityAsWritten(q, v, alt).0)
    else
      (dist, prev, q)
  }

  /** Distances, predecessors and queue of the engine between two statements. */
  type State<N> = (map<N, int>, map<N, Option<N>>, Queue<N>)

  /**
   * One pass of the foreach over the neighbours nb returned by getNeighbors: a node that is
   * not among them is skipped.
   */
  function RelaxIfAsWritten<N>(current: N, v: N, nb: map<N, nat>, s: State<N>): State<N>
    requires current in s.0 && v in s.0 && (v in nb ==> Indexed(s.2))
  {
    if v in nb then RelaxAsWritten(current, v, nb[v], s.0, s.1, s.2) else s
  }

  // The queue of the constructor as written on Diamond, after each step that changes it.
  const Initial: Queue<int> := Queue([Entry(1, 0), Entry(2, INT_MAX), Entry(3, INT_MAX), Entry(4, INT_MAX)], map[1 := 1, 2 := 2, 3 := 3, 4 := 4], 4)
  const PoppedA: Queue<int> := Queue([Entry(4, INT_MAX), Entry(2, INT_MAX), Entry(3, INT_MAX)], map[2 := 2, 3 := 3, 4 := 1], 3)
  const LoweredB: Queue<int> := Queue([Entry(2, 1), Entry(4, INT_MAX), Entry(3, INT_MAX)], map[2 := 1, 3 := 3, 4 := 2], 3)
  const LoweredC: Queue<int> := Queue([Entry(2, 1), Entry(4, INT_MAX), Entry(3, 5)], map[2 := 1, 3 := 3, 4 := 2], 3)
  const LoweredD: Queue<int> := Queue([Entry(2, 1), Entry(4, 2), Entry(3, 5)], map[2 := 1, 3 := 3, 4 := 2], 3)
  const PoppedB: Queue<int> := Queue([Entry(3, 5), Entry(4, 2)], map[3 := 1, 4 := 2], 2)
  const PoppedC: Queue<int> := Queue([Entry(4, 2)], map[4 := 1], 1)
  const PoppedD: Queue<int> := Queue([Entry(4, 2)], map[4 := 1], 0)

  /** The three-element queues of the first round are index-consistent. */
  lemma ThreeIndexed()
    ensures Indexed(PoppedA) && Indexed(LoweredB) && Indexed(LoweredC)
  {
    assert Elem(PoppedA.slots, 1) == 4 && Elem(PoppedA.slots, 2) == 2 && Elem(PoppedA.slots, 3) == 3;
    assert Elem(LoweredB.slots, 1) == 2 && Elem(LoweredB.slots, 2) == 4 && Elem(LoweredB.slots, 3) == 3;
    assert Elem(LoweredC.slots, 1) == 2 && Elem(LoweredC.slots, 2) == 4 && Elem(LoweredC.slots, 3) == 3;
  }

  /**
   * Lines 94-101 of src/Dijkstra.php with push as written: A is pushed at 0, then B, C and
   * D at INT_MAX, and each stays in the slot it is appended to.
   */
  lemma PushesGiveInitial()
    ensures PushAsWritten(PushAsWritten(PushAsWritten(PushAsWritten(NewQueue(), 1, 0), 2, INT_MAX), 3, INT_MAX), 4, INT_MAX) == Initial
  {
    var q1 := PushAsWritten(NewQueue(), 1, 0);
    assert q1 == Queue([Entry(1, 0)], map[1 := 1], 1);
    var q2 := PushAsWritten(q1, 2, INT_MAX);
    assert UpHeapLoop(q1.slots + [Entry(2, INT_MAX)], q1.index, 2, INT_MAX) == (q1.slots + [Entry(2, INT_MAX)], q1.index, 2);
    assert q2 == Queue([Entry(1, 0), Entry(2, INT_MAX)], map[1 := 1, 2 := 2], 2);
    var q3 := PushAsWritten(q2, 3, INT_MAX);
    assert UpHeapLoop(q2.slots + [Entry(3, INT_MAX)], q2.index, 3, INT_MAX) == (q2.slots + [Entry(3, INT_MAX)], q2.index, 3);
    assert q3 == Queue([Entry(1, 0), Entry(2, INT_MAX), Entry(3, INT_MAX)], map[1 := 1, 2 := 2, 3 := 3], 3);
    assert UpHeapLoop(q3.slots + [Entry(4, INT_MAX)], q3.index, 4, INT_MAX) == (q3.slots + [Entry(4, INT_MAX)], q3.index, 4);
  }

  /** Popping A moves D to slot 1: its children hold the same priority, so it stays. */
  lemma PopGivesA()
    ensures PopAsWritten(Initial) == (PoppedA, Success(1))
  {
    var s := Initial.slots[..3];
    var index := Initial.index - {1};
    assert s == [Entry(1, 0), Entry(2, INT_MAX), Entry(3, INT_MAX)];
    assert index == map[2 := 2, 3 := 3, 4 := 4];
    assert DownHeapLoop(s, index, 3, 1, INT_MAX) == (s, index, 1);
    var s' := Place(s, 1, Entry(4, INT_MAX));
    assert s' == PoppedA.slots;
    assert index[4 := 1][Elem(s', 1) := 1] == PoppedA.index;
  }

  /** Lowering B to 1 lifts it past D to slot 1. */
  lemma LowerGivesB()
    ensures Indexed(PoppedA) && ChangePriorityAsWritten(PoppedA, 2, 1) == (LoweredB, true)
  {
    ThreeIndexed();
    var s := PoppedA.slots;
    assert PoppedA.index[2] == 2 && Prio(s, 2) == INT_MAX && Prio(s, 1) == INT_MAX;
    var s1 := s[1 := s[0]];
    var index1 := PoppedA.index[4 := 2];
    assert UpHeapLoop(s1, index1, 1, 1) == (s1, index1, 1);
    assert UpHeapLoop(s, PoppedA.index, 2, 1) == (s1, index1, 1);
    var s' := s1[0 := Entry(2, 1)];
    assert s' == LoweredB.slots;
    assert index1[2 := 1][Elem(s', 2) := 2] == LoweredB.index;
  }

  /** Lowering C to 5 leaves it in the last slot, below B at 1. */
  lemma LowerGivesC()
    ensures Indexed(LoweredB) && ChangePriorityAsWritten(LoweredB, 3, 5) == (LoweredC, true)
  {
    ThreeIndexed();
    var s := LoweredB.slots;
    assert LoweredB.index[3] == 3 && Prio(s, 3) == INT_MAX && Prio(s, 1) == 1;
    assert UpHeapLoop(s, LoweredB.index, 3, 5) == (s, LoweredB.index, 3);
    var s' := s[2 := Entry(3, 5)];
    assert s' == LoweredC.slots;
    assert LoweredB.index[3 := 3][Elem(s', 3) := 3] == LoweredC.index;
  }

  /** Lowering D to 2 leaves it in slot 2, below B at 1. */
  lemma LowerGivesD()
    ensures Indexed(LoweredC) && ChangePriorityAsWritten(LoweredC, 4, 2) == (LoweredD, true)
  {
    ThreeIndexed();
    var s := LoweredC.slots;
    assert LoweredC.index[4] == 2 && Prio(s, 2) == INT_MAX && Prio(s, 1) == 1;
    assert DownHeapLoop(s, LoweredC.index, 3, 2, 2) == (s, LoweredC.index, 2);
    var s' := Place(s, 2, Entry(4, 2));
    assert s' == LoweredD.slots;
    assert LoweredC.index[4 := 2][Elem(s', 2) := 2] == LoweredD.index;
  }

  /**
   * Popping B moves C, at 5, to slot 1 and leaves D, at 2, in slot 2: slot 2 is not below
   * the new count 2, so down_heap never compares it.
   */
  lemma PopGivesB()
    ensures PopAsWritten(LoweredD) == (PoppedB, Success(2))
  {
    var s := LoweredD.slots[..2];
    var index := LoweredD.index - {2};
    assert s == [Entry(2, 1), Entry(4, 2)];
    assert index == map[3 := 3, 4 := 2];
    assert DownHeapLoop(s, index, 2, 1, 5) == (s, index, 1);
    var s' := Place(s, 1, Entry(3, 5));
    assert s' == PoppedB.slots;
    assert index[3 := 1][Elem(s', 1) := 1] == PoppedB.index;
  }

  /** Popping C, although D waits at the smaller priority 2. */
  lemma PopGivesC()
    ensures PopAsWritten(PoppedB) == (PoppedC, Success(3))
  {
    var s := PoppedB.slots[..1];
    var index := PoppedB.index - {3};
    assert s == [Entry(3, 5)];
    assert index == map[4 := 2];
    assert DownHeapLoop(s, index, 1, 1, 2) == (s, index, 1);
    var s' := Place(s, 1, Entry(4, 2));
    assert s' == PoppedC.slots;
    assert index[4 := 1][Elem(s', 1) := 1] == PoppedC.index;
  }

  /** Popping D, the last node. */
  lemma PopGivesD()
    ensures PopAsWritten(PoppedC) == (PoppedD, Success(4))
  {
    var s := PoppedC.slots[..0];
    var index := PoppedC.index - {4};
    assert s == [] && index == map[];
    assert DownHeapLoop(s, index, 0, 1, 2) == (s, index, 1);
    var s' := Place(s, 1, Entry(4, 2));
    assert s' == PoppedD.slots;
    assert index[4 := 1][Elem(s', 1) := 1] == PoppedD.index;
  }

  // Distances and predecessors of the constructor as written on Diamond.
  const Unreached0: map<int, int> := map[1 := 0, 2 := INT_MAX, 3 := INT_MAX, 4 := INT_MAX]
  const Unlinked0: map<int, Option<int>> := map[1 := None, 2 := None, 3 := None, 4 := None]
  const Reached: map<int, int> := map[1 := 0, 2 := 1, 3 := 5, 4 := 2]
  const Linked: map<int, Option<int>> := map[1 := None, 2 := Some(1), 3 := Some(1), 4 := Some(1)]

  /** getNeighbors of A right after it is popped: B, C and D are all still queued. */
  lemma NeighborsOfA()
    ensures Neighbors(Diamond(), false, PoppedA, 1) == map[2 := 1, 3 := 5, 4 := 2]
  {
    var nb := Neighbors(Diamond(), false, PoppedA, 1);
    assert nb.Keys == {2, 3, 4};
  }

  // Distances and predecessors after relaxing B, and then C, from A.
  const ReachedB: map<int, int> := map[1 := 0, 2 := 1, 3 := INT_MAX, 4 := INT_MAX]
  const LinkedB: map<int, Option<int>> := map[1 := None, 2 := Some(1), 3 := None, 4 := None]
  const ReachedC: map<int, int> := map[1 := 0, 2 := 1, 3 := 5, 4 := INT_MAX]
  const LinkedC: map<int, Option<int>> := map[1 := None, 2 := Some(1), 3 := Some(1), 4 := None]

  /** The foreach from A, first pass: B improves on INT_MAX and is lifted to slot 1. */
  lemma RelaxBFromA()
    ensures Indexed(PoppedA)
    ensures RelaxIfAsWritten(1, 2, map[2 := 1, 3 := 5, 4 := 2], (Unreached0, Unlinked0, PoppedA)) == (ReachedB, LinkedB, LoweredB)
  {
    LowerGivesB();
    assert Unreached0[2 := 1] == ReachedB && Unlinked0[2 := Some(1)] == LinkedB;
  }

  /** Second pass: C improves on INT_MAX and stays in the last slot. */
  lemma RelaxCFromA()
    ensures Indexed(LoweredB)
    ensures RelaxIfAsWritten(1, 3, map[2 := 1, 3 := 5, 4 := 2], (ReachedB, LinkedB, LoweredB)) == (ReachedC, LinkedC, LoweredC)
  {
    LowerGivesC();
    assert ReachedB[3 := 5] == ReachedC && LinkedB[3 := Some(1)] == LinkedC;
  }

  /** Third pass: D improves on INT_MAX and stays in slot 2. */
  lemma RelaxDFromA()
    ensures Indexed(LoweredC)
    ensures RelaxIfAsWritten(1, 4, map[2 := 1, 3 := 5, 4 := 2], (ReachedC, LinkedC, LoweredC)) == (Reached, Linked, LoweredD)
  {
    LowerGivesD();
    assert ReachedC[4 := 2] == Reached && LinkedC[4 := Some(1)] == Linked;
  }

  /** First round as written: pop A and relax its neighbours B, C and D in that order. */
  function RoundA(q0: Queue<int>): (r: (int, State<int>))
    requires q0 == Initial
    ensures r == (1, (Reached, Linked, LoweredD))
  {
    PopGivesA(); NeighborsOfA(); RelaxBFromA(); RelaxCFromA(); RelaxDFromA();
    var (q, a) := PopAsWritten(q0);
    var nb := Neighbors(Diamond(), false, q, 1);
    var s := RelaxIfAsWritten(1, 2, nb, (Unreached0, Unlinked0, q));
    var s := RelaxIfAsWritten(1, 3, nb, s);
    var s := RelaxIfAsWritten(1, 4, nb, s);
    (a.value, s)
  }

  /** Second round as written: pop B; its only neighbour A has left the queue. */
  function RoundB(s0: State<int>): (r: (int, State<int>))
    requires s0 == (Reached, Linked, LoweredD)
    ensures r == (2, (Reached, Linked, PoppedB))
  {
    PopGivesB();
    var (q, b) := PopAsWritten(s0.2);
    var nb := Neighbors(Diamond(), false, q, 2);
    assert 1 !in nb;
    (b.value, RelaxIfAsWritten(2, 1, nb, (s0.0, s0.1, q)))
  }

  /**
   * Third round as written: pop C although D waits at the smaller priority 2. Of its
   * neighbours A and D only D is queued, and 5 + 1 does not improve on D's 2.
   */
  function RoundC(s0: State<int>): (r: (int, State<int>))
    requires s0 == (Reached, Linked, PoppedB)
    ensures r == (3, (Reached, Linked, PoppedC))
  {
    PopGivesC(); ThreeIndexed();
    var (q, c) := PopAsWritten(s0.2);
    var nb := Neighbors(Diamond(), false, q, 3);
    assert 1 !in nb && 4 in nb && nb[4] == 1;
    var s := RelaxIfAsWritten(3, 1, nb, (s0.0, s0.1, q));
    (c.value, RelaxIfAsWritten(3, 4, nb, s))
  }

  /** Fourth round as written: pop D; its neighbours A and C have left the queue, and the count is 0. */
  function RoundD(s0: State<int>): (r: (int, State<int>))
    requires s0 == (Reached, Linked, PoppedC)
    ensures r == (4, (Reached, Linked, PoppedD))
  {
    PopGivesD();
    var (q, d) := PopAsWritten(s0.2);
    var nb := Neighbors(Diamond(), false, q, 4);
    assert 1 !in nb && 3 !in nb;
    var s := RelaxIfAsWritten(4, 1, nb, (s0.0, s0.1, q));
    (d.value, RelaxIfAsWritten(4, 3, nb, s))
  }

  /**
   * The constructor as written on Diamond from A, taking keys and neighbours in the order
   * listed: it pops A, B, C and D in that order, so C is settled at 5 while D waits at 2.
   * It ends with C at 5 and A as C's predecessor, and the edge D-C can still be relaxed,
   * although the walk A, D, C weighs 3.
   */
  lemma DiamondAsWrittenMissesShortest()
    ensures PushAsWritten(PushAsWritten(PushAsWritten(PushAsWritten(NewQueue(), 1, 0), 2, INT_MAX), 3, INT_MAX), 4, INT_MAX) == Initial
    ensures var (a, s1) := RoundA(Initial);
            var (b, s2) := RoundB(s1);
            var (c, s3) := RoundC(s2);
            var (d, s') := RoundD(s3);
            && [a, b, c, d] == [1, 2, 3, 4]
            && s'.0 == map[1 := 0, 2 := 1, 3 := 5, 4 := 2]
            && s'.1 == map[1 := None, 2 := Some(1), 3 := Some(1), 4 := Some(1)]
            && s'.2.count == 0
            && !Feasible(Diamond(), s'.0)
  {
    PushesGiveInitial();
    assert Reached[4] + Diamond()[4][3] < Reached[3];
  }

  /** The constructor over the corrected queue gives C a distance of at most 3 on the same input. */
  method DiamondCorrected() returns (e: Engine<int>)
    ensures e.graph == Diamond() && e.source == 1 && !e.directed
    ensures 3 in e.distances && 4 in e.distances
    ensures e.distances[4] <= 2 && e.distances[3] <= 3
  {
    e := Construct(Diamond(), 1, false);
    assert 1 in e.graph && 4 in e.graph[1];
    DistanceIsOptimal(e, [1, 4, 3]);
  }
}
