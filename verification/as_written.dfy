/**
 * Literal transcriptions of the queue operations of src/PriorityQueue.php whose behaviour
 * differs from the intended one, with concrete inputs that exhibit each difference. The
 * sifting is hole-based as in the code: moved entries overwrite the hole, and the moving
 * entry is written once at its final slot, after which the index entry of the entry left
 * in the starting slot is rewritten.
 *
 * The rest of the model uses the corrected operations of module PriorityQueue.
 */
module AsWritten {
  import opened Wrappers
  import opened Heap
  import opened PriorityQueue

  /** Write entry x into slot k, growing the slots by one when k is just past the end. */
  function Place<E>(s: seq<Entry<E>>, k: nat, x: Entry<E>): (r: seq<Entry<E>>)
    requires 1 <= k <= |s| + 1
    ensures |r| == if k <= |s| then |s| else |s| + 1
    ensures Elem(r, k) == x.element && Prio(r, k) == x.priority
  {
    if k <= |s| then s[k - 1 := x] else s + [x]
  }

  /**
   * The loop of down_heap as written: the child (and its sibling) is looked at only while
   * its slot number is strictly below the count n. Returns the slots, the index and the
   * final hole.
   */
  function DownHeapLoop<E>(s: seq<Entry<E>>, index: map<E, nat>, n: nat, top: nat, p: int)
    : (r: (seq<Entry<E>>, map<E, nat>, nat))
    requires 1 <= top && n <= |s|
    ensures |r.0| == |s| && top <= r.2 && (r.2 == top || r.2 < n)
    decreases n - top
  {
    var son := if 2 * top < n && Prio(s, 2 * top + 1) < Prio(s, 2 * top) then 2 * top + 1 else 2 * top;
    if son < n && Prio(s, son) < p then
      DownHeapLoop(s[top - 1 := s[son - 1]], index[Elem(s, son) := top], n, son, p)
    else
      (s, index, top)
  }

  /**
   * down_heap as written: run the loop, write the entry at the hole, rewrite two index
   * entries. The slots grow by one exactly when pos is just past them, which is what lets
   * a pop of the only element write it back. The entry lands at pos or at a slot strictly
   * below the count, and the element left in slot pos is indexed at pos.
   */
  function DownHeap<E>(q: Queue<E>, e: E, pos: nat, p: int): (q': Queue<E>)
    requires 1 <= pos <= |q.slots| + 1 && q.count <= |q.slots|
    ensures q'.count == q.count && e in q'.index
    ensures |q'.slots| == if pos <= |q.slots| then |q.slots| else |q.slots| + 1
    ensures exists top :: pos <= top <= |q'.slots| && (top == pos || top < q.count)
                          && Elem(q'.slots, top) == e && Prio(q'.slots, top) == p
    ensures Elem(q'.slots, pos) in q'.index && q'.index[Elem(q'.slots, pos)] == pos
  {
    var (s, index, top) := DownHeapLoop(q.slots, q.index, q.count, pos, p);
    var s' := Place(s, top, Entry(e, p));
    assert Elem(s', top) == e && Prio(s', top) == p;
    Queue(s', index[e := top][Elem(s', pos) := pos], q.count)
  }

  /** The loop of up_heap as written: lift the hole while the parent's priority is strictly larger. */
  function UpHeapLoop<E>(s: seq<Entry<E>>, index: map<E, nat>, next: nat, p: int)
    : (r: (seq<Entry<E>>, map<E, nat>, nat))
    requires 1 <= next <= |s|
    ensures |r.0| == |s| && 1 <= r.2 <= next
    decreases next
  {
    var father := next / 2;
    if father > 0 && Prio(s, father) > p then
      UpHeapLoop(s[next - 1 := s[father - 1]], index[Elem(s, father) := next], father, p)
    else
      (s, index, next)
  }

  /**
   * up_heap as written: run the loop, write the entry at the hole, rewrite two index
   * entries. The entry lands at a slot between 1 and pos, and the element left in slot pos
   * is indexed at pos.
   */
  function UpHeap<E>(q: Queue<E>, e: E, pos: nat, p: int): (q': Queue<E>)
    requires 1 <= pos <= |q.slots|
    ensures q'.count == q.count && |q'.slots| == |q.slots| && e in q'.index
    ensures exists top :: 1 <= top <= pos && Elem(q'.slots, top) == e && Prio(q'.slots, top) == p
    ensures Elem(q'.slots, pos) in q'.index && q'.index[Elem(q'.slots, pos)] == pos
  {
    var (s, index, top) := UpHeapLoop(q.slots, q.index, pos, p);
    var s' := s[top - 1 := Entry(e, p)];
    assert Elem(s', top) == e && Prio(s', top) == p;
    Queue(s', index[e := top][Elem(s', pos) := pos], q.count)
  }

  /**
   * pop as written: the count is lowered and the last array slot dropped before the old
   * last entry is pushed down from slot 1 with the unguarded down_heap.
   */
  function PopAsWritten<E>(q: Queue<E>): (r: (Queue<E>, Result<E, QueueError>))
    requires |q.slots| == q.count
    ensures q.count == 0 ==> r == (q, Failure(EmptyQueue))
    ensures q.count > 0 ==> r.1 == Success(Elem(q.slots, 1)) && r.0.count == q.count - 1
  {
    if q.count == 0 then
      (q, Failure(EmptyQueue))
    else
      var first := q.slots[0];
      var last := q.slots[q.count - 1];
      var shrunk := Queue(q.slots[..q.count - 1], q.index - {first.element}, q.count - 1);
      (DownHeap(shrunk, last.element, 1, last.priority), Success(first.element))
  }

  /**
   * change_priority as written, with its five cases. In the second and fourth case it
   * answers true without storing the new priority.
   */
  function ChangePriorityAsWritten<E>(q: Queue<E>, e: E, p: int): (r: (Queue<E>, bool))
    requires Indexed(q)
    ensures r.1 <==> e in q.index
    ensures !r.1 ==> r.0 == q
  {
    if e !in q.index then
      (q, false)
    else
      var pos := q.index[e];
      var current := Prio(q.slots, pos);
      if pos == 1 && current < p then
        (DownHeap(q, e, pos, p), true)
      else if pos == 1 && current > p then
        (q, true)
      else if pos == q.count && current > p then
        (UpHeap(q, e, pos, p), true)
      else if pos == q.count && current < p then
        (q, true)
      else if pos > 1 && p < Prio(q.slots, pos / 2) then
        (UpHeap(q, e, pos, p), true)
      else
        (DownHeap(q, e, pos, p), true)
  }

  /**
   * push as written: the first element goes straight into slot 1; any later one gets the
   * next slot, from which up_heap lifts it.
   */
  function PushAsWritten<E>(q: Queue<E>, e: E, p: int): (q': Queue<E>)
    requires |q.slots| == q.count
    ensures q'.count == q.count + 1 && |q'.slots| == q'.count && e in q'.index
  {
    if q.count == 0 then
      Queue([Entry(e, p)], q.index[e := 1], 1)
    else
      UpHeap(Queue(q.slots + [Entry(e, p)], q.index, q.count + 1), e, q.count + 1, p)
  }

  /** The queue holding elements 10, 20 and 30 with priorities 1, 2 and 3 in slots 1, 2 and 3. */
  function Pushed123(): (q: Queue<int>)
    ensures Valid(q) && Contents(q) == map[10 := 1, 20 := 2, 30 := 3]
  {
    var q := Queue([Entry(10, 1), Entry(20, 2), Entry(30, 3)], map[10 := 1, 20 := 2, 30 := 3], 3);
    assert Elem(q.slots, 1) == 10 && Elem(q.slots, 2) == 20 && Elem(q.slots, 3) == 30;
    q
  }

  /** Pushing 10, 20 and 30 with priorities 1, 2 and 3, in that order, as written gives that queue. */
  lemma PushesGivePushed123()
    ensures PushAsWritten(PushAsWritten(PushAsWritten(NewQueue(), 10, 1), 20, 2), 30, 3) == Pushed123()
  {
    var q1 := PushAsWritten(NewQueue(), 10, 1);
    assert q1 == Queue([Entry(10, 1)], map[10 := 1], 1);
    var q2 := PushAsWritten(q1, 20, 2);
    assert UpHeapLoop(q1.slots + [Entry(20, 2)], q1.index, 2, 2) == (q1.slots + [Entry(20, 2)], q1.index, 2);
    assert q2 == Queue([Entry(10, 1), Entry(20, 2)], map[10 := 1, 20 := 2], 2);
    var q3 := PushAsWritten(q2, 30, 3);
    assert UpHeapLoop(q2.slots + [Entry(30, 3)], q2.index, 3, 3) == (q2.slots + [Entry(30, 3)], q2.index, 3);
  }

  /**
   * Popping that queue as written leaves priority 3 in slot 1 above priority 2 in slot 2:
   * the child in slot 2 is never compared because 2 is not below the new count 2.
   */
  lemma PopAsWrittenBreaksHeapOrder()
    ensures var (q', r) := PopAsWritten(Pushed123());
            r == Success(10) && q'.slots == [Entry(30, 3), Entry(20, 2)] && !HeapOrdered(q'.slots)
  {
    var q := Pushed123();
    var shrunk := Queue(q.slots[..2], q.index - {10}, 2);
    assert DownHeapLoop(shrunk.slots, shrunk.index, 2, 1, 3) == (shrunk.slots, shrunk.index, 1);
    var q' := PopAsWritten(q).0;
    assert q'.slots == [Entry(30, 3), Entry(20, 2)];
    assert Prio(q'.slots, 2 / 2) > Prio(q'.slots, 2);
  }

  /**
   * The last slot is skipped even when it holds the smaller of two children: popping the
   * valid queue (1, 1), (2, 7), (3, 6), (4, 10) as written picks slot 3 as the smaller child
   * of slot 1, but 3 is not below the new count 3, so priority 10 stays in slot 1.
   */
  lemma PopAsWrittenSkipsLastRightChild()
    ensures var q := Queue([Entry(1, 1), Entry(2, 7), Entry(3, 6), Entry(4, 10)], map[1 := 1, 2 := 2, 3 := 3, 4 := 4], 4);
            var (q', r) := PopAsWritten(q);
            && Valid(q)
            && r == Success(1) && q'.slots == [Entry(4, 10), Entry(2, 7), Entry(3, 6)] && !HeapOrdered(q'.slots)
  {
    var q := Queue([Entry(1, 1), Entry(2, 7), Entry(3, 6), Entry(4, 10)], map[1 := 1, 2 := 2, 3 := 3, 4 := 4], 4);
    assert Elem(q.slots, 1) == 1 && Elem(q.slots, 2) == 2 && Elem(q.slots, 3) == 3 && Elem(q.slots, 4) == 4;
    assert HeapOrdered(q.slots) by {
      assert Prio(q.slots, 1) <= Prio(q.slots, 2) && Prio(q.slots, 1) <= Prio(q.slots, 3) && Prio(q.slots, 2) <= Prio(q.slots, 4);
    }
    var shrunk := Queue(q.slots[..3], q.index - {1}, 3);
    assert DownHeapLoop(shrunk.slots, shrunk.index, 3, 1, 10) == (shrunk.slots, shrunk.index, 1);
    var q' := PopAsWritten(q).0;
    assert q'.slots == [Entry(4, 10), Entry(2, 7), Entry(3, 6)];
    assert Prio(q'.slots, 2 / 2) > Prio(q'.slots, 2);
  }

  /** Popping the only element as written writes it back into slot 1 and its index entry. */
  lemma PopAsWrittenKeepsSoleElement()
    ensures var (q', r) := PopAsWritten(Queue([Entry(10, 5)], map[10 := 1], 1));
            r == Success(10) && q'.count == 0 && Contains(q', 10)
  {
    var shrunk := Queue([], map[10 := 1] - {10}, 0);
    assert DownHeapLoop(shrunk.slots, shrunk.index, 0, 1, 5) == (shrunk.slots, shrunk.index, 1);
  }

  /**
   * Lowering the priority of the root, or raising that of the last slot, answers true but
   * keeps the old priority.
   */
  lemma ChangePriorityAsWrittenKeepsStalePriority()
    ensures var q := Queue([Entry(10, 5), Entry(20, 7)], map[10 := 1, 20 := 2], 2);
            && Valid(q)
            && ChangePriorityAsWritten(q, 10, 3) == (q, true)
            && ChangePriorityAsWritten(q, 20, 9) == (q, true)
            && Contents(q)[10] == 5 && Contents(q)[20] == 7
  {
    var q := Queue([Entry(10, 5), Entry(20, 7)], map[10 := 1, 20 := 2], 2);
    assert Elem(q.slots, 1) == 10 && Elem(q.slots, 2) == 20;
  }
}
