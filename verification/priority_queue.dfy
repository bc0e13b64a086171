/**
 * The indexed priority queue (class PriorityQueue in src/PriorityQueue.php), with the
 * corrections recorded in the README applied: sift-down enters a child in the last slot,
 * change_priority always stores the new priority, and popping the last element removes
 * it from the index.
 *
 * The queue is a value: every operation takes a queue and returns the new one.
 */
module PriorityQueue {
  import opened Wrappers
  import opened Heap

  /** Error raised by pop on an empty queue (EmptyQueueException). */
  datatype QueueError = EmptyQueue

  /**
   * The class state: the heap slots (slot i at slots[i - 1]), the position index mapping
   * each element to its slot, and the element count.
   */
  datatype Queue<E> = Queue(slots: seq<Entry<E>>, index: map<E, nat>, count: nat)

  /** Index consistency: the index maps each stored element to its slot, and nothing else. */
  ghost predicate Indexed<E>(q: Queue<E>)
  {
    && |q.slots| == q.count
    && (forall i :: 1 <= i <= q.count ==> Elem(q.slots, i) in q.index && q.index[Elem(q.slots, i)] == i)
    && (forall e :: e in q.index ==> 1 <= q.index[e] <= q.count && Elem(q.slots, q.index[e]) == e)
  }

  /** The class invariant: index consistency and heap order. */
  ghost predicate Valid<E>(q: Queue<E>)
  {
    Indexed(q) && HeapOrdered(q.slots)
  }

  /** The abstract content of a queue: each indexed element with the priority in its slot. */
  ghost function Contents<E>(q: Queue<E>): map<E, int>
  {
    map e | e in q.index && 1 <= q.index[e] <= |q.slots| :: Prio(q.slots, q.index[e])
  }

  /** In an index-consistent queue the contents are defined for exactly the indexed elements. */
  lemma ContentsKeys<E>(q: Queue<E>)
    requires Indexed(q)
    ensures Contents(q).Keys == q.index.Keys
  {
  }

  /** The constructor: no slots, an empty index and a zero count. */
  function NewQueue<E>(): (q: Queue<E>)
    ensures Valid(q) && Contents(q) == map[]
  {
    Queue([], map[], 0)
  }

  /** isEmpty: true exactly when the queue holds no element. */
  function IsEmpty<E>(q: Queue<E>): (b: bool)
    ensures Valid(q) ==> (b <==> Contents(q) == map[])
  {
    if q.count != 0 then
      assert Valid(q) ==> Elem(q.slots, 1) in Contents(q);
      false
    else
      true
  }

  /** contains: an index lookup, which agrees with a scan of the occupied slots. */
  function Contains<E>(q: Queue<E>, e: E): (b: bool)
    ensures Valid(q) ==> (b <==> exists i :: 1 <= i <= q.count && Elem(q.slots, i) == e)
  {
    e in q.index
  }

  /** count: the number of elements, which is the number of distinct indexed elements. */
  function Count<E>(q: Queue<E>): (n: nat)
    ensures Valid(q) ==> n == |q.index|
  {
    IndexSize(q);
    q.count
  }

  /** purge: drop every slot and every index entry. */
  function Purge<E>(q: Queue<E>): (q': Queue<E>)
    ensures Valid(q') && Count(q') == 0 && Contents(q') == map[]
    ensures q'.index.Keys == {}
  {
    Queue([], map[], 0)
  }

  /** In an index-consistent queue the index has exactly count entries. */
  lemma IndexSize<E>(q: Queue<E>)
    ensures Indexed(q) ==> |q.index| == q.count
  {
    if Indexed(q) {
      KeysUpTo(q, q.count);
      assert q.index.Keys == set e | e in q.index && q.index[e] <= q.count;
    }
  }

  lemma {:induction false} KeysUpTo<E>(q: Queue<E>, n: nat)
    requires Indexed(q) && n <= q.count
    ensures |set e | e in q.index && q.index[e] <= n| == n
    decreases n
  {
    var b := set e | e in q.index && q.index[e] <= n;
    if n == 0 {
      assert b == {};
    } else {
      KeysUpTo(q, n - 1);
      var a := set e | e in q.index && q.index[e] <= n - 1;
      assert b == a + {Elem(q.slots, n)};
    }
  }

  /** Exchange two slots and rewrite the index entries of both moved elements. */
  function SwapSlots<E>(q: Queue<E>, i: nat, j: nat): (q': Queue<E>)
    requires Indexed(q) && 1 <= i <= q.count && 1 <= j <= q.count && i != j
    ensures Indexed(q') && q'.slots == Swap(q.slots, i, j)
    ensures q'.count == q.count && q'.index.Keys == q.index.Keys
    ensures Contents(q') == Contents(q)
  {
    var q' := Queue(Swap(q.slots, i, j), q.index[Elem(q.slots, i) := j][Elem(q.slots, j) := i], q.count);
    SwapSlotsIndexed(q, i, j, q');
    SwapSlotsKeepsContents(q, i, j, q');
    q'
  }

  /** Swapping two slots and their index entries keeps the index consistent. */
  lemma SwapSlotsIndexed<E>(q: Queue<E>, i: nat, j: nat, q': Queue<E>)
    requires Indexed(q) && 1 <= i <= q.count && 1 <= j <= q.count && i != j
    requires q' == Queue(Swap(q.slots, i, j), q.index[Elem(q.slots, i) := j][Elem(q.slots, j) := i], q.count)
    ensures Indexed(q')
  {
    var s, t := q.slots, q'.slots;
    var a, b := Elem(s, i), Elem(s, j);
    assert a != b by {
      assert q.index[a] == i && q.index[b] == j;
    }
    forall k | 1 <= k <= q'.count
      ensures Elem(t, k) in q'.index && q'.index[Elem(t, k)] == k
    {
      if k != i && k != j {
        assert Elem(t, k) == Elem(s, k);
        assert q.index[Elem(s, k)] == k;
      }
    }
    forall e | e in q'.index
      ensures 1 <= q'.index[e] <= q'.count && Elem(t, q'.index[e]) == e
    {
      if e != a && e != b {
        assert q'.index[e] == q.index[e];
      }
    }
  }

  /**
   * Swapping two slots and their index entries keeps every element's priority. Only the
   * half of index consistency that maps each key to a slot holding it is needed.
   */
  lemma SwapSlotsKeepsContents<E>(q: Queue<E>, i: nat, j: nat, q': Queue<E>)
    requires |q.slots| == q.count && 1 <= i <= q.count && 1 <= j <= q.count && i != j
    requires forall e :: e in q.index ==> 1 <= q.index[e] <= q.count && Elem(q.slots, q.index[e]) == e
    requires Elem(q.slots, i) in q.index && q.index[Elem(q.slots, i)] == i
    requires Elem(q.slots, j) in q.index && q.index[Elem(q.slots, j)] == j
    requires q' == Queue(Swap(q.slots, i, j), q.index[Elem(q.slots, i) := j][Elem(q.slots, j) := i], q.count)
    ensures Contents(q') == Contents(q)
  {
    var s, t := q.slots, q'.slots;
    var a, b := Elem(s, i), Elem(s, j);
    assert q'.index.Keys == q.index.Keys;
    forall e | e in q.index
      ensures e in Contents(q') && Contents(q')[e] == Contents(q)[e]
    {
      if e == a {
        assert q'.index[e] == j && Prio(t, j) == Prio(s, i);
      } else if e == b {
        assert q'.index[e] == i && Prio(t, i) == Prio(s, j);
      } else {
        var m := q.index[e];
        assert q'.index[e] == m && m != i && m != j;
        assert Prio(t, m) == Prio(s, m);
      }
    }
  }

  /** Write a new priority into slot k, keeping its element. */
  function SetPriority<E>(q: Queue<E>, k: nat, p: int): (q': Queue<E>)
    requires Indexed(q) && 1 <= k <= q.count
    ensures Indexed(q') && q'.count == q.count && q'.index == q.index
    ensures Contents(q') == Contents(q)[Elem(q.slots, k) := p]
  {
    var q' := Queue(q.slots[k - 1 := Entry(Elem(q.slots, k), p)], q.index, q.count);
    assert forall i :: 1 <= i <= q.count ==> Elem(q'.slots, i) == Elem(q.slots, i);
    q'
  }

  /**
   * up_heap: lift the entry at slot k while its parent has a strictly larger priority,
   * rewriting the index of every moved element.
   */
  method SiftUp<E>(q: Queue<E>, k: nat) returns (q': Queue<E>)
    requires Indexed(q) && HeapExceptUp(q.slots, k)
    ensures Valid(q')
    ensures q'.count == q.count && q'.index.Keys == q.index.Keys
    ensures Contents(q') == Contents(q)
  {
    q' := q;
    var pos := k;
    while 1 < pos && Prio(q'.slots, pos) < Prio(q'.slots, pos / 2)
      invariant Indexed(q') && HeapExceptUp(q'.slots, pos)
      invariant q'.count == q.count && q'.index.Keys == q.index.Keys
      invariant Contents(q') == Contents(q)
      decreases pos
    {
      SwapUpStep(q'.slots, pos);
      q' := SwapSlots(q', pos, pos / 2);
      pos := pos / 2;
    }
    UpStopped(q'.slots, pos);
  }

  /**
   * down_heap: push the entry at slot k down while its smaller child has a strictly smaller
   * priority, rewriting the index of every moved element. A child is considered whenever
   * its slot number is at most the count.
   */
  method SiftDown<E>(q: Queue<E>, k: nat) returns (q': Queue<E>)
    requires Indexed(q) && HeapExceptDown(q.slots, k)
    ensures Valid(q')
    ensures q'.count == q.count && q'.index.Keys == q.index.Keys
    ensures Contents(q') == Contents(q)
  {
    q' := q;
    var pos: nat := k;
    var child := SmallerChild(q'.slots, pos);
    while child <= q'.count && Prio(q'.slots, child) < Prio(q'.slots, pos)
      invariant Indexed(q') && HeapExceptDown(q'.slots, pos)
      invariant q'.count == q.count && q'.index.Keys == q.index.Keys
      invariant Contents(q') == Contents(q)
      invariant child == SmallerChild(q'.slots, pos)
      decreases q'.count - pos
    {
      SwapDownStep(q'.slots, pos);
      q' := SwapSlots(q', pos, child);
      pos := child;
      child := SmallerChild(q'.slots, pos);
    }
    DownStopped(q'.slots, pos);
  }

  /**
   * push: place the element in the first free slot and lift it. The code does not
   * reject duplicates, so the element must not be present yet.
   */
  method Push<E>(q: Queue<E>, e: E, p: int) returns (q': Queue<E>, ok: bool)
    requires Valid(q) && !Contains(q, e)
    ensures ok && Valid(q')
    ensures q'.count == q.count + 1 && Contents(q') == Contents(q)[e := p]
    ensures Contains(q', e)
    ensures q.count == 0 ==> q'.slots == [Entry(e, p)] && q'.index == map[e := 1]
  {
    ok := true;
    if q.count == 0 {
      q' := Queue([Entry(e, p)], q.index[e := 1], 1);
      return;
    }
    var grown := Queue(q.slots + [Entry(e, p)], q.index[e := q.count + 1], q.count + 1);
    assert Indexed(grown) by {
      forall i | 1 <= i <= grown.count
        ensures Elem(grown.slots, i) in grown.index && grown.index[Elem(grown.slots, i)] == i
      {
        if i <= q.count {
          assert Elem(grown.slots, i) == Elem(q.slots, i);
        }
      }
    }
    assert Contents(grown) == Contents(q)[e := p];
    assert HeapExceptUp(grown.slots, grown.count) by {
      forall i | 1 < i <= grown.count && i != grown.count
        ensures Prio(grown.slots, i / 2) <= Prio(grown.slots, i)
      {
        assert Prio(q.slots, i / 2) <= Prio(q.slots, i);
      }
    }
    q' := SiftUp(grown, grown.count);
  }

  /**
   * pop: remove and return the element of slot 1, which has a minimal priority; the last
   * entry is moved to slot 1 and pushed down. An empty queue raises EmptyQueue and is left
   * unchanged.
   */
  method Pop<E>(q: Queue<E>) returns (q': Queue<E>, r: Result<E, QueueError>)
    requires Valid(q)
    ensures Valid(q')
    ensures q.count == 0 ==> q' == q && r == Failure(EmptyQueue)
    ensures q.count > 0 ==>
              && r.Success? && r.value == Elem(q.slots, 1)
              && (forall e :: e in Contents(q) ==> Contents(q)[r.value] <= Contents(q)[e])
              && q'.count == q.count - 1
              && Contents(q') == Contents(q) - {r.value}
              && !Contains(q', r.value)
  {
    if q.count == 0 {
      return q, Failure(EmptyQueue);
    }
    var first := q.slots[0];
    var last := q.slots[q.count - 1];
    r := Success(first.element);
    assert first.element == Elem(q.slots, 1);
    forall e | e in Contents(q)
      ensures Contents(q)[first.element] <= Contents(q)[e]
    {
      RootIsMinimal(q.slots, q.index[e]);
    }
    if q.count == 1 {
      q' := Queue([], q.index - {first.element}, 0);
      assert Contents(q') == Contents(q) - {first.element};
      return;
    }
    var moved := Queue(q.slots[..q.count - 1][0 := last], (q.index - {first.element})[last.element := 1], q.count - 1);
    assert first.element != last.element by {
      assert last.element == Elem(q.slots, q.count);
    }
    assert Indexed(moved) by {
      forall k | 1 <= k <= moved.count
        ensures Elem(moved.slots, k) in moved.index && moved.index[Elem(moved.slots, k)] == k
      {
        if k != 1 {
          assert Elem(moved.slots, k) == Elem(q.slots, k);
          assert q.index[Elem(q.slots, k)] == k;
          assert q.index[Elem(q.slots, q.count)] == q.count;
          assert Elem(q.slots, k) != last.element;
        }
      }
      forall e | e in moved.index
        ensures 1 <= moved.index[e] <= moved.count && Elem(moved.slots, moved.index[e]) == e
      {
        if e != last.element {
          assert q.index[e] != 1 && q.index[e] != q.count;
        }
      }
    }
    assert Contents(moved) == Contents(q) - {first.element} by {
      assert last.element == Elem(q.slots, q.count);
      forall e | e in moved.index
        ensures e in Contents(q) && Contents(moved)[e] == Contents(q)[e]
      {
        if e != last.element {
          assert moved.index[e] == q.index[e];
          assert Prio(moved.slots, q.index[e]) == Prio(q.slots, q.index[e]);
        }
      }
    }
    assert HeapExceptDown(moved.slots, 1) by {
      forall i | 1 < i <= |moved.slots| && i / 2 != 1
        ensures Prio(moved.slots, i / 2) <= Prio(moved.slots, i)
      {
        assert Prio(q.slots, i / 2) <= Prio(q.slots, i);
      }
    }
    q' := SiftDown(moved, 1);
  }

  /**
   * change_priority: false when the element is absent; otherwise the new priority is stored
   * and the entry is moved by the code's case analysis (root, last slot, or compare with
   * the parent). The two cases the code leaves untouched store the priority in place.
   */
  method ChangePriority<E>(q: Queue<E>, e: E, p: int) returns (q': Queue<E>, ok: bool)
    requires Valid(q)
    ensures Valid(q')
    ensures ok <==> Contains(q, e)
    ensures !ok ==> q' == q
    ensures ok ==> q'.count == q.count && q'.index.Keys == q.index.Keys && Contents(q') == Contents(q)[e := p]
  {
    if e !in q.index {
      return q, false;
    }
    ok := true;
    var pos := q.index[e];
    var current := Prio(q.slots, pos);
    var x := Entry(e, p);
    var updated := SetPriority(q, pos, p);
    assert updated.slots == q.slots[pos - 1 := x];
    if pos == 1 && current < p {
      RaiseGivesExceptDown(q.slots, pos, x);
      q' := SiftDown(updated, pos);
    } else if pos == 1 && current > p {
      LowerGivesExceptUp(q.slots, pos, x);
      q' := updated;
    } else if pos == q.count && current > p {
      LowerGivesExceptUp(q.slots, pos, x);
      q' := SiftUp(updated, pos);
    } else if pos == q.count && current < p {
      RaiseGivesExceptDown(q.slots, pos, x);
      DownStopped(updated.slots, pos);
      q' := updated;
    } else if 1 < pos && p < Prio(q.slots, pos / 2) {
      LowerGivesExceptUp(q.slots, pos, x);
      q' := SiftUp(updated, pos);
    } else {
      RaiseGivesExceptDown(q.slots, pos, x);
      q' := SiftDown(updated, pos);
    }
  }
}
