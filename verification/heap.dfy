/**
 * The array-backed binary min-heap underlying the priority queue.
 *
 * Slots are numbered from 1 as in the code: the parent of slot i is i / 2 and
 * its children are 2i and 2i + 1. Slot i is stored at index i - 1 of the sequence;
 * Prio and Elem hide that shift so that the ordering predicates speak in slot numbers.
 */
module Heap {

  /** One heap slot: an element and its priority (the code's timestamp is not modelled). */
  datatype Entry<E> = Entry(element: E, priority: int)

  /** Priority stored in slot i. */
  function Prio<E>(s: seq<Entry<E>>, i: nat): int
    requires 1 <= i <= |s|
  {
    s[i - 1].priority
  }

  /** Element stored in slot i. */
  function Elem<E>(s: seq<Entry<E>>, i: nat): E
    requires 1 <= i <= |s|
  {
    s[i - 1].element
  }

  /** Heap order: no slot has a smaller priority than its parent. */
  ghost predicate HeapOrdered<E>(s: seq<Entry<E>>)
  {
    forall i :: 1 < i <= |s| ==> Prio(s, i / 2) <= Prio(s, i)
  }

  /**
   * Heap order with one hole on the way up: every parent/child pair is ordered except
   * (k / 2, k), and the parent of k is no larger than the children of k. This is what
   * holds while an entry is being lifted from slot k.
   */
  ghost predicate HeapExceptUp<E>(s: seq<Entry<E>>, k: nat)
  {
    && 1 <= k <= |s|
    && (forall i :: 1 < i <= |s| && i != k ==> Prio(s, i / 2) <= Prio(s, i))
    && (1 < k ==> forall i :: 1 < i <= |s| && i / 2 == k ==> Prio(s, k / 2) <= Prio(s, i))
  }

  /**
   * Heap order with one hole on the way down: every pair is ordered except those between
   * k and its children, and the parent of k is no larger than the children of k. This is
   * what holds while an entry is being pushed down from slot k.
   */
  ghost predicate HeapExceptDown<E>(s: seq<Entry<E>>, k: nat)
  {
    && 1 <= k <= |s|
    && (forall i :: 1 < i <= |s| && i / 2 != k ==> Prio(s, i / 2) <= Prio(s, i))
    && (1 < k ==> forall i :: 1 < i <= |s| && i / 2 == k ==> Prio(s, k / 2) <= Prio(s, i))
  }

  /** Exchange the entries of slots i and j. */
  function Swap<E>(s: seq<Entry<E>>, i: nat, j: nat): seq<Entry<E>>
    requires 1 <= i <= |s| && 1 <= j <= |s|
  {
    s[i - 1 := s[j - 1]][j - 1 := s[i - 1]]
  }

  /**
   * The child of slot k that sift-down compares against: the left child 2k, or the right
   * child 2k + 1 when it exists and is strictly smaller (ties go to the left child).
   */
  function SmallerChild<E>(s: seq<Entry<E>>, k: nat): (c: nat)
    requires 1 <= k
    ensures c == 2 * k || (c == 2 * k + 1 && c <= |s|)
    ensures c <= |s| ==> forall i :: 1 < i <= |s| && i / 2 == k ==> Prio(s, c) <= Prio(s, i)
  {
    if 2 * k + 1 <= |s| && Prio(s, 2 * k + 1) < Prio(s, 2 * k) then 2 * k + 1 else 2 * k
  }

  /** In a heap-ordered sequence the root holds a minimum priority. */
  lemma {:induction false} RootIsMinimal<E>(s: seq<Entry<E>>, i: nat)
    requires HeapOrdered(s) && 1 <= i <= |s|
    ensures Prio(s, 1) <= Prio(s, i)
    decreases i
  {
    if 1 < i {
      RootIsMinimal(s, i / 2);
    }
  }

  /** One step of sift-up: swapping slot k with its larger parent moves the hole to the parent. */
  lemma SwapUpStep<E>(s: seq<Entry<E>>, k: nat)
    requires HeapExceptUp(s, k) && 1 < k && Prio(s, k) < Prio(s, k / 2)
    ensures HeapExceptUp(Swap(s, k, k / 2), k / 2)
  {
    var p := k / 2;
    var t := Swap(s, k, p);
    forall i | 1 < i <= |t| && i != p
      ensures Prio(t, i / 2) <= Prio(t, i)
    {
      if i == k {
      } else if i / 2 == k {
        assert Prio(t, i) == Prio(s, i);
      } else if i / 2 == p {
        assert Prio(s, p) <= Prio(s, i);
      } else {
        assert Prio(s, i / 2) <= Prio(s, i);
      }
    }
    if 1 < p {
      forall i | 1 < i <= |t| && i / 2 == p
        ensures Prio(t, p / 2) <= Prio(t, i)
      {
        assert Prio(s, p / 2) <= Prio(s, p);
        if i != k {
          assert Prio(s, p) <= Prio(s, i);
        }
      }
    }
  }

  /** When the lifted entry is no smaller than its parent, the heap is whole again. */
  lemma UpStopped<E>(s: seq<Entry<E>>, k: nat)
    requires HeapExceptUp(s, k) && (k == 1 || Prio(s, k / 2) <= Prio(s, k))
    ensures HeapOrdered(s)
  {
  }

  /** One step of sift-down: swapping slot k with its smaller, strictly smaller child moves the hole to that child. */
  lemma SwapDownStep<E>(s: seq<Entry<E>>, k: nat)
    requires HeapExceptDown(s, k)
    requires SmallerChild(s, k) <= |s| && Prio(s, SmallerChild(s, k)) < Prio(s, k)
    ensures HeapExceptDown(Swap(s, k, SmallerChild(s, k)), SmallerChild(s, k))
  {
    var c := SmallerChild(s, k);
    var t := Swap(s, k, c);
    forall i | 1 < i <= |t| && i / 2 != c
      ensures Prio(t, i / 2) <= Prio(t, i)
    {
      if i == k {
        assert Prio(s, k / 2) <= Prio(s, c);
      } else if i == c {
      } else if i / 2 == k {
        assert Prio(s, c) <= Prio(s, i);
      } else {
        assert Prio(s, i / 2) <= Prio(s, i);
      }
    }
    forall i | 1 < i <= |t| && i / 2 == c
      ensures Prio(t, c / 2) <= Prio(t, i)
    {
      assert Prio(s, c) <= Prio(s, i);
    }
  }

  /** When no child is smaller than the entry at k, the heap is whole again. */
  lemma DownStopped<E>(s: seq<Entry<E>>, k: nat)
    requires HeapExceptDown(s, k)
    requires SmallerChild(s, k) > |s| || Prio(s, k) <= Prio(s, SmallerChild(s, k))
    ensures HeapOrdered(s)
  {
    var c := SmallerChild(s, k);
    forall i | 1 < i <= |s|
      ensures Prio(s, i / 2) <= Prio(s, i)
    {
      if i / 2 == k {
        assert Prio(s, c) <= Prio(s, i);
      }
    }
  }

  /** Lowering the priority of slot k leaves a heap with a hole on the way up at k. */
  lemma LowerGivesExceptUp<E>(s: seq<Entry<E>>, k: nat, x: Entry<E>)
    requires HeapOrdered(s) && 1 <= k <= |s| && x.priority <= Prio(s, k)
    ensures HeapExceptUp(s[k - 1 := x], k)
  {
    var t := s[k - 1 := x];
    if 1 < k {
      forall i | 1 < i <= |t| && i / 2 == k
        ensures Prio(t, k / 2) <= Prio(t, i)
      {
        assert Prio(s, k / 2) <= Prio(s, k) <= Prio(s, i);
      }
    }
  }

  /**
   * Giving slot k a priority no smaller than its parent's leaves a heap with a hole on the
   * way down at k.
   */
  lemma RaiseGivesExceptDown<E>(s: seq<Entry<E>>, k: nat, x: Entry<E>)
    requires HeapOrdered(s) && 1 <= k <= |s| && (k == 1 || Prio(s, k / 2) <= x.priority)
    ensures HeapExceptDown(s[k - 1 := x], k)
  {
    var t := s[k - 1 := x];
    if 1 < k {
      forall i | 1 < i <= |t| && i / 2 == k
        ensures Prio(t, k / 2) <= Prio(t, i)
      {
        assert Prio(s, k / 2) <= Prio(s, k) <= Prio(s, i);
      }
    }
  }
}
