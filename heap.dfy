/**
 * The array-backed binary min-heap that `Node` carries (gatorLibrary.py:20-52). It is keyed on
 * the priority field alone; the clock stamp that `add_reservation` attaches is an opaque value
 * supplied by the caller and never compared.
 */
module ReservationHeap {
  import opened Wrappers

  /** One heap entry: the tuple `(priority, patronID, timestamp)`. */
  datatype HeapEntry = HeapEntry(priority: int, patronID: int, stamp: real)

  function Parent(i: nat): nat
    requires i > 0
  {
    (i - 1) / 2
  }

  /** Every entry's priority is at least its parent's. */
  ghost predicate IsHeap(s: seq<HeapEntry>) {
    forall i :: 0 < i < |s| ==> s[Parent(i)].priority <= s[i].priority
  }

  /** The heap condition with entry `k` allowed to be smaller than its parent (sift-up state). */
  ghost predicate HeapBelow(s: seq<HeapEntry>, k: nat) {
    (forall i :: 0 < i < |s| && i != k ==> s[Parent(i)].priority <= s[i].priority) &&
    (k > 0 ==> forall c :: 0 < c < |s| && Parent(c) == k ==> s[Parent(k)].priority <= s[c].priority)
  }

  /** The heap condition with entry `k` allowed to be larger than its children (sift-down state). */
  ghost predicate HeapAbove(s: seq<HeapEntry>, k: nat) {
    (forall i :: 0 < i < |s| && Parent(i) != k ==> s[Parent(i)].priority <= s[i].priority) &&
    (k > 0 ==> forall c :: 0 < c < |s| && Parent(c) == k ==> s[Parent(k)].priority <= s[c].priority)
  }

  /** The root of a heap has the least priority. */
  lemma {:induction false} RootIsMinimal(s: seq<HeapEntry>, i: nat)
    requires IsHeap(s) && i < |s|
    ensures s[0].priority <= s[i].priority
    decreases i
  {
    if i > 0 {
      RootIsMinimal(s, Parent(i));
    }
  }

  /** One sift-up swap keeps the sift-up state, one level higher. */
  lemma SiftUpStep(s: seq<HeapEntry>, k: nat)
    requires 0 < k < |s| && HeapBelow(s, k)
    requires s[Parent(k)].priority > s[k].priority
    ensures HeapBelow(Swap(s, k, Parent(k)), Parent(k))
  {
    var t := Swap(s, k, Parent(k));
    var p := Parent(k);
    forall i | 0 < i < |t| && i != p ensures t[Parent(i)].priority <= t[i].priority {
      if i == k {
      } else if Parent(i) == k {
        assert t[i] == s[i];
      } else if Parent(i) == p {
        assert t[i] == s[i];
      }
    }
    if p > 0 {
      forall c | 0 < c < |t| && Parent(c) == p ensures t[Parent(p)].priority <= t[c].priority {
        assert Parent(p) != k;
        if c != k {
          assert t[c] == s[c];
        }
      }
    }
  }

  lemma SiftUpDone(s: seq<HeapEntry>, k: nat)
    requires k < |s| && HeapBelow(s, k)
    requires k > 0 ==> s[Parent(k)].priority <= s[k].priority
    ensures IsHeap(s)
  {
  }

  /** One sift-down swap with the smaller child `m` keeps the sift-down state, at `m`. */
  lemma SiftDownStep(s: seq<HeapEntry>, k: nat, m: nat)
    requires k < m < |s| && Parent(m) == k && HeapAbove(s, k)
    requires s[m].priority < s[k].priority
    requires forall c :: 0 < c < |s| && Parent(c) == k ==> s[m].priority <= s[c].priority
    ensures HeapAbove(Swap(s, k, m), m)
  {
    var t := Swap(s, k, m);
    forall i | 0 < i < |t| && Parent(i) != m ensures t[Parent(i)].priority <= t[i].priority {
      if i == m {
      } else if i == k {
        assert t[Parent(i)] == s[Parent(i)];
      } else if Parent(i) == k {
        assert t[i] == s[i];
      } else {
        assert t[i] == s[i];
        assert Parent(i) != k;
        assert t[Parent(i)] == s[Parent(i)];
      }
    }
    forall c | 0 < c < |t| && Parent(c) == m ensures t[Parent(m)].priority <= t[c].priority {
      assert t[c] == s[c];
    }
  }

  lemma SiftDownDone(s: seq<HeapEntry>, k: nat)
    requires k <= |s| && HeapAbove(s, k)
    requires forall c :: 0 < c < |s| && Parent(c) == k ==> s[k].priority <= s[c].priority
    ensures IsHeap(s)
  {
  }

  function Swap(s: seq<HeapEntry>, i: nat, j: nat): (t: seq<HeapEntry>)
    requires i < |s| && j < |s|
    ensures |t| == |s| && t[i] == s[j] && t[j] == s[i]
    ensures forall k :: 0 <= k < |s| && k != i && k != j ==> t[k] == s[k]
    ensures multiset(t) == multiset(s)
  {
    s[i := s[j]][j := s[i]]
  }

  class Heap {
    /** `Node.reservations` when used as a heap. */
    var reservations: seq<HeapEntry>

    constructor ()
      ensures reservations == []
    {
      reservations := [];
    }

    /** `_min_heapify_up`: moves entry `index` up until its parent is not larger. */
    method MinHeapifyUp(index: nat)
      requires index < |reservations| && HeapBelow(reservations, index)
      modifies this
      ensures IsHeap(reservations)
      ensures multiset(reservations) == multiset(old(reservations))
    {
      var i: nat := index;
      while i > 0 && reservations[Parent(i)].priority > reservations[i].priority
        invariant i < |reservations| && |reservations| == |old(reservations)|
        invariant HeapBelow(reservations, i)
        invariant multiset(reservations) == multiset(old(reservations))
        decreases i
      {
        SiftUpStep(reservations, i);
        reservations := Swap(reservations, i, Parent(i));
        i := Parent(i);
      }
      SiftUpDone(reservations, i);
    }

    /** `_min_heapify_down`: moves entry `index` down until no child is smaller. */
    method MinHeapifyDown(index: nat)
      requires index <= |reservations| && HeapAbove(reservations, index)
      modifies this
      ensures IsHeap(reservations)
      ensures multiset(reservations) == multiset(old(reservations))
    {
      var n := |reservations|;
      var i: nat := index;
      while true
        invariant i <= n && n == |reservations|
        invariant HeapAbove(reservations, i)
        invariant multiset(reservations) == multiset(old(reservations))
        decreases n - i
      {
        var smallest := i;
        var left := 2 * i + 1;
        var right := 2 * i + 2;
        if left < n && reservations[left].priority < reservations[smallest].priority {
          smallest := left;
        }
        if right < n && reservations[right].priority < reservations[smallest].priority {
          smallest := right;
        }
        assert forall c :: 0 < c < n && Parent(c) == i ==> c == left || c == right;
        if smallest != i {
          SiftDownStep(reservations, i, smallest);
          reservations := Swap(reservations, i, smallest);
          i := smallest;
        } else {
          SiftDownDone(reservations, i);
          break;
        }
      }
    }

    /** `add_reservation`: appends the entry and sifts it up. */
    method AddReservation(priority: int, patronID: int, stamp: real)
      requires IsHeap(reservations)
      modifies this
      ensures IsHeap(reservations)
      ensures multiset(reservations) == multiset(old(reservations)) + multiset{HeapEntry(priority, patronID, stamp)}
    {
      reservations := reservations + [HeapEntry(priority, patronID, stamp)];
      MinHeapifyUp(|reservations| - 1);
    }

    /** `pop_reservation`: removes and returns an entry of least priority, or `None` when empty. */
    method PopReservation() returns (top: Option<HeapEntry>)
      requires IsHeap(reservations)
      modifies this
      ensures IsHeap(reservations)
      ensures old(reservations) == [] <==> top == None
      ensures old(reservations) == [] ==> reservations == []
      ensures top.Some? ==>
        top.value in multiset(old(reservations)) &&
        (forall e :: e in old(reservations) ==> top.value.priority <= e.priority) &&
        multiset(reservations) == multiset(old(reservations)) - multiset{top.value}
    {
      if reservations == [] {
        return None;
      }
      ghost var before := reservations;
      forall e | e in before ensures before[0].priority <= e.priority {
        var k :| 0 <= k < |before| && before[k] == e;
        RootIsMinimal(before, k);
      }
      var last := |reservations| - 1;
      reservations := Swap(reservations, 0, last);
      var popped := reservations[last];
      reservations := reservations[..last];
      assert multiset(before) == multiset(reservations) + multiset{popped} by {
        assert Swap(before, 0, last) == reservations + [popped];
      }
      MinHeapifyDown(0);
      top := Some(popped);
    }
  }
}
