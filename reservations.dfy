/**
 * The reservation list a book actually uses (gatorLibrary.py:327-328, 338): a Python list of
 * `(priority, patronID)` tuples kept sorted by `append` followed by `sort()`, and consumed from
 * the front with `pop(0)`.
 */
module Reservations {

  /** A waiting request; Python orders such tuples by priority first, then by patron id. */
  datatype Reservation = Reservation(priority: int, patronID: int)

  /** Python's tuple comparison `a <= b` on two reservations. */
  predicate Le(a: Reservation, b: Reservation) {
    a.priority < b.priority || (a.priority == b.priority && a.patronID <= b.patronID)
  }

  predicate Sorted(s: seq<Reservation>) {
    forall i, j :: 0 <= i < j < |s| ==> Le(s[i], s[j])
  }

  /** The patron ids of a reservation list, in list order (used in reports). */
  function PatronIds(s: seq<Reservation>): (ids: seq<int>)
    ensures |ids| == |s|
    ensures forall i :: 0 <= i < |s| ==> ids[i] == s[i].patronID
  {
    if s == [] then [] else [s[0].patronID] + PatronIds(s[1..])
  }

  /**
   * The list that `append(r)` followed by `sort()` produces from a sorted list `s`:
   * `r` placed after every entry that is not greater than it.
   */
  function Insert(s: seq<Reservation>, r: Reservation): (t: seq<Reservation>)
    ensures |t| == |s| + 1
    ensures multiset(t) == multiset(s) + multiset{r}
  {
    if s == [] then [r]
    else if Le(r, s[0]) && r != s[0] then [r] + s
    else
      assert s == [s[0]] + s[1..];
      [s[0]] + Insert(s[1..], r)
  }

  /** Inserting into a sorted list keeps it sorted. */
  lemma {:induction false} InsertSorted(s: seq<Reservation>, r: Reservation)
    requires Sorted(s)
    ensures Sorted(Insert(s, r))
  {
    if s != [] && !(Le(r, s[0]) && r != s[0]) {
      var t := Insert(s[1..], r);
      InsertSorted(s[1..], r);
      forall x | x in multiset(t) ensures Le(s[0], x) {
        if x == r {
          if r == s[0] { assert Le(s[0], r); }
        } else {
          assert x in multiset(s[1..]);
          var k :| 0 <= k < |s[1..]| && s[1..][k] == x;
          assert s[k + 1] == x;
        }
      }
      forall i, j | 0 <= i < j < |[s[0]] + t| ensures Le(([s[0]] + t)[i], ([s[0]] + t)[j]) {
        if i == 0 {
          assert ([s[0]] + t)[j] == t[j - 1];
          assert t[j - 1] in multiset(t);
        } else {
          assert ([s[0]] + t)[i] == t[i - 1] && ([s[0]] + t)[j] == t[j - 1];
        }
      }
    }
  }

  lemma LeAntisymmetric(a: Reservation, b: Reservation)
    requires Le(a, b) && Le(b, a)
    ensures a == b
  {
  }

  /** The head of a sorted list is not greater than any entry. */
  lemma SortedHeadLe(s: seq<Reservation>, k: nat)
    requires Sorted(s) && k < |s|
    ensures Le(s[0], s[k])
  {
  }

  /** Two sorted lists with the same entries start with the same entry. */
  lemma SortedHeadsEqual(a: seq<Reservation>, b: seq<Reservation>)
    requires Sorted(a) && Sorted(b) && a != []
    requires multiset(a) == multiset(b)
    ensures b != [] && a[0] == b[0]
  {
    assert a[0] in multiset(b);
    var j :| 0 <= j < |b| && b[j] == a[0];
    assert b[0] in multiset(a);
    var i :| 0 <= i < |a| && a[i] == b[0];
    SortedHeadLe(a, i);
    SortedHeadLe(b, j);
    LeAntisymmetric(a[0], b[0]);
  }

  /** A sorted list is determined by its multiset of entries. */
  lemma {:induction false} SortedUnique(a: seq<Reservation>, b: seq<Reservation>)
    requires Sorted(a) && Sorted(b)
    requires multiset(a) == multiset(b)
    ensures a == b
  {
    if a == [] {
      assert |b| == |multiset(b)| == 0;
    } else {
      SortedHeadsEqual(a, b);
      assert a == [a[0]] + a[1..];
      assert b == [b[0]] + b[1..];
      assert multiset(a[1..]) == multiset(a) - multiset{a[0]};
      assert multiset(b[1..]) == multiset(b) - multiset{b[0]};
      SortedUnique(a[1..], b[1..]);
    }
  }

  /**
   * `append` then `sort()`: whatever the sort returns (a sorted permutation of the extended list)
   * is exactly `Insert(s, r)`.
   */
  lemma AppendThenSort(s: seq<Reservation>, r: Reservation, sorted: seq<Reservation>)
    requires Sorted(s)
    requires Sorted(sorted) && multiset(sorted) == multiset(s + [r])
    ensures sorted == Insert(s, r)
  {
    assert multiset(s + [r]) == multiset(s) + multiset{r};
    InsertSorted(s, r);
    SortedUnique(sorted, Insert(s, r));
  }

  /** `pop(0)` on a sorted list takes a least entry and leaves a sorted list. */
  lemma PopFront(s: seq<Reservation>)
    requires Sorted(s) && s != []
    ensures forall r :: r in s ==> Le(s[0], r)
    ensures Sorted(s[1..]) && multiset(s[1..]) + multiset{s[0]} == multiset(s)
  {
    forall r | r in s ensures Le(s[0], r) {
      var i :| 0 <= i < |s| && s[i] == r;
      if i == 0 { assert Le(r, r); }
    }
    assert s == [s[0]] + s[1..];
  }
}
