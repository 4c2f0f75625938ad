/**
 * The lending rules of gatorLibrary.py (lines 319-346) on one book: what `BorrowBook` and a
 * valid `ReturnBook` do to the book the search found, and the state the two keep.
 */
module Circulation {
  import opened Wrappers
  import opened Reservations
  import opened Arena

  /** The state every book of the library is in: its reservation list is sorted, and a book on
   *  the shelf (`availability == "Yes"`) is lent to nobody and reserved by nobody. */
  ghost predicate Kept(b: Book) {
    Sorted(b.reservations) && (b.availability == "Yes" ==> b.borrowedBy.None? && b.reservations == [])
  }

  /** The books of the nodes `ids` stay kept when the arena grows by the kept book of `z` and
   *  the old books do not change. */
  lemma KeptGrown(ns: seq<Node>, ns': seq<Node>, ids: set<nat>, ids': set<nat>, z: nat)
    requires forall j :: j in ids && j < |ns| ==> Kept(ns[j].book)
    requires |ns'| == |ns| + 1 && z == |ns| && Kept(ns'[z].book)
    requires forall j :: 0 <= j < |ns| ==> ns'[j].book == ns[j].book
    requires ids' == ids + {z}
    ensures forall j :: j in ids' && j < |ns'| ==> Kept(ns'[j].book)
  {
  }

  /** `BorrowBook` on the book found (lines 321-329): a book on the shelf goes to the patron,
   *  any other book gets the patron's reservation, placed by priority. */
  function Lent(b: Book, patronID: int, priority: int): (b': Book)
    ensures b'.bookID == b.bookID && b'.title == b.title && b'.author == b.author
    ensures b.availability == "Yes" ==>
      b'.availability == "No" && b'.borrowedBy == Some(patronID) && b'.reservations == b.reservations
    ensures b.availability != "Yes" ==>
      b'.availability == b.availability && b'.borrowedBy == b.borrowedBy &&
      multiset(b'.reservations) == multiset(b.reservations) + multiset{Reservation(priority, patronID)}
  {
    if b.availability == "Yes" then b.(availability := "No", borrowedBy := Some(patronID))
    else b.(reservations := Insert(b.reservations, Reservation(priority, patronID)))
  }

  /** `ReturnBook` by the borrower (lines 336-344): the first reservation, one of least priority,
   *  gets the book and leaves the list; with no reservation the book goes back on the shelf. */
  function Returned(b: Book): (b': Book)
    ensures b'.bookID == b.bookID && b'.title == b.title && b'.author == b.author
    ensures b.reservations == [] ==>
      b'.availability == "Yes" && b'.borrowedBy == None && b'.reservations == []
    ensures b.reservations != [] ==>
      b'.availability == b.availability && b'.borrowedBy.Some? &&
      multiset(b'.reservations) + multiset{Reservation(b.reservations[0].priority, b'.borrowedBy.value)} ==
        multiset(b.reservations)
  {
    if b.reservations != [] then
      assert b.reservations == [b.reservations[0]] + b.reservations[1..];
      b.(borrowedBy := Some(b.reservations[0].patronID), reservations := b.reservations[1..])
    else
      b.(availability := "Yes", borrowedBy := None)
  }

  /** On a kept book the return goes to a patron whose reservation is not greater than any other
   *  (least priority, then least patron id), and the rest stays sorted. */
  lemma ReturnedFirst(b: Book)
    requires Kept(b) && b.reservations != []
    ensures var r := Reservation(b.reservations[0].priority, Returned(b).borrowedBy.value);
      r in b.reservations && forall r' :: r' in b.reservations ==> Le(r, r')
    ensures Sorted(Returned(b).reservations)
  {
    PopFront(b.reservations);
  }

  /** Borrowing keeps a book in the kept state. */
  lemma LentKept(b: Book, patronID: int, priority: int)
    requires Kept(b)
    ensures Kept(Lent(b, patronID, priority))
  {
    if b.availability != "Yes" {
      InsertSorted(b.reservations, Reservation(priority, patronID));
    }
  }

  /** Returning keeps a book in the kept state. */
  lemma ReturnedKept(b: Book)
    requires Kept(b)
    ensures Kept(Returned(b))
  {
    if b.reservations != [] {
      PopFront(b.reservations);
    }
  }

  /** A book on the shelf that its patron borrows and returns is back where it was. */
  lemma BorrowReturn(b: Book, patronID: int, priority: int)
    requires Kept(b) && b.availability == "Yes"
    ensures Lent(b, patronID, priority).borrowedBy == Some(patronID)
    ensures Returned(Lent(b, patronID, priority)) == b
  {
  }

  /** Reserving a lent book and then returning it hands the book to the waiting patron when
   *  nobody else waits; the book is then lent, with no reservation left. */
  lemma ReserveReturn(b: Book, patronID: int, priority: int)
    requires Kept(b) && b.availability != "Yes" && b.reservations == []
    ensures Returned(Lent(b, patronID, priority)).borrowedBy == Some(patronID)
    ensures Returned(Lent(b, patronID, priority)).reservations == []
    ensures Returned(Lent(b, patronID, priority)).availability == b.availability
  {
    assert Insert([], Reservation(priority, patronID)) == [Reservation(priority, patronID)];
  }
}
