/**
 * The books the range reports of gatorLibrary.py print (lines 192-204 and 361-379), read from
 * the arena: the books of the nodes a walk lists, compared with the books of the library
 * filtered by id.
 */
module Reports {
  import opened Wrappers
  import opened Shape
  import opened Arena
  import opened Ranges

  /** The books of `bs` whose id lies in `[lo, hi]`, in their order. */
  function Within(bs: seq<Book>, lo: int, hi: int): (r: seq<Book>)
    ensures forall b :: b in r <==> b in bs && lo <= b.bookID <= hi
  {
    if bs == [] then []
    else (if lo <= bs[0].bookID <= hi then [bs[0]] else []) + Within(bs[1..], lo, hi)
  }

  /** Every id of `ids` is an arena index. */
  ghost predicate Bounded(ns: seq<Node>, ids: seq<nat>) {
    forall i :: 0 <= i < |ids| ==> ids[i] < |ns|
  }

  lemma BooksConcat(ns: seq<Node>, a: seq<nat>, b: seq<nat>)
    requires Bounded(ns, a) && Bounded(ns, b)
    ensures Bounded(ns, a + b) && BooksOf(ns, a + b) == BooksOf(ns, a) + BooksOf(ns, b)
  {
  }

  /** The nodes of the range in a wired tree are its nodes whose book has an id in the range. */
  lemma {:induction false} RangeBooks(ns: seq<Node>, par: Option<nat>, t: Tree, lo: int, hi: int)
    requires Wired(ns, par, t)
    ensures forall j :: j in InRange(t, lo, hi) <==> j in Ids(t) && j < |ns| && lo <= ns[j].book.bookID <= hi
    ensures forall j :: j in InRangePre(t, lo, hi) <==> j in InRange(t, lo, hi)
    decreases t
  {
    if t.Fork? {
      RangeBooks(ns, Some(t.id), t.left, lo, hi);
      RangeBooks(ns, Some(t.id), t.right, lo, hi);
    }
  }

  /** The ids of `ids` whose book has an id in `[lo, hi]`, in their order. */
  ghost function Keep(ns: seq<Node>, ids: seq<nat>, lo: int, hi: int): (r: seq<nat>)
    requires Bounded(ns, ids)
    ensures Bounded(ns, r)
  {
    if ids == [] then []
    else (if lo <= ns[ids[0]].book.bookID <= hi then [ids[0]] else []) + Keep(ns, ids[1..], lo, hi)
  }

  lemma {:induction false} KeepConcat(ns: seq<Node>, a: seq<nat>, b: seq<nat>, lo: int, hi: int)
    requires Bounded(ns, a) && Bounded(ns, b)
    ensures Bounded(ns, a + b) && Keep(ns, a + b, lo, hi) == Keep(ns, a, lo, hi) + Keep(ns, b, lo, hi)
  {
    if a == [] {
      assert a + b == b;
    } else {
      var head: seq<nat> := if lo <= ns[a[0]].book.bookID <= hi then [a[0]] else [];
      assert (a + b)[0] == a[0] && (a + b)[1..] == a[1..] + b;
      assert Keep(ns, a + b, lo, hi) == head + Keep(ns, a[1..] + b, lo, hi);
      assert Keep(ns, a, lo, hi) == head + Keep(ns, a[1..], lo, hi);
      KeepConcat(ns, a[1..], b, lo, hi);
    }
  }

  /** The books of the kept ids are the books of the ids, filtered. */
  lemma {:induction false} BooksKeep(ns: seq<Node>, ids: seq<nat>, lo: int, hi: int)
    requires Bounded(ns, ids)
    ensures BooksOf(ns, Keep(ns, ids, lo, hi)) == Within(BooksOf(ns, ids), lo, hi)
  {
    if ids != [] {
      var bs, rest := BooksOf(ns, ids), Keep(ns, ids[1..], lo, hi);
      var head: seq<nat> := if lo <= ns[ids[0]].book.bookID <= hi then [ids[0]] else [];
      var first: seq<Book> := if lo <= bs[0].bookID <= hi then [bs[0]] else [];
      BooksKeep(ns, ids[1..], lo, hi);
      assert bs[1..] == BooksOf(ns, ids[1..]);
      assert Keep(ns, ids, lo, hi) == head + rest;
      assert Within(bs, lo, hi) == first + Within(bs[1..], lo, hi);
      BooksConcat(ns, head, rest);
      assert BooksOf(ns, head) == first;
    }
  }

  /** The kept part of a single node of a wired tree. */
  lemma KeepTop(ns: seq<Node>, par: Option<nat>, t: Tree, lo: int, hi: int)
    requires Wired(ns, par, t) && t.Fork?
    ensures Bounded(ns, [t.id]) && Keep(ns, [t.id], lo, hi) == if lo <= t.key <= hi then [t.id] else []
  {
    assert [t.id][1..] == [];
  }

  /** In a wired tree the nodes of the range are the in-order nodes kept by the ids of their
   *  books ... */
  lemma {:induction false} RangeKeep(ns: seq<Node>, par: Option<nat>, t: Tree, lo: int, hi: int)
    requires Wired(ns, par, t)
    ensures Bounded(ns, InOrder(t)) && InRange(t, lo, hi) == Keep(ns, InOrder(t), lo, hi)
    decreases t
  {
    if t.Fork? {
      var l, r := t.left, t.right;
      RangeKeep(ns, Some(t.id), l, lo, hi);
      RangeKeep(ns, Some(t.id), r, lo, hi);
      KeepTop(ns, par, t, lo, hi);
      KeepConcat(ns, InOrder(l), [t.id], lo, hi);
      KeepConcat(ns, InOrder(l) + [t.id], InOrder(r), lo, hi);
    }
  }

  /** ... and the pre-order nodes kept. */
  lemma {:induction false} RangeKeepPre(ns: seq<Node>, par: Option<nat>, t: Tree, lo: int, hi: int)
    requires Wired(ns, par, t)
    ensures Bounded(ns, PreOrder(t)) && InRangePre(t, lo, hi) == Keep(ns, PreOrder(t), lo, hi)
    decreases t
  {
    if t.Fork? {
      var l, r := t.left, t.right;
      RangeKeepPre(ns, Some(t.id), l, lo, hi);
      RangeKeepPre(ns, Some(t.id), r, lo, hi);
      KeepTop(ns, par, t, lo, hi);
      KeepConcat(ns, [t.id], PreOrder(l), lo, hi);
      KeepConcat(ns, [t.id] + PreOrder(l), PreOrder(r), lo, hi);
    }
  }

  /** Filtering the books of a wired tree by id is filtering its nodes by key, in in-order and
   *  in pre-order. */
  lemma WithinBooks(ns: seq<Node>, par: Option<nat>, t: Tree, lo: int, hi: int)
    requires Wired(ns, par, t)
    ensures Bounded(ns, InOrder(t)) && Bounded(ns, InRange(t, lo, hi))
    ensures BooksOf(ns, InRange(t, lo, hi)) == Within(BooksOf(ns, InOrder(t)), lo, hi)
    ensures Bounded(ns, PreOrder(t)) && Bounded(ns, InRangePre(t, lo, hi))
    ensures BooksOf(ns, InRangePre(t, lo, hi)) == Within(BooksOf(ns, PreOrder(t)), lo, hi)
  {
    RangeKeep(ns, par, t, lo, hi);
    RangeKeepPre(ns, par, t, lo, hi);
    BooksKeep(ns, InOrder(t), lo, hi);
    BooksKeep(ns, PreOrder(t), lo, hi);
  }

  /** Books of ids drawn from `ref` are books of `ref`. */
  lemma BooksIn(ns: seq<Node>, ids: seq<nat>, ref: seq<nat>)
    requires Bounded(ns, ids) && Bounded(ns, ref) && forall j :: j in ids ==> j in ref
    ensures forall b :: b in BooksOf(ns, ids) ==> b in BooksOf(ns, ref)
  {
    forall b | b in BooksOf(ns, ids) ensures b in BooksOf(ns, ref) {
      var m :| 0 <= m < |ids| && BooksOf(ns, ids)[m] == b;
      assert ids[m] in ref;
      var n :| 0 <= n < |ref| && ref[n] == ids[m];
      assert BooksOf(ns, ref)[n] == b;
    }
  }

  /** Every node a walk lists is an arena index. */
  lemma PrunedBounded(ns: seq<Node>, par: Option<nat>, t: Tree, lo: int, hi: int)
    requires Wired(ns, par, t)
    ensures Bounded(ns, InRange(t, lo, hi)) && Bounded(ns, Pruned(t, lo, hi)) && Bounded(ns, PrunedPre(t, lo, hi))
  {
    RangeBooks(ns, par, t, lo, hi);
    PrunedSound(t, lo, hi);
    var a, b, c := InRange(t, lo, hi), Pruned(t, lo, hi), PrunedPre(t, lo, hi);
    assert forall i :: 0 <= i < |a| ==> a[i] in a;
    assert forall i :: 0 <= i < |b| ==> b[i] in b;
    assert forall i :: 0 <= i < |c| ==> c[i] in c;
  }

  /** `_print_range` lists books of the tree with ids in the range. */
  lemma PrintedSound(ns: seq<Node>, t: Tree, lo: int, hi: int)
    requires Wired(ns, None, t)
    ensures Bounded(ns, InOrder(t)) && Bounded(ns, Pruned(t, lo, hi))
    ensures forall b :: b in BooksOf(ns, Pruned(t, lo, hi)) ==> b in BooksOf(ns, InOrder(t)) && lo <= b.bookID <= hi
  {
    WithinBooks(ns, None, t, lo, hi);
    PrunedBounded(ns, None, t, lo, hi);
    PrunedSound(t, lo, hi);
    BooksIn(ns, Pruned(t, lo, hi), InRange(t, lo, hi));
  }

  /** `_print_range` lists every book of a search tree strictly inside the range. */
  lemma PrintedInterior(ns: seq<Node>, t: Tree, lo: int, hi: int)
    requires Wired(ns, None, t) && NonDecreasing(Keys(t))
    ensures Bounded(ns, InOrder(t)) && Bounded(ns, Pruned(t, lo, hi))
    ensures forall b :: b in BooksOf(ns, InOrder(t)) && lo < b.bookID < hi ==> b in BooksOf(ns, Pruned(t, lo, hi))
  {
    WithinBooks(ns, None, t, lo + 1, hi - 1);
    PrunedBounded(ns, None, t, lo, hi);
    PrunedInterior(t, lo, hi);
    BooksIn(ns, InRange(t, lo + 1, hi - 1), Pruned(t, lo, hi));
  }

  /** `_find_books_in_range` lists books of the tree with ids in the range. */
  lemma FoundSound(ns: seq<Node>, t: Tree, lo: int, hi: int)
    requires Wired(ns, None, t)
    ensures Bounded(ns, InOrder(t)) && Bounded(ns, PrunedPre(t, lo, hi))
    ensures forall b :: b in BooksOf(ns, PrunedPre(t, lo, hi)) ==> b in BooksOf(ns, InOrder(t)) && lo <= b.bookID <= hi
  {
    WithinBooks(ns, None, t, lo, hi);
    PrunedBounded(ns, None, t, lo, hi);
    RangeBooks(ns, None, t, lo, hi);
    PrunedSound(t, lo, hi);
    BooksIn(ns, PrunedPre(t, lo, hi), InRange(t, lo, hi));
  }

  /** `_find_books_in_range` on a search tree finds nothing exactly when no book of the tree
   *  has an id in the range. */
  lemma FoundNothing(ns: seq<Node>, t: Tree, lo: int, hi: int)
    requires Wired(ns, None, t) && NonDecreasing(Keys(t))
    ensures Bounded(ns, InOrder(t)) && Bounded(ns, PrunedPre(t, lo, hi))
    ensures BooksOf(ns, PrunedPre(t, lo, hi)) == [] <==>
      forall b :: b in BooksOf(ns, InOrder(t)) ==> !(lo <= b.bookID <= hi)
  {
    WithinBooks(ns, None, t, lo, hi);
    PrunedBounded(ns, None, t, lo, hi);
    PrunedPreEmpty(t, lo, hi);
    OutsideRange(t, lo, hi);
    var w := Within(BooksOf(ns, InOrder(t)), lo, hi);
    if w != [] {
      assert w[0] in w;
    }
  }

  /** With distinct ids the two walks list exactly the books of the range, in in-order and in
   *  pre-order. */
  lemma WalksExact(ns: seq<Node>, t: Tree, lo: int, hi: int)
    requires Wired(ns, None, t)
    ensures Bounded(ns, Pruned(t, lo, hi)) && Bounded(ns, PrunedPre(t, lo, hi))
    ensures Bounded(ns, InOrder(t)) && Bounded(ns, PreOrder(t))
    ensures Increasing(Keys(t)) ==> BooksOf(ns, Pruned(t, lo, hi)) == Within(BooksOf(ns, InOrder(t)), lo, hi)
    ensures Increasing(Keys(t)) ==> BooksOf(ns, PrunedPre(t, lo, hi)) == Within(BooksOf(ns, PreOrder(t)), lo, hi)
  {
    PrunedBounded(ns, None, t, lo, hi);
    WithinBooks(ns, None, t, lo, hi);
    if Increasing(Keys(t)) {
      PrunedExact(t, lo, hi);
    }
  }
}
