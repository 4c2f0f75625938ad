/**
 * The linked nodes of gatorLibrary.py (lines 5-16), stored in an arena: a node is an index into
 * a sequence, index 0 is the shared black `NIL` sentinel, and `parent` is `None` for the root.
 * `Wired` ties the pointers of the arena to the ghost tree of module Shape.
 */
module Arena {
  import opened Wrappers
  import opened Shape
  import opened Reservations

  /** The data a node carries besides its links. `borrowedBy = None` is the source's `None`. */
  datatype Book = Book(
    bookID: int,
    title: string,
    author: string,
    availability: string,
    borrowedBy: Option<int>,
    reservations: seq<Reservation>)

  datatype Node = Node(book: Book, color: Color, left: nat, right: nat, parent: Option<nat>)

  /** The arena holds the subtree `t` whose top has parent pointer `par`: every node of `t` is
   *  an arena index with the key and colour `t` gives it, and child and parent pointers agree. */
  ghost predicate Wired(ns: seq<Node>, par: Option<nat>, t: Tree)
    decreases t
  {
    t.Fork? ==>
      0 < t.id < |ns| &&
      ns[t.id].book.bookID == t.key && ns[t.id].color == t.color && ns[t.id].parent == par &&
      ns[t.id].left == RootId(t.left) && ns[t.id].right == RootId(t.right) &&
      Wired(ns, Some(t.id), t.left) && Wired(ns, Some(t.id), t.right)
  }

  /** `ns'` keeps every node of `ns` outside `s` (it may also be longer). */
  ghost predicate Agree(ns: seq<Node>, ns': seq<Node>, s: set<nat>) {
    |ns| <= |ns'| && forall j :: 0 <= j < |ns| && j !in s ==> ns'[j] == ns[j]
  }

  /** The books are untouched: only colours and links may have changed. */
  ghost predicate Unbooked(ns: seq<Node>, ns': seq<Node>) {
    |ns| == |ns'| && forall j :: 0 <= j < |ns| ==> ns'[j].book == ns[j].book
  }

  lemma UnbookedTrans(ns1: seq<Node>, ns2: seq<Node>, ns3: seq<Node>)
    requires Unbooked(ns1, ns2) && Unbooked(ns2, ns3)
    ensures Unbooked(ns1, ns3)
  {
  }

  lemma AgreeTrans(ns1: seq<Node>, ns2: seq<Node>, ns3: seq<Node>, s1: set<nat>, s2: set<nat>)
    requires Agree(ns1, ns2, s1) && Agree(ns2, ns3, s2)
    ensures Agree(ns1, ns3, s1 + s2)
  {
  }

  lemma {:induction false} WiredIds(ns: seq<Node>, par: Option<nat>, t: Tree)
    requires Wired(ns, par, t)
    ensures forall j :: j in Ids(t) ==> 0 < j < |ns|
    decreases t
  {
    if t.Fork? {
      WiredIds(ns, Some(t.id), t.left);
      WiredIds(ns, Some(t.id), t.right);
    }
  }

  /** Every node of a wired tree, listed in in-order, is an arena index. */
  lemma InOrderBounded(ns: seq<Node>, par: Option<nat>, t: Tree)
    requires Wired(ns, par, t)
    ensures forall i :: 0 <= i < |InOrder(t)| ==> 0 < InOrder(t)[i] < |ns|
  {
    WiredIds(ns, par, t);
    InOrderIds(t);
    assert forall i :: 0 <= i < |InOrder(t)| ==> InOrder(t)[i] in InOrder(t);
  }

  /** ... and so is every node listed in pre-order. */
  lemma PreOrderBounded(ns: seq<Node>, par: Option<nat>, t: Tree)
    requires Wired(ns, par, t)
    ensures forall i :: 0 <= i < |PreOrder(t)| ==> 0 < PreOrder(t)[i] < |ns|
  {
    WiredIds(ns, par, t);
    PreOrderIds(t);
    assert forall i :: 0 <= i < |PreOrder(t)| ==> PreOrder(t)[i] in PreOrder(t);
  }

  /** Changing nodes outside a subtree leaves it wired. */
  lemma {:induction false} WiredFrame(ns: seq<Node>, ns': seq<Node>, s: set<nat>, par: Option<nat>, t: Tree)
    requires Wired(ns, par, t) && Agree(ns, ns', s) && s !! Ids(t)
    ensures Wired(ns', par, t)
    decreases t
  {
    if t.Fork? {
      WiredFrame(ns, ns', s, Some(t.id), t.left);
      WiredFrame(ns, ns', s, Some(t.id), t.right);
    }
  }

  /** Re-pointing the parent of a subtree's top, and changing nodes outside it. */
  lemma WiredReparent(ns: seq<Node>, ns': seq<Node>, s: set<nat>, par: Option<nat>, par': Option<nat>, t: Tree)
    requires Wired(ns, par, t) && Distinct(t) && Agree(ns, ns', s) && s * Ids(t) <= {RootId(t)}
    requires t.Fork? ==> ns'[t.id] == ns[t.id].(parent := par')
    ensures Wired(ns', par', t)
  {
    if t.Fork? {
      WiredFrame(ns, ns', s, Some(t.id), t.left);
      WiredFrame(ns, ns', s, Some(t.id), t.right);
    }
  }

  /** The parent pointer the node at `p` must carry. */
  function AtParent(par: Option<nat>, t: Tree, p: Path): Option<nat>
    requires ValidPath(t, p)
    decreases p
  {
    if p == [] then par else AtParent(Some(t.id), Child(t, p[0]), p[1..])
  }

  lemma {:induction false} AtParentStep(par: Option<nat>, t: Tree, p: Path, d: bool)
    requires ValidPath(t, p) && At(t, p).Fork?
    ensures ValidPath(t, p + [d]) && AtParent(par, t, p + [d]) == Some(At(t, p).id)
    ensures At(t, p + [d]) == Child(At(t, p), d)
    decreases p
  {
    if p == [] {
      assert p + [d] == [d];
      assert [d][1..] == [];
    } else {
      assert (p + [d])[1..] == p[1..] + [d];
      AtParentStep(Some(t.id), Child(t, p[0]), p[1..], d);
    }
  }

  /** Every subtree of a wired tree is wired, with the parent pointer its position demands. */
  lemma {:induction false} WiredAt(ns: seq<Node>, par: Option<nat>, t: Tree, p: Path)
    requires Wired(ns, par, t) && ValidPath(t, p)
    ensures Wired(ns, AtParent(par, t, p), At(t, p))
    decreases p
  {
    if p != [] {
      WiredAt(ns, Some(t.id), Child(t, p[0]), p[1..]);
    }
  }

  /** The node `i` with its child pointer on side `d` redirected to `c`. */
  function Relink(n: Node, d: bool, c: nat): Node {
    if d then n.(right := c) else n.(left := c)
  }

  /** The child pointer of a node on side `d`. */
  function Link(n: Node, d: bool): nat {
    if d then n.right else n.left
  }

  lemma {:induction false} AtIds(t: Tree, p: Path)
    requires ValidPath(t, p)
    ensures At(t, p).Fork? ==> At(t, p).id in Ids(t)
    ensures At(t, p).Fork? && p != [] ==> At(t, p).id in Ids(Child(t, p[0]))
  {
    if p != [] {
      AtIds(Child(t, p[0]), p[1..]);
    }
  }

  lemma {:induction false} AtIdsSub(t: Tree, p: Path)
    requires ValidPath(t, p)
    ensures Ids(At(t, p)) <= Ids(t)
  {
    if p != [] {
      AtIdsSub(Child(t, p[0]), p[1..]);
    }
  }

  lemma OutsideChanges(m: set<nat>, c: set<nat>, q: nat, j: nat)
    requires m * c <= {q} && j in c && j != q
    ensures j !in m
  {
    assert j !in m * c;
  }

  lemma Outside(m: set<nat>, c: set<nat>, k: set<nat>, j: nat)
    requires m * c <= k && j in c && j !in k
    ensures j !in m
  {
    assert j !in m * c;
  }

  /** Replacing the subtree below node `q` (at `p`) on side `d` by a wired subtree `s`: only `q`'s
   *  child pointer changes among the nodes outside. */
  lemma {:induction false} PutWired(ns: seq<Node>, ns': seq<Node>, m: set<nat>, par: Option<nat>, t: Tree, p: Path, d: bool, s: Tree)
    requires Distinct(t) && Wired(ns, par, t) && ValidPath(t, p) && At(t, p).Fork?
    requires ValidPath(t, p + [d])
    requires Agree(ns, ns', m) && m * Context(t, p + [d]) <= {At(t, p).id} && At(t, p).id < |ns|
    requires ns'[At(t, p).id] == Relink(ns[At(t, p).id], d, RootId(s))
    requires Wired(ns', Some(At(t, p).id), s)
    ensures Wired(ns', par, Put(t, p + [d], s))
    decreases p
  {
    var q := At(t, p).id;
    if p == [] {
      assert p + [d] == [d];
      assert [d][1..] == [];
      assert Context(t, [d]) == {t.id} + Ids(Child(t, !d));
      WiredFrame(ns, ns', m, Some(t.id), Child(t, !d));
    } else {
      AtIds(t, p);
      assert (p + [d])[1..] == p[1..] + [d];
      assert Context(t, p + [d]) == {t.id} + Ids(Child(t, !p[0])) + Context(Child(t, p[0]), p[1..] + [d]);
      assert t.id != q && t.id in Context(t, p + [d]);
      OutsideChanges(m, Context(t, p + [d]), q, t.id);
      assert ns'[t.id] == ns[t.id];
      assert q !in Ids(Child(t, !p[0]));
      assert m !! Ids(Child(t, !p[0])) by {
        forall j | j in Ids(Child(t, !p[0]))
          ensures j !in m
        {
          OutsideChanges(m, Context(t, p + [d]), q, j);
        }
      }
      WiredFrame(ns, ns', m, Some(t.id), Child(t, !p[0]));
      PutWired(ns, ns', m, Some(t.id), Child(t, p[0]), p[1..], d, s);
      assert Put(t, p + [d], s) == WithChild(t, p[0], Put(Child(t, p[0]), p[1..] + [d], s));
    }
  }

  /** The colour the arena gives any position, `NIL` positions included. */
  lemma ColorAt(ns: seq<Node>, t: Tree, p: Path)
    requires Wired(ns, None, t) && ValidPath(t, p) && |ns| > 0 && ns[0].color == Black
    ensures RootId(At(t, p)) < |ns| && ns[RootId(At(t, p))].color == ColorOf(At(t, p))
  {
    WiredAt(ns, None, t, p);
  }

  /** The links around the node at `p`: it is the root exactly when `p` is empty, and otherwise
   *  its parent pointer names the node above, which holds it on side `Last(p)`. */
  lemma Parentage(ns: seq<Node>, t: Tree, p: Path)
    requires Wired(ns, None, t) && Distinct(t) && ValidPath(t, p) && At(t, p).Fork?
    ensures 0 < At(t, p).id < |ns| && ns[At(t, p).id].color == At(t, p).color
    ensures At(t, p).id == RootId(t) <==> p == []
    ensures ns[At(t, p).id].parent.None? <==> p == []
    ensures p != [] ==>
      p == Up(p) + [Last(p)] && ValidPath(t, Up(p)) && At(t, Up(p)).Fork? &&
      At(t, p) == Child(At(t, Up(p)), Last(p)) &&
      ns[At(t, p).id].parent == Some(At(t, Up(p)).id) && At(t, Up(p)).id < |ns| &&
      ns[At(t, Up(p)).id].color == At(t, Up(p)).color &&
      (At(t, p).id == ns[At(t, Up(p)).id].left <==> !Last(p)) &&
      Link(ns[At(t, Up(p)).id], Last(p)) == At(t, p).id && Link(ns[At(t, Up(p)).id], !Last(p)) != At(t, p).id
  {
    WiredAt(ns, None, t, p);
    if p != [] {
      ParentOf(ns, t, p);
      AtIds(t, p);
      var up := At(t, Up(p));
      PutIds(t, Up(p), up);
      assert Ids(up) == Ids(up.left) + {up.id} + Ids(up.right);
      IdsNonZero(up);
      assert At(t, p).id in Ids(Child(up, Last(p)));
    }
  }

  /** The links around a grandchild `k` at `pg + [a, b]`: its parent `p` at `pg + [a]` hangs on
   *  side `a` of the grandparent `g` at `pg`, which holds the uncle on the other side. */
  lemma Grandchild(ns: seq<Node>, t: Tree, pg: Path, a: bool, b: bool)
    requires Wired(ns, None, t) && Distinct(t) && |ns| > 0 && ns[0].color == Black
    requires ValidPath(t, pg) && At(t, pg).Fork? && Child(At(t, pg), a).Fork?
    requires Child(Child(At(t, pg), a), b).Fork?
    ensures ValidPath(t, pg + [a]) && At(t, pg + [a]) == Child(At(t, pg), a)
    ensures ValidPath(t, pg + [a, b]) && At(t, pg + [a, b]) == Child(Child(At(t, pg), a), b)
    ensures var g, p, k := At(t, pg).id, Child(At(t, pg), a).id, Child(Child(At(t, pg), a), b).id;
      g < |ns| && p < |ns| && k < |ns| &&
      ns[k].parent == Some(p) && ns[p].parent == Some(g) &&
      (p != ns[g].left) == a && (k == Link(ns[p], !a) <==> b == !a) &&
      ns[p].color == Child(At(t, pg), a).color &&
      Link(ns[g], !a) == RootId(Child(At(t, pg), !a)) && RootId(Child(At(t, pg), !a)) < |ns| &&
      ns[RootId(Child(At(t, pg), !a))].color == ColorOf(Child(At(t, pg), !a))
  {
    StepDown(t, pg, a);
    StepDown(t, pg + [a], b);
    assert pg + [a] + [b] == pg + [a, b];
    Parentage(ns, t, pg + [a, b]);
    assert Up(pg + [a, b]) == pg + [a] && Last(pg + [a, b]) == b;
    Parentage(ns, t, pg + [a]);
    assert Up(pg + [a]) == pg && Last(pg + [a]) == a;
    StepDown(t, pg, !a);
    WiredAt(ns, None, t, pg);
    ColorAt(ns, t, pg + [!a]);
  }

  /** Hanging the node `z`, with `NIL` children, at the `NIL` position `p` whose parent is `q`:
   *  `z` points up to `q` and `q` down to `z`, and nothing else in the tree changes. */
  lemma AttachWired(ns: seq<Node>, ns': seq<Node>, t: Tree, p: Path, q: Option<nat>, z: nat)
    requires Wired(ns, None, t) && Distinct(t) && ValidPath(t, p) && At(t, p).Empty?
    requires AtParent(None, t, p) == q && 0 < z < |ns| && z !in Ids(t)
    requires Agree(ns, ns', {z} + (if q.Some? then {q.value} else {})) && |ns'| == |ns|
    requires ns'[z].left == 0 && ns'[z].right == 0 && ns'[z].parent == q
    requires p != [] ==> q.Some? && q.value < |ns| && ns'[q.value] == Relink(ns[q.value], Last(p), z)
    ensures Wired(ns', None, Put(t, p, Fork(Empty, z, ns'[z].book.bookID, ns'[z].color, Empty)))
  {
    var s := Fork(Empty, z, ns'[z].book.bookID, ns'[z].color, Empty);
    if p != [] {
      ParentOf(ns, t, p);
      PutIds(t, p, s);
      var m := {z} + {q.value};
      assert m * Context(t, p) <= {q.value};
      PutWired(ns, ns', m, None, t, Up(p), Last(p), s);
    }
  }

  // ---------------------------------------------------------------------------------------------
  // The books of a tree in key order

  function BooksOf(ns: seq<Node>, ids: seq<nat>): (bs: seq<Book>)
    requires forall i :: 0 <= i < |ids| ==> ids[i] < |ns|
    ensures |bs| == |ids| && forall i :: 0 <= i < |ids| ==> bs[i] == ns[ids[i]].book
  {
    seq(|ids|, i requires 0 <= i < |ids| => ns[ids[i]].book)
  }

  /** The books of an id sequence with `z` inserted at `r`, read from an arena that kept the
   *  books of the old nodes. */
  lemma BooksInsert(ns: seq<Node>, ns': seq<Node>, ids: seq<nat>, r: nat, z: nat)
    requires forall i :: 0 <= i < |ids| ==> ids[i] < |ns|
    requires r <= |ids| && |ns| <= |ns'| && z < |ns'|
    requires forall j :: 0 <= j < |ns| ==> ns'[j].book == ns[j].book
    ensures forall i :: 0 <= i < |ids[..r] + [z] + ids[r..]| ==> (ids[..r] + [z] + ids[r..])[i] < |ns'|
    ensures BooksOf(ns', ids[..r] + [z] + ids[r..]) == BooksOf(ns, ids)[..r] + [ns'[z].book] + BooksOf(ns, ids)[r..]
  {
    var u := ids[..r] + [z] + ids[r..];
    assert forall i :: 0 <= i < |u| ==> u[i] == (if i < r then ids[i] else if i == r then z else ids[i - 1]);
  }

  /** The books after an insertion: the arena grew by the node `z` and then only rewired its
   *  nodes, while `z` went into the id sequence at `r`. */
  lemma BooksInserted(ns0: seq<Node>, ns1: seq<Node>, ns2: seq<Node>, ids: seq<nat>, ids': seq<nat>, r: nat, z: nat)
    requires forall i :: 0 <= i < |ids| ==> ids[i] < |ns0|
    requires |ns1| == |ns0| + 1 && z == |ns0| && forall j :: 0 <= j < |ns0| ==> ns1[j].book == ns0[j].book
    requires Unbooked(ns1, ns2) && r <= |ids| && ids' == ids[..r] + [z] + ids[r..]
    ensures forall i :: 0 <= i < |ids'| ==> ids'[i] < |ns2|
    ensures BooksOf(ns2, ids') == BooksOf(ns0, ids)[..r] + [ns1[z].book] + BooksOf(ns0, ids)[r..]
  {
    BooksInsert(ns0, ns1, ids, r, z);
    BooksUnbooked(ns1, ns2, ids');
  }

  /** The books of the same ids, read from an arena whose books did not change. */
  lemma BooksUnbooked(ns: seq<Node>, ns': seq<Node>, ids: seq<nat>)
    requires forall i :: 0 <= i < |ids| ==> ids[i] < |ns|
    requires Unbooked(ns, ns')
    ensures BooksOf(ns', ids) == BooksOf(ns, ids)
  {
  }

  /** The books of an id sequence without its entry at `j`, read from an arena whose books did
   *  not change. */
  lemma BooksRemove(ns: seq<Node>, ns': seq<Node>, ids: seq<nat>, j: nat)
    requires forall i :: 0 <= i < |ids| ==> ids[i] < |ns|
    requires j < |ids| && Unbooked(ns, ns')
    ensures BooksOf(ns', ids[..j] + ids[j + 1..]) == BooksOf(ns, ids)[..j] + BooksOf(ns, ids)[j + 1..]
  {
    var u := ids[..j] + ids[j + 1..];
    assert forall i :: 0 <= i < |u| ==> u[i] == (if i < j then ids[i] else ids[i + 1]);
  }

  /** The node above a non-root position is the one its parent pointer names. */
  lemma ParentOf(ns: seq<Node>, t: Tree, p: Path)
    requires Wired(ns, None, t) && ValidPath(t, p) && p != []
    ensures p == Up(p) + [Last(p)]
    ensures ValidPath(t, Up(p)) && At(t, Up(p)).Fork? && At(t, p) == Child(At(t, Up(p)), Last(p))
    ensures AtParent(None, t, p) == Some(At(t, Up(p)).id)
    ensures Context(t, p) == Context(t, Up(p)) + {At(t, Up(p)).id} + Ids(Child(At(t, Up(p)), !Last(p)))
    ensures Wired(ns, AtParent(None, t, Up(p)), At(t, Up(p)))
  {
    UpProps(t, p);
    AtParentStep(None, t, Up(p), Last(p));
    WiredAt(ns, None, t, Up(p));
  }

  /** A node's book may change, its id kept: the arena stays wired. */
  lemma {:induction false} WiredRebook(ns: seq<Node>, par: Option<nat>, t: Tree, i: nat, b: Book)
    requires Wired(ns, par, t) && i < |ns| && b.bookID == ns[i].book.bookID
    ensures Wired(ns[i := ns[i].(book := b)], par, t)
    decreases t
  {
    if t.Fork? {
      WiredRebook(ns, Some(t.id), t.left, i, b);
      WiredRebook(ns, Some(t.id), t.right, i, b);
    }
  }

  /** Only the entry of the one position `k` where `i` occurs changes. */
  lemma BooksRebook(ns: seq<Node>, ids: seq<nat>, k: nat, b: Book)
    requires forall m :: 0 <= m < |ids| ==> ids[m] < |ns|
    requires k < |ids| && forall m, n :: 0 <= m < n < |ids| ==> ids[m] != ids[n]
    ensures BooksOf(ns[ids[k] := ns[ids[k]].(book := b)], ids) == BooksOf(ns, ids)[k := b]
  {
    var i := ids[k];
    forall m | 0 <= m < |ids| && m != k ensures ids[m] != i {
      if m < k { assert ids[m] != ids[k]; } else { assert ids[k] != ids[m]; }
    }
  }
}
