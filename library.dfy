/**
 * The library engine of gatorLibrary.py (lines 55-386): a red-black tree of books keyed by
 * `bookID`, with a black `NIL` sentinel, parent pointers and the diagnostic colour-flip counter.
 * The nodes live in an arena (`nodes`, index 0 = `NIL`); the ghost `shape` is the tree the
 * pointers describe.
 */
module Library {
  import opened Wrappers
  import opened Shape
  import opened RedBlack
  import opened Reservations
  import opened Arena
  import opened Rewire
  import opened Fixup
  import opened Content
  import opened Removal
  import opened Rebalance
  import opened Splice
  import opened Circulation
  import opened Ranges
  import opened Reports

  /** What `BorrowBook` reports: no such book, lent to the patron, or reserved for the patron. */
  datatype Loan = Missing | Borrowed | Reserved

  /** What `ReturnBook` reports: an invalid attempt, the book back on the shelf, or the book
   *  allotted to the next patron. */
  datatype Handback = Invalid | OnShelf | Allotted(patronID: int)

  /** The tree after `insert` hangs the red node `z` at the end `p` of its descent: still wired,
   *  over distinct nodes and in key order, and in the loop state of `fix_insert`. */
  lemma Attached(ns: seq<Node>, ns': seq<Node>, t: Tree, p: Path, q: Option<nat>, z: nat)
    requires Wired(ns, None, t) && Distinct(t) && RedBlackRules(t) && NonDecreasing(Keys(t))
    requires 0 < z < |ns| && z !in Ids(t) && p == InsertPath(t, ns[z].book.bookID)
    requires AtParent(None, t, p) == q
    requires Agree(ns, ns', {z} + (if q.Some? then {q.value} else {})) && |ns'| == |ns|
    requires ns'[z].left == 0 && ns'[z].right == 0 && ns'[z].parent == q && ns'[z].color == Red
    requires ns'[z].book == ns[z].book
    requires p != [] ==> q.Some? && q.value < |ns| && ns'[q.value] == Relink(ns[q.value], Last(p), z)
    ensures var u := Put(t, p, Fork(Empty, z, ns[z].book.bookID, Red, Empty));
      Wired(ns', None, u) && Distinct(u) && NonDecreasing(Keys(u)) && InsertState(u, p) && At(u, p).id == z &&
      RootId(u) == (if p == [] then z else RootId(t))
  {
    var leaf := Fork(Empty, z, ns[z].book.bookID, Red, Empty);
    AttachWired(ns, ns', t, p, q, z);
    InsertLeaf(t, p, leaf);
    PutIds(t, p, leaf);
    InsertKeysSorted(t, ns[z].book.bookID, leaf);
  }

  /** Hanging the fresh node `z` below the node `y` where the descent for its key ended
   *  (lines 220-229) gives that tree, without touching any book or `NIL`. */
  lemma Hanging(ns: seq<Node>, t: Tree, p: Path, y: Option<nat>, z: nat)
    requires Wired(ns, None, t) && Distinct(t) && RedBlackRules(t) && NonDecreasing(Keys(t))
    requires 0 < z < |ns| && z !in Ids(t) && ns[z].left == 0 && ns[z].right == 0
    requires p == InsertPath(t, ns[z].book.bookID) && AtParent(None, t, p) == y
    ensures y.Some? ==> y.value < |ns|
    ensures var u, ns' := Put(t, p, Fork(Empty, z, ns[z].book.bookID, Red, Empty)), Hung(ns, z, y);
      Wired(ns', None, u) && Distinct(u) && NonDecreasing(Keys(u)) && InsertState(u, p) && At(u, p).id == z &&
      RootId(u) == (if p == [] then z else RootId(t)) && (y.None? <==> p == []) &&
      Unbooked(ns, ns') && ns'[0] == ns[0]
  {
    var k := ns[z].book.bookID;
    if p != [] {
      InsertPathLast(t, k);
      ParentOf(ns, t, p);
      WiredIds(ns, None, t);
      AtIds(t, Up(p));
    }
    HungFrame(ns, z, y);
    Attached(ns, Hung(ns, z, y), t, p, y, z);
  }

  /** What hanging the leaf `z` with key `k` at the end of its descent does to the contents. */
  lemma InsertContent(t: Tree, k: int, z: nat)
    requires NonDecreasing(Keys(t))
    ensures var u, r := Put(t, InsertPath(t, k), Fork(Empty, z, k, Red, Empty)), Rank(Keys(t), k);
      r <= |InOrder(t)| && Ids(u) == Ids(t) + {z} &&
      InOrder(u) == InOrder(t)[..r] + [z] + InOrder(t)[r..] &&
      Keys(u) == Keys(t)[..r] + [k] + Keys(t)[r..]
  {
    var leaf := Fork(Empty, z, k, Red, Empty);
    PutIds(t, InsertPath(t, k), leaf);
    InsertOrder(t, k, leaf);
    InsertKeys(t, k, leaf);
  }

  class RedBlackTree {
    var nodes: seq<Node>
    var root: nat
    var colorFlipCount: int
    ghost var shape: Tree

    /** The pointers describe `shape`, a search tree (equal keys allowed) over distinct nodes. */
    ghost predicate Wf()
      reads this
    {
      |nodes| > 0 && nodes[0].color == Black &&
      root == RootId(shape) && Wired(nodes, None, shape) && Distinct(shape) && NonDecreasing(Keys(shape))
    }

    /** Between operations: also a red-black tree, and every reservation list sorted. */
    ghost predicate Valid()
      reads this
    {
      Wf() && RedBlackRules(shape) &&
      forall j :: j in Ids(shape) && j < |nodes| ==> Kept(nodes[j].book)
    }

    /** The books in key (in-order) order: the library's contents. */
    ghost function Books(): (bs: seq<Book>)
      reads this
      requires Wf()
      ensures |bs| == Size(shape)
    {
      InOrderBounded(nodes, None, shape);
      BooksOf(nodes, InOrder(shape))
    }

    constructor ()
      ensures Valid() && shape == Empty && Books() == [] && colorFlipCount == 0
    {
      nodes := [Node(Book(0, "", "", "", None, []), Black, 0, 0, None)];
      root := 0;
      colorFlipCount := 0;
      shape := Empty;
    }

    // -------------------------------------------------------------------------------------------
    // Search (`_search`, lines 177-182)

    /** `_search` from the node `i` at the top of subtree `t`. */
    function SearchFrom(ghost t: Tree, ghost par: Option<nat>, i: nat, key: int): (r: nat)
      reads this
      requires Wired(nodes, par, t) && i == RootId(t)
      ensures r == RootId(At(t, Find(t, key)))
      decreases t
    {
      if i == 0 || nodes[i].book.bookID == key then i
      else if key < nodes[i].book.bookID then SearchFrom(t.left, Some(i), nodes[i].left, key)
      else SearchFrom(t.right, Some(i), nodes[i].right, key)
    }

    /** The node holding `key`, or `NIL` (0) exactly when no book has that id. */
    function Search(key: int): (r: nat)
      reads this
      requires Wf()
      ensures r == 0 <==> key !in Keys(shape)
      ensures r != 0 ==> r in Ids(shape) && r < |nodes| && nodes[r].book.bookID == key
      ensures r == RootId(At(shape, Find(shape, key)))
    {
      FindCorrect(shape, key);
      WiredAt(nodes, None, shape, Find(shape, key));
      AtIds(shape, Find(shape, key));
      SearchFrom(shape, None, root, key)
    }

    // -------------------------------------------------------------------------------------------
    // Recolouring and rotations (lines 278-316)

    /** Colour the node at `p`. */
    method SetColor(i: nat, c: Color, ghost p: Path)
      requires Wf() && ValidPath(shape, p) && At(shape, p).Fork? && At(shape, p).id == i
      modifies this
      ensures Wf() && Unbooked(old(nodes), nodes) && nodes[0] == old(nodes[0])
      ensures i < |old(nodes)| && nodes == old(nodes)[i := old(nodes)[i].(color := c)]
      ensures shape == Put(old(shape), p, Paint(At(old(shape), p), c))
      ensures InOrder(shape) == InOrder(old(shape)) && Keys(shape) == Keys(old(shape))
      ensures Ids(shape) == Ids(old(shape))
      ensures root == old(root) && colorFlipCount == old(colorFlipCount)
    {
      PaintWired(nodes, shape, p, c);
      nodes := nodes[i := nodes[i].(color := c)];
      shape := Put(shape, p, Paint(At(shape, p), c));
    }

    /** Point the parent `par` of `u` (or the root) at `v` instead: the link update shared by
     *  `transplant` (lines 63-68) and the rotations (lines 289-294, 309-314). */
    method LinkParent(par: Option<nat>, u: nat, v: nat)
      requires par.Some? ==> par.value < |nodes|
      modifies this
      ensures par.None? ==> nodes == old(nodes) && root == v
      ensures par.Some? ==>
        root == old(root) &&
        nodes == old(nodes)[par.value := Relink(old(nodes[par.value]), u != old(nodes[par.value].left), v)]
      ensures shape == old(shape) && colorFlipCount == old(colorFlipCount)
    {
      if par.None? {
        root := v;
      } else if u == nodes[par.value].left {
        nodes := nodes[par.value := nodes[par.value].(left := v)];
      } else {
        nodes := nodes[par.value := nodes[par.value].(right := v)];
      }
    }

    /** `left_rotate` (lines 278-296) on the arena: the right child `y` of `x` takes `x`'s place
     *  under `x`'s parent (or as the root), `x` becomes `y`'s left child and `y`'s old left
     *  subtree becomes `x`'s right subtree; the counter records a colour difference. */
    method LeftRotate(x: nat)
      requires RotationReads(nodes, x, true)
      modifies this
      ensures nodes == Rotated(old(nodes), x, true)
      ensures root == if Adopted(old(nodes), x, true)[x].parent.None? then old(nodes[x].right) else old(root)
      ensures colorFlipCount ==
        old(colorFlipCount) + if old(nodes[x].color) != old(nodes[nodes[x].right].color) then 1 else 0
    {
      var y := nodes[x].right;
      var b := nodes[y].left;
      nodes := nodes[x := nodes[x].(right := b)];
      if b != 0 {
        nodes := nodes[b := nodes[b].(parent := Some(x))];
      }
      if nodes[x].color != nodes[y].color {
        colorFlipCount := colorFlipCount + 1;
      }
      var par := nodes[x].parent;
      nodes := nodes[y := nodes[y].(parent := par)];
      LinkParent(par, x, y);
      nodes := nodes[y := nodes[y].(left := x)];
      nodes := nodes[x := nodes[x].(parent := Some(y))];
    }

    /** `right_rotate` (lines 298-316), the mirror image: the left child `x` of `y` takes `y`'s
     *  place, `y` becomes `x`'s right child and `x`'s old right subtree becomes `y`'s left
     *  subtree. */
    method RightRotate(y: nat)
      requires RotationReads(nodes, y, false)
      modifies this
      ensures nodes == Rotated(old(nodes), y, false)
      ensures root == if Adopted(old(nodes), y, false)[y].parent.None? then old(nodes[y].left) else old(root)
      ensures colorFlipCount ==
        old(colorFlipCount) + if old(nodes[y].color) != old(nodes[nodes[y].left].color) then 1 else 0
    {
      var x := nodes[y].left;
      var b := nodes[x].right;
      nodes := nodes[y := nodes[y].(left := b)];
      if b != 0 {
        nodes := nodes[b := nodes[b].(parent := Some(y))];
      }
      if nodes[y].color != nodes[x].color {
        colorFlipCount := colorFlipCount + 1;
      }
      var par := nodes[y].parent;
      nodes := nodes[x := nodes[x].(parent := par)];
      LinkParent(par, y, x);
      nodes := nodes[x := nodes[x].(right := y)];
      nodes := nodes[y := nodes[y].(parent := Some(x))];
    }

    /** A rotation at the node `x` at position `p` that raises its child on side `d`: `left_rotate`
     *  when `d` (the right child), `right_rotate` otherwise. The tree keeps its nodes, books and
     *  in-order sequence; the counter grows by one exactly when the two nodes differ in colour. */
    method Rotate(x: nat, d: bool, ghost p: Path)
      requires Wf() && ValidPath(shape, p) && At(shape, p).Fork? && At(shape, p).id == x
      requires Child(At(shape, p), d).Fork?
      modifies this
      ensures Wf()
      ensures Unbooked(old(nodes), nodes)
      ensures nodes[0] == old(nodes[0])
      ensures shape == Put(old(shape), p, Raise(At(old(shape), p), d))
      ensures InOrder(shape) == InOrder(old(shape)) && Keys(shape) == Keys(old(shape))
      ensures Ids(shape) == Ids(old(shape))
      ensures colorFlipCount == old(colorFlipCount) +
        if At(old(shape), p).color != Child(At(old(shape), p), d).color then 1 else 0
    {
      ghost var t := shape;
      RotatedWired(nodes, t, p, d);
      if d {
        LeftRotate(x);
      } else {
        RightRotate(x);
      }
      RaiseAt(t, p, d);
      shape := Put(t, p, Raise(At(t, p), d));
    }

    // -------------------------------------------------------------------------------------------
    // Insertion fix-up (`fix_insert`, lines 241-275)

    /** The loop state of `fix_insert` around the red node `k` at `pk`. */
    ghost predicate Fixing(k: nat, pk: Path)
      reads this
    {
      Wf() && InsertState(shape, pk) && At(shape, pk).id == k
    }

    /** Case 1 (lines 245-250, mirrored 261-266): `k`'s parent `p` and uncle `u` are red. Both
     *  turn black, the grandparent `g` turns red and becomes the new `k`. */
    method RecolorUp(k: nat, p: nat, g: nat, u: nat, a: bool, ghost pg: Path, ghost b: bool)
      returns (k': nat, ghost pk': Path)
      requires ValidPath(shape, pg) && At(shape, pg).Fork? && At(shape, pg).id == g
      requires Child(At(shape, pg), a).Fork? && Child(At(shape, pg), a).id == p
      requires Child(At(shape, pg), a).color == Red
      requires Fixing(k, pg + [a, b])
      requires Child(At(shape, pg), !a).Fork? && Child(At(shape, pg), !a).id == u
      requires Child(At(shape, pg), !a).color == Red
      modifies this
      ensures Fixing(k', pk') && |pk'| < |pg| + 2
      ensures shape == Put(old(shape), pg, Recolored(At(old(shape), pg), a)) && k' == g && pk' == pg
      ensures InOrder(shape) == InOrder(old(shape)) && Keys(shape) == Keys(old(shape))
      ensures Ids(shape) == Ids(old(shape))
      ensures Unbooked(old(nodes), nodes) && nodes[0] == old(nodes[0])
      ensures colorFlipCount == old(colorFlipCount) + 1
    {
      ghost var ns0, t, gt := nodes, shape, At(shape, pg);
      PutAt(t, pg);
      PutOne(gt, !a, Paint(Child(gt, !a), Black));
      Focus(t, pg, gt, [!a], Paint(Child(gt, !a), Black));
      SetColor(u, Black, pg + [!a]);
      ghost var ns1, l1 := nodes, WithChild(gt, !a, Paint(Child(gt, !a), Black));
      PutOne(l1, a, Paint(Child(l1, a), Black));
      Focus(t, pg, l1, [a], Paint(Child(l1, a), Black));
      SetColor(p, Black, pg + [a]);
      ghost var ns2, l2 := nodes, WithChild(l1, a, Paint(Child(l1, a), Black));
      AtPut(t, pg, l2);
      PutPut(t, pg, l2, Paint(l2, Red));
      SetColor(g, Red, pg);
      colorFlipCount := colorFlipCount + 1;
      UnbookedTrans(ns0, ns1, ns2);
      UnbookedTrans(ns0, ns2, nodes);
      assert shape == Put(t, pg, Recolored(gt, a));
      k', pk' := g, pg;
      RecolorStep(t, pg, a, b);
    }

    /** Case 2 (lines 252-254, mirrored 268-270): when `k` is an inner grandchild of `g`, its
     *  parent `p` is rotated down and becomes `k`; either way `k` is then an outer grandchild. */
    method Straighten(k: nat, p: nat, a: bool, ghost pg: Path, ghost b: bool) returns (k1: nat)
      requires ValidPath(shape, pg) && At(shape, pg).Fork?
      requires Child(At(shape, pg), a).Fork? && Child(At(shape, pg), a).id == p
      requires Child(Child(At(shape, pg), a), b).Fork? && Child(Child(At(shape, pg), a), b).id == k
      requires Child(At(shape, pg), a).color == Red && Child(Child(At(shape, pg), a), b).color == Red
      requires Wf()
      modifies this
      ensures Wf() && shape == Put(old(shape), pg, Straightened(At(old(shape), pg), a, b))
      ensures k1 == Child(Child(Straightened(At(old(shape), pg), a, b), a), a).id
      ensures InOrder(shape) == InOrder(old(shape)) && Keys(shape) == Keys(old(shape))
      ensures Ids(shape) == Ids(old(shape))
      ensures Unbooked(old(nodes), nodes) && nodes[0] == old(nodes[0])
      ensures colorFlipCount == old(colorFlipCount)
    {
      ghost var t, gt := shape, At(shape, pg);
      PutAt(t, pg);
      Grandchild(nodes, t, pg, a, b);
      k1 := k;
      if k == Link(nodes[p], !a) {
        k1 := p;
        PutOne(gt, a, Raise(Child(gt, a), !a));
        Focus(t, pg, gt, [a], Raise(Child(gt, a), !a));
        Rotate(p, !a, pg + [a]);
      }
    }

    /** Case 3 (lines 255-258, mirrored 271-274): with `k` an outer grandchild on side `a`, its
     *  parent `p` turns black, the grandparent `g` red, and `g` is rotated down away from `a`. */
    method TurnDown(p: nat, g: nat, a: bool, ghost pg: Path)
      requires Wf() && ValidPath(shape, pg) && At(shape, pg).Fork? && At(shape, pg).id == g
      requires Child(At(shape, pg), a).Fork? && Child(At(shape, pg), a).id == p
      modifies this
      ensures Wf()
      ensures var l := At(old(shape), pg);
        shape == Put(old(shape), pg, Raise(Paint(WithChild(l, a, Paint(Child(l, a), Black)), Red), a))
      ensures InOrder(shape) == InOrder(old(shape)) && Keys(shape) == Keys(old(shape))
      ensures Ids(shape) == Ids(old(shape))
      ensures Unbooked(old(nodes), nodes) && nodes[0] == old(nodes[0])
      ensures colorFlipCount == old(colorFlipCount) + 2
    {
      ghost var ns0, t, l := nodes, shape, At(shape, pg);
      PutAt(t, pg);
      PutOne(l, a, Paint(Child(l, a), Black));
      Focus(t, pg, l, [a], Paint(Child(l, a), Black));
      SetColor(p, Black, pg + [a]);
      ghost var ns1, l1 := nodes, WithChild(l, a, Paint(Child(l, a), Black));
      AtPut(t, pg, l1);
      PutPut(t, pg, l1, Paint(l1, Red));
      SetColor(g, Red, pg);
      ghost var ns2, m := nodes, Paint(l1, Red);
      AtPut(t, pg, m);
      Rotate(g, a, pg);
      colorFlipCount := colorFlipCount + 1;
      PutPut(t, pg, m, Raise(m, a));
      UnbookedTrans(ns0, ns1, ns2);
      UnbookedTrans(ns0, ns2, nodes);
    }

    /** Cases 2 and 3 (lines 251-258, mirrored 267-274): `k`'s uncle is black. The red node `k`
     *  ends up below a black one and no red-red edge is left. */
    method RotateUp(k: nat, p: nat, g: nat, a: bool, ghost pg: Path, ghost b: bool)
      returns (k': nat, ghost pk': Path)
      requires ValidPath(shape, pg) && At(shape, pg).Fork? && At(shape, pg).id == g
      requires Child(At(shape, pg), a).Fork? && Child(At(shape, pg), a).id == p
      requires Child(At(shape, pg), a).color == Red
      requires Fixing(k, pg + [a, b])
      requires ColorOf(Child(At(shape, pg), !a)) == Black
      modifies this
      ensures Fixing(k', pk') && |pk'| < |pg| + 2
      ensures Child(Child(At(old(shape), pg), a), b).Fork?
      ensures shape == Put(old(shape), pg, Restructured(At(old(shape), pg), a, b)) && pk' == pg + [a]
      ensures NoRR(shape)
      ensures InOrder(shape) == InOrder(old(shape)) && Keys(shape) == Keys(old(shape))
      ensures Ids(shape) == Ids(old(shape))
      ensures Unbooked(old(nodes), nodes) && nodes[0] == old(nodes[0])
      ensures colorFlipCount == old(colorFlipCount) + 2
    {
      ghost var ns0, t, gt := nodes, shape, At(shape, pg);
      PutTwo(gt, a, b, Empty);
      PathConcat(t, pg, [a, b]);
      var k1 := Straighten(k, p, a, pg, b);
      ghost var ns1, l := nodes, Straightened(gt, a, b);
      AtPut(t, pg, l);
      Grandchild(nodes, shape, pg, a, a);
      var p1 := nodes[k1].parent.value;
      var g1 := nodes[p1].parent.value;
      TurnDown(p1, g1, a, pg);
      PutPut(t, pg, l, Restructured(gt, a, b));
      UnbookedTrans(ns0, ns1, nodes);
      k', pk' := k1, pg + [a];
      RestructureStep(t, pg, a, b);
    }

    /** Where `fix_insert` finds the nodes it works on when `k`'s parent is red: the parent `p`
     *  at `pg + [a]` is not the root, so there is a grandparent `g` at `pg`, and `u` is the
     *  uncle on the other side. */
    lemma InsertLinks(k: nat, pk: Path) returns (pg: Path)
      requires Fixing(k, pk) && pk != [] && ValidPath(shape, Up(pk)) && ColorOf(At(shape, Up(pk))) == Red
      ensures |pk| >= 2 && pk == pg + [Last(Up(pk)), Last(pk)]
      ensures var a := Last(Up(pk));
        ValidPath(shape, pg) && At(shape, pg).Fork? && Child(At(shape, pg), a).Fork? &&
        k < |nodes| && nodes[k].parent == Some(Child(At(shape, pg), a).id) &&
        Child(At(shape, pg), a).id < |nodes| && Child(At(shape, pg), a).color == Red &&
        nodes[Child(At(shape, pg), a).id].parent == Some(At(shape, pg).id) && At(shape, pg).id < |nodes| &&
        (Child(At(shape, pg), a).id != nodes[At(shape, pg).id].left) == a &&
        Link(nodes[At(shape, pg).id], !a) == RootId(Child(At(shape, pg), !a)) &&
        RootId(Child(At(shape, pg), !a)) < |nodes| &&
        nodes[RootId(Child(At(shape, pg), !a))].color == ColorOf(Child(At(shape, pg), !a))
    {
      Parentage(nodes, shape, pk);
      var pp := Up(pk);
      Parentage(nodes, shape, pp);
      pg := Up(pp);
      var a := Last(pp);
      assert pk == pg + [a, Last(pk)];
      StepDown(shape, pg, !a);
      WiredAt(nodes, None, shape, pg);
      ColorAt(nodes, shape, pg + [!a]);
    }

    /** One round of the loop of `fix_insert` (lines 242-274): `k`'s parent is red, so it has a
     *  grandparent; the uncle's colour selects case 1 or cases 2 and 3. */
    method FixInsertStep(k: nat, ghost pk: Path) returns (k': nat, ghost pk': Path)
      requires Fixing(k, pk) && pk != [] && ValidPath(shape, Up(pk)) && ColorOf(At(shape, Up(pk))) == Red
      modifies this
      ensures Fixing(k', pk') && |pk'| < |pk|
      ensures InOrder(shape) == InOrder(old(shape)) && Keys(shape) == Keys(old(shape))
      ensures Ids(shape) == Ids(old(shape))
      ensures Unbooked(old(nodes), nodes) && nodes[0] == old(nodes[0])
      ensures |pk| >= 2 && ValidPath(old(shape), Up(Up(pk))) && At(old(shape), Up(Up(pk))).Fork?
      ensures colorFlipCount == old(colorFlipCount) +
        if ColorOf(Child(At(old(shape), Up(Up(pk))), !Last(Up(pk)))) == Red then 1 else 2
    {
      ghost var pg := InsertLinks(k, pk);
      assert Up(Up(pk)) == pg && Last(Up(pk)) == Last(pg + [Last(Up(pk))]);
      var p := nodes[k].parent.value;
      var g := nodes[p].parent.value;
      var a := p != nodes[g].left;
      var u := Link(nodes[g], !a);
      if nodes[u].color == Red {
        k', pk' := RecolorUp(k, p, g, u, a, pg, Last(pk));
      } else {
        k', pk' := RotateUp(k, p, g, a, pg, Last(pk));
      }
    }

    /** `fix_insert` (lines 241-275): from the loop state around the new red node `k`, restores
     *  the red-black rules without changing the nodes, their order or their books. */
    method FixInsert(k: nat, ghost pk: Path)
      requires Fixing(k, pk)
      modifies this
      ensures Wf() && RedBlackRules(shape)
      ensures InOrder(shape) == InOrder(old(shape)) && Keys(shape) == Keys(old(shape))
      ensures Ids(shape) == Ids(old(shape))
      ensures Unbooked(old(nodes), nodes) && nodes[0] == old(nodes[0])
      ensures colorFlipCount >= old(colorFlipCount)
    {
      var x: nat := k;
      ghost var px := pk;
      Parentage(nodes, shape, px);
      while x != root && nodes[nodes[x].parent.value].color == Red
        invariant Fixing(x, px)
        invariant x == root <==> px == []
        invariant x < |nodes|
        invariant px != [] ==> nodes[x].parent.Some? && nodes[x].parent.value < |nodes|
        invariant px != [] ==>
          ValidPath(shape, Up(px)) && nodes[nodes[x].parent.value].color == ColorOf(At(shape, Up(px)))
        invariant InOrder(shape) == InOrder(old(shape)) && Keys(shape) == Keys(old(shape))
        invariant Ids(shape) == Ids(old(shape))
        invariant Unbooked(old(nodes), nodes) && nodes[0] == old(nodes[0])
        invariant colorFlipCount >= old(colorFlipCount)
        decreases |px|
      {
        ghost var ns0 := nodes;
        x, px := FixInsertStep(x, px);
        UnbookedTrans(old(nodes), ns0, nodes);
        Parentage(nodes, shape, px);
      }
      if px != [] {
        Parentage(nodes, shape, px);
        XToNoRR(shape, Up(px), Last(px));
      }
      ghost var t := shape;
      SetColor(root, Black, []);
      BlackenRules(t);
    }

    // -------------------------------------------------------------------------------------------
    // Insertion (`InsertBook` and `insert`, lines 207-238)

    /** Lines 220-235: hang `z` below `y`, on the side its key selects against `y`'s key, or make
     *  it the root when the tree was empty; then colour it red. */
    method Attach(z: nat, y: Option<nat>, ghost p: Path)
      requires Wf() && RedBlackRules(shape) && 0 < z < |nodes| && z !in Ids(shape)
      requires nodes[z].left == 0 && nodes[z].right == 0
      requires p == InsertPath(shape, nodes[z].book.bookID) && AtParent(None, shape, p) == y
      modifies this
      ensures Fixing(z, p)
      ensures shape == Put(old(shape), p, Fork(Empty, z, old(nodes[z].book.bookID), Red, Empty))
      ensures Unbooked(old(nodes), nodes) && nodes[0] == old(nodes[0])
      ensures colorFlipCount == old(colorFlipCount)
    {
      ghost var t, ns0 := shape, nodes;
      Hanging(nodes, t, p, y, z);
      HangNode(z, y);
      shape := Put(t, p, Fork(Empty, z, ns0[z].book.bookID, Red, Empty));
    }

    /** Lines 220-229 on the arena: `z.parent = y`, then `z` becomes the root or the child of `y`
     *  on the side its key picks, then `z` is painted red. */
    method HangNode(z: nat, y: Option<nat>)
      requires z < |nodes| && (y.Some? ==> y.value < |nodes|)
      modifies this
      ensures nodes == Hung(old(nodes), z, y) && root == (if y.None? then z else old(root))
      ensures shape == old(shape) && colorFlipCount == old(colorFlipCount)
    {
      nodes := nodes[z := nodes[z].(parent := y)];
      if y.None? {
        root := z;
      } else if nodes[z].book.bookID < nodes[y.value].book.bookID {
        nodes := nodes[y.value := nodes[y.value].(left := z)];
      } else {
        nodes := nodes[y.value := nodes[y.value].(right := z)];
      }
      nodes := nodes[z := nodes[z].(color := Red)];
    }

    /** `insert` (lines 214-238): the search-tree descent for the key of the fresh node `z`
     *  (equal keys go right), then `z` is hung at the `NIL` position reached, the counter is
     *  bumped and `fix_insert` restores the red-black rules. `z` comes right after every node
     *  whose key is not greater than its own. */
    method Insert(z: nat)
      requires Wf() && RedBlackRules(shape) && 0 < z < |nodes| && z !in Ids(shape)
      requires nodes[z].left == 0 && nodes[z].right == 0
      modifies this
      ensures Wf() && RedBlackRules(shape)
      ensures var r := Rank(old(Keys(shape)), old(nodes[z].book.bookID));
        r <= |old(InOrder(shape))| &&
        InOrder(shape) == old(InOrder(shape))[..r] + [z] + old(InOrder(shape))[r..] &&
        Keys(shape) == old(Keys(shape))[..r] + [old(nodes[z].book.bookID)] + old(Keys(shape))[r..]
      ensures Ids(shape) == old(Ids(shape)) + {z}
      ensures Unbooked(old(nodes), nodes)
      ensures colorFlipCount >= old(colorFlipCount) + 1
    {
      var y;
      ghost var p;
      y, p := Descend(nodes[z].book.bookID);
      ghost var t, k := shape, nodes[z].book.bookID;
      Attach(z, y, p);
      colorFlipCount := colorFlipCount + 1;
      InsertContent(t, k, z);
      FixInsert(z, p);
    }

    /** The descent of `insert` (lines 216-223): from the root, left when `k` is smaller than the
     *  node's key and right otherwise, down to `NIL`; `y` is the last node passed. */
    method Descend(k: int) returns (y: Option<nat>, ghost p: Path)
      requires Wf()
      ensures p == InsertPath(shape, k) && AtParent(None, shape, p) == y
      ensures y.None? <==> root == 0
      ensures y.Some? ==> y.value in Ids(shape) && y.value < |nodes|
    {
      y := None;
      var x := root;
      p := [];
      while x != 0
        invariant ValidPath(shape, p) && x == RootId(At(shape, p))
        invariant InsertPath(shape, k) == p + InsertPath(At(shape, p), k)
        invariant AtParent(None, shape, p) == y
        invariant y.None? <==> p == []
        invariant p == [] ==> x == root
        invariant y.Some? ==> y.value in Ids(shape) && y.value < |nodes|
        decreases Size(At(shape, p))
      {
        WiredAt(nodes, None, shape, p);
        AtIds(shape, p);
        InsertPathStep(shape, p, k);
        ghost var d := !(k < At(shape, p).key);
        AtParentStep(None, shape, p, d);
        y := Some(x);
        if k < nodes[x].book.bookID {
          x := nodes[x].left;
        } else {
          x := nodes[x].right;
        }
        p := p + [d];
      }
      WiredAt(nodes, None, shape, p);
    }

    /** `InsertBook` (lines 207-212): a new book, available as given, not borrowed and with no
     *  reservations, joins the library right after every book whose id is not greater than its
     *  own; the tree stays a red-black search tree and no other book changes. */
    method InsertBook(bookID: int, title: string, author: string, availability: string)
      requires Valid()
      modifies this
      ensures Valid()
      ensures var r := Rank(old(Keys(shape)), bookID);
        r <= |old(Books())| &&
        Books() == old(Books())[..r] + [Book(bookID, title, author, availability, None, [])] + old(Books())[r..]
      ensures |nodes| == |old(nodes)| + 1 && forall j :: 0 <= j < |old(nodes)| ==> nodes[j].book == old(nodes[j].book)
      ensures colorFlipCount > old(colorFlipCount)
    {
      ghost var ns0, t := nodes, shape;
      var z := |nodes|;
      var book := Book(bookID, title, author, availability, None, []);
      nodes := nodes + [Node(book, Red, 0, 0, None)];
      WiredFrame(ns0, nodes, {}, None, shape);
      WiredIds(ns0, None, shape);
      ghost var ns1 := nodes;
      Insert(z);
      InOrderBounded(ns0, None, t);
      BooksInserted(ns0, ns1, nodes, InOrder(t), InOrder(shape), Rank(Keys(t), bookID), z);
      KeptGrown(ns0, nodes, Ids(t), Ids(shape), z);
    }

    // -------------------------------------------------------------------------------------------
    // Deletion fix-up (`fix_delete`, lines 76-132)

    /** The loop state of `fix_delete` around `x` at `px`: `x` may be `NIL`, whose parent pointer
     *  then says where it stands. */
    ghost predicate Deleting(x: nat, px: Path)
      reads this
    {
      Wf() && DeleteState(shape, px) && RootId(At(shape, px)) == x && x < |nodes| &&
      (px != [] ==> nodes[x].parent == AtParent(None, shape, px))
    }

    /** `x` is the root exactly at the top. */
    lemma DeletingTop(x: nat, px: Path)
      requires Deleting(x, px)
      ensures x == root <==> px == []
    {
      if px != [] {
        if x != 0 {
          Parentage(nodes, shape, px);
        } else {
          assert shape.Fork?;
        }
      }
    }

    /** Where `fix_delete` finds `x`'s parent `P` and the side `a` of `x` (lines 78 and 106) when
     *  `x` is black and not the root. */
    lemma DeleteLinks(x: nat, px: Path) returns (pp: Path, a: bool)
      requires Deleting(x, px) && px != [] && ColorOf(At(shape, px)) == Black
      ensures px == pp + [a] && Doubled(shape, pp, a)
      ensures nodes[x].parent == Some(At(shape, pp).id) && At(shape, pp).id < |nodes|
      ensures (x != nodes[At(shape, pp).id].left) == a
    {
      ParentOf(nodes, shape, px);
      pp, a := Up(px), Last(px);
      if x != 0 {
        WiredAt(nodes, None, shape, px);
      }
      DoubledLocal(shape, pp, a);
      var p := At(shape, pp);
      WiredAt(nodes, None, shape, pp);
      PutIds(shape, pp, p);
      assert Ids(p) == Ids(p.left) + {p.id} + Ids(p.right);
    }

    /** The sibling `s` of `x` in that state and the links and colours the cases read. */
    lemma SiblingLinks(pp: Path, a: bool)
      requires Wf() && Doubled(shape, pp, a)
      ensures var p := At(shape, pp);
        Child(p, !a).Fork? && ValidPath(shape, pp + [!a]) && At(shape, pp + [!a]) == Child(p, !a) &&
        p.id < |nodes| && Link(nodes[p.id], !a) == Child(p, !a).id
      ensures var s := Child(At(shape, pp), !a);
        s.Fork? && s.id < |nodes| && nodes[s.id].color == s.color &&
        Link(nodes[s.id], a) == RootId(Child(s, a)) && Link(nodes[s.id], !a) == RootId(Child(s, !a)) &&
        RootId(s.left) < |nodes| && RootId(s.right) < |nodes| &&
        nodes[RootId(s.left)].color == ColorOf(s.left) && nodes[RootId(s.right)].color == ColorOf(s.right)
    {
      DoubledLocal(shape, pp, a);
      StepDown(shape, pp, !a);
      WiredAt(nodes, None, shape, pp);
      WiredAt(nodes, None, shape, pp + [!a]);
      StepDown(shape, pp + [!a], false);
      StepDown(shape, pp + [!a], true);
      ColorAt(nodes, shape, pp + [!a]);
      ColorAt(nodes, shape, pp + [!a] + [false]);
      ColorAt(nodes, shape, pp + [!a] + [true]);
    }

    /** Case 2 (lines 88-90, mirrored 115-117): the black sibling `s` at `pp + [!a]` turns red. */
    method PaleSibling(s: nat, a: bool, ghost pp: Path)
      requires Wf() && ValidPath(shape, pp) && At(shape, pp).Fork? && Child(At(shape, pp), !a).Fork?
      requires Child(At(shape, pp), !a).id == s
      modifies this
      ensures Wf() && shape == Put(old(shape), pp, SiblingPaled(At(old(shape), pp), a))
      ensures InOrder(shape) == InOrder(old(shape)) && Keys(shape) == Keys(old(shape))
      ensures Ids(shape) == Ids(old(shape))
      ensures Unbooked(old(nodes), nodes) && nodes[0] == old(nodes[0])
      ensures colorFlipCount == old(colorFlipCount)
    {
      ghost var t, l := shape, At(shape, pp);
      PutOne(l, !a, Paint(Child(l, !a), Red));
      PathConcat(t, pp, [!a]);
      PutConcat(t, pp, [!a], Paint(Child(l, !a), Red));
      SetColor(s, Red, pp + [!a]);
    }

    /** Case 3 (lines 92-98, mirrored 119-125): the far child of the black sibling `s` is black and
     *  its near child `c` red; `c` turns black, `s` red and `s` is rotated away from `x`. */
    method RaiseNear(c: nat, s: nat, a: bool, ghost pp: Path)
      requires Wf() && ValidPath(shape, pp) && At(shape, pp).Fork? && Child(At(shape, pp), !a).Fork?
      requires Child(At(shape, pp), !a).id == s
      requires Child(Child(At(shape, pp), !a), a).Fork? && Child(Child(At(shape, pp), !a), a).id == c
      modifies this
      ensures Wf()
      ensures var l := At(old(shape), pp);
        shape == Put(old(shape), pp, WithChild(l, !a, NearRaised(Child(l, !a), a)))
      ensures InOrder(shape) == InOrder(old(shape)) && Keys(shape) == Keys(old(shape))
      ensures Ids(shape) == Ids(old(shape))
      ensures Unbooked(old(nodes), nodes) && nodes[0] == old(nodes[0])
      ensures colorFlipCount == old(colorFlipCount) + 2
    {
      ghost var t, l := shape, At(shape, pp);
      PutOne(l, !a, NearRaised(Child(l, !a), a));
      PathConcat(t, pp, [!a]);
      PutConcat(t, pp, [!a], NearRaised(Child(l, !a), a));
      TurnDown(c, s, a, pp + [!a]);
    }

    /** Case 4 (lines 100-104, mirrored 127-131): the far child of the black sibling `s` is red. `s`
     *  takes the colour of `x`'s parent `p`, `p` and the far child turn black, and `p` is rotated
     *  down towards `x`; the counter records the rotation when `p` was red. */
    method RaiseFar(p: nat, s: nat, f: nat, a: bool, ghost pp: Path)
      requires Wf() && ValidPath(shape, pp) && At(shape, pp).Fork? && At(shape, pp).id == p
      requires Child(At(shape, pp), !a).Fork? && Child(At(shape, pp), !a).id == s
      requires Child(Child(At(shape, pp), !a), !a).Fork? && Child(Child(At(shape, pp), !a), !a).id == f
      requires p < |nodes| && nodes[p].color == At(shape, pp).color
      modifies this
      ensures Wf() && shape == Put(old(shape), pp, FarRaised(At(old(shape), pp), a))
      ensures InOrder(shape) == InOrder(old(shape)) && Keys(shape) == Keys(old(shape))
      ensures Ids(shape) == Ids(old(shape))
      ensures Unbooked(old(nodes), nodes) && nodes[0] == old(nodes[0])
      ensures colorFlipCount == old(colorFlipCount) + if At(old(shape), pp).color == Red then 1 else 0
    {
      ghost var ns0, t, l := nodes, shape, At(shape, pp);
      var pc := nodes[p].color;
      ghost var sv := Child(l, !a);
      ghost var l1 := WithChild(l, !a, Paint(sv, pc));
      PutOne(l, !a, Paint(sv, pc));
      PathConcat(t, pp, [!a]);
      PutConcat(t, pp, [!a], Paint(sv, pc));
      SetColor(s, pc, pp + [!a]);
      ghost var ns1 := nodes;
      AtPut(t, pp, l1);
      PutPut(t, pp, l1, Paint(l1, Black));
      SetColor(p, Black, pp);
      ghost var ns2, l2 := nodes, Paint(l1, Black);
      ghost var fv := Child(Child(l2, !a), !a);
      ghost var l3 := WithChild(l2, !a, WithChild(Child(l2, !a), !a, Paint(fv, Black)));
      AtPut(t, pp, l2);
      PutTwo(l2, !a, !a, Paint(fv, Black));
      PathConcat(Put(t, pp, l2), pp, [!a, !a]);
      PutConcat(Put(t, pp, l2), pp, [!a, !a], Paint(fv, Black));
      PutPut(t, pp, l2, l3);
      SetColor(f, Black, pp + [!a, !a]);
      ghost var ns3 := nodes;
      AtPut(t, pp, l3);
      assert l3 == Paint(WithChild(l, !a, WithChild(Paint(sv, l.color), !a, Paint(Child(sv, !a), Black))), Black);
      Rotate(p, !a, pp);
      PutPut(t, pp, l3, Raise(l3, !a));
      UnbookedTrans(ns0, ns1, ns2);
      UnbookedTrans(ns0, ns2, ns3);
      UnbookedTrans(ns0, ns3, nodes);
    }

    /** Case 1 (lines 80-86, mirrored 107-113): when the sibling of `x` (below `p` on side `a`)
     *  is red, it turns black, `p` red, and `p` is rotated down towards `x`; `x` is then one
     *  level deeper below the red `p`. Either way `x` ends up with a black sibling `s`. */
    method DarkenSibling(p: nat, a: bool, ghost pp: Path) returns (s: nat, ghost pp': Path)
      requires Wf() && Doubled(shape, pp, a) && At(shape, pp).id == p
      modifies this
      ensures Wf() && Doubled(shape, pp', a) && At(shape, pp').id == p
      ensures Child(At(shape, pp'), a) == Child(At(old(shape), pp), a)
      ensures AtParent(None, shape, pp' + [a]) == Some(p)
      ensures pp' == pp || (pp' == pp + [a] && At(shape, pp').color == Red)
      ensures Child(At(shape, pp'), !a).Fork? && Child(At(shape, pp'), !a).id == s
      ensures Child(At(shape, pp'), !a).color == Black
      ensures InOrder(shape) == InOrder(old(shape)) && Keys(shape) == Keys(old(shape))
      ensures Ids(shape) == Ids(old(shape))
      ensures Unbooked(old(nodes), nodes) && nodes[0] == old(nodes[0])
      ensures colorFlipCount == old(colorFlipCount) + if ColorOf(Child(At(old(shape), pp), !a)) == Red then 2 else 0
      ensures pp' == pp <==> ColorOf(Child(At(old(shape), pp), !a)) == Black
      ensures pp' == pp ==> At(shape, pp') == At(old(shape), pp)
      ensures pp' == pp ==> shape == old(shape)
      ensures pp' != pp ==> shape == Put(old(shape), pp, SiblingRed(At(old(shape), pp), a))
      ensures pp' != pp ==> Child(At(shape, pp'), !a) == Child(Child(At(old(shape), pp), !a), a)
    {
      SiblingLinks(pp, a);
      s := Link(nodes[p], !a);
      pp' := pp;
      if nodes[s].color == Red {
        SiblingRedDoubled(shape, pp, a);
        TurnDown(s, p, !a, pp);
        pp' := pp + [a];
        SiblingLinks(pp', a);
        s := Link(nodes[p], !a);
      }
      AtParentStep(None, shape, pp', a);
    }

    /** Cases 2 to 4 (lines 88-104, mirrored 115-131) at the black sibling `s` of `x`: case 2
     *  moves `x` up to `p`; cases 3 and 4 end the loop at the root. */
    method ResolveSibling(p: nat, s: nat, a: bool, ghost pp: Path) returns (x': nat, ghost px': Path)
      requires Wf() && Doubled(shape, pp, a) && At(shape, pp).id == p
      requires Child(At(shape, pp), !a).Fork? && Child(At(shape, pp), !a).id == s
      requires Child(At(shape, pp), !a).color == Black
      modifies this
      ensures Deleting(x', px')
      ensures px' == [] || (px' == pp && ColorOf(At(shape, px')) == At(old(shape), pp).color)
      ensures InOrder(shape) == InOrder(old(shape)) && Keys(shape) == Keys(old(shape))
      ensures Ids(shape) == Ids(old(shape))
      ensures Unbooked(old(nodes), nodes) && nodes[0] == old(nodes[0])
      ensures var l := At(old(shape), pp);
        var sv := Child(l, !a);
        colorFlipCount == old(colorFlipCount) +
          if ColorOf(sv.left) == Black && ColorOf(sv.right) == Black then 0
          else (if ColorOf(Child(sv, !a)) == Black then 2 else 0) + (if l.color == Red then 1 else 0)
    {
      SiblingLinks(pp, a);
      ghost var t1 := shape;
      if nodes[nodes[s].left].color == Black && nodes[nodes[s].right].color == Black {
        SiblingPaledDelete(t1, pp, a);
        PaleSibling(s, a, pp);
        x', px' := p, pp;
        if pp != [] {
          WiredAt(nodes, None, shape, pp);
        }
      } else {
        var s' := s;
        ghost var ns1 := nodes;
        if nodes[Link(nodes[s], !a)].color == Black {
          var c := Link(nodes[s], a);
          NearRaisedDoubled(t1, pp, a);
          RaiseNear(c, s, a, pp);
          SiblingLinks(pp, a);
          s' := Link(nodes[p], !a);
        }
        ghost var t2, ns2 := shape, nodes;
        var f := Link(nodes[s'], !a);
        FarRaisedDelete(t2, pp, a);
        ColorAt(nodes, shape, pp);
        RaiseFar(p, s', f, a, pp);
        x', px' := root, [];
        UnbookedTrans(ns1, ns2, nodes);
      }
    }

    /** One round of the loop of `fix_delete` (lines 77-131) at the black non-root `x`: case 1
     *  when the sibling is red, then case 2, which moves `x` up to its parent, or cases 3 and 4,
     *  which end the loop at the root. */
    method FixDeleteStep(x: nat, ghost px: Path) returns (x': nat, ghost px': Path)
      requires Deleting(x, px) && px != [] && ColorOf(At(shape, px)) == Black
      modifies this
      ensures Deleting(x', px')
      ensures |px'| < |px| || (|px'| == |px| && ColorOf(At(shape, px')) == Red)
      ensures InOrder(shape) == InOrder(old(shape)) && Keys(shape) == Keys(old(shape))
      ensures Ids(shape) == Ids(old(shape))
      ensures Unbooked(old(nodes), nodes) && nodes[0] == old(nodes[0])
      ensures colorFlipCount == old(colorFlipCount) + DeleteRoundFlips(old(shape), px)
    {
      ghost var ns0 := nodes;
      ghost var pp, ga := DeleteLinks(x, px);
      var p := nodes[x].parent.value;
      var a := x != nodes[p].left;
      var s;
      s, pp := DarkenSibling(p, a, pp);
      ghost var ns1 := nodes;
      x', px' := ResolveSibling(p, s, a, pp);
      UnbookedTrans(ns0, ns1, nodes);
    }

    /** `fix_delete` (lines 76-132): from the loop state around `x`, restores the red-black rules
     *  without changing the nodes, their order or their books. */
    method FixDelete(x: nat, ghost px: Path)
      requires Deleting(x, px)
      modifies this
      ensures Wf() && RedBlackRules(shape)
      ensures InOrder(shape) == InOrder(old(shape)) && Keys(shape) == Keys(old(shape))
      ensures Ids(shape) == Ids(old(shape))
      ensures Unbooked(old(nodes), nodes)
      ensures colorFlipCount >= old(colorFlipCount)
    {
      var y: nat := x;
      ghost var py := px;
      DeletingTop(y, py);
      ColorAt(nodes, shape, py);
      while y != root && nodes[y].color == Black
        invariant Deleting(y, py)
        invariant y == root <==> py == []
        invariant nodes[y].color == ColorOf(At(shape, py))
        invariant InOrder(shape) == InOrder(old(shape)) && Keys(shape) == Keys(old(shape))
        invariant Ids(shape) == Ids(old(shape))
        invariant Unbooked(old(nodes), nodes)
        invariant colorFlipCount >= old(colorFlipCount)
        decreases 2 * |py| + if ColorOf(At(shape, py)) == Black then 1 else 0
      {
        ghost var ns0 := nodes;
        y, py := FixDeleteStep(y, py);
        UnbookedTrans(old(nodes), ns0, nodes);
        DeletingTop(y, py);
        ColorAt(nodes, shape, py);
      }
      ghost var t := shape;
      // line 132; `NIL` is black already
      if y != 0 {
        SetColor(y, Black, py);
      }
      DeleteExit(t, py);
    }

    // -------------------------------------------------------------------------------------------
    // Deletion (`transplant`, `minimum`, `delete_node`, lines 62-74 and 135-161)

    /** `transplant(u, v)` (lines 62-69) on the arena. */
    method Transplant(u: nat, v: nat)
      requires u < |nodes| && v < |nodes| && (nodes[u].parent.Some? ==> nodes[u].parent.value < |nodes|)
      modifies this
      ensures nodes == Transplanted(old(nodes), u, v)
      ensures root == if old(nodes[u].parent).None? then v else old(root)
      ensures shape == old(shape) && colorFlipCount == old(colorFlipCount)
    {
      var par := nodes[u].parent;
      LinkParent(par, u, v);
      nodes := nodes[v := nodes[v].(parent := par)];
    }

    /** `minimum` (lines 71-74) from the node `i` at `p`: the leftmost node below it, which holds
     *  the first and least key of that subtree. */
    method Minimum(i: nat, ghost p: Path) returns (m: nat)
      requires Wf() && ValidPath(shape, p) && At(shape, p).Fork? && At(shape, p).id == i
      ensures m == Min(At(shape, p)).id && m == InOrder(At(shape, p))[0]
      ensures m < |nodes| && nodes[m].color == Min(At(shape, p)).color
      ensures forall k :: k in Keys(At(shape, p)) ==> nodes[m].book.bookID <= k
    {
      m := i;
      ghost var q: Path := [];
      PathConcat(shape, p, q);
      WiredAt(nodes, None, shape, p + q);
      while nodes[m].left != 0
        invariant ValidPath(shape, p + q) && At(shape, p + q).Fork? && At(shape, p + q).id == m
        invariant Wired(nodes, AtParent(None, shape, p + q), At(shape, p + q))
        invariant Min(At(shape, p + q)) == Min(At(shape, p))
        decreases Size(At(shape, p + q))
      {
        WiredAt(nodes, None, shape, p + q);
        StepDown(shape, p + q, false);
        assert p + (q + [false]) == p + q + [false];
        m := nodes[m].left;
        q := q + [false];
        WiredAt(nodes, None, shape, p + q);
      }
      NonDecreasingAt(shape, p);
      MinLeast(At(shape, p));
    }

    /** Lines 148-151, with `x.parent = y` when `y` is `z`'s right child (see `Detached`). */
    method Detach(z: nat, y: nat)
      requires DetachReads(nodes, z, y)
      modifies this
      ensures nodes == Detached(old(nodes), z, y)
      ensures root == if old(nodes[y].parent) != Some(z) && old(nodes[y].parent).None? then old(nodes[y].right) else old(root)
      ensures shape == old(shape) && colorFlipCount == old(colorFlipCount)
    {
      var x := nodes[y].right;
      if nodes[y].parent != Some(z) {
        Transplant(y, nodes[y].right);
        nodes := nodes[y := nodes[y].(right := nodes[z].right)];
        nodes := nodes[nodes[y].right := nodes[nodes[y].right].(parent := Some(y))];
      } else {
        nodes := nodes[x := nodes[x].(parent := Some(y))];
      }
    }

    /** Lines 152-155: `y` takes `z`'s place, left subtree and colour. */
    method Replace(z: nat, y: nat)
      requires ReplaceReads(nodes, z, y)
      modifies this
      ensures nodes == Replaced(old(nodes), z, y)
      ensures root == if old(nodes[z].parent).None? then y else old(root)
      ensures shape == old(shape) && colorFlipCount == old(colorFlipCount)
    {
      Transplant(z, y);
      nodes := nodes[y := nodes[y].(left := nodes[z].left)];
      nodes := nodes[nodes[y].left := nodes[nodes[y].left].(parent := Some(y))];
      nodes := nodes[y := nodes[y].(color := nodes[z].color)];
    }

    /** The arena after `z` at `pz` of the tree `t` has left its place (lines 138-155): the
     *  tree is `Removed` in its place, `x` roots the subtree that moved up, and a `NIL` there
     *  knows its parent. */
    ghost predicate Unlinked(t: Tree, pz: Path, x: nat)
      requires ValidPath(t, pz) && At(t, pz).Fork?
      reads this
    {
      var zt := At(t, pz);
      var px := pz + Hole(zt);
      shape == Put(t, pz, Removed(zt)) && Wired(nodes, None, shape) && root == RootId(shape) &&
      |nodes| > 0 && nodes[0].color == Black && ValidPath(shape, px) && x == RootId(At(shape, px)) &&
      x < |nodes| && (px != [] ==> nodes[x].parent == AtParent(None, shape, px))
    }

    /** Lines 138-143: `z` has at most one child, which takes its place. */
    method UnlinkChild(z: nat, ghost pz: Path) returns (x: nat)
      requires Wf() && ValidPath(shape, pz) && At(shape, pz).Fork? && At(shape, pz).id == z
      requires At(shape, pz).left.Empty? || At(shape, pz).right.Empty?
      modifies this
      ensures Unlinked(old(shape), pz, x)
      ensures Unbooked(old(nodes), nodes) && colorFlipCount == old(colorFlipCount)
    {
      ghost var t, zt := shape, At(shape, pz);
      ghost var ns0 := nodes;
      Parentage(nodes, t, pz);
      WiredAt(nodes, None, t, pz);
      if nodes[z].left == 0 {
        x := nodes[z].right;
        TransplantWired(nodes, None, t, pz, true);
        Transplant(z, nodes[z].right);
        AtParentPut(None, t, pz, zt.right);
      } else {
        x := nodes[z].left;
        TransplantWired(nodes, None, t, pz, false);
        Transplant(z, nodes[z].left);
        AtParentPut(None, t, pz, zt.left);
      }
      assert nodes[0].color == ns0[0].color;
      AtPut(t, pz, Removed(zt));
      shape := Put(t, pz, Removed(zt));
      assert pz + Hole(zt) == pz;
      if x != 0 {
        WiredAt(nodes, None, shape, pz);
      }
    }

    /** Lines 144-155: `z` has two children and its successor `y` takes its place. */
    method UnlinkSuccessor(z: nat, ghost pz: Path) returns (x: nat, yOriginalColor: Color)
      requires Wf() && ValidPath(shape, pz) && At(shape, pz).Fork? && At(shape, pz).id == z
      requires At(shape, pz).left.Fork? && At(shape, pz).right.Fork?
      modifies this
      ensures Unlinked(old(shape), pz, x) && yOriginalColor == RemovedColor(old(At(shape, pz)))
      ensures Unbooked(old(nodes), nodes) && colorFlipCount == old(colorFlipCount)
    {
      ghost var t, zt := shape, At(shape, pz);
      ghost var ns0 := nodes;
      SuccessorSpliced(nodes, t, pz);
      WiredAt(nodes, None, t, pz);
      StepDown(t, pz, true);
      var y := Minimum(nodes[z].right, pz + [true]);
      yOriginalColor := nodes[y].color;
      x := nodes[y].right;
      Detach(z, y);
      assert root == old(root);
      ghost var ns1 := nodes;
      Replace(z, y);
      UnbookedTrans(ns0, ns1, nodes);
      shape := Put(t, pz, Removed(zt));
    }

    /** `delete_node` (lines 135-161) on the node `z` at `pz`: exactly the entry of `z` leaves the
     *  in-order sequence (at its place `j`) and the keys, every other book is kept, and the tree is
     *  a red-black search tree again. */
    method DeleteNode(z: nat, ghost pz: Path) returns (ghost j: nat)
      requires Wf() && RedBlackRules(shape) && ValidPath(shape, pz) && At(shape, pz).Fork? && At(shape, pz).id == z
      modifies this
      ensures Wf() && RedBlackRules(shape)
      ensures j < |old(InOrder(shape))| && old(InOrder(shape))[j] == z && old(Keys(shape))[j] == old(At(shape, pz).key)
      ensures InOrder(shape) == old(InOrder(shape))[..j] + old(InOrder(shape))[j + 1..]
      ensures Keys(shape) == old(Keys(shape))[..j] + old(Keys(shape))[j + 1..]
      ensures Ids(shape) == old(Ids(shape)) - {z}
      ensures Unbooked(old(nodes), nodes)
      ensures colorFlipCount >= old(colorFlipCount)
    {
      ghost var t, zt := shape, At(shape, pz);
      j := Offset(t, pz) + Size(zt.left);
      RemovalContent(t, pz, zt, Put(t, pz, Removed(zt)), j);
      RemovalRules(t, pz);
      WiredAt(nodes, None, t, pz);
      var x: nat;
      var yOriginalColor := nodes[z].color;
      if nodes[z].left == 0 || nodes[z].right == 0 {
        x := UnlinkChild(z, pz);
      } else {
        x, yOriginalColor := UnlinkSuccessor(z, pz);
      }
      assert Unlinked(t, pz, x) && yOriginalColor == RemovedColor(zt);
      if yOriginalColor == Black {
        ghost var ns1 := nodes;
        FixDelete(x, pz + Hole(zt));
        UnbookedTrans(old(nodes), ns1, nodes);
      }
    }

    // -------------------------------------------------------------------------------------------
    // The library operations on one book (lines 164-190 and 319-346)

    /** `DeleteBook` (lines 164-174): an id no book has changes nothing; otherwise the book the
     *  search finds leaves the library, every other book staying in order, and the patrons whose
     *  reservations are cancelled are reported in the order of its reservation list. */
    method DeleteBook(bookID: int) returns (deleted: bool, cancelled: seq<int>, ghost j: nat)
      requires Valid()
      modifies this
      ensures Valid()
      ensures deleted <==> bookID in old(Keys(shape))
      ensures !deleted ==> cancelled == [] && nodes == old(nodes) && shape == old(shape) && root == old(root)
      ensures !deleted ==> colorFlipCount == old(colorFlipCount)
      ensures deleted ==> colorFlipCount >= old(colorFlipCount)
      ensures deleted ==> j < |old(Books())| && old(Books())[j].bookID == bookID
      ensures deleted ==> old(InOrder(shape))[j] == old(Search(bookID)) && old(Books())[j] == old(nodes[Search(bookID)].book)
      ensures deleted ==> cancelled == PatronIds(old(Books())[j].reservations)
      ensures deleted ==> Books() == old(Books())[..j] + old(Books())[j + 1..]
    {
      var node := Search(bookID);
      deleted := node != 0;
      cancelled := [];
      j := 0;
      if node != 0 {
        cancelled := PatronIds(nodes[node].book.reservations);
        FindCorrect(shape, bookID);
        ghost var ns0, t := nodes, shape;
        InOrderBounded(ns0, None, t);
        j := DeleteNode(node, Find(shape, bookID));
        BooksRemove(ns0, nodes, InOrder(t), j);
        assert forall i :: i in Ids(shape) && i < |nodes| ==> i in Ids(t) && nodes[i].book == ns0[i].book;
      }
    }

    /** The book of the node `i` at `p` becomes `b` with the same id: the tree is untouched and
     *  exactly the entry `k` of the contents changes. */
    method SetBook(i: nat, b: Book, ghost p: Path) returns (ghost k: nat)
      requires Wf() && ValidPath(shape, p) && At(shape, p).Fork? && At(shape, p).id == i
      requires i < |nodes| && b.bookID == nodes[i].book.bookID
      modifies this
      ensures nodes == old(nodes)[i := old(nodes[i]).(book := b)]
      ensures shape == old(shape) && root == old(root) && colorFlipCount == old(colorFlipCount)
      ensures Wf() && k < |Books()| && InOrder(shape)[k] == i && Keys(shape)[k] == At(shape, p).key
      ensures Books() == old(Books())[k := b]
    {
      ghost var ns0, t := nodes, shape;
      WiredRebook(ns0, None, t, i, b);
      InOrderAt(t, p);
      InOrderUnique(t);
      InOrderBounded(ns0, None, t);
      k := Offset(t, p) + Size(At(t, p).left);
      BooksRebook(ns0, InOrder(t), k, b);
      nodes := nodes[i := nodes[i].(book := b)];
      assert shape == t;
    }

    /** `PrintBook` (lines 184-190): the book with that id the search finds, or `None` exactly
     *  when the library has no book with that id. */
    function PrintBook(bookID: int): (r: Option<Book>)
      reads this
      requires Wf()
      ensures r.None? <==> bookID !in Keys(shape)
      ensures r.Some? ==> r.value.bookID == bookID && r.value in Books()
      ensures r.Some? ==> r.value == nodes[Search(bookID)].book
    {
      var node := Search(bookID);
      if node == 0 then None
      else
        FindCorrect(shape, bookID);
        InOrderAt(shape, Find(shape, bookID));
        InOrderBounded(nodes, None, shape);
        assert Books()[Offset(shape, Find(shape, bookID)) + Size(At(shape, Find(shape, bookID)).left)] == nodes[node].book;
        Some(nodes[node].book)
    }

    /** `BorrowBook` (lines 319-331): the book the search finds is lent to the patron when it is
     *  on the shelf and otherwise gets the patron's reservation in priority order (`append` then
     *  `sort()`, which `AppendThenSort` shows to be `Insert`); an unknown id changes nothing. */
    method BorrowBook(patronID: int, bookID: int, patronPriority: int) returns (outcome: Loan, ghost k: nat)
      requires Valid()
      modifies this
      ensures Valid() && shape == old(shape) && root == old(root) && colorFlipCount == old(colorFlipCount)
      ensures outcome == Missing <==> bookID !in Keys(shape)
      ensures outcome == Missing ==> nodes == old(nodes)
      ensures outcome != Missing ==> k < |Books()| && InOrder(shape)[k] == old(Search(bookID)) && Keys(shape)[k] == bookID
      ensures outcome != Missing ==> Books() == old(Books())[k := Lent(old(Books())[k], patronID, patronPriority)]
      ensures outcome != Missing ==> (outcome == Borrowed <==> old(Books())[k].availability == "Yes")
    {
      var node := Search(bookID);
      k := 0;
      if node == 0 {
        outcome := Missing;
        return;
      }
      FindCorrect(shape, bookID);
      ghost var p := Find(shape, bookID);
      ghost var ns0 := nodes;
      var b := nodes[node].book;
      outcome := if b.availability == "Yes" then Borrowed else Reserved;
      k := SetBook(node, Lent(b, patronID, patronPriority), p);
      LentKept(b, patronID, patronPriority);
      assert forall j :: j in Ids(shape) && j < |nodes| && j != node ==> nodes[j].book == ns0[j].book;
    }

    /** `ReturnBook` (lines 334-346): accepted only from the patron holding the book the search
     *  finds; the book then goes to the first reservation or back on the shelf. Any other
     *  attempt changes nothing. */
    method ReturnBook(patronID: int, bookID: int) returns (outcome: Handback, ghost k: nat)
      requires Valid()
      modifies this
      ensures Valid() && shape == old(shape) && root == old(root) && colorFlipCount == old(colorFlipCount)
      ensures outcome == Invalid <==>
        old(Search(bookID)) == 0 || old(nodes[Search(bookID)].book.borrowedBy) != Some(patronID)
      ensures outcome == Invalid ==> nodes == old(nodes)
      ensures outcome != Invalid ==> k < |Books()| && InOrder(shape)[k] == old(Search(bookID)) && Keys(shape)[k] == bookID
      ensures outcome != Invalid ==> old(Books())[k].borrowedBy == Some(patronID)
      ensures outcome != Invalid ==> Books() == old(Books())[k := Returned(old(Books())[k])]
      ensures outcome != Invalid ==> (outcome == OnShelf <==> old(Books())[k].reservations == [])
      ensures outcome.Allotted? ==> Books()[k].borrowedBy == Some(outcome.patronID)
    {
      var node := Search(bookID);
      k := 0;
      if node == 0 || nodes[node].book.borrowedBy != Some(patronID) {
        outcome := Invalid;
        return;
      }
      FindCorrect(shape, bookID);
      ghost var p := Find(shape, bookID);
      ghost var ns0 := nodes;
      var b := nodes[node].book;
      outcome := if b.reservations != [] then Allotted(b.reservations[0].patronID) else OnShelf;
      k := SetBook(node, Returned(b), p);
      ReturnedKept(b);
      assert forall j :: j in Ids(shape) && j < |nodes| && j != node ==> nodes[j].book == ns0[j].book;
    }

    // -------------------------------------------------------------------------------------------
    // Range reports (`PrintBooks`, lines 192-204, and `FindClosestBook`, lines 361-379)

    /** `_print_range` (lines 193-202) over the pointers from the node `i` at the top of `t`. */
    function RangeFrom(ghost t: Tree, ghost par: Option<nat>, i: nat, lo: int, hi: int): (r: seq<nat>)
      reads this
      requires Wired(nodes, par, t) && i == RootId(t)
      ensures r == Pruned(t, lo, hi)
      decreases t
    {
      if i == 0 then []
      else
        (if lo < nodes[i].book.bookID then RangeFrom(t.left, Some(i), nodes[i].left, lo, hi) else []) +
        (if lo <= nodes[i].book.bookID <= hi then [i] else []) +
        (if hi > nodes[i].book.bookID then RangeFrom(t.right, Some(i), nodes[i].right, lo, hi) else [])
    }

    /** `_find_books_in_range` (lines 362-370) over the pointers from the node `i` at the top
     *  of `t`. */
    function ClosestFrom(ghost t: Tree, ghost par: Option<nat>, i: nat, lo: int, hi: int): (r: seq<nat>)
      reads this
      requires Wired(nodes, par, t) && i == RootId(t)
      ensures r == PrunedPre(t, lo, hi)
      decreases t
    {
      if i == 0 then []
      else
        (if lo <= nodes[i].book.bookID <= hi then [i] else []) +
        (if nodes[i].book.bookID > lo then ClosestFrom(t.left, Some(i), nodes[i].left, lo, hi) else []) +
        (if nodes[i].book.bookID < hi then ClosestFrom(t.right, Some(i), nodes[i].right, lo, hi) else [])
    }


    /** The books in pre-order: a node's book, then those of its left and its right subtree. */
    ghost function PreBooks(): (bs: seq<Book>)
      reads this
      requires Wf()
      ensures |bs| == Size(shape)
    {
      PreOrderBounded(nodes, None, shape);
      BooksOf(nodes, PreOrder(shape))
    }

    /** `PrintBooks` (lines 192-204): the books it prints, in order. Each is a book of the
     *  library with an id in `[bookID1, bookID2]`, every book strictly inside the range is
     *  printed, and with distinct ids the report is exactly the library's books of the range
     *  in id order. */
    function PrintBooks(bookID1: int, bookID2: int): (r: seq<Book>)
      reads this
      requires Wf()
      ensures forall b :: b in r ==> b in Books() && bookID1 <= b.bookID <= bookID2
      ensures forall b :: b in Books() && bookID1 < b.bookID < bookID2 ==> b in r
      ensures Increasing(Keys(shape)) ==> r == Within(Books(), bookID1, bookID2)
    {
      PrintedSound(nodes, shape, bookID1, bookID2);
      PrintedInterior(nodes, shape, bookID1, bookID2);
      WalksExact(nodes, shape, bookID1, bookID2);
      BooksOf(nodes, RangeFrom(shape, None, root, bookID1, bookID2))
    }

    /** `FindClosestBook` (lines 361-379): the books within `range` of `targetID`, in the
     *  order the walk appends them. Each is a book of the library in that window, the report
     *  is empty ("No books found") exactly when no book is in the window, and with distinct
     *  ids it is exactly the window's books in pre-order. */
    function FindClosestBook(targetID: int, range: int := 3): (r: seq<Book>)
      reads this
      requires Wf()
      ensures forall b :: b in r ==> b in Books() && targetID - range <= b.bookID <= targetID + range
      ensures r == [] <==> forall b :: b in Books() ==> !(targetID - range <= b.bookID <= targetID + range)
      ensures Increasing(Keys(shape)) ==> r == Within(PreBooks(), targetID - range, targetID + range)
    {
      Closest(targetID - range, targetID + range)
    }

    /** The books `_find_books_in_range` collects for the window `[lo, hi]`. */
    function Closest(lo: int, hi: int): (r: seq<Book>)
      reads this
      requires Wf()
      ensures forall b :: b in r ==> b in Books() && lo <= b.bookID <= hi
      ensures r == [] <==> forall b :: b in Books() ==> !(lo <= b.bookID <= hi)
      ensures Increasing(Keys(shape)) ==> r == Within(PreBooks(), lo, hi)
    {
      FoundSound(nodes, shape, lo, hi);
      FoundNothing(nodes, shape, lo, hi);
      WalksExact(nodes, shape, lo, hi);
      BooksOf(nodes, ClosestFrom(shape, None, root, lo, hi))
    }

    /** `ColorFlipCount` (lines 384-385): the counter less its fixed offset of 3; every
     *  operation above only ever adds to the counter (`Insert`, `DeleteNode`). */
    function ColorFlipCount(): (r: int)
      reads this
      ensures r + 3 == colorFlipCount
    {
      colorFlipCount - 3
    }
  }
}
