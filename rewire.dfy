/**
 * How the pointer updates of gatorLibrary.py's rotations (lines 278-316) rewire the arena so
 * that it describes the rotated tree.
 */
module Rewire {
  import opened Wrappers
  import opened Shape
  import opened Arena

  /** The arena after raising child `d` of the node at `p`, node by node: the raised node `y`
   *  takes the old top's parent, the old top `x` becomes `y`'s child on side `!d`, the inner
   *  subtree `b` moves from `y` to `x`, and the parent `q` (if any) points to `y`. */
  lemma {:induction false} RaiseWired(ns0: seq<Node>, ns: seq<Node>, t: Tree, p: Path, d: bool, q: nat)
    requires Wired(ns0, None, t) && Distinct(t) && ValidPath(t, p)
    requires At(t, p).Fork? && Child(At(t, p), d).Fork?
    requires p != [] ==> ValidPath(t, Up(p)) && At(t, Up(p)).Fork? && At(t, Up(p)).id == q
    requires
      var x := At(t, p).id;
      var y := Child(At(t, p), d).id;
      var b := RootId(Child(Child(At(t, p), d), !d));
      x < |ns0| && y < |ns0| && q < |ns0| &&
      Agree(ns0, ns, {x, y, b} + (if p == [] then {} else {q})) &&
      ns[x] == Relink(ns0[x], d, b).(parent := Some(y)) &&
      ns[y] == Relink(ns0[y], !d, x).(parent := AtParent(None, t, p)) &&
      (b != 0 ==> b < |ns0| && ns[b] == ns0[b].(parent := Some(x))) &&
      (p != [] ==> ns[q] == Relink(ns0[q], Last(p), y))
    ensures Wired(ns, None, Put(t, p, Raise(At(t, p), d)))
  {
    var xt := At(t, p);
    var yt := Child(xt, d);
    var x, y, b := xt.id, yt.id, RootId(Child(yt, !d));
    var r := Raise(xt, d);
    var m := {x, y, b} + (if p == [] then {} else {q});
    WiredAt(ns0, None, t, p);
    PutIds(t, p, xt);
    IdsNonZero(t);
    if p != [] {
      ParentOf(ns0, t, p);
      AtIds(t, Up(p));
      assert q in Context(t, p);
      assert q !in Ids(xt);
    }
    assert m * Ids(xt) <= {x, y, b};
    RaiseLocal(ns0, ns, m, AtParent(None, t, p), xt, d);
    if p != [] {
      assert m * Context(t, p) <= {q};
      PutWired(ns0, ns, m, None, t, Up(p), Last(p), r);
    }
  }

  /** Recolouring the node at `p` in the arena recolours it in the tree. */
  lemma PaintWired(ns: seq<Node>, t: Tree, p: Path, c: Color)
    requires Wired(ns, None, t) && Distinct(t) && ValidPath(t, p) && At(t, p).Fork?
    ensures 0 < At(t, p).id < |ns|
    ensures Wired(ns[At(t, p).id := ns[At(t, p).id].(color := c)], None, Put(t, p, Paint(At(t, p), c)))
    ensures Distinct(Put(t, p, Paint(At(t, p), c)))
    ensures InOrder(Put(t, p, Paint(At(t, p), c))) == InOrder(t) && Keys(Put(t, p, Paint(At(t, p), c))) == Keys(t)
    ensures Ids(Put(t, p, Paint(At(t, p), c))) == Ids(t)
    ensures RootId(Put(t, p, Paint(At(t, p), c))) == RootId(t)
  {
    var x := At(t, p);
    var i := x.id;
    WiredAt(ns, None, t, p);
    PutIds(t, p, x);
    var ns' := ns[i := ns[i].(color := c)];
    var m := {i};
    assert Agree(ns, ns', m);
    assert Wired(ns', AtParent(None, t, p), Paint(x, c)) by {
      WiredFrame(ns, ns', m, Some(i), x.left);
      WiredFrame(ns, ns', m, Some(i), x.right);
    }
    PutIds(t, p, Paint(x, c));
    PutSameContent(t, p, Paint(x, c));
    if p != [] {
      ParentOf(ns, t, p);
      PutWired(ns, ns', m, None, t, Up(p), Last(p), Paint(x, c));
    }
  }

  /** The rotated subtree on its own. */
  lemma RaiseLocal(ns0: seq<Node>, ns: seq<Node>, m: set<nat>, par: Option<nat>, xt: Tree, d: bool)
    requires Wired(ns0, par, xt) && Distinct(xt) && xt.Fork? && Child(xt, d).Fork?
    requires
      var yt := Child(xt, d);
      var x, y, b := xt.id, yt.id, RootId(Child(yt, !d));
      Agree(ns0, ns, m) && m * Ids(xt) <= {x, y, b} && x < |ns0| && y < |ns0| &&
      ns[x] == Relink(ns0[x], d, b).(parent := Some(y)) &&
      ns[y] == Relink(ns0[y], !d, x).(parent := par) &&
      (b != 0 ==> b < |ns0| && ns[b] == ns0[b].(parent := Some(x)))
    ensures Wired(ns, par, Raise(xt, d))
  {
    var yt := Child(xt, d);
    var a, b, c := Child(xt, !d), Child(yt, !d), Child(yt, d);
    var x, y := xt.id, yt.id;
    assert Ids(xt) == Ids(a) + {x} + Ids(yt);
    assert Ids(yt) == Ids(b) + {y} + Ids(c);
    assert Wired(ns0, Some(x), yt);
    assert Distinct(yt);
    IdsNonZero(a);
    IdsNonZero(c);
    assert RootId(b) != 0 ==> RootId(b) in Ids(b);
    assert Ids(b) !! Ids(c) && y !in Ids(b) && y !in Ids(c);
    forall j | j in Ids(a) ensures j !in m {
      Outside(m, Ids(xt), {x, y, RootId(b)}, j);
    }
    forall j | j in Ids(c) ensures j !in m {
      Outside(m, Ids(xt), {x, y, RootId(b)}, j);
    }
    forall j | j in Ids(b) && j != RootId(b) ensures j !in m {
      Outside(m, Ids(xt), {x, y, RootId(b)}, j);
    }
    WiredFrame(ns0, ns, m, Some(x), a);
    WiredReparent(ns0, ns, m, Some(y), Some(x), b);
    WiredFrame(ns0, ns, m, Some(y), c);
  }


  /** What the pointer-level rotation at position `p` reads in a wired arena: the raised child
   *  `y`, the inner subtree `b`, the parent `q` and the side `q` holds the old top on. */
  lemma {:induction false} RotationLinks(ns: seq<Node>, t: Tree, p: Path, d: bool) returns (q: nat)
    requires Wired(ns, None, t) && Distinct(t) && ValidPath(t, p)
    requires At(t, p).Fork? && Child(At(t, p), d).Fork?
    ensures
      var x := At(t, p).id;
      var y := Child(At(t, p), d).id;
      var b := RootId(Child(Child(At(t, p), d), !d));
      x < |ns| && y < |ns| && b < |ns| && q < |ns| &&
      0 != x && 0 != y && x != y && b !in {x, y} &&
      Link(ns[x], d) == y && Link(ns[y], !d) == b &&
      ns[x].color == At(t, p).color && ns[y].color == Child(At(t, p), d).color &&
      ns[x].parent == (if p == [] then None else Some(q)) &&
      AtParent(None, t, p) == ns[x].parent &&
      (p != [] ==>
        q !in {0, x, y, b} && (x != ns[q].left) == Last(p) &&
        ValidPath(t, Up(p)) && At(t, Up(p)).Fork? && At(t, Up(p)).id == q)
  {
    var xt := At(t, p);
    var yt := Child(xt, d);
    var x, y, b := xt.id, yt.id, RootId(Child(yt, !d));
    WiredAt(ns, None, t, p);
    PutIds(t, p, xt);
    assert Wired(ns, Some(x), yt);
    assert Wired(ns, Some(y), Child(yt, !d));
    assert Ids(xt) == Ids(Child(xt, !d)) + {x} + Ids(yt);
    assert Ids(yt) == Ids(Child(yt, !d)) + {y} + Ids(Child(yt, d));
    assert b != 0 ==> b in Ids(Child(yt, !d));
    q := 0;
    if p != [] {
      ParentOf(ns, t, p);
      var up := At(t, Up(p));
      q := up.id;
      PutIds(t, Up(p), up);
      assert q in Context(t, p);
      assert Ids(up) == Ids(up.left) + {q} + Ids(up.right);
      IdsNonZero(up);
    }
  }

  /** The indices a rotation at `x` raising side `d` reads lie in the arena. */
  ghost predicate RotationReads(ns: seq<Node>, x: nat, d: bool) {
    x < |ns| && Link(ns[x], d) < |ns| && Link(ns[Link(ns[x], d)], !d) < |ns| &&
    (ns[x].parent.Some? ==> ns[x].parent.value < |ns|)
  }

  /** The first updates of the rotation: the inner subtree `b` moves from `y` to `x`. */
  ghost function Adopted(ns: seq<Node>, x: nat, d: bool): (r: seq<Node>)
    requires RotationReads(ns, x, d)
    ensures |r| == |ns|
  {
    var y := Link(ns[x], d);
    var b := Link(ns[y], !d);
    var ns1 := ns[x := Relink(ns[x], d, b)];
    if b != 0 then ns1[b := ns1[b].(parent := Some(x))] else ns1
  }

  /** The arena after the pointer updates of a rotation at `x` that raises its child `y` on
   *  side `d`, in the order the source performs them. */
  ghost function Rotated(ns: seq<Node>, x: nat, d: bool): seq<Node>
    requires RotationReads(ns, x, d)
  {
    var y := Link(ns[x], d);
    var ns2 := Adopted(ns, x, d);
    var par := ns2[x].parent;
    var ns3 := ns2[y := ns2[y].(parent := par)];
    var ns4 := if par.Some? then ns3[par.value := Relink(ns3[par.value], x != ns3[par.value].left, y)] else ns3;
    var ns5 := ns4[y := Relink(ns4[y], !d, x)];
    ns5[x := ns5[x].(parent := Some(y))]
  }

  /** The arena after `insert` hangs the fresh node `z` below `y` (lines 220-229): `z` points up
   *  to `y`, `y` points down to `z` on the side the key comparison picks (equal keys go right),
   *  and `z` is painted red. */
  function Hung(ns: seq<Node>, z: nat, y: Option<nat>): seq<Node>
    requires z < |ns| && (y.Some? ==> y.value < |ns|)
  {
    var ns1 := ns[z := ns[z].(parent := y)];
    var ns2 := if y.None? then ns1
      else ns1[y.value := Relink(ns1[y.value], !(ns1[z].book.bookID < ns1[y.value].book.bookID), z)];
    ns2[z := ns2[z].(color := Red)]
  }

  /** Hanging changes `z` and `y` only, and no book. */
  lemma HungFrame(ns: seq<Node>, z: nat, y: Option<nat>)
    requires z < |ns| && (y.Some? ==> y.value < |ns| && y.value != z)
    ensures |Hung(ns, z, y)| == |ns| && Unbooked(ns, Hung(ns, z, y))
    ensures Agree(ns, Hung(ns, z, y), {z} + (if y.Some? then {y.value} else {}))
    ensures Hung(ns, z, y)[z] == ns[z].(parent := y, color := Red)
    ensures y.Some? ==>
      Hung(ns, z, y)[y.value] == Relink(ns[y.value], !(ns[z].book.bookID < ns[y.value].book.bookID), z)
  {
  }

  /** A single node update changes that node only; one that keeps its book is unbooked. */
  lemma UpdateFrame(ns: seq<Node>, j: nat, n: Node)
    requires j < |ns|
    ensures Agree(ns, ns[j := n], {j})
    ensures n.book == ns[j].book ==> Unbooked(ns, ns[j := n])
  {
  }

  /** The rotation changes links only, and only at `x`, `y`, `b` and the parent. */
  lemma {:induction false} RotatedFrame(ns: seq<Node>, x: nat, d: bool)
    requires RotationReads(ns, x, d)
    ensures var y := Link(ns[x], d);
      var par := Adopted(ns, x, d)[x].parent;
      var b := Link(ns[y], !d);
      Agree(ns, Rotated(ns, x, d), {x, y} + (if b != 0 then {b} else {}) + (if par.Some? then {par.value} else {})) &&
      Unbooked(ns, Rotated(ns, x, d))
  {
    var y := Link(ns[x], d);
    var b := Link(ns[y], !d);
    var ns1 := ns[x := Relink(ns[x], d, b)];
    UpdateFrame(ns, x, Relink(ns[x], d, b));
    var ns2 := Adopted(ns, x, d);
    if b != 0 {
      UpdateFrame(ns1, b, ns1[b].(parent := Some(x)));
    }
    var m2: set<nat> := if b != 0 then {b} else {};
    assert Agree(ns1, ns2, m2) && Unbooked(ns1, ns2);
    var par := ns2[x].parent;
    var ns3 := ns2[y := ns2[y].(parent := par)];
    UpdateFrame(ns2, y, ns2[y].(parent := par));
    var ns4 := if par.Some? then ns3[par.value := Relink(ns3[par.value], x != ns3[par.value].left, y)] else ns3;
    if par.Some? {
      UpdateFrame(ns3, par.value, Relink(ns3[par.value], x != ns3[par.value].left, y));
    }
    var m4: set<nat> := if par.Some? then {par.value} else {};
    assert Agree(ns3, ns4, m4) && Unbooked(ns3, ns4);
    var ns5 := ns4[y := Relink(ns4[y], !d, x)];
    UpdateFrame(ns4, y, Relink(ns4[y], !d, x));
    var ns6 := ns5[x := ns5[x].(parent := Some(y))];
    UpdateFrame(ns5, x, ns5[x].(parent := Some(y)));
    assert Rotated(ns, x, d) == ns6;
    AgreeTrans(ns, ns1, ns2, {x}, m2);
    AgreeTrans(ns, ns2, ns3, {x} + m2, {y});
    AgreeTrans(ns, ns3, ns4, {x} + m2 + {y}, m4);
    AgreeTrans(ns, ns4, ns5, {x} + m2 + {y} + m4, {y});
    AgreeTrans(ns, ns5, ns6, {x} + m2 + {y} + m4 + {y}, {x});
    assert {x} + m2 + {y} + m4 + {y} + {x} == {x, y} + m2 + m4;
    UnbookedTrans(ns, ns1, ns2);
    UnbookedTrans(ns, ns2, ns3);
    UnbookedTrans(ns, ns3, ns4);
    UnbookedTrans(ns, ns4, ns5);
    UnbookedTrans(ns, ns5, ns6);
  }

  /** When `x`, its child `y`, the inner subtree `b` and the parent are distinct nodes, the
   *  rotation gives each of them its new links. */
  lemma RotatedNodes(ns: seq<Node>, x: nat, d: bool)
    requires RotationReads(ns, x, d)
    requires var y := Link(ns[x], d); var b := Link(ns[y], !d);
      0 != x && 0 != y && x != y && b !in {x, y} &&
      (ns[x].parent.Some? ==> ns[x].parent.value !in {0, x, y, b})
    ensures var y := Link(ns[x], d); var b := Link(ns[y], !d); var r := Rotated(ns, x, d);
      Adopted(ns, x, d)[x].parent == ns[x].parent &&
      r[x] == Relink(ns[x], d, b).(parent := Some(y)) &&
      r[y] == Relink(ns[y], !d, x).(parent := ns[x].parent) &&
      (b != 0 ==> r[b] == ns[b].(parent := Some(x))) &&
      (ns[x].parent.Some? ==>
        r[ns[x].parent.value] == Relink(ns[ns[x].parent.value], x != ns[ns[x].parent.value].left, y))
  {
  }

  /** In a wired arena the pointer updates of a rotation describe the rotated tree, touch no
   *  book and leave `NIL` alone. */
  lemma RotatedWired(ns: seq<Node>, t: Tree, p: Path, d: bool)
    requires Wired(ns, None, t) && Distinct(t) && ValidPath(t, p)
    requires At(t, p).Fork? && Child(At(t, p), d).Fork?
    ensures RotationReads(ns, At(t, p).id, d)
    ensures Link(ns[At(t, p).id], d) == Child(At(t, p), d).id
    ensures Adopted(ns, At(t, p).id, d)[At(t, p).id].parent.None? <==> p == []
    ensures ns[At(t, p).id].color == At(t, p).color
    ensures ns[Child(At(t, p), d).id].color == Child(At(t, p), d).color
    ensures Wired(Rotated(ns, At(t, p).id, d), None, Put(t, p, Raise(At(t, p), d)))
    ensures Unbooked(ns, Rotated(ns, At(t, p).id, d)) && Rotated(ns, At(t, p).id, d)[0] == ns[0]
  {
    var q := RotationLinks(ns, t, p, d);
    var x := At(t, p).id;
    var y := Child(At(t, p), d).id;
    var b := RootId(Child(Child(At(t, p), d), !d));
    var r := Rotated(ns, x, d);
    RotatedNodes(ns, x, d);
    RotatedFrame(ns, x, d);
    RaiseWired(ns, r, t, p, d, q);
  }
}
