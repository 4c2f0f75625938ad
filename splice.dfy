/**
 * How the pointer updates of gatorLibrary.py's `delete_node` (lines 135-161) and `transplant`
 * (lines 62-69) rewire the arena so that it describes the tree with the deleted node spliced
 * out, and where they leave the parent pointer of the `NIL` sentinel, which `fix_delete` reads
 * when `x` is `NIL`.
 */
module Splice {
  import opened Wrappers
  import opened Shape
  import opened Arena
  import opened Removal

  // ---------------------------------------------------------------------------------------------
  // Parent positions

  /** The parent of a position below `p` is found by walking from `p`. */
  lemma {:induction false} AtParentConcat(par: Option<nat>, t: Tree, p: Path, r: Path)
    requires ValidPath(t, p) && ValidPath(At(t, p), r)
    ensures ValidPath(t, p + r) && AtParent(par, t, p + r) == AtParent(AtParent(par, t, p), At(t, p), r)
    decreases p
  {
    PathConcat(t, p, r);
    if p == [] {
      assert p + r == r;
    } else {
      assert (p + r)[1..] == p[1..] + r;
      AtParentConcat(Some(t.id), Child(t, p[0]), p[1..], r);
    }
  }

  /** Replacing the subtree at `p` does not change the parent `p` must point to. */
  lemma {:induction false} AtParentPut(par: Option<nat>, t: Tree, p: Path, s: Tree)
    requires ValidPath(t, p)
    ensures ValidPath(Put(t, p, s), p) && AtParent(par, Put(t, p, s), p) == AtParent(par, t, p)
    decreases p
  {
    AtPut(t, p, s);
    if p != [] {
      AtParentPut(Some(t.id), Child(t, p[0]), p[1..], s);
    }
  }

  /** Below the top, the parent of a position does not depend on the parent of the top. */
  lemma AtParentTop(par: Option<nat>, par': Option<nat>, t: Tree, p: Path)
    requires ValidPath(t, p) && p != []
    ensures AtParent(par, t, p) == AtParent(par', t, p)
  {
  }

  // ---------------------------------------------------------------------------------------------
  // `transplant`

  /** `transplant(u, v)` (lines 62-69): the parent of `u` (if any) points to `v` on the side that
   *  held `u`, and `v` takes `u`'s parent; `v` may be `NIL`. */
  function Transplanted(ns: seq<Node>, u: nat, v: nat): (ns': seq<Node>)
    requires u < |ns| && v < |ns| && (ns[u].parent.Some? ==> ns[u].parent.value < |ns|)
    ensures |ns'| == |ns| && Unbooked(ns, ns')
  {
    var par := ns[u].parent;
    var ns1 := if par.None? then ns else ns[par.value := Relink(ns[par.value], u != ns[par.value].left, v)];
    ns1[v := ns1[v].(parent := par)]
  }

  /** `transplant` changes the parent of `u` (its child pointer) and `v` (its parent pointer). */
  lemma TransplantedFrame(ns: seq<Node>, u: nat, v: nat)
    requires u < |ns| && v < |ns| && (ns[u].parent.Some? ==> ns[u].parent.value < |ns|)
    requires ns[u].parent.Some? ==> ns[u].parent.value != v
    ensures var par, ns' := ns[u].parent, Transplanted(ns, u, v);
      Agree(ns, ns', {v} + (if par.Some? then {par.value} else {})) &&
      ns'[v] == ns[v].(parent := par) &&
      (par.Some? ==> ns'[par.value] == Relink(ns[par.value], u != ns[par.value].left, v))
  {
  }

  /** The node `u` at `p`, whose child on side `!d` is `NIL`, is replaced by its child `c` on side
   *  `d`: afterwards the arena is wired to the tree with `c` at `p`; besides `c`'s top only the
   *  parent of `u` changed, and `NIL` has a new parent exactly when `c` is `NIL`. */
  lemma TransplantWired(ns: seq<Node>, par: Option<nat>, t: Tree, p: Path, d: bool)
    requires Wired(ns, par, t) && Distinct(t) && ValidPath(t, p) && At(t, p).Fork?
    requires Child(At(t, p), !d).Empty?
    requires par.Some? ==> 0 < par.value < |ns| && par.value !in Ids(t)
    ensures var u, c := At(t, p).id, Child(At(t, p), d);
      u < |ns| && RootId(c) < |ns| && ns[u].parent == AtParent(par, t, p) &&
      (ns[u].parent.Some? ==> 0 < ns[u].parent.value < |ns| && ns[u].parent.value != RootId(c)) &&
      Link(ns[u], d) == RootId(c)
    ensures var u, c, pu := At(t, p).id, Child(At(t, p), d), AtParent(par, t, p);
      var ns' := Transplanted(ns, u, RootId(c));
      Wired(ns', par, Put(t, p, c)) &&
      ns'[0] == (if RootId(c) == 0 then ns[0].(parent := pu) else ns[0]) &&
      Agree(ns, ns', {RootId(c)} + (if pu.Some? then {pu.value} else {})) &&
      (pu.Some? ==> ns'[pu.value] == Relink(ns[pu.value], u != ns[pu.value].left, RootId(c)))
  {
    var zt := At(t, p);
    WiredAt(ns, par, t, p);
    PutIds(t, p, zt);
    IdsNonZero(t);
    assert Ids(zt) == Ids(zt.left) + {zt.id} + Ids(zt.right);
    if p == [] {
      TransplantTop(ns, par, zt, d);
    } else {
      TransplantBelow(ns, par, t, p, d);
    }
  }

  lemma TransplantTop(ns: seq<Node>, par: Option<nat>, zt: Tree, d: bool)
    requires Wired(ns, par, zt) && Distinct(zt) && zt.Fork? && Child(zt, !d).Empty?
    requires par.Some? ==> 0 < par.value < |ns| && par.value !in Ids(zt)
    ensures zt.id < |ns| && ns[zt.id].parent == par && RootId(Child(zt, d)) < |ns|
    ensures var u, c := zt.id, Child(zt, d);
      var ns' := Transplanted(ns, u, RootId(c));
      (par.Some? ==> par.value != RootId(c)) &&
      Wired(ns', par, c) && Agree(ns, ns', {RootId(c)} + (if par.Some? then {par.value} else {}))
  {
    var u, c := zt.id, Child(zt, d);
    var v := RootId(c);
    assert Ids(zt) == Ids(zt.left) + {u} + Ids(zt.right);
    assert v != 0 ==> v in Ids(zt);
    TransplantedFrame(ns, u, v);
    var m := {v} + (if par.Some? then {par.value} else {});
    WiredReparent(ns, Transplanted(ns, u, v), m, Some(u), par, c);
  }

  lemma TransplantBelow(ns: seq<Node>, par: Option<nat>, t: Tree, p: Path, d: bool)
    requires Wired(ns, par, t) && Distinct(t) && ValidPath(t, p) && At(t, p).Fork? && p != []
    requires Child(At(t, p), !d).Empty?
    requires par.Some? ==> 0 < par.value < |ns| && par.value !in Ids(t)
    ensures AtParent(par, t, p).Some? && 0 < AtParent(par, t, p).value < |ns|
    ensures At(t, p).id < |ns| && ns[At(t, p).id].parent == AtParent(par, t, p) && RootId(Child(At(t, p), d)) < |ns|
    ensures var u, c, w := At(t, p).id, Child(At(t, p), d), AtParent(par, t, p).value;
      var ns' := Transplanted(ns, u, RootId(c));
      w != RootId(c) &&
      Wired(ns', par, Put(t, p, c)) && Agree(ns, ns', {RootId(c)} + {w}) &&
      ns'[w] == Relink(ns[w], Last(p), RootId(c)) && (u != ns[w].left) == Last(p)
  {
    var zt := At(t, p);
    var u, c := zt.id, Child(zt, d);
    var v := RootId(c);
    WiredAt(ns, par, t, p);
    PutIds(t, p, zt);
    IdsNonZero(t);
    assert Ids(zt) == Ids(zt.left) + {u} + Ids(zt.right);
    assert v != 0 ==> v in Ids(zt) && v != u;
    UpProps(t, p);
    var up := At(t, Up(p));
    WiredAt(ns, par, t, Up(p));
    AtParentStep(par, t, Up(p), Last(p));
    var w := up.id;
    AtIds(t, Up(p));
    PutIds(t, Up(p), up);
    assert Ids(up) == Ids(up.left) + {w} + Ids(up.right);
    assert w in Context(t, p);
    assert w != v && w != 0;
    assert Link(ns[w], Last(p)) == u;
    assert RootId(Child(up, !Last(p))) != u by {
      assert u in Ids(Child(up, Last(p)));
    }
    TransplantedFrame(ns, u, v);
    var ns' := Transplanted(ns, u, v);
    var m := {v} + {w};
    WiredReparent(ns, ns', m, Some(u), Some(w), c);
    assert m * Context(t, Up(p) + [Last(p)]) <= {w};
    PutWired(ns, ns', m, par, t, Up(p), Last(p), c);
  }

  /** Replacing the subtree at `p` by a subtree `s` wired below the parent `p` demands, when only
   *  that parent's child pointer changed outside the subtree. */
  lemma SpliceWired(ns: seq<Node>, ns': seq<Node>, m: set<nat>, t: Tree, p: Path, s: Tree)
    requires Wired(ns, None, t) && Distinct(t) && ValidPath(t, p) && Agree(ns, ns', m)
    requires Wired(ns', AtParent(None, t, p), s)
    requires p != [] ==>
      ValidPath(t, Up(p)) && At(t, Up(p)).Fork? && At(t, Up(p)).id < |ns| &&
      m * Context(t, p) <= {At(t, Up(p)).id} &&
      ns'[At(t, Up(p)).id] == Relink(ns[At(t, Up(p)).id], Last(p), RootId(s))
    ensures Wired(ns', None, Put(t, p, s))
  {
    if p != [] {
      ParentOf(ns, t, p);
      PutWired(ns, ns', m, None, t, Up(p), Last(p), s);
    }
  }

  // ---------------------------------------------------------------------------------------------
  // Two children: the successor `y` takes `z`'s place (lines 144-155)

  /** What lines 148-151 read: `z`, the successor `y`, their right children and `y`'s parent. */
  ghost predicate DetachReads(ns: seq<Node>, z: nat, y: nat) {
    z < |ns| && y < |ns| && ns[y].right < |ns| && ns[z].right < |ns| &&
    (ns[y].parent.Some? ==> ns[y].parent.value < |ns|)
  }

  /** Lines 149-151: `y` is cut out of its place, its right subtree `x` moving up, and `y` takes
   *  over `z`'s right subtree. */
  function Cut(ns: seq<Node>, z: nat, y: nat): (ns': seq<Node>)
    requires DetachReads(ns, z, y)
    ensures |ns'| == |ns| && Unbooked(ns, ns')
  {
    var a := Transplanted(ns, y, ns[y].right);
    var b := a[y := a[y].(right := a[z].right)];
    b[b[y].right := b[b[y].right].(parent := Some(y))]
  }

  /** Lines 148-151 as written: when `y` is `z`'s own right child nothing happens, so the parent
   *  pointer of `x` is left as it was. */
  function DetachedAsWritten(ns: seq<Node>, z: nat, y: nat): (ns': seq<Node>)
    requires DetachReads(ns, z, y)
    ensures |ns'| == |ns| && Unbooked(ns, ns')
  {
    if ns[y].parent != Some(z) then Cut(ns, z, y) else ns
  }

  /** Lines 148-151 with the update the textbook algorithm has there: when `y` is `z`'s own right
   *  child, `x.parent = y`, which matters when `x` is `NIL`. */
  function Detached(ns: seq<Node>, z: nat, y: nat): (ns': seq<Node>)
    requires DetachReads(ns, z, y)
    ensures |ns'| == |ns| && Unbooked(ns, ns')
  {
    if ns[y].parent != Some(z) then Cut(ns, z, y)
    else ns[ns[y].right := ns[ns[y].right].(parent := Some(y))]
  }

  /** The two versions differ only in the parent pointer of `x` when `y` is `z`'s child, and for
   *  a node `x` that pointer already names `y`: they part exactly at a `NIL` `x` whose stale
   *  parent is not `y`. */
  lemma DetachedDiffer(ns: seq<Node>, z: nat, y: nat)
    requires DetachReads(ns, z, y)
    ensures ns[y].parent != Some(z) ==> Detached(ns, z, y) == DetachedAsWritten(ns, z, y)
    ensures var x := ns[y].right;
      ns[y].parent == Some(z) && (x != 0 ==> ns[x].parent == Some(y)) ==>
      (Detached(ns, z, y) == DetachedAsWritten(ns, z, y) <==> ns[x].parent == Some(y))
  {
    var x := ns[y].right;
    if ns[y].parent == Some(z) && ns[x].parent != Some(y) {
      assert Detached(ns, z, y)[x].parent != DetachedAsWritten(ns, z, y)[x].parent;
    }
  }

  /** The successor of `z` at `pz` when both children are nodes: the leftmost node `y` of the
   *  right subtree `R`, with `R` minus `y` wired below `y` after lines 148-151 and nothing
   *  outside `R` changed except possibly `NIL`'s parent, which names `x`'s new parent. */
  lemma DetachedWired(ns: seq<Node>, t: Tree, pz: Path)
    requires Wired(ns, None, t) && Distinct(t) && ValidPath(t, pz) && At(t, pz).Fork?
    requires At(t, pz).left.Fork? && At(t, pz).right.Fork?
    ensures var zt := At(t, pz);
      var r, y := zt.right, Min(zt.right).id;
      DetachReads(ns, zt.id, y) && ns[y].right == RootId(Min(r).right) && ns[y].parent.Some? &&
      ValidPath(r, LeftSpine(r)) && ValidPath(RemoveMin(r), LeftSpine(r)) &&
      (ns[y].parent == Some(zt.id) <==> LeftSpine(r) == [])
    ensures var zt := At(t, pz);
      var r, y := zt.right, Min(zt.right).id;
      var ns' := Detached(ns, zt.id, y);
      Wired(ns', Some(y), RemoveMin(r)) && Agree(ns, ns', Ids(r) + {0}) && ns'[y].right == RootId(RemoveMin(r)) &&
      y !in Ids(RemoveMin(r)) &&
      ns'[0] == (if RootId(Min(r).right) == 0 then ns[0].(parent := AtParent(Some(y), RemoveMin(r), LeftSpine(r))) else ns[0])
  {
    var zt := At(t, pz);
    var z, r := zt.id, zt.right;
    var q, m := LeftSpine(r), Min(r);
    var y, xt := m.id, m.right;
    var r1 := RemoveMin(r);
    WiredAt(ns, None, t, pz);
    PutIds(t, pz, zt);
    assert Wired(ns, Some(z), r) && Distinct(r) && z !in Ids(r);
    MinSpine(r);
    RemoveMinIds(r);
    IdsNonZero(zt);
    WiredAt(ns, Some(z), r, q);
    assert Ids(r) == Ids(r.left) + {r.id} + Ids(r.right);
    AtPut(r, q, xt);
    if q == [] {
      assert y == r.id && r1 == xt && ns[y].parent == Some(z);
      var ns' := Detached(ns, z, y);
      assert Agree(ns, ns', {RootId(xt)});
      WiredReparent(ns, ns', {RootId(xt)}, Some(y), Some(y), xt);
    } else {
      DetachedCut(ns, z, r);
    }
  }

  /** The nodes lines 149-151 change, when `y` hangs below its parent `w` and `z`'s right child
   *  `rr` is neither `y` nor `NIL`. */
  lemma CutFrame(ns: seq<Node>, z: nat, y: nat)
    requires DetachReads(ns, z, y) && ns[y].parent.Some?
    requires var w, x, rr := ns[y].parent.value, ns[y].right, ns[z].right;
      z !in {w, x, y} && w !in {x, y} && x != y && rr != y && rr != 0
    ensures var w, x, rr := ns[y].parent.value, ns[y].right, ns[z].right;
      var a, ns' := Transplanted(ns, y, x), Cut(ns, z, y);
      Agree(a, ns', {y, rr}) && ns'[y].right == rr &&
      ns'[rr] == a[rr].(parent := Some(y)) && Agree(ns, a, {x} + {w})
  {
    var w, x, rr := ns[y].parent.value, ns[y].right, ns[z].right;
    TransplantedFrame(ns, y, x);
  }

  /** The successor lies deeper: `transplant(y, y.right)`, then `y` takes over `R`. */
  lemma DetachedCut(ns: seq<Node>, z: nat, r: Tree)
    requires Wired(ns, Some(z), r) && Distinct(r) && r.Fork? && r.left.Fork? && 0 < z < |ns| && z !in Ids(r)
    requires z < |ns| && ns[z].right == r.id
    ensures LeftSpine(r) != [] && ValidPath(r, LeftSpine(r)) && ValidPath(RemoveMin(r), LeftSpine(r))
    ensures DetachReads(ns, z, Min(r).id) && ns[Min(r).id].parent != Some(z) && ns[Min(r).id].parent.Some?
    ensures var q, y := LeftSpine(r), Min(r).id;
      var ns' := Detached(ns, z, y);
      Wired(ns', Some(y), RemoveMin(r)) && Agree(ns, ns', Ids(r) + {0}) && ns'[y].right == RootId(RemoveMin(r)) &&
      ns'[0] == (if RootId(Min(r).right) == 0 then ns[0].(parent := AtParent(Some(y), RemoveMin(r), q)) else ns[0])
  {
    var q, m := LeftSpine(r), Min(r);
    var y, x := m.id, RootId(m.right);
    var r1 := RemoveMin(r);
    MinSpine(r);
    AtPut(r, q, m.right);
    var w := CutSite(ns, z, r);
    var a := Transplanted(ns, y, x);
    CutFrame(ns, z, y);
    var ns' := Detached(ns, z, y);
    assert ns' == Cut(ns, z, y);
    assert Agree(a, ns', {y, r.id}) && ns'[r.id] == a[r.id].(parent := Some(y));
    assert {y, r.id} * Ids(r1) <= {RootId(r1)};
    WiredReparent(a, ns', {y, r.id}, Some(z), Some(y), r1);
    AgreeTrans(ns, a, ns', {x} + {w}, {y, r.id});
    assert {x} + {w} + {y, r.id} <= Ids(r) + {0} by {
      assert {y, r.id} <= Ids(r);
    }
    assert 0 !in {y, r.id};
    if x == 0 {
      AtParentPut(Some(z), r, q, m.right);
      AtParentTop(Some(z), Some(y), r1, q);
    }
  }

  /** The leftmost node `y` of a tree whose top has a left child lies below its parent `w`,
   *  and `y`, `w` and `y`'s right child are distinct nodes of the tree. */
  lemma SuccessorIds(r: Tree)
    requires Distinct(r) && r.Fork? && r.left.Fork?
    ensures LeftSpine(r) != [] && ValidPath(r, LeftSpine(r)) && At(r, LeftSpine(r)) == Min(r)
    ensures ValidPath(r, Up(LeftSpine(r))) && At(r, Up(LeftSpine(r))).Fork? && !Last(LeftSpine(r))
    ensures var w, y, x := At(r, Up(LeftSpine(r))).id, Min(r).id, RootId(Min(r).right);
      Child(At(r, Up(LeftSpine(r))), false) == Min(r) &&
      w in Ids(r) && y in Ids(r) && w != y && (x != 0 ==> x in Ids(r) && x !in {w, y}) &&
      r.id != y && 0 !in Ids(r) && RootId(RemoveMin(r)) == r.id &&
      y !in Ids(RemoveMin(r)) && Distinct(RemoveMin(r))
  {
    var q, m := LeftSpine(r), Min(r);
    MinSpine(r);
    RemoveMinIds(r);
    IdsNonZero(r);
    AtIds(r, q);
    UpProps(r, q);
    AtIds(r, Up(q));
    PutIds(r, q, m);
    var up := At(r, Up(q));
    PutIds(r, Up(q), up);
    assert Ids(up) == Ids(up.left) + {up.id} + Ids(up.right);
    assert Distinct(m) && Ids(m) == Ids(m.left) + {m.id} + Ids(m.right);
    assert Ids(m) <= Ids(r);
    assert Last(q) == false by {
      LeftSpineLast(r);
    }
  }

  /** The leftmost path only goes left. */
  lemma {:induction false} LeftSpineLast(r: Tree)
    requires r.Fork? && r.left.Fork?
    ensures LeftSpine(r) != [] && !Last(LeftSpine(r))
  {
    if r.left.left.Fork? {
      LeftSpineLast(r.left);
      assert LeftSpine(r) == [false] + LeftSpine(r.left);
    }
  }

  /** Where `y` sits when it lies deeper than `z`'s right child: below its parent `w` inside `R`,
   *  and `transplant(y, y.right)` leaves `R` minus `y` wired below `z`. */
  lemma CutSite(ns: seq<Node>, z: nat, r: Tree) returns (w: nat)
    requires Wired(ns, Some(z), r) && Distinct(r) && r.Fork? && r.left.Fork? && 0 < z < |ns| && z !in Ids(r)
    requires ns[z].right == r.id
    ensures LeftSpine(r) != [] && ValidPath(r, LeftSpine(r)) && At(r, LeftSpine(r)) == Min(r)
    ensures var y, x := Min(r).id, RootId(Min(r).right);
      DetachReads(ns, z, y) && ns[y].parent == Some(w) && ns[y].right == x &&
      z !in {w, x, y} && w !in {x, y} && x != y && r.id != y && r.id != 0 &&
      Wired(Transplanted(ns, y, x), Some(z), RemoveMin(r)) &&
      Transplanted(ns, y, x)[0] == (if x == 0 then ns[0].(parent := AtParent(Some(z), r, LeftSpine(r))) else ns[0]) &&
      Agree(ns, Transplanted(ns, y, x), {x} + {w}) && RootId(RemoveMin(r)) == r.id &&
      {x} + {w} <= Ids(r) + {0} && y !in Ids(RemoveMin(r)) && Distinct(RemoveMin(r)) &&
      y in Ids(r) && y != 0 && r.id in Ids(r)
  {
    var q := LeftSpine(r);
    SuccessorIds(r);
    MinSpine(r);
    TransplantWired(ns, Some(z), r, q, true);
    UpProps(r, q);
    AtParentStep(Some(z), r, Up(q), Last(q));
    w := At(r, Up(q)).id;
    assert ns[Min(r).id].parent == Some(w);
    assert ns[z].right < |ns|;
  }

  /** What `transplant(z, y)` and lines 153-155 read. */
  ghost predicate ReplaceReads(ns: seq<Node>, z: nat, y: nat) {
    z < |ns| && y < |ns| && ns[z].left < |ns| && (ns[z].parent.Some? ==> ns[z].parent.value < |ns|)
  }

  /** `transplant(z, y)`, then `y` takes over `z`'s left subtree and colour (lines 152-155). */
  function Replaced(ns: seq<Node>, z: nat, y: nat): (ns': seq<Node>)
    requires ReplaceReads(ns, z, y)
    ensures |ns'| == |ns| && Unbooked(ns, ns')
  {
    var c := Transplanted(ns, z, y);
    var d := c[y := c[y].(left := c[z].left)];
    var e := d[d[y].left := d[d[y].left].(parent := Some(y))];
    e[y := e[y].(color := e[z].color)]
  }

  /** The nodes lines 152-155 change: `z`'s parent, `y` and `z`'s left child `l`. */
  lemma ReplacedFrame(ns: seq<Node>, z: nat, y: nat, ns': seq<Node>, up: set<nat>)
    requires ReplaceReads(ns, z, y) && z != y && ns[z].left !in {y, z}
    requires ns[z].parent.Some? ==> ns[z].parent.value !in {y, z, ns[z].left}
    requires ns' == Replaced(ns, z, y) && up == (if ns[z].parent.Some? then {ns[z].parent.value} else {})
    ensures var zp, l := ns[z].parent, ns[z].left;
      Agree(ns, ns', {y, l} + up) &&
      ns'[y] == ns[y].(parent := zp, left := l, color := ns[z].color) &&
      ns'[l] == ns[l].(parent := Some(y)) &&
      (zp.Some? ==> ns'[zp.value] == Relink(ns[zp.value], z != ns[zp.value].left, y))
  {
    TransplantedFrame(ns, z, y);
  }

  /** Where `z` sits: its wiring in `ns`, its parent `zp` (as the set `up`) and how the ids of
   *  its subtree and of the rest of the tree lie. */
  lemma ReplaceSite(ns: seq<Node>, t: Tree, pz: Path) returns (up: set<nat>)
    requires Wired(ns, None, t) && Distinct(t) && ValidPath(t, pz) && At(t, pz).Fork?
    requires At(t, pz).left.Fork?
    ensures var zt, zp := At(t, pz), AtParent(None, t, pz);
      0 < zt.id < |ns| && ns[zt.id].parent == zp && ns[zt.id].left == zt.left.id && ns[zt.id].color == zt.color &&
      (zp.None? <==> pz == []) && (zp.Some? ==> zp.value < |ns|) &&
      up == (if zp.Some? then {zp.value} else {}) && up <= Context(t, pz) &&
      (pz != [] ==> ValidPath(t, Up(pz)) && At(t, Up(pz)).Fork? && zp == Some(At(t, Up(pz)).id)) &&
      (pz != [] ==> (zt.id == ns[At(t, Up(pz)).id].left <==> !Last(pz))) &&
      Distinct(zt) && Ids(zt) !! Context(t, pz) && 0 !in Context(t, pz) && 0 !in Ids(zt) &&
      Ids(zt) == Ids(zt.left) + {zt.id} + Ids(zt.right) &&
      Wired(ns, Some(zt.id), zt.left) && Wired(ns, Some(zt.id), zt.right)
  {
    var zt := At(t, pz);
    WiredAt(ns, None, t, pz);
    PutIds(t, pz, zt);
    IdsNonZero(zt);
    up := {};
    if pz != [] {
      Parentage(ns, t, pz);
      UpProps(t, pz);
      AtParentStep(None, t, Up(pz), Last(pz));
      up := {At(t, Up(pz)).id};
    }
  }

  /** What lines 152-155 find after lines 148-151: `z` and its parent untouched, and how the
   *  nodes they change lie against the subtrees and the rest of the tree. */
  lemma ReplacePre(ns: seq<Node>, ns': seq<Node>, t: Tree, pz: Path) returns (up: set<nat>)
    requires Wired(ns, None, t) && Distinct(t) && ValidPath(t, pz) && At(t, pz).Fork?
    requires At(t, pz).left.Fork? && At(t, pz).right.Fork?
    requires var zt := At(t, pz);
      var r, y := zt.right, Min(zt.right).id;
      Agree(ns, ns', Ids(r) + {0}) && |ns'| == |ns| && Unbooked(ns, ns') && y < |ns'|
    ensures var zt, zp := At(t, pz), AtParent(None, t, pz);
      var z, y, li, r := zt.id, Min(zt.right).id, zt.left.id, zt.right;
      ReplaceReads(ns', z, y) && z != y && li !in {y, z} && (zp.Some? ==> zp.value !in {y, z, li}) &&
      ns'[z] == ns[z] && ns[z].parent == zp && ns[z].left == li && ns[z].color == zt.color &&
      (zp.None? <==> pz == []) && up == (if zp.Some? then {zp.value} else {}) &&
      (zp.Some? ==> ns'[zp.value] == ns[zp.value]) &&
      0 < y && 0 < li && li !in Ids(r) && 0 !in up && ns'[y].book.bookID == Min(r).key &&
      Wired(ns, Some(z), zt.left) && Distinct(zt.left) && Distinct(RemoveMin(r)) &&
      ({y, li} + up) !! Ids(RemoveMin(r)) &&
      (Ids(r) + {0} + ({y, li} + up)) * Ids(zt.left) <= {li} &&
      (pz != [] ==> ValidPath(t, Up(pz)) && At(t, Up(pz)).Fork? && zp == Some(At(t, Up(pz)).id)) &&
      (pz != [] ==> (z == ns[At(t, Up(pz)).id].left <==> !Last(pz))) &&
      (Ids(r) + {0} + ({y, li} + up)) * Context(t, pz) <= up
  {
    var zt := At(t, pz);
    var z, l, r := zt.id, zt.left, zt.right;
    var m := Min(r);
    var y, r1, li := m.id, RemoveMin(r), l.id;
    up := ReplaceSite(ns, t, pz);
    RemoveMinIds(r);
    MinSpine(r);
    WiredAt(ns, Some(z), r, LeftSpine(r));
    assert ns[y].book.bookID == m.key;
    assert li in Ids(l) && li != y && y in Ids(zt);
    var ch := {y, li} + up;
    assert (Ids(r) + {0} + {y}) !! Ids(l);
    assert Ids(r) + {y, li} <= Ids(zt);
  }

  /** Lines 152-155 build `Removed(z)` on `y`, wired below `z`'s old parent, changing nothing
   *  outside `z`'s subtree except that parent. */
  lemma ReplacedHang(ns: seq<Node>, ns': seq<Node>, t: Tree, pz: Path) returns (all: set<nat>)
    requires Wired(ns, None, t) && Distinct(t) && ValidPath(t, pz) && At(t, pz).Fork?
    requires At(t, pz).left.Fork? && At(t, pz).right.Fork?
    requires var zt := At(t, pz);
      var r, y := zt.right, Min(zt.right).id;
      Agree(ns, ns', Ids(r) + {0}) && |ns'| == |ns| && Unbooked(ns, ns') &&
      Wired(ns', Some(y), RemoveMin(r)) && y < |ns'| && ns'[y].right == RootId(RemoveMin(r)) && y !in Ids(RemoveMin(r))
    ensures var zt := At(t, pz);
      ReplaceReads(ns', zt.id, Min(zt.right).id) && (ns'[zt.id].parent.None? <==> pz == [])
    ensures var zt, y := At(t, pz), Min(At(t, pz).right).id;
      var ns2 := Replaced(ns', zt.id, y);
      Wired(ns2, AtParent(None, t, pz), Removed(zt)) && Agree(ns, ns2, all) && ns2[0] == ns'[0] &&
      (pz != [] ==> ValidPath(t, Up(pz)) && At(t, Up(pz)).Fork? && At(t, Up(pz)).id < |ns|) &&
      (pz != [] ==> all * Context(t, pz) <= {At(t, Up(pz)).id}) &&
      (pz != [] ==> ns2[At(t, Up(pz)).id] == Relink(ns[At(t, Up(pz)).id], Last(pz), y))
  {
    var zt := At(t, pz);
    var z, l, r := zt.id, zt.left, zt.right;
    var m := Min(r);
    var y, r1, li := m.id, RemoveMin(r), l.id;
    var up := ReplacePre(ns, ns', t, pz);
    var zp := AtParent(None, t, pz);
    var ns2 := Replaced(ns', z, y);
    ReplacedFrame(ns', z, y, ns2, up);
    var ch: set<nat> := {y, li} + up;
    var zero: set<nat> := {0};
    all := Ids(r) + zero + ch;
    assert ns2[y] == ns'[y].(parent := zp, left := li, color := zt.color);
    assert Agree(ns', ns2, ch);
    assert ns'[li] == ns[li];
    HangWired(ns, ns', ns2, Ids(r) + zero, ch, z, y, zp, l, r1, m.key, zt.color);
    assert Removed(zt) == Fork(l, y, m.key, zt.color, r1);
  }

  /** `y` with `z`'s left subtree `l` and the right subtree `r1` already below it forms a wired
   *  tree once `y`'s own fields and `l`'s parent are set. */
  lemma HangWired(ns: seq<Node>, ns': seq<Node>, ns2: seq<Node>, s: set<nat>, ch: set<nat>,
                  z: nat, y: nat, zp: Option<nat>, l: Tree, r1: Tree, key: int, color: Color)
    requires Wired(ns, Some(z), l) && Distinct(l) && l.Fork? && Wired(ns', Some(y), r1) && Distinct(r1)
    requires Agree(ns, ns', s) && Agree(ns', ns2, ch) && ch !! Ids(r1) && (s + ch) * Ids(l) <= {l.id}
    requires ns2[l.id] == ns[l.id].(parent := Some(y))
    requires 0 < y < |ns2| && ns2[y].book.bookID == key && ns2[y].color == color && ns2[y].parent == zp
    requires ns2[y].left == l.id && ns2[y].right == RootId(r1)
    ensures Wired(ns2, zp, Fork(l, y, key, color, r1)) && Agree(ns, ns2, s + ch)
  {
    WiredFrame(ns', ns2, ch, Some(y), r1);
    AgreeTrans(ns, ns', ns2, s, ch);
    WiredReparent(ns, ns2, s + ch, Some(z), Some(y), l);
  }

  /** After lines 148-151, lines 152-155 hang the new subtree `Removed(z)` where `z` was. */
  lemma ReplacedWired(ns: seq<Node>, ns': seq<Node>, t: Tree, pz: Path)
    requires Wired(ns, None, t) && Distinct(t) && ValidPath(t, pz) && At(t, pz).Fork?
    requires At(t, pz).left.Fork? && At(t, pz).right.Fork?
    requires var zt := At(t, pz);
      var r, y := zt.right, Min(zt.right).id;
      Agree(ns, ns', Ids(r) + {0}) && |ns'| == |ns| && Unbooked(ns, ns') &&
      Wired(ns', Some(y), RemoveMin(r)) && y < |ns'| && ns'[y].right == RootId(RemoveMin(r)) && y !in Ids(RemoveMin(r))
    ensures var zt := At(t, pz);
      ReplaceReads(ns', zt.id, Min(zt.right).id) && (ns'[zt.id].parent.None? <==> pz == [])
    ensures var zt := At(t, pz);
      var ns2 := Replaced(ns', zt.id, Min(zt.right).id);
      Wired(ns2, None, Put(t, pz, Removed(zt))) && ns2[0] == ns'[0]
  {
    var zt := At(t, pz);
    var all := ReplacedHang(ns, ns', t, pz);
    SpliceWired(ns, Replaced(ns', zt.id, Min(zt.right).id), all, t, pz, Removed(zt));
  }

  /** Lines 144-155 as a whole: after `Detached` and `Replaced` the arena is wired to the tree
   *  with `z` removed, `x` (the old right child of `y`) roots the subtree at the hole and knows
   *  its parent there, and `NIL` keeps its colour. */
  lemma SuccessorSpliced(ns: seq<Node>, t: Tree, pz: Path)
    requires Wired(ns, None, t) && Distinct(t) && ValidPath(t, pz) && At(t, pz).Fork?
    requires At(t, pz).left.Fork? && At(t, pz).right.Fork?
    ensures var zt := At(t, pz);
      var z, y := zt.id, Min(zt.right).id;
      DetachReads(ns, z, y) && ns[y].parent.Some? && ReplaceReads(Detached(ns, z, y), z, y) &&
      (Detached(ns, z, y)[z].parent.None? <==> pz == [])
    ensures var zt := At(t, pz);
      var z, y := zt.id, Min(zt.right).id;
      var ns2, u, px := Replaced(Detached(ns, z, y), z, y), Put(t, pz, Removed(zt)), pz + Hole(zt);
      var x := ns[y].right;
      Wired(ns2, None, u) && ns2[0].color == ns[0].color && ValidPath(u, px) && x == RootId(At(u, px)) &&
      x < |ns2| && (px != [] ==> ns2[x].parent == AtParent(None, u, px)) &&
      RootId(u) == (if pz == [] then y else RootId(t))
  {
    var zt := At(t, pz);
    var z, y := zt.id, Min(zt.right).id;
    DetachedWired(ns, t, pz);
    var ns1 := Detached(ns, z, y);
    ReplacedWired(ns, ns1, t, pz);
    var ns2 := Replaced(ns1, z, y);
    HoleParent(t, pz);
    RemovedHole(zt);
    var u := Put(t, pz, Removed(zt));
    AtPut(t, pz, Removed(zt));
    PathConcat(u, pz, Hole(zt));
    var x := ns[y].right;
    if x != 0 {
      WiredAt(ns2, None, u, pz + Hole(zt));
    }
  }

  /** The parent the position of `x` has in the tree after the deletion of `z` at `pz` by its
   *  successor: `y`'s old parent inside `R`, or `y` itself when `y` was `z`'s right child. */
  lemma HoleParent(t: Tree, pz: Path)
    requires ValidPath(t, pz) && At(t, pz).Fork? && At(t, pz).left.Fork? && At(t, pz).right.Fork?
    ensures var zt := At(t, pz);
      var u, r := Put(t, pz, Removed(zt)), zt.right;
      ValidPath(RemoveMin(r), LeftSpine(r)) && ValidPath(u, pz + Hole(zt)) &&
      AtParent(None, u, pz + Hole(zt)) == AtParent(Some(Min(r).id), RemoveMin(r), LeftSpine(r))
  {
    var zt := At(t, pz);
    var u, r, q := Put(t, pz, Removed(zt)), zt.right, LeftSpine(zt.right);
    MinSpine(r);
    AtPut(r, q, Min(r).right);
    RemovedHole(zt);
    AtPut(t, pz, Removed(zt));
    PathConcat(u, pz, Hole(zt));
    AtParentConcat(None, u, pz, Hole(zt));
    assert ([true] + q)[1..] == q;
  }

  // ---------------------------------------------------------------------------------------------
  // The stale parent of NIL, on a concrete tree
  // ---------------------------------------------------------------------------------------------

  function Shelved(key: int): Book {
    Book(key, "", "", "Yes", None, [])
  }

  /** The arena after inserting 1, 2, 3, 0 and deleting 0: the black tree 2(1, 3), with `NIL`'s
   *  parent left at node 1 by the transplant of that deletion, and the deleted node still in slot 4. */
  function StaleArena(): (ns: seq<Node>)
    ensures |ns| == 5
  {
    [Node(Shelved(0), Black, 0, 0, Some(1)),
     Node(Shelved(1), Black, 0, 0, Some(2)),
     Node(Shelved(2), Black, 1, 3, None),
     Node(Shelved(3), Black, 0, 0, Some(2)),
     Node(Shelved(0), Red, 0, 0, Some(1))]
  }

  /** Deleting 2 from that tree: its successor 3 is its own right child and `x` is `NIL`. As
   *  written, `NIL`'s parent still names node 1, which by then is a leaf whose links are both `NIL`,
   *  so `fix_delete(NIL)` takes `NIL` as the sibling and reads a child of `NIL` (the source's
   *  `NIL` has `left = None`). With `x.parent = y`, `NIL`'s parent is node 3, its position's parent
   *  in the new tree, and the sibling is node 1. */
  lemma StaleParentWitness()
    ensures var ns, t := StaleArena(), Fork(Fork(Empty, 1, 1, Black, Empty), 2, 2, Black, Fork(Empty, 3, 3, Black, Empty));
      Wired(ns, None, t) && Distinct(t) && DetachReads(ns, 2, 3) && ns[3].parent == Some(2) && ns[3].right == 0
    ensures var ns := StaleArena();
      var bad := DetachedAsWritten(ns, 2, 3);
      ReplaceReads(bad, 2, 3) &&
      var bad2 := Replaced(bad, 2, 3);
      bad2[0].parent == Some(1) && bad2[1].left == 0 && bad2[1].right == 0 && bad2[1].parent == Some(3) &&
      bad2[3].left == 1 && bad2[3].right == 0 && bad2[3].parent == None
    ensures var ns := StaleArena();
      var good := Detached(ns, 2, 3);
      ReplaceReads(good, 2, 3) &&
      var good2 := Replaced(good, 2, 3);
      good2[0].parent == Some(3) && good2[3].left == 1 && good2[3].right == 0 && good2[3].parent == None
  {
  }
}
