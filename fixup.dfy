/**
 * The local restructurings of the insertion fix-up loop of gatorLibrary.py, `fix_insert`
 * (lines 241-275), on the ghost trees around a grandparent `g`. Mirror-image branches of the
 * source are one case here, with the side `a` the source's branch condition selects.
 */
module Fixup {
  import opened Shape
  import opened RedBlack

  lemma PutOne(t: Tree, d: bool, s: Tree)
    requires t.Fork?
    ensures ValidPath(t, [d]) && At(t, [d]) == Child(t, d) && Put(t, [d], s) == WithChild(t, d, s)
  {
    assert [d][1..] == [];
  }

  lemma PutTwo(t: Tree, d: bool, e: bool, s: Tree)
    requires t.Fork? && Child(t, d).Fork?
    ensures ValidPath(t, [d, e]) && At(t, [d, e]) == Child(Child(t, d), e)
    ensures Put(t, [d, e], s) == WithChild(t, d, WithChild(Child(t, d), e, s))
  {
    assert [d, e][1..] == [e];
    PutOne(Child(t, d), e, s);
  }

  // ---------------------------------------------------------------------------------------------
  // Insertion: the red node `k` at `[a, b]` below `g` has a red parent `p` at `[a]`

  /** The "red-red at the grandchild" state `fix_insert` finds around `g`. */
  ghost predicate RedRed(g: Tree, a: bool, b: bool) {
    g.Fork? && Child(g, a).Fork? && Child(Child(g, a), b).Fork? &&
    Child(g, a).color == Red && Child(Child(g, a), b).color == Red &&
    Balanced(g) && NoRRX(g, [a, b])
  }

  /** Case 1 (lines 245-250): the uncle is red; the uncle and the parent turn black and `g` red. */
  function Recolored(g: Tree, a: bool): Tree
    requires g.Fork? && Child(g, a).Fork? && Child(g, !a).Fork?
  {
    Paint(WithChild(WithChild(g, !a, Paint(Child(g, !a), Black)), a, Paint(Child(g, a), Black)), Red)
  }

  lemma RecoloredRules(g: Tree, a: bool, b: bool)
    requires RedRed(g, a, b) && ColorOf(Child(g, !a)) == Red
    ensures Child(g, !a).Fork? && g.color == Black
    ensures Balanced(Recolored(g, a)) && BH(Recolored(g, a)) == BH(g) && NoRR(Recolored(g, a))
    ensures Recolored(g, a).color == Red
    ensures InOrder(Recolored(g, a)) == InOrder(g) && Keys(Recolored(g, a)) == Keys(g)
    ensures Ids(Recolored(g, a)) == Ids(g)
  {
    assert [a, b][1..] == [b];
    assert [b][1..] == [];
    var pp, u := Child(g, a), Child(g, !a);
    assert Balanced(pp) && Balanced(u) && BH(pp) == BH(u);
    assert NoRRX(pp, [b]) && NoRR(u);
    assert NoRRX(Child(pp, b), []) && NoRR(Child(pp, !b));
    assert BH(g) == BH(pp) + 1;
    var pb, ub := Paint(pp, Black), Paint(u, Black);
    assert BH(pb) == BH(pp) + 1 && BH(ub) == BH(u) + 1;
    assert Balanced(pb) && Balanced(ub) && NoRR(pb) && NoRR(ub);
    var r := Recolored(g, a);
    if a {
      assert r == Fork(ub, g.id, g.key, Red, pb);
    } else {
      assert r == Fork(pb, g.id, g.key, Red, ub);
    }
  }

  /** Cases 2 and 3 (lines 251-258): the uncle is black. An inner grandchild is first rotated
   *  up into the parent's place (case 2), so that the red-red edge points outwards. */
  function Straightened(g: Tree, a: bool, b: bool): (l: Tree)
    requires g.Fork? && Child(g, a).Fork? && Child(Child(g, a), b).Fork?
    ensures l.Fork? && Child(l, a).Fork? && Child(Child(l, a), a).Fork?
  {
    if b == a then g else WithChild(g, a, Raise(Child(g, a), !a))
  }

  /** Case 3: the parent turns black, `g` red, and `g` is rotated down on the side away from `a`. */
  function Restructured(g: Tree, a: bool, b: bool): (r: Tree)
    requires g.Fork? && Child(g, a).Fork? && Child(Child(g, a), b).Fork?
    ensures r.Fork? && Child(r, a).Fork?
  {
    var l := Straightened(g, a, b);
    var m := Paint(WithChild(l, a, Paint(Child(l, a), Black)), Red);
    assert Child(Child(m, a), a).Fork?;
    Raise(m, a)
  }

  lemma RestructuredRules(g: Tree, a: bool, b: bool)
    requires RedRed(g, a, b) && ColorOf(Child(g, !a)) == Black
    ensures g.color == Black
    ensures Balanced(Restructured(g, a, b)) && BH(Restructured(g, a, b)) == BH(g)
    ensures NoRR(Restructured(g, a, b)) && Restructured(g, a, b).color == Black
    ensures Child(Restructured(g, a, b), a).color == Red
    ensures Child(Restructured(g, a, b), a).id == if b == a then Child(Child(g, a), b).id else Child(g, a).id
  {
    assert [a, b][1..] == [b];
    assert [b][1..] == [];
    var pp, u := Child(g, a), Child(g, !a);
    var k := Child(pp, b);
    assert Balanced(pp) && Balanced(u) && BH(pp) == BH(u);
    assert NoRRX(pp, [b]) && NoRR(u);
    assert NoRRX(k, []) && NoRR(Child(pp, !b));
    assert g.color == Black;
    var r := Restructured(g, a, b);
    if !a && !b {
      assert r == Fork(k, pp.id, pp.key, Black, Fork(pp.right, g.id, g.key, Red, u));
    } else if a && b {
      assert r == Fork(Fork(u, g.id, g.key, Red, pp.left), pp.id, pp.key, Black, k);
    } else if !a && b {
      assert Balanced(k) && BH(k.left) == BH(k.right) == BH(pp.left) == BH(u);
      assert r == Fork(Fork(pp.left, pp.id, pp.key, Red, k.left), k.id, k.key, Black, Fork(k.right, g.id, g.key, Red, u));
    } else {
      assert Balanced(k) && BH(k.left) == BH(k.right) == BH(pp.right) == BH(u);
      assert r == Fork(Fork(u, g.id, g.key, Red, k.left), k.id, k.key, Black, Fork(k.right, pp.id, pp.key, Red, pp.right));
    }
  }

  /** The loop state of `fix_insert` on the tree: the node at `pk` is red, the edge from it up
   *  to its parent is the only one that may join two red nodes, and the root is black unless
   *  it is that node. */
  ghost predicate InsertState(t: Tree, pk: Path) {
    ValidPath(t, pk) && At(t, pk).Fork? && At(t, pk).color == Red && Balanced(t) && NoRRX(t, pk) &&
    (pk == [] || ColorOf(t) == Black)
  }

  /** A red leaf put into a `NIL` position of a red-black tree starts the loop of `fix_insert`:
   *  it is balanced and at worst the new node and its parent are both red. */
  lemma InsertLeaf(t: Tree, p: Path, s: Tree)
    requires RedBlackRules(t) && ValidPath(t, p) && At(t, p).Empty?
    requires s.Fork? && s.left.Empty? && s.right.Empty? && s.color == Red
    ensures InsertState(Put(t, p, s), p) && At(Put(t, p, s), p) == s
  {
    AtPut(t, p, s);
    PutBalanced(t, p, s);
    NoRRToX(t, p);
    assert p + [] == p;
    XPut(t, p, [], s);
    PutTopColor(t, p, s);
  }

  /** Case 1 moves the loop state two levels up, to the grandparent. */
  lemma RecolorStep(t: Tree, pg: Path, a: bool, b: bool)
    requires ValidPath(t, pg) && At(t, pg).Fork? && Child(At(t, pg), a).Fork?
    requires Child(At(t, pg), a).color == Red && ColorOf(Child(At(t, pg), !a)) == Red
    requires InsertState(t, pg + [a, b])
    ensures InsertState(Put(t, pg, Recolored(At(t, pg), a)), pg)
    ensures At(Put(t, pg, Recolored(At(t, pg), a)), pg).id == At(t, pg).id
  {
    var gt := At(t, pg);
    XAt(t, pg, [a, b]);
    BalancedSplit(t, pg);
    PutTwo(gt, a, b, Empty);
    PathConcat(t, pg, [a, b]);
    RecoloredRules(gt, a, b);
    var r := Recolored(gt, a);
    PutBalanced(t, pg, r);
    XPut(t, pg, [a, b], r);
    PutTopColor(t, pg, r);
    AtPut(t, pg, r);
  }

  /** Cases 2 and 3 leave the red node below a black one at `pg + [a]`: no red-red edge is
   *  left. */
  lemma RestructureStep(t: Tree, pg: Path, a: bool, b: bool)
    requires ValidPath(t, pg) && At(t, pg).Fork? && Child(At(t, pg), a).Fork?
    requires Child(Child(At(t, pg), a), b).Fork?
    requires Child(At(t, pg), a).color == Red && ColorOf(Child(At(t, pg), !a)) == Black
    requires InsertState(t, pg + [a, b])
    ensures var u := Put(t, pg, Restructured(At(t, pg), a, b));
      InsertState(u, pg + [a]) && NoRR(u) && At(u, pg + [a]) == Child(Restructured(At(t, pg), a, b), a) &&
      At(u, pg + [a]).id == Child(Child(Straightened(At(t, pg), a, b), a), a).id
  {
    var gt := At(t, pg);
    XAt(t, pg, [a, b]);
    BalancedSplit(t, pg);
    PutTwo(gt, a, b, Empty);
    PathConcat(t, pg, [a, b]);
    RestructuredRules(gt, a, b);
    var r := Restructured(gt, a, b);
    var u := Put(t, pg, r);
    PutBalanced(t, pg, r);
    XPut(t, pg, [a, b], r);
    AtPut(t, pg, r);
    XBlackTop(u, pg);
    NoRRToX(u, pg + [a]);
    PutTopColor(t, pg, r);
    StepDown(u, pg, a);
  }

  /** Replacing a child by a subtree with the same content. */
  lemma WithChildContent(t: Tree, d: bool, s: Tree)
    requires t.Fork?
    requires InOrder(s) == InOrder(Child(t, d)) && Keys(s) == Keys(Child(t, d)) && Ids(s) == Ids(Child(t, d))
    ensures InOrder(WithChild(t, d, s)) == InOrder(t) && Keys(WithChild(t, d, s)) == Keys(t)
    ensures Ids(WithChild(t, d, s)) == Ids(t)
    ensures Distinct(t) && Distinct(s) ==> Distinct(WithChild(t, d, s))
  {
  }

  lemma PaintContent(t: Tree, c: Color)
    requires t.Fork?
    ensures InOrder(Paint(t, c)) == InOrder(t) && Keys(Paint(t, c)) == Keys(t)
    ensures Ids(Paint(t, c)) == Ids(t) && Distinct(Paint(t, c)) == Distinct(t)
  {
  }

  lemma RestructuredContent(g: Tree, a: bool, b: bool)
    requires g.Fork? && Child(g, a).Fork? && Child(Child(g, a), b).Fork?
    ensures InOrder(Restructured(g, a, b)) == InOrder(g) && Keys(Restructured(g, a, b)) == Keys(g)
    ensures Ids(Restructured(g, a, b)) == Ids(g) && (Distinct(g) ==> Distinct(Restructured(g, a, b)))
  {
    var l := Straightened(g, a, b);
    if b != a {
      RaiseContent(Child(g, a), !a);
      WithChildContent(g, a, Raise(Child(g, a), !a));
      if Distinct(g) {
        assert Distinct(Child(g, a));
      }
    }
    PaintContent(Child(l, a), Black);
    WithChildContent(l, a, Paint(Child(l, a), Black));
    if Distinct(l) {
      assert Distinct(Child(l, a));
    }
    var w := WithChild(l, a, Paint(Child(l, a), Black));
    PaintContent(w, Red);
    RaiseContent(Paint(w, Red), a);
  }
}
