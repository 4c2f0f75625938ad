/**
 * The cases of `fix_delete` (gatorLibrary.py lines 76-132) on the ghost tree, around the parent
 * `P` of the short subtree `x`, which hangs on side `a` with its sibling `s` on the other side.
 * The source writes each case twice, once per side; here the side is the parameter `a`.
 */
module Rebalance {
  import opened Shape
  import opened RedBlack

  /** `x` is black and one black short of its sibling, and there is no red-red edge. */
  ghost predicate LocalShort(p: Tree, a: bool) {
    p.Fork? && ColorOf(Child(p, a)) == Black && Balanced(Child(p, a)) && Balanced(Child(p, !a)) &&
    BH(Child(p, !a)) == BH(Child(p, a)) + 1 && NoRR(p)
  }

  /** The sibling of a short subtree is a node, never `NIL`. */
  lemma SiblingNode(p: Tree, a: bool)
    requires LocalShort(p, a)
    ensures Child(p, !a).Fork?
  {
  }

  /** Case 1 (lines 80-86): the sibling is red. It turns black, `P` red, and `P` is rotated
   *  down towards `x`. */
  function SiblingRed(p: Tree, a: bool): Tree
    requires p.Fork? && Child(p, !a).Fork?
  {
    Raise(Paint(WithChild(p, !a, Paint(Child(p, !a), Black)), Red), !a)
  }

  /** Case 2 (lines 88-90): both children of the black sibling are black; the sibling turns red. */
  function SiblingPaled(p: Tree, a: bool): Tree
    requires p.Fork? && Child(p, !a).Fork?
  {
    WithChild(p, !a, Paint(Child(p, !a), Red))
  }

  /** Case 3 (lines 92-98), on the sibling `s`: its far child is black, so its near (red) child
   *  turns black, `s` red, and `s` is rotated away from `x`. */
  function NearRaised(s: Tree, a: bool): Tree
    requires s.Fork? && Child(s, a).Fork?
  {
    Raise(Paint(WithChild(s, a, Paint(Child(s, a), Black)), Red), a)
  }

  /** Case 4 (lines 100-104): the far child of the black sibling is red. The sibling takes `P`'s
   *  colour, `P` and the far child turn black, and `P` is rotated down towards `x`. */
  function FarRaised(p: Tree, a: bool): Tree
    requires p.Fork? && Child(p, !a).Fork? && Child(Child(p, !a), !a).Fork?
  {
    var s := Child(p, !a);
    Raise(Paint(WithChild(p, !a, WithChild(Paint(s, p.color), !a, Paint(Child(s, !a), Black))), Black), !a)
  }

  /** After case 1 the sibling is black and `x`, now two levels down, is still one black short,
   *  below a red parent. */
  lemma SiblingRedRules(p: Tree, a: bool)
    requires LocalShort(p, a) && ColorOf(Child(p, !a)) == Red
    ensures var q, h := SiblingRed(p, a), BH(Child(p, a)) + 1;
      ValidPath(q, [a, a]) && At(q, [a, a]) == Child(p, a) && At(q, [a]) == Child(q, a) &&
      Short(q, [a, a]) && ShortHeight(q, [a, a]) == HAlong(p, [a], h) &&
      NoRR(Put(q, [a, a], Blacken(At(q, [a, a])))) && ColorOf(Put(q, [a, a], Blacken(At(q, [a, a])))) == Black &&
      Child(q, a).Fork? && Child(q, a).color == Red
  {
    assert [a, a][1..] == [a] && [a][1..] == [];
    var q, x, s := SiblingRed(p, a), Child(p, a), Child(p, !a);
    var h := BH(x) + 1;
    assert NoRR(s) && p.color == Black;
    assert ColorOf(s.left) == Black && ColorOf(s.right) == Black;
    assert BH(s.left) == h && BH(s.right) == h;
    assert Blacken(x) == x;
    var m := Fork(Child(s, a), p.id, p.key, Red, x);
    if a {
      assert q == Fork(s.left, s.id, s.key, Black, m);
    } else {
      m := Fork(x, p.id, p.key, Red, Child(s, a));
      assert q == Fork(m, s.id, s.key, Black, s.right);
    }
    assert Child(q, a) == m && Child(m, a) == x && Child(m, !a) == Child(s, a);
    assert At(q, [a, a]) == At(m, [a]) == x;
    assert Fits(x, [], h) && HAlong(x, [], h) == h;
    assert Fits(m, [a], h) && HAlong(m, [a], h) == h;
    assert HAlong(q, [a, a], h) == h + 1;
    assert Put(m, [a], x) == m;
    assert Put(q, [a, a], x) == q;
    assert NoRR(x) && NoRR(Child(s, a)) && NoRR(m);
  }

  /** Case 2 leaves `P` one black short, with no red-red edge below it. */
  lemma SiblingPaledRules(p: Tree, a: bool)
    requires LocalShort(p, a) && ColorOf(Child(p, !a)) == Black
    requires Child(p, !a).Fork? && ColorOf(Child(p, !a).left) == Black && ColorOf(Child(p, !a).right) == Black
    ensures var w := SiblingPaled(p, a);
      Short(w, []) && ShortHeight(w, []) == HAlong(p, [a], BH(Child(p, a)) + 1) &&
      NoRR(Put(w, [], Blacken(At(w, [])))) && ColorOf(Put(w, [], Blacken(At(w, [])))) == Black
  {
    assert [a][1..] == [];
    var w, x, s := SiblingPaled(p, a), Child(p, a), Child(p, !a);
    assert NoRR(s) && NoRR(x) && Balanced(s);
    var s' := Paint(s, Red);
    assert BH(s') == BH(x) && Balanced(s') && NoRR(s');
    if a {
      assert w == Fork(s', p.id, p.key, p.color, x);
    } else {
      assert w == Fork(x, p.id, p.key, p.color, s');
    }
    assert Balanced(w) && BH(w) + 1 == HAlong(p, [a], BH(x) + 1);
  }

  /** Case 3 turns the sibling into one whose far child is red, ready for case 4. */
  lemma NearRaisedRules(p: Tree, a: bool)
    requires LocalShort(p, a) && ColorOf(Child(p, !a)) == Black && Child(p, !a).Fork?
    requires ColorOf(Child(Child(p, !a), !a)) == Black && ColorOf(Child(Child(p, !a), a)) == Red
    ensures var p3 := WithChild(p, !a, NearRaised(Child(p, !a), a));
      LocalShort(p3, a) && Child(p3, a) == Child(p, a) && p3.color == p.color &&
      Child(p3, !a).Fork? && Child(p3, !a).color == Black && ColorOf(Child(Child(p3, !a), !a)) == Red
  {
    var x, s := Child(p, a), Child(p, !a);
    var c, f := Child(s, a), Child(s, !a);
    assert NoRR(s) && Balanced(s) && NoRR(c) && NoRR(f);
    assert BH(c) == BH(x) && BH(f) == BH(x) && ColorOf(c.left) == Black && ColorOf(c.right) == Black;
    assert Balanced(c) && Balanced(f) && BH(c.left) == BH(x) && BH(c.right) == BH(x);
    assert Balanced(Child(c, !a)) && NoRR(Child(c, !a)) && BH(Child(c, !a)) == BH(x);
    var s3 := NearRaised(s, a);
    var s' := Fork(Child(c, !a), s.id, s.key, Red, f);
    if a {
      s' := Fork(f, s.id, s.key, Red, Child(c, !a));
      assert s3 == Fork(s', c.id, c.key, Black, c.right);
    } else {
      assert s3 == Fork(c.left, c.id, c.key, Black, s');
    }
    assert Child(s3, !a) == s' && Balanced(s') && NoRR(s') && BH(s') == BH(x);
    assert Balanced(s3) && NoRR(s3) && BH(s3) == BH(x) + 1;
    var p3 := WithChild(p, !a, s3);
    if a {
      assert p3 == Fork(s3, p.id, p.key, p.color, x);
    } else {
      assert p3 == Fork(x, p.id, p.key, p.color, s3);
    }
  }

  /** Case 4 gives `P`'s place a balanced subtree with the black height the rest of the tree
   *  expects, `P`'s colour at the top and no red-red edge. */
  lemma FarRaisedRules(p: Tree, a: bool)
    requires LocalShort(p, a) && ColorOf(Child(p, !a)) == Black && Child(p, !a).Fork?
    requires ColorOf(Child(Child(p, !a), !a)) == Red
    ensures var w := FarRaised(p, a);
      Balanced(w) && BH(w) == HAlong(p, [a], BH(Child(p, a)) + 1) && NoRR(w) && ColorOf(w) == p.color
  {
    assert [a][1..] == [];
    var x, s := Child(p, a), Child(p, !a);
    var c, f := Child(s, a), Child(s, !a);
    assert NoRR(s) && Balanced(s) && NoRR(c) && NoRR(f) && NoRR(x);
    assert Balanced(c) && Balanced(f) && BH(c) == BH(x) && BH(f) == BH(x);
    assert BH(f.left) == BH(x) && BH(f.right) == BH(x);
    var fb := Paint(f, Black);
    assert Balanced(fb) && NoRR(fb) && BH(fb) == BH(x) + 1;
    var w := FarRaised(p, a);
    var l := Fork(x, p.id, p.key, Black, c);
    if a {
      l := Fork(c, p.id, p.key, Black, x);
      assert w == Fork(fb, s.id, s.key, p.color, l);
    } else {
      assert w == Fork(l, s.id, s.key, p.color, fb);
    }
    assert Balanced(l) && NoRR(l) && BH(l) == BH(x) + 1;
  }

  // ---------------------------------------------------------------------------------------------
  // The cases inside the whole tree

  /** The loop state of `fix_delete` seen from the parent `P` at `pp` of the black node `x`,
   *  which hangs on side `a`. */
  ghost predicate Doubled(t: Tree, pp: Path, a: bool) {
    ValidPath(t, pp) && At(t, pp).Fork? && DeleteState(t, pp + [a]) && ColorOf(Child(At(t, pp), a)) == Black
  }

  /** What that state says around `P`: the local picture of the cases, and the rest of the tree
   *  is red-black and fits a subtree of the black height `P` should have. */
  lemma DoubledLocal(t: Tree, pp: Path, a: bool)
    requires Doubled(t, pp, a)
    ensures At(t, pp + [a]) == Child(At(t, pp), a)
    ensures LocalShort(At(t, pp), a) && Child(At(t, pp), !a).Fork?
    ensures NoRR(t) && ColorOf(t) == Black
    ensures Fits(t, pp, HAlong(At(t, pp), [a], BH(Child(At(t, pp), a)) + 1))
  {
    var p := At(t, pp);
    var x := Child(p, a);
    StepDown(t, pp, a);
    assert Blacken(x) == x;
    PutAt(t, pp + [a]);
    SubNoRR(t, pp);
    FitsConcat(t, pp, [a], BH(x) + 1);
    assert [a][1..] == [];
    SiblingNode(p, a);
  }

  /** A replacement `W` of `P` in which the position `r` is one black short, with the black
   *  height `P` should have, leaves the tree in the loop state at `pp + r`. */
  lemma LiftShort(t: Tree, pp: Path, a: bool, w: Tree, r: Path)
    requires Doubled(t, pp, a) && ValidPath(w, r) && Short(w, r)
    requires ShortHeight(w, r) == HAlong(At(t, pp), [a], BH(Child(At(t, pp), a)) + 1)
    requires NoRR(Put(w, r, Blacken(At(w, r))))
    requires ColorOf(Put(w, r, Blacken(At(w, r)))) == Black || ColorOf(Put(w, r, Blacken(At(w, r)))) == At(t, pp).color
    requires r != [] ==> ColorOf(w) == Black
    ensures ValidPath(Put(t, pp, w), pp + r) && At(Put(t, pp, w), pp + r) == At(w, r)
    ensures DeleteState(Put(t, pp, w), pp + r)
  {
    DoubledLocal(t, pp, a);
    var u, b := Put(t, pp, w), Blacken(At(w, r));
    var h := BH(At(w, r)) + 1;
    Focus(t, pp, w, r, b);
    AtPut(t, pp, w);
    FitsConcat(u, pp, r, h);
    FitsPut(t, pp, w, HAlong(w, r, h));
    PutNoRR(t, pp, Put(w, r, b));
    PutTopColor(t, pp, w);
    PutTopColor(w, r, b);
  }

  /** A balanced replacement of `P` with the black height `P` should have, `P`'s colour and no
   *  red-red edge makes the whole tree balanced without red-red edges. */
  lemma LiftBalanced(t: Tree, pp: Path, a: bool, w: Tree)
    requires Doubled(t, pp, a) && Balanced(w) && NoRR(w) && ColorOf(w) == At(t, pp).color
    requires BH(w) == HAlong(At(t, pp), [a], BH(Child(At(t, pp), a)) + 1)
    ensures Balanced(Put(t, pp, w)) && NoRR(Put(t, pp, w)) && DeleteState(Put(t, pp, w), [])
  {
    DoubledLocal(t, pp, a);
    var u := Put(t, pp, w);
    AtPut(t, pp, w);
    FitsPut(t, pp, w, BH(w));
    BalancedSplit(u, pp);
    PutNoRR(t, pp, w);
    BlackenRules(u);
  }

  /** The loop of `fix_delete` ends at the root or at a red `x`; blackening `x` (line 132) then
   *  leaves a red-black tree. */
  lemma DeleteExit(t: Tree, px: Path)
    requires DeleteState(t, px) && (px == [] || ColorOf(At(t, px)) == Red)
    ensures RedBlackRules(Put(t, px, Blacken(At(t, px))))
  {
    var x := At(t, px);
    var u := Put(t, px, Blacken(x));
    BlackenRules(x);
    AtPut(t, px, Blacken(x));
    if px != [] {
      FitsPut(t, px, Blacken(x), BH(x) + 1);
      BalancedSplit(u, px);
      PutTopColor(t, px, Blacken(x));
    }
  }

  /** Case 1 in the tree: afterwards `x` is still one black short, now below the red `P` at
   *  `pp + [a]`, and its sibling is black. */
  lemma SiblingRedDoubled(t: Tree, pp: Path, a: bool)
    requires Doubled(t, pp, a) && ColorOf(Child(At(t, pp), !a)) == Red
    ensures Child(At(t, pp), !a).Fork?
    ensures var u, q := Put(t, pp, SiblingRed(At(t, pp), a)), SiblingRed(At(t, pp), a);
      Doubled(u, pp + [a], a) && At(u, pp + [a]) == Child(q, a) && Child(q, a).color == Red &&
      Child(Child(q, a), a) == Child(At(t, pp), a) && Child(q, a).id == At(t, pp).id &&
      ColorOf(Child(Child(q, a), !a)) == Black
  {
    DoubledLocal(t, pp, a);
    var p := At(t, pp);
    var q := SiblingRed(p, a);
    SiblingRedRules(p, a);
    PutTopColor(q, [a, a], Blacken(At(q, [a, a])));
    LiftShort(t, pp, a, q, [a, a]);
    assert pp + [a, a] == pp + [a] + [a];
    Focus(t, pp, q, [a], Empty);
    assert At(q, [a]) == Child(q, a) && At(q, [a, a]) == Child(Child(q, a), a);
  }

  /** Case 2 in the tree: `P` becomes the new `x`, one black short. */
  lemma SiblingPaledDelete(t: Tree, pp: Path, a: bool)
    requires Doubled(t, pp, a) && ColorOf(Child(At(t, pp), !a)) == Black && Child(At(t, pp), !a).Fork?
    requires ColorOf(Child(At(t, pp), !a).left) == Black && ColorOf(Child(At(t, pp), !a).right) == Black
    ensures var u := Put(t, pp, SiblingPaled(At(t, pp), a));
      DeleteState(u, pp) && At(u, pp) == SiblingPaled(At(t, pp), a)
  {
    DoubledLocal(t, pp, a);
    var w := SiblingPaled(At(t, pp), a);
    SiblingPaledRules(At(t, pp), a);
    LiftShort(t, pp, a, w, []);
    assert pp + [] == pp;
  }

  /** Replacing `P` by a node of the same colour over the same `x` that is again in the local
   *  picture keeps the loop state. */
  lemma Relocal(t: Tree, pp: Path, a: bool, p': Tree)
    requires Doubled(t, pp, a) && LocalShort(p', a)
    requires Child(p', a) == Child(At(t, pp), a) && p'.color == At(t, pp).color
    ensures Doubled(Put(t, pp, p'), pp, a) && At(Put(t, pp, p'), pp) == p'
  {
    DoubledLocal(t, pp, a);
    var x := Child(p', a);
    var h := BH(x) + 1;
    var u := Put(t, pp, p');
    AtPut(t, pp, p');
    StepDown(u, pp, a);
    assert Blacken(x) == x;
    PutAt(u, pp + [a]);
    FitsConcat(u, pp, [a], h);
    assert [a][1..] == [];
    FitsPut(t, pp, p', HAlong(p', [a], h));
    assert HAlong(p', [a], h) == HAlong(At(t, pp), [a], h);
    assert Fits(u, pp + [a], h);
    PutNoRR(t, pp, p');
    PutTopColor(t, pp, p');
    assert NoRR(Put(u, pp + [a], Blacken(At(u, pp + [a]))));
  }

  /** Case 3 in the tree: the sibling is rotated so that its far child is red, in the loop state
   *  still. */
  lemma NearRaisedDoubled(t: Tree, pp: Path, a: bool)
    requires Doubled(t, pp, a) && ColorOf(Child(At(t, pp), !a)) == Black && Child(At(t, pp), !a).Fork?
    requires ColorOf(Child(Child(At(t, pp), !a), !a)) == Black && ColorOf(Child(Child(At(t, pp), !a), a)) == Red
    ensures Child(Child(At(t, pp), !a), a).Fork?
    ensures var p3 := WithChild(At(t, pp), !a, NearRaised(Child(At(t, pp), !a), a));
      Doubled(Put(t, pp, p3), pp, a) && At(Put(t, pp, p3), pp) == p3 && Child(p3, a) == Child(At(t, pp), a) &&
      Child(p3, !a).Fork? && Child(p3, !a).color == Black && ColorOf(Child(Child(p3, !a), !a)) == Red
  {
    DoubledLocal(t, pp, a);
    NearRaisedRules(At(t, pp), a);
    Relocal(t, pp, a, WithChild(At(t, pp), !a, NearRaised(Child(At(t, pp), !a), a)));
  }

  /** Case 4 in the tree: every path gets its black back, and the loop ends at the root. */
  lemma FarRaisedDelete(t: Tree, pp: Path, a: bool)
    requires Doubled(t, pp, a) && ColorOf(Child(At(t, pp), !a)) == Black && Child(At(t, pp), !a).Fork?
    requires ColorOf(Child(Child(At(t, pp), !a), !a)) == Red
    ensures var u := Put(t, pp, FarRaised(At(t, pp), a));
      Balanced(u) && NoRR(u) && DeleteState(u, [])
  {
    DoubledLocal(t, pp, a);
    FarRaisedRules(At(t, pp), a);
    LiftBalanced(t, pp, a, FarRaised(At(t, pp), a));
  }

  // ---------------------------------------------------------------------------------------------
  // What one round of `fix_delete` adds to the colour-flip counter

  /** Cases 2 to 4 at the black sibling `s` of `x` (side `a`) below a parent of colour `pc`:
   *  case 2 adds nothing; case 3 adds 2 (its explicit increment, line 97, and its rotation of a
   *  red and a black node); case 4's rotation (line 103) adds 1 when the parent was red. */
  function ResolveFlips(pc: Color, s: Tree, a: bool): nat
    requires s.Fork?
  {
    if ColorOf(s.left) == Black && ColorOf(s.right) == Black then 0
    else (if ColorOf(Child(s, !a)) == Black then 2 else 0) + (if pc == Red then 1 else 0)
  }

  /** One round of the loop of `fix_delete` at the black `x` at `px` of `t` (lines 78-131): case 1
   *  on a red sibling adds 2 (line 85 and its rotation of a red and a black node) and leaves
   *  the sibling's near child as the new sibling below the now red parent; then cases 2 to 4. */
  function DeleteRoundFlips(t: Tree, px: Path): nat {
    if px == [] || !ValidPath(t, Up(px)) || At(t, Up(px)).Empty? then 0
    else
      var p, a := At(t, Up(px)), Last(px);
      var s := Child(p, !a);
      if s.Empty? then 0
      else if s.color == Red then
        (if Child(s, a).Fork? then 2 + ResolveFlips(Red, Child(s, a), a) else 2)
      else ResolveFlips(p.color, s, a)
  }
}
