/**
 * The red-black rules the engine of gatorLibrary.py maintains (lines 55-316), stated on the ghost
 * tree: every root-to-NIL path has the same number of black nodes, and no red node has a red
 * child. Also the two "almost red-black" states the fix-up loops pass through: a red-red edge
 * allowed at one position (insertion) and one position that is short of one black (deletion).
 */
module RedBlack {
  import opened Shape

  /** Black nodes on the leftmost path below and including the top (NIL counts 0). */
  function BH(t: Tree): nat {
    if t.Empty? then 0 else BH(t.left) + (if t.color == Black then 1 else 0)
  }

  /** Every path from a node down to NIL meets the same number of black nodes. */
  ghost predicate Balanced(t: Tree) {
    t.Fork? ==> Balanced(t.left) && Balanced(t.right) && BH(t.left) == BH(t.right)
  }

  /** No red node has a red child. */
  ghost predicate NoRR(t: Tree) {
    t.Fork? ==>
      NoRR(t.left) && NoRR(t.right) &&
      (t.color == Red ==> ColorOf(t.left) == Black && ColorOf(t.right) == Black)
  }

  /** The red-black rules of the whole tree: balanced, no red-red edge, black root. */
  ghost predicate RedBlackRules(t: Tree) {
    Balanced(t) && NoRR(t) && ColorOf(t) == Black
  }

  /** No red-red edge except possibly the edge from the node at `p` to its parent. */
  ghost predicate NoRRX(t: Tree, p: Path) {
    if t.Empty? then true
    else if p == [] then NoRR(t)
    else
      NoRRX(Child(t, p[0]), p[1..]) && NoRR(Child(t, !p[0])) &&
      (t.color == Red ==> ColorOf(Child(t, !p[0])) == Black && (|p| == 1 || ColorOf(Child(t, p[0])) == Black))
  }

  lemma {:induction false} NoRRToX(t: Tree, p: Path)
    requires NoRR(t)
    ensures NoRRX(t, p)
  {
    if t.Fork? && p != [] {
      NoRRToX(Child(t, p[0]), p[1..]);
    }
  }

  /** With the exempt edge `q -> q + [d]` harmless (one of its ends black) the rules hold. */
  lemma {:induction false} XToNoRR(t: Tree, q: Path, d: bool)
    requires ValidPath(t, q) && ValidPath(t, q + [d]) && NoRRX(t, q + [d])
    requires ColorOf(At(t, q + [d])) == Black || ColorOf(At(t, q)) == Black
    ensures NoRR(t)
  {
    if q != [] {
      assert (q + [d])[1..] == q[1..] + [d];
      XToNoRR(Child(t, q[0]), q[1..], d);
    } else {
      assert q + [d] == [d];
    }
  }

  /** The exemption may be kept for any subtree the exempt position lies in. */
  lemma {:induction false} XAt(t: Tree, p: Path, r: Path)
    requires ValidPath(t, p + r) && NoRRX(t, p + r)
    ensures ValidPath(t, p) && NoRRX(At(t, p), r)
  {
    PrefixValid(t, p, r);
    if p != [] {
      assert (p + r)[1..] == p[1..] + r;
      XAt(Child(t, p[0]), p[1..], r);
    } else {
      assert p + r == r;
    }
  }

  /** Replacing the subtree around the exempt position by one without red-red edges moves the
   *  exemption up to the replaced position. */
  lemma {:induction false} XPut(t: Tree, p: Path, r: Path, s: Tree)
    requires ValidPath(t, p + r) && NoRRX(t, p + r) && NoRR(s)
    ensures ValidPath(t, p) && NoRRX(Put(t, p, s), p)
  {
    PrefixValid(t, p, r);
    if p == [] {
    } else {
      assert (p + r)[1..] == p[1..] + r;
      XPut(Child(t, p[0]), p[1..], r, s);
      if |p| > 1 {
        assert ColorOf(Put(Child(t, p[0]), p[1..], s)) == ColorOf(Child(t, p[0]));
      }
    }
  }

  // ---------------------------------------------------------------------------------------------
  // Black heights along a path

  /** The black height at the top of `t` when the subtree at `p` has black height `h`. */
  function HAlong(t: Tree, p: Path, h: nat): nat
    requires ValidPath(t, p)
  {
    if p == [] then h else HAlong(Child(t, p[0]), p[1..], h) + (if t.color == Black then 1 else 0)
  }

  /** Everything hanging off the path to `p` is balanced and agrees with a subtree of black
   *  height `h` at `p`. */
  ghost predicate Fits(t: Tree, p: Path, h: nat)
    requires ValidPath(t, p)
  {
    p == [] ||
    (Fits(Child(t, p[0]), p[1..], h) && Balanced(Child(t, !p[0])) &&
     HAlong(Child(t, p[0]), p[1..], h) == BH(Child(t, !p[0])))
  }

  /** A tree is balanced exactly when its subtree at `p` is and the rest fits around it. */
  lemma {:induction false} BalancedSplit(t: Tree, p: Path)
    requires ValidPath(t, p)
    ensures Balanced(t) <==> Fits(t, p, BH(At(t, p))) && Balanced(At(t, p))
    ensures Balanced(t) ==> BH(t) == HAlong(t, p, BH(At(t, p)))
  {
    if p != [] {
      BalancedSplit(Child(t, p[0]), p[1..]);
    }
  }

  /** Fitting only depends on what lies outside the position. */
  lemma {:induction false} FitsPut(t: Tree, p: Path, s: Tree, h: nat)
    requires ValidPath(t, p)
    ensures ValidPath(Put(t, p, s), p)
    ensures Fits(Put(t, p, s), p, h) == Fits(t, p, h)
    ensures HAlong(Put(t, p, s), p, h) == HAlong(t, p, h)
  {
    AtPut(t, p, s);
    if p != [] {
      FitsPut(Child(t, p[0]), p[1..], s, h);
    }
  }

  /** Fitting at a deeper position splits at an intermediate one. */
  lemma {:induction false} FitsConcat(t: Tree, p: Path, r: Path, h: nat)
    requires ValidPath(t, p + r)
    ensures ValidPath(t, p) && ValidPath(At(t, p), r)
    ensures Fits(t, p + r, h) <==> Fits(t, p, HAlong(At(t, p), r, h)) && Fits(At(t, p), r, h)
    ensures HAlong(t, p + r, h) == HAlong(t, p, HAlong(At(t, p), r, h))
  {
    PrefixValid(t, p, r);
    PathConcat(t, p, r);
    if p != [] {
      assert (p + r)[1..] == p[1..] + r;
      FitsConcat(Child(t, p[0]), p[1..], r, h);
    } else {
      assert p + r == r;
    }
  }

  /** Replacing a subtree by a balanced one of the same black height keeps the tree balanced. */
  lemma PutBalanced(t: Tree, p: Path, s: Tree)
    requires ValidPath(t, p) && Balanced(t) && Balanced(s) && BH(s) == BH(At(t, p))
    ensures Balanced(Put(t, p, s)) && BH(Put(t, p, s)) == BH(t)
  {
    BalancedSplit(t, p);
    FitsPut(t, p, s, BH(s));
    AtPut(t, p, s);
    BalancedSplit(Put(t, p, s), p);
  }

  /** The subtree at `p` is one black short of the rest of the tree ("double black"). */
  ghost predicate Short(t: Tree, p: Path)
    requires ValidPath(t, p)
  {
    Balanced(At(t, p)) && Fits(t, p, BH(At(t, p)) + 1)
  }

  /** The loop state of `fix_delete` around the node `x` at `p` (lines 76-132): the subtree at
   *  `p` is one black short, blackening its top would leave no red-red edge, and the root is
   *  black unless `x` is the root. */
  ghost predicate DeleteState(t: Tree, p: Path) {
    ValidPath(t, p) && Short(t, p) && NoRR(Put(t, p, Blacken(At(t, p)))) && (p == [] || ColorOf(t) == Black)
  }

  /** The black height the rest of the tree expects when the subtree at `p` is short. */
  function ShortHeight(t: Tree, p: Path): nat
    requires ValidPath(t, p)
  {
    HAlong(t, p, BH(At(t, p)) + 1)
  }

  /** Blacken the top of a subtree (NIL stays NIL). */
  function Blacken(t: Tree): (u: Tree)
    ensures ColorOf(u) == Black
  {
    if t.Empty? then Empty else t.(color := Black)
  }

  /** Every subtree of a tree without red-red edges has none. */
  lemma {:induction false} SubNoRR(t: Tree, p: Path)
    requires ValidPath(t, p) && NoRR(t)
    ensures NoRR(At(t, p))
  {
    if p != [] {
      SubNoRR(Child(t, p[0]), p[1..]);
    }
  }

  /** With the top of the exempt position black, there is no red-red edge at all. */
  lemma {:induction false} XBlackTop(t: Tree, p: Path)
    requires ValidPath(t, p) && NoRRX(t, p) && ColorOf(At(t, p)) == Black
    ensures NoRR(t)
  {
    if p != [] {
      XBlackTop(Child(t, p[0]), p[1..]);
    }
  }

  /** A replacement without red-red edges is harmless when its top is black or keeps the colour
   *  that was there. */
  lemma {:induction false} PutNoRR(t: Tree, p: Path, s: Tree)
    requires ValidPath(t, p) && NoRR(t) && NoRR(s)
    requires ColorOf(s) == Black || ColorOf(s) == ColorOf(At(t, p))
    ensures NoRR(Put(t, p, s))
  {
    if p != [] {
      PutNoRR(Child(t, p[0]), p[1..], s);
      PutTopColor(Child(t, p[0]), p[1..], s);
    }
  }

  /** The colour at the top only changes when the top itself is replaced. */
  lemma PutTopColor(t: Tree, p: Path, s: Tree)
    requires ValidPath(t, p)
    ensures ColorOf(Put(t, p, s)) == if p == [] then ColorOf(s) else ColorOf(t)
  {
  }

  lemma BlackenRules(t: Tree)
    ensures NoRR(t) ==> NoRR(Blacken(t))
    ensures Balanced(t) ==> Balanced(Blacken(t))
    ensures BH(Blacken(t)) == if t.Fork? && t.color == Red then BH(t) + 1 else BH(t)
  {
  }

  lemma BlackenContent(t: Tree)
    ensures InOrder(Blacken(t)) == InOrder(t) && Keys(Blacken(t)) == Keys(t)
    ensures Ids(Blacken(t)) == Ids(t) && Distinct(Blacken(t)) == Distinct(t)
  {
  }

  // ---------------------------------------------------------------------------------------------
  // Trees that differ only in their ids and keys

  /** Same structure and colours. */
  ghost predicate SameColors(t: Tree, u: Tree) {
    if t.Empty? then u.Empty?
    else u.Fork? && t.color == u.color && SameColors(t.left, u.left) && SameColors(t.right, u.right)
  }

  lemma {:induction false} SameColorsRules(t: Tree, u: Tree)
    requires SameColors(t, u)
    ensures BH(t) == BH(u) && ColorOf(t) == ColorOf(u)
    ensures Balanced(t) == Balanced(u) && NoRR(t) == NoRR(u)
  {
    if t.Fork? {
      SameColorsRules(t.left, u.left);
      SameColorsRules(t.right, u.right);
    }
  }

  lemma {:induction false} SameColorsRefl(t: Tree)
    ensures SameColors(t, t)
  {
    if t.Fork? {
      SameColorsRefl(t.left);
      SameColorsRefl(t.right);
    }
  }

  lemma {:induction false} SameColorsFits(t: Tree, u: Tree, p: Path, h: nat)
    requires SameColors(t, u) && ValidPath(t, p)
    ensures ValidPath(u, p) && Fits(t, p, h) == Fits(u, p, h) && HAlong(t, p, h) == HAlong(u, p, h)
    ensures SameColors(At(t, p), At(u, p))
  {
    if p != [] {
      SameColorsFits(Child(t, p[0]), Child(u, p[0]), p[1..], h);
      SameColorsRules(Child(t, !p[0]), Child(u, !p[0]));
    }
  }
}
