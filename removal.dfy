/**
 * What `delete_node` (gatorLibrary.py lines 135-161) does to the ghost tree: the subtree of the
 * deleted node `z` is replaced by `Removed(z)`. A node with a `NIL` child is replaced by its
 * other child; otherwise its in-order successor `y` (`minimum(z.right)`, lines 71-74) takes its
 * place and colour, and `y`'s right subtree `x` takes `y`'s place. Removing a red node keeps the
 * red-black rules; removing a black one leaves `x` one black short, the entry state of
 * `fix_delete`.
 */
module Removal {
  import opened Shape
  import opened RedBlack
  import opened Content

  /** The leftmost node of a non-empty tree, with its subtree: what `minimum` returns. */
  function Min(t: Tree): (m: Tree)
    requires t.Fork?
    ensures m.Fork? && m.left.Empty?
  {
    if t.left.Empty? then t else Min(t.left)
  }

  /** The tree with its leftmost node replaced by that node's right subtree. */
  function RemoveMin(t: Tree): Tree
    requires t.Fork?
  {
    if t.left.Empty? then t.right else t.(left := RemoveMin(t.left))
  }

  /** `minimum` follows the leftmost path, and removing the minimum replaces the subtree there. */
  lemma {:induction false} MinSpine(t: Tree)
    requires t.Fork?
    ensures ValidPath(t, LeftSpine(t)) && At(t, LeftSpine(t)) == Min(t)
    ensures RemoveMin(t) == Put(t, LeftSpine(t), Min(t).right)
  {
    if t.left.Fork? {
      MinSpine(t.left);
      LeftSpineLeft(t, Min(t.left).right);
    }
  }

  /** The minimum comes first in in-order, and removing it drops exactly that entry. */
  lemma {:induction false} RemoveMinContent(t: Tree)
    requires t.Fork?
    ensures InOrder(t) == [Min(t).id] + InOrder(RemoveMin(t))
    ensures Keys(t) == [Min(t).key] + Keys(RemoveMin(t))
  {
    if t.left.Fork? {
      RemoveMinContent(t.left);
      SeqAssoc([Min(t).id], InOrder(RemoveMin(t.left)), [t.id] + InOrder(t.right));
      SeqAssoc([Min(t).key], Keys(RemoveMin(t.left)), [t.key] + Keys(t.right));
    }
  }

  /** The minimum is the first node in in-order and holds the least key. */
  lemma MinLeast(t: Tree)
    requires t.Fork? && NonDecreasing(Keys(t))
    ensures InOrder(t)[0] == Min(t).id && Keys(t)[0] == Min(t).key
    ensures forall k :: k in Keys(t) ==> Min(t).key <= k
  {
    RemoveMinContent(t);
    forall k | k in Keys(t)
      ensures Min(t).key <= k
    {
      var n :| 0 <= n < |Keys(t)| && Keys(t)[n] == k;
      assert Keys(t)[0] <= Keys(t)[n];
    }
  }

  lemma {:induction false} RemoveMinIds(t: Tree)
    requires t.Fork? && Distinct(t)
    ensures Min(t).id in Ids(t) && Ids(RemoveMin(t)) == Ids(t) - {Min(t).id} && Distinct(RemoveMin(t))
  {
    if t.left.Fork? {
      RemoveMinIds(t.left);
    }
  }

  /** The subtree that replaces the deleted node `z` (lines 138-155). */
  function Removed(z: Tree): Tree
    requires z.Fork?
  {
    if z.left.Empty? then z.right
    else if z.right.Empty? then z.left
    else Fork(z.left, Min(z.right).id, Min(z.right).key, z.color, RemoveMin(z.right))
  }

  /** The subtree `x` of `delete_node`: the child that moved up one place. */
  function Moved(z: Tree): Tree
    requires z.Fork?
  {
    if z.left.Empty? then z.right else if z.right.Empty? then z.left else Min(z.right).right
  }

  /** Where `x` ends up inside `Removed(z)`. */
  function Hole(z: Tree): Path
    requires z.Fork?
  {
    if z.left.Empty? || z.right.Empty? then [] else [true] + LeftSpine(z.right)
  }

  /** `y_original_color`: the colour of the node that leaves its place. */
  function RemovedColor(z: Tree): Color
    requires z.Fork?
  {
    if z.left.Empty? || z.right.Empty? then z.color else Min(z.right).color
  }

  lemma RemovedHole(z: Tree)
    requires z.Fork?
    ensures ValidPath(Removed(z), Hole(z)) && At(Removed(z), Hole(z)) == Moved(z)
  {
    if z.left.Fork? && z.right.Fork? {
      MinSpine(z.right);
      var q := LeftSpine(z.right);
      AtPut(z.right, q, Min(z.right).right);
      assert ([true] + q)[1..] == q;
    }
  }

  /** Deleting `z` removes exactly `z` from the in-order sequence and the keys. */
  lemma RemovedContent(z: Tree)
    requires z.Fork?
    ensures InOrder(Removed(z)) == InOrder(z.left) + InOrder(z.right)
    ensures Keys(Removed(z)) == Keys(z.left) + Keys(z.right)
  {
    if z.left.Fork? && z.right.Fork? {
      RemoveMinContent(z.right);
      var m := Min(z.right);
      assert InOrder(Removed(z)) == InOrder(z.left) + [m.id] + InOrder(RemoveMin(z.right));
      SeqAssoc(InOrder(z.left), [m.id], InOrder(RemoveMin(z.right)));
      assert Keys(Removed(z)) == Keys(z.left) + [m.key] + Keys(RemoveMin(z.right));
      SeqAssoc(Keys(z.left), [m.key], Keys(RemoveMin(z.right)));
    }
  }

  /** ... and from the ids, over distinct nodes still. */
  lemma RemovedIds(z: Tree)
    requires z.Fork? && Distinct(z)
    ensures Ids(Removed(z)) == Ids(z) - {z.id} && Distinct(Removed(z))
  {
    if z.left.Fork? && z.right.Fork? {
      RemoveMinIds(z.right);
      IdsNonZero(z.right);
    }
  }

  /** A balanced tree whose top is black and whose black height is 0 is `NIL`. */
  lemma BlackZero(t: Tree)
    requires ColorOf(t) == Black && BH(t) == 0
    ensures t.Empty?
  {
  }

  /** Removing a red node keeps the subtree red-black, with the same black height. */
  lemma RemovedRed(z: Tree)
    requires z.Fork? && Balanced(z) && NoRR(z) && RemovedColor(z) == Red
    ensures Balanced(Removed(z)) && NoRR(Removed(z)) && BH(Removed(z)) == BH(z)
    ensures ColorOf(Removed(z)) == Black || ColorOf(Removed(z)) == z.color
  {
    if z.left.Empty? || z.right.Empty? {
      BlackZero(z.left);
      BlackZero(z.right);
    } else {
      var q, y := LeftSpine(z.right), Min(z.right);
      MinSpine(z.right);
      BalancedSplit(z.right, q);
      SubNoRR(z.right, q);
      BlackZero(y.right);
      PutBalanced(z.right, q, Empty);
      PutNoRR(z.right, q, Empty);
      PutTopColor(z.right, q, Empty);
    }
  }

  /** Removing a black node leaves `x` one black short, and the rest as `fix_delete` expects. */
  lemma RemovedBlack(z: Tree)
    requires z.Fork? && Balanced(z) && NoRR(z) && RemovedColor(z) == Black
    ensures ValidPath(Removed(z), Hole(z))
    ensures Short(Removed(z), Hole(z)) && ShortHeight(Removed(z), Hole(z)) == BH(z)
    ensures var w := Put(Removed(z), Hole(z), Blacken(At(Removed(z), Hole(z))));
      NoRR(w) && (ColorOf(w) == Black || ColorOf(w) == z.color)
    ensures Hole(z) != [] ==> ColorOf(Removed(z)) == z.color
  {
    RemovedHole(z);
    if z.left.Fork? && z.right.Fork? {
      SuccessorBlack(z);
    } else {
      BlackenRules(Removed(z));
    }
  }

  lemma SuccessorBlack(z: Tree)
    requires z.Fork? && z.left.Fork? && z.right.Fork? && Balanced(z) && NoRR(z) && Min(z.right).color == Black
    ensures ValidPath(Removed(z), Hole(z))
    ensures Short(Removed(z), Hole(z)) && ShortHeight(Removed(z), Hole(z)) == BH(z)
    ensures var w := Put(Removed(z), Hole(z), Blacken(At(Removed(z), Hole(z))));
      NoRR(w) && ColorOf(w) == z.color
    ensures ColorOf(Removed(z)) == z.color
  {
    var q, y := LeftSpine(z.right), Min(z.right);
    var u, xr := Removed(z), y.right;
    RemovedHole(z);
    MinSpine(z.right);
    BalancedSplit(z.right, q);
    FitsPut(z.right, q, xr, BH(y));
    assert ([true] + q)[1..] == q;
    assert Child(u, true) == Put(z.right, q, xr);
    BlackenRules(xr);
    SubNoRR(z.right, q);
    PutNoRR(z.right, q, Blacken(xr));
    PutTopColor(z.right, q, Blacken(xr));
    PutPut(z.right, q, xr, Blacken(xr));
    AtPut(z.right, q, xr);
    assert Put(u, [true] + q, Blacken(xr)) == u.(right := Put(z.right, q, Blacken(xr)));
  }

  // ---------------------------------------------------------------------------------------------
  // The whole tree

  lemma Cut<T>(b: seq<T>, l: seq<T>, x: T, r: seq<T>, a: seq<T>)
    ensures var s, j := b + (l + [x] + r) + a, |b| + |l|;
      j < |s| && s[j] == x && s[..j] + s[j + 1..] == b + (l + r) + a
  {
    var s, j := b + (l + [x] + r) + a, |b| + |l|;
    assert s[..j] == b + l;
    assert s[j + 1..] == r + a;
  }

  lemma CutAt<T>(s: seq<T>, s': seq<T>, b: seq<T>, l: seq<T>, x: T, r: seq<T>, a: seq<T>, j: nat)
    requires s == b + (l + [x] + r) + a && s' == b + (l + r) + a && j == |b| + |l|
    ensures j < |s| && s[j] == x && s' == s[..j] + s[j + 1..]
  {
    Cut(b, l, x, r, a);
  }

  lemma RemovalInOrder(t: Tree, pz: Path, z: Tree, u: Tree, j: nat)
    requires ValidPath(t, pz) && z == At(t, pz) && z.Fork?
    requires u == Put(t, pz, Removed(z)) && j == Offset(t, pz) + Size(z.left)
    ensures j < |InOrder(t)| && InOrder(t)[j] == z.id && InOrder(u) == InOrder(t)[..j] + InOrder(t)[j + 1..]
  {
    PutSplice(t, pz, Removed(z));
    RemovedContent(z);
    assert InOrder(z) == InOrder(z.left) + [z.id] + InOrder(z.right);
    CutAt(InOrder(t), InOrder(u), Before(t, pz), InOrder(z.left), z.id, InOrder(z.right), After(t, pz), j);
  }

  lemma RemovalKeys(t: Tree, pz: Path, z: Tree, u: Tree, j: nat)
    requires ValidPath(t, pz) && z == At(t, pz) && z.Fork?
    requires u == Put(t, pz, Removed(z)) && j == Offset(t, pz) + Size(z.left)
    ensures j < |Keys(t)| && Keys(t)[j] == z.key && Keys(u) == Keys(t)[..j] + Keys(t)[j + 1..]
  {
    PutSpliceKeys(t, pz, Removed(z));
    RemovedContent(z);
    assert Keys(z) == Keys(z.left) + [z.key] + Keys(z.right);
    CutAt(Keys(t), Keys(u), KeysBefore(t, pz), Keys(z.left), z.key, Keys(z.right), KeysAfter(t, pz), j);
  }

  /** Deleting the node `z` at `pz`, the `j`-th in in-order, removes exactly its entry from the
   *  in-order sequence and the keys, and exactly its id, keeping the rest distinct and in
   *  search-tree order. */
  lemma RemovalContent(t: Tree, pz: Path, z: Tree, u: Tree, j: nat)
    requires ValidPath(t, pz) && z == At(t, pz) && z.Fork? && Distinct(t) && NonDecreasing(Keys(t))
    requires u == Put(t, pz, Removed(z)) && j == Offset(t, pz) + Size(z.left)
    ensures j < |InOrder(t)| && InOrder(t)[j] == z.id && Keys(t)[j] == z.key
    ensures InOrder(u) == InOrder(t)[..j] + InOrder(t)[j + 1..]
    ensures Keys(u) == Keys(t)[..j] + Keys(t)[j + 1..]
    ensures Ids(u) == Ids(t) - {z.id} && Distinct(u) && NonDecreasing(Keys(u))
  {
    RemovalInOrder(t, pz, z, u, j);
    RemovalKeys(t, pz, z, u, j);
    RemovalIds(t, pz);
    NonDecreasingRemove(Keys(t), j);
  }

  lemma RemovalIds(t: Tree, pz: Path)
    requires ValidPath(t, pz) && At(t, pz).Fork? && Distinct(t)
    ensures var u := Put(t, pz, Removed(At(t, pz)));
      Ids(u) == Ids(t) - {At(t, pz).id} && Distinct(u)
  {
    var z := At(t, pz);
    PutIds(t, pz, Removed(z));
    RemovedIds(z);
  }

  /** Deleting a node of a red-black tree: when the node that leaves its place was red the
   *  tree is red-black again; when it was black, `x` is in the loop state of `fix_delete`. */
  lemma RemovalRules(t: Tree, pz: Path)
    requires ValidPath(t, pz) && At(t, pz).Fork? && RedBlackRules(t)
    ensures var z := At(t, pz);
      var u := Put(t, pz, Removed(z));
      ValidPath(u, pz + Hole(z)) && At(u, pz + Hole(z)) == Moved(z) &&
      (RemovedColor(z) == Red ==> RedBlackRules(u)) &&
      (RemovedColor(z) == Black ==> DeleteState(u, pz + Hole(z)))
  {
    var z := At(t, pz);
    var u := Put(t, pz, Removed(z));
    BalancedSplit(t, pz);
    SubNoRR(t, pz);
    RemovedHole(z);
    AtPut(t, pz, Removed(z));
    PathConcat(u, pz, Hole(z));
    PutTopColor(t, pz, Removed(z));
    if RemovedColor(z) == Red {
      RemovedRed(z);
      PutBalanced(t, pz, Removed(z));
      PutNoRR(t, pz, Removed(z));
    } else {
      RemovedBlack(z);
      var h := Hole(z);
      var w := Put(Removed(z), h, Blacken(Moved(z)));
      FitsConcat(u, pz, h, BH(Moved(z)) + 1);
      FitsPut(t, pz, Removed(z), BH(z));
      PutConcat(u, pz, h, Blacken(Moved(z)));
      PutPut(t, pz, Removed(z), w);
      PutNoRR(t, pz, w);
    }
  }
}
