/**
 * What insertion (`insert`, gatorLibrary.py lines 214-238) and deletion (`delete_node`, lines
 * 135-161) do to the in-order contents of the ghost tree: one node goes in after every key not
 * greater than its own, or one node comes out, and the keys stay in search-tree order.
 */
module Content {
  import opened Shape

  /** Every slice of a non-decreasing sequence is non-decreasing. */
  lemma SliceSorted(s: seq<int>, i: nat, j: nat)
    requires NonDecreasing(s) && i <= j <= |s|
    ensures NonDecreasing(s[i..j])
  {
    var u := s[i..j];
    forall a, b | 0 <= a < b < |u| ensures u[a] <= u[b] {
      assert u[a] == s[i + a] && u[b] == s[i + b];
    }
  }

  /** Two non-decreasing runs joined at a pivot that separates them. */
  lemma JoinSorted(a: seq<int>, k: int, b: seq<int>)
    requires NonDecreasing(a) && NonDecreasing(b)
    requires forall i :: 0 <= i < |a| ==> a[i] <= k
    requires forall i :: 0 <= i < |b| ==> k <= b[i]
    ensures NonDecreasing(a + [k] + b)
  {
    var u := a + [k] + b;
    forall i, j | 0 <= i < j < |u| ensures u[i] <= u[j] {
      if j < |a| {
        assert u[i] == a[i] && u[j] == a[j];
      } else if i > |a| {
        assert u[i] == b[i - |a| - 1] && u[j] == b[j - |a| - 1];
      } else if i == |a| {
        assert u[i] == k && u[j] == b[j - |a| - 1];
      } else if j == |a| {
        assert u[i] == a[i] && u[j] == k;
      } else {
        assert u[i] == a[i] && u[j] == b[j - |a| - 1];
      }
    }
  }

  /** Putting `k` just after the keys not greater than it keeps a sequence non-decreasing. */
  lemma NonDecreasingInsert(s: seq<int>, k: int)
    requires NonDecreasing(s)
    ensures Rank(s, k) <= |s| && NonDecreasing(s[..Rank(s, k)] + [k] + s[Rank(s, k)..])
  {
    RankSplits(s, k);
    var r := Rank(s, k);
    SliceSorted(s, 0, r);
    SliceSorted(s, r, |s|);
    assert s[..r] == s[0..r] && s[r..] == s[r..|s|];
    JoinSorted(s[..r], k, s[r..]);
  }

  /** Dropping an entry keeps a sequence non-decreasing. */
  lemma NonDecreasingRemove(s: seq<int>, i: nat)
    requires NonDecreasing(s) && i < |s|
    ensures NonDecreasing(s[..i] + s[i + 1..])
  {
    var u := s[..i] + s[i + 1..];
    forall a, b | 0 <= a < b < |u| ensures u[a] <= u[b] {
      var a', b' := if a < i then a else a + 1, if b < i then b else b + 1;
      assert u[a] == s[a'] && u[b] == s[b'];
    }
  }

  /** The keys of a subtree are a slice of the keys of the whole tree. */
  lemma NonDecreasingAt(t: Tree, p: Path)
    requires ValidPath(t, p) && NonDecreasing(Keys(t))
    ensures NonDecreasing(Keys(At(t, p)))
  {
    PutSpliceKeys(t, p, At(t, p));
    var b, m := KeysBefore(t, p), Keys(At(t, p));
    SliceSorted(Keys(t), |b|, |b| + |m|);
    assert Keys(t)[|b|..|b| + |m|] == m;
  }

  lemma SplitAt<T>(x: seq<T>, b: seq<T>, a: seq<T>)
    requires x == b + a
    ensures x[..|b|] == b && x[|b|..] == a
  {
  }

  /** Inserting the leaf `s` with key `k` where the descent for `k` ends: the new node comes
   *  right after every node whose key is not greater than `k`, so an equal key goes after the
   *  existing ones. */
  lemma InsertOrder(t: Tree, k: int, s: Tree)
    requires NonDecreasing(Keys(t)) && s.Fork? && s.left.Empty? && s.right.Empty?
    ensures Rank(Keys(t), k) <= |InOrder(t)|
    ensures var r := Rank(Keys(t), k);
      InOrder(Put(t, InsertPath(t, k), s)) == InOrder(t)[..r] + [s.id] + InOrder(t)[r..]
  {
    var p := InsertPath(t, k);
    PutSplice(t, p, s);
    InsertOffset(t, k);
    assert InOrder(s) == [s.id];
    assert InOrder(t) == Before(t, p) + After(t, p);
    SplitAt(InOrder(t), Before(t, p), After(t, p));
  }

  /** Filling the `NIL` position `p` puts the keys of `s` after the `Offset(t, p)` keys before it. */
  lemma FillKeys(t: Tree, p: Path, s: Tree)
    requires ValidPath(t, p) && At(t, p).Empty?
    ensures Offset(t, p) <= |Keys(t)|
    ensures Keys(Put(t, p, s)) == Keys(t)[..Offset(t, p)] + Keys(s) + Keys(t)[Offset(t, p)..]
  {
    PutSpliceKeys(t, p, s);
    assert Keys(t) == KeysBefore(t, p) + KeysAfter(t, p);
    SplitAt(Keys(t), KeysBefore(t, p), KeysAfter(t, p));
  }

  /** The keys after the insertion: `k` goes in at its rank. */
  lemma InsertKeys(t: Tree, k: int, s: Tree)
    requires NonDecreasing(Keys(t)) && s.Fork? && s.left.Empty? && s.right.Empty? && s.key == k
    ensures Rank(Keys(t), k) <= |Keys(t)|
    ensures var r := Rank(Keys(t), k);
      Keys(Put(t, InsertPath(t, k), s)) == Keys(t)[..r] + [k] + Keys(t)[r..]
  {
    InsertOffset(t, k);
    FillLeaf(t, InsertPath(t, k), s, Rank(Keys(t), k));
  }

  /** `FillKeys` for a leaf, at a known offset. */
  lemma FillLeaf(t: Tree, p: Path, s: Tree, r: nat)
    requires ValidPath(t, p) && At(t, p).Empty? && Offset(t, p) == r
    requires s.Fork? && s.left.Empty? && s.right.Empty?
    ensures r <= |Keys(t)| && Keys(Put(t, p, s)) == Keys(t)[..r] + [s.key] + Keys(t)[r..]
  {
    FillKeys(t, p, s);
    assert Keys(s) == [s.key];
  }

  /** The insertion keeps the keys in search-tree order. */
  lemma InsertKeysSorted(t: Tree, k: int, s: Tree)
    requires NonDecreasing(Keys(t)) && s.Fork? && s.left.Empty? && s.right.Empty? && s.key == k
    ensures NonDecreasing(Keys(Put(t, InsertPath(t, k), s)))
  {
    InsertKeys(t, k, s);
    NonDecreasingInsert(Keys(t), k);
  }
}
