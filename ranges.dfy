/**
 * The two range walks of gatorLibrary.py on the ghost tree: `_print_range` of `PrintBooks`
 * (lines 193-202, in-order) and `_find_books_in_range` of `FindClosestBook` (lines 362-370,
 * pre-order). Both skip a subtree by comparing the range with the key of its parent. The
 * reference definitions list every node in the range, in the order of the walk.
 */
module Ranges {
  import opened Shape

  /** Keys strictly increasing: no two books share an id. */
  predicate Increasing(s: seq<int>) {
    forall i, j :: 0 <= i < j < |s| ==> s[i] < s[j]
  }

  /** The nodes whose key lies in `[lo, hi]`, in in-order. */
  function InRange(t: Tree, lo: int, hi: int): seq<nat> {
    if t.Empty? then []
    else InRange(t.left, lo, hi) + (if lo <= t.key <= hi then [t.id] else []) + InRange(t.right, lo, hi)
  }

  /** The nodes whose key lies in `[lo, hi]`, in pre-order. */
  function InRangePre(t: Tree, lo: int, hi: int): seq<nat> {
    if t.Empty? then []
    else (if lo <= t.key <= hi then [t.id] else []) + InRangePre(t.left, lo, hi) + InRangePre(t.right, lo, hi)
  }

  /** `_print_range`: the left subtree only when `lo < key`, the right one only when `key < hi`. */
  function Pruned(t: Tree, lo: int, hi: int): seq<nat> {
    if t.Empty? then []
    else
      (if lo < t.key then Pruned(t.left, lo, hi) else []) +
      (if lo <= t.key <= hi then [t.id] else []) +
      (if hi > t.key then Pruned(t.right, lo, hi) else [])
  }

  /** `_find_books_in_range`: the node first, then the same two tests. */
  function PrunedPre(t: Tree, lo: int, hi: int): seq<nat> {
    if t.Empty? then []
    else
      (if lo <= t.key <= hi then [t.id] else []) +
      (if t.key > lo then PrunedPre(t.left, lo, hi) else []) +
      (if t.key < hi then PrunedPre(t.right, lo, hi) else [])
  }

  /** Every node listed is a node of the tree. */
  lemma {:induction false} InRangeIds(t: Tree, lo: int, hi: int)
    ensures forall j :: j in InRange(t, lo, hi) ==> j in Ids(t)
    ensures forall j :: j in InRangePre(t, lo, hi) ==> j in Ids(t)
  {
    if t.Fork? {
      InRangeIds(t.left, lo, hi);
      InRangeIds(t.right, lo, hi);
    }
  }

  /** A tree with no key in the range lists nothing. */
  lemma {:induction false} OutOfRange(t: Tree, lo: int, hi: int)
    requires Outside(Keys(t), lo, hi)
    ensures InRange(t, lo, hi) == [] && InRangePre(t, lo, hi) == []
  {
    if t.Fork? {
      OutsideSplit(Keys(t.left), t.key, Keys(t.right), lo, hi);
      OutOfRange(t.left, lo, hi);
      OutOfRange(t.right, lo, hi);
    }
  }

  /** A range with a node in it has a key in it. */
  lemma {:induction false} InRangeKey(t: Tree, lo: int, hi: int) returns (k: nat)
    requires InRange(t, lo, hi) != []
    ensures k < |Keys(t)| && lo <= Keys(t)[k] <= hi
  {
    if !(lo <= t.key <= hi) && InRange(t.left, lo, hi) == [] && InRange(t.right, lo, hi) == [] {
      assert false;
    }
    if InRange(t.left, lo, hi) != [] {
      k := InRangeKey(t.left, lo, hi);
      assert Keys(t)[k] == Keys(t.left)[k];
    } else if lo <= t.key <= hi {
      k := |Keys(t.left)|;
    } else {
      var k' := InRangeKey(t.right, lo, hi);
      k := |Keys(t.left)| + 1 + k';
      assert Keys(t)[k] == Keys(t.right)[k'];
    }
  }

  /** The two subtrees of a tree with increasing keys: increasing, and on their side of the key. */
  lemma IncreasingParts(t: Tree)
    requires t.Fork? && Increasing(Keys(t))
    ensures Increasing(Keys(t.left)) && Increasing(Keys(t.right))
    ensures forall i :: 0 <= i < |Keys(t.left)| ==> Keys(t.left)[i] < t.key
    ensures forall i :: 0 <= i < |Keys(t.right)| ==> t.key < Keys(t.right)[i]
  {
    IncreasingSplit(Keys(t.left), t.key, Keys(t.right));
  }

  lemma IncreasingSplit(a: seq<int>, x: int, b: seq<int>)
    requires Increasing(a + [x] + b)
    ensures Increasing(a) && Increasing(b)
    ensures forall i :: 0 <= i < |a| ==> a[i] < x
    ensures forall i :: 0 <= i < |b| ==> x < b[i]
  {
    var s := a + [x] + b;
    forall i, j | 0 <= i < j < |a| ensures a[i] < a[j] {
      assert s[i] == a[i] && s[j] == a[j];
    }
    forall i, j | 0 <= i < j < |b| ensures b[i] < b[j] {
      assert s[|a| + 1 + i] == b[i] && s[|a| + 1 + j] == b[j];
    }
    forall i | 0 <= i < |a| ensures a[i] < x {
      assert s[i] == a[i] && s[|a|] == x;
    }
    forall i | 0 <= i < |b| ensures x < b[i] {
      assert s[|a| + 1 + i] == b[i] && s[|a|] == x;
    }
  }

  /** With distinct keys the pruning loses nothing: both walks list exactly the nodes of the
   *  range, in their order. */
  lemma {:induction false} PrunedExact(t: Tree, lo: int, hi: int)
    requires Increasing(Keys(t))
    ensures Pruned(t, lo, hi) == InRange(t, lo, hi)
    ensures PrunedPre(t, lo, hi) == InRangePre(t, lo, hi)
  {
    if t.Fork? {
      IncreasingParts(t);
      PrunedExact(t.left, lo, hi);
      PrunedExact(t.right, lo, hi);
      if !(lo < t.key) {
        OutOfRange(t.left, lo, hi);
      }
      if !(hi > t.key) {
        OutOfRange(t.right, lo, hi);
      }
    }
  }

  /** Whatever the keys, the walks list only nodes of the range. */
  lemma {:induction false} PrunedSound(t: Tree, lo: int, hi: int)
    ensures forall j :: j in Pruned(t, lo, hi) ==> j in InRange(t, lo, hi)
    ensures forall j :: j in PrunedPre(t, lo, hi) ==> j in InRangePre(t, lo, hi)
  {
    if t.Fork? {
      PrunedSound(t.left, lo, hi);
      PrunedSound(t.right, lo, hi);
    }
  }

  /** In a search tree with repeated keys, `_print_range` may skip a node whose key equals an
   *  end of the range, but it lists every node strictly inside it. */
  lemma {:induction false} PrunedInterior(t: Tree, lo: int, hi: int)
    requires NonDecreasing(Keys(t))
    ensures forall j :: j in InRange(t, lo + 1, hi - 1) ==> j in Pruned(t, lo, hi)
  {
    if t.Fork? {
      NonDecreasingParts(t);
      PrunedInterior(t.left, lo, hi);
      PrunedInterior(t.right, lo, hi);
      if InRange(t.left, lo + 1, hi - 1) != [] {
        var k := InRangeKey(t.left, lo + 1, hi - 1);
        assert lo < t.key;
      }
      if InRange(t.right, lo + 1, hi - 1) != [] {
        var k := InRangeKey(t.right, lo + 1, hi - 1);
        assert t.key < hi;
      }
    }
  }

  /** In a search tree, repeated keys or not, `_find_books_in_range` finds nothing exactly when
   *  no key lies in the range. */
  lemma {:induction false} PrunedPreEmpty(t: Tree, lo: int, hi: int)
    requires NonDecreasing(Keys(t))
    ensures PrunedPre(t, lo, hi) == [] <==> Outside(Keys(t), lo, hi)
  {
    if t.Fork? {
      NonDecreasingParts(t);
      PrunedPreEmpty(t.left, lo, hi);
      PrunedPreEmpty(t.right, lo, hi);
      OutsideSplit(Keys(t.left), t.key, Keys(t.right), lo, hi);
      if PrunedPre(t, lo, hi) == [] && lo <= hi {
        if t.key < lo {
          assert Outside(Keys(t.left), lo, hi);
        } else {
          assert Outside(Keys(t.right), lo, hi);
        }
      }
    }
  }

  /** No key of `s` lies in `[lo, hi]`. */
  predicate Outside(s: seq<int>, lo: int, hi: int) {
    forall i :: 0 <= i < |s| ==> s[i] < lo || hi < s[i]
  }

  lemma OutsideSplit(l: seq<int>, k: int, r: seq<int>, lo: int, hi: int)
    ensures Outside(l + [k] + r, lo, hi) <==> Outside(l, lo, hi) && (k < lo || hi < k) && Outside(r, lo, hi)
  {
    var s := l + [k] + r;
    assert forall i :: 0 <= i < |l| ==> s[i] == l[i];
    assert forall i :: 0 <= i < |r| ==> s[|l| + 1 + i] == r[i];
    assert s[|l|] == k;
    if Outside(l, lo, hi) && (k < lo || hi < k) && Outside(r, lo, hi) {
      forall i | 0 <= i < |s| ensures s[i] < lo || hi < s[i] {
        if i > |l| {
          assert s[i] == r[i - |l| - 1];
        }
      }
    }
  }

  /** No key in the range exactly when no node is listed in it. */
  lemma OutsideRange(t: Tree, lo: int, hi: int)
    ensures Outside(Keys(t), lo, hi) <==> InRange(t, lo, hi) == []
  {
    if Outside(Keys(t), lo, hi) {
      OutOfRange(t, lo, hi);
    } else if InRange(t, lo, hi) == [] {
      var i :| 0 <= i < |Keys(t)| && !(Keys(t)[i] < lo || hi < Keys(t)[i]);
      InRangeMissing(t, lo, hi, i);
    }
  }

  /** A key in the range puts a node in it. */
  lemma {:induction false} InRangeMissing(t: Tree, lo: int, hi: int, i: nat)
    requires i < |Keys(t)| && lo <= Keys(t)[i] <= hi
    ensures InRange(t, lo, hi) != []
  {
    var l := Keys(t.left);
    if i < |l| {
      assert Keys(t)[i] == l[i];
      InRangeMissing(t.left, lo, hi, i);
    } else if i > |l| {
      assert Keys(t)[i] == Keys(t.right)[i - |l| - 1];
      InRangeMissing(t.right, lo, hi, i - |l| - 1);
    }
  }
}
