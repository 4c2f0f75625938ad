/**
 * The ghost view of the linked red-black tree of gatorLibrary.py (lines 55-316): which arena
 * node sits where, with its key and colour. Positions in the tree are paths from the root
 * (`false` = go left, `true` = go right), so that the empty `NIL` positions the engine writes to
 * have names too.
 */
module Shape {

  datatype Color = Red | Black

  /** A subtree: `Empty` is a `NIL` position, `Fork` is the arena node `id`. */
  datatype Tree = Empty | Fork(left: Tree, id: nat, key: int, color: Color, right: Tree)

  type Path = seq<bool>

  /** The arena index at the top of a subtree; 0 is the `NIL` sentinel. */
  function RootId(t: Tree): nat {
    if t.Empty? then 0 else t.id
  }

  /** The colour the engine reads for a subtree's top; `NIL` is black. */
  function ColorOf(t: Tree): Color {
    if t.Empty? then Black else t.color
  }

  function Size(t: Tree): nat {
    if t.Empty? then 0 else Size(t.left) + 1 + Size(t.right)
  }

  function Ids(t: Tree): set<nat> {
    if t.Empty? then {} else Ids(t.left) + {t.id} + Ids(t.right)
  }

  /** Node ids in in-order (ascending position). */
  function InOrder(t: Tree): (s: seq<nat>)
    ensures |s| == Size(t)
  {
    if t.Empty? then [] else InOrder(t.left) + [t.id] + InOrder(t.right)
  }

  /** Keys in in-order. */
  function Keys(t: Tree): (s: seq<int>)
    ensures |s| == Size(t)
  {
    if t.Empty? then [] else Keys(t.left) + [t.key] + Keys(t.right)
  }

  /** Node ids in pre-order: a node, then its left subtree, then its right subtree. */
  function PreOrder(t: Tree): (s: seq<nat>)
    ensures |s| == Size(t)
  {
    if t.Empty? then [] else [t.id] + PreOrder(t.left) + PreOrder(t.right)
  }

  /** No arena node occurs twice, and `NIL` (0) is never a node. */
  ghost predicate Distinct(t: Tree) {
    t.Fork? ==>
      Distinct(t.left) && Distinct(t.right) && t.id != 0 &&
      t.id !in Ids(t.left) && t.id !in Ids(t.right) && Ids(t.left) !! Ids(t.right)
  }

  predicate NonDecreasing(s: seq<int>) {
    forall i, j :: 0 <= i < j < |s| ==> s[i] <= s[j]
  }

  lemma {:induction false} IdsNonZero(t: Tree)
    requires Distinct(t)
    ensures 0 !in Ids(t)
  {
    if t.Fork? {
      IdsNonZero(t.left);
      IdsNonZero(t.right);
    }
  }

  lemma {:induction false} InOrderIds(t: Tree)
    ensures forall j :: j in InOrder(t) <==> j in Ids(t)
  {
    if t.Fork? {
      InOrderIds(t.left);
      InOrderIds(t.right);
    }
  }

  lemma {:induction false} PreOrderIds(t: Tree)
    ensures forall j :: j in PreOrder(t) <==> j in Ids(t)
  {
    if t.Fork? {
      PreOrderIds(t.left);
      PreOrderIds(t.right);
    }
  }

  // ---------------------------------------------------------------------------------------------
  // Paths

  function Child(t: Tree, d: bool): Tree
    requires t.Fork?
  {
    if d then t.right else t.left
  }

  function WithChild(t: Tree, d: bool, c: Tree): Tree
    requires t.Fork?
  {
    if d then t.(right := c) else t.(left := c)
  }

  /** `p` leads through nodes only (its end may be a `NIL` position). */
  predicate ValidPath(t: Tree, p: Path) {
    p == [] || (t.Fork? && ValidPath(Child(t, p[0]), p[1..]))
  }

  /** The subtree at position `p`. */
  function At(t: Tree, p: Path): Tree
    requires ValidPath(t, p)
  {
    if p == [] then t else At(Child(t, p[0]), p[1..])
  }

  /** `t` with the subtree at position `p` replaced by `s`. */
  function Put(t: Tree, p: Path, s: Tree): Tree
    requires ValidPath(t, p)
  {
    if p == [] then s else WithChild(t, p[0], Put(Child(t, p[0]), p[1..], s))
  }

  /** The ids of `t` outside the subtree at `p`: the path's nodes and what hangs off it. */
  function Context(t: Tree, p: Path): set<nat>
    requires ValidPath(t, p)
  {
    if p == [] then {} else {t.id} + Ids(Child(t, !p[0])) + Context(Child(t, p[0]), p[1..])
  }

  /** Number of nodes before the subtree at `p` in in-order. */
  function Offset(t: Tree, p: Path): nat
    requires ValidPath(t, p)
  {
    if p == [] then 0
    else if p[0] then Size(t.left) + 1 + Offset(t.right, p[1..])
    else Offset(t.left, p[1..])
  }

  lemma {:induction false} AtPut(t: Tree, p: Path, s: Tree)
    requires ValidPath(t, p)
    ensures ValidPath(Put(t, p, s), p) && At(Put(t, p, s), p) == s
    ensures Context(Put(t, p, s), p) == Context(t, p)
  {
    if p != [] {
      AtPut(Child(t, p[0]), p[1..], s);
    }
  }

  lemma {:induction false} PutPut(t: Tree, p: Path, s1: Tree, s2: Tree)
    requires ValidPath(t, p)
    ensures ValidPath(Put(t, p, s1), p) && Put(Put(t, p, s1), p, s2) == Put(t, p, s2)
  {
    if p != [] {
      PutPut(Child(t, p[0]), p[1..], s1, s2);
    }
  }

  lemma {:induction false} PutAt(t: Tree, p: Path)
    requires ValidPath(t, p)
    ensures Put(t, p, At(t, p)) == t
  {
    if p != [] {
      PutAt(Child(t, p[0]), p[1..]);
    }
  }

  /** Walking `p + q` is walking `p`, then `q` inside the subtree reached. */
  lemma {:induction false} PathConcat(t: Tree, p: Path, q: Path)
    requires ValidPath(t, p) && ValidPath(At(t, p), q)
    ensures ValidPath(t, p + q) && At(t, p + q) == At(At(t, p), q)
  {
    if p == [] {
      assert p + q == q;
    } else {
      assert (p + q)[0] == p[0] && (p + q)[1..] == p[1..] + q;
      PathConcat(Child(t, p[0]), p[1..], q);
    }
  }

  /** Replacing at `p + q` is replacing at `q` inside the subtree at `p`. */
  lemma {:induction false} PutConcat(t: Tree, p: Path, q: Path, s: Tree)
    requires ValidPath(t, p) && ValidPath(At(t, p), q)
    ensures ValidPath(t, p + q) && Put(t, p + q, s) == Put(t, p, Put(At(t, p), q, s))
  {
    PathConcat(t, p, q);
    if p == [] {
      assert p + q == q;
    } else {
      assert (p + q)[0] == p[0] && (p + q)[1..] == p[1..] + q;
      PutConcat(Child(t, p[0]), p[1..], q, s);
    }
  }

  /** Dropping the last step of a valid path gives the position of the parent node. */
  lemma PathParent(t: Tree, p: Path)
    requires ValidPath(t, p) && p != []
    ensures ValidPath(t, p[..|p| - 1]) && At(t, p[..|p| - 1]).Fork?
    ensures At(t, p) == Child(At(t, p[..|p| - 1]), p[|p| - 1])
  {
    var q := p[..|p| - 1];
    assert p == q + [p[|p| - 1]];
    PrefixValid(t, q, [p[|p| - 1]]);
    PathConcat(t, q, [p[|p| - 1]]);
  }

  lemma {:induction false} PrefixValid(t: Tree, p: Path, q: Path)
    requires ValidPath(t, p + q)
    ensures ValidPath(t, p) && ValidPath(At(t, p), q)
  {
    if p == [] {
      assert p + q == q;
    } else {
      assert (p + q)[0] == p[0] && (p + q)[1..] == p[1..] + q;
      PrefixValid(Child(t, p[0]), p[1..], q);
    }
  }

  /** Stepping one level down from a node. */
  lemma StepDown(t: Tree, p: Path, d: bool)
    requires ValidPath(t, p) && At(t, p).Fork?
    ensures ValidPath(t, p + [d]) && At(t, p + [d]) == Child(At(t, p), d)
  {
    PathConcat(t, p, [d]);
  }

  lemma PutStep(t: Tree, p: Path, d: bool, s: Tree)
    requires ValidPath(t, p) && At(t, p).Fork?
    ensures ValidPath(t, p + [d]) && Put(t, p + [d], s) == Put(t, p, WithChild(At(t, p), d, s))
  {
    PutConcat(t, p, [d], s);
  }

  /** Replacing a subtree by one with the same in-order content keeps the whole in-order content. */
  lemma {:induction false} PutSameContent(t: Tree, p: Path, s: Tree)
    requires ValidPath(t, p)
    requires InOrder(s) == InOrder(At(t, p)) && Keys(s) == Keys(At(t, p)) && Ids(s) == Ids(At(t, p))
    ensures InOrder(Put(t, p, s)) == InOrder(t) && Keys(Put(t, p, s)) == Keys(t)
    ensures Ids(Put(t, p, s)) == Ids(t) && Size(Put(t, p, s)) == Size(t)
  {
    if p != [] {
      PutSameContent(Child(t, p[0]), p[1..], s);
    }
  }

  lemma ConcatRegroup<T>(a: seq<T>, b: seq<T>, c: seq<T>, d: seq<T>)
    ensures a + (b + c + d) == (a + b) + c + d
  {
  }

  lemma ConcatRegroupRight<T>(b: seq<T>, c: seq<T>, d: seq<T>, x: seq<T>, y: seq<T>)
    ensures (b + c + d) + x + y == b + c + (d + x + y)
  {
  }

  /** The in-order nodes before and after the subtree at `p`. */
  function Before(t: Tree, p: Path): (b: seq<nat>)
    requires ValidPath(t, p)
    ensures |b| == Offset(t, p)
  {
    if p == [] then []
    else if p[0] then InOrder(t.left) + [t.id] + Before(t.right, p[1..])
    else Before(t.left, p[1..])
  }

  function After(t: Tree, p: Path): seq<nat>
    requires ValidPath(t, p)
  {
    if p == [] then []
    else if p[0] then After(t.right, p[1..])
    else After(t.left, p[1..]) + [t.id] + InOrder(t.right)
  }

  function KeysBefore(t: Tree, p: Path): (b: seq<int>)
    requires ValidPath(t, p)
    ensures |b| == Offset(t, p)
  {
    if p == [] then []
    else if p[0] then Keys(t.left) + [t.key] + KeysBefore(t.right, p[1..])
    else KeysBefore(t.left, p[1..])
  }

  function KeysAfter(t: Tree, p: Path): seq<int>
    requires ValidPath(t, p)
  {
    if p == [] then []
    else if p[0] then KeysAfter(t.right, p[1..])
    else KeysAfter(t.left, p[1..]) + [t.key] + Keys(t.right)
  }

  /** In-order nodes of a tree around the subtree at `p`, before and after replacing it. */
  lemma {:induction false} PutSplice(t: Tree, p: Path, s: Tree)
    requires ValidPath(t, p)
    ensures InOrder(t) == Before(t, p) + InOrder(At(t, p)) + After(t, p)
    ensures InOrder(Put(t, p, s)) == Before(t, p) + InOrder(s) + After(t, p)
  {
    PutSpliceAny(t, p, s);
    PutSpliceAny(t, p, At(t, p));
    PutAt(t, p);
  }

  lemma {:induction false} PutSpliceAny(t: Tree, p: Path, s: Tree)
    requires ValidPath(t, p)
    ensures InOrder(Put(t, p, s)) == Before(t, p) + InOrder(s) + After(t, p)
  {
    if p == [] {
      assert InOrder(s) == [] + InOrder(s) + [];
    } else if p[0] {
      var q := p[1..];
      PutSpliceAny(t.right, q, s);
      assert Put(t, p, s) == Fork(t.left, t.id, t.key, t.color, Put(t.right, q, s));
      assert InOrder(Put(t, p, s)) == InOrder(t.left) + [t.id] + InOrder(Put(t.right, q, s));
      ConcatRegroup(InOrder(t.left) + [t.id], Before(t.right, q), InOrder(s), After(t.right, q));
    } else {
      var q := p[1..];
      PutSpliceAny(t.left, q, s);
      assert Put(t, p, s) == Fork(Put(t.left, q, s), t.id, t.key, t.color, t.right);
      assert InOrder(Put(t, p, s)) == InOrder(Put(t.left, q, s)) + [t.id] + InOrder(t.right);
      ConcatRegroupRight(Before(t.left, q), InOrder(s), After(t.left, q), [t.id], InOrder(t.right));
    }
  }


  /** In-order keys of a tree around the subtree at `p`, before and after replacing it. */
  lemma {:induction false} PutSpliceKeys(t: Tree, p: Path, s: Tree)
    requires ValidPath(t, p)
    ensures Keys(t) == KeysBefore(t, p) + Keys(At(t, p)) + KeysAfter(t, p)
    ensures Keys(Put(t, p, s)) == KeysBefore(t, p) + Keys(s) + KeysAfter(t, p)
  {
    PutSpliceKeysAny(t, p, s);
    PutSpliceKeysAny(t, p, At(t, p));
    PutAt(t, p);
  }

  lemma {:induction false} PutSpliceKeysAny(t: Tree, p: Path, s: Tree)
    requires ValidPath(t, p)
    ensures Keys(Put(t, p, s)) == KeysBefore(t, p) + Keys(s) + KeysAfter(t, p)
  {
    if p == [] {
      assert Keys(s) == [] + Keys(s) + [];
    } else if p[0] {
      var q := p[1..];
      PutSpliceKeysAny(t.right, q, s);
      assert Put(t, p, s) == Fork(t.left, t.id, t.key, t.color, Put(t.right, q, s));
      assert Keys(Put(t, p, s)) == Keys(t.left) + [t.key] + Keys(Put(t.right, q, s));
      ConcatRegroup(Keys(t.left) + [t.key], KeysBefore(t.right, q), Keys(s), KeysAfter(t.right, q));
    } else {
      var q := p[1..];
      PutSpliceKeysAny(t.left, q, s);
      assert Put(t, p, s) == Fork(Put(t.left, q, s), t.id, t.key, t.color, t.right);
      assert Keys(Put(t, p, s)) == Keys(Put(t.left, q, s)) + [t.key] + Keys(t.right);
      ConcatRegroupRight(KeysBefore(t.left, q), Keys(s), KeysAfter(t.left, q), [t.key], Keys(t.right));
    }
  }


  /** Ids and distinctness around the subtree at `p`. */
  lemma {:induction false} PutIds(t: Tree, p: Path, s: Tree)
    requires ValidPath(t, p)
    ensures Ids(t) == Context(t, p) + Ids(At(t, p))
    ensures Ids(Put(t, p, s)) == Context(t, p) + Ids(s)
    ensures Distinct(t) ==> Distinct(At(t, p)) && Context(t, p) !! Ids(At(t, p)) && 0 !in Context(t, p)
    ensures Distinct(t) && Distinct(s) && Context(t, p) !! Ids(s) ==> Distinct(Put(t, p, s))
  {
    if p != [] {
      PutIds(Child(t, p[0]), p[1..], s);
      if Distinct(t) {
        IdsNonZero(Child(t, !p[0]));
      }
    }
  }

  // ---------------------------------------------------------------------------------------------
  // Local restructurings

  /** `left_rotate` on a subtree: the right child becomes the top. */
  function RotateLeft(t: Tree): (u: Tree)
    requires t.Fork? && t.right.Fork?
    ensures u.Fork? && u.left.Fork?
  {
    Fork(Fork(t.left, t.id, t.key, t.color, t.right.left), t.right.id, t.right.key, t.right.color, t.right.right)
  }

  /** `right_rotate` on a subtree: the left child becomes the top. */
  function RotateRight(t: Tree): (u: Tree)
    requires t.Fork? && t.left.Fork?
    ensures u.Fork? && u.right.Fork?
  {
    Fork(t.left.left, t.left.id, t.left.key, t.left.color, Fork(t.left.right, t.id, t.key, t.color, t.right))
  }

  lemma {:induction false} RotationsInverse(t: Tree)
    requires t.Fork?
    ensures t.right.Fork? ==> RotateRight(RotateLeft(t)) == t
    ensures t.left.Fork? ==> RotateLeft(RotateRight(t)) == t
  {
  }

  /** Rotations keep the in-order sequence of nodes and keys, and the set of nodes. */
  lemma {:induction false} RotateLeftContent(t: Tree)
    requires t.Fork? && t.right.Fork?
    ensures InOrder(RotateLeft(t)) == InOrder(t) && Keys(RotateLeft(t)) == Keys(t)
    ensures Ids(RotateLeft(t)) == Ids(t) && Size(RotateLeft(t)) == Size(t)
  {
    var a, b, c := t.left, t.right.left, t.right.right;
    Regroup(InOrder(a), t.id, InOrder(b), t.right.id, InOrder(c));
    Regroup(Keys(a), t.key, Keys(b), t.right.key, Keys(c));
  }

  lemma Regroup<T>(a: seq<T>, x: T, b: seq<T>, y: T, c: seq<T>)
    ensures (a + [x] + b) + [y] + c == a + [x] + (b + [y] + c)
  {
  }

  lemma {:induction false} RotateLeftDistinct(t: Tree)
    requires t.Fork? && t.right.Fork? && Distinct(t)
    ensures Distinct(RotateLeft(t))
  {
    var a, x, y, b, c := t.left, t.id, t.right.id, t.right.left, t.right.right;
    assert Ids(t.right) == Ids(b) + {y} + Ids(c);
    assert Distinct(Fork(a, x, t.key, t.color, b));
    assert Ids(Fork(a, x, t.key, t.color, b)) == Ids(a) + {x} + Ids(b);
  }

  lemma {:induction false} RotateRightContent(t: Tree)
    requires t.Fork? && t.left.Fork?
    ensures InOrder(RotateRight(t)) == InOrder(t) && Keys(RotateRight(t)) == Keys(t)
    ensures Ids(RotateRight(t)) == Ids(t) && Size(RotateRight(t)) == Size(t)
  {
    var a, b, c := t.left.left, t.left.right, t.right;
    Regroup(InOrder(a), t.left.id, InOrder(b), t.id, InOrder(c));
    Regroup(Keys(a), t.left.key, Keys(b), t.key, Keys(c));
  }

  lemma {:induction false} RotateRightDistinct(t: Tree)
    requires t.Fork? && t.left.Fork? && Distinct(t)
    ensures Distinct(RotateRight(t))
  {
    var a, x, y, b, c := t.left.left, t.left.id, t.id, t.left.right, t.right;
    assert Ids(t.left) == Ids(a) + {x} + Ids(b);
    assert Distinct(Fork(b, y, t.key, t.color, c));
    assert Ids(Fork(b, y, t.key, t.color, c)) == Ids(b) + {y} + Ids(c);
  }

  /** A node's colour changed. */
  function Paint(t: Tree, c: Color): Tree
    requires t.Fork?
  {
    t.(color := c)
  }

  /** The ordinary search-tree insertion of `leaf` under key `k`: equal keys go right. */
  function BstInsert(t: Tree, k: int, leaf: Tree): Tree {
    if t.Empty? then leaf
    else if k < t.key then t.(left := BstInsert(t.left, k, leaf))
    else t.(right := BstInsert(t.right, k, leaf))
  }

  /** The number of keys not greater than `k`: where a new key `k` goes in a non-decreasing sequence. */
  function Rank(s: seq<int>, k: int): nat {
    if s == [] then 0 else (if s[0] <= k then 1 else 0) + Rank(s[1..], k)
  }

  /** The path of the leftmost node of a non-empty tree. */
  function LeftSpine(t: Tree): Path
    requires t.Fork?
  {
    if t.left.Empty? then [] else [false] + LeftSpine(t.left)
  }

  /** Focusing on the subtree at `p`: positions and replacements below it. */
  lemma Focus(t: Tree, p: Path, l: Tree, r: Path, s: Tree)
    requires ValidPath(t, p) && ValidPath(l, r)
    ensures ValidPath(Put(t, p, l), p + r) && At(Put(t, p, l), p + r) == At(l, r)
    ensures Put(Put(t, p, l), p + r, s) == Put(t, p, Put(l, r, s))
  {
    AtPut(t, p, l);
    PathConcat(Put(t, p, l), p, r);
    PutConcat(Put(t, p, l), p, r, s);
    PutPut(t, p, l, Put(l, r, s));
  }

  // ---------------------------------------------------------------------------------------------
  // Search-tree insertion

  /** The path the insertion descent follows for key `k`; it ends at a `NIL` position. */
  function InsertPath(t: Tree, k: int): (p: Path)
    ensures ValidPath(t, p) && At(t, p).Empty?
  {
    if t.Empty? then []
    else if k < t.key then
      assert ValidPath(t, [false] + InsertPath(t.left, k)) by {
        assert ([false] + InsertPath(t.left, k))[1..] == InsertPath(t.left, k);
      }
      [false] + InsertPath(t.left, k)
    else
      assert ValidPath(t, [true] + InsertPath(t.right, k)) by {
        assert ([true] + InsertPath(t.right, k))[1..] == InsertPath(t.right, k);
      }
      [true] + InsertPath(t.right, k)
  }

  /** The insertion is a replacement of the `NIL` position the descent reaches. */
  lemma {:induction false} BstInsertIsPut(t: Tree, k: int, leaf: Tree)
    ensures BstInsert(t, k, leaf) == Put(t, InsertPath(t, k), leaf)
  {
    if t.Fork? {
      var p := InsertPath(t, k);
      assert p[1..] == InsertPath(Child(t, p[0]), k);
      BstInsertIsPut(Child(t, p[0]), k, leaf);
    }
  }

  /** The last step of the descent turns the way the key comparison at the last node says. */
  lemma {:induction false} InsertPathLast(t: Tree, k: int)
    requires InsertPath(t, k) != []
    ensures ValidPath(t, Up(InsertPath(t, k))) && At(t, Up(InsertPath(t, k))).Fork?
    ensures Last(InsertPath(t, k)) == !(k < At(t, Up(InsertPath(t, k))).key)
  {
    var p := InsertPath(t, k);
    var c := Child(t, p[0]);
    assert p == [p[0]] + InsertPath(c, k);
    if InsertPath(c, k) == [] {
      assert Up(p) == [];
    } else {
      InsertPathLast(c, k);
      var q := InsertPath(c, k);
      assert Up(p) == [p[0]] + Up(q) && Up(p)[1..] == Up(q);
      assert Last(p) == Last(q);
    }
  }

  /** One step of the descent: the rest of the path from a node on it. */
  lemma {:induction false} InsertPathStep(t: Tree, p: Path, k: int)
    requires ValidPath(t, p) && At(t, p).Fork?
    requires InsertPath(t, k) == p + InsertPath(At(t, p), k)
    ensures InsertPath(t, k) == (p + [!(k < At(t, p).key)]) + InsertPath(Child(At(t, p), !(k < At(t, p).key)), k)
  {
    var q := At(t, p);
    var d := !(k < q.key);
    var rest := InsertPath(Child(q, d), k);
    calc {
      InsertPath(t, k);
      p + InsertPath(q, k);
      p + ([d] + rest);
      { SeqAssoc(p, [d], rest); }
      (p + [d]) + rest;
    }
  }

  lemma SeqAssoc<T>(a: seq<T>, b: seq<T>, c: seq<T>)
    ensures a + (b + c) == (a + b) + c
  {
  }

  lemma {:induction false} RankConcat(a: seq<int>, b: seq<int>, k: int)
    ensures Rank(a + b, k) == Rank(a, k) + Rank(b, k)
  {
    if a != [] {
      assert (a + b)[1..] == a[1..] + b;
      RankConcat(a[1..], b, k);
    } else {
      assert a + b == b;
    }
  }

  lemma {:induction false} RankAll(s: seq<int>, k: int)
    ensures (forall i :: 0 <= i < |s| ==> s[i] <= k) ==> Rank(s, k) == |s|
    ensures (forall i :: 0 <= i < |s| ==> s[i] > k) ==> Rank(s, k) == 0
  {
    if s != [] {
      RankAll(s[1..], k);
    }
  }

  lemma SortedSplit(a: seq<int>, x: int, b: seq<int>)
    requires NonDecreasing(a + [x] + b)
    ensures NonDecreasing(a) && NonDecreasing(b)
    ensures forall i :: 0 <= i < |a| ==> a[i] <= x
    ensures forall i :: 0 <= i < |b| ==> x <= b[i]
  {
    var s := a + [x] + b;
    forall i, j | 0 <= i < j < |a| ensures a[i] <= a[j] {
      assert s[i] == a[i] && s[j] == a[j];
    }
    forall i, j | 0 <= i < j < |b| ensures b[i] <= b[j] {
      assert s[|a| + 1 + i] == b[i] && s[|a| + 1 + j] == b[j];
    }
    forall i | 0 <= i < |a| ensures a[i] <= x {
      assert s[i] == a[i] && s[|a|] == x;
    }
    forall i | 0 <= i < |b| ensures x <= b[i] {
      assert s[|a| + 1 + i] == b[i] && s[|a|] == x;
    }
  }

  lemma NonDecreasingParts(t: Tree)
    requires t.Fork? && NonDecreasing(Keys(t))
    ensures NonDecreasing(Keys(t.left)) && NonDecreasing(Keys(t.right))
    ensures forall i :: 0 <= i < |Keys(t.left)| ==> Keys(t.left)[i] <= t.key
    ensures forall i :: 0 <= i < |Keys(t.right)| ==> t.key <= Keys(t.right)[i]
  {
    SortedSplit(Keys(t.left), t.key, Keys(t.right));
  }

  /** In a search tree the descent for `k` ends just after every key not greater than `k`. */
  lemma {:induction false} InsertOffset(t: Tree, k: int)
    requires NonDecreasing(Keys(t))
    ensures Offset(t, InsertPath(t, k)) == Rank(Keys(t), k)
  {
    if t.Fork? {
      NonDecreasingParts(t);
      var p := InsertPath(t, k);
      assert p[1..] == InsertPath(Child(t, p[0]), k);
      InsertOffset(Child(t, p[0]), k);
      RankConcat(Keys(t.left), [t.key], k);
      RankConcat(Keys(t.left) + [t.key], Keys(t.right), k);
      assert Rank([t.key], k) == (if t.key <= k then 1 else 0) by {
        assert [t.key][1..] == [];
      }
      RankAll(Keys(t.left), k);
      RankAll(Keys(t.right), k);
    }
  }

  /** In a non-decreasing sequence the first `Rank(s, k)` entries are exactly those not above `k`. */
  lemma {:induction false} RankSplits(s: seq<int>, k: int)
    requires NonDecreasing(s)
    ensures Rank(s, k) <= |s|
    ensures forall i :: 0 <= i < Rank(s, k) ==> s[i] <= k
    ensures forall i :: Rank(s, k) <= i < |s| ==> k < s[i]
  {
    if s != [] {
      assert NonDecreasing(s[1..]) by {
        forall i, j | 0 <= i < j < |s[1..]| ensures s[1..][i] <= s[1..][j] {
          assert s[1..][i] == s[i + 1] && s[1..][j] == s[j + 1];
        }
      }
      RankSplits(s[1..], k);
      if s[0] > k {
        RankAll(s[1..], k);
        assert forall i :: 0 <= i < |s[1..]| ==> s[1..][i] > k by {
          forall i | 0 <= i < |s[1..]| ensures s[1..][i] > k {
            assert s[1..][i] == s[i + 1];
          }
        }
      }
    }
  }

  // ---------------------------------------------------------------------------------------------
  // The leftmost node (the in-order successor search of `minimum`)

  lemma {:induction false} LeftSpineProps(t: Tree)
    requires t.Fork?
    ensures ValidPath(t, LeftSpine(t)) && At(t, LeftSpine(t)).Fork? && At(t, LeftSpine(t)).left.Empty?
    ensures Offset(t, LeftSpine(t)) == 0
  {
    if t.left.Fork? {
      LeftSpineProps(t.left);
      assert LeftSpine(t)[1..] == LeftSpine(t.left);
    }
  }

  /** One step of the descent of `minimum`. */
  lemma LeftSpineStep(t: Tree, p: Path)
    requires ValidPath(t, p) && At(t, p).Fork? && At(t, p).left.Fork?
    requires t.Fork? && LeftSpine(t) == p + LeftSpine(At(t, p))
    ensures LeftSpine(t) == (p + [false]) + LeftSpine(At(t, p).left)
  {
  }

  /** Unlinking the leftmost node (replacing it by its right subtree) drops the first in-order entry. */
  lemma DropFirst<T>(a: seq<T>, x: T, b: seq<T>)
    requires a != []
    ensures (a + [x] + b)[0] == a[0] && (a + [x] + b)[1..] == a[1..] + [x] + b
  {
  }

  /** The leftmost node of a tree with a left subtree is the leftmost node of that subtree. */
  lemma LeftSpineLeft(t: Tree, s: Tree)
    requires t.Fork? && t.left.Fork?
    requires ValidPath(t.left, LeftSpine(t.left))
    ensures ValidPath(t, LeftSpine(t)) && At(t, LeftSpine(t)) == At(t.left, LeftSpine(t.left))
    ensures Put(t, LeftSpine(t), s) == t.(left := Put(t.left, LeftSpine(t.left), s))
  {
    assert LeftSpine(t) == [false] + LeftSpine(t.left);
    assert ([false] + LeftSpine(t.left))[1..] == LeftSpine(t.left);
  }

  lemma {:induction false} RemoveLeftmost(t: Tree)
    requires t.Fork?
    ensures ValidPath(t, LeftSpine(t)) && At(t, LeftSpine(t)).Fork?
    ensures InOrder(t) != [] && InOrder(t)[0] == At(t, LeftSpine(t)).id
    ensures InOrder(Put(t, LeftSpine(t), At(t, LeftSpine(t)).right)) == InOrder(t)[1..]
    ensures Keys(Put(t, LeftSpine(t), At(t, LeftSpine(t)).right)) == Keys(t)[1..]
  {
    if t.left.Fork? {
      RemoveLeftmost(t.left);
      var m := At(t.left, LeftSpine(t.left));
      LeftSpineLeft(t, m.right);
      DropFirst(InOrder(t.left), t.id, InOrder(t.right));
      DropFirst(Keys(t.left), t.key, Keys(t.right));
    } else {
      assert InOrder(t) == [t.id] + InOrder(t.right);
      assert Keys(t) == [t.key] + Keys(t.right);
    }
  }

  // ---------------------------------------------------------------------------------------------
  // The parent position

  function Up(p: Path): Path
    requires p != []
  {
    p[..|p| - 1]
  }

  function Last(p: Path): bool
    requires p != []
  {
    p[|p| - 1]
  }

  lemma {:induction false} ContextStep(t: Tree, p: Path, d: bool)
    requires ValidPath(t, p) && At(t, p).Fork?
    ensures ValidPath(t, p + [d])
    ensures Context(t, p + [d]) == Context(t, p) + {At(t, p).id} + Ids(Child(At(t, p), !d))
  {
    StepDown(t, p, d);
    if p == [] {
      assert p + [d] == [d];
      assert [d][1..] == [];
    } else {
      assert (p + [d])[1..] == p[1..] + [d];
      ContextStep(Child(t, p[0]), p[1..], d);
    }
  }

  /** The parent of a non-root position, and what lies outside it. */
  lemma UpProps(t: Tree, p: Path)
    requires ValidPath(t, p) && p != []
    ensures p == Up(p) + [Last(p)]
    ensures ValidPath(t, Up(p)) && At(t, Up(p)).Fork? && At(t, p) == Child(At(t, Up(p)), Last(p))
    ensures Context(t, p) == Context(t, Up(p)) + {At(t, Up(p)).id} + Ids(Child(At(t, Up(p)), !Last(p)))
  {
    PathParent(t, p);
    assert p == Up(p) + [Last(p)];
    ContextStep(t, Up(p), Last(p));
  }

  // ---------------------------------------------------------------------------------------------
  // Search

  /** The positions `_search` visits for `key`: it stops at `NIL` or at a node with that key,
   *  and goes left exactly when `key` is smaller than the node's key. */
  function Find(t: Tree, key: int): (p: Path)
    ensures ValidPath(t, p)
  {
    if t.Empty? || t.key == key then []
    else if key < t.key then
      assert ([false] + Find(t.left, key))[1..] == Find(t.left, key);
      [false] + Find(t.left, key)
    else
      assert ([true] + Find(t.right, key))[1..] == Find(t.right, key);
      [true] + Find(t.right, key)
  }

  /** In a search tree (keys non-decreasing in in-order) the search finds a node with the key
   *  exactly when the key is present. */
  lemma {:induction false} FindCorrect(t: Tree, key: int)
    requires NonDecreasing(Keys(t))
    ensures At(t, Find(t, key)).Fork? <==> key in Keys(t)
    ensures At(t, Find(t, key)).Fork? ==> At(t, Find(t, key)).key == key
  {
    if t.Fork? && t.key != key {
      var p := Find(t, key);
      assert p[1..] == Find(Child(t, p[0]), key);
      NonDecreasingParts(t);
      FindCorrect(Child(t, p[0]), key);
      assert Keys(t) == Keys(t.left) + [t.key] + Keys(t.right);
      if key < t.key {
        assert key !in Keys(t.right) by {
          forall i | 0 <= i < |Keys(t.right)| ensures Keys(t.right)[i] != key {
          }
        }
      } else {
        assert key !in Keys(t.left) by {
          forall i | 0 <= i < |Keys(t.left)| ensures Keys(t.left)[i] != key {
          }
        }
      }
    }
  }

  /** Raise the child on side `d` to the top: `left_rotate` for the right child, `right_rotate`
   *  for the left one. */
  function Raise(t: Tree, d: bool): (u: Tree)
    requires t.Fork? && Child(t, d).Fork?
    ensures u.Fork? && Child(u, !d).Fork?
  {
    if d then RotateLeft(t) else RotateRight(t)
  }

  lemma RaiseContent(t: Tree, d: bool)
    requires t.Fork? && Child(t, d).Fork?
    ensures InOrder(Raise(t, d)) == InOrder(t) && Keys(Raise(t, d)) == Keys(t)
    ensures Ids(Raise(t, d)) == Ids(t) && Size(Raise(t, d)) == Size(t)
    ensures Distinct(t) ==> Distinct(Raise(t, d))
  {
    if d {
      RotateLeftContent(t);
      if Distinct(t) {
        RotateLeftDistinct(t);
      }
    } else {
      RotateRightContent(t);
      if Distinct(t) {
        RotateRightDistinct(t);
      }
    }
  }

  /** A rotation inside `t` at `p` keeps the whole tree's in-order content and node set. */
  lemma RaiseAt(t: Tree, p: Path, d: bool)
    requires ValidPath(t, p) && At(t, p).Fork? && Child(At(t, p), d).Fork?
    ensures InOrder(Put(t, p, Raise(At(t, p), d))) == InOrder(t)
    ensures Keys(Put(t, p, Raise(At(t, p), d))) == Keys(t)
    ensures Ids(Put(t, p, Raise(At(t, p), d))) == Ids(t)
    ensures Distinct(t) ==> Distinct(Put(t, p, Raise(At(t, p), d)))
  {
    RaiseContent(At(t, p), d);
    PutSameContent(t, p, Raise(At(t, p), d));
    PutIds(t, p, Raise(At(t, p), d));
  }

  /** The node at `p` stands at position `Offset + Size(left)` of the in-order sequence. */
  lemma InOrderAt(t: Tree, p: Path)
    requires ValidPath(t, p) && At(t, p).Fork?
    ensures var k := Offset(t, p) + Size(At(t, p).left);
      k < |InOrder(t)| && InOrder(t)[k] == At(t, p).id && Keys(t)[k] == At(t, p).key
  {
    PutSplice(t, p, At(t, p));
    PutSpliceKeys(t, p, At(t, p));
  }

  /** Over distinct nodes every id occurs once in the in-order sequence. */
  lemma {:induction false} InOrderUnique(t: Tree)
    requires Distinct(t)
    ensures forall i, j :: 0 <= i < j < |InOrder(t)| ==> InOrder(t)[i] != InOrder(t)[j]
  {
    if t.Fork? {
      InOrderUnique(t.left);
      InOrderUnique(t.right);
      InOrderIds(t.left);
      InOrderIds(t.right);
      var a, b := InOrder(t.left), InOrder(t.right);
      forall i, j | 0 <= i < j < |InOrder(t)| ensures InOrder(t)[i] != InOrder(t)[j] {
        var s := InOrder(t);
        if j < |a| {
          assert s[i] == a[i] && s[j] == a[j];
        } else if i > |a| {
          assert s[i] == b[i - |a| - 1] && s[j] == b[j - |a| - 1];
        } else {
          assert s[i] in a + [t.id] && s[j] in [t.id] + b;
          assert i == |a| ==> s[i] == t.id && s[j] in b;
          assert i < |a| ==> s[i] in a;
          assert i < |a| && j == |a| ==> s[j] == t.id;
          assert i < |a| && j > |a| ==> s[j] in b;
        }
      }
    }
  }
}
