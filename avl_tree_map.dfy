/**
 * The ordered key/value map of the search engine: a binary search tree kept
 * height-balanced (AVL) by single and double rotations after every insertion.
 * Each node owns its two subtrees and `put` hands back the new subtree root,
 * so the tree is modelled as a value; keys are strings ordered as Python
 * orders `str`.
 */
module AvlTreeMap {
  import opened Strings
  import opened Wrappers

  /** A node with its stored `height` field; `Leaf` is the absent child. */
  datatype Tree<V> = Leaf | Node(key: string, value: V, height: int, left: Tree<V>, right: Tree<V>)

  /** How far the heights of two siblings may differ before a rotation. */
  const AllowedImbalance := 1

  function Max(a: int, b: int): int
  {
    if a >= b then a else b
  }

  /** The `height` helper: an absent child counts as -1. */
  function Height<V>(t: Tree<V>): int
  {
    if t.Leaf? then -1 else t.height
  }

  function Keys<V>(t: Tree<V>): set<string>
  {
    if t.Leaf? then {} else Keys(t.left) + {t.key} + Keys(t.right)
  }

  function Size<V>(t: Tree<V>): nat
  {
    if t.Leaf? then 0 else Size(t.left) + 1 + Size(t.right)
  }

  /** The key/value pairs from left to right. */
  function InOrder<V>(t: Tree<V>): seq<(string, V)>
  {
    if t.Leaf? then [] else InOrder(t.left) + [(t.key, t.value)] + InOrder(t.right)
  }

  /** Every key of a left subtree is below its node's key, every key of a
      right subtree above it. */
  ghost predicate IsBst<V>(t: Tree<V>)
  {
    t.Leaf? ||
    (IsBst(t.left) && IsBst(t.right) &&
     (forall x :: x in Keys(t.left) ==> Less(x, t.key)) &&
     (forall x :: x in Keys(t.right) ==> Less(t.key, x)))
  }

  /** No stored height is negative. */
  predicate HeightsNonNegative<V>(t: Tree<V>)
  {
    t.Leaf? || (t.height >= 0 && HeightsNonNegative(t.left) && HeightsNonNegative(t.right))
  }

  /** Every stored height is one more than the larger child height. */
  predicate HeightsExact<V>(t: Tree<V>)
    ensures HeightsExact(t) ==> HeightsNonNegative(t)
  {
    t.Leaf? ||
    (HeightsExact(t.left) && HeightsExact(t.right) &&
     t.height == Max(Height(t.left), Height(t.right)) + 1)
  }

  /** Sibling heights differ by at most `AllowedImbalance` at every node. */
  predicate Balanced<V>(t: Tree<V>)
  {
    t.Leaf? ||
    (Balanced(t.left) && Balanced(t.right) &&
     -AllowedImbalance <= Height(t.left) - Height(t.right) <= AllowedImbalance)
  }

  predicate IsAvl<V>(t: Tree<V>)
  {
    HeightsExact(t) && Balanced(t)
  }

  // ---------------------------------------------------------------------
  // Lookup and preorder listing
  // ---------------------------------------------------------------------

  /** `get_recursive`: an ordinary search-tree descent; `None` when the key
      is missing. */
  function Get<V>(t: Tree<V>, k: string): (r: Option<V>)
  {
    match t
    case Leaf => None
    case Node(key, value, _, left, right) =>
      if k == key then Some(value)
      else if Less(key, k) then Get(right, k)
      else Get(left, k)
  }

  /** `search_path_recursive`: the keys in preorder, node before its left
      subtree before its right subtree. */
  function SearchPath<V>(t: Tree<V>): (path: seq<string>)
    ensures |path| == Size(t)
    ensures forall x :: x in path <==> x in Keys(t)
  {
    if t.Leaf? then [] else [t.key] + SearchPath(t.left) + SearchPath(t.right)
  }

  // ---------------------------------------------------------------------
  // Rotations and rebalancing
  // ---------------------------------------------------------------------

  /** `rotate_with_left_child`: the left child becomes the subtree root and
      the old root takes over the child's right subtree; the two nodes get
      their heights recomputed, the old root first. */
  function RotateWithLeftChild<V>(t: Tree<V>): (r: Tree<V>)
    requires t.Node? && t.left.Node?
    ensures r.Node? && r.key == t.left.key && r.right.Node? && r.right.key == t.key
    ensures InOrder(r) == InOrder(t) && Keys(r) == Keys(t) && Size(r) == Size(t)
    ensures HeightsNonNegative(t.left) && HeightsNonNegative(t.right) ==> HeightsNonNegative(r)
  {
    var newRoot := t.left;
    var demoted := t.(left := newRoot.right);
    var demoted' := demoted.(height := Max(Height(demoted.left), Height(demoted.right)) + 1);
    var promoted := newRoot.(right := demoted');
    promoted.(height := Max(Height(promoted.left), Height(promoted.right)) + 1)
  }

  /** `rotate_with_right_child`, the mirror image of the left rotation. */
  function RotateWithRightChild<V>(t: Tree<V>): (r: Tree<V>)
    requires t.Node? && t.right.Node?
    ensures r.Node? && r.key == t.right.key && r.left.Node? && r.left.key == t.key
    ensures InOrder(r) == InOrder(t) && Keys(r) == Keys(t) && Size(r) == Size(t)
    ensures HeightsNonNegative(t.left) && HeightsNonNegative(t.right) ==> HeightsNonNegative(r)
  {
    var newRoot := t.right;
    var demoted := t.(right := newRoot.left);
    var demoted' := demoted.(height := Max(Height(demoted.left), Height(demoted.right)) + 1);
    var promoted := newRoot.(left := demoted');
    promoted.(height := Max(Height(promoted.left), Height(promoted.right)) + 1)
  }

  /** `double_with_left_child`: rotate the left child with its right child,
      then rotate the node with its new left child; the left child's right
      child ends up on top. */
  function DoubleWithLeftChild<V>(t: Tree<V>): (r: Tree<V>)
    requires t.Node? && t.left.Node? && t.left.right.Node?
    ensures r.Node? && r.key == t.left.right.key
    ensures InOrder(r) == InOrder(t) && Keys(r) == Keys(t) && Size(r) == Size(t)
    ensures HeightsNonNegative(t.left) && HeightsNonNegative(t.right) ==> HeightsNonNegative(r)
  {
    RotateWithLeftChild(t.(left := RotateWithRightChild(t.left)))
  }

  /** `double_with_right_child`, the mirror image. */
  function DoubleWithRightChild<V>(t: Tree<V>): (r: Tree<V>)
    requires t.Node? && t.right.Node? && t.right.left.Node?
    ensures r.Node? && r.key == t.right.left.key
    ensures InOrder(r) == InOrder(t) && Keys(r) == Keys(t) && Size(r) == Size(t)
    ensures HeightsNonNegative(t.left) && HeightsNonNegative(t.right) ==> HeightsNonNegative(r)
  {
    RotateWithRightChild(t.(right := RotateWithLeftChild(t.right)))
  }

  /** The children `balance` dereferences are there: the heavier child when
      the imbalance is too large, and its inner child when a double
      rotation is chosen. */
  predicate CanBalance<V>(t: Tree<V>)
  {
    t.Node? ==>
      (Height(t.left) - Height(t.right) > AllowedImbalance ==>
         t.left.Node? && (Height(t.left.left) < Height(t.left.right) ==> t.left.right.Node?)) &&
      (Height(t.right) - Height(t.left) > AllowedImbalance ==>
         t.right.Node? && (Height(t.right.right) < Height(t.right.left) ==> t.right.left.Node?))
  }

  lemma ChildrenNonNegativeCanBalance<V>(t: Tree<V>)
    requires t.Node? && HeightsNonNegative(t.left) && HeightsNonNegative(t.right)
    ensures CanBalance(t)
  {
  }

  /** `balance`: a single rotation when the heavy child leans outward or is
      level (the `>=` tie), a double rotation when it leans inward, and then
      the root's height recomputed. */
  function Balance<V>(t: Tree<V>): (r: Tree<V>)
    requires CanBalance(t)
    ensures t.Node? <==> r.Node?
    ensures InOrder(r) == InOrder(t) && Keys(r) == Keys(t) && Size(r) == Size(t)
    ensures t.Node? && HeightsNonNegative(t.left) && HeightsNonNegative(t.right) ==> HeightsNonNegative(r)
  {
    if t.Leaf? then t
    else
      var u :=
        if Height(t.left) - Height(t.right) > AllowedImbalance then
          (if Height(t.left.left) >= Height(t.left.right) then RotateWithLeftChild(t)
           else DoubleWithLeftChild(t))
        else if Height(t.right) - Height(t.left) > AllowedImbalance then
          (if Height(t.right.right) >= Height(t.right.left) then RotateWithRightChild(t)
           else DoubleWithRightChild(t))
        else t;
      u.(height := Max(Height(u.left), Height(u.right)) + 1)
  }

  // ---------------------------------------------------------------------
  // Insertion
  // ---------------------------------------------------------------------

  /** `put_recursive`: a new key becomes a leaf of height 0 at the end of
      its search path, an existing key gets its value replaced, and every
      node on the way back up is rebalanced. */
  function Put<V>(t: Tree<V>, k: string, v: V): (r: Tree<V>)
    requires HeightsNonNegative(t)
    ensures r.Node? && HeightsNonNegative(r)
    ensures Keys(r) == Keys(t) + {k}
  {
    match t
    case Leaf => Node(k, v, 0, Leaf, Leaf)
    case Node(key, _, _, left, right) =>
      if k == key then
        ChildrenNonNegativeCanBalance(t.(value := v));
        Balance(t.(value := v))
      else if Less(key, k) then
        var t' := t.(right := Put(right, k, v));
        ChildrenNonNegativeCanBalance(t');
        Balance(t')
      else
        var t' := t.(left := Put(left, k, v));
        ChildrenNonNegativeCanBalance(t');
        Balance(t')
  }

  /** What `put` does in place when the key is already there: the one
      node's value is replaced and nothing else moves. */
  function SetValue<V>(t: Tree<V>, k: string, v: V): (r: Tree<V>)
    ensures Keys(r) == Keys(t) && Size(r) == Size(t) && SearchPath(r) == SearchPath(t)
    ensures Height(r) == Height(t) && (IsAvl(t) ==> IsAvl(r))
  {
    match t
    case Leaf => Leaf
    case Node(key, _, _, left, right) =>
      if k == key then t.(value := v)
      else if Less(key, k) then t.(right := SetValue(right, k, v))
      else t.(left := SetValue(left, k, v))
  }

  // ---------------------------------------------------------------------
  // Lookup agrees with the in-order pairs of a search tree
  // ---------------------------------------------------------------------

  /** The value paired with the first occurrence of `k`. */
  function Lookup<V>(entries: seq<(string, V)>, k: string): Option<V>
  {
    if entries == [] then None
    else if entries[0].0 == k then Some(entries[0].1)
    else Lookup(entries[1..], k)
  }

  lemma {:induction false} LookupAppend<V>(a: seq<(string, V)>, b: seq<(string, V)>, k: string)
    ensures Lookup(a + b, k) == if Lookup(a, k).Some? then Lookup(a, k) else Lookup(b, k)
    decreases |a|
  {
    if a == [] {
      assert a + b == b;
    } else {
      assert (a + b)[1..] == a[1..] + b;
      LookupAppend(a[1..], b, k);
    }
  }

  /** A key that is not in the tree is not found by `Get`. */
  lemma {:induction false} GetMissing<V>(t: Tree<V>, k: string)
    requires k !in Keys(t)
    ensures Get(t, k) == None
  {
    if t.Node? {
      GetMissing(t.left, k);
      GetMissing(t.right, k);
    }
  }

  lemma {:induction false} LookupMissing<V>(t: Tree<V>, k: string)
    requires k !in Keys(t)
    ensures Lookup(InOrder(t), k) == None
  {
    if t.Node? {
      LookupMissing(t.left, k);
      LookupMissing(t.right, k);
      LookupAppend(InOrder(t.left), [(t.key, t.value)], k);
      LookupAppend(InOrder(t.left) + [(t.key, t.value)], InOrder(t.right), k);
    }
  }

  /** In a search tree, `Get` finds exactly the pair the in-order listing
      holds for the key. */
  lemma {:induction false} GetIsLookup<V>(t: Tree<V>, k: string)
    requires IsBst(t)
    ensures Get(t, k) == Lookup(InOrder(t), k)
  {
    if t.Node? {
      var l, r := InOrder(t.left), InOrder(t.right);
      LookupAppend(l, [(t.key, t.value)], k);
      LookupAppend(l + [(t.key, t.value)], r, k);
      GetIsLookup(t.left, k);
      GetIsLookup(t.right, k);
      if k == t.key {
        LessIrreflexive(k);
        LookupMissing(t.left, k);
      } else if Less(t.key, k) {
        LessAsymmetric(t.key, k);
        assert k !in Keys(t.left);
        LookupMissing(t.left, k);
      } else {
        LessTotal(k, t.key);
        LessAsymmetric(k, t.key);
        assert k !in Keys(t.right);
        LookupMissing(t.right, k);
        if k !in Keys(t.left) {
          GetMissing(t.left, k);
        }
      }
    }
  }

  // ---------------------------------------------------------------------
  // Rotations keep the search-tree order and the lookups
  // ---------------------------------------------------------------------

  lemma RotateWithLeftChildBst<V>(t: Tree<V>)
    requires t.Node? && t.left.Node? && IsBst(t)
    ensures IsBst(RotateWithLeftChild(t))
  {
    var top, up := t.key, t.left.key;
    assert up in Keys(t.left);
    forall x | x in Keys(t.right)
      ensures Less(up, x)
    {
      LessTransitive(up, top, x);
    }
  }

  lemma RotateWithRightChildBst<V>(t: Tree<V>)
    requires t.Node? && t.right.Node? && IsBst(t)
    ensures IsBst(RotateWithRightChild(t))
  {
    var top, up := t.key, t.right.key;
    assert up in Keys(t.right);
    forall x | x in Keys(t.left)
      ensures Less(x, up)
    {
      LessTransitive(x, top, up);
    }
  }

  lemma BalanceBst<V>(t: Tree<V>)
    requires CanBalance(t) && IsBst(t)
    ensures IsBst(Balance(t))
  {
    if t.Node? {
      if Height(t.left) - Height(t.right) > AllowedImbalance {
        if Height(t.left.left) < Height(t.left.right) {
          RotateWithRightChildBst(t.left);
          RotateWithLeftChildBst(t.(left := RotateWithRightChild(t.left)));
        } else {
          RotateWithLeftChildBst(t);
        }
      } else if Height(t.right) - Height(t.left) > AllowedImbalance {
        if Height(t.right.right) < Height(t.right.left) {
          RotateWithLeftChildBst(t.right);
          RotateWithRightChildBst(t.(right := RotateWithLeftChild(t.right)));
        } else {
          RotateWithRightChildBst(t);
        }
      }
    }
  }

  /** Rebalancing never changes what a lookup finds. */
  lemma BalanceGet<V>(t: Tree<V>, k: string)
    requires CanBalance(t) && IsBst(t)
    ensures Get(Balance(t), k) == Get(t, k)
  {
    BalanceBst(t);
    GetIsLookup(t, k);
    GetIsLookup(Balance(t), k);
  }

  // ---------------------------------------------------------------------
  // Rotations restore the AVL shape
  // ---------------------------------------------------------------------

  /** Left subtree two higher and leaning outward or level: one rotation
      leaves an AVL tree as high as the left subtree or one more. */
  lemma RotateWithLeftChildAvl<V>(t: Tree<V>)
    requires t.Node? && t.left.Node? && IsAvl(t.left) && IsAvl(t.right)
    requires Height(t.left) == Height(t.right) + 2
    requires Height(t.left.left) >= Height(t.left.right)
    ensures IsAvl(RotateWithLeftChild(t))
    ensures Height(t.left) <= Height(RotateWithLeftChild(t)) <= Height(t.left) + 1
  {
    var r := RotateWithLeftChild(t);
    assert r.left == t.left.left;
    assert r.right.left == t.left.right && r.right.right == t.right;
  }

  lemma RotateWithRightChildAvl<V>(t: Tree<V>)
    requires t.Node? && t.right.Node? && IsAvl(t.left) && IsAvl(t.right)
    requires Height(t.right) == Height(t.left) + 2
    requires Height(t.right.right) >= Height(t.right.left)
    ensures IsAvl(RotateWithRightChild(t))
    ensures Height(t.right) <= Height(RotateWithRightChild(t)) <= Height(t.right) + 1
  {
    var r := RotateWithRightChild(t);
    assert r.right == t.right.right;
    assert r.left.right == t.right.left && r.left.left == t.left;
  }

  /** Left subtree two higher and leaning inward: the double rotation
      leaves an AVL tree exactly as high as the left subtree. */
  lemma DoubleWithLeftChildAvl<V>(t: Tree<V>)
    requires t.Node? && t.left.Node? && IsAvl(t.left) && IsAvl(t.right)
    requires Height(t.left) == Height(t.right) + 2
    requires Height(t.left.left) < Height(t.left.right)
    ensures t.left.right.Node?
    ensures IsAvl(DoubleWithLeftChild(t)) && Height(DoubleWithLeftChild(t)) == Height(t.left)
  {
    var l, h := t.left, Height(t.right);
    var lr := l.right;
    assert IsAvl(l.left) && IsAvl(lr) && Height(lr) == h + 1 && Height(l.left) == h;
    assert IsAvl(lr.left) && IsAvl(lr.right);
    assert h - 1 <= Height(lr.left) <= h && h - 1 <= Height(lr.right) <= h;
    var inner := RotateWithRightChild(l);
    var a := inner.left;
    assert a.left == l.left && a.right == lr.left;
    assert IsAvl(a) && Height(a) == h + 1;
    assert inner.right == lr.right;
    var r := RotateWithLeftChild(t.(left := inner));
    assert r == DoubleWithLeftChild(t);
    assert r.left == a;
    var c := r.right;
    assert c.left == lr.right && c.right == t.right;
    assert IsAvl(c) && Height(c) == h + 1;
  }

  lemma DoubleWithRightChildAvl<V>(t: Tree<V>)
    requires t.Node? && t.right.Node? && IsAvl(t.left) && IsAvl(t.right)
    requires Height(t.right) == Height(t.left) + 2
    requires Height(t.right.right) < Height(t.right.left)
    ensures t.right.left.Node?
    ensures IsAvl(DoubleWithRightChild(t)) && Height(DoubleWithRightChild(t)) == Height(t.right)
  {
    var rt, h := t.right, Height(t.left);
    var rl := rt.left;
    assert IsAvl(rt.right) && IsAvl(rl) && Height(rl) == h + 1 && Height(rt.right) == h;
    assert IsAvl(rl.left) && IsAvl(rl.right);
    assert h - 1 <= Height(rl.left) <= h && h - 1 <= Height(rl.right) <= h;
    var inner := RotateWithLeftChild(rt);
    var a := inner.right;
    assert a.right == rt.right && a.left == rl.right;
    assert IsAvl(a) && Height(a) == h + 1;
    assert inner.left == rl.left;
    var r := RotateWithRightChild(t.(right := inner));
    assert r == DoubleWithRightChild(t);
    assert r.right == a;
    var c := r.left;
    assert c.right == rl.left && c.left == t.left;
    assert IsAvl(c) && Height(c) == h + 1;
  }

  /** `balance` on a node whose subtrees are AVL trees differing in height
      by at most two: the result is an AVL tree; without a rotation it is
      the node with its height recomputed, with one its height is that of
      the higher subtree or one more. */
  lemma BalanceAvl<V>(t: Tree<V>)
    requires t.Node? && IsAvl(t.left) && IsAvl(t.right)
    requires -2 <= Height(t.left) - Height(t.right) <= 2
    ensures CanBalance(t) && IsAvl(Balance(t))
    ensures -1 <= Height(t.left) - Height(t.right) <= 1 ==>
              Balance(t) == t.(height := Max(Height(t.left), Height(t.right)) + 1)
    ensures Max(Height(t.left), Height(t.right)) <= Height(Balance(t))
              <= Max(Height(t.left), Height(t.right)) + 1
  {
    ChildrenNonNegativeCanBalance(t);
    if Height(t.left) - Height(t.right) > AllowedImbalance {
      if Height(t.left.left) >= Height(t.left.right) {
        RotateWithLeftChildAvl(t);
      } else {
        DoubleWithLeftChildAvl(t);
      }
    } else if Height(t.right) - Height(t.left) > AllowedImbalance {
      if Height(t.right.right) >= Height(t.right.left) {
        RotateWithRightChildAvl(t);
      } else {
        DoubleWithRightChildAvl(t);
      }
    }
  }

  // ---------------------------------------------------------------------
  // What `put` guarantees
  // ---------------------------------------------------------------------

  /** `put` keeps the search-tree order. */
  lemma {:induction false} PutBst<V>(t: Tree<V>, k: string, v: V)
    requires HeightsNonNegative(t) && IsBst(t)
    ensures IsBst(Put(t, k, v))
  {
    if t.Node? {
      if k == t.key {
        ChildrenNonNegativeCanBalance(t.(value := v));
        BalanceBst(t.(value := v));
      } else if Less(t.key, k) {
        PutBst(t.right, k, v);
        var t' := t.(right := Put(t.right, k, v));
        ChildrenNonNegativeCanBalance(t');
        BalanceBst(t');
      } else {
        LessTotal(k, t.key);
        PutBst(t.left, k, v);
        var t' := t.(left := Put(t.left, k, v));
        ChildrenNonNegativeCanBalance(t');
        BalanceBst(t');
      }
    }
  }

  /** After `put(k, v)`, `get(k)` is `v` and every other key looks up what
      it did before. */
  lemma {:induction false} PutGet<V>(t: Tree<V>, k: string, v: V, x: string)
    requires HeightsNonNegative(t) && IsBst(t)
    ensures Get(Put(t, k, v), x) == if x == k then Some(v) else Get(t, x)
  {
    if t.Node? {
      if k == t.key {
        var t' := t.(value := v);
        ChildrenNonNegativeCanBalance(t');
        BalanceGet(t', x);
      } else if Less(t.key, k) {
        PutBst(t.right, k, v);
        PutGet(t.right, k, v, x);
        var t' := t.(right := Put(t.right, k, v));
        ChildrenNonNegativeCanBalance(t');
        BalanceGet(t', x);
      } else {
        LessTotal(k, t.key);
        PutBst(t.left, k, v);
        PutGet(t.left, k, v, x);
        var t' := t.(left := Put(t.left, k, v));
        ChildrenNonNegativeCanBalance(t');
        BalanceGet(t', x);
      }
    }
  }

  /** `put` keeps the AVL shape and grows the height by at most one. */
  lemma {:induction false} PutAvl<V>(t: Tree<V>, k: string, v: V)
    requires IsAvl(t)
    ensures IsAvl(Put(t, k, v))
    ensures Height(t) <= Height(Put(t, k, v)) <= Height(t) + 1
  {
    if t.Node? {
      if k == t.key {
        BalanceAvl(t.(value := v));
      } else if Less(t.key, k) {
        PutAvl(t.right, k, v);
        BalanceAvl(t.(right := Put(t.right, k, v)));
      } else {
        PutAvl(t.left, k, v);
        BalanceAvl(t.(left := Put(t.left, k, v)));
      }
    }
  }

  /** `put` of a key already in an AVL search tree only replaces that
      node's value: no rotation happens and no height changes. */
  lemma {:induction false} PutExisting<V>(t: Tree<V>, k: string, v: V)
    requires IsAvl(t) && IsBst(t) && k in Keys(t)
    ensures Put(t, k, v) == SetValue(t, k, v)
  {
    var t' := SetValue(t, k, v);
    if k == t.key {
      BalanceAvl(t.(value := v));
    } else if Less(t.key, k) {
      LessAsymmetric(t.key, k);
      assert k in Keys(t.right);
      PutExisting(t.right, k, v);
      BalanceAvl(t.(right := Put(t.right, k, v)));
    } else {
      LessTotal(k, t.key);
      LessAsymmetric(k, t.key);
      assert k in Keys(t.left);
      PutExisting(t.left, k, v);
      BalanceAvl(t.(left := Put(t.left, k, v)));
    }
  }

  /** In a search tree no key occurs twice, so the node count is the
      number of distinct keys. */
  lemma {:induction false} SizeIsKeyCount<V>(t: Tree<V>)
    requires IsBst(t)
    ensures Size(t) == |Keys(t)|
  {
    if t.Node? {
      SizeIsKeyCount(t.left);
      SizeIsKeyCount(t.right);
      LessIrreflexive(t.key);
      forall x | x in Keys(t.left) ensures x !in Keys(t.right) {
        if x in Keys(t.right) {
          LessTransitive(x, t.key, x);
          LessIrreflexive(x);
        }
      }
      assert Keys(t.left) !! Keys(t.right);
      assert Keys(t.left) !! {t.key};
      assert (Keys(t.left) + {t.key}) !! Keys(t.right);
    }
  }

  /** `put` adds one node exactly when the key is new. */
  lemma PutSize<V>(t: Tree<V>, k: string, v: V)
    requires HeightsNonNegative(t) && IsBst(t)
    ensures Size(Put(t, k, v)) == if k in Keys(t) then Size(t) else Size(t) + 1
  {
    PutBst(t, k, v);
    SizeIsKeyCount(t);
    SizeIsKeyCount(Put(t, k, v));
    if k in Keys(t) {
      assert Keys(t) + {k} == Keys(t);
    } else {
      assert |Keys(t) + {k}| == |Keys(t)| + 1;
    }
  }

  predicate NoDuplicates(s: seq<string>)
  {
    forall i, j :: 0 <= i < j < |s| ==> s[i] != s[j]
  }

  /** `search_path` names every key of a search tree exactly once. */
  lemma {:induction false} SearchPathDistinct<V>(t: Tree<V>)
    requires IsBst(t)
    ensures NoDuplicates(SearchPath(t))
  {
    if t.Node? {
      SearchPathDistinct(t.left);
      SearchPathDistinct(t.right);
      var l, r := SearchPath(t.left), SearchPath(t.right);
      var p := SearchPath(t);
      assert p == [t.key] + l + r;
      LessIrreflexive(t.key);
      forall i, j | 0 <= i < j < |p| ensures p[i] != p[j] {
        if i == 0 {
          assert p[j] in l || p[j] in r;
        } else if j <= |l| {
          assert p[i] == l[i - 1] && p[j] == l[j - 1];
        } else if i > |l| {
          assert p[i] == r[i - 1 - |l|] && p[j] == r[j - 1 - |l|];
        } else {
          assert p[i] in Keys(t.left) && p[j] in Keys(t.right);
          if p[i] == p[j] {
            LessTransitive(p[i], t.key, p[j]);
            LessIrreflexive(p[i]);
          }
        }
      }
    }
  }

  // ---------------------------------------------------------------------
  // Height stays logarithmic
  // ---------------------------------------------------------------------

  /** The fewest nodes an AVL tree of height `h` can have. */
  function MinNodes(h: int): nat
    requires h >= -1
    decreases h + 1
  {
    if h == -1 then 0 else if h == 0 then 1 else 1 + MinNodes(h - 1) + MinNodes(h - 2)
  }

  function Pow2(n: nat): nat
  {
    if n == 0 then 1 else 2 * Pow2(n - 1)
  }

  lemma {:induction false} MinNodesMonotone(a: int, b: int)
    requires -1 <= a <= b
    ensures MinNodes(a) <= MinNodes(b)
    decreases b - a
  {
    if a < b {
      MinNodesMonotone(a, b - 1);
    }
  }

  /** Every AVL tree has at least `MinNodes` of its height nodes. */
  lemma {:induction false} AvlMinNodes<V>(t: Tree<V>)
    requires IsAvl(t)
    ensures MinNodes(Height(t)) <= Size(t)
  {
    if t.Node? {
      AvlMinNodes(t.left);
      AvlMinNodes(t.right);
      var h := Height(t);
      if h > 0 {
        if Height(t.left) >= Height(t.right) {
          MinNodesMonotone(h - 2, Height(t.right));
        } else {
          MinNodesMonotone(h - 2, Height(t.left));
        }
      }
    }
  }

  lemma {:induction false} MinNodesExponential(h: int)
    requires h >= -1
    ensures Pow2((h + 1) / 2) <= MinNodes(h) + 1
    decreases h + 1
  {
    if h > 0 {
      MinNodesExponential(h - 2);
      MinNodesMonotone(h - 2, h - 1);
      assert (h + 1) / 2 == (h - 1) / 2 + 1;
    }
  }

  /** An AVL tree of `n` nodes has height below `2 * log2(n + 1)`. */
  lemma AvlHeightLogarithmic<V>(t: Tree<V>)
    requires IsAvl(t)
    ensures Pow2((Height(t) + 1) / 2) <= Size(t) + 1
  {
    AvlMinNodes(t);
    MinNodesExponential(Height(t));
  }

  // ---------------------------------------------------------------------
  // Every state reachable by a sequence of `put` calls
  // ---------------------------------------------------------------------

  /** The tree after `put` of each pair in turn. */
  function PutAll<V>(t: Tree<V>, entries: seq<(string, V)>): (r: Tree<V>)
    requires HeightsNonNegative(t)
    ensures HeightsNonNegative(r)
    decreases |entries|
  {
    if entries == [] then t else PutAll(Put(t, entries[0].0, entries[0].1), entries[1..])
  }

  /** The value of the last pair with key `k`, if there is one. */
  function LastValue<V>(entries: seq<(string, V)>, k: string): Option<V>
  {
    if entries == [] then None
    else
      var later := LastValue(entries[1..], k);
      if later.Some? then later
      else if entries[0].0 == k then Some(entries[0].1)
      else None
  }

  /** Starting from an AVL search tree, any sequence of `put` calls leaves
      an AVL search tree in which `get` returns the most recent value put
      under the key, and what it returned before for keys never put. */
  lemma {:induction false} PutAllCorrect<V>(t: Tree<V>, entries: seq<(string, V)>, x: string)
    requires IsAvl(t) && IsBst(t)
    ensures IsAvl(PutAll(t, entries)) && IsBst(PutAll(t, entries))
    ensures Get(PutAll(t, entries), x) == if LastValue(entries, x).Some? then LastValue(entries, x) else Get(t, x)
    decreases |entries|
  {
    if entries != [] {
      var (k, v) := entries[0];
      PutAvl(t, k, v);
      PutBst(t, k, v);
      PutGet(t, k, v, x);
      PutAllCorrect(Put(t, k, v), entries[1..], x);
    }
  }

  /** From the empty map: the invariants hold and `get` is the last value
      put, or `None` for a key never put. */
  lemma FromEmpty<V>(entries: seq<(string, V)>, x: string)
    ensures IsAvl(PutAll(Leaf, entries)) && IsBst(PutAll(Leaf, entries))
    ensures Get(PutAll(Leaf, entries), x) == LastValue(entries, x)
  {
    PutAllCorrect(Leaf, entries, x);
  }

  /** The ten `put` calls of the module's demonstration, keys written as
      strings. */
  const DemoEntries: seq<(string, string)> :=
    [("15", "bob"), ("20", "anna"), ("24", "tom"), ("10", "david"), ("13", "david"),
     ("7", "ben"), ("30", "karen"), ("36", "erin"), ("25", "david"), ("13", "nancy")]

  /** The three lookups of the demonstration: the second value put under
      13 wins. */
  lemma DemoLookups()
    ensures var tree := PutAll(Leaf, DemoEntries);
            Get(tree, "13") == Some("nancy") && Get(tree, "36") == Some("erin") && Get(tree, "7") == Some("ben")
  {
    FromEmpty(DemoEntries, "13");
    FromEmpty(DemoEntries, "36");
    FromEmpty(DemoEntries, "7");
    DemoLast13();
    DemoLast36();
    DemoLast7();
  }

  /** The last value put under each looked-up key. */
  lemma DemoLast13()
    ensures LastValue(DemoEntries, "13") == Some("nancy")
  {
    LastValueAt(DemoEntries, "13", 9);
  }

  lemma DemoLast36()
    ensures LastValue(DemoEntries, "36") == Some("erin")
  {
    assert DemoEntries[8].0[0] != '3' && DemoEntries[9].0[0] != '3';
    LastValueAt(DemoEntries, "36", 7);
  }

  lemma DemoLast7()
    ensures LastValue(DemoEntries, "7") == Some("ben")
  {
    forall j | 5 < j < |DemoEntries| ensures DemoEntries[j].0 != "7" {
      assert |DemoEntries[j].0| == 2;
    }
    LastValueAt(DemoEntries, "7", 5);
  }

  /** The value of the last pair with key `k` is the value at `i` when no
      later pair has key `k`. */
  lemma {:induction false} LastValueAt<V>(entries: seq<(string, V)>, k: string, i: int)
    requires 0 <= i < |entries| && entries[i].0 == k
    requires forall j :: i < j < |entries| ==> entries[j].0 != k
    ensures LastValue(entries, k) == Some(entries[i].1)
    decreases i
  {
    if i > 0 {
      LastValueAt(entries[1..], k, i - 1);
    } else {
      LastValueAbsent(entries[1..], k);
    }
  }

  /** No pair with key `k`, no value. */
  lemma {:induction false} LastValueAbsent<V>(entries: seq<(string, V)>, k: string)
    requires forall j :: 0 <= j < |entries| ==> entries[j].0 != k
    ensures LastValue(entries, k) == None
    decreases |entries|
  {
    if entries != [] {
      LastValueAbsent(entries[1..], k);
    }
  }
}
