/**
 * smirnov's `AvlTree<Key, Value, Compare>` (S4/avlTree.hpp): an AVL map
 * whose nodes store their heights, with an absent child counting 0.
 *
 * A `Link` is a `Node<Key, Value> *`: `Null` or a node with its stored
 * height. The recursive private members (`updateHeight`, the rotations,
 * `balance`, `addOrGet`, `findNode`) are functions on links; each is shown
 * to do to the height-free shape what module BiTreeBalance specifies, so
 * the ordering, AVL and in-order facts proved there carry over. The class
 * holds `root_` and `size_` and performs the public operations.
 */
module SmirnovAvl {
  import B = BiTreeBalance
  import opened Wrappers

  datatype Link<V> = Null | Node(left: Link<V>, key: int, value: V, right: Link<V>, height: int)

  /** The tree without its stored heights. */
  function Forget<V>(t: Link<V>): B.Subtree<V>
  {
    match t
    case Null => B.Nil
    case Node(l, k, v, r, _) => B.Node(Forget(l), k, v, Forget(r))
  }

  /** height: the stored field, 0 for an absent node. */
  function Height<V>(t: Link<V>): int
  {
    if t.Null? then 0 else t.height
  }

  /** Every stored height is one more than the larger stored height of the children. */
  ghost predicate HeightsOk<V>(t: Link<V>)
  {
    match t
    case Null => true
    case Node(l, _, _, r, h) => HeightsOk(l) && HeightsOk(r) && h == 1 + B.Max(Height(l), Height(r))
  }

  /** Correct stored heights are the recomputed heights shifted by one: absent 0 here, -1 there. */
  lemma {:induction false} StoredHeight<V>(t: Link<V>)
    requires HeightsOk(t)
    ensures Height(t) == B.Height(Forget(t)) + 1
    ensures Height(t) >= 0 && (Height(t) == 0 <==> t.Null?)
  {
    if t.Node? {
      StoredHeight(t.left);
      StoredHeight(t.right);
    }
  }

  /** updateHeight: one more than the larger child height; nothing else changes. */
  function UpdateHeight<V>(t: Link<V>): (r: Link<V>)
    requires t.Node?
    ensures r.Node? && r.left == t.left && r.key == t.key && r.value == t.value && r.right == t.right
    ensures Forget(r) == Forget(t)
    ensures r.height == 1 + B.Max(Height(t.left), Height(t.right))
    ensures HeightsOk(t.left) && HeightsOk(t.right) ==> HeightsOk(r)
  {
    var lh := Height(t.left);
    var rh := Height(t.right);
    t.(height := if lh > rh then lh + 1 else rh + 1)
  }

  /** getBalanceFactor: left height minus right height, both from the stored fields. */
  function BalanceFactor<V>(t: Link<V>): int
    requires t.Node?
  {
    Height(t.left) - Height(t.right)
  }

  /** With correct heights below a node, its stored balance factor is the recomputed one. */
  lemma BalanceFactorAgrees<V>(t: Link<V>)
    requires t.Node? && HeightsOk(t.left) && HeightsOk(t.right)
    ensures BalanceFactor(t) == B.BalanceFactor(Forget(t))
  {
    StoredHeight(t.left);
    StoredHeight(t.right);
  }

  /** rotateLeft: the right child becomes the top, and the heights of the two moved nodes are recomputed. */
  function RotateLeft<V>(t: Link<V>): (r: Link<V>)
    requires t.Node? && t.right.Node?
    ensures Forget(t).right.Node? && Forget(r) == B.RotateLeft(Forget(t))
    ensures HeightsOk(t.left) && HeightsOk(t.right) ==> HeightsOk(r)
  {
    var y := t.right;
    var x := UpdateHeight(t.(right := y.left));
    UpdateHeight(y.(left := x))
  }

  /** rotateRight: the mirror image. */
  function RotateRight<V>(t: Link<V>): (r: Link<V>)
    requires t.Node? && t.left.Node?
    ensures Forget(t).left.Node? && Forget(r) == B.RotateRight(Forget(t))
    ensures HeightsOk(t.left) && HeightsOk(t.right) ==> HeightsOk(r)
  {
    var y := t.left;
    var x := UpdateHeight(t.(left := y.right));
    UpdateHeight(y.(right := x))
  }

  /**
   * balance: recompute the height, then a single or double rotation when
   * the balance factor leaves [-1, 1]. With correct heights below the node
   * it makes the same choices as the recomputing `balance` of module
   * BiTreeBalance, and its result carries correct heights.
   */
  function Balance<V>(t: Link<V>): (r: Link<V>)
    requires t.Node? && HeightsOk(t.left) && HeightsOk(t.right)
    ensures HeightsOk(r)
    ensures Forget(r) == B.Balanced(Forget(t))
  {
    var n := UpdateHeight(t);
    var bf := BalanceFactor(n);
    BalanceFactorAgrees(n);
    StoredHeight(n.left);
    StoredHeight(n.right);
    if bf > 1 then
      BalanceFactorAgrees(n.left);
      StoredHeight(n.left.left);
      StoredHeight(n.left.right);
      if BalanceFactor(n.left) < 0 then RotateRight(n.(left := RotateLeft(n.left))) else RotateRight(n)
    else if bf < -1 then
      BalanceFactorAgrees(n.right);
      StoredHeight(n.right.left);
      StoredHeight(n.right.right);
      if BalanceFactor(n.right) > 0 then RotateLeft(n.(right := RotateRight(n.right))) else RotateLeft(n)
    else n
  }

  // ---------------------------------------------------------------------
  // Insert-or-assign

  /**
   * The shape `addOrGet` produces: the AVL insertion of module
   * BiTreeBalance, except that an equivalent key gets the new value.
   */
  ghost function Put<V>(t: B.Subtree<V>, k: int, v: V): B.Subtree<V>
  {
    match t
    case Nil => B.Node(B.Nil, k, v, B.Nil)
    case Node(l, key, val, r) =>
      if k < key then B.Balanced(B.Node(Put(l, k, v), key, val, r))
      else if key < k then B.Balanced(B.Node(l, key, val, Put(r, k, v)))
      else B.Balanced(B.Node(l, key, v, r))
  }

  /**
   * addOrGet: descend by key order; create a node (and count it) at an
   * empty place, or overwrite the value of an equivalent key; rebalance
   * every node on the way back up.
   */
  function AddOrGet<V>(t: Link<V>, k: int, v: V): (r: (Link<V>, bool))
    requires HeightsOk(t)
    ensures HeightsOk(r.0)
    ensures Forget(r.0) == Put(Forget(t), k, v)
    ensures B.Ordered(Forget(t)) ==> (r.1 <==> k !in B.Keys(Forget(t)))
  {
    match t
    case Null => (Node(Null, k, v, Null, 1), true)
    case Node(l, key, _, rt, _) =>
      if k < key then
        var (nl, added) := AddOrGet(l, k, v);
        (Balance(t.(left := nl)), added)
      else if key < k then
        var (nr, added) := AddOrGet(rt, k, v);
        (Balance(t.(right := nr)), added)
      else
        (Balance(t.(value := v)), false)
  }

  /** The tree with the value at key k replaced, shape untouched. */
  ghost function SetValue<V>(t: B.Subtree<V>, k: int, v: V): B.Subtree<V>
  {
    match t
    case Nil => B.Nil
    case Node(l, key, val, r) =>
      if k < key then B.Node(SetValue(l, k, v), key, val, r)
      else if key < k then B.Node(l, key, val, SetValue(r, k, v))
      else B.Node(l, key, v, r)
  }

  lemma {:induction false} SetValueKeeps<V>(t: B.Subtree<V>, k: int, v: V)
    requires B.Ordered(t) && B.Avl(t)
    ensures B.Keys(SetValue(t, k, v)) == B.Keys(t)
    ensures B.Height(SetValue(t, k, v)) == B.Height(t)
    ensures B.Ordered(SetValue(t, k, v)) && B.Avl(SetValue(t, k, v))
  {
    match t
    case Nil =>
    case Node(l, key, val, r) =>
      SetValueKeeps(l, k, v);
      SetValueKeeps(r, k, v);
  }

  lemma {:induction false} SetValueItems<V>(t: B.Subtree<V>, k: int, v: V)
    requires B.Ordered(t) && k in B.Keys(t)
    ensures B.Items(SetValue(t, k, v)) == B.Below(B.Items(t), k) + [(k, v)] + B.Above(B.Items(t), k)
  {
    var l, key, val, r := t.left, t.key, t.value, t.right;
    B.FilterNode(t, k);
    if k < key {
      SetValueItems(l, k, v);
    } else if key < k {
      SetValueItems(r, k, v);
    }
  }

  /** With the key present, `addOrGet` only overwrites: every node on the path is already balanced. */
  lemma {:induction false} PutPresent<V>(t: B.Subtree<V>, k: int, v: V)
    requires B.Ordered(t) && B.Avl(t) && k in B.Keys(t)
    ensures Put(t, k, v) == SetValue(t, k, v)
  {
    var l, key, val, r := t.left, t.key, t.value, t.right;
    if k < key {
      PutPresent(l, k, v);
      SetValueKeeps(l, k, v);
      B.BalancedIsAvl(B.Node(SetValue(l, k, v), key, val, r));
    } else if key < k {
      PutPresent(r, k, v);
      SetValueKeeps(r, k, v);
      B.BalancedIsAvl(B.Node(l, key, val, SetValue(r, k, v)));
    } else {
      B.BalancedIsAvl(B.Node(l, key, v, r));
    }
  }

  /** With the key absent, `addOrGet` is the AVL insertion. */
  lemma {:induction false} PutAbsent<V>(t: B.Subtree<V>, k: int, v: V)
    requires k !in B.Keys(t)
    ensures Put(t, k, v) == B.Inserted(t, k, v)
  {
    match t
    case Nil =>
    case Node(l, key, val, r) =>
      if k < key {
        PutAbsent(l, k, v);
      } else {
        PutAbsent(r, k, v);
      }
  }

  /**
   * What `addOrGet` promises on an AVL search tree: it stays one; the keys
   * become the old keys plus k; the in-order sequence is the old one with
   * k's entry replaced or added, so it stays strictly increasing; and the
   * height grows by at most one.
   */
  lemma PutCorrect<V>(t: B.Subtree<V>, k: int, v: V)
    requires B.Ordered(t) && B.Avl(t)
    ensures B.Ordered(Put(t, k, v)) && B.Avl(Put(t, k, v))
    ensures B.Keys(Put(t, k, v)) == B.Keys(t) + {k}
    ensures B.Items(Put(t, k, v)) == B.Below(B.Items(t), k) + [(k, v)] + B.Above(B.Items(t), k)
    ensures |B.Items(Put(t, k, v))| == |B.Items(t)| + (if k in B.Keys(t) then 0 else 1)
    ensures B.StrictlyIncreasing(B.Items(Put(t, k, v)))
    ensures B.Height(t) <= B.Height(Put(t, k, v)) <= B.Height(t) + 1
  {
    B.FilterSizes(t, k);
    if k in B.Keys(t) {
      PutPresent(t, k, v);
      SetValueKeeps(t, k, v);
      SetValueItems(t, k, v);
    } else {
      PutAbsent(t, k, v);
      B.InsertedCorrect(t, k, v);
    }
    B.OrderedItemsIncrease(Put(t, k, v));
  }

  /** `balance` on a node whose subtrees are AVL and differ in height by at most two yields an AVL tree with the same in-order sequence. */
  lemma BalanceRestoresAvl<V>(t: Link<V>)
    requires t.Node? && HeightsOk(t.left) && HeightsOk(t.right)
    requires B.Avl(Forget(t.left)) && B.Avl(Forget(t.right))
    requires -2 <= BalanceFactor(t) <= 2
    ensures B.Avl(Forget(Balance(t))) && HeightsOk(Balance(t))
    ensures B.Items(Forget(Balance(t))) == B.Items(Forget(t))
    ensures B.Ordered(Forget(t)) ==> B.Ordered(Forget(Balance(t)))
  {
    BalanceFactorAgrees(t);
    B.BalancedIsAvl(Forget(t));
    if B.Ordered(Forget(t)) {
      B.BalancedOrdered(Forget(t));
    }
  }

  // ---------------------------------------------------------------------
  // Lookups

  /** findNode: the node holding an equivalent key, or Null. */
  function FindNode<V>(t: Link<V>, k: int): (r: Link<V>)
    ensures r.Node? ==> r.key == k && (k, r.value) in B.Items(Forget(t))
    ensures B.Ordered(Forget(t)) ==> (r.Node? <==> k in B.Keys(Forget(t)))
  {
    match t
    case Null => Null
    case Node(l, key, _, rt, _) =>
      if k < key then FindNode(l, k)
      else if key < k then FindNode(rt, k)
      else t
  }

  /** In an ordered tree the in-order sequence holds at most one entry per key. */
  lemma ItemOfKey<V>(t: B.Subtree<V>, k: int, v: V, w: V)
    requires B.Ordered(t) && (k, v) in B.Items(t) && (k, w) in B.Items(t)
    ensures v == w
  {
    B.OrderedItemsIncrease(t);
    var s := B.Items(t);
    var i :| 0 <= i < |s| && s[i] == (k, v);
    var j :| 0 <= j < |s| && s[j] == (k, w);
    assert i == j;
  }

  /** minNode: follow left children from the node down. */
  method MinNode<V>(t: Link<V>) returns (r: Link<V>)
    ensures r.Null? <==> t.Null?
    ensures r.Node? ==> r.left.Null? && B.Items(Forget(t))[0] == (r.key, r.value)
  {
    if t.Null? {
      return Null;
    }
    r := t;
    while r.left.Node?
      invariant r.Node? && B.Items(Forget(r))[0] == B.Items(Forget(t))[0]
      decreases r
    {
      assert B.Items(Forget(r)) == B.Items(Forget(r.left)) + [(r.key, r.value)] + B.Items(Forget(r.right));
      r := r.left;
    }
  }

  // ---------------------------------------------------------------------
  // The container

  class AvlTree<V> {
    var root: Link<V>
    var size: nat

    ghost predicate Valid()
      reads this
    {
      HeightsOk(root) && B.Ordered(Forget(root)) && B.Avl(Forget(root)) && size == |B.Items(Forget(root))|
    }

    /** The key-value pairs in iteration order. */
    ghost function Contents(): seq<B.Item<V>>
      reads this
    {
      B.Items(Forget(root))
    }

    /** The empty tree: no root, size 0. */
    constructor ()
      ensures Valid() && root == Null && size == 0
    {
      root := Null;
      size := 0;
    }

    /** The move constructor: take other's root and size and leave it empty. */
    constructor Move(other: AvlTree<V>)
      modifies other
      ensures root == old(other.root) && size == old(other.size)
      ensures other.root == Null && other.size == 0
      ensures old(other.Valid()) ==> Valid() && other.Valid()
    {
      root := other.root;
      size := other.size;
      new;
      other.root := Null;
      other.size := 0;
    }

    function Empty(): (r: bool)
      reads this
      requires Valid()
      ensures r <==> Contents() == []
    {
      size == 0
    }

    function Size(): (r: nat)
      reads this
      requires Valid()
      ensures r == |Contents()|
    {
      size
    }

    method Clear()
      modifies this
      ensures Valid() && root == Null && size == 0
    {
      root := Null;
      size := 0;
    }

    method Swap(other: AvlTree<V>)
      modifies this, other
      ensures root == old(other.root) && size == old(other.size)
      ensures other.root == old(root) && other.size == old(size)
    {
      root, other.root := other.root, root;
      size, other.size := other.size, size;
    }

    /**
     * operator[]: `addOrGet(root_, key, Value(), size_)` and return the
     * value now stored at key. It is `blank`, the default value, whether or
     * not the key was present, and every other entry is kept.
     */
    method Index(key: int, blank: V) returns (v: V)
      requires Valid()
      modifies this
      ensures Valid()
      ensures v == blank
      ensures Forget(root) == Put(old(Forget(root)), key, blank)
      ensures Contents() == B.Below(old(Contents()), key) + [(key, blank)] + B.Above(old(Contents()), key)
      ensures size == old(size) + (if key in old(B.Keys(Forget(root))) then 0 else 1)
    {
      var t := root;
      var r := AddOrGet(t, key, blank);
      PutCorrect(Forget(t), key, blank);
      root := r.0;
      if r.1 {
        size := size + 1;
      }
      var node := FindNode(root, key);
      ItemOfKey(Forget(root), key, node.value, blank);
      v := node.value;
    }

    /** at, both overloads, and the const operator[]: the stored value, or out_of_range. */
    method At(key: int) returns (r: Result<V>)
      requires Valid()
      ensures r.Ok? <==> key in B.Keys(Forget(root))
      ensures r.Ok? ==> (key, r.value) in Contents()
      ensures r.Err? ==> r.message == "Key not found"
    {
      var node := FindNode(root, key);
      if node.Null? {
        return Err("Key not found");
      }
      return Ok(node.value);
    }

    /** find: the entry with an equivalent key, or None for `cend()`. */
    method Find(key: int) returns (r: Option<B.Item<V>>)
      requires Valid()
      ensures r.None? <==> key !in B.Keys(Forget(root))
      ensures r.Some? ==> r.value.0 == key && r.value in Contents()
    {
      var node := FindNode(root, key);
      if node.Null? {
        return None;
      }
      return Some((node.key, node.value));
    }

    /** cbegin: the entry at the leftmost node, or None for an empty tree. */
    method CBegin() returns (r: Option<B.Item<V>>)
      requires Valid()
      ensures r.None? <==> Contents() == []
      ensures r.Some? ==> r.value == Contents()[0]
      ensures r.Some? ==> forall x :: x in B.Keys(Forget(root)) ==> r.value.0 <= x
    {
      var node := MinNode(root);
      if node.Null? {
        return None;
      }
      r := Some((node.key, node.value));
      B.OrderedItemsIncrease(Forget(root));
      forall x | x in B.Keys(Forget(root))
        ensures r.value.0 <= x
      {
        B.KeysHaveItems(Forget(root), x);
      }
    }
  }
}
