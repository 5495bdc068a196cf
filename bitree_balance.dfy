/**
 * The AVL engine of averenkov's `Tree<Key, Value, Compare>` (S4/BiTree.hpp):
 * heights, balance factors, the two rotations and `balance`, together with
 * the specifications of insertion and deletion that the imperative tree in
 * module BiTree is proved against.
 *
 * Keys are `int` and `Compare` is `<`. A subtree is a value; `Nil` stands for
 * every position where the source holds `fake_root` or `nullptr`.
 */
module BiTreeBalance {

  datatype Subtree<V> = Nil | Node(left: Subtree<V>, key: int, value: V, right: Subtree<V>)

  /** What dereferencing an iterator yields: `std::pair<Key, Value>`. */
  type Item<V> = (int, V)

  function Max(a: int, b: int): int
  {
    if a < b then b else a
  }

  /** get_height: an absent child has height -1, a leaf height 0. */
  function Height<V>(t: Subtree<V>): (h: int)
    ensures h >= -1
    ensures h == -1 <==> t.Nil?
  {
    match t
    case Nil => -1
    case Node(l, _, _, r) => 1 + Max(Height(l), Height(r))
  }

  /** get_balance_factor: left height minus right height, 0 for an absent node. */
  function BalanceFactor<V>(t: Subtree<V>): int
  {
    match t
    case Nil => 0
    case Node(l, _, _, r) => Height(l) - Height(r)
  }

  ghost function Keys<V>(t: Subtree<V>): set<int>
  {
    match t
    case Nil => {}
    case Node(l, k, _, r) => Keys(l) + {k} + Keys(r)
  }

  /** The in-order sequence an iterator walks from `begin()` to `end()`. */
  function Items<V>(t: Subtree<V>): seq<Item<V>>
  {
    match t
    case Nil => []
    case Node(l, k, v, r) => Items(l) + [(k, v)] + Items(r)
  }

  /** Binary-search-tree ordering under `Compare`. */
  ghost predicate Ordered<V>(t: Subtree<V>)
  {
    match t
    case Nil => true
    case Node(l, k, _, r) =>
      Ordered(l) && Ordered(r)
      && (forall x :: x in Keys(l) ==> x < k)
      && (forall x :: x in Keys(r) ==> k < x)
  }

  /** The AVL condition: every node's balance factor is -1, 0 or 1. */
  ghost predicate Avl<V>(t: Subtree<V>)
  {
    match t
    case Nil => true
    case Node(l, _, _, r) => Avl(l) && Avl(r) && -1 <= Height(l) - Height(r) <= 1
  }

  ghost predicate StrictlyIncreasing<V>(s: seq<Item<V>>)
  {
    forall i, j :: 0 <= i < j < |s| ==> s[i].0 < s[j].0
  }

  /** rotate_right: the left child becomes the top; a node without a left child is returned as it is. */
  function RotateRight<V>(t: Subtree<V>): (r: Subtree<V>)
    ensures Items(r) == Items(t)
    ensures Keys(r) == Keys(t)
    ensures t.Node? && t.left.Node? ==> r.key == t.left.key
  {
    match t
    case Node(Node(a, xk, xv, b), yk, yv, c) => Node(a, xk, xv, Node(b, yk, yv, c))
    case _ => t
  }

  /** rotate_left: the right child becomes the top. The source dereferences that child, so it must exist. */
  function RotateLeft<V>(t: Subtree<V>): (r: Subtree<V>)
    requires t.Node? ==> t.right.Node?
    ensures Items(r) == Items(t)
    ensures Keys(r) == Keys(t)
    ensures t.Node? ==> r.key == t.right.key
  {
    if t.Nil? then t
    else
      var y := t.right;
      Node(Node(t.left, t.key, t.value, y.left), y.key, y.value, y.right)
  }

  /** balance: the four AVL cases, selected by the node's and the heavy child's balance factor. */
  function Balanced<V>(t: Subtree<V>): (r: Subtree<V>)
    ensures Items(r) == Items(t)
    ensures Keys(r) == Keys(t)
  {
    if t.Nil? then t
    else if BalanceFactor(t) > 1 then
      if BalanceFactor(t.left) >= 0 then RotateRight(t)
      else RotateRight(t.(left := RotateLeft(t.left)))
    else if BalanceFactor(t) < -1 then
      if BalanceFactor(t.right) <= 0 then RotateLeft(t)
      else RotateLeft(t.(right := RotateRight(t.right)))
    else t
  }

  // ---------------------------------------------------------------------
  // Ordering and the in-order sequence

  lemma RotateRightOrdered<V>(t: Subtree<V>)
    requires Ordered(t)
    ensures Ordered(RotateRight(t))
  {
    if t.Node? && t.left.Node? {
      var Node(Node(a, xk, xv, b), yk, yv, c) := t;
      assert xk in Keys(t.left);
      var inner := Node(b, yk, yv, c);
      assert Ordered(inner);
      assert forall z :: z in Keys(inner) ==> z in Keys(b) || z == yk || z in Keys(c);
    }
  }

  lemma RotateLeftOrdered<V>(t: Subtree<V>)
    requires t.Node? ==> t.right.Node?
    requires Ordered(t)
    ensures Ordered(RotateLeft(t))
  {
    if t.Node? {
      var Node(a, xk, xv, Node(b, yk, yv, c)) := t;
      assert yk in Keys(t.right);
      var inner := Node(a, xk, xv, b);
      assert Ordered(inner);
      assert forall z :: z in Keys(inner) ==> z in Keys(a) || z == xk || z in Keys(b);
    }
  }

  /** balance keeps the search-tree ordering. */
  lemma BalancedOrdered<V>(t: Subtree<V>)
    requires Ordered(t)
    ensures Ordered(Balanced(t))
  {
    if t.Node? {
      if BalanceFactor(t) > 1 {
        if BalanceFactor(t.left) >= 0 {
          RotateRightOrdered(t);
        } else {
          RotateLeftOrdered(t.left);
          RotateRightOrdered(t.(left := RotateLeft(t.left)));
        }
      } else if BalanceFactor(t) < -1 {
        if BalanceFactor(t.right) <= 0 {
          RotateLeftOrdered(t);
        } else {
          RotateRightOrdered(t.right);
          RotateLeftOrdered(t.(right := RotateRight(t.right)));
        }
      }
    }
  }

  lemma {:induction false} ItemKeysInKeys<V>(t: Subtree<V>)
    ensures forall i :: 0 <= i < |Items(t)| ==> Items(t)[i].0 in Keys(t)
  {
    match t
    case Nil =>
    case Node(l, k, v, r) =>
      ItemKeysInKeys(l);
      ItemKeysInKeys(r);
      var s := Items(t);
      forall i | 0 <= i < |s|
        ensures s[i].0 in Keys(t)
      {
        if i < |Items(l)| {
          assert s[i] == Items(l)[i];
        } else if i > |Items(l)| {
          assert s[i] == Items(r)[i - |Items(l)| - 1];
        }
      }
  }

  lemma {:induction false} KeysHaveItems<V>(t: Subtree<V>, x: int)
    requires x in Keys(t)
    ensures exists i :: 0 <= i < |Items(t)| && Items(t)[i].0 == x
  {
    var Node(l, k, v, r) := t;
    var s := Items(t);
    assert s == Items(l) + [(k, v)] + Items(r);
    if x in Keys(l) {
      KeysHaveItems(l, x);
      var i :| 0 <= i < |Items(l)| && Items(l)[i].0 == x;
      assert s[i] == Items(l)[i];
    } else if x == k {
      assert s[|Items(l)|] == (k, v);
    } else {
      KeysHaveItems(r, x);
      var i :| 0 <= i < |Items(r)| && Items(r)[i].0 == x;
      assert s[|Items(l)| + 1 + i] == Items(r)[i];
    }
  }

  /** An ordered tree's in-order walk visits the keys in strictly increasing order. */
  lemma {:induction false} OrderedItemsIncrease<V>(t: Subtree<V>)
    requires Ordered(t)
    ensures StrictlyIncreasing(Items(t))
  {
    match t
    case Nil =>
    case Node(l, k, v, r) =>
      OrderedItemsIncrease(l);
      OrderedItemsIncrease(r);
      ItemKeysInKeys(l);
      ItemKeysInKeys(r);
      var s := Items(t);
      var n := |Items(l)|;
      forall i, j | 0 <= i < j < |s|
        ensures s[i].0 < s[j].0
      {
        if j < n {
          assert s[i] == Items(l)[i] && s[j] == Items(l)[j];
        } else if i > n {
          assert s[i] == Items(r)[i - n - 1] && s[j] == Items(r)[j - n - 1];
        } else {
          var ki := if i < n then Items(l)[i].0 else k;
          var kj := if j > n then Items(r)[j - n - 1].0 else k;
          assert s[i].0 == ki && s[j].0 == kj;
        }
      }
  }

  // ---------------------------------------------------------------------
  // balance restores the AVL condition

  lemma BalancedLeftHeavy<V>(t: Subtree<V>)
    requires t.Node? && Avl(t.left) && Avl(t.right)
    requires Height(t.left) - Height(t.right) == 2
    ensures Avl(Balanced(t))
    ensures Height(t.left) <= Height(Balanced(t)) <= Height(t.left) + 1
  {
    var Node(l, yk, yv, c) := t;
    var Node(a, xk, xv, b) := l;
    var hc := Height(c);
    if BalanceFactor(l) >= 0 {
      var inner := Node(b, yk, yv, c);
      assert Balanced(t) == Node(a, xk, xv, inner);
      assert Height(a) == hc + 1;
      assert Avl(inner);
    } else {
      var Node(b1, zk, zv, b2) := b;
      assert Height(b) == hc + 1 && Height(a) == hc;
      var lo := Node(a, xk, xv, b1);
      var hi := Node(b2, yk, yv, c);
      assert RotateLeft(l) == Node(lo, zk, zv, b2);
      assert Balanced(t) == Node(lo, zk, zv, hi);
      assert Avl(lo) && Height(lo) == hc + 1;
      assert Avl(hi) && Height(hi) == hc + 1;
    }
  }

  lemma BalancedRightHeavy<V>(t: Subtree<V>)
    requires t.Node? && Avl(t.left) && Avl(t.right)
    requires Height(t.right) - Height(t.left) == 2
    ensures Avl(Balanced(t))
    ensures Height(t.right) <= Height(Balanced(t)) <= Height(t.right) + 1
  {
    var Node(c, xk, xv, r) := t;
    var Node(b, yk, yv, a) := r;
    var hc := Height(c);
    if BalanceFactor(r) <= 0 {
      var inner := Node(c, xk, xv, b);
      assert Balanced(t) == Node(inner, yk, yv, a);
      assert Height(a) == hc + 1;
      assert Avl(inner);
    } else {
      var Node(b1, zk, zv, b2) := b;
      assert Height(b) == hc + 1 && Height(a) == hc;
      var lo := Node(c, xk, xv, b1);
      var hi := Node(b2, yk, yv, a);
      assert RotateRight(r) == Node(b1, zk, zv, hi);
      assert Balanced(t) == Node(lo, zk, zv, hi);
      assert Avl(lo) && Height(lo) == hc + 1;
      assert Avl(hi) && Height(hi) == hc + 1;
    }
  }

  /**
   * Applied to a node whose subtrees are AVL and differ in height by at most
   * two, `balance` yields an AVL tree no lower than the taller child and at
   * most one level higher; an already balanced node is returned unchanged.
   */
  lemma BalancedIsAvl<V>(t: Subtree<V>)
    requires t.Node? && Avl(t.left) && Avl(t.right)
    requires -2 <= Height(t.left) - Height(t.right) <= 2
    ensures Avl(Balanced(t))
    ensures Max(Height(t.left), Height(t.right)) <= Height(Balanced(t)) <= 1 + Max(Height(t.left), Height(t.right))
    ensures -1 <= Height(t.left) - Height(t.right) <= 1 ==> Balanced(t) == t
  {
    if Height(t.left) - Height(t.right) == 2 {
      BalancedLeftHeavy(t);
    } else if Height(t.right) - Height(t.left) == 2 {
      BalancedRightHeavy(t);
    }
  }

  // ---------------------------------------------------------------------
  // Filtering the in-order sequence by key

  lemma AppendAssoc<T>(a: seq<T>, b: seq<T>, c: seq<T>)
    ensures a + (b + c) == (a + b) + c
  {
  }

  /** The items whose key is below k. */
  function Below<V>(s: seq<Item<V>>, k: int): seq<Item<V>>
  {
    if s == [] then []
    else if s[0].0 < k then [s[0]] + Below(s[1..], k)
    else Below(s[1..], k)
  }

  /** The items whose key is above k. */
  function Above<V>(s: seq<Item<V>>, k: int): seq<Item<V>>
  {
    if s == [] then []
    else if k < s[0].0 then [s[0]] + Above(s[1..], k)
    else Above(s[1..], k)
  }

  lemma {:induction false} BelowAppend<V>(a: seq<Item<V>>, b: seq<Item<V>>, k: int)
    ensures Below(a + b, k) == Below(a, k) + Below(b, k)
  {
    if a != [] {
      assert (a + b)[0] == a[0] && (a + b)[1..] == a[1..] + b;
      BelowAppend(a[1..], b, k);
      if a[0].0 < k {
        AppendAssoc([a[0]], Below(a[1..], k), Below(b, k));
      }
    } else {
      assert a + b == b;
    }
  }

  lemma {:induction false} AboveAppend<V>(a: seq<Item<V>>, b: seq<Item<V>>, k: int)
    ensures Above(a + b, k) == Above(a, k) + Above(b, k)
  {
    if a != [] {
      assert (a + b)[0] == a[0] && (a + b)[1..] == a[1..] + b;
      AboveAppend(a[1..], b, k);
      if k < a[0].0 {
        AppendAssoc([a[0]], Above(a[1..], k), Above(b, k));
      }
    } else {
      assert a + b == b;
    }
  }

  lemma {:induction false} AllBelow<V>(s: seq<Item<V>>, k: int)
    requires forall i :: 0 <= i < |s| ==> s[i].0 < k
    ensures Below(s, k) == s && Above(s, k) == []
  {
    if s != [] {
      AllBelow(s[1..], k);
      assert s == [s[0]] + s[1..];
    }
  }

  lemma {:induction false} AllAbove<V>(s: seq<Item<V>>, k: int)
    requires forall i :: 0 <= i < |s| ==> k < s[i].0
    ensures Above(s, k) == s && Below(s, k) == []
  {
    if s != [] {
      AllAbove(s[1..], k);
      assert s == [s[0]] + s[1..];
    }
  }

  /** A subtree whose keys all lie below k is kept whole by Below and dropped by Above. */
  lemma KeysBelow<V>(t: Subtree<V>, k: int)
    requires forall x :: x in Keys(t) ==> x < k
    ensures Below(Items(t), k) == Items(t) && Above(Items(t), k) == []
  {
    ItemKeysInKeys(t);
    AllBelow(Items(t), k);
  }

  /** A subtree whose keys all lie above k is kept whole by Above and dropped by Below. */
  lemma KeysAbove<V>(t: Subtree<V>, k: int)
    requires forall x :: x in Keys(t) ==> k < x
    ensures Above(Items(t), k) == Items(t) && Below(Items(t), k) == []
  {
    ItemKeysInKeys(t);
    AllAbove(Items(t), k);
  }

  /** Below and Above of an ordered tree, split at a node. */
  lemma FilterNode<V>(t: Subtree<V>, k: int)
    requires t.Node? && Ordered(t)
    ensures k < t.key ==>
              Below(Items(t), k) == Below(Items(t.left), k) &&
              Above(Items(t), k) == Above(Items(t.left), k) + [(t.key, t.value)] + Items(t.right)
    ensures t.key < k ==>
              Below(Items(t), k) == Items(t.left) + [(t.key, t.value)] + Below(Items(t.right), k) &&
              Above(Items(t), k) == Above(Items(t.right), k)
    ensures t.key == k ==> Below(Items(t), k) == Items(t.left) && Above(Items(t), k) == Items(t.right)
  {
    if k < t.key {
      FilterLeftOf(t, k);
    } else if t.key < k {
      FilterRightOf(t, k);
    } else {
      FilterAt(t);
    }
  }

  lemma FilterLeftOf<V>(t: Subtree<V>, k: int)
    requires t.Node? && Ordered(t) && k < t.key
    ensures Below(Items(t), k) == Below(Items(t.left), k)
    ensures Above(Items(t), k) == Above(Items(t.left), k) + [(t.key, t.value)] + Items(t.right)
  {
    var Node(l, key, v, r) := t;
    var left, item, right := Items(l), [(key, v)], Items(r);
    SplitFilters(left, item, right, k);
    AllAbove(item, k);
    KeysAbove(r, k);
  }

  lemma FilterRightOf<V>(t: Subtree<V>, k: int)
    requires t.Node? && Ordered(t) && t.key < k
    ensures Below(Items(t), k) == Items(t.left) + [(t.key, t.value)] + Below(Items(t.right), k)
    ensures Above(Items(t), k) == Above(Items(t.right), k)
  {
    var Node(l, key, v, r) := t;
    var left, item, right := Items(l), [(key, v)], Items(r);
    SplitFilters(left, item, right, k);
    AllBelow(item, k);
    KeysBelow(l, k);
  }

  lemma FilterAt<V>(t: Subtree<V>)
    requires t.Node? && Ordered(t)
    ensures Below(Items(t), t.key) == Items(t.left) && Above(Items(t), t.key) == Items(t.right)
  {
    var Node(l, key, v, r) := t;
    var left, item, right := Items(l), [(key, v)], Items(r);
    SplitFilters(left, item, right, key);
    assert Below(item, key) == [] && Above(item, key) == [];
    KeysBelow(l, key);
    KeysAbove(r, key);
  }

  /** Below and Above of a three-part sequence, part by part. */
  lemma SplitFilters<V>(a: seq<Item<V>>, b: seq<Item<V>>, c: seq<Item<V>>, k: int)
    ensures Below(a + b + c, k) == Below(a, k) + Below(b, k) + Below(c, k)
    ensures Above(a + b + c, k) == Above(a, k) + Above(b, k) + Above(c, k)
  {
    BelowAppend(a + b, c, k);
    BelowAppend(a, b, k);
    AboveAppend(a + b, c, k);
    AboveAppend(a, b, k);
  }

  /** Below and Above together miss exactly the item of k, if the tree has one. */
  lemma {:induction false} FilterSizes<V>(t: Subtree<V>, k: int)
    requires Ordered(t)
    ensures |Below(Items(t), k)| + |Above(Items(t), k)| + (if k in Keys(t) then 1 else 0) == |Items(t)|
  {
    match t
    case Nil =>
    case Node(l, key, v, r) =>
      FilterNode(t, k);
      if k < key {
        FilterSizes(l, k);
        assert k !in Keys(r);
      } else if key < k {
        FilterSizes(r, k);
        assert k !in Keys(l);
      } else {
        assert k !in Keys(l) && k !in Keys(r);
      }
  }

  // ---------------------------------------------------------------------
  // Insertion

  /** The tree `push(key, value)` leaves behind: the usual recursive AVL insertion, rebalancing every node on the way back up. */
  ghost function Inserted<V>(t: Subtree<V>, k: int, v: V): Subtree<V>
  {
    match t
    case Nil => Node(Nil, k, v, Nil)
    case Node(l, key, val, r) =>
      if k < key then Balanced(Node(Inserted(l, k, v), key, val, r))
      else if key < k then Balanced(Node(l, key, val, Inserted(r, k, v)))
      else t
  }

  lemma {:induction false} InsertedKeys<V>(t: Subtree<V>, k: int, v: V)
    ensures Keys(Inserted(t, k, v)) == Keys(t) + {k}
  {
    match t
    case Nil =>
    case Node(l, key, val, r) =>
      if k < key {
        InsertedKeys(l, k, v);
      } else if key < k {
        InsertedKeys(r, k, v);
      }
  }

  lemma {:induction false} InsertedOrdered<V>(t: Subtree<V>, k: int, v: V)
    requires Ordered(t)
    ensures Ordered(Inserted(t, k, v))
  {
    match t
    case Nil =>
    case Node(l, key, val, r) =>
      if k < key {
        InsertedOrdered(l, k, v);
        InsertedKeys(l, k, v);
        BalancedOrdered(Node(Inserted(l, k, v), key, val, r));
      } else if key < k {
        InsertedOrdered(r, k, v);
        InsertedKeys(r, k, v);
        BalancedOrdered(Node(l, key, val, Inserted(r, k, v)));
      }
  }

  lemma {:induction false} InsertedAvl<V>(t: Subtree<V>, k: int, v: V)
    requires Avl(t)
    ensures Avl(Inserted(t, k, v))
    ensures Height(t) <= Height(Inserted(t, k, v)) <= Height(t) + 1
  {
    match t
    case Nil =>
    case Node(l, key, val, r) =>
      if k < key {
        InsertedAvl(l, k, v);
        BalancedIsAvl(Node(Inserted(l, k, v), key, val, r));
      } else if key < k {
        InsertedAvl(r, k, v);
        BalancedIsAvl(Node(l, key, val, Inserted(r, k, v)));
      }
  }

  lemma {:induction false} InsertedPresent<V>(t: Subtree<V>, k: int, v: V)
    requires Ordered(t) && Avl(t) && k in Keys(t)
    ensures Inserted(t, k, v) == t
  {
    match t
    case Node(l, key, val, r) =>
      if k < key {
        InsertedPresent(l, k, v);
        BalancedIsAvl(t);
      } else if key < k {
        InsertedPresent(r, k, v);
        BalancedIsAvl(t);
      }
  }

  lemma {:induction false} InsertedItems<V>(t: Subtree<V>, k: int, v: V)
    requires Ordered(t) && k !in Keys(t)
    ensures Items(Inserted(t, k, v)) == Below(Items(t), k) + [(k, v)] + Above(Items(t), k)
  {
    match t
    case Nil =>
    case Node(l, key, val, r) =>
      var item, added := [(key, val)], [(k, v)];
      if k < key {
        InsertedItems(l, k, v);
        var n := Node(Inserted(l, k, v), key, val, r);
        assert Inserted(t, k, v) == Balanced(n);
        assert Items(n) == Below(Items(t), k) + added + Above(Items(t), k) by {
          FilterLeftOf(t, k);
          var front, a := Below(Items(l), k) + added, Above(Items(l), k);
          assert Items(n) == ((front + a) + item) + Items(r);
          AppendAssoc(front, a, item);
          AppendAssoc(front, a + item, Items(r));
        }
      } else {
        InsertedItems(r, k, v);
        var n := Node(l, key, val, Inserted(r, k, v));
        assert Inserted(t, k, v) == Balanced(n);
        assert Items(n) == Below(Items(t), k) + added + Above(Items(t), k) by {
          FilterRightOf(t, k);
          var front, b, a := Items(l) + item, Below(Items(r), k), Above(Items(r), k);
          assert Items(n) == front + ((b + added) + a);
          AppendAssoc(front, b + added, a);
          AppendAssoc(front, b, added);
        }
      }
  }

  /**
   * Insertion keeps an AVL search tree an AVL search tree, adds exactly the
   * new key, places the new item at its sorted position, leaves a present key
   * untouched, and grows the height by at most one.
   */
  lemma InsertedCorrect<V>(t: Subtree<V>, k: int, v: V)
    requires Ordered(t) && Avl(t)
    ensures Ordered(Inserted(t, k, v)) && Avl(Inserted(t, k, v))
    ensures Keys(Inserted(t, k, v)) == Keys(t) + {k}
    ensures k in Keys(t) ==> Inserted(t, k, v) == t
    ensures k !in Keys(t) ==> Items(Inserted(t, k, v)) == Below(Items(t), k) + [(k, v)] + Above(Items(t), k)
    ensures Height(t) <= Height(Inserted(t, k, v)) <= Height(t) + 1
  {
    InsertedKeys(t, k, v);
    InsertedOrdered(t, k, v);
    InsertedAvl(t, k, v);
    if k in Keys(t) {
      InsertedPresent(t, k, v);
    } else {
      InsertedItems(t, k, v);
    }
  }

  // ---------------------------------------------------------------------
  // Deletion

  /** The leftmost item of a subtree: where `erase` finds the in-order successor. */
  function MinItem<V>(t: Subtree<V>): Item<V>
    requires t.Node?
  {
    if t.left.Nil? then (t.key, t.value) else MinItem(t.left)
  }

  /** Removal of the leftmost node, rebalancing on the way back up. */
  ghost function DeleteMin<V>(t: Subtree<V>): Subtree<V>
    requires t.Node?
  {
    if t.left.Nil? then t.right
    else Balanced(Node(DeleteMin(t.left), t.key, t.value, t.right))
  }

  /** The tree erasing key k should leave behind: the removed node is replaced by its only child, or takes its successor's data. */
  ghost function Deleted<V>(t: Subtree<V>, k: int): Subtree<V>
  {
    match t
    case Nil => Nil
    case Node(l, key, val, r) =>
      if k < key then Balanced(Node(Deleted(l, k), key, val, r))
      else if key < k then Balanced(Node(l, key, val, Deleted(r, k)))
      else if l.Nil? then r
      else if r.Nil? then l
      else
        var m := MinItem(r);
        Balanced(Node(l, m.0, m.1, DeleteMin(r)))
  }

  /** The successor is the first item of the in-order sequence; removing it leaves the rest. */
  lemma {:induction false} DeleteMinItems<V>(t: Subtree<V>)
    requires t.Node?
    ensures Items(t) == [MinItem(t)] + Items(DeleteMin(t))
    ensures Keys(DeleteMin(t)) + {MinItem(t).0} == Keys(t)
  {
    if t.left.Node? {
      DeleteMinItems(t.left);
    }
  }

  lemma {:induction false} DeleteMinOrdered<V>(t: Subtree<V>)
    requires t.Node? && Ordered(t)
    ensures Ordered(DeleteMin(t))
    ensures MinItem(t).0 !in Keys(DeleteMin(t))
    ensures forall x :: x in Keys(DeleteMin(t)) ==> MinItem(t).0 < x
  {
    var Node(l, key, val, r) := t;
    if l.Node? {
      DeleteMinOrdered(l);
      DeleteMinItems(l);
      var m := MinItem(l).0;
      var d := DeleteMin(l);
      var n := Node(d, key, val, r);
      assert m in Keys(l) && Keys(d) <= Keys(l);
      assert Ordered(n);
      BalancedOrdered(n);
      assert DeleteMin(t) == Balanced(n) && MinItem(t).0 == m;
      assert Keys(DeleteMin(t)) == Keys(d) + {key} + Keys(r);
    }
  }

  lemma {:induction false} DeleteMinAvl<V>(t: Subtree<V>)
    requires t.Node? && Avl(t)
    ensures Avl(DeleteMin(t))
    ensures Height(t) - 1 <= Height(DeleteMin(t)) <= Height(t)
  {
    var Node(l, key, val, r) := t;
    if l.Node? {
      DeleteMinAvl(l);
      BalancedIsAvl(Node(DeleteMin(l), key, val, r));
    }
  }

  lemma {:induction false} DeletedKeys<V>(t: Subtree<V>, k: int)
    requires Ordered(t)
    ensures Keys(Deleted(t, k)) == Keys(t) - {k}
  {
    match t
    case Nil =>
    case Node(l, key, val, r) =>
      if k < key {
        DeletedKeys(l, k);
        var n := Node(Deleted(l, k), key, val, r);
        assert Deleted(t, k) == Balanced(n);
        assert k !in Keys(r);
      } else if key < k {
        DeletedKeys(r, k);
        var n := Node(l, key, val, Deleted(r, k));
        assert Deleted(t, k) == Balanced(n);
        assert k !in Keys(l);
      } else if l.Node? && r.Node? {
        DeleteMinItems(r);
        var m := MinItem(r);
        var n := Node(l, m.0, m.1, DeleteMin(r));
        assert Deleted(t, k) == Balanced(n);
        assert k !in Keys(l) && k !in Keys(r);
      } else {
        assert k !in Keys(l) && k !in Keys(r);
      }
  }

  lemma {:induction false} DeletedOrdered<V>(t: Subtree<V>, k: int)
    requires Ordered(t)
    ensures Ordered(Deleted(t, k))
  {
    match t
    case Nil =>
    case Node(l, key, val, r) =>
      if k < key {
        DeletedOrdered(l, k);
        DeletedKeys(l, k);
        BalancedOrdered(Node(Deleted(l, k), key, val, r));
      } else if key < k {
        DeletedOrdered(r, k);
        DeletedKeys(r, k);
        BalancedOrdered(Node(l, key, val, Deleted(r, k)));
      } else if l.Node? && r.Node? {
        DeleteMinItems(r);
        DeleteMinOrdered(r);
        var m := MinItem(r);
        assert m.0 in Keys(r);
        BalancedOrdered(Node(l, m.0, m.1, DeleteMin(r)));
      }
  }

  lemma {:induction false} DeletedAvl<V>(t: Subtree<V>, k: int)
    requires Avl(t)
    ensures Avl(Deleted(t, k))
    ensures Height(t) - 1 <= Height(Deleted(t, k)) <= Height(t)
  {
    match t
    case Nil =>
    case Node(l, key, val, r) =>
      if k < key {
        DeletedAvl(l, k);
        BalancedShrunk(Node(Deleted(l, k), key, val, r), Height(l), Height(r));
      } else if key < k {
        DeletedAvl(r, k);
        BalancedShrunk(Node(l, key, val, Deleted(r, k)), Height(l), Height(r));
      } else if l.Node? && r.Node? {
        DeleteMinAvl(r);
        var m := MinItem(r);
        BalancedShrunk(Node(l, m.0, m.1, DeleteMin(r)), Height(l), Height(r));
      }
  }

  /**
   * Rebalancing a node whose children are each at most one lower than those
   * of an AVL node with child heights hl and hr: an AVL tree that is at most
   * one lower than that node.
   */
  lemma BalancedShrunk<V>(n: Subtree<V>, hl: int, hr: int)
    requires n.Node? && Avl(n.left) && Avl(n.right) && -1 <= hl - hr <= 1
    requires hl - 1 <= Height(n.left) <= hl && hr - 1 <= Height(n.right) <= hr
    ensures Avl(Balanced(n))
    ensures Max(hl, hr) <= Height(Balanced(n)) <= 1 + Max(hl, hr)
  {
    BalancedIsAvl(n);
  }

  lemma {:induction false} DeletedAbsent<V>(t: Subtree<V>, k: int)
    requires Avl(t) && k !in Keys(t)
    ensures Deleted(t, k) == t
  {
    match t
    case Nil =>
    case Node(l, key, val, r) =>
      if k < key {
        DeletedAbsent(l, k);
        BalancedIsAvl(t);
      } else if key < k {
        DeletedAbsent(r, k);
        BalancedIsAvl(t);
      }
  }

  lemma DeletedRootItems<V>(t: Subtree<V>)
    requires t.Node? && t.left.Node? && t.right.Node?
    ensures Items(Deleted(t, t.key)) == Items(t.left) + Items(t.right)
  {
    var Node(l, key, val, r) := t;
    var m := MinItem(r);
    var n := Node(l, m.0, m.1, DeleteMin(r));
    assert Deleted(t, key) == Balanced(n);
    assert Items(n) == Items(l) + Items(r) by {
      DeleteMinItems(r);
      assert Items(n) == Items(l) + ([m] + Items(DeleteMin(r)));
    }
  }

  lemma {:induction false} DeletedItems<V>(t: Subtree<V>, k: int)
    requires Ordered(t)
    ensures Items(Deleted(t, k)) == Below(Items(t), k) + Above(Items(t), k)
  {
    match t
    case Nil =>
    case Node(l, key, val, r) =>
      if k < key {
        DeletedItems(l, k);
        DeletedItemsLeft(t, k);
      } else if key < k {
        DeletedItems(r, k);
        DeletedItemsRight(t, k);
      } else {
        FilterNode(t, k);
        if l.Node? && r.Node? {
          DeletedRootItems(t);
        }
      }
  }

  lemma DeletedItemsLeft<V>(t: Subtree<V>, k: int)
    requires t.Node? && Ordered(t) && k < t.key
    requires Items(Deleted(t.left, k)) == Below(Items(t.left), k) + Above(Items(t.left), k)
    ensures Items(Deleted(t, k)) == Below(Items(t), k) + Above(Items(t), k)
  {
    var d := Deleted(t.left, k);
    var n := Node(d, t.key, t.value, t.right);
    assert Deleted(t, k) == Balanced(n);
    assert Items(n) == Below(Items(t), k) + Above(Items(t), k) by {
      FilterNode(t, k);
      var b, a := Below(Items(t.left), k), Above(Items(t.left), k);
      var item := [(t.key, t.value)];
      assert Items(n) == ((b + a) + item) + Items(t.right);
      AppendAssoc(b, a, item);
      AppendAssoc(b, a + item, Items(t.right));
    }
  }

  lemma DeletedItemsRight<V>(t: Subtree<V>, k: int)
    requires t.Node? && Ordered(t) && t.key < k
    requires Items(Deleted(t.right, k)) == Below(Items(t.right), k) + Above(Items(t.right), k)
    ensures Items(Deleted(t, k)) == Below(Items(t), k) + Above(Items(t), k)
  {
    var d := Deleted(t.right, k);
    var n := Node(t.left, t.key, t.value, d);
    assert Deleted(t, k) == Balanced(n);
    assert Items(n) == Below(Items(t), k) + Above(Items(t), k) by {
      FilterNode(t, k);
      var front := Items(t.left) + [(t.key, t.value)];
      var b, a := Below(Items(t.right), k), Above(Items(t.right), k);
      assert Items(n) == front + (b + a);
      AppendAssoc(front, b, a);
    }
  }

  /**
   * Deletion keeps an AVL search tree an AVL search tree, removes exactly the
   * key's item from the in-order sequence, leaves an absent key's tree
   * untouched, and lowers the height by at most one.
   */
  lemma DeletedCorrect<V>(t: Subtree<V>, k: int)
    requires Ordered(t) && Avl(t)
    ensures Ordered(Deleted(t, k)) && Avl(Deleted(t, k))
    ensures Keys(Deleted(t, k)) == Keys(t) - {k}
    ensures k !in Keys(t) ==> Deleted(t, k) == t
    ensures Items(Deleted(t, k)) == Below(Items(t), k) + Above(Items(t), k)
    ensures Height(t) - 1 <= Height(Deleted(t, k)) <= Height(t)
  {
    DeletedKeys(t, k);
    DeletedOrdered(t, k);
    DeletedAvl(t, k);
    DeletedItems(t, k);
    if k !in Keys(t) {
      DeletedAbsent(t, k);
    }
  }
}
