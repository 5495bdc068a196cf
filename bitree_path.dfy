/**
 * The `std::stack<Node*> path` that averenkov's `push` and `erase` hand to
 * `rebalance_path` (S4/BiTree.hpp), as a sequence of visits from the root
 * down. Each visit remembers whether its node hangs in its parent's left
 * slot: that is the pointer test `parent_node->left == node` which decides
 * where `rebalance_path` stores a balanced subtree.
 */
module BiTreePath {
  import opened BiTreeBalance

  datatype Visit<V> = Visit(node: Subtree<V>, isLeft: bool)

  ghost predicate AllNodes<V>(path: seq<Visit<V>>)
  {
    forall i :: 0 <= i < |path| ==> path[i].node.Node?
  }

  /** Store c in the left or the right slot of p. */
  function Attach<V>(p: Subtree<V>, isLeft: bool, c: Subtree<V>): Subtree<V>
    requires p.Node?
  {
    if isLeft then p.(left := c) else p.(right := c)
  }

  /** The path with c stored in one slot of its last node. */
  function ReplaceTop<V>(path: seq<Visit<V>>, isLeft: bool, c: Subtree<V>): (r: seq<Visit<V>>)
    requires |path| > 0 && path[|path| - 1].node.Node?
    ensures |r| == |path|
  {
    var top := path[|path| - 1];
    path[..|path| - 1] + [Visit(Attach(top.node, isLeft, c), top.isLeft)]
  }

  /**
   * The subtree `rebalance_path` produces: the deepest node is balanced, the
   * result is stored in its parent's slot, the parent is balanced, and so on
   * up to the first visit.
   */
  ghost function Rebuild<V>(path: seq<Visit<V>>): Subtree<V>
    requires |path| > 0 && AllNodes(path)
    decreases |path|
  {
    if |path| == 1 then Balanced(path[0].node)
    else Balanced(Attach(path[0].node, path[1].isLeft, Rebuild(path[1..])))
  }

  /** The nodes the descent of `push` or `find` for key k meets, from t down to the node holding k or to the last node before an absent child. */
  ghost function SearchPath<V>(t: Subtree<V>, k: int, isLeft: bool): (p: seq<Visit<V>>)
    ensures AllNodes(p)
    ensures t.Nil? <==> p == []
    ensures t.Node? ==> p[0] == Visit(t, isLeft)
  {
    match t
    case Nil => []
    case Node(l, key, _, r) =>
      [Visit(t, isLeft)]
      + (if k < key then SearchPath(l, k, true) else if key < k then SearchPath(r, k, false) else [])
  }

  /** The nodes from t down to the parent of its leftmost node: the walk `erase` makes to find the successor. */
  ghost function MinSpine<V>(t: Subtree<V>, isLeft: bool): (p: seq<Visit<V>>)
    requires t.Node?
    ensures AllNodes(p)
    ensures p != [] ==> p[0] == Visit(t, isLeft)
    ensures forall i :: 1 <= i < |p| ==> p[i].isLeft
    ensures p == [] <==> t.left.Nil?
  {
    if t.left.Nil? then [] else [Visit(t, isLeft)] + MinSpine(t.left, true)
  }

  /** The right child of t's leftmost node, which moves up into that node's place. */
  ghost function MinRight<V>(t: Subtree<V>): Subtree<V>
    requires t.Node?
  {
    if t.left.Nil? then t.right else MinRight(t.left)
  }

  /** Rebalancing a path is rebalancing all of it below the first visit, storing the result in that visit's node, and balancing it. */
  lemma RebuildCons<V>(v: Visit<V>, lower: seq<Visit<V>>)
    requires v.node.Node? && |lower| > 0 && AllNodes(lower)
    ensures AllNodes([v] + lower)
    ensures Rebuild([v] + lower) == Balanced(Attach(v.node, lower[0].isLeft, Rebuild(lower)))
  {
    assert ([v] + lower)[1..] == lower;
    assert forall i :: 1 <= i < |[v] + lower| ==> ([v] + lower)[i] == lower[i - 1];
  }

  lemma ReplaceTopCons<V>(v: Visit<V>, path: seq<Visit<V>>, isLeft: bool, c: Subtree<V>)
    requires |path| > 0 && path[|path| - 1].node.Node?
    ensures ReplaceTop([v] + path, isLeft, c) == [v] + ReplaceTop(path, isLeft, c)
  {
    assert ([v] + path)[..|path|] == [v] + path[..|path| - 1];
  }

  lemma ReplaceTopAllNodes<V>(path: seq<Visit<V>>, isLeft: bool, c: Subtree<V>)
    requires |path| > 0 && AllNodes(path)
    ensures AllNodes(ReplaceTop(path, isLeft, c))
    ensures forall i :: 0 <= i < |path| ==> ReplaceTop(path, isLeft, c)[i].isLeft == path[i].isLeft
  {
  }

  /**
   * Rebalancing a path in one go equals rebalancing its lower part first and
   * storing the result in the upper part's last node.
   */
  lemma {:induction false} RebuildCompose<V>(a: seq<Visit<V>>, b: seq<Visit<V>>)
    requires |a| > 0 && |b| > 0 && AllNodes(a) && AllNodes(b)
    ensures AllNodes(a + b) && AllNodes(ReplaceTop(a, b[0].isLeft, Rebuild(b)))
    ensures Rebuild(a + b) == Rebuild(ReplaceTop(a, b[0].isLeft, Rebuild(b)))
    decreases |a|
  {
    var c := Rebuild(b);
    ReplaceTopAllNodes(a, b[0].isLeft, c);
    assert AllNodes(a + b) by {
      forall i | 0 <= i < |a + b|
        ensures (a + b)[i].node.Node?
      {
        if i >= |a| {
          assert (a + b)[i] == b[i - |a|];
        }
      }
    }
    assert (a + b)[1..] == a[1..] + b;
    if |a| == 1 {
      assert (a + b)[1..] == b;
    } else {
      RebuildCompose(a[1..], b);
      ReplaceTopCons(a[0], a[1..], b[0].isLeft, c);
      assert a == [a[0]] + a[1..];
      var r := ReplaceTop(a, b[0].isLeft, c);
      assert r[1..] == ReplaceTop(a[1..], b[0].isLeft, c);
    }
  }

  /** `rebalance_path` pops the deepest node, balances it and stores it in the node above. */
  lemma RebuildPop<V>(path: seq<Visit<V>>, n: Visit<V>)
    requires |path| > 0 && AllNodes(path) && n.node.Node?
    ensures AllNodes(path + [n]) && AllNodes(ReplaceTop(path, n.isLeft, Balanced(n.node)))
    ensures Rebuild(path + [n]) == Rebuild(ReplaceTop(path, n.isLeft, Balanced(n.node)))
  {
    RebuildCompose(path, [n]);
  }

  /**
   * The path `push` builds, extended by the new leaf attached on the side the
   * key comparison with its parent selects, rebalances into the AVL insertion
   * of the key.
   */
  lemma {:induction false} RebuildInserted<V>(t: Subtree<V>, k: int, v: V, isLeft: bool)
    requires t.Node? && k !in Keys(t)
    ensures var p := SearchPath(t, k, isLeft);
      var leaf := Visit(Node(Nil, k, v, Nil), k < p[|p| - 1].node.key);
      AllNodes(p + [leaf]) && Rebuild(p + [leaf]) == Inserted(t, k, v)
  {
    var p := SearchPath(t, k, isLeft);
    var c := if k < t.key then t.left else t.right;
    var rest := SearchPath(c, k, k < t.key);
    assert p == [Visit(t, isLeft)] + rest;
    var grown := Attach(t, k < t.key, Inserted(c, k, v));
    assert Inserted(t, k, v) == Balanced(grown);
    if c.Nil? {
      var leaf := Visit(Node(Nil, k, v, Nil), k < t.key);
      assert p + [leaf] == [Visit(t, isLeft), leaf];
      assert Rebuild([leaf]) == leaf.node;
      assert Rebuild([Visit(t, isLeft), leaf]) == Balanced(grown);
    } else {
      RebuildInserted(c, k, v, k < t.key);
      var leaf := Visit(Node(Nil, k, v, Nil), k < rest[|rest| - 1].node.key);
      var lower := rest + [leaf];
      assert p + [leaf] == [Visit(t, isLeft)] + lower by {
        AppendAssoc([Visit(t, isLeft)], rest, [leaf]);
      }
      assert lower[0].isLeft == (k < t.key);
      RebuildCons(Visit(t, isLeft), lower);
    }
  }

  /** The descent for k from t goes below t and ends on the node holding k. */
  ghost predicate EndsAtKey<V>(t: Subtree<V>, k: int, isLeft: bool)
  {
    var p := SearchPath(t, k, isLeft);
    |p| > 1 && p[|p| - 1].node.key == k
  }

  /**
   * The path above the node holding k, with that node replaced by what
   * deleting k from it leaves, rebalances into the AVL deletion of k.
   */
  ghost predicate RebuildsDeletion<V>(t: Subtree<V>, k: int, isLeft: bool)
    requires EndsAtKey(t, k, isLeft)
  {
    var p := SearchPath(t, k, isLeft);
    var r := ReplaceTop(p[..|p| - 1], p[|p| - 1].isLeft, Deleted(p[|p| - 1].node, k));
    AllNodes(r) && Rebuild(r) == Deleted(t, k)
  }

  lemma {:induction false} RebuildDeleted<V>(t: Subtree<V>, k: int, isLeft: bool)
    requires EndsAtKey(t, k, isLeft)
    ensures RebuildsDeletion(t, k, isLeft)
    decreases t
  {
    var c := if k < t.key then t.left else t.right;
    var p, q := SearchPath(t, k, isLeft), SearchPath(c, k, k < t.key);
    assert q != [] && q[|q| - 1] == p[|p| - 1] && t.key != k by {
      assert p == [Visit(t, isLeft)] + q;
    }
    if c.key == k {
      DeletedAtChild(t, k, isLeft);
    } else {
      RebuildDeleted(c, k, k < t.key);
      DeletedBelowChild(t, k, isLeft);
    }
  }

  /** The node holding k is a child of t: the path is t's visit alone, with the child's replacement stored in it. */
  lemma DeletedAtChild<V>(t: Subtree<V>, k: int, isLeft: bool)
    requires t.Node? && t.key != k
    requires var c := if k < t.key then t.left else t.right; c.Node? && c.key == k
    ensures EndsAtKey(t, k, isLeft) && RebuildsDeletion(t, k, isLeft)
  {
    var c := if k < t.key then t.left else t.right;
    var p := SearchPath(t, k, isLeft);
    assert SearchPath(c, k, k < t.key) == [Visit(c, k < t.key)];
    assert p == [Visit(t, isLeft), Visit(c, k < t.key)];
    assert p[..|p| - 1] == [Visit(t, isLeft)];
    var d := Deleted(c, k);
    assert ReplaceTop(p[..|p| - 1], k < t.key, d) == [Visit(Attach(t, k < t.key, d), isLeft)];
    assert Deleted(t, k) == Balanced(Attach(t, k < t.key, d));
  }

  /** The node holding k lies deeper than t's child: t's visit goes on top of the child's rebalanced path. */
  lemma DeletedBelowChild<V>(t: Subtree<V>, k: int, isLeft: bool)
    requires t.Node? && t.key != k
    requires var c := if k < t.key then t.left else t.right;
      c.Node? && c.key != k && EndsAtKey(c, k, k < t.key) && RebuildsDeletion(c, k, k < t.key)
    ensures EndsAtKey(t, k, isLeft) && RebuildsDeletion(t, k, isLeft)
  {
    var c := if k < t.key then t.left else t.right;
    var p := SearchPath(t, k, isLeft);
    var rest := SearchPath(c, k, k < t.key);
    var v := Visit(t, isLeft);
    var target := rest[|rest| - 1];
    var upper := rest[..|rest| - 1];
    assert p[|p| - 1] == target && p[..|p| - 1] == [v] + upper by {
      assert p == [v] + rest;
    }
    var d := Deleted(target.node, k);
    ReplaceTopCons(v, upper, target.isLeft, d);
    var rr := ReplaceTop(upper, target.isLeft, d);
    assert rr[0].isLeft == (k < t.key);
    RebuildCons(v, rr);
    assert Deleted(t, k) == Balanced(Attach(t, k < t.key, Deleted(c, k)));
  }

  /** Unlinking the leftmost node of t and rebalancing the walk down to it is removing t's minimum. */
  lemma {:induction false} RebuildMinSpine<V>(t: Subtree<V>, isLeft: bool)
    requires t.Node? && t.left.Node?
    ensures AllNodes(ReplaceTop(MinSpine(t, isLeft), true, MinRight(t)))
    ensures Rebuild(ReplaceTop(MinSpine(t, isLeft), true, MinRight(t))) == DeleteMin(t)
  {
    var s := MinSpine(t, isLeft);
    ReplaceTopAllNodes(s, true, MinRight(t));
    if t.left.left.Nil? {
      assert s == [Visit(t, isLeft)];
    } else {
      RebuildMinSpine(t.left, true);
      var s2 := MinSpine(t.left, true);
      assert s == [Visit(t, isLeft)] + s2;
      ReplaceTopCons(Visit(t, isLeft), s2, true, MinRight(t));
      var r2 := ReplaceTop(s2, true, MinRight(t));
      assert ([Visit(t, isLeft)] + r2)[1..] == r2;
      assert r2[0].isLeft;
    }
  }

  /**
   * Removing a node with two children: its data is overwritten by its
   * successor's, the successor is unlinked, and the walk from the node down to
   * the successor's parent is rebalanced.
   */
  lemma RebuildSuccessor<V>(t: Subtree<V>, isLeft: bool)
    requires t.Node? && t.left.Node? && t.right.Node?
    ensures var m := MinItem(t.right);
      var s := MinSpine(t.right, false);
      var r := ReplaceTop([Visit(t.(key := m.0, value := m.1), isLeft)] + s, s != [], MinRight(t.right));
      AllNodes(r) && Rebuild(r) == Deleted(t, t.key)
  {
    var m := MinItem(t.right);
    var moved := Visit(t.(key := m.0, value := m.1), isLeft);
    var s := MinSpine(t.right, false);
    ReplaceTopAllNodes([moved] + s, s != [], MinRight(t.right));
    if s == [] {
      assert [moved] + s == [moved];
    } else {
      RebuildMinSpine(t.right, false);
      ReplaceTopCons(moved, s, true, MinRight(t.right));
      var r2 := ReplaceTop(s, true, MinRight(t.right));
      assert ([moved] + r2)[1..] == r2;
      assert !r2[0].isLeft;
    }
  }
}
