/**
 * averenkov's `Tree<Key, Value, Compare>` (S4/BiTree.hpp): an AVL-balanced
 * binary search tree behind a sentinel `fake_root`, whose `push` and `erase`
 * collect the nodes they pass on an explicit stack and hand it to
 * `rebalance_path`.
 *
 * The tree the sentinel's left slot holds is the field `root`; the pointer
 * structure is modelled as a `Subtree` value, so a node is identified by the
 * path that reaches it.
 */
module BiTree {
  import opened Wrappers
  import opened BiTreeBalance
  import opened BiTreePath

  // ---------------------------------------------------------------------
  // get_height: an explicit stack and a memo of computed heights

  /** The subtree reached from t by the turns in p (`true` is a left turn); `Nil` once p leaves the tree. */
  function SubtreeAt<V>(t: Subtree<V>, p: seq<bool>): Subtree<V>
    decreases |p|
  {
    if p == [] || t.Nil? then t
    else SubtreeAt(if p[0] then t.left else t.right, p[1..])
  }

  /** The paths of all nodes of t. */
  ghost function NodePaths<V>(t: Subtree<V>): set<seq<bool>>
  {
    match t
    case Nil => {}
    case Node(l, _, _, r) =>
      {[]} + (set p | p in NodePaths(l) :: [true] + p) + (set p | p in NodePaths(r) :: [false] + p)
  }

  lemma {:induction false} NodePathsExact<V>(t: Subtree<V>, p: seq<bool>)
    ensures p in NodePaths(t) <==> SubtreeAt(t, p).Node?
    decreases |p|
  {
    if p != [] && t.Node? {
      var c := if p[0] then t.left else t.right;
      NodePathsExact(c, p[1..]);
      assert p == [p[0]] + p[1..];
      if p[1..] in NodePaths(c) {
        if p[0] {
          assert p in (set q | q in NodePaths(t.left) :: [true] + q);
        } else {
          assert p in (set q | q in NodePaths(t.right) :: [false] + q);
        }
      }
    }
  }

  lemma {:induction false} SubtreeAtChild<V>(t: Subtree<V>, p: seq<bool>, b: bool)
    requires SubtreeAt(t, p).Node?
    ensures SubtreeAt(t, p + [b]) == if b then SubtreeAt(t, p).left else SubtreeAt(t, p).right
    decreases |p|
  {
    if p != [] {
      assert (p + [b])[1..] == p[1..] + [b];
      SubtreeAtChild(if p[0] then t.left else t.right, p[1..], b);
    }
  }

  ghost predicate StrictPrefix(a: seq<bool>, b: seq<bool>)
  {
    |a| < |b| && a == b[..|a|]
  }

  /** Every memo entry is a node of the tree together with its height. */
  ghost predicate MemoOk<V>(node: Subtree<V>, heights: map<seq<bool>, int>)
  {
    forall p :: p in heights ==> p in NodePaths(node) && heights[p] == Height(SubtreeAt(node, p))
  }

  /**
   * The stack holds distinct nodes still waiting for their height, the root at
   * the bottom, and no entry lies below one of its own ancestors.
   */
  ghost predicate StackOk<V>(node: Subtree<V>, nodes: seq<seq<bool>>, heights: map<seq<bool>, int>)
  {
    (forall i :: 0 <= i < |nodes| ==> nodes[i] in NodePaths(node) && nodes[i] !in heights)
    && (forall i, j :: 0 <= i < j < |nodes| ==> nodes[i] != nodes[j] && !StrictPrefix(nodes[j], nodes[i]))
    && (|nodes| > 0 ==> nodes[0] == [])
  }

  ghost function Members(nodes: seq<seq<bool>>): set<seq<bool>>
  {
    set q | q in nodes
  }

  /** get_height: nodes wait on the stack until the heights of both children are in the memo. */
  method GetHeight<V>(node: Subtree<V>) returns (h: int)
    ensures h == Height(node)
  {
    if node.Nil? {
      return -1;
    }
    ghost var all := NodePaths(node);
    NodePathsExact(node, []);
    var nodes: seq<seq<bool>> := [[]];
    var heights: map<seq<bool>, int> := map[];
    while |nodes| > 0
      invariant MemoOk(node, heights) && StackOk(node, nodes, heights)
      invariant |nodes| == 0 ==> [] in heights
      decreases |all - heights.Keys|, |all - Members(nodes)|
    {
      var current := nodes[|nodes| - 1];
      NodePathsExact(node, current);
      var sub := SubtreeAt(node, current);
      var lp, rp := current + [true], current + [false];
      SubtreeAtChild(node, current, true);
      SubtreeAtChild(node, current, false);
      NodePathsExact(node, lp);
      NodePathsExact(node, rp);
      var leftKnown := sub.left.Nil? || lp in heights;
      var rightKnown := sub.right.Nil? || rp in heights;
      if leftKnown && rightKnown {
        var hl := if sub.left.Nil? then -1 else heights[lp];
        var hr := if sub.right.Nil? then -1 else heights[rp];
        PopKeeps(node, nodes, heights, 1 + Max(hl, hr));
        heights := heights[current := 1 + Max(hl, hr)];
        nodes := nodes[..|nodes| - 1];
      } else {
        var pushed := Children(current, !rightKnown, !leftKnown);
        PushKeeps(node, nodes, heights, !rightKnown, !leftKnown);
        nodes := nodes + pushed;
      }
    }
    h := heights[[]];
  }

  /** Popping the top entry once its height is known keeps the memo and the stack consistent and shrinks the set of unknown heights. */
  lemma PopKeeps<V>(node: Subtree<V>, nodes: seq<seq<bool>>, heights: map<seq<bool>, int>, h: int)
    requires MemoOk(node, heights) && StackOk(node, nodes, heights) && |nodes| > 0
    requires h == Height(SubtreeAt(node, nodes[|nodes| - 1]))
    ensures var heights' := heights[nodes[|nodes| - 1] := h];
      MemoOk(node, heights') && StackOk(node, nodes[..|nodes| - 1], heights')
      && (|nodes| == 1 ==> [] in heights')
      && |NodePaths(node) - heights'.Keys| < |NodePaths(node) - heights.Keys|
  {
    var current := nodes[|nodes| - 1];
    PopMemo(node, heights, current, h);
    PopStack(node, nodes, heights, h);
    PopShrinks(node, heights, current, h);
  }

  lemma PopMemo<V>(node: Subtree<V>, heights: map<seq<bool>, int>, current: seq<bool>, h: int)
    requires MemoOk(node, heights) && current in NodePaths(node)
    requires h == Height(SubtreeAt(node, current))
    ensures MemoOk(node, heights[current := h])
  {
  }

  lemma PopStack<V>(node: Subtree<V>, nodes: seq<seq<bool>>, heights: map<seq<bool>, int>, h: int)
    requires StackOk(node, nodes, heights) && |nodes| > 0
    ensures StackOk(node, nodes[..|nodes| - 1], heights[nodes[|nodes| - 1] := h])
  {
    var current := nodes[|nodes| - 1];
    var rest := nodes[..|nodes| - 1];
    forall i | 0 <= i < |rest|
      ensures rest[i] in NodePaths(node) && rest[i] !in heights[current := h]
    {
      assert rest[i] == nodes[i];
    }
  }

  lemma PopShrinks<V>(node: Subtree<V>, heights: map<seq<bool>, int>, current: seq<bool>, h: int)
    requires current in NodePaths(node) && current !in heights
    ensures |NodePaths(node) - heights[current := h].Keys| < |NodePaths(node) - heights.Keys|
  {
    assert heights[current := h].Keys == heights.Keys + {current};
    RemoveOneMore(NodePaths(node), heights.Keys, current);
  }

  lemma RemoveOneMore<T>(all: set<T>, known: set<T>, x: T)
    requires x in all && x !in known
    ensures |all - (known + {x})| < |all - known|
  {
    assert all - (known + {x}) == (all - known) - {x};
  }

  /** The children `get_height` pushes: the right one first, so that the left one ends on top. */
  function Children(current: seq<bool>, right: bool, left: bool): seq<seq<bool>>
  {
    (if right then [current + [false]] else []) + (if left then [current + [true]] else [])
  }

  /** Pushing the top entry's children whose height is still unknown keeps the stack consistent and shrinks the set of paths not on it. */
  lemma PushKeeps<V>(node: Subtree<V>, nodes: seq<seq<bool>>, heights: map<seq<bool>, int>, right: bool, left: bool)
    requires StackOk(node, nodes, heights) && |nodes| > 0
    requires right || left
    requires right ==> nodes[|nodes| - 1] + [false] in NodePaths(node) && nodes[|nodes| - 1] + [false] !in heights
    requires left ==> nodes[|nodes| - 1] + [true] in NodePaths(node) && nodes[|nodes| - 1] + [true] !in heights
    ensures StackOk(node, nodes + Children(nodes[|nodes| - 1], right, left), heights)
    ensures |NodePaths(node) - Members(nodes + Children(nodes[|nodes| - 1], right, left))| < |NodePaths(node) - Members(nodes)|
  {
    var current := nodes[|nodes| - 1];
    var pushed := Children(current, right, left);
    var rp, lp := current + [false], current + [true];
    assert rp[..|current|] == current && lp[..|current|] == current;
    if right && left {
      assert pushed == [rp, lp];
    } else if right {
      assert pushed == [rp];
    } else {
      assert pushed == [lp];
    }
    PushKeepsStack(node, nodes, heights, pushed);
    MembersShrink(NodePaths(node), nodes, pushed);
  }

  lemma MembersShrink(all: set<seq<bool>>, nodes: seq<seq<bool>>, pushed: seq<seq<bool>>)
    requires |pushed| > 0 && pushed[0] in all && pushed[0] !in nodes
    ensures |all - Members(nodes + pushed)| < |all - Members(nodes)|
  {
    var s := nodes + pushed;
    assert pushed[0] in all - Members(nodes);
    assert Members(s) == Members(nodes) + Members(pushed);
    assert pushed[0] !in all - Members(s);
    SubsetCard(all - Members(s), (all - Members(nodes)) - {pushed[0]});
  }

  lemma {:induction false} SubsetCard<T>(x: set<T>, y: set<T>)
    requires x <= y
    ensures |x| <= |y|
    decreases |y|
  {
    if x != {} {
      var e :| e in x;
      SubsetCard(x - {e}, y - {e});
    }
  }

  lemma PushKeepsStack<V>(node: Subtree<V>, nodes: seq<seq<bool>>, heights: map<seq<bool>, int>, pushed: seq<seq<bool>>)
    requires StackOk(node, nodes, heights) && |nodes| > 0
    requires 0 < |pushed| <= 2
    requires forall k :: 0 <= k < |pushed| ==> pushed[k] in NodePaths(node) && pushed[k] !in heights
    requires forall k :: 0 <= k < |pushed| ==> |pushed[k]| == |nodes[|nodes| - 1]| + 1 && pushed[k][..|nodes[|nodes| - 1]|] == nodes[|nodes| - 1]
    requires |pushed| == 2 ==> pushed[0] != pushed[1]
    ensures StackOk(node, nodes + pushed, heights)
    ensures pushed[0] !in nodes
  {
    var current := nodes[|nodes| - 1];
    forall i, k | 0 <= i < |nodes| && 0 <= k < |pushed|
      ensures nodes[i] != pushed[k] && !StrictPrefix(pushed[k], nodes[i])
    {
      if i < |nodes| - 1 {
        ChildPrefix(current, pushed[k], nodes[i]);
      }
    }
    var s := nodes + pushed;
    forall i, j | 0 <= i < j < |s|
      ensures s[i] != s[j] && !StrictPrefix(s[j], s[i])
    {
      if j < |nodes| {
        assert s[i] == nodes[i] && s[j] == nodes[j];
      } else if i < |nodes| {
        assert s[i] == nodes[i] && s[j] == pushed[j - |nodes|];
      } else {
        assert s[i] == pushed[0] && s[j] == pushed[1];
      }
    }
    forall i | 0 <= i < |s|
      ensures s[i] in NodePaths(node) && s[i] !in heights
    {
      if i >= |nodes| {
        assert s[i] == pushed[i - |nodes|];
      }
    }
  }

  /** A child path extends its parent's path, so whatever extends or equals the child strictly extends the parent. */
  lemma ChildPrefix(current: seq<bool>, child: seq<bool>, n: seq<bool>)
    requires |child| == |current| + 1 && child[..|current|] == current
    ensures StrictPrefix(child, n) || n == child ==> StrictPrefix(current, n)
  {
    if StrictPrefix(child, n) || n == child {
      assert n[..|child|] == child;
      assert n[..|current|] == n[..|child|][..|current|];
    }
  }

  /** get_balance_factor: heights of the two children, each computed by get_height; an absent child counts -1. */
  method GetBalanceFactor<V>(node: Subtree<V>) returns (bf: int)
    ensures bf == BalanceFactor(node)
  {
    if node.Nil? {
      return 0;
    }
    var leftHeight := -1;
    if node.left.Node? {
      leftHeight := GetHeight(node.left);
    }
    var rightHeight := -1;
    if node.right.Node? {
      rightHeight := GetHeight(node.right);
    }
    bf := leftHeight - rightHeight;
  }

  /** balance: the rotation case is chosen from balance factors that get_height computes. */
  method Balance<V>(node: Subtree<V>) returns (r: Subtree<V>)
    ensures r == Balanced(node)
  {
    if node.Nil? {
      return node;
    }
    var balanceFactor := GetBalanceFactor(node);
    if balanceFactor > 1 {
      var leftFactor := GetBalanceFactor(node.left);
      if leftFactor >= 0 {
        r := RotateRight(node);
      } else {
        r := RotateRight(node.(left := RotateLeft(node.left)));
      }
    } else if balanceFactor < -1 {
      var rightFactor := GetBalanceFactor(node.right);
      if rightFactor <= 0 {
        r := RotateLeft(node);
      } else {
        r := RotateLeft(node.(right := RotateRight(node.right)));
      }
    } else {
      r := node;
    }
  }

  /** rebalance_path: pop the deepest node, balance it, store it in the slot it came from, until the stack is empty. */
  method RebalancePath<V>(path: seq<Visit<V>>) returns (newRoot: Subtree<V>)
    requires |path| > 0 && AllNodes(path)
    ensures newRoot == Rebuild(path)
    ensures newRoot.Node?
  {
    var stack := path;
    newRoot := Nil;
    while |stack| > 0
      invariant AllNodes(stack)
      invariant |stack| > 0 ==> Rebuild(stack) == Rebuild(path)
      invariant |stack| == 0 ==> newRoot == Rebuild(path)
      decreases |stack|
    {
      ghost var before := stack;
      var node := stack[|stack| - 1];
      stack := stack[..|stack| - 1];
      var balancedNode := Balance(node.node);
      if |stack| > 0 {
        assert before == stack + [node];
        RebuildPop(stack, node);
        stack := ReplaceTop(stack, node.isLeft, balancedNode);
      } else {
        newRoot := balancedNode;
      }
    }
  }

  // ---------------------------------------------------------------------
  // lower_bound and upper_bound

  /** Whether x stops the bound search for k: lower_bound stops at `!comp(x, k)`, upper_bound at `comp(k, x)`. */
  predicate Beyond(x: int, k: int, strict: bool)
  {
    if strict then k < x else k <= x
  }

  /** The first item of s whose key is beyond k: the element lower_bound (`strict` false) or upper_bound (`strict` true) designates. */
  ghost function FirstBeyond<V>(s: seq<Item<V>>, k: int, strict: bool): Option<Item<V>>
  {
    if s == [] then None
    else if Beyond(s[0].0, k, strict) then Some(s[0])
    else FirstBeyond(s[1..], k, strict)
  }

  function OrElse<T>(a: Option<T>, b: Option<T>): Option<T>
  {
    if a.Some? then a else b
  }

  lemma {:induction false} FirstBeyondAppend<V>(a: seq<Item<V>>, b: seq<Item<V>>, k: int, strict: bool)
    ensures FirstBeyond(a + b, k, strict) == OrElse(FirstBeyond(a, k, strict), FirstBeyond(b, k, strict))
  {
    if a == [] {
      assert a + b == b;
    } else {
      assert (a + b)[1..] == a[1..] + b;
      FirstBeyondAppend(a[1..], b, k, strict);
    }
  }

  lemma {:induction false} FirstBeyondNone<V>(s: seq<Item<V>>, k: int, strict: bool)
    requires forall i :: 0 <= i < |s| ==> !Beyond(s[i].0, k, strict)
    ensures FirstBeyond(s, k, strict) == None
  {
    if s != [] {
      FirstBeyondNone(s[1..], k, strict);
    }
  }

  /** One step of the bound search: a node beyond k is a candidate and the search goes left; otherwise everything on its left is below too. */
  lemma FirstBeyondNode<V>(t: Subtree<V>, k: int, strict: bool)
    requires t.Node? && Ordered(t)
    ensures Beyond(t.key, k, strict) ==>
              FirstBeyond(Items(t), k, strict) == OrElse(FirstBeyond(Items(t.left), k, strict), Some((t.key, t.value)))
    ensures !Beyond(t.key, k, strict) ==> FirstBeyond(Items(t), k, strict) == FirstBeyond(Items(t.right), k, strict)
  {
    var Node(l, key, v, r) := t;
    FirstBeyondAppend(Items(l) + [(key, v)], Items(r), k, strict);
    FirstBeyondAppend(Items(l), [(key, v)], k, strict);
    assert FirstBeyond([(key, v)], k, strict) == if Beyond(key, k, strict) then Some((key, v)) else None;
    if !Beyond(key, k, strict) {
      ItemKeysInKeys(l);
      FirstBeyondNone(Items(l), k, strict);
    }
  }

  /** In a strictly increasing sequence the first item beyond k is the one with the least key beyond k. */
  lemma {:induction false} FirstBeyondLeast<V>(s: seq<Item<V>>, k: int, strict: bool)
    requires StrictlyIncreasing(s)
    ensures FirstBeyond(s, k, strict).None? <==> forall i :: 0 <= i < |s| ==> !Beyond(s[i].0, k, strict)
    ensures FirstBeyond(s, k, strict).Some? ==>
              var x := FirstBeyond(s, k, strict).value;
              x in s && Beyond(x.0, k, strict)
              && forall i :: 0 <= i < |s| && Beyond(s[i].0, k, strict) ==> x.0 <= s[i].0
  {
    if s != [] {
      FirstBeyondLeast(s[1..], k, strict);
      forall i | 1 <= i < |s|
        ensures s[i] == s[1..][i - 1]
      {
      }
    }
  }

  // ---------------------------------------------------------------------
  // copy_tree and the as-written erase

  /**
   * copy_tree, corrected: the recursion stops at every absent child, so it
   * also stops at the other tree's fake_root; each copied node is passed
   * through balance on the way up.
   */
  function CopyTree<V>(t: Subtree<V>): Subtree<V>
  {
    match t
    case Nil => Nil
    case Node(l, k, v, r) => Balanced(Node(CopyTree(l), k, v, CopyTree(r)))
  }

  /** Copying an AVL tree yields the same tree: balance leaves every copied node as it is. */
  lemma {:induction false} CopyTreeOfAvl<V>(t: Subtree<V>)
    requires Avl(t)
    ensures CopyTree(t) == t
  {
    match t
    case Nil =>
    case Node(l, k, v, r) =>
      CopyTreeOfAvl(l);
      CopyTreeOfAvl(r);
      BalancedIsAvl(t);
  }

  /**
   * copy_tree as written, over the pointer graph it walks: `left` and
   * `right` give each node's pointers, 0 stands for nullptr and `own` for
   * the new tree's fake_root. The recursion stops only at nullptr or at
   * `own`. The result is the number of nodes the copy creates, or None when
   * the recursion goes deeper than fuel.
   */
  function CopyAsWritten(left: nat -> nat, right: nat -> nat, own: nat, node: nat, fuel: nat): Option<nat>
    decreases fuel
  {
    if node == 0 || node == own then Some(0)
    else if fuel == 0 then None
    else
      match CopyAsWritten(left, right, own, left(node), fuel - 1)
      case None => None
      case Some(a) =>
        match CopyAsWritten(left, right, own, right(node), fuel - 1)
        case None => None
        case Some(b) => Some(a + b + 1)
  }

  /**
   * A cycle of left pointers that meets neither nullptr nor `own`. Every
   * tree whose absent slots hold its own fake_root has one: fake_root's
   * left is the root, and the left spine from the root ends in fake_root
   * again (for an empty tree the cycle is fake_root alone).
   */
  ghost predicate LeftCycle(left: nat -> nat, own: nat, cycle: seq<nat>)
  {
    |cycle| > 0 &&
    forall i :: 0 <= i < |cycle| ==> cycle[i] != 0 && cycle[i] != own && left(cycle[i]) == cycle[(i + 1) % |cycle|]
  }

  /** copy_tree as written never finishes from a node on such a cycle, however deep it may recurse. */
  lemma {:induction false} CopyAsWrittenCycleDiverges(left: nat -> nat, right: nat -> nat, own: nat, cycle: seq<nat>, i: nat, fuel: nat)
    requires LeftCycle(left, own, cycle) && i < |cycle|
    ensures CopyAsWritten(left, right, own, cycle[i], fuel).None?
    decreases fuel
  {
    if fuel > 0 {
      CopyAsWrittenCycleDiverges(left, right, own, cycle, (i + 1) % |cycle|, fuel - 1);
    }
  }

  /** The links of an empty tree: its fake_root, node 1, points to itself on both sides. */
  function EmptyTreeLinks(n: nat): nat
  {
    if n == 1 then 1 else 0
  }

  /**
   * The copy constructor of an empty tree as written: getRoot() is the
   * other tree's fake_root (node 1), which is neither nullptr nor the new
   * fake_root (node 2), and whose children are itself, so copy_tree does
   * not finish however deep it may recurse.
   */
  lemma CopyAsWrittenDiverges(fuel: nat)
    ensures CopyAsWritten(EmptyTreeLinks, EmptyTreeLinks, 2, 1, fuel).None?
  {
    assert LeftCycle(EmptyTreeLinks, 2, [1]);
    CopyAsWrittenCycleDiverges(EmptyTreeLinks, EmptyTreeLinks, 2, [1], 0, fuel);
  }

  /** The links of a tree holding one key: fake_root (node 1) points to the root (node 3), whose children are fake_root. */
  function OneKeyLinks(n: nat): nat
  {
    if n == 1 then 3 else if n == 3 then 1 else 0
  }

  /** The copy constructor of a one-key tree as written: copy_tree from the root (node 3) does not finish either. */
  lemma CopyAsWrittenOneKeyDiverges(fuel: nat)
    ensures CopyAsWritten(OneKeyLinks, OneKeyLinks, 2, 3, fuel).None?
  {
    assert LeftCycle(OneKeyLinks, 2, [3, 1]);
    CopyAsWrittenCycleDiverges(OneKeyLinks, OneKeyLinks, 2, [3, 1], 0, fuel);
  }

  /**
   * The tree erase(pos) leaves as written: the only node on the stack handed
   * to rebalance_path is the parent of the unlinked node, and the subtree
   * balance returns for it is stored in fake_root->left. When that parent is
   * fake_root itself, balance returns fake_root and the tree becomes empty.
   */
  ghost function EraseAsWritten<V>(t: Subtree<V>, k: int): Subtree<V>
    requires t.Node?
    requires var p := SearchPath(t, k, true); p[|p| - 1].node.key == k
  {
    var p := SearchPath(t, k, true);
    var target := p[|p| - 1];
    var n := target.node;
    if n.left.Nil? || n.right.Nil? then
      if |p| == 1 then Nil
      else
        var child := if n.left.Nil? then n.right else n.left;
        Balanced(Attach(p[|p| - 2].node, target.isLeft, child))
    else
      var m := MinItem(n.right);
      var spine := MinSpine(n.right, false);
      var parent := if spine == [] then n.(key := m.0, value := m.1) else spine[|spine| - 1].node;
      Balanced(Attach(parent, spine != [], MinRight(n.right)))
  }

  /** The AVL tree that pushing 2, 1, 3 and 4 builds. */
  function FourKeys(): Subtree<int>
  {
    Node(Node(Nil, 1, 0, Nil), 2, 0, Node(Nil, 3, 0, Node(Nil, 4, 0, Nil)))
  }

  /** Erasing the leaf 4 as written keeps only its parent's subtree {3}; the intended result still holds 1, 2 and 3. */
  lemma EraseAsWrittenLosesKeys()
    ensures FourKeys() == Inserted(Inserted(Inserted(Inserted(Nil, 2, 0), 1, 0), 3, 0), 4, 0)
    ensures Ordered(FourKeys()) && Avl(FourKeys())
    ensures Keys(EraseAsWritten(FourKeys(), 4)) == {3}
    ensures Keys(Deleted(FourKeys(), 4)) == {1, 2, 3}
  {
    FourKeysPushed();
    FourKeysErasedAsWritten();
    FourKeysDeleted();
  }

  lemma FourKeysErasedAsWritten()
    ensures EraseAsWritten(FourKeys(), 4) == Node(Nil, 3, 0, Nil)
  {
    var t := FourKeys();
    var three, four := t.right, t.right.right;
    assert SearchPath(four, 4, false) == [Visit(four, false)];
    assert SearchPath(three, 4, false) == [Visit(three, false), Visit(four, false)];
    assert SearchPath(t, 4, true) == [Visit(t, true), Visit(three, false), Visit(four, false)];
  }

  lemma FourKeysDeleted()
    ensures Deleted(FourKeys(), 4) == Node(Node(Nil, 1, 0, Nil), 2, 0, Node(Nil, 3, 0, Nil))
  {
    var t := FourKeys();
    var right := Node(Nil, 3, 0, Nil);
    assert Deleted(t.right.right, 4) == Nil;
    assert Deleted(t.right, 4) == Balanced(right) == right;
    assert Deleted(t, 4) == Balanced(Node(t.left, 2, 0, right));
  }

  /** Pushing 2, 1, 3 and 4 into the empty tree builds FourKeys, an AVL search tree. */
  lemma FourKeysPushed()
    ensures FourKeys() == Inserted(Inserted(Inserted(Inserted(Nil, 2, 0), 1, 0), 3, 0), 4, 0)
    ensures Ordered(FourKeys()) && Avl(FourKeys())
  {
    var two := Node(Nil, 2, 0, Nil);
    var one := Node(Nil, 1, 0, Nil);
    var three := Node(Nil, 3, 0, Nil);
    assert Inserted(Nil, 2, 0) == two;
    assert Inserted(two, 1, 0) == Node(one, 2, 0, Nil);
    assert Inserted(Node(one, 2, 0, Nil), 3, 0) == Node(one, 2, 0, three);
    assert Inserted(three, 4, 0) == Node(Nil, 3, 0, Node(Nil, 4, 0, Nil));
  }

  /** Erasing a root with one child as written empties the tree; the intended result is the child. */
  lemma EraseAsWrittenEmptiesTree()
    ensures var t := Node(Nil, 1, 0, Node(Nil, 2, 0, Nil));
      t == Inserted(Inserted(Nil, 1, 0), 2, 0) && Ordered(t) && Avl(t)
      && EraseAsWritten(t, 1) == Nil && Deleted(t, 1) == Node(Nil, 2, 0, Nil)
  {
    var t := Node(Nil, 1, 0, Node(Nil, 2, 0, Nil));
    assert SearchPath(t, 1, true) == [Visit(t, true)];
  }

  /** What `push` needs of the insertion: the rebalanced path is the insertion, which keeps the tree valid and one larger. */
  lemma PushPath<V>(t: Subtree<V>, k: int, v: V)
    requires t.Node? && Ordered(t) && Avl(t) && k !in Keys(t)
    ensures var p := SearchPath(t, k, true);
      var leaf := Visit(Node(Nil, k, v, Nil), k < p[|p| - 1].node.key);
      AllNodes(p + [leaf]) && Rebuild(p + [leaf]) == Inserted(t, k, v)
    ensures Ordered(Inserted(t, k, v)) && Avl(Inserted(t, k, v))
    ensures |Items(Inserted(t, k, v))| == |Items(t)| + 1
  {
    RebuildInserted(t, k, v, true);
    InsertedCorrect(t, k, v);
    FilterSizes(t, k);
  }

  /**
   * The walk above the node holding key, with that node replaced by what
   * deleting key from it leaves, rebalances into the deletion of key.
   */
  lemma ErasedBelowPath<V>(t: Subtree<V>, key: int, path: seq<Visit<V>>, target: Subtree<V>, isLeft: bool)
    requires SearchPath(t, key, true) == path + [Visit(target, isLeft)] && path != [] && AllNodes(path)
    requires target.Node? && target.key == key
    ensures AllNodes(ReplaceTop(path, isLeft, Deleted(target, key)))
    ensures Rebuild(ReplaceTop(path, isLeft, Deleted(target, key))) == Deleted(t, key)
  {
    var p := SearchPath(t, key, true);
    assert p[..|p| - 1] == path && p[|p| - 1] == Visit(target, isLeft);
    RebuildDeleted(t, key, true);
  }

  /** The descent for k has gone through `path` and stands at `current`, which holds k. */
  ghost predicate Descending<V>(t: Subtree<V>, key: int, path: seq<Visit<V>>, current: Subtree<V>, isLeft: bool)
  {
    current.Node? && Ordered(current) && key in Keys(current)
    && path + SearchPath(current, key, isLeft) == SearchPath(t, key, true)
  }

  lemma DescendingStep<V>(t: Subtree<V>, key: int, path: seq<Visit<V>>, current: Subtree<V>, isLeft: bool)
    requires Descending(t, key, path, current, isLeft) && current.key != key
    ensures var c := if key < current.key then current.left else current.right;
      Descending(t, key, path + [Visit(current, isLeft)], c, key < current.key)
  {
    DescendStep(t, key, path, current, isLeft);
  }

  /** The walk from the root to the node holding k, as the parent pointers of that node record it. */
  method PathTo<V>(t: Subtree<V>, key: int) returns (path: seq<Visit<V>>, target: Subtree<V>, isLeft: bool)
    requires Ordered(t) && key in Keys(t)
    ensures SearchPath(t, key, true) == path + [Visit(target, isLeft)]
    ensures target.Node? && target.key == key && Ordered(target) && Keys(target) <= Keys(t)
    ensures AllNodes(path) && (path == [] ==> target == t)
    ensures forall i :: 0 <= i < |path| ==> path[i].node.key in Keys(t) && path[i].node.key != key
  {
    path := [];
    target := t;
    isLeft := true;
    while target.key != key
      invariant Descending(t, key, path, target, isLeft)
      invariant path == [] ==> target == t
      decreases target
    {
      DescendingStep(t, key, path, target, isLeft);
      path := path + [Visit(target, isLeft)];
      if key < target.key {
        target, isLeft := target.left, true;
      } else {
        target, isLeft := target.right, false;
      }
    }
    PathToEnd(t, key, path, target, isLeft);
  }

  lemma PathToEnd<V>(t: Subtree<V>, key: int, path: seq<Visit<V>>, target: Subtree<V>, isLeft: bool)
    requires Descending(t, key, path, target, isLeft) && target.key == key
    ensures SearchPath(t, key, true) == path + [Visit(target, isLeft)]
    ensures Keys(target) <= Keys(t)
    ensures AllNodes(path)
    ensures forall i :: 0 <= i < |path| ==> path[i].node.key in Keys(t) && path[i].node.key != key
  {
    var p := SearchPath(t, key, true);
    assert p == path + [Visit(target, isLeft)];
    SearchPathKeys(t, key, true);
    assert p[|path|] == Visit(target, isLeft);
    forall i | 0 <= i < |path|
      ensures path[i] == p[i]
    {
    }
  }

  /** Every node the descent for k meets lies in t; all but the last hold keys other than k. */
  lemma {:induction false} SearchPathKeys<V>(t: Subtree<V>, key: int, isLeft: bool)
    ensures var p := SearchPath(t, key, isLeft);
      forall i :: 0 <= i < |p| ==>
        Keys(p[i].node) <= Keys(t) && p[i].node.key in Keys(t) && (i < |p| - 1 ==> p[i].node.key != key)
  {
    match t
    case Nil =>
    case Node(l, k, _, r) =>
      var p := SearchPath(t, key, isLeft);
      if key < k {
        SearchPathKeys(l, key, true);
        assert forall i :: 1 <= i < |p| ==> p[i] == SearchPath(l, key, true)[i - 1];
      } else if k < key {
        SearchPathKeys(r, key, false);
        assert forall i :: 1 <= i < |p| ==> p[i] == SearchPath(r, key, false)[i - 1];
      }
  }

  /**
   * The two-children case of erase: walk down to the successor, copy its data
   * into the erased node, unlink it, and give the walk to rebalance together
   * with the node that becomes the successor's old parent.
   */
  method SuccessorPath<V>(target: Subtree<V>, isLeft: bool) returns (lower: seq<Visit<V>>, parent: Item<V>)
    requires target.Node? && target.left.Node? && target.right.Node? && Ordered(target)
    ensures |lower| > 0 && AllNodes(lower) && lower[0].isLeft == isLeft
    ensures Rebuild(lower) == Deleted(target, target.key)
    ensures parent.0 in Keys(target) && parent.0 != target.key
  {
    var spine: seq<Visit<V>> := [];
    var minRight := target.right;
    var minIsLeft := false;
    while minRight.left.Node?
      invariant Walking(target.right, spine, minRight, minIsLeft)
      decreases minRight
    {
      WalkingStep(target.right, spine, minRight, minIsLeft);
      spine := spine + [Visit(minRight, minIsLeft)];
      minRight, minIsLeft := minRight.left, true;
    }
    var moved := Visit(target.(key := minRight.key, value := minRight.value), isLeft);
    lower := ReplaceTop([moved] + spine, minIsLeft, minRight.right);
    parent := if spine == [] then (minRight.key, minRight.value)
              else (spine[|spine| - 1].node.key, spine[|spine| - 1].node.value);
    SuccessorEnd(target, isLeft, spine, minRight, minIsLeft);
  }

  /** The walk to the leftmost node of r has gone through `spine` and stands at `minRight`. */
  ghost predicate Walking<V>(r: Subtree<V>, spine: seq<Visit<V>>, minRight: Subtree<V>, minIsLeft: bool)
    requires r.Node?
  {
    minRight.Node? && AllNodes(spine)
    && spine + MinSpine(minRight, minIsLeft) == MinSpine(r, false)
    && MinItem(minRight) == MinItem(r) && MinRight(minRight) == MinRight(r)
    && minIsLeft == (spine != [])
    && Keys(minRight) <= Keys(r)
    && forall i :: 0 <= i < |spine| ==> spine[i].node.key in Keys(r)
  }

  lemma WalkingStep<V>(r: Subtree<V>, spine: seq<Visit<V>>, minRight: Subtree<V>, minIsLeft: bool)
    requires r.Node? && Walking(r, spine, minRight, minIsLeft) && minRight.left.Node?
    ensures Walking(r, spine + [Visit(minRight, minIsLeft)], minRight.left, true)
  {
    assert MinSpine(minRight, minIsLeft) == [Visit(minRight, minIsLeft)] + MinSpine(minRight.left, true);
    assert minRight.key in Keys(minRight);
  }

  lemma SuccessorEnd<V>(target: Subtree<V>, isLeft: bool, spine: seq<Visit<V>>, minRight: Subtree<V>, minIsLeft: bool)
    requires target.Node? && target.left.Node? && target.right.Node? && Ordered(target)
    requires Walking(target.right, spine, minRight, minIsLeft) && minRight.left.Nil?
    ensures var moved := Visit(target.(key := minRight.key, value := minRight.value), isLeft);
      var lower := ReplaceTop([moved] + spine, minIsLeft, minRight.right);
      AllNodes(lower) && lower[0].isLeft == isLeft && Rebuild(lower) == Deleted(target, target.key)
    ensures minRight.key in Keys(target) && minRight.key != target.key
    ensures spine != [] ==> spine[|spine| - 1].node.key in Keys(target) && spine[|spine| - 1].node.key != target.key
  {
    assert spine == MinSpine(target.right, false);
    assert (minRight.key, minRight.value) == MinItem(target.right) && minRight.right == MinRight(target.right);
    RebuildSuccessor(target, isLeft);
    DeleteMinItems(target.right);
    var moved := Visit(target.(key := minRight.key, value := minRight.value), isLeft);
    ReplaceTopAllNodes([moved] + spine, minIsLeft, minRight.right);
  }

  /** One step of the descent: the visit of current joins the path, and the walk goes on in the child the key selects. */
  lemma DescendStep<V>(t: Subtree<V>, key: int, path: seq<Visit<V>>, current: Subtree<V>, isLeft: bool)
    requires current.Node? && current.key != key && Ordered(current)
    requires path + SearchPath(current, key, isLeft) == SearchPath(t, key, true)
    ensures var next := if key < current.key then current.left else current.right;
      (path + [Visit(current, isLeft)]) + SearchPath(next, key, key < current.key) == SearchPath(t, key, true)
      && Ordered(next) && (key in Keys(current) <==> key in Keys(next))
  {
    var next := if key < current.key then current.left else current.right;
    var v := Visit(current, isLeft);
    assert SearchPath(current, key, isLeft) == [v] + SearchPath(next, key, key < current.key);
    assert (path + [v]) + SearchPath(next, key, key < current.key) == path + ([v] + SearchPath(next, key, key < current.key));
  }

  /**
   * The descent of push: from the root, record each node visited and the
   * side it hangs on, going left below the node's key and right above it,
   * until the key is met or the walk falls off the tree.
   */
  method Descend<V>(t: Subtree<V>, key: int) returns (path: seq<Visit<V>>, found: bool)
    requires Ordered(t)
    ensures found <==> key in Keys(t)
    ensures !found ==> path == SearchPath(t, key, true)
  {
    path := [];
    var current := t;
    var isLeft := true;
    while current.Node?
      invariant path + SearchPath(current, key, isLeft) == SearchPath(t, key, true)
      invariant key in Keys(t) <==> key in Keys(current)
      invariant Ordered(current)
      decreases current
    {
      if key == current.key {
        return path + [Visit(current, isLeft)], true;
      }
      DescendStep(t, key, path, current, isLeft);
      path := path + [Visit(current, isLeft)];
      if key < current.key {
        current, isLeft := current.left, true;
      } else {
        current, isLeft := current.right, false;
      }
    }
    found := false;
  }

  // ---------------------------------------------------------------------
  // The container

  /**
   * `Tree`: `fake_root->left` is `root`, with `Nil` standing for the sentinel
   * itself; `size` is `size_`.
   */
  class Tree<V> {
    var root: Subtree<V>
    var size: nat

    ghost predicate Valid()
      reads this
    {
      Ordered(root) && Avl(root) && size == |Items(root)|
    }

    /** The empty tree: the sentinel's left slot points back at the sentinel. */
    constructor ()
      ensures Valid() && root == Nil && size == 0
    {
      root := Nil;
      size := 0;
    }

    /**
     * The copy constructor, corrected: it builds the same tree with the
     * corrected CopyTree, and an empty other gives an empty copy, as the
     * move constructor's test for an empty tree would. As written,
     * copy_tree stops only at nullptr or the new fake_root, so copying any
     * tree whose absent slots are the other tree's fake_root does not
     * finish (CopyAsWrittenCycleDiverges).
     */
    constructor Copy(other: Tree<V>)
      requires other.Valid()
      ensures Valid() && root == other.root && size == other.size
    {
      CopyTreeOfAvl(other.root);
      root := CopyTree(other.root);
      size := other.size;
    }

    method Empty() returns (e: bool)
      requires Valid()
      ensures e <==> Items(root) == []
    {
      e := size == 0;
    }

    method Size() returns (n: nat)
      requires Valid()
      ensures n == |Items(root)|
    {
      n := size;
    }

    /** push: a key already present leaves the tree unchanged; otherwise a leaf is attached and the descent path is rebalanced. */
    method Push(key: int, value: V)
      requires Valid()
      modifies this
      ensures Valid()
      ensures key in Keys(old(root)) ==> root == old(root) && size == old(size)
      ensures key !in Keys(old(root)) ==> root == Inserted(old(root), key, value) && size == old(size) + 1
    {
      if root.Nil? {
        root := Node(Nil, key, value, Nil);
        size := size + 1;
        return;
      }
      var t := root;
      var path, found := Descend(t, key);
      if found {
        return;
      }
      var parent := path[|path| - 1].node;
      var leaf := Visit(Node(Nil, key, value, Nil), key < parent.key);
      PushPath(t, key, value);
      root := RebalancePath(path + [leaf]);
      size := size + 1;
    }

    /** insert(pair): push, then designate the element stored under the key. */
    method Insert(item: Item<V>) returns (it: Item<V>)
      requires Valid()
      modifies this
      ensures Valid()
      ensures item.0 in Keys(old(root)) ==> root == old(root) && size == old(size)
      ensures item.0 !in Keys(old(root)) ==> root == Inserted(old(root), item.0, item.1) && size == old(size) + 1 && it == item
      ensures it.0 == item.0 && it in Items(root)
    {
      Push(item.0, item.1);
      InsertedCorrect(old(root), item.0, item.1);
      var found := Find(item.0);
      it := found.value;
      if item.0 !in Keys(old(root)) {
        var s := Items(root);
        var below := Below(Items(old(root)), item.0);
        assert s == below + [item] + Above(Items(old(root)), item.0);
        assert s[|below|] == item;
        OrderedItemsIncrease(root);
        var i :| 0 <= i < |s| && s[i] == it;
        assert i == |below|;
      }
    }

    /** The operator[] the code intends: insert the key with a default value unless present, and return the stored value. */
    method Index(key: int, default: V) returns (v: V)
      requires Valid()
      modifies this
      ensures Valid()
      ensures key in Keys(old(root)) ==> root == old(root) && size == old(size)
      ensures key !in Keys(old(root)) ==> root == Inserted(old(root), key, default) && size == old(size) + 1 && v == default
      ensures (key, v) in Items(root)
    {
      var it := Insert((key, default));
      v := it.1;
    }

    /** find_NodeType: the binary search descent; `Nil` is the null result. */
    method FindNode(key: int) returns (n: Subtree<V>)
      requires Valid()
      ensures n.Nil? <==> key !in Keys(root)
      ensures n.Node? ==> n.key == key && (n.key, n.value) in Items(root)
    {
      var current := root;
      while current.Node?
        invariant Ordered(current)
        invariant key in Keys(root) <==> key in Keys(current)
        invariant forall x :: x in Items(current) ==> x in Items(root)
        decreases current
      {
        if key < current.key {
          current := current.left;
        } else if current.key < key {
          current := current.right;
        } else {
          return current;
        }
      }
      return Nil;
    }

    /** find: the element with the key, or end() (`None`). */
    method Find(key: int) returns (r: Option<Item<V>>)
      requires Valid()
      ensures r.Some? <==> key in Keys(root)
      ensures r.Some? ==> r.value.0 == key && r.value in Items(root)
    {
      var n := FindNode(key);
      r := if n.Node? then Some((n.key, n.value)) else None;
    }

    method Count(key: int) returns (c: nat)
      requires Valid()
      ensures c == if key in Keys(root) then 1 else 0
    {
      var r := Find(key);
      c := if r.Some? then 1 else 0;
    }

    /** at: the value stored under the key, or the out_of_range error "not found". */
    method At(key: int) returns (r: Result<V>)
      requires Valid()
      ensures r.Err? <==> key !in Keys(root)
      ensures r.Err? ==> r.message == "not found"
      ensures r.Ok? ==> (key, r.value) in Items(root)
    {
      var n := FindNode(key);
      if n.Nil? {
        return Err("not found");
      }
      return Ok(n.value);
    }

    /** begin: the leftmost node, which holds the least key; `None` is end(). */
    method Begin() returns (r: Option<Item<V>>)
      requires Valid()
      ensures r.None? <==> Items(root) == []
      ensures r.Some? ==> r.value == Items(root)[0]
      ensures r.Some? ==> forall i :: 0 <= i < |Items(root)| ==> r.value.0 <= Items(root)[i].0
    {
      if root.Nil? {
        return None;
      }
      var current := root;
      while current.left.Node?
        invariant current.Node? && Items(current) != [] && Items(current)[0] == Items(root)[0]
        decreases current
      {
        current := current.left;
      }
      r := Some((current.key, current.value));
      OrderedItemsIncrease(root);
    }

    /** lower_bound: the first element whose key is not less than `key`; `None` is end(). */
    method LowerBound(key: int) returns (r: Option<Item<V>>)
      requires Valid()
      ensures r == FirstBeyond(Items(root), key, false)
      ensures r.None? <==> forall i :: 0 <= i < |Items(root)| ==> Items(root)[i].0 < key
      ensures r.Some? ==> r.value in Items(root) && key <= r.value.0
      ensures r.Some? ==> forall i :: 0 <= i < |Items(root)| && key <= Items(root)[i].0 ==> r.value.0 <= Items(root)[i].0
    {
      r := BoundSearch(key, false);
    }

    /** upper_bound: the first element whose key is greater than `key`; `None` is end(). */
    method UpperBound(key: int) returns (r: Option<Item<V>>)
      requires Valid()
      ensures r == FirstBeyond(Items(root), key, true)
      ensures r.None? <==> forall i :: 0 <= i < |Items(root)| ==> Items(root)[i].0 <= key
      ensures r.Some? ==> r.value in Items(root) && key < r.value.0
      ensures r.Some? ==> forall i :: 0 <= i < |Items(root)| && key < Items(root)[i].0 ==> r.value.0 <= Items(root)[i].0
    {
      r := BoundSearch(key, true);
    }

    /** The descent lower_bound and upper_bound share: remember the last node beyond the key and go left, else go right. */
    method BoundSearch(key: int, strict: bool) returns (r: Option<Item<V>>)
      requires Valid()
      ensures r == FirstBeyond(Items(root), key, strict)
      ensures r.None? <==> forall i :: 0 <= i < |Items(root)| ==> !Beyond(Items(root)[i].0, key, strict)
      ensures r.Some? ==> r.value in Items(root) && Beyond(r.value.0, key, strict)
      ensures r.Some? ==> forall i :: 0 <= i < |Items(root)| && Beyond(Items(root)[i].0, key, strict) ==> r.value.0 <= Items(root)[i].0
    {
      var current := root;
      r := None;
      while current.Node?
        invariant Ordered(current)
        invariant FirstBeyond(Items(root), key, strict) == OrElse(FirstBeyond(Items(current), key, strict), r)
        decreases current
      {
        FirstBeyondNode(current, key, strict);
        if Beyond(current.key, key, strict) {
          r := Some((current.key, current.value));
          current := current.left;
        } else {
          current := current.right;
        }
      }
      OrderedItemsIncrease(root);
      FirstBeyondLeast(Items(root), key, strict);
    }

    /** equal_range: the pair (lower_bound, upper_bound), which differ exactly when the key is present. */
    method EqualRange(key: int) returns (lo: Option<Item<V>>, hi: Option<Item<V>>)
      requires Valid()
      ensures lo == FirstBeyond(Items(root), key, false) && hi == FirstBeyond(Items(root), key, true)
      ensures lo != hi <==> key in Keys(root)
      ensures key in Keys(root) ==> lo.Some? && lo.value.0 == key
    {
      lo := LowerBound(key);
      hi := UpperBound(key);
      var s := Items(root);
      ItemKeysInKeys(root);
      if key in Keys(root) {
        KeysHaveItems(root, key);
        var j :| 0 <= j < |s| && s[j].0 == key;
        assert Beyond(s[j].0, key, false);
      } else {
        assert forall i :: 0 <= i < |s| ==> (Beyond(s[i].0, key, false) <==> Beyond(s[i].0, key, true));
        BeyondSame(s, key);
      }
    }

    method Clear()
      modifies this
      ensures Valid() && root == Nil && size == 0
    {
      root := Nil;
      size := 0;
    }

    /** swap exchanges the sentinels (and with them the trees) and the sizes; swapping with itself changes nothing. */
    method Swap(other: Tree<V>)
      modifies this, other
      ensures root == old(other.root) && size == old(other.size)
      ensures other.root == old(root) && other.size == old(size)
    {
      if this != other {
        root, other.root := other.root, root;
        size, other.size := other.size, size;
      }
    }

    /**
     * erase(pos), rebalancing the whole path from the root down to the
     * parent of the node that is unlinked. `pos` is the key of the designated
     * element, `None` is end(). The result designates the parent of the
     * unlinked node, `None` when that is the sentinel.
     */
    method EraseAt(pos: Option<int>) returns (next: Option<Item<V>>)
      requires Valid()
      requires pos.Some? ==> pos.value in Keys(root)
      modifies this
      ensures Valid()
      ensures pos.None? ==> root == old(root) && size == old(size) && next.None?
      ensures pos.Some? ==> root == Deleted(old(root), pos.value) && size == old(size) - 1
      ensures next.Some? ==> next.value.0 in Keys(root)
    {
      if pos.None? {
        return None;
      }
      var key := pos.value;
      var t := root;
      var path, target, isLeft := PathTo(t, key);
      DeletedCorrect(t, key);
      FilterSizes(t, key);
      var newPath: seq<Visit<V>>;
      if target.left.Nil? || target.right.Nil? {
        var child := if target.left.Nil? then target.right else target.left;
        if path == [] {
          root := child;
          size := size - 1;
          return None;
        }
        ErasedBelowPath(t, key, path, target, isLeft);
        assert Deleted(target, key) == child;
        newPath := ReplaceTop(path, isLeft, child);
        var parent := path[|path| - 1].node;
        next := Some((parent.key, parent.value));
      } else {
        var lower, parent := SuccessorPath(target, isLeft);
        if path == [] {
          newPath := lower;
        } else {
          RebuildCompose(path, lower);
          ErasedBelowPath(t, key, path, target, isLeft);
          newPath := path + lower;
        }
        next := Some(parent);
      }
      root := RebalancePath(newPath);
      size := size - 1;
    }

    /** erase(key): erase the element with the key if there is one, and report how many were erased. */
    method Erase(key: int) returns (n: nat)
      requires Valid()
      modifies this
      ensures Valid()
      ensures root == Deleted(old(root), key)
      ensures n == if key in Keys(old(root)) then 1 else 0
      ensures size == old(size) - n
    {
      var found := Find(key);
      DeletedCorrect(root, key);
      if found.None? {
        return 0;
      }
      var next := EraseAt(Some(key));
      return 1;
    }
  }

  lemma {:induction false} BeyondSame<V>(s: seq<Item<V>>, k: int)
    requires forall i :: 0 <= i < |s| ==> (Beyond(s[i].0, k, false) <==> Beyond(s[i].0, k, true))
    ensures FirstBeyond(s, k, false) == FirstBeyond(s, k, true)
  {
    if s != [] {
      assert forall i :: 0 <= i < |s[1..]| ==> s[1..][i] == s[i + 1];
      BeyondSame(s[1..], k);
    }
  }
}
