/**
 * karnauhova's `Fwd_list<T>` (S1/fwd_list.hpp): a singly linked list closed
 * into a ring by a sentinel node `fake_`. The first element is
 * `fake_->next`, the last element's `next` is `fake_`, and an empty list is
 * `fake_` pointing to itself.
 *
 * The nodes are heap objects whose `next` fields the methods relink in
 * place. Ghost fields give the public view: `nodes`, the element nodes in
 * list order, and `Contents`, their data. Nodes a method unlinks (and the
 * C++ deletes) stay in `Repr` but leave `nodes`.
 */
module ForwardList {

  class ListNode<T(0)> {
    const data: T
    var next: ListNode?<T>

    /** The sentinel: raw storage whose data is never read, linked to itself. */
    constructor Sentinel()
      ensures next == this
    {
      next := this;
    }

    constructor (data: T, next: ListNode?<T>)
      ensures this.data == data && this.next == next
    {
      this.data := data;
      this.next := next;
    }
  }

  ghost predicate Distinct<T>(s: seq<T>)
  {
    forall i, j :: 0 <= i < j < |s| ==> s[i] != s[j]
  }

  function Reversed<T>(s: seq<T>): (r: seq<T>)
    ensures |r| == |s|
    ensures forall i :: 0 <= i < |s| ==> r[i] == s[|s| - 1 - i]
  {
    if s == [] then [] else Reversed(s[1..]) + [s[0]]
  }

  /** Reversing twice gives the sequence back. */
  lemma ReversedTwice<T>(s: seq<T>)
    ensures Reversed(Reversed(s)) == s
  {
  }

  /** The elements of s that do not satisfy p, in their order. */
  function Without<T>(s: seq<T>, p: T -> bool): seq<T>
  {
    if s == [] then [] else Without(s[..|s| - 1], p) + (if p(s[|s| - 1]) then [] else [s[|s| - 1]])
  }

  /** How many elements of s satisfy p. */
  function Count<T>(s: seq<T>, p: T -> bool): nat
  {
    if s == [] then 0 else Count(s[..|s| - 1], p) + (if p(s[|s| - 1]) then 1 else 0)
  }

  /** Removing by a predicate keeps exactly the elements that fail it. */
  lemma {:induction false} WithoutMembers<T>(s: seq<T>, p: T -> bool)
    ensures forall x :: x in Without(s, p) <==> x in s && !p(x)
  {
    if s != [] {
      var init := s[..|s| - 1];
      WithoutMembers(init, p);
      assert s == init + [s[|s| - 1]];
    }
  }

  /** The length drops by the number of elements that satisfy the predicate. */
  lemma {:induction false} WithoutLength<T>(s: seq<T>, p: T -> bool)
    ensures |Without(s, p)| + Count(s, p) == |s|
  {
    if s != [] {
      WithoutLength(s[..|s| - 1], p);
    }
  }

  /** Removing a second time changes nothing. */
  lemma {:induction false} WithoutTwice<T>(s: seq<T>, p: T -> bool)
    ensures Without(Without(s, p), p) == Without(s, p)
  {
    if s != [] {
      var init := s[..|s| - 1];
      WithoutTwice(init, p);
      var w := Without(init, p);
      if !p(s[|s| - 1]) {
        var w2 := w + [s[|s| - 1]];
        assert w2[..|w2| - 1] == w && w2[|w2| - 1] == s[|s| - 1];
        assert Without(w2, p) == Without(w, p) + [s[|s| - 1]];
      } else {
        assert w + [] == w;
      }
    }
  }

  /** The position of a node in a sequence holding it. */
  ghost function IndexOf<T>(s: seq<T>, x: T): (i: nat)
    requires x in s
    ensures i < |s| && s[i] == x
    ensures forall j :: 0 <= j < i ==> s[j] != x
  {
    if s[0] == x then 0 else 1 + IndexOf(s[1..], x)
  }

  /** The node at position i of the walk that starts after the sentinel: ns[i], or the sentinel past the end. */
  function NodeAt<T(0)>(ns: seq<ListNode<T>>, fake: ListNode<T>, i: nat): ListNode<T>
  {
    if i < |ns| then ns[i] else fake
  }

  /**
   * The ring of a list whose nodes are ns and whose data is cs: the
   * sentinel points to the first node, each node to the next one, the last
   * node back to the sentinel; the nodes are distinct and none is the
   * sentinel.
   */
  ghost predicate Ring<T(0)>(fake: ListNode<T>, ns: seq<ListNode<T>>, cs: seq<T>, repr: set<ListNode<T>>)
    reads repr
  {
    && fake in repr && (forall i :: 0 <= i < |ns| ==> ns[i] in repr)
    && (forall i :: 0 <= i < |ns| ==> ns[i] != fake) && Distinct(ns)
    && |ns| == |cs|
    && (forall i :: 0 <= i < |ns| ==> ns[i].data == cs[i])
    && fake.next == NodeAt(ns, fake, 0)
    && (forall i {:trigger ns[i].next} :: 0 <= i < |ns| ==> ns[i].next == NodeAt(ns, fake, i + 1))
  }

  /** Removing position p of s shifts everything after it down by one. */
  lemma RemovedAt<T>(s: seq<T>, p: nat)
    requires p < |s|
    ensures |s[..p] + s[p + 1..]| == |s| - 1
    ensures forall m :: 0 <= m < p ==> (s[..p] + s[p + 1..])[m] == s[m]
    ensures forall m :: p < m < |s| ==> (s[..p] + s[p + 1..])[m - 1] == s[m]
  {
  }

  /**
   * The links of a ring after the node before position p (the sentinel
   * when p is 0) has been linked past node p, no other link having
   * changed: they form the ring of rest, the list without node p.
   */
  lemma Unlinked<T(0)>(fake: ListNode<T>, ns: seq<ListNode<T>>, cs: seq<T>, repr: set<ListNode<T>>, p: nat, prev: ListNode<T>,
                       rest: seq<ListNode<T>>, restData: seq<T>)
    requires fake in repr && (forall m :: 0 <= m < |ns| ==> ns[m] in repr && ns[m] != fake)
    requires Distinct(ns) && |ns| == |cs| && (forall m :: 0 <= m < |ns| ==> ns[m].data == cs[m])
    requires p < |ns| && prev == (if p == 0 then fake else ns[p - 1])
    requires prev.next == NodeAt(ns, fake, p + 1)
    requires p > 0 ==> fake.next == ns[0]
    requires forall m {:trigger ns[m].next} :: 0 <= m < |ns| && m + 1 != p ==> ns[m].next == NodeAt(ns, fake, m + 1)
    requires |rest| == |restData| == |ns| - 1
    requires forall m :: 0 <= m < p ==> rest[m] == ns[m] && restData[m] == cs[m]
    requires forall m :: p <= m < |rest| ==> rest[m] == ns[m + 1] && restData[m] == cs[m + 1]
    ensures Ring(fake, rest, restData, repr)
  {
    forall m | 0 <= m < |rest|
      ensures rest[m].next == NodeAt(rest, fake, m + 1)
    {
      if m + 1 < p {
        assert rest[m] == ns[m] && rest[m + 1] == ns[m + 1];
      } else if m + 1 == p {
        assert rest[m] == ns[m];
      } else {
        assert rest[m] == ns[m + 1];
      }
    }
    assert Distinct(rest) by {
      forall j, m | 0 <= j < m < |rest|
        ensures rest[j] != rest[m]
      {
        var j' := if j < p then j else j + 1;
        var m' := if m < p then m else m + 1;
        assert rest[j] == ns[j'] && rest[m] == ns[m'];
      }
    }
  }

  /**
   * Nodes each linked to the one before them, the first to the sentinel
   * and the sentinel to the last, form the ring of r, the nodes in reverse
   * order.
   */
  lemma ReversedRing<T(0)>(fake: ListNode<T>, ns: seq<ListNode<T>>, cs: seq<T>, repr: set<ListNode<T>>, r: seq<ListNode<T>>, rc: seq<T>)
    requires fake in repr && (forall m :: 0 <= m < |ns| ==> ns[m] in repr && ns[m] != fake)
    requires Distinct(ns) && |ns| == |cs| && (forall m :: 0 <= m < |ns| ==> ns[m].data == cs[m])
    requires ns != [] && fake.next == ns[|ns| - 1]
    requires forall m {:trigger ns[m].next} :: 0 <= m < |ns| ==> ns[m].next == (if m == 0 then fake else ns[m - 1])
    requires |r| == |rc| == |ns|
    requires forall i :: 0 <= i < |r| ==> r[i] == ns[|ns| - 1 - i] && rc[i] == cs[|ns| - 1 - i]
    ensures Ring(fake, r, rc, repr)
  {
    var k := |ns| - 1;
    forall i | 0 <= i < |r|
      ensures r[i].next == NodeAt(r, fake, i + 1)
    {
      assert r[i] == ns[k - i];
      if i + 1 < |r| {
        assert r[i + 1] == ns[k - i - 1];
      }
    }
    assert Distinct(r) by {
      forall i, j | 0 <= i < j < |r|
        ensures r[i] != r[j]
      {
        assert r[i] == ns[k - i] && r[j] == ns[k - j];
      }
    }
  }

  /** The data side of one step of remove_if that drops element i of s, now at position p. */
  lemma DropData<T>(s: seq<T>, cs: seq<T>, c: T -> bool, i: nat, p: nat)
    requires i < |s| && p < |cs| && c(s[i])
    requires cs[..p] == Without(s[..i], c) && cs[p..] == s[i..]
    ensures (cs[..p] + cs[p + 1..])[..p] == Without(s[..i + 1], c)
    ensures (cs[..p] + cs[p + 1..])[p..] == s[i + 1..]
  {
    assert s[..i + 1][..i] == s[..i];
    assert cs[p + 1..] == cs[p..][1..];
  }

  /** The data side of one step of remove_if that keeps element i of s at position p. */
  lemma KeepData<T>(s: seq<T>, cs: seq<T>, c: T -> bool, i: nat, p: nat)
    requires i < |s| && p < |cs| && !c(s[i])
    requires cs[..p] == Without(s[..i], c) && cs[p..] == s[i..]
    ensures cs[..p + 1] == Without(s[..i + 1], c) && cs[p + 1..] == s[i + 1..]
  {
    assert s[..i + 1][..i] == s[..i];
    assert cs[..p + 1] == cs[..p] + [cs[p]];
    assert cs[p + 1..] == cs[p..][1..];
  }

  class ForwardList<T(0, ==)> {
    var fake: ListNode<T>
    var size: nat
    ghost var nodes: seq<ListNode<T>>
    ghost var Contents: seq<T>
    ghost var Repr: set<ListNode<T>>

    /** The list's invariant: its ring, and a size field that counts the nodes. */
    ghost predicate Valid()
      reads this, Repr
    {
      Ring(fake, nodes, Contents, Repr) && size == |nodes|
    }

    /** The default constructor: the sentinel points to itself and the size is 0. */
    constructor ()
      ensures Valid() && fresh(Repr) && Contents == [] && size == 0
      ensures fake.next == fake
    {
      var f := new ListNode.Sentinel();
      fake := f;
      size := 0;
      nodes := [];
      Contents := [];
      Repr := {f};
    }

    function Empty(): (r: bool)
      reads this, Repr
      requires Valid()
      ensures r <==> Contents == []
    {
      size == 0
    }

    function Size(): (r: nat)
      reads this, Repr
      requires Valid()
      ensures r == |Contents|
    {
      size
    }

    /** front: the data of the node after the sentinel. An empty list leaves nothing to read. */
    function Front(): (x: T)
      reads this, Repr
      requires Valid() && size > 0
      ensures x == Contents[0]
    {
      fake.next.data
    }

    /** back: walk from the sentinel to the node whose next is the sentinel. */
    method Back() returns (x: T)
      requires Valid() && size > 0
      ensures x == Contents[|Contents| - 1]
    {
      var now := fake;
      ghost var i := 0;
      while now.next != fake
        invariant 0 <= i <= |nodes| && now == (if i == 0 then fake else nodes[i - 1])
        invariant now.next == NodeAt(nodes, fake, i)
        decreases |nodes| - i
      {
        now := now.next;
        i := i + 1;
      }
      x := now.data;
    }

    /** push_front: a new node between the sentinel and the old first node. */
    method PushFront(x: T)
      requires Valid()
      modifies this, Repr
      ensures Valid() && fresh(Repr - old(Repr))
      ensures Contents == [x] + old(Contents) && size == old(size) + 1
    {
      var n := new ListNode(x, fake.next);
      fake.next := n;
      size := size + 1;
      nodes := [n] + nodes;
      Contents := [x] + Contents;
      Repr := Repr + {n};
    }

    /** reverse: walk the ring once, pointing each node back at its predecessor; an empty list is left alone. */
    method Reverse()
      requires Valid()
      modifies this, Repr
      ensures Valid() && Repr == old(Repr)
      ensures Contents == Reversed(old(Contents)) && size == old(size)
    {
      if fake.next == fake {
        return;
      }
      var next := fake.next;
      var last := fake;
      ghost var k := 0;
      while next.next != fake
        modifies nodes
        invariant 0 <= k < |nodes| && next == nodes[k] && last == (if k == 0 then fake else nodes[k - 1])
        invariant fake.next == nodes[0] && Distinct(nodes) && forall i :: 0 <= i < |nodes| ==> nodes[i] != fake
        invariant forall i {:trigger nodes[i].next} :: 0 <= i < k ==> nodes[i].next == (if i == 0 then fake else nodes[i - 1])
        invariant forall i {:trigger nodes[i].next} :: k <= i < |nodes| ==> nodes[i].next == NodeAt(nodes, fake, i + 1)
        decreases |nodes| - k
      {
        var remember := next.next;
        next.next := last;
        last := next;
        next := remember;
        k := k + 1;
      }
      assert k == |nodes| - 1;
      next.next := last;
      fake.next := next;
      ghost var ns, cs := nodes, Contents;
      nodes, Contents := Reversed(ns), Reversed(cs);
      ReversedRing(fake, ns, cs, Repr, nodes, Contents);
    }

    /**
     * The unlinking step erase and remove_if share: prev, the node before
     * position p (the sentinel when p is 0), is linked past node p and the
     * size is decremented.
     */
    method UnlinkAfter(prev: ListNode<T>, ghost p: nat)
      requires Valid() && p < |nodes| && prev == (if p == 0 then fake else nodes[p - 1])
      modifies this, prev
      ensures Valid() && Repr == old(Repr) && fake == old(fake)
      ensures nodes == old(nodes[..p] + nodes[p + 1..]) && Contents == old(Contents[..p] + Contents[p + 1..])
      ensures size == old(size) - 1 && prev.next == NodeAt(nodes, fake, p)
    {
      prev.next := prev.next.next;
      size := size - 1;
      ghost var ns, cs := nodes, Contents;
      nodes, Contents := ns[..p] + ns[p + 1..], cs[..p] + cs[p + 1..];
      RemovedAt(ns, p);
      RemovedAt(cs, p);
      Unlinked(fake, ns, cs, Repr, p, prev, nodes, Contents);
    }

    /**
     * remove_if: one walk with `last` on the last kept node (the sentinel
     * at first) and `now` on the node being looked at; a node whose data
     * satisfies c is unlinked from `last` and the size is decremented.
     */
    method RemoveIf(c: T -> bool)
      requires Valid()
      modifies this, Repr
      ensures Valid() && Repr == old(Repr)
      ensures Contents == Without(old(Contents), c)
      ensures size == old(size) - Count(old(Contents), c)
    {
      var now: ListNode<T> := fake.next;
      var last: ListNode<T> := fake;
      ghost var i := 0;
      ghost var p := 0;
      while now != fake
        invariant Valid() && Repr == old(Repr)
        invariant p <= i <= |old(Contents)| && |nodes| == p + |old(Contents)| - i
        invariant now == NodeAt(nodes, fake, p) && last == (if p == 0 then fake else nodes[p - 1])
        invariant Contents[..p] == Without(old(Contents)[..i], c) && Contents[p..] == old(Contents)[i..]
        decreases |nodes| - p
      {
        if c(now.data) {
          var after := now.next;
          ghost var cs := Contents;
          UnlinkAfter(last, p);
          now := after;
          DropData(old(Contents), cs, c, i, p);
        } else {
          KeepData(old(Contents), Contents, c, i, p);
          last := now;
          now := now.next;
          p := p + 1;
        }
        i := i + 1;
      }
      assert p == |nodes| && i == |old(Contents)|;
      assert Contents == Contents[..p] && old(Contents) == old(Contents)[..i];
      WithoutLength(old(Contents), c);
    }

    /** remove: remove_if with the test "equal to value". */
    method Remove(value: T)
      requires Valid()
      modifies this, Repr
      ensures Valid() && Repr == old(Repr)
      ensures Contents == Without(old(Contents), x => x == value)
      ensures size == old(size) - Count(old(Contents), x => x == value)
    {
      RemoveIf(x => x == value);
    }

    /**
     * erase(pos): find the node before pos, link it past pos and return the
     * node that now follows it. Erasing at the sentinel (`cend()`) changes
     * nothing and returns the sentinel (`end()`). pos must be the sentinel
     * or a node of this list.
     */
    method Erase(pos: ListNode<T>) returns (r: ListNode<T>)
      requires Valid() && (pos == fake || pos in nodes)
      modifies this, Repr
      ensures Valid() && Repr == old(Repr)
      ensures pos == old(fake) ==> r == fake && unchanged(this) && unchanged(Repr)
      ensures pos != old(fake) ==>
                var i := IndexOf(old(nodes), pos);
                && nodes == old(nodes[..i] + nodes[i + 1..])
                && Contents == old(Contents[..i] + Contents[i + 1..])
                && size == old(size) - 1
                && r == NodeAt(nodes, fake, i)
    {
      if pos == fake {
        return fake;
      }
      ghost var i := IndexOf(nodes, pos);
      var prev := fake;
      ghost var j := 0;
      while prev.next != pos
        invariant 0 <= j <= i && prev == (if j == 0 then fake else nodes[j - 1])
        decreases i - j
      {
        prev := prev.next;
        j := j + 1;
      }
      UnlinkAfter(prev, i);
      r := prev.next;
    }

    /**
     * clear, as written: walks size nodes from the first one, decrementing
     * size, but never points the sentinel back at itself. A non-empty list
     * is left with size 0 and a sentinel still linked to its old first
     * node, which breaks the ring.
     */
    method ClearAsWritten()
      requires Valid()
      modifies this
      ensures size == 0 && fake == old(fake) && Repr == old(Repr) && Contents == [] && nodes == []
      ensures fake.next == old(fake.next)
      ensures old(size) > 0 ==> !Valid()
    {
      var last: ListNode<T> := fake.next;
      ghost var j := 0;
      while size > 0
        invariant fake == old(fake) && Repr == old(Repr) && nodes == old(nodes) && Contents == old(Contents)
        invariant j + size == |nodes| && last == NodeAt(nodes, fake, j)
        decreases size
      {
        var now: ListNode<T> := last.next;
        last := now;
        size := size - 1;
        j := j + 1;
      }
      nodes, Contents := [], [];
    }

    /** clear with the sentinel pointed back at itself: the list is empty and valid. */
    method Clear()
      requires Valid()
      modifies this, Repr
      ensures Valid() && Repr == old(Repr) && Contents == [] && size == 0
    {
      ClearAsWritten();
      fake.next := fake;
    }

    /** swap: the two lists exchange their sentinels and sizes, and so their contents. */
    method Swap(other: ForwardList<T>)
      requires Valid() && other.Valid()
      modifies this, other
      ensures Valid() && other.Valid()
      ensures Contents == old(other.Contents) && other.Contents == old(Contents)
      ensures size == old(other.size) && other.size == old(size)
      ensures Repr == old(other.Repr) && other.Repr == old(Repr)
    {
      fake, other.fake := other.fake, fake;
      size, other.size := other.size, size;
      nodes, other.nodes := other.nodes, nodes;
      Contents, other.Contents := other.Contents, Contents;
      Repr, other.Repr := other.Repr, Repr;
    }
  }
}
