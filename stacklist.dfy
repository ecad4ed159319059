/** `StackList`: a singly linked LIFO list. The nodes live in an arena `nodes`, addressed by
    index, which stands for the heap; `head` and each node's `next` are links into it. The
    ghost `spine` lists the arena indices reachable from `head`, top first. */
module StackLists {
  import opened Common
  import opened Arena

  datatype Node<T> = Node(data: T, next: Option<nat>)

  /** The data held by the arena nodes at the given indices, in order. */
  ghost function DataOf<T>(nodes: seq<Node<T>>, s: seq<nat>): seq<T>
    requires forall k :: 0 <= k < |s| ==> s[k] < |nodes|
  {
    seq(|s|, k requires 0 <= k < |s| => nodes[s[k]].data)
  }

  /** The elements of `s` that satisfy `f`, in their order in `s` (the effect of `retain`). */
  function Filter<T>(f: T -> bool, s: seq<T>): seq<T>
  {
    if s == [] then []
    else Filter(f, s[..|s| - 1]) + (if f(s[|s| - 1]) then [s[|s| - 1]] else [])
  }

  /** `s` backwards (the effect of `Vec::reverse`). */
  function Reverse<T>(s: seq<T>): seq<T>
  {
    if s == [] then [] else [s[|s| - 1]] + Reverse(s[..|s| - 1])
  }

  /** Element `k` of the reversal is element `|s| - 1 - k` of the original. */
  lemma {:induction false} ReverseIndex<T>(s: seq<T>)
    ensures |Reverse(s)| == |s|
    ensures forall k :: 0 <= k < |s| ==> Reverse(s)[k] == s[|s| - 1 - k]
    decreases |s|
  {
    if s != [] {
      ReverseIndex(s[..|s| - 1]);
    }
  }

  /** Reversing twice gives back the original. */
  lemma ReverseReverse<T>(s: seq<T>)
    ensures Reverse(Reverse(s)) == s
  {
    ReverseIndex(s);
    ReverseIndex(Reverse(s));
  }

  /** Reversing a prefix one element longer puts that element in front. */
  lemma ReverseSnoc<T>(s: seq<T>, i: nat)
    requires i < |s|
    ensures Reverse(s[..i + 1]) == [s[i]] + Reverse(s[..i])
  {
    assert s[..i + 1][..i] == s[..i];
  }

  /** One round of `extend`: pushing element `i` onto the contents after the first `i` pushes
      gives the contents after `i + 1` pushes. */
  lemma ExtendStep<T>(xs: seq<T>, i: nat, c: seq<T>, before: seq<T>)
    requires i < |xs| && before == Reverse(xs[..i]) + c
    ensures [xs[i]] + before == Reverse(xs[..i + 1]) + c
  {
    ReverseSnoc(xs, i);
  }

  /** Filtering a prefix one element longer adds that element exactly when it satisfies `f`. */
  lemma FilterSnoc<T>(f: T -> bool, s: seq<T>, i: nat)
    requires i < |s|
    ensures Filter(f, s[..i + 1]) == Filter(f, s[..i]) + (if f(s[i]) then [s[i]] else [])
  {
    assert s[..i + 1][..i] == s[..i];
  }

  /** Filtering distributes over concatenation, so the kept elements keep their relative
      order. */
  lemma {:induction false} FilterAppend<T>(f: T -> bool, a: seq<T>, b: seq<T>)
    ensures Filter(f, a + b) == Filter(f, a) + Filter(f, b)
    decreases |b|
  {
    if b != [] {
      var b' := b[..|b| - 1];
      assert (a + b)[..|a + b| - 1] == a + b';
      FilterAppend(f, a, b');
    } else {
      assert a + b == a;
    }
  }

  /** An element is kept exactly when it occurs in the input and satisfies `f`. */
  lemma {:induction false} FilterMembers<T>(f: T -> bool, s: seq<T>)
    ensures forall x :: x in Filter(f, s) <==> x in s && f(x)
    decreases |s|
  {
    if s != [] {
      var s' := s[..|s| - 1];
      FilterMembers(f, s');
      assert s == s' + [s[|s| - 1]];
    }
  }

  /** Filtering twice with the same predicate keeps the same elements as filtering once. */
  lemma {:induction false} FilterIdempotent<T>(f: T -> bool, s: seq<T>)
    ensures Filter(f, Filter(f, s)) == Filter(f, s)
    decreases |s|
  {
    if s != [] {
      var s' := s[..|s| - 1];
      var last := s[|s| - 1];
      FilterIdempotent(f, s');
      FilterAppend(f, Filter(f, s'), if f(last) then [last] else []);
      if f(last) {
        assert Filter(f, [last]) == [last] by {
          assert [last][..0] == [];
        }
      }
    }
  }

  /** The retain unit test: the list built from 1, 2, 3, 4, 5 holds 5, 4, 3, 2, 1 top first,
      and keeping the even elements leaves 4, 2. */
  lemma RetainExample()
    ensures Reverse([1, 2, 3, 4, 5]) == [5, 4, 3, 2, 1]
    ensures Filter((x: int) => x % 2 == 0, [5, 4, 3, 2, 1]) == [4, 2]
  {
    var r := Reverse([1, 2, 3, 4, 5]);
    ReverseIndex([1, 2, 3, 4, 5]);
    assert r[0] == 5 && r[1] == 4 && r[2] == 3 && r[3] == 2 && r[4] == 1;
    FilterEvenExample((x: int) => x % 2 == 0);
  }

  /** Keeping the even elements of 5, 4, 3, 2, 1, one prefix at a time. */
  lemma FilterEvenExample(even: int -> bool)
    requires forall x :: even(x) == (x % 2 == 0)
    ensures Filter(even, [5, 4, 3, 2, 1]) == [4, 2]
  {
    var s := [5, 4, 3, 2, 1];
    assert Filter(even, s[..0]) == [];
    FilterSnoc(even, s, 0);
    FilterSnoc(even, s, 1);
    assert Filter(even, s[..2]) == [4];
    FilterSnoc(even, s, 2);
    FilterSnoc(even, s, 3);
    assert Filter(even, s[..4]) == [4, 2];
    FilterSnoc(even, s, 4);
    assert s[..5] == s;
  }

  /** `into_vec` gives the elements back in insertion order: pushing `xs` onto an empty list
      and converting it returns `xs`. */
  lemma IntoVecInsertionOrder<T>(xs: seq<T>)
    ensures Reverse(Reverse(xs) + []) == xs
  {
    assert Reverse(xs) + [] == Reverse(xs);
    ReverseReverse(xs);
  }

  /** The arena nodes at the indices of `s` form a list starting at `head` with `len`
      distinct nodes, each linked to the next, the last one to nothing. */
  ghost predicate Linked<T>(nodes: seq<Node<T>>, head: Option<nat>, len: nat, s: seq<nat>)
  {
    |s| == len
    && (forall k :: 0 <= k < |s| ==> s[k] < |nodes|)
    && Distinct(s)
    && head == First(s)
    && (forall k {:trigger nodes[s[k]]} :: 0 <= k < |s| ==> nodes[s[k]].next == Link(s, k))
  }

  /** Unlinking the top node: `head` takes the top node's link. */
  lemma UnlinkTop<T>(nodes: seq<Node<T>>, s: seq<nat>)
    requires s != [] && Linked(nodes, First(s), |s|, s)
    ensures Linked(nodes, nodes[s[0]].next, |s| - 1, s[1..])
    ensures DataOf(nodes, s[1..]) == DataOf(nodes, s)[1..]
  {
  }

  /** Linking a node that is not on the list on top of it (`push_node`). */
  lemma LinkTop<T>(nodes: seq<Node<T>>, s: seq<nat>, n: nat)
    requires Linked(nodes, First(s), |s|, s) && n < |nodes| && n !in s
    ensures Linked(nodes[n := nodes[n].(next := First(s))], Some(n), |s| + 1, [n] + s)
    ensures DataOf(nodes[n := nodes[n].(next := First(s))], [n] + s) == [nodes[n].data] + DataOf(nodes, s)
  {
    LinkTopLinks(nodes, s, n);
    LinkTopData(nodes, s, n);
    DistinctCons(n, s);
  }

  /** After `push_node`, each node of the new spine links to its successor. */
  lemma LinkTopLinks<T>(nodes: seq<Node<T>>, s: seq<nat>, n: nat)
    requires Linked(nodes, First(s), |s|, s) && n < |nodes| && n !in s
    ensures forall k :: 0 <= k < |[n] + s| ==> ([n] + s)[k] < |nodes|
    ensures forall k :: 0 <= k < |[n] + s| ==>
      nodes[n := nodes[n].(next := First(s))][([n] + s)[k]].next == Link([n] + s, k)
  {
    var r := nodes[n := nodes[n].(next := First(s))];
    var t := [n] + s;
    forall k | 0 <= k < |t|
      ensures t[k] < |nodes| && r[t[k]].next == Link(t, k)
    {
      if k > 0 {
        assert t[k] == s[k - 1];
        assert nodes[s[k - 1]].next == Link(s, k - 1);
        assert k < |s| ==> t[k + 1] == s[k];
      } else if s != [] {
        assert t[1] == s[0];
      }
    }
  }

  /** After `push_node`, the data along the new spine is the pushed node's followed by the
      old data. */
  lemma LinkTopData<T>(nodes: seq<Node<T>>, s: seq<nat>, n: nat)
    requires forall k :: 0 <= k < |s| ==> s[k] < |nodes|
    requires n < |nodes|
    ensures forall k :: 0 <= k < |[n] + s| ==> ([n] + s)[k] < |nodes|
    ensures DataOf(nodes[n := nodes[n].(next := First(s))], [n] + s) == [nodes[n].data] + DataOf(nodes, s)
  {
    var r := nodes[n := nodes[n].(next := First(s))];
    var t := [n] + s;
    forall k | 0 <= k < |t|
      ensures t[k] < |nodes| && r[t[k]].data == ([nodes[n].data] + DataOf(nodes, s))[k]
    {
      if k > 0 {
        assert t[k] == s[k - 1];
      }
    }
  }

  /** Bypassing changes no node's data. */
  lemma BypassData<T>(nodes: seq<Node<T>>, s: seq<nat>, m: nat)
    requires 0 < m < |s| && s[m - 1] < |nodes| && s[m] < |nodes|
    ensures |Bypass(nodes, s, m)| == |nodes|
    ensures forall n :: 0 <= n < |nodes| ==> Bypass(nodes, s, m)[n].data == nodes[n].data
  {
  }

  /** The arena after the node before position `m` takes the link of the node at `m`. */
  function Bypass<T>(nodes: seq<Node<T>>, s: seq<nat>, m: nat): seq<Node<T>>
    requires 0 < m < |s| && s[m - 1] < |nodes| && s[m] < |nodes|
  {
    nodes[s[m - 1] := nodes[s[m - 1]].(next := nodes[s[m]].next)]
  }

  /** Unlinking the node at position `m > 0`: its predecessor takes its link. */
  lemma UnlinkAfter<T>(nodes: seq<Node<T>>, h: Option<nat>, s: seq<nat>, m: nat)
    requires 0 < m < |s| && Linked(nodes, h, |s|, s)
    ensures Linked(Bypass(nodes, s, m), h, |s| - 1, Without(s, m))
    ensures DataOf(Bypass(nodes, s, m), Without(s, m)) == DataOf(nodes, s)[..m] + DataOf(nodes, s)[m + 1..]
  {
    UnlinkAfterLinks(nodes, s, m);
    UnlinkAfterData(nodes, s, m);
  }

  lemma UnlinkAfterLinks<T>(nodes: seq<Node<T>>, s: seq<nat>, m: nat)
    requires 0 < m < |s| && Linked(nodes, First(s), |s|, s)
    ensures Linked(Bypass(nodes, s, m), First(s), |s| - 1, Without(s, m))
  {
    DistinctRemove(s, m);
    var nodes' := Bypass(nodes, s, m);
    var t := Without(s, m);
    forall k | 0 <= k < |t|
      ensures nodes'[t[k]].next == Link(t, k)
    {
      BypassLink(nodes, s, m, k);
    }
  }

  lemma UnlinkAfterData<T>(nodes: seq<Node<T>>, s: seq<nat>, m: nat)
    requires 0 < m < |s| && forall k :: 0 <= k < |s| ==> s[k] < |nodes|
    ensures DataOf(Bypass(nodes, s, m), Without(s, m)) == DataOf(nodes, s)[..m] + DataOf(nodes, s)[m + 1..]
  {
    BypassData(nodes, s, m);
    var r := Bypass(nodes, s, m);
    var t := Without(s, m);
    var d := DataOf(nodes, s);
    forall k | 0 <= k < |t|
      ensures r[t[k]].data == (d[..m] + d[m + 1..])[k]
    {
      if k < m {
        assert t[k] == s[k];
      } else {
        assert t[k] == s[k + 1];
      }
    }
  }

  /** The link of position `k` after a bypass at `m`. */
  lemma BypassLink<T>(nodes: seq<Node<T>>, s: seq<nat>, m: nat, k: nat)
    requires 0 < m < |s| && Linked(nodes, First(s), |s|, s) && k < |s| - 1
    ensures Bypass(nodes, s, m)[Without(s, m)[k]].next == Link(Without(s, m), k)
  {
    var t := Without(s, m);
    if k < m - 1 {
      assert t[k] == s[k] && t[k + 1] == s[k + 1];
      assert s[k] != s[m - 1];
    } else if k == m - 1 {
      assert t[k] == s[m - 1];
    } else {
      assert t[k] == s[k + 1];
      assert s[k + 1] != s[m - 1];
    }
  }

  /** Overwriting the data of the node at spine position `index` keeps the links and changes
      only element `index`. */
  lemma WriteAt<T>(nodes: seq<Node<T>>, h: Option<nat>, s: seq<nat>, index: nat, v: T)
    requires Linked(nodes, h, |s|, s) && index < |s|
    ensures Linked(nodes[s[index] := nodes[s[index]].(data := v)], h, |s|, s)
    ensures DataOf(nodes[s[index] := nodes[s[index]].(data := v)], s) == DataOf(nodes, s)[index := v]
  {
    var r := nodes[s[index] := nodes[s[index]].(data := v)];
    forall k | 0 <= k < |s| && k != index
      ensures r[s[k]] == nodes[s[k]]
    {
      assert s[k] != s[index];
    }
  }

  /** A node off the list can be changed without affecting the list. */
  lemma UpdateOffList<T>(nodes: seq<Node<T>>, h: Option<nat>, s: seq<nat>, n: nat, v: Node<T>)
    requires Linked(nodes, h, |s|, s) && n < |nodes| && n !in s
    ensures Linked(nodes[n := v], h, |s|, s)
    ensures DataOf(nodes[n := v], s) == DataOf(nodes, s)
  {
  }

  /** An iterator: the next node to visit and the number of elements still to yield. */
  datatype Iter = Iter(current: Option<nat>, remaining: nat)

  /** One round of `into_vec`: the popped element moves from the front of the remaining
      elements to the back of the vector. */
  lemma PopShift<T>(items: seq<T>, v: T, rest: seq<T>, c: seq<T>)
    requires items + [v] + rest == c
    ensures rest != [] ==> (items + [v]) + [rest[0]] + rest[1..] == c
    ensures rest == [] ==> items + [v] == c
  {
    if rest != [] {
      assert [rest[0]] + rest[1..] == rest;
    }
  }

  class StackList<T> {
    var nodes: seq<Node<T>>
    var head: Option<nat>
    var len: nat
    ghost var spine: seq<nat>

    /** The spine starts at `head`, is linked through `next`, has `len` distinct nodes of the
        arena, and its last node has no successor. */
    ghost predicate Valid()
      reads this
    {
      Linked(nodes, head, len, spine)
    }

    /** The elements, top of the stack first. */
    ghost function Contents(): seq<T>
      requires Valid()
      reads this
    {
      DataOf(nodes, spine)
    }

    /** `new`: an empty list. */
    constructor New()
      ensures Valid() && Contents() == [] && nodes == []
    {
      nodes := [];
      head := None;
      len := 0;
      spine := [];
    }

    /** `Box::new(Node::new(data))`: a fresh unlinked node, not on the list. */
    method NewNode(data: T) returns (node: nat)
      requires Valid()
      modifies this
      ensures Valid() && Contents() == old(Contents())
      ensures node == |old(nodes)| && nodes == old(nodes) + [Node(data, None)]
      ensures head == old(head) && len == old(len) && spine == old(spine)
    {
      node := |nodes|;
      nodes := nodes + [Node(data, None)];
      assert DataOf(nodes, spine) == DataOf(old(nodes), spine);
    }

    /** `push_node`: the node, which must not already be on the list, becomes the new top. */
    method PushNode(node: nat)
      requires Valid() && node < |nodes| && node !in spine
      modifies this
      ensures Valid()
      ensures Contents() == [old(nodes[node].data)] + old(Contents())
      ensures spine == [node] + old(spine) && |nodes| == |old(nodes)|
    {
      LinkTop(nodes, spine, node);
      nodes := nodes[node := nodes[node].(next := head)];
      head := Some(node);
      len := len + 1;
      spine := [node] + spine;
    }

    /** `push`: the data becomes the new top. */
    method Push(data: T)
      requires Valid()
      modifies this
      ensures Valid() && Contents() == [data] + old(Contents())
    {
      var node := NewNode(data);
      PushNode(node);
    }

    /** `pop_node`: unlinks the top node and returns it, or None on an empty list. */
    method PopNode() returns (r: Option<nat>)
      requires Valid()
      modifies this
      ensures Valid()
      ensures r == First(old(spine))
      ensures r.Some? ==> r.value < |nodes| && r.value !in spine && nodes[r.value].data == old(Contents())[0]
      ensures Contents() == if old(Contents()) == [] then [] else old(Contents())[1..]
      ensures spine == if old(spine) == [] then [] else old(spine)[1..]
      ensures |nodes| == |old(nodes)|
    {
      if head.None? {
        return None;
      }
      var node := head.value;
      UnlinkTop(nodes, spine);
      UpdateOffList(nodes, nodes[node].next, spine[1..], node, nodes[node].(next := None));
      head := nodes[node].next;
      nodes := nodes[node := nodes[node].(next := None)];
      len := len - 1;
      spine := spine[1..];
      return Some(node);
    }

    /** `pop`: removes the top element and returns it, or None on an empty list. */
    method Pop() returns (r: Option<T>)
      requires Valid()
      modifies this
      ensures Valid()
      ensures r == if old(Contents()) == [] then None else Some(old(Contents())[0])
      ensures Contents() == if old(Contents()) == [] then [] else old(Contents())[1..]
    {
      var node := PopNode();
      if node.None? {
        return None;
      }
      return Some(nodes[node.value].data);
    }

    /** `peek`: the top element, or None on an empty list. */
    function Peek(): (r: Option<T>)
      requires Valid()
      reads this
      ensures r == if Contents() == [] then None else Some(Contents()[0])
    {
      if head.None? then None else Some(nodes[head.value].data)
    }

    /** `len`. */
    function Len(): (r: nat)
      requires Valid()
      reads this
      ensures r == |Contents()|
    {
      len
    }

    /** `is_empty` tests `head`, which agrees with the length. */
    function IsEmpty(): (r: bool)
      requires Valid()
      reads this
      ensures r <==> Contents() == []
      ensures r <==> len == 0
    {
      head.None?
    }

    /** `get`: walks `index` links from the top. */
    method Get(index: nat) returns (r: Option<T>)
      requires Valid()
      ensures r == if index < |Contents()| then Some(Contents()[index]) else None
    {
      if index >= len {
        return None;
      }
      var current := head.value;
      var i := 0;
      while i < index
        invariant 0 <= i <= index
        invariant current == spine[i]
      {
        current := nodes[current].next.value;
        i := i + 1;
      }
      return Some(nodes[current].data);
    }

    /** `get_mut`: the same walk; it returns the node whose data the caller may overwrite
        through the reference (see Write). */
    method GetMut(index: nat) returns (r: Option<nat>)
      requires Valid()
      ensures r.None? <==> index >= |Contents()|
      ensures r.Some? ==> r.value == spine[index] && nodes[r.value].data == Contents()[index]
    {
      if index >= len {
        return None;
      }
      var current := head.value;
      var i := 0;
      while i < index
        invariant 0 <= i <= index
        invariant current == spine[i]
      {
        current := nodes[current].next.value;
        i := i + 1;
      }
      return Some(current);
    }

    /** A write through the reference `get_mut` hands out: position `index` gets `v` and
        nothing else changes. */
    method Write(node: nat, ghost index: nat, v: T)
      requires Valid() && index < |spine| && node == spine[index]
      modifies this
      ensures Valid() && spine == old(spine)
      ensures Contents() == old(Contents())[index := v]
    {
      ghost var n0 := nodes;
      nodes := nodes[node := nodes[node].(data := v)];
      WriteAt(n0, head, spine, index, v);
    }

    /** `remove_at`: unlinks the node at `index` and returns it, or None when `index` is past
        the end. The other elements keep their order. */
    method RemoveAt(index: nat) returns (r: Option<nat>)
      requires Valid()
      modifies this
      ensures Valid()
      ensures r == if index < |old(spine)| then Some(old(spine)[index]) else None
      ensures r.Some? ==> r.value < |nodes| && r.value !in spine && nodes[r.value].data == old(Contents())[index]
      ensures Contents() ==
        if index < |old(Contents())| then old(Contents())[..index] + old(Contents())[index + 1..]
        else old(Contents())
    {
      if index >= len {
        return None;
      }
      if index == 0 {
        r := PopNode();
        assert old(Contents())[..0] + old(Contents())[1..] == old(Contents())[1..];
        return;
      }
      var current := head.value;
      var i := 0;
      while i < index - 1
        invariant 0 <= i <= index - 1
        invariant current == spine[i]
      {
        current := nodes[current].next.value;
        i := i + 1;
      }
      var target := nodes[current].next.value;
      Unlink(Some(current), target, index);
      return Some(target);
    }

    /** The link rewrite shared by `remove_at` and `retain`: the link that points at `node`
        (`head` when `prev` is None, else the `next` of node `prev`) takes `node`'s own link. */
    method Unlink(prev: Option<nat>, node: nat, ghost m: nat)
      requires Valid() && m < |spine| && node == spine[m]
      requires prev == if m == 0 then None else Some(spine[m - 1])
      modifies this
      ensures Valid()
      ensures spine == Without(old(spine), m) && node !in spine
      ensures Contents() == old(Contents())[..m] + old(Contents())[m + 1..]
      ensures |nodes| == |old(nodes)|
      ensures forall n :: 0 <= n < |nodes| ==> nodes[n].data == old(nodes)[n].data
    {
      DistinctRemove(spine, m);
      if prev.None? {
        UnlinkFromHead(node);
      } else {
        UnlinkFromNode(prev.value, node, m);
      }
    }

    /** The top node is unlinked: `head` takes its link; the arena is untouched. */
    method UnlinkFromHead(node: nat)
      requires Valid() && spine != [] && node == spine[0]
      modifies this`head, this`len, this`spine
      ensures Valid()
      ensures spine == Without(old(spine), 0)
      ensures Contents() == old(Contents())[..0] + old(Contents())[1..]
    {
      ghost var s0 := spine;
      head := nodes[node].next;
      len := len - 1;
      spine := Without(spine, 0);
      UnlinkTop(nodes, s0);
      assert s0[1..] == spine;
      assert DataOf(nodes, s0)[1..] == DataOf(nodes, s0)[..0] + DataOf(nodes, s0)[1..];
    }

    /** The node at position `m > 0` is unlinked: its predecessor `prev` takes its link. */
    method UnlinkFromNode(prev: nat, node: nat, ghost m: nat)
      requires Valid() && 0 < m < |spine| && node == spine[m] && prev == spine[m - 1]
      modifies this`nodes, this`len, this`spine
      ensures Valid()
      ensures spine == Without(old(spine), m)
      ensures Contents() == old(Contents())[..m] + old(Contents())[m + 1..]
      ensures |nodes| == |old(nodes)|
      ensures forall n :: 0 <= n < |nodes| ==> nodes[n].data == old(nodes)[n].data
    {
      ghost var n0 := nodes;
      ghost var s0 := spine;
      nodes := nodes[prev := nodes[prev].(next := nodes[node].next)];
      len := len - 1;
      spine := Without(spine, m);
      assert nodes == Bypass(n0, s0, m);
      UnlinkAfter(n0, head, s0, m);
      BypassData(n0, s0, m);
    }

    /** `retain`: unlinks every node whose data fails `f`, walking a pointer to the link being
        examined (`prev` None stands for `head`, `Some(p)` for the `next` of node `p`). */
    method Retain(f: T -> bool)
      requires Valid()
      modifies this
      ensures Valid()
      ensures Contents() == Filter(f, old(Contents()))
    {
      ghost var s := spine;
      ghost var c := Contents();
      ghost var kept: seq<nat> := [];
      ghost var k := 0;
      var prev: Option<nat> := None;
      var cur := head;
      RetainStart(f);
      while cur.Some?
        invariant RetainInv(f, s, c, kept, k, prev, cur)
        decreases |s| - k
      {
        prev, cur, kept, k := RetainStep(f, s, c, kept, k, prev, cur);
      }
      RetainDone(f, s, c, kept, k, prev, cur);
    }

    /** Before the walk nothing has been examined. */
    lemma RetainStart(f: T -> bool)
      requires Valid()
      ensures RetainInv(f, spine, Contents(), [], 0, None, head)
    {
      var c := Contents();
      assert c[..0] == [];
      assert c[0..] == c;
      assert spine[0..] == spine;
    }

    /** When the walk runs off the end, every element has been examined. */
    lemma RetainDone(f: T -> bool, s: seq<nat>, c: seq<T>, kept: seq<nat>, k: nat,
                     prev: Option<nat>, cur: Option<nat>)
      requires RetainInv(f, s, c, kept, k, prev, cur) && cur.None?
      ensures Valid() && Contents() == Filter(f, c)
    {
      assert s[k..] == [];
      assert k == |c|;
      assert c[..k] == c;
      assert c[k..] == [];
    }

    /** The state of the `retain` walk over the original spine `s` with contents `c`: the
        first `k` nodes have been examined, `kept` are the ones kept, `cur` is the next one
        and `prev` the last one kept. */
    ghost predicate RetainInv(f: T -> bool, s: seq<nat>, c: seq<T>, kept: seq<nat>, k: nat,
                              prev: Option<nat>, cur: Option<nat>)
      reads this
    {
      Valid()
      && k <= |s| && spine == kept + s[k..]
      && prev == (if kept == [] then None else Some(kept[|kept| - 1]))
      && cur == First(s[k..])
      && |c| == |s| && |Filter(f, c[..k])| == |kept|
      && Contents() == Filter(f, c[..k]) + c[k..]
    }

    /** One iteration of the `retain` loop: keep the current node and step past it, or
        unlink it and step to its successor. */
    method RetainStep(f: T -> bool, ghost s: seq<nat>, ghost c: seq<T>, ghost kept: seq<nat>,
                      ghost k: nat, prev: Option<nat>, cur: Option<nat>)
      returns (prev': Option<nat>, cur': Option<nat>, ghost kept': seq<nat>, ghost k': nat)
      requires cur.Some? && RetainInv(f, s, c, kept, k, prev, cur)
      modifies this
      ensures RetainInv(f, s, c, kept', k', prev', cur') && k' == k + 1
    {
      var node := cur.value;
      assert node < |nodes| by {
        assert node == spine[|kept|];
      }
      k' := k + 1;
      if f(nodes[node].data) {
        KeepStep(f, s, c, kept, k, prev, cur);
        prev' := Some(node);
        cur' := nodes[node].next;
        kept' := kept + [node];
      } else {
        cur' := DropStep(f, s, c, kept, k, prev, cur);
        prev' := prev;
        kept' := kept;
      }
    }

    /** A node `retain` keeps: the walk moves past it. */
    lemma KeepStep(f: T -> bool, s: seq<nat>, c: seq<T>, kept: seq<nat>, k: nat,
                   prev: Option<nat>, cur: Option<nat>)
      requires cur.Some? && RetainInv(f, s, c, kept, k, prev, cur)
      requires cur.value < |nodes| && f(nodes[cur.value].data)
      ensures RetainInv(f, s, c, kept + [cur.value], k + 1, Some(cur.value), nodes[cur.value].next)
    {
      RetainAt(f, c, k, kept, s);
      assert nodes[cur.value].data == c[k] by {
        assert cur.value == spine[|kept|];
      }
    }

    /** A node `retain` drops: it is unlinked and the walk goes on at its successor. */
    method DropStep(f: T -> bool, ghost s: seq<nat>, ghost c: seq<T>, ghost kept: seq<nat>,
                    ghost k: nat, prev: Option<nat>, cur: Option<nat>)
      returns (cur': Option<nat>)
      requires cur.Some? && RetainInv(f, s, c, kept, k, prev, cur)
      requires cur.value < |nodes| && !f(nodes[cur.value].data)
      modifies this
      ensures RetainInv(f, s, c, kept, k + 1, prev, cur')
    {
      var node := cur.value;
      DropBefore(f, s, c, kept, k, prev, cur);
      ghost var sp0 := spine;
      ghost var c0 := Contents();
      var after := nodes[node].next;
      DropNode(prev, node, |kept|);
      cur' := after;
      DropAfter(f, s, c, kept, k, prev, cur', sp0, c0);
    }

    /** Before a node is dropped: it is at position `|kept|` of the spine, holds element `k`,
        and links to the rest of the original spine. */
    lemma DropBefore(f: T -> bool, s: seq<nat>, c: seq<T>, kept: seq<nat>, k: nat,
                     prev: Option<nat>, cur: Option<nat>)
      requires cur.Some? && RetainInv(f, s, c, kept, k, prev, cur)
      requires cur.value < |nodes| && !f(nodes[cur.value].data)
      ensures |kept| < |spine| && cur.value == spine[|kept|] && k < |s|
      ensures prev == if |kept| == 0 then None else Some(spine[|kept| - 1])
      ensures nodes[cur.value].next == First(s[k + 1..])
      ensures !f(c[k])
    {
      RetainAt(f, c, k, kept, s);
      assert cur.value == spine[|kept|];
      assert nodes[cur.value].data == c[k];
    }

    /** After the node at position `|kept|` is dropped, the walk stands at `k + 1`. */
    lemma DropAfter(f: T -> bool, s: seq<nat>, c: seq<T>, kept: seq<nat>, k: nat,
                    prev: Option<nat>, cur: Option<nat>, sp0: seq<nat>, c0: seq<T>)
      requires Valid() && |kept| < |sp0| && k < |s| && |c| == |s| && !f(c[k])
      requires sp0 == kept + s[k..] && c0 == Filter(f, c[..k]) + c[k..]
      requires |Filter(f, c[..k])| == |kept|
      requires spine == Without(sp0, |kept|)
      requires Contents() == c0[..|kept|] + c0[|kept| + 1..]
      requires prev == (if kept == [] then None else Some(kept[|kept| - 1]))
      requires cur == First(s[k + 1..])
      ensures RetainInv(f, s, c, kept, k + 1, prev, cur)
    {
      RetainAt(f, c, k, kept, s);
    }

    method DropNode(prev: Option<nat>, node: nat, ghost m: nat)
      requires Valid() && m < |spine| && node == spine[m]
      requires prev == if m == 0 then None else Some(spine[m - 1])
      modifies this
      ensures Valid()
      ensures spine == Without(old(spine), m)
      ensures Contents() == old(Contents())[..m] + old(Contents())[m + 1..]
    {
      Unlink(prev, node, m);
      UpdateOffList(nodes, head, spine, node, nodes[node].(next := None));
      nodes := nodes[node := nodes[node].(next := None)];
    }

    /** `iter`: an iterator positioned at the top with `len` elements to yield. */
    function Iterate(): (it: Iter)
      requires Valid()
      reads this
      ensures it.current == First(spine) && it.remaining == |Contents()|
    {
      Iter(head, len)
    }

    /** `Iter::next`: None once `remaining` is 0; otherwise the data of the current node, and
        the iterator moves along its link with one element fewer to go. */
    function IterNext(it: Iter): (r: (Option<T>, Iter))
      requires Valid()
      requires it.remaining == 0 || it.current.None? || it.current.value < |nodes|
      reads this
      ensures it.remaining == 0 ==> r.0.None?
      ensures r.0.Some? ==> r.1.remaining == it.remaining - 1
    {
      if it.remaining == 0 then (None, it)
      else match it.current
        case None => (None, it)
        case Some(n) => (Some(nodes[n].data), Iter(nodes[n].next, it.remaining - 1))
    }

    /** An iterator that has yielded `k` elements stands at spine position `k`. */
    ghost predicate IterAt(it: Iter, k: nat)
      requires Valid()
      reads this
    {
      k <= |spine| && it.current == First(spine[k..]) && it.remaining == |spine| - k
    }

    /** One step from position `k` yields element `k` and moves to position `k + 1`; at the
        end it yields None. */
    lemma IterNextAt(it: Iter, k: nat)
      requires Valid() && IterAt(it, k)
      ensures k < |spine| ==>
        (it.current.value < |nodes|
          && IterNext(it).0 == Some(Contents()[k]) && IterAt(IterNext(it).1, k + 1))
      ensures k == |spine| ==> IterNext(it).0.None?
    {
      if k < |spine| {
        assert it.current == Some(spine[k]);
        assert nodes[spine[k]].next == First(spine[k + 1..]);
      }
    }

    /** `iter().cloned().collect()`: the iterator yields exactly the `len` elements, top
        first. */
    method Collect() returns (items: seq<T>)
      requires Valid()
      ensures items == Contents() && |items| == len
    {
      ghost var c := Contents();
      var it := Iterate();
      ghost var k := 0;
      items := [];
      IterNextAt(it, k);
      var step := IterNext(it);
      while step.0.Some?
        invariant CollectInv(c, it, k, items, step)
        decreases |c| - k
      {
        it, k, items, step := CollectStep(c, it, k, items, step);
      }
      IterNextAt(it, k);
      assert items == c[..|c|];
    }

    /** The state of the `collect` loop after `k` elements: `items` holds the first `k`
        elements and `step` is the iterator's next answer. */
    ghost predicate CollectInv(c: seq<T>, it: Iter, k: nat, items: seq<T>, step: (Option<T>, Iter))
      requires Valid()
      reads this
    {
      c == Contents() && IterAt(it, k) && items == c[..k]
      && (it.remaining == 0 || it.current.None? || it.current.value < |nodes|)
      && step == IterNext(it)
    }

    /** One round of the `collect` loop: the yielded element is appended and the iterator
        moves on. */
    method CollectStep(ghost c: seq<T>, it: Iter, ghost k: nat, items: seq<T>, step: (Option<T>, Iter))
      returns (it': Iter, ghost k': nat, items': seq<T>, step': (Option<T>, Iter))
      requires Valid() && CollectInv(c, it, k, items, step) && step.0.Some?
      ensures CollectInv(c, it', k', items', step') && k' == k + 1 && k' <= |c|
    {
      CollectAdvance(c, it, k, items, step);
      items' := items + [step.0.value];
      it' := step.1;
      k' := k + 1;
      step' := IterNext(it');
    }

    /** The `collect` loop state is kept by one round. */
    lemma CollectAdvance(c: seq<T>, it: Iter, k: nat, items: seq<T>, step: (Option<T>, Iter))
      requires Valid() && CollectInv(c, it, k, items, step) && step.0.Some?
      ensures k < |c| && step.0 == Some(c[k]) && IterAt(step.1, k + 1)
      ensures step.1.remaining == 0 || step.1.current.None? || step.1.current.value < |nodes|
      ensures CollectInv(c, step.1, k + 1, items + [step.0.value], IterNext(step.1))
    {
      IterNextAt(it, k);
      IterNextAt(step.1, k + 1);
      PrefixSnoc(c, k);
    }

    /** `clear`: pops until the list is empty. */
    method Clear()
      requires Valid()
      modifies this
      ensures Valid() && Contents() == []
    {
      var x := Pop();
      while x.Some?
        invariant Valid()
        invariant x.None? ==> Contents() == []
        decreases |spine| + (if x.Some? then 1 else 0)
      {
        x := Pop();
      }
    }

    /** `into_vec`: pops every element into a vector, then reverses it, so the result is in
        insertion order (bottom first). */
    method IntoVec() returns (v: seq<T>)
      requires Valid()
      modifies this
      ensures Valid() && Contents() == []
      ensures v == Reverse(old(Contents()))
    {
      ghost var c := Contents();
      var items: seq<T> := [];
      var x := Pop();
      ghost var rest := Contents();
      while x.Some?
        invariant Valid() && rest == Contents()
        invariant x.Some? ==> items + [x.value] + rest == c
        invariant x.None? ==> items == c && rest == []
        decreases |rest| + (if x.Some? then 1 else 0)
      {
        PopShift(items, x.value, rest, c);
        items := items + [x.value];
        x := Pop();
        rest := Contents();
      }
      v := Reverse(items);
    }

    /** `extend` (and `from_iter` on a new list): pushes the elements in order, so the last
        one ends on top. */
    method Extend(xs: seq<T>)
      requires Valid()
      modifies this
      ensures Valid() && Contents() == Reverse(xs) + old(Contents())
    {
      ghost var c := Contents();
      for i := 0 to |xs|
        invariant Valid() && Contents() == Reverse(xs[..i]) + c
      {
        ghost var before := Contents();
        Push(xs[i]);
        ExtendStep(xs, i, c, before);
      }
      assert xs[..|xs|] == xs;
    }
  }

  /** One step of the `retain` walk at position `k` of the original spine `s` and contents
      `c`, with `kept` the spine nodes kept so far: keeping or dropping element `k` gives the
      state the loop needs at `k + 1`. */
  lemma RetainAt<U>(f: U -> bool, c: seq<U>, k: nat, kept: seq<nat>, s: seq<nat>)
    requires k < |c| && k < |s| && |Filter(f, c[..k])| == |kept|
    ensures s[k..] != [] && First(s[k..]) == Some(s[k]) && First(s[k + 1..]) == Link(kept + s[k..], |kept|)
    ensures (kept + s[k..])[|kept|] == s[k] && (Filter(f, c[..k]) + c[k..])[|kept|] == c[k]
    ensures kept + s[k..] == (kept + [s[k]]) + s[k + 1..]
    ensures (kept + [s[k]])[|kept + [s[k]]| - 1] == s[k]
    ensures Without(kept + s[k..], |kept|) == kept + s[k + 1..]
    ensures f(c[k]) ==>
      (Filter(f, c[..k]) + c[k..] == Filter(f, c[..k + 1]) + c[k + 1..]
        && |Filter(f, c[..k + 1])| == |kept| + 1)
    ensures !f(c[k]) ==>
      ((Filter(f, c[..k]) + c[k..])[..|kept|] + (Filter(f, c[..k]) + c[k..])[|kept| + 1..]
          == Filter(f, c[..k + 1]) + c[k + 1..]
        && |Filter(f, c[..k + 1])| == |kept|)
  {
    SpineAt(kept, s, k);
    FilterSnoc(f, c, k);
    var a := Filter(f, c[..k]);
    ElementAt(a, c, k);
    if f(c[k]) {
      KeepAt(a, c, k);
    } else {
      DropAt(a, c, k);
    }
  }

  /** The spine `kept + s[k..]` around position `|kept|`. */
  lemma SpineAt(kept: seq<nat>, s: seq<nat>, k: nat)
    requires k < |s|
    ensures s[k..] != [] && First(s[k..]) == Some(s[k]) && First(s[k + 1..]) == Link(kept + s[k..], |kept|)
    ensures (kept + s[k..])[|kept|] == s[k]
    ensures kept + s[k..] == (kept + [s[k]]) + s[k + 1..]
    ensures (kept + [s[k]])[|kept + [s[k]]| - 1] == s[k]
    ensures Without(kept + s[k..], |kept|) == kept + s[k + 1..]
  {
    assert s[k..] == [s[k]] + s[k + 1..];
  }

  /** The contents `a + c[k..]` hold element `k` at position `|a|`. */
  lemma ElementAt<U>(a: seq<U>, c: seq<U>, k: nat)
    requires k < |c|
    ensures (a + c[k..])[|a|] == c[k]
  {
  }

  /** Keeping element `k`: it moves from the unexamined part to the kept part. */
  lemma KeepAt<U>(a: seq<U>, c: seq<U>, k: nat)
    requires k < |c|
    ensures a + c[k..] == (a + [c[k]]) + c[k + 1..]
  {
    assert c[k..] == [c[k]] + c[k + 1..];
  }

  /** Dropping element `k`: removing position `|a|` leaves the rest. */
  lemma DropAt<U>(a: seq<U>, c: seq<U>, k: nat)
    requires k < |c|
    ensures (a + c[k..])[..|a|] + (a + c[k..])[|a| + 1..] == (a + []) + c[k + 1..]
    ensures a + [] == a
  {
    var x := a + c[k..];
    assert x[..|a|] == a;
    assert x[|a| + 1..] == c[k + 1..];
  }

  /** The LIFO unit tests: after pushing 1, 2, 3 the top is 3, `get` walks down 3, 2, 1, and
      `pop` returns 3, 2, 1 and then None. */
  method StackExample()
  {
    var list := new StackList<int>.New();
    list.Push(1);
    list.Push(2);
    list.Push(3);
    assert list.Contents() == [3, 2, 1];
    assert list.Peek() == Some(3) && list.Len() == 3;
    var g := list.Get(2);
    assert g == Some(1);
    g := list.Get(3);
    assert g == None;
    var a := list.Pop();
    var b := list.Pop();
    var c := list.Pop();
    var d := list.Pop();
    assert a == Some(3) && b == Some(2) && c == Some(1) && d == None;
    assert list.IsEmpty();
  }
}
