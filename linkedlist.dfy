/** `LinkedList`: a doubly linked list with `head`, `tail` and `len`. The nodes live in an
    arena `nodes`, addressed by index, which stands for the heap; each node links to its
    `next` and `prev` neighbour. The ghost `spine` lists the arena indices of the list, front
    first. */
module LinkedLists {
  import opened Common
  import opened Arena

  datatype Node<T> = Node(data: T, next: Option<nat>, prev: Option<nat>)

  /** The arena nodes at the indices of `s` form a doubly linked list in that order: distinct
      nodes, each linked forward to its successor and back to its predecessor, with no link
      past either end. */
  ghost predicate DLinked<T>(nodes: seq<Node<T>>, s: seq<nat>)
  {
    (forall k :: 0 <= k < |s| ==> s[k] < |nodes|)
    && Distinct(s)
    && (forall k {:trigger nodes[s[k]]} :: 0 <= k < |s| ==>
          nodes[s[k]].next == Link(s, k) && nodes[s[k]].prev == Before(s, k))
  }

  /** The data of the arena nodes at the indices of `s`, in order. */
  ghost function Elements<T>(nodes: seq<Node<T>>, s: seq<nat>): seq<T>
    requires forall k :: 0 <= k < |s| ==> s[k] < |nodes|
  {
    seq(|s|, k requires 0 <= k < |s| => nodes[s[k]].data)
  }

  function SetNext<T>(nodes: seq<Node<T>>, i: nat, v: Option<nat>): seq<Node<T>>
    requires i < |nodes|
  {
    nodes[i := nodes[i].(next := v)]
  }

  function SetPrev<T>(nodes: seq<Node<T>>, i: nat, v: Option<nat>): seq<Node<T>>
    requires i < |nodes|
  {
    nodes[i := nodes[i].(prev := v)]
  }

  /** A node taken off a list has both links cleared. */
  function Detach<T>(nodes: seq<Node<T>>, i: nat): seq<Node<T>>
    requires i < |nodes|
  {
    nodes[i := nodes[i].(next := None, prev := None)]
  }

  /** The arena after node `n` is linked in front of the list whose front is `h`
      (`push_node_front`). */
  function LinkFront<T>(nodes: seq<Node<T>>, h: Option<nat>, n: nat): seq<Node<T>>
    requires n < |nodes| && (h.Some? ==> h.value < |nodes|)
  {
    var nodes1 := nodes[n := nodes[n].(next := h, prev := None)];
    if h.Some? then SetPrev(nodes1, h.value, Some(n)) else nodes1
  }

  /** The arena after node `n` is linked behind the list whose back is `t`
      (`push_node_back`). */
  function LinkBack<T>(nodes: seq<Node<T>>, t: Option<nat>, n: nat): seq<Node<T>>
    requires n < |nodes| && (t.Some? ==> t.value < |nodes|)
  {
    var nodes1 := nodes[n := nodes[n].(prev := t, next := None)];
    if t.Some? then SetNext(nodes1, t.value, Some(n)) else nodes1
  }

  /** The arena after node `i` is unlinked (`remove_at_node`): its predecessor, if any, takes
      its forward link, its successor, if any, its back link, and it is detached. */
  function Unlinked<T>(nodes: seq<Node<T>>, i: nat): seq<Node<T>>
    requires i < |nodes|
    requires nodes[i].prev.Some? ==> nodes[i].prev.value < |nodes|
    requires nodes[i].next.Some? ==> nodes[i].next.value < |nodes|
  {
    var prev := nodes[i].prev;
    var next := nodes[i].next;
    var nodes1 := if prev.Some? then SetNext(nodes, prev.value, next) else nodes;
    var nodes2 := if next.Some? then SetPrev(nodes1, next.value, prev) else nodes1;
    Detach(nodes2, i)
  }

  /** Allocating a node at the end of the arena leaves the list as it was. */
  lemma Allocated<T>(nodes: seq<Node<T>>, s: seq<nat>, v: Node<T>)
    requires DLinked(nodes, s)
    ensures DLinked(nodes + [v], s) && Elements(nodes + [v], s) == Elements(nodes, s)
  {
    var r := nodes + [v];
    forall k | 0 <= k < |s|
      ensures r[s[k]] == nodes[s[k]]
    {
    }
  }

  /** Linking a node that is not on the list in front of it gives a list one longer, with that
      node's data first. */
  lemma LinkFrontOk<T>(nodes: seq<Node<T>>, s: seq<nat>, n: nat)
    requires DLinked(nodes, s) && n < |nodes| && n !in s
    ensures DLinked(LinkFront(nodes, First(s), n), [n] + s)
    ensures Elements(LinkFront(nodes, First(s), n), [n] + s) == [nodes[n].data] + Elements(nodes, s)
    ensures |LinkFront(nodes, First(s), n)| == |nodes|
  {
    var t := [n] + s;
    LinkFrontKeeps(nodes, s, n);
    forall k | 0 <= k < |t|
      ensures LinkFront(nodes, First(s), n)[t[k]].next == Link(t, k)
      ensures LinkFront(nodes, First(s), n)[t[k]].prev == Before(t, k)
    {
      LinkFrontLink(nodes, s, n, k);
    }
    DistinctCons(n, s);
  }

  /** Linking in front changes no node's data and keeps the spine inside the arena. */
  lemma LinkFrontKeeps<T>(nodes: seq<Node<T>>, s: seq<nat>, n: nat)
    requires DLinked(nodes, s) && n < |nodes| && n !in s
    ensures |LinkFront(nodes, First(s), n)| == |nodes|
    ensures forall k :: 0 <= k < |[n] + s| ==> ([n] + s)[k] < |nodes|
    ensures Elements(LinkFront(nodes, First(s), n), [n] + s) == [nodes[n].data] + Elements(nodes, s)
  {
    var r := LinkFront(nodes, First(s), n);
    assert forall j :: 0 <= j < |nodes| ==> r[j].data == nodes[j].data;
    ElementsCons(nodes, r, s, n);
  }

  /** The data along `[n] + s` in an arena with the same data as `nodes`. */
  lemma ElementsCons<T>(nodes: seq<Node<T>>, nodes': seq<Node<T>>, s: seq<nat>, n: nat)
    requires |nodes'| == |nodes| && n < |nodes|
    requires forall k :: 0 <= k < |s| ==> s[k] < |nodes|
    requires forall j :: 0 <= j < |nodes| ==> nodes'[j].data == nodes[j].data
    ensures forall k :: 0 <= k < |[n] + s| ==> ([n] + s)[k] < |nodes|
    ensures Elements(nodes', [n] + s) == [nodes[n].data] + Elements(nodes, s)
  {
    var t := [n] + s;
    forall k | 0 <= k < |t|
      ensures t[k] < |nodes| && nodes'[t[k]].data == ([nodes[n].data] + Elements(nodes, s))[k]
    {
      if k > 0 {
        assert t[k] == s[k - 1];
      }
    }
  }

  lemma LinkFrontLink<T>(nodes: seq<Node<T>>, s: seq<nat>, n: nat, k: nat)
    requires DLinked(nodes, s) && n < |nodes| && n !in s && k <= |s|
    ensures LinkFront(nodes, First(s), n)[([n] + s)[k]].next == Link([n] + s, k)
    ensures LinkFront(nodes, First(s), n)[([n] + s)[k]].prev == Before([n] + s, k)
  {
    var t := [n] + s;
    if k == 1 {
      assert t[k] == s[0];
    } else if k > 1 {
      assert t[k] == s[k - 1] && t[k - 1] == s[k - 2];
      assert k < |s| ==> t[k + 1] == s[k];
      assert s[k - 1] != s[0];
    }
  }

  lemma DistinctSnoc(s: seq<nat>, n: nat)
    requires Distinct(s) && n !in s
    ensures Distinct(s + [n])
  {
    var t := s + [n];
    forall i, j | 0 <= i < j < |t|
      ensures t[i] != t[j]
    {
      if j < |s| {
        assert t[i] == s[i] && t[j] == s[j];
      }
    }
  }

  /** Linking a node that is not on the list behind it gives a list one longer, with that
      node's data last. */
  lemma LinkBackOk<T>(nodes: seq<Node<T>>, s: seq<nat>, n: nat)
    requires DLinked(nodes, s) && n < |nodes| && n !in s
    ensures DLinked(LinkBack(nodes, Last(s), n), s + [n])
    ensures Elements(LinkBack(nodes, Last(s), n), s + [n]) == Elements(nodes, s) + [nodes[n].data]
    ensures |LinkBack(nodes, Last(s), n)| == |nodes|
  {
    var t := s + [n];
    LinkBackKeeps(nodes, s, n);
    forall k | 0 <= k < |t|
      ensures LinkBack(nodes, Last(s), n)[t[k]].next == Link(t, k)
      ensures LinkBack(nodes, Last(s), n)[t[k]].prev == Before(t, k)
    {
      LinkBackLink(nodes, s, n, k);
    }
    DistinctSnoc(s, n);
  }

  /** Linking behind changes no node's data and keeps the spine inside the arena. */
  lemma LinkBackKeeps<T>(nodes: seq<Node<T>>, s: seq<nat>, n: nat)
    requires DLinked(nodes, s) && n < |nodes| && n !in s
    ensures |LinkBack(nodes, Last(s), n)| == |nodes|
    ensures forall k :: 0 <= k < |s + [n]| ==> (s + [n])[k] < |nodes|
    ensures Elements(LinkBack(nodes, Last(s), n), s + [n]) == Elements(nodes, s) + [nodes[n].data]
  {
    var r := LinkBack(nodes, Last(s), n);
    assert forall j :: 0 <= j < |nodes| ==> r[j].data == nodes[j].data;
    ElementsSnoc(nodes, r, s, n);
  }

  /** The data along `s + [n]` in an arena with the same data as `nodes`. */
  lemma ElementsSnoc<T>(nodes: seq<Node<T>>, nodes': seq<Node<T>>, s: seq<nat>, n: nat)
    requires |nodes'| == |nodes| && n < |nodes|
    requires forall k :: 0 <= k < |s| ==> s[k] < |nodes|
    requires forall j :: 0 <= j < |nodes| ==> nodes'[j].data == nodes[j].data
    ensures forall k :: 0 <= k < |s + [n]| ==> (s + [n])[k] < |nodes|
    ensures Elements(nodes', s + [n]) == Elements(nodes, s) + [nodes[n].data]
  {
    var t := s + [n];
    forall k | 0 <= k < |t|
      ensures t[k] < |nodes| && nodes'[t[k]].data == (Elements(nodes, s) + [nodes[n].data])[k]
    {
      if k < |s| {
        assert t[k] == s[k];
      }
    }
  }

  lemma LinkBackLink<T>(nodes: seq<Node<T>>, s: seq<nat>, n: nat, k: nat)
    requires DLinked(nodes, s) && n < |nodes| && n !in s && k <= |s|
    ensures LinkBack(nodes, Last(s), n)[(s + [n])[k]].next == Link(s + [n], k)
    ensures LinkBack(nodes, Last(s), n)[(s + [n])[k]].prev == Before(s + [n], k)
  {
    var t := s + [n];
    if k == |s| - 1 {
      assert t[k] == s[|s| - 1];
      assert k > 0 ==> t[k - 1] == s[k - 1];
    } else if k < |s| - 1 {
      assert t[k] == s[k] && t[k + 1] == s[k + 1];
      assert k > 0 ==> t[k - 1] == s[k - 1];
      assert s[k] != s[|s| - 1];
    }
  }

  /** Unlinking the node at position `m` leaves the other nodes linked in their order, and the
      removed node detached with its data. */
  lemma UnlinkOk<T>(nodes: seq<Node<T>>, s: seq<nat>, m: nat)
    requires DLinked(nodes, s) && m < |s|
    ensures nodes[s[m]].prev.Some? ==> nodes[s[m]].prev.value < |nodes|
    ensures nodes[s[m]].next.Some? ==> nodes[s[m]].next.value < |nodes|
    ensures DLinked(Unlinked(nodes, s[m]), Without(s, m))
    ensures Elements(Unlinked(nodes, s[m]), Without(s, m))
         == Elements(nodes, s)[..m] + Elements(nodes, s)[m + 1..]
    ensures Unlinked(nodes, s[m])[s[m]] == Node(nodes[s[m]].data, None, None)
    ensures |Unlinked(nodes, s[m])| == |nodes| && s[m] !in Without(s, m)
  {
    DistinctRemove(s, m);
    var t := Without(s, m);
    forall k | 0 <= k < |t|
      ensures Unlinked(nodes, s[m])[t[k]].next == Link(t, k)
      ensures Unlinked(nodes, s[m])[t[k]].prev == Before(t, k)
    {
      UnlinkLink(nodes, s, m, k);
    }
    UnlinkData(nodes, s, m);
  }

  /** Removing the last position of a sequence leaves its prefix. */
  lemma DropLast<T>(c: seq<T>)
    requires |c| > 0
    ensures c[..|c| - 1] + c[|c|..] == c[..|c| - 1]
  {
  }

  lemma UnlinkData<T>(nodes: seq<Node<T>>, s: seq<nat>, m: nat)
    requires DLinked(nodes, s) && m < |s|
    ensures Elements(Unlinked(nodes, s[m]), Without(s, m))
         == Elements(nodes, s)[..m] + Elements(nodes, s)[m + 1..]
  {
    UnlinkedKeepsData(nodes, s[m]);
    ElementsWithout(nodes, Unlinked(nodes, s[m]), s, m);
  }

  /** An arena with the same data gives the same elements, here for the list without
      position `m`. */
  lemma ElementsWithout<T>(nodes: seq<Node<T>>, nodes': seq<Node<T>>, s: seq<nat>, m: nat)
    requires |nodes'| == |nodes| && m < |s|
    requires forall k :: 0 <= k < |s| ==> s[k] < |nodes|
    requires forall j :: 0 <= j < |nodes| ==> nodes'[j].data == nodes[j].data
    ensures Elements(nodes', Without(s, m)) == Elements(nodes, s)[..m] + Elements(nodes, s)[m + 1..]
  {
    var t := Without(s, m);
    var e := Elements(nodes, s);
    var e' := Elements(nodes', t);
    var r := e[..m] + e[m + 1..];
    assert |e'| == |r|;
    forall k | 0 <= k < |e'|
      ensures e'[k] == r[k]
    {
      var i := if k < m then k else k + 1;
      assert t[k] == s[i];
      assert r[k] == e[i];
    }
  }

  /** Unlinking changes links only. */
  lemma UnlinkedKeepsData<T>(nodes: seq<Node<T>>, i: nat)
    requires i < |nodes|
    requires nodes[i].prev.Some? ==> nodes[i].prev.value < |nodes|
    requires nodes[i].next.Some? ==> nodes[i].next.value < |nodes|
    ensures |Unlinked(nodes, i)| == |nodes|
    ensures forall j :: 0 <= j < |nodes| ==> Unlinked(nodes, i)[j].data == nodes[j].data
  {
  }

  /** The links of position `k` of the shortened list. */
  lemma UnlinkLink<T>(nodes: seq<Node<T>>, s: seq<nat>, m: nat, k: nat)
    requires DLinked(nodes, s) && m < |s| && k < |s| - 1
    ensures Unlinked(nodes, s[m])[Without(s, m)[k]].next == Link(Without(s, m), k)
    ensures Unlinked(nodes, s[m])[Without(s, m)[k]].prev == Before(Without(s, m), k)
  {
    var t := Without(s, m);
    var i := if k < m then k else k + 1;
    assert t[k] == s[i];
    assert s[i] != s[m];
    if k + 1 < |t| {
      assert t[k + 1] == if k + 1 < m then s[k + 1] else s[k + 2];
    }
    if k > 0 {
      assert t[k - 1] == if k - 1 < m then s[k - 1] else s[k];
    }
    if m > 0 && i != m - 1 {
      assert s[i] != s[m - 1];
    }
    if m + 1 < |s| && i != m + 1 {
      assert s[i] != s[m + 1];
    }
  }

  /** A borrowing iterator: the next node to visit and how many elements are still to come. */
  datatype Iter = Iter(next: Option<nat>, remaining: nat)

  class LinkedList<T> {
    var nodes: seq<Node<T>>
    var head: Option<nat>
    var tail: Option<nat>
    var len: nat
    ghost var spine: seq<nat>

    /** `head` and `tail` are the two ends of the spine and `len` its length. */
    ghost predicate Valid()
      reads this
    {
      DLinked(nodes, spine) && head == First(spine) && tail == Last(spine) && len == |spine|
    }

    /** The elements, front first. */
    ghost function Contents(): seq<T>
      requires Valid()
      reads this
    {
      Elements(nodes, spine)
    }

    /** `new`: an empty list. */
    constructor New()
      ensures Valid() && Contents() == [] && nodes == []
    {
      nodes := [];
      head := None;
      tail := None;
      len := 0;
      spine := [];
    }

    /** `len`. */
    function Len(): (r: nat)
      requires Valid()
      reads this
      ensures r == |Contents()|
    {
      len
    }

    /** `is_empty` tests `len`; on a valid list `head` and `tail` are None exactly then. */
    function IsEmpty(): (r: bool)
      requires Valid()
      reads this
      ensures r <==> Contents() == []
      ensures r <==> head.None?
      ensures r <==> tail.None?
    {
      len == 0
    }

    /** `front`: the first element, or None on an empty list. */
    function Front(): (r: Option<T>)
      requires Valid()
      reads this
      ensures r == if Contents() == [] then None else Some(Contents()[0])
    {
      if head.None? then None else Some(nodes[head.value].data)
    }

    /** `back`: the last element, or None on an empty list. */
    function Back(): (r: Option<T>)
      requires Valid()
      reads this
      ensures r == if Contents() == [] then None else Some(Contents()[|Contents()| - 1])
    {
      if tail.None? then None else Some(nodes[tail.value].data)
    }

    /** `Box::new(Node::new(data))`: a fresh unlinked node, not on the list. */
    method NewNode(data: T) returns (node: nat)
      requires Valid()
      modifies this
      ensures Valid() && Contents() == old(Contents()) && spine == old(spine)
      ensures node == |old(nodes)| && nodes == old(nodes) + [Node(data, None, None)]
    {
      Allocated(nodes, spine, Node(data, None, None));
      node := |nodes|;
      nodes := nodes + [Node(data, None, None)];
    }

    /** `push_node_front`: the node, which must not be on the list, becomes the front. */
    method PushNodeFront(node: nat)
      requires Valid() && node < |nodes| && node !in spine
      modifies this
      ensures Valid()
      ensures Contents() == [old(nodes[node].data)] + old(Contents())
      ensures spine == [node] + old(spine) && |nodes| == |old(nodes)|
    {
      LinkFrontOk(nodes, spine, node);
      nodes := nodes[node := nodes[node].(next := head, prev := None)];
      if head.Some? {
        nodes := SetPrev(nodes, head.value, Some(node));
      } else {
        tail := Some(node);
      }
      head := Some(node);
      len := len + 1;
      spine := [node] + spine;
    }

    /** `push_front`: the data becomes the front element. */
    method PushFront(data: T)
      requires Valid()
      modifies this
      ensures Valid() && Contents() == [data] + old(Contents())
    {
      var node := NewNode(data);
      PushNodeFront(node);
    }

    /** `push_node_back`: the node, which must not be on the list, becomes the back. */
    method PushNodeBack(node: nat)
      requires Valid() && node < |nodes| && node !in spine
      modifies this
      ensures Valid()
      ensures Contents() == old(Contents()) + [old(nodes[node].data)]
      ensures spine == old(spine) + [node] && |nodes| == |old(nodes)|
    {
      LinkBackOk(nodes, spine, node);
      nodes := nodes[node := nodes[node].(prev := tail, next := None)];
      if tail.Some? {
        nodes := SetNext(nodes, tail.value, Some(node));
      } else {
        head := Some(node);
      }
      tail := Some(node);
      len := len + 1;
      spine := spine + [node];
    }

    /** `push_back`: the data becomes the back element. */
    method PushBack(data: T)
      requires Valid()
      modifies this
      ensures Valid() && Contents() == old(Contents()) + [data]
    {
      var node := NewNode(data);
      PushNodeBack(node);
    }

    /** `pop_node_front`: unlinks the front node and returns it detached, or None on an empty
        list. */
    method PopNodeFront() returns (r: Option<nat>)
      requires Valid()
      modifies this
      ensures Valid() && |nodes| == |old(nodes)|
      ensures r == First(old(spine))
      ensures r.Some? ==> r.value !in spine && nodes[r.value] == Node(old(Contents())[0], None, None)
      ensures Contents() == if old(Contents()) == [] then [] else old(Contents())[1..]
    {
      if head.None? {
        return None;
      }
      var node := head.value;
      UnlinkOk(nodes, spine, 0);
      head := nodes[node].next;
      if head.Some? {
        nodes := SetPrev(nodes, head.value, None);
      } else {
        tail := None;
      }
      len := len - 1;
      nodes := Detach(nodes, node);
      spine := Without(spine, 0);
      return Some(node);
    }

    /** `pop_front`: removes the front element and returns it, or None on an empty list. */
    method PopFront() returns (r: Option<T>)
      requires Valid()
      modifies this
      ensures Valid()
      ensures r == if old(Contents()) == [] then None else Some(old(Contents())[0])
      ensures Contents() == if old(Contents()) == [] then [] else old(Contents())[1..]
    {
      var node := PopNodeFront();
      if node.None? {
        return None;
      }
      return Some(nodes[node.value].data);
    }

    /** `pop_node_back`: unlinks the back node and returns it detached, or None on an empty
        list. */
    method PopNodeBack() returns (r: Option<nat>)
      requires Valid()
      modifies this
      ensures Valid() && |nodes| == |old(nodes)|
      ensures r == Last(old(spine))
      ensures r.Some? ==>
        r.value !in spine && nodes[r.value] == Node(old(Contents())[|old(Contents())| - 1], None, None)
      ensures Contents() ==
        if old(Contents()) == [] then [] else old(Contents())[..|old(Contents())| - 1]
    {
      if tail.None? {
        return None;
      }
      var node := tail.value;
      ghost var m := |spine| - 1;
      ghost var c := Contents();
      UnlinkOk(nodes, spine, m);
      assert nodes[node].next == None;
      tail := nodes[node].prev;
      if tail.Some? {
        nodes := SetNext(nodes, tail.value, None);
      } else {
        head := None;
      }
      len := len - 1;
      nodes := Detach(nodes, node);
      spine := Without(spine, m);
      assert Contents() == c[..m] + c[m + 1..];
      DropLast(c);
      return Some(node);
    }

    /** `pop_back`: removes the back element and returns it, or None on an empty list. */
    method PopBack() returns (r: Option<T>)
      requires Valid()
      modifies this
      ensures Valid()
      ensures r == if old(Contents()) == [] then None else Some(old(Contents())[|old(Contents())| - 1])
      ensures Contents() ==
        if old(Contents()) == [] then [] else old(Contents())[..|old(Contents())| - 1]
    {
      var node := PopNodeBack();
      if node.None? {
        return None;
      }
      return Some(nodes[node.value].data);
    }

    /** `remove_at_node`: walks `index` links from the front, unlinks that node and returns it
        detached, or None when `index` is past the end. The other elements keep their
        order. */
    method RemoveAtNode(index: nat) returns (r: Option<nat>)
      requires Valid()
      modifies this
      ensures Valid() && |nodes| == |old(nodes)|
      ensures r == if index < |old(spine)| then Some(old(spine)[index]) else None
      ensures r.Some? ==> r.value !in spine && nodes[r.value] == Node(old(Contents())[index], None, None)
      ensures Contents() ==
        if index < |old(Contents())| then old(Contents())[..index] + old(Contents())[index + 1..]
        else old(Contents())
    {
      if index >= len {
        return None;
      }
      var curr := head.value;
      for i := 0 to index
        invariant curr == spine[i]
      {
        curr := nodes[curr].next.value;
      }
      UnlinkOk(nodes, spine, index);
      var prev := nodes[curr].prev;
      var next := nodes[curr].next;
      if prev.Some? {
        nodes := SetNext(nodes, prev.value, next);
      } else {
        head := next;
      }
      if next.Some? {
        nodes := SetPrev(nodes, next.value, prev);
      } else {
        tail := prev;
      }
      len := len - 1;
      nodes := Detach(nodes, curr);
      spine := Without(spine, index);
      return Some(curr);
    }

    /** `iter`: starts at the front with `len` elements to come. */
    function Iterate(): (it: Iter)
      requires Valid()
      reads this
      ensures it.next == First(spine) && it.remaining == |Contents()|
    {
      Iter(head, len)
    }

    /** `Iter::next`: None once `remaining` is 0; otherwise the data of the next node, and the
        iterator follows its `next` link with one element fewer to go. */
    function IterNext(it: Iter): (r: (Option<T>, Iter))
      requires Valid()
      requires it.remaining == 0 || it.next.None? || it.next.value < |nodes|
      reads this
      ensures it.remaining == 0 ==> r.0.None?
      ensures r.0.Some? ==> r.1.remaining == it.remaining - 1
    {
      if it.remaining == 0 then (None, it)
      else match it.next
        case None => (None, it)
        case Some(n) => (Some(nodes[n].data), Iter(nodes[n].next, it.remaining - 1))
    }

    /** An iterator that has yielded `k` elements stands at spine position `k`. */
    ghost predicate IterAt(it: Iter, k: nat)
      requires Valid()
      reads this
    {
      k <= |spine| && it.next == First(spine[k..]) && it.remaining == |spine| - k
    }

    /** One step from position `k` yields element `k` and moves to position `k + 1`; at the
        end it yields None. */
    lemma IterNextAt(it: Iter, k: nat)
      requires Valid() && IterAt(it, k)
      ensures k < |spine| ==>
        (it.next.value < |nodes|
          && IterNext(it).0 == Some(Contents()[k]) && IterAt(IterNext(it).1, k + 1))
      ensures k == |spine| ==> IterNext(it).0.None?
    {
      if k < |spine| {
        assert it.next == Some(spine[k]);
        assert nodes[spine[k]].next == First(spine[k + 1..]);
      }
    }

    /** `iter().collect()`: the iterator yields exactly the `len` elements, front to back. */
    method Collect() returns (items: seq<T>)
      requires Valid()
      ensures items == Contents() && |items| == len
    {
      ghost var c := Contents();
      var it := Iterate();
      ghost var k := 0;
      items := [];
      IterNextAt(it, k);
      var step := IterNext(it);
      while step.0.Some?
        invariant CollectInv(c, it, k, items, step)
        decreases |c| - k
      {
        it, k, items, step := CollectStep(c, it, k, items, step);
      }
      IterNextAt(it, k);
      assert items == c[..|c|];
    }

    /** The state of the `collect` loop after `k` elements: `items` holds the first `k`
        elements and `step` is the iterator's next answer. */
    ghost predicate CollectInv(c: seq<T>, it: Iter, k: nat, items: seq<T>, step: (Option<T>, Iter))
      requires Valid()
      reads this
    {
      c == Contents() && IterAt(it, k) && items == c[..k]
      && (it.remaining == 0 || it.next.None? || it.next.value < |nodes|)
      && step == IterNext(it)
    }

    /** One round of the `collect` loop: the yielded element is appended and the iterator
        moves on. */
    method CollectStep(ghost c: seq<T>, it: Iter, ghost k: nat, items: seq<T>, step: (Option<T>, Iter))
      returns (it': Iter, ghost k': nat, items': seq<T>, step': (Option<T>, Iter))
      requires Valid() && CollectInv(c, it, k, items, step) && step.0.Some?
      ensures CollectInv(c, it', k', items', step') && k' == k + 1 && k' <= |c|
    {
      CollectAdvance(c, it, k, items, step);
      items' := items + [step.0.value];
      it' := step.1;
      k' := k + 1;
      step' := IterNext(it');
    }

    /** The `collect` loop state is kept by one round. */
    lemma CollectAdvance(c: seq<T>, it: Iter, k: nat, items: seq<T>, step: (Option<T>, Iter))
      requires Valid() && CollectInv(c, it, k, items, step) && step.0.Some?
      ensures k < |c| && step.0 == Some(c[k]) && IterAt(step.1, k + 1)
      ensures step.1.remaining == 0 || step.1.next.None? || step.1.next.value < |nodes|
      ensures CollectInv(c, step.1, k + 1, items + [step.0.value], IterNext(step.1))
    {
      IterNextAt(it, k);
      IterNextAt(step.1, k + 1);
      PrefixSnoc(c, k);
    }

    /** `clear`: pops from the front until the list is empty. */
    method Clear()
      requires Valid()
      modifies this
      ensures Valid() && Contents() == []
    {
      var x := PopFront();
      while x.Some?
        invariant Valid()
        invariant x.None? ==> Contents() == []
        decreases |spine| + (if x.Some? then 1 else 0)
      {
        x := PopFront();
      }
    }
  }

  /** Queue order: elements pushed at the back come out of the front first in, first out,
      and `pop_back` returns the last element pushed at the back. */
  method QueueExample()
  {
    var list := new LinkedList<int>.New();
    list.PushBack(1);
    list.PushBack(2);
    list.PushBack(3);
    assert list.Contents() == [1, 2, 3];
    assert list.Front() == Some(1) && list.Back() == Some(3) && list.Len() == 3;
    var a := list.PopFront();
    assert list.Contents() == [2, 3];
    var b := list.PopBack();
    assert list.Contents() == [2];
    list.PushFront(0);
    var c := list.PopFront();
    var d := list.PopFront();
    assert list.Contents() == [];
    var e := list.PopFront();
    assert a == Some(1) && b == Some(3) && c == Some(0) && d == Some(2) && e == None;
    assert list.IsEmpty();
  }

}
