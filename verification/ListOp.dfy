/** The intrusive circular doubly linked list (src/list_op.c, include/list_op.h).

    A ListHead is the link together with the structure it is the first member of: with the link
    first, common_list_entry is the identity.  The head of a list is a ListHead whose data is
    never looked at.  Rings are sequences of nodes: node i + 1 follows node i, and node 0 the last. */
module ListOp {

  class ListHead<T> {
    var next: ListHead?<T>
    var prev: ListHead?<T>
    var data: T

    /** A node fresh from the allocator: its links are not set. */
    constructor (data: T)
      ensures this.data == data
    {
      this.next, this.prev, this.data := null, null, data;
    }
  }

  // ---- Rings ----------------------------------------------------------------------------------

  ghost predicate Distinct<T(!new)>(ring: seq<ListHead<T>>) {
    forall i, j :: 0 <= i < j < |ring| ==> ring[i] != ring[j]
  }

  /** next and prev are each other's inverse, all the way round. */
  ghost predicate Ring<T(!new)>(ring: seq<ListHead<T>>)
    reads ring`next, ring`prev
  {
    && ring != []
    && Distinct(ring)
    && (forall i :: 0 <= i < |ring| - 1 ==> ring[i].next == ring[i + 1])
    && ring[|ring| - 1].next == ring[0]
    && (forall i :: 0 < i < |ring| ==> ring[i].prev == ring[i - 1])
    && ring[0].prev == ring[|ring| - 1]
  }

  /** s are the nodes of the list with head `head`, in order. */
  ghost predicate IsList<T(!new)>(head: ListHead<T>, s: seq<ListHead<T>>)
    reads head`next, head`prev, s`next, s`prev
  {
    Ring([head] + s)
  }

  /** A ring has no first node. */
  lemma Rotate<T(!new)>(a: seq<ListHead<T>>, b: seq<ListHead<T>>)
    requires Ring(a + b)
    ensures Ring(b + a)
  {
    var r, t := a + b, b + a;
    if a != [] && b != [] {
      assert forall i :: 0 <= i < |b| ==> t[i] == r[|a| + i];
      assert forall i :: |b| <= i < |t| ==> t[i] == r[i - |b|];
    } else {
      assert r == t;
    }
  }

  /** Any node of a list may be taken as its head. */
  lemma AnyNodeIsHead<T(!new)>(head: ListHead<T>, s: seq<ListHead<T>>, i: nat)
    requires IsList(head, s) && i < |s|
    ensures IsList(s[i], s[i + 1..] + [head] + s[..i])
  {
    assert [head] + s == ([head] + s[..i]) + s[i..];
    Rotate([head] + s[..i], s[i..]);
    assert s[i..] + ([head] + s[..i]) == [s[i]] + (s[i + 1..] + [head] + s[..i]);
  }

  lemma {:induction false} RingAgrees<T(!new)>(a: seq<ListHead<T>>, b: seq<ListHead<T>>, n: nat)
    requires Ring(a) && Ring(b) && a[0] == b[0] && n < |a| && n < |b|
    ensures a[n] == b[n]
  {
    if n > 0 {
      RingAgrees(a, b, n - 1);
      assert a[n - 1].next == a[n] && b[n - 1].next == b[n];
    }
  }

  lemma SameLength<T(!new)>(a: seq<ListHead<T>>, b: seq<ListHead<T>>)
    requires Ring(a) && Ring(b) && |b| <= |a| && forall i :: 0 <= i < |b| ==> a[i] == b[i]
    ensures |a| == |b|
  {
    assert a[|b| - 1].next == b[0] == a[0];
  }

  /** The links determine the list: a head has one sequence of nodes. */
  lemma ListUnique<T(!new)>(head: ListHead<T>, s: seq<ListHead<T>>, t: seq<ListHead<T>>)
    requires IsList(head, s) && IsList(head, t)
    ensures s == t
  {
    var a, b := [head] + s, [head] + t;
    forall i | 0 <= i < |a| && i < |b| ensures a[i] == b[i] {
      RingAgrees(a, b, i);
    }
    if |a| < |b| { SameLength(b, a); } else { SameLength(a, b); }
    assert s == a[1..] && t == b[1..];
  }

  /** The head of a list is not among its nodes, which are all different. */
  lemma NodesApart<T(!new)>(head: ListHead<T>, s: seq<ListHead<T>>)
    requires IsList(head, s)
    ensures head !in s && Distinct(s)
  {
    assert forall i :: 0 <= i < |s| ==> ([head] + s)[i + 1] == s[i];
  }

  // ---- The operations -----------------------------------------------------------------------------

  /** Links a new node in between the last and the first node of a ring. */
  method ListAdd<T(!new)>(node: ListHead<T>, prev: ListHead<T>, next: ListHead<T>, ghost ring: seq<ListHead<T>>)
    requires Ring(ring) && prev == ring[|ring| - 1] && next == ring[0] && node !in ring
    modifies node`next, node`prev, prev`next, next`prev
    ensures Ring(ring + [node])
  {
    next.prev := node;
    node.next := next;
    node.prev := prev;
    prev.next := node;
  }

  /** Links the neighbours of the first node of a ring to each other; the node keeps its links. */
  method ListDel<T(!new)>(prev: ListHead<T>, next: ListHead<T>, ghost ring: seq<ListHead<T>>)
    requires Ring(ring) && prev == ring[0].prev && next == ring[0].next
    modifies prev`next, next`prev
    ensures |ring| == 1 ==> Ring(ring)
    ensures |ring| > 1 ==> Ring(ring[1..]) && ring[0].next == old(ring[0].next) && ring[0].prev == old(ring[0].prev)
  {
    next.prev := prev;
    prev.next := next;
  }

  method InitListHead<T(!new)>(head: ListHead<T>)
    modifies head`next, head`prev
    ensures IsList(head, [])
  {
    head.next := head;
    head.prev := head;
  }

  method CommonListEmpty<T(!new)>(head: ListHead<T>, ghost s: seq<ListHead<T>>) returns (empty: bool)
    requires IsList(head, s)
    ensures empty <==> s == []
  {
    assert s != [] ==> ([head] + s)[1] == s[0];
    empty := head.next == head;
  }

  method CommonListAdd<T(!new)>(node: ListHead<T>, head: ListHead<T>, ghost s: seq<ListHead<T>>)
    requires IsList(head, s) && node != head && node !in s
    modifies node`next, node`prev, head`next, head`prev, s`prev
    ensures IsList(head, [node] + s)
  {
    ghost var ring := s + [head];
    Rotate([head], s);
    assert head.next == ring[0];
    ListAdd(node, head, head.next, ring);
    assert ring + [node] == s + [head, node];
    Rotate(s, [head, node]);
    assert [head, node] + s == [head] + ([node] + s);
  }

  method CommonListAddTail<T(!new)>(node: ListHead<T>, head: ListHead<T>, ghost s: seq<ListHead<T>>)
    requires IsList(head, s) && node != head && node !in s
    modifies node`next, node`prev, head`prev, head`next, s`next
    ensures IsList(head, s + [node])
  {
    ghost var ring := [head] + s;
    assert head.prev == ring[|ring| - 1];
    ListAdd(node, head.prev, head, ring);
    assert [head] + s + [node] == [head] + (s + [node]);
  }

  /** Removes node i of the list; the removed node keeps its stale links. */
  method CommonListDel<T(!new)>(entry: ListHead<T>, ghost head: ListHead<T>, ghost s: seq<ListHead<T>>, ghost i: nat)
    requires IsList(head, s) && i < |s| && entry == s[i]
    modifies head`next, head`prev, s`next, s`prev
    ensures IsList(head, s[..i] + s[i + 1..])
    ensures entry.next == old(entry.next) && entry.prev == old(entry.prev)
  {
    AnyNodeIsHead(head, s, i);
    ghost var rest := s[i + 1..] + [head] + s[..i];
    assert forall x :: x in rest ==> x == head || x in s;
    assert entry.next == ([entry] + rest)[1] == rest[0];
    assert entry.prev == ([entry] + rest)[|rest|] == rest[|rest| - 1];
    ListDel(entry.prev, entry.next, [entry] + rest);
    assert ([entry] + rest)[1..] == s[i + 1..] + ([head] + s[..i]);
    Rotate(s[i + 1..], [head] + s[..i]);
    assert [head] + s[..i] + s[i + 1..] == [head] + (s[..i] + s[i + 1..]);
  }

  /** As CommonListDel, but the removed node is left a well-formed empty list of its own. */
  method CommonListDelInit<T(!new)>(entry: ListHead<T>, ghost head: ListHead<T>, ghost s: seq<ListHead<T>>, ghost i: nat)
    requires IsList(head, s) && i < |s| && entry == s[i]
    modifies head`next, head`prev, s`next, s`prev
    ensures IsList(head, s[..i] + s[i + 1..])
    ensures IsList(entry, [])
  {
    assert ([head] + s)[i + 1] == entry;
    CommonListDel(entry, head, s, i);
    ghost var full, ring := [head] + s, [head] + (s[..i] + s[i + 1..]);
    forall k | 0 <= k < |ring| ensures ring[k] != entry {
      assert ring[k] == full[if k <= i then k else k + 1];
    }
    InitListHead(entry);
    assert Ring(ring);
  }

  lemma SpliceDistinct<T(!new)>(a: seq<ListHead<T>>, b: seq<ListHead<T>>, r: seq<ListHead<T>>)
    requires a != [] && b != [] && Distinct(a) && Distinct(b)
    requires forall x, y :: x in a && y in b ==> x != y
    requires r == [b[0]] + a[1..] + b[1..]
    ensures Distinct(r)
    ensures r[0] == b[0]
    ensures forall i, j :: 0 <= i < |a| && 0 <= j < |b| ==> a[i] != b[j]
    ensures forall i :: 1 <= i < |a| ==> r[i] == a[i]
    ensures forall i :: |a| <= i < |r| ==> r[i] == b[i - |a| + 1]
  {
    var front := [b[0]] + a[1..];
    assert forall i :: 1 <= i < |a| ==> front[i] == a[i];
    assert r == front + b[1..];
    assert forall i :: 1 <= i < |a| ==> r[i] == front[i];
    forall i, j | 0 <= i < |a| && 0 <= j < |b| ensures a[i] != b[j] {
      assert a[i] in a && b[j] in b;
    }
  }

  lemma SpliceRing<T(!new)>(a: seq<ListHead<T>>, b: seq<ListHead<T>>, r: seq<ListHead<T>>)
    requires |a| > 1 && b != [] && Distinct(a) && Distinct(b) && forall x, y :: x in a && y in b ==> x != y
    requires r == [b[0]] + a[1..] + b[1..]
    requires b[0].next == a[1] && a[1].prev == b[0]
    requires |b| == 1 ==> a[|a| - 1].next == b[0] && b[0].prev == a[|a| - 1]
    requires |b| > 1 ==> a[|a| - 1].next == b[1] && b[1].prev == a[|a| - 1]
    requires |b| > 1 ==> b[|b| - 1].next == b[0] && b[0].prev == b[|b| - 1]
    requires forall i :: 0 < i < |a| - 1 ==> a[i].next == a[i + 1]
    requires forall i :: 1 < i < |a| ==> a[i].prev == a[i - 1]
    requires forall i :: 0 < i < |b| - 1 ==> b[i].next == b[i + 1]
    requires forall i :: 1 < i < |b| ==> b[i].prev == b[i - 1]
    ensures Ring(r)
  {
    SpliceDistinct(a, b, r);
    forall i | 0 <= i < |r| - 1 ensures r[i].next == r[i + 1] {
      if i < |a| { assert r[i + 1] == if i + 1 < |a| then a[i + 1] else b[1]; }
    }
    forall i | 0 < i < |r| ensures r[i].prev == r[i - 1] {
      if i > |a| { assert r[i] == b[i - |a| + 1]; }
    }
  }

  /** Moves all nodes of `list` to the front of `head`; the emptied head keeps its stale links. */
  method CommonListSplice<T(!new)>(list: ListHead<T>, head: ListHead<T>, ghost s: seq<ListHead<T>>, ghost t: seq<ListHead<T>>)
    requires IsList(list, s) && IsList(head, t)
    requires forall x, y :: x in [list] + s && y in [head] + t ==> x != y
    modifies s`next, s`prev, head`next, head`prev, t`prev
    ensures IsList(head, s + t)
    ensures list.next == old(list.next) && list.prev == old(list.prev)
  {
    ghost var a, b, r := [list] + s, [head] + t, [head] + (s + t);
    assert r == [b[0]] + a[1..] + b[1..];
    SpliceDistinct(a, b, r);
    var first := list.next;
    assert s != [] ==> a[0] != a[1];
    if first != list {
      var last := list.prev;
      var at := head.next;
      assert first == a[1] && last == a[|a| - 1];
      assert at == if t == [] then head else b[1];
      first.prev := head;
      head.next := first;
      last.next := at;
      at.prev := last;
      SpliceRing(a, b, r);
    } else {
      assert r == b;
    }
  }

  /** One turn of COMMON_FREE_LIST; `nodes` bounds what may change. */
  method FreeFirst<T(!new)>(head: ListHead<T>, ghost s: seq<ListHead<T>>, ghost nodes: set<ListHead<T>>)
    returns (node: ListHead<T>, empty: bool)
    requires IsList(head, s) && s != [] && forall x :: x in s ==> x in nodes
    modifies head`next, head`prev, nodes`next, nodes`prev
    ensures node == s[0] && IsList(head, s[1..])
    ensures empty <==> s[1..] == []
  {
    assert ([head] + s)[1] == s[0];
    node := head.next;
    CommonListDel(node, head, s, 0);
    assert s[..0] + s[1..] == s[1..];
    empty := CommonListEmpty(head, s[1..]);
  }

  lemma MoveOne<T>(a: seq<T>, b: seq<T>)
    requires b != []
    ensures a + b == (a + [b[0]]) + b[1..]
    ensures forall x :: x in b[1..] ==> x in b
  {
  }

  /** COMMON_FREE_LIST: unlinks the first node and frees it until the list is empty.
      `freed` are the nodes passed to free, in that order. */
  method FreeList<T(!new)>(head: ListHead<T>, ghost s: seq<ListHead<T>>, ghost nodes: set<ListHead<T>>)
    returns (ghost freed: seq<ListHead<T>>)
    requires IsList(head, s) && forall x :: x in s ==> x in nodes
    modifies head`next, head`prev, nodes`next, nodes`prev
    ensures freed == s && Distinct(freed)
    ensures IsList(head, [])
  {
    freed := [];
    NodesApart(head, s);
    ghost var rest := s;
    var empty := CommonListEmpty(head, s);
    while !empty
      invariant s == freed + rest && forall x :: x in rest ==> x in nodes
      invariant IsList(head, rest)
      invariant empty <==> rest == []
      decreases |rest|
    {
      MoveOne(freed, rest);
      var node;
      node, empty := FreeFirst(head, rest, nodes);
      freed, rest := freed + [node], rest[1..];
    }
  }
}
