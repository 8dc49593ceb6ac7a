/** The string queue of queue.c: a singly linked chain of list elements with
    a `head` pointer, a `tail` pointer and a stored element count. Every
    operation takes a possibly-null queue pointer, as the C functions do. */
module Queues {
  import opened Chains
  import opened Sequences
  import SortSpec

  datatype Option<T> = None | Some(value: T)

  /** `queue_t`. `nodes` is the chain from `head`, and `Contents` the strings
      it holds, front first. */
  class Queue {
    var head: Node?
    var tail: Node?
    var size: int
    ghost var nodes: seq<Node>
    ghost var Contents: seq<string>

    /** The stored count is the length of the chain, `head` starts it and,
        while the queue is not empty, `tail` is its last node. An emptied
        queue keeps whatever `tail` it had. */
    ghost predicate Valid()
      reads this, nodes
    {
      && size == |nodes|
      && IsList(head, nodes)
      && (size > 0 ==> tail == nodes[size - 1])
      && Contents == Values(nodes)
    }

    constructor ()
      ensures Valid() && Contents == [] && nodes == []
      ensures head == null && tail == null && size == 0
    {
      head, tail, size := null, null, 0;
      nodes, Contents := [], [];
    }
  }

  /** `q_new`: `allocOk` stands for the allocation of the queue record
      succeeding; when it fails the result is null. */
  method New(allocOk: bool) returns (q: Queue?)
    ensures q != null <==> allocOk
    ensures q != null ==> fresh(q) && q.Valid() && q.Contents == []
    ensures q != null ==> q.head == null && q.tail == null && q.size == 0
  {
    if !allocOk {
      return null;
    }
    q := new Queue();
  }

  /** `q_size`: the stored count, read without walking the chain; 0 for a
      null queue. */
  method Size(q: Queue?) returns (n: int)
    requires q != null ==> q.Valid()
    ensures n == if q == null then 0 else |q.Contents|
  {
    if q == null {
      return 0;
    }
    return q.size;
  }

  /** `q_insert_head`: `allocOk` stands for both allocations (the element
      and the copy of `s`) succeeding. */
  method InsertHead(q: Queue?, s: string, allocOk: bool) returns (ok: bool)
    requires q != null ==> q.Valid()
    modifies q
    ensures ok <==> q != null && allocOk
    ensures q != null ==> q.Valid()
    ensures q != null && ok ==> q.Contents == [s] + old(q.Contents) && q.size == old(q.size) + 1
    ensures q != null && ok ==> fresh(q.head) && q.nodes == [q.head] + old(q.nodes)
    ensures q != null && ok ==> q.tail == if old(q.head) == null then q.head else old(q.tail)
    ensures q != null && !ok ==> unchanged(q)
  {
    if q == null {
      return false;
    }
    if !allocOk {
      return false;
    }
    var newh := new Node(s);
    newh.next := q.head;
    if q.head == null {
      q.tail := newh;
    }
    q.head := newh;
    q.size := q.size + 1;
    assert ([newh] + q.nodes)[1..] == q.nodes;
    ValuesCons(newh, q.nodes);
    q.nodes := [newh] + q.nodes;
    q.Contents := [s] + q.Contents;
    return true;
  }

  /** `q_insert_tail`: on an empty queue the new element first becomes both
      `head` and `tail`, so `q->tail->next = newt` briefly links it to
      itself until `newt->next = NULL` undoes that. */
  method InsertTail(q: Queue?, s: string, allocOk: bool) returns (ok: bool)
    requires q != null ==> q.Valid()
    modifies q, if q != null && q.size > 0 then {q.tail} else {}
    ensures ok <==> q != null && allocOk
    ensures q != null ==> q.Valid()
    ensures q != null && ok ==> q.Contents == old(q.Contents) + [s] && q.size == old(q.size) + 1
    ensures q != null && ok ==> fresh(q.tail) && q.tail.next == null && q.nodes == old(q.nodes) + [q.tail]
    ensures q != null && ok && old(q.size) == 0 ==> q.head == q.tail
    ensures q != null && !ok ==> unchanged(q)
  {
    if q == null {
      return false;
    }
    if !allocOk {
      return false;
    }
    var newt := new Node(s);
    ghost var ns := q.nodes;
    if q.size == 0 {
      q.head := newt;
      q.tail := newt;
    } else {
      Closed(q.head, ns);
    }
    q.tail.next := newt;
    newt.next := null;
    q.tail := newt;
    q.size := q.size + 1;
    if ns != [] {
      Extended(ns, newt);
    }
    ValuesAppend(ns, [newt]);
    q.nodes, q.Contents := ns + [newt], q.Contents + [s];
    return true;
  }

  /** A non-empty chain is a segment whose last node has a null `next`, and
      that last node occurs only once. */
  lemma Closed(h: Node?, ns: seq<Node>)
    requires IsList(h, ns) && ns != []
    ensures Segment(ns) && ns[|ns| - 1].next == null && ns[0] == h
    ensures ns[|ns| - 1] !in ns[..|ns| - 1] && Distinct(ns)
  {
    ListSplit(h, ns, |ns|);
    ListDistinct(h, ns);
    var last := ns[|ns| - 1];
    assert ns == ns[..|ns| - 1] + [last];
    DistinctSplit(ns[..|ns| - 1], [last]);
  }

  /** A segment of distinct nodes whose last node points at a further node
      with a null `next` is a chain ending in that node. */
  lemma Extended(ns: seq<Node>, n: Node)
    requires ns != [] && Segment(ns) && Distinct(ns) && n !in ns
    requires ns[|ns| - 1].next == n && n.next == null
    ensures IsList(ns[0], ns + [n])
  {
    DistinctAppend(ns, [n]);
    Join(ns, [n], n);
  }

  /** What `strlcpy(sp, src, bufsize)` leaves in the buffer: a buffer of
      size 0 is not written; otherwise it receives as much of `src` as fits
      before the terminating NUL. */
  function Strlcpy(src: string, bufsize: nat): (r: Option<string>)
    ensures r.None? <==> bufsize == 0
    ensures r.Some? ==> |r.value| == (if |src| < bufsize then |src| else bufsize - 1)
    ensures r.Some? ==> r.value <= src
  {
    if bufsize == 0 then None
    else if |src| < bufsize then Some(src)
    else Some(src[..bufsize - 1])
  }

  /** `q_remove_head`: `hasBuffer` says whether `sp` is non-null, and
      `copied` is what the buffer then holds. The stored `tail` is left as
      it was, even when the queue becomes empty. */
  method RemoveHead(q: Queue?, hasBuffer: bool, bufsize: nat) returns (ok: bool, copied: Option<string>)
    requires q != null ==> q.Valid()
    modifies q
    ensures ok <==> q != null && old(q.size) != 0
    ensures q != null ==> q.Valid() && q.tail == old(q.tail)
    ensures q != null && ok ==> q.Contents == old(q.Contents)[1..] && q.size == old(q.size) - 1
    ensures q != null && ok ==> q.nodes == old(q.nodes)[1..]
    ensures copied == if ok && hasBuffer then Strlcpy(old(q.Contents)[0], bufsize) else None
    ensures q != null && !ok ==> unchanged(q)
  {
    if q != null && q.size != 0 {
      var tmp := q.head;
      copied := None;
      if hasBuffer {
        copied := Strlcpy(tmp.value, bufsize);
      }
      q.head := q.head.next;
      q.size := q.size - 1;
      q.nodes := q.nodes[1..];
      q.Contents := q.Contents[1..];
    } else {
      return false, None;
    }
    return true, copied;
  }

  /** The strings of a reversed chain are the reversed strings. */
  lemma {:induction false} ValuesRev(ns: seq<Node>)
    ensures Values(Rev(ns)) == Rev(Values(ns))
  {
    if ns != [] {
      ValuesRev(ns[1..]);
      ValuesAppend(Rev(ns[1..]), [ns[0]]);
    }
  }

  /** One turn of the loop of `q_reverse`: the node at position `i` is not
      yet in the reversed prefix, and putting it in front extends it. */
  lemma ReverseStep(ns: seq<Node>, i: int)
    requires Distinct(ns) && 0 <= i < |ns|
    ensures ns[i] !in Rev(ns[..i])
    ensures Rev(ns[..i + 1]) == [ns[i]] + Rev(ns[..i])
    ensures ([ns[i]] + Rev(ns[..i]))[1..] == Rev(ns[..i])
  {
    assert ns == ns[..i] + ns[i..];
    DistinctSplit(ns[..i], ns[i..]);
    assert ns[i] in ns[i..];
    RevMembers(ns[..i], ns[i]);
    assert ns[..i + 1] == ns[..i] + [ns[i]];
    RevSnoc(ns[..i], ns[i]);
  }

  /** `q_reverse`: the old head becomes `tail` and the chain is turned
      around by `ReverseChain`, whose result is the new `head`; nothing is
      allocated, so the nodes are the same ones. */
  method Reverse(q: Queue?)
    requires q != null ==> q.Valid()
    modifies q, if q == null then [] else q.nodes
    ensures q != null ==> q.Valid() && q.size == old(q.size)
    ensures q != null ==> q.nodes == Rev(old(q.nodes)) && q.Contents == Rev(old(q.Contents))
    ensures q != null ==> forall i | 0 <= i < |q.nodes| :: q.nodes[i] in old(q.nodes)
    ensures q != null && old(q.size) != 0 ==> q.tail == old(q.head) && q.head == old(q.nodes)[old(q.size) - 1]
    ensures q != null && old(q.size) == 0 ==> unchanged(q)
  {
    if q == null || q.size == 0 {
      return;
    }
    ghost var ns := q.nodes;
    q.tail := q.head;
    q.head := ReverseChain(q.head, ns);
    RevAt(ns, 0);
    RevAt(ns, |ns| - 1);
    ValuesRev(ns);
    forall i | 0 <= i < |ns|
      ensures Rev(ns)[i] in ns
    {
      RevAt(ns, i);
    }
    q.nodes := Rev(ns);
    q.Contents := Rev(q.Contents);
  }

  /** The loop of `q_reverse`, which walks the chain with `q->head` as its
      cursor, pointing each node back at the one before it. It ends on the
      last node, which becomes the head of the reversed chain. */
  method ReverseChain(head: Node, ghost ns: seq<Node>) returns (cur: Node)
    requires IsList(head, ns)
    modifies ns
    ensures IsList(cur, Rev(ns))
  {
    ListDistinct(head, ns);
    var prev: Node? := null;
    cur := head;
    ghost var i := 0;
    while cur.next != null
      invariant 0 <= i < |ns| && cur == ns[i]
      invariant IsList(cur, ns[i..]) && IsList(prev, Rev(ns[..i]))
      decreases |ns| - i
    {
      assert ns[i..][1..] == ns[i + 1..];
      ReverseStep(ns, i);
      var tmp := cur.next;
      cur.next := prev;
      prev := cur;
      cur := tmp;
      i := i + 1;
    }
    assert ns[i..][1..] == ns[i + 1..];
    ReverseStep(ns, i);
    cur.next := prev;
    assert ns[..i + 1] == ns;
  }

  /** `q_sort`: chains of fewer than two nodes are left alone; otherwise the
      chain is merge-sorted and `tail` is walked forward from the node it
      held before, which may now sit anywhere in the chain, to the last
      node. */
  method Sort(q: Queue?)
    requires q != null ==> q.Valid()
    modifies q, if q == null then [] else q.nodes
    ensures q != null ==> q.Valid() && q.size == old(q.size)
    ensures q != null ==> q.nodes == SortNodes(old(q.nodes))
    ensures q != null ==> forall i | 0 <= i < |q.nodes| :: q.nodes[i] in old(q.nodes)
    ensures q != null ==> q.Contents == SortSpec.MergeSort(old(q.Contents))
    ensures q != null && old(q.size) <= 1 ==> unchanged(q)
  {
    if q == null || q.head == null {
      return;
    }
    if q.head.next == null {
      ListNext(q.head, q.nodes, 0);
      return;
    }
    ghost var ns := q.nodes;
    ListNext(q.head, ns, 0);
    var r;
    ghost var rs;
    r, rs := MergeSortList(q.head, ns);
    SortKeepsNodes(ns, q.tail);
    ValuesSortNodes(ns);
    var last := WalkToEnd(q.tail, r, rs);
    Install(q, r, last, rs);
  }

  /** The last two assignments of `q_sort`: the sorted chain and its last
      node become `head` and `tail`; the count is unchanged. */
  method Install(q: Queue, r: Node, last: Node, ghost rs: seq<Node>)
    requires IsList(r, rs) && rs != [] && last == rs[|rs| - 1] && q.size == |rs|
    modifies q
    ensures q.Valid() && q.size == old(q.size)
    ensures q.head == r && q.tail == last && q.nodes == rs && q.Contents == Values(rs)
  {
    q.head, q.tail := r, last;
    q.nodes, q.Contents := rs, Values(rs);
  }

  /** Sorting rewires the nodes it is given and no others: the old `tail`
      is still in the chain, and every node of the sorted chain was in the
      old one. */
  lemma SortKeepsNodes(ns: seq<Node>, t: Node)
    requires t in ns
    ensures t in SortNodes(ns)
    ensures forall i | 0 <= i < |SortNodes(ns)| :: SortNodes(ns)[i] in ns
  {
    SortNodesMembers(ns);
    SortedWithin(ns, ns);
  }

  /** The loop at the end of `q_sort`: following `next` from any node of a
      chain stops at its last node. */
  method WalkToEnd(t: Node, ghost h: Node?, ghost ns: seq<Node>) returns (last: Node)
    requires IsList(h, ns) && t in ns
    ensures last == ns[|ns| - 1] && last.next == null
  {
    ghost var p :| 0 <= p < |ns| && ns[p] == t;
    last := t;
    while last.next != null
      invariant 0 <= p < |ns| && last == ns[p]
      decreases |ns| - p
    {
      ListNext(h, ns, p);
      last := last.next;
      p := p + 1;
    }
    ListNext(h, ns, p);
  }

  /** The traversal of `q_free`: every element is visited once, front to
      back, and its string released; `released` lists them in that order. */
  method Free(q: Queue?) returns (released: seq<string>)
    requires q != null ==> q.Valid()
    ensures released == if q == null then [] else q.Contents
  {
    released := [];
    if q != null {
      var curr := q.head;
      ghost var i := 0;
      while curr != null
        invariant 0 <= i <= |q.nodes| && IsList(curr, q.nodes[i..])
        invariant released == Values(q.nodes[..i])
        decreases |q.nodes| - i
      {
        assert q.nodes[i..][1..] == q.nodes[i + 1..];
        ValuesSlice(q.nodes, i);
        ValuesSlice(q.nodes, i + 1);
        var tmp := curr;
        curr := curr.next;
        released := released + [tmp.value];
        i := i + 1;
      }
      assert q.nodes[..i] == q.nodes;
    }
  }

  /** While the queue is not empty its `tail` is the end of the chain. */
  lemma ValidTail(q: Queue)
    requires q.Valid() && q.size > 0
    ensures q.tail != null && q.tail.next == null
  {
    Closed(q.head, q.nodes);
  }

  /** Inserting at the tail of an empty queue and removing at the head with
      a large enough buffer gives back the string and leaves the queue
      empty, but with `tail` still pointing at the removed element. */
  method TailRoundTrip(q: Queue, s: string) returns (copied: Option<string>)
    requires q.Valid() && q.size == 0
    modifies q
    ensures copied == Some(s)
    ensures q.Valid() && q.size == 0 && q.Contents == [] && q.head == null && q.tail != null
  {
    var ok := InsertTail(q, s, true);
    ok, copied := RemoveHead(q, true, |s| + 1);
  }
}
