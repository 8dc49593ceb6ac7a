/** Null-terminated chains of list elements (`list_ele_t`) and the merge sort
    that queue.c runs over them by rewiring `next` pointers. */
module Chains {
  import opened CaseCompare
  import SortSpec

  /** A list element. The string it owns is never replaced once the element
      exists, so `value` is a constant; only `next` is rewired. */
  class Node {
    const value: string
    var next: Node?

    constructor (value: string)
      ensures this.value == value && next == null
    {
      this.value := value;
      next := null;
    }
  }

  /** No node occurs twice. */
  ghost predicate Distinct(ns: seq<Node>) {
    ns == [] || (ns[0] !in ns[1..] && Distinct(ns[1..]))
  }

  /** No node of `xs` occurs in `ys`. */
  ghost predicate Disjoint(xs: seq<Node>, ys: seq<Node>) {
    forall n | n in xs :: n !in ys
  }

  /** The node at position `k` of `ns`, or null past either end. */
  function At(ns: seq<Node>, k: int): Node? {
    if 0 <= k < |ns| then ns[k] else null
  }

  /** Following `next` from `h` visits exactly the nodes `ns`, each once,
      and then reaches null. */
  ghost predicate IsList(h: Node?, ns: seq<Node>)
    reads ns
    decreases |ns|
  {
    if ns == [] then h == null
    else h == ns[0] && ns[0] !in ns[1..] && IsList(ns[0].next, ns[1..])
  }

  /** Each node of `ns` but the last has the node after it as `next`. The
      last node's `next` is left open, so it is not read. */
  ghost predicate Segment(ns: seq<Node>)
    reads if ns == [] then [] else ns[..|ns| - 1]
    decreases |ns|
  {
    |ns| <= 1 || (ns[0].next == ns[1] && Segment(ns[1..]))
  }

  /** The strings held by `ns`, in order. */
  function Values(ns: seq<Node>): (vs: seq<string>)
    ensures |vs| == |ns|
  {
    if ns == [] then [] else [ns[0].value] + Values(ns[1..])
  }

  lemma {:induction false} ValuesAppend(xs: seq<Node>, ys: seq<Node>)
    ensures Values(xs + ys) == Values(xs) + Values(ys)
  {
    if xs == [] {
      assert xs + ys == ys;
    } else {
      assert (xs + ys)[1..] == xs[1..] + ys;
      ValuesAppend(xs[1..], ys);
    }
  }

  lemma ValuesSlice(ns: seq<Node>, k: int)
    requires 0 <= k <= |ns|
    ensures Values(ns[..k]) == Values(ns)[..k]
    ensures Values(ns[k..]) == Values(ns)[k..]
  {
    assert ns == ns[..k] + ns[k..];
    ValuesAppend(ns[..k], ns[k..]);
  }

  lemma ValuesCons(n: Node, rest: seq<Node>)
    ensures Values([n] + rest) == [n.value] + Values(rest)
  {
    assert ([n] + rest)[1..] == rest;
  }

  /** Joining two disjoint distinct sequences gives a distinct sequence. */
  lemma {:induction false} DistinctAppend(xs: seq<Node>, ys: seq<Node>)
    requires Distinct(xs) && Distinct(ys) && Disjoint(xs, ys)
    ensures Distinct(xs + ys)
  {
    if xs == [] {
      assert xs + ys == ys;
    } else {
      var t := xs[1..];
      assert xs == [xs[0]] + t;
      assert (xs + ys)[1..] == t + ys;
      assert Disjoint(t, ys);
      DistinctAppend(t, ys);
      assert xs[0] in xs;
    }
  }

  /** Both parts of a distinct sequence are distinct, and they share no node. */
  lemma {:induction false} DistinctSplit(xs: seq<Node>, ys: seq<Node>)
    requires Distinct(xs + ys)
    ensures Distinct(xs) && Distinct(ys) && Disjoint(xs, ys)
  {
    if xs == [] {
      assert xs + ys == ys;
    } else {
      var t := xs[1..];
      assert xs == [xs[0]] + t;
      assert (xs + ys)[1..] == t + ys;
      DistinctSplit(t, ys);
      assert xs[0] !in t + ys;
    }
  }

  /** The nodes of a chain are distinct. */
  lemma {:induction false} ListDistinct(h: Node?, ns: seq<Node>)
    requires IsList(h, ns)
    ensures Distinct(ns)
    decreases |ns|
  {
    if ns != [] {
      ListDistinct(ns[0].next, ns[1..]);
    }
  }

  /** In a chain, the `next` of the node at position `j` is the node at
      position `j + 1`, or null after the last one. */
  lemma {:induction false} ListNext(h: Node?, ns: seq<Node>, j: int)
    requires IsList(h, ns) && 0 <= j < |ns|
    ensures ns[j].next == At(ns, j + 1)
    decreases j
  {
    var rest := ns[1..];
    if j == 0 {
      assert IsList(ns[0].next, rest);
    } else {
      ListNext(ns[0].next, rest, j - 1);
      assert rest[j - 1] == ns[j] && At(rest, j) == At(ns, j + 1);
    }
  }

  /** A chain cut after its first `j` nodes: the first part is a segment
      whose last node points at the head of the chain of the rest. */
  lemma {:induction false} ListSplit(h: Node?, ns: seq<Node>, j: int)
    requires IsList(h, ns) && 0 < j <= |ns|
    ensures Segment(ns[..j]) && ns[j - 1].next == At(ns, j)
    ensures IsList(At(ns, j), ns[j..])
    decreases j
  {
    var rest := ns[1..];
    if j == 1 {
      assert ns[1..] == rest && At(ns, 1) == At(rest, 0);
      assert IsList(ns[0].next, rest);
      if rest != [] {
        assert IsList(rest[0], rest);
      }
    } else {
      ListSplit(ns[0].next, rest, j - 1);
      assert rest[..j - 1] == ns[..j][1..] && rest[j - 1..] == ns[j..];
      assert rest[j - 2] == ns[j - 1] && At(rest, j - 1) == At(ns, j);
      assert ns[..j][0].next == ns[..j][1];
    }
  }

  /** A segment whose last node points at the head of a chain of other nodes
      joins with it into one chain. */
  lemma {:induction false} Join(s: seq<Node>, rest: seq<Node>, h: Node?)
    requires s != [] && Segment(s) && Distinct(s + rest)
    requires s[|s| - 1].next == h && IsList(h, rest)
    ensures IsList(s[0], s + rest)
    decreases |s|
  {
    var zs := s + rest;
    assert zs[0] == s[0] && zs[1..] == s[1..] + rest;
    if |s| == 1 {
      assert zs[1..] == rest;
    } else {
      Join(s[1..], rest, h);
    }
  }

  /** Linking the last node of a segment to another node extends it. */
  lemma {:induction false} SegmentSnoc(s: seq<Node>, n: Node)
    requires s != [] && Segment(s) && s[|s| - 1].next == n
    ensures Segment(s + [n])
    decreases |s|
  {
    var t := s + [n];
    if |s| == 1 {
      assert t[1..] == [n];
    } else {
      SegmentSnoc(s[1..], n);
      assert t[1..] == s[1..] + [n];
    }
  }

  /** `merge`'s splice test on two nodes. */
  predicate NodeTakesRight(l: Node, r: Node) {
    SortSpec.TakesRight(l.value, r.value)
  }

  /** The order in which `merge` splices the nodes of two chains. */
  function MergeNodes(xs: seq<Node>, ys: seq<Node>): seq<Node> {
    SortSpec.MergeBy(xs, ys, NodeTakesRight)
  }

  /** The order in which `mergeSortList` leaves the nodes of a chain. */
  function SortNodes(ns: seq<Node>): seq<Node> {
    SortSpec.MergeSortBy(ns, NodeTakesRight)
  }

  /** The strings of the merged node order are the merge of the strings. */
  lemma {:induction false} ValuesMergeNodes(xs: seq<Node>, ys: seq<Node>)
    ensures Values(MergeNodes(xs, ys)) == SortSpec.Merge(Values(xs), Values(ys))
    decreases |xs| + |ys|
  {
    if xs != [] && ys != [] {
      if NodeTakesRight(xs[0], ys[0]) {
        ValuesMergeNodes(xs, ys[1..]);
        ValuesCons(ys[0], MergeNodes(xs, ys[1..]));
      } else {
        ValuesMergeNodes(xs[1..], ys);
        ValuesCons(xs[0], MergeNodes(xs[1..], ys));
      }
    }
  }

  /** The strings of the sorted node order are the merge sort of the strings. */
  lemma {:induction false} ValuesSortNodes(ns: seq<Node>)
    ensures Values(SortNodes(ns)) == SortSpec.MergeSort(Values(ns))
    decreases |ns|
  {
    if |ns| > 1 {
      var m := SortSpec.LeftLength(|ns|);
      ValuesSortNodes(ns[..m]);
      ValuesSortNodes(ns[m..]);
      ValuesSlice(ns, m);
      ValuesMergeNodes(SortNodes(ns[..m]), SortNodes(ns[m..]));
    }
  }

  /** The merged order holds exactly the nodes of both inputs. */
  lemma MergeNodesMembers(xs: seq<Node>, ys: seq<Node>)
    ensures forall n :: n in MergeNodes(xs, ys) <==> n in xs || n in ys
  {
    forall n ensures n in MergeNodes(xs, ys) <==> n in xs || n in ys {
      SortSpec.MergeByMembers(xs, ys, NodeTakesRight, n);
    }
  }

  /** The sorted order holds exactly the nodes of the input. */
  lemma SortNodesMembers(ns: seq<Node>)
    ensures forall n :: n in SortNodes(ns) <==> n in ns
  {
    forall n ensures n in SortNodes(ns) <==> n in ns {
      SortSpec.MergeSortByMembers(ns, NodeTakesRight, n);
    }
  }

  /** Every position of the merged order holds a node of one of the inputs. */
  lemma MergedWithin(xs: seq<Node>, ys: seq<Node>)
    ensures forall i | 0 <= i < |MergeNodes(xs, ys)| :: MergeNodes(xs, ys)[i] in xs || MergeNodes(xs, ys)[i] in ys
  {
    forall i | 0 <= i < |MergeNodes(xs, ys)| ensures MergeNodes(xs, ys)[i] in xs || MergeNodes(xs, ys)[i] in ys {
      var n := MergeNodes(xs, ys)[i];
      assert n in MergeNodes(xs, ys);
      SortSpec.MergeByMembers(xs, ys, NodeTakesRight, n);
    }
  }

  /** Every position of the sorted order of `part` holds a node of `outer`
      when every node of `part` is one. */
  lemma SortedWithin(part: seq<Node>, outer: seq<Node>)
    requires forall n | n in part :: n in outer
    ensures forall i | 0 <= i < |SortNodes(part)| :: SortNodes(part)[i] in outer
  {
    forall i | 0 <= i < |SortNodes(part)| ensures SortNodes(part)[i] in outer {
      var n := SortNodes(part)[i];
      assert n in SortNodes(part);
      SortSpec.MergeSortByMembers(part, NodeTakesRight, n);
    }
  }

  /** Merging two disjoint distinct sequences repeats no node. */
  lemma {:induction false} MergeNodesDistinct(xs: seq<Node>, ys: seq<Node>)
    requires Distinct(xs) && Distinct(ys) && Disjoint(xs, ys)
    ensures Distinct(MergeNodes(xs, ys))
    decreases |xs| + |ys|
  {
    if xs != [] && ys != [] {
      if NodeTakesRight(xs[0], ys[0]) {
        var rest := ys[1..];
        assert Disjoint(xs, rest);
        MergeNodesDistinct(xs, rest);
        MergeNodesMembers(xs, rest);
        assert ys[0] in ys;
        var zs := MergeNodes(xs, ys);
        assert zs == [ys[0]] + MergeNodes(xs, rest);
        assert zs[1..] == MergeNodes(xs, rest);
      } else {
        var rest := xs[1..];
        assert Disjoint(rest, ys);
        MergeNodesDistinct(rest, ys);
        MergeNodesMembers(rest, ys);
        assert xs[0] in xs;
        var zs := MergeNodes(xs, ys);
        assert zs == [xs[0]] + MergeNodes(rest, ys);
        assert zs[1..] == MergeNodes(rest, ys);
      }
    }
  }

  /** Sorting a distinct sequence repeats no node. */
  lemma {:induction false} SortNodesDistinct(ns: seq<Node>)
    requires Distinct(ns)
    ensures Distinct(SortNodes(ns))
    decreases |ns|
  {
    if |ns| > 1 {
      var m := SortSpec.LeftLength(|ns|);
      var left, right := ns[..m], ns[m..];
      assert ns == left + right;
      DistinctSplit(left, right);
      SortNodesDistinct(left);
      SortNodesDistinct(right);
      SortNodesMembers(left);
      SortNodesMembers(right);
      assert Disjoint(SortNodes(left), SortNodes(right));
      MergeNodesDistinct(SortNodes(left), SortNodes(right));
    }
  }

  /** Sorting gives a permutation of the nodes. */
  lemma SortNodesPermutation(ns: seq<Node>)
    ensures multiset(SortNodes(ns)) == multiset(ns)
  {
    SortSpec.MergeSortByPermutation(ns, NodeTakesRight);
  }

  /** What `merge` promises for sorted inputs: a sorted chain made of
      exactly the nodes of both. */
  lemma MergedChainSorted(xs: seq<Node>, ys: seq<Node>)
    requires SortSpec.Sorted(Values(xs)) && SortSpec.Sorted(Values(ys))
    ensures SortSpec.Sorted(Values(MergeNodes(xs, ys)))
    ensures multiset(MergeNodes(xs, ys)) == multiset(xs) + multiset(ys)
  {
    ValuesMergeNodes(xs, ys);
    SortSpec.MergeSorted(Values(xs), Values(ys));
    SortSpec.MergeByPermutation(xs, ys, NodeTakesRight);
  }

  /** What `mergeSortList` promises: a sorted chain made of exactly the
      nodes of its input. */
  lemma SortedChain(ns: seq<Node>)
    ensures SortSpec.Sorted(Values(SortNodes(ns)))
    ensures multiset(SortNodes(ns)) == multiset(ns)
  {
    ValuesSortNodes(ns);
    SortSpec.MergeSortSorted(Values(ns));
    SortNodesPermutation(ns);
  }

  /** One step of the splice taking the front of the right-hand chain: it
      is the next node of the merged order, and the node spliced before it
      lies outside what is left of both chains and the merged prefix. */
  lemma TakeRight(zs: seq<Node>, k: int, rx: seq<Node>, ry: seq<Node>)
    requires Distinct(zs) && 0 < k <= |zs| && MergeNodes(rx, ry) == zs[k..]
    requires rx != [] && ry != [] && StrCaseCmp(rx[0].value, ry[0].value) >= 0
    ensures k < |zs| && zs[k] == ry[0] && MergeNodes(rx, ry[1..]) == zs[k + 1..]
    ensures zs[k - 1] !in rx && zs[k - 1] !in ry && zs[k - 1] !in zs[..k][..k - 1]
  {
    assert MergeNodes(rx, ry) == [ry[0]] + MergeNodes(rx, ry[1..]);
    assert zs[k..][0] == ry[0] && zs[k..][1..] == zs[k + 1..];
    Outside(zs, k, rx, ry);
  }

  /** The same step taking the front of the left-hand chain. */
  lemma TakeLeft(zs: seq<Node>, k: int, rx: seq<Node>, ry: seq<Node>)
    requires Distinct(zs) && 0 < k <= |zs| && MergeNodes(rx, ry) == zs[k..]
    requires rx != [] && ry != [] && StrCaseCmp(rx[0].value, ry[0].value) < 0
    ensures k < |zs| && zs[k] == rx[0] && MergeNodes(rx[1..], ry) == zs[k + 1..]
    ensures zs[k - 1] !in rx && zs[k - 1] !in ry && zs[k - 1] !in zs[..k][..k - 1]
  {
    assert MergeNodes(rx, ry) == [rx[0]] + MergeNodes(rx[1..], ry);
    assert zs[k..][0] == rx[0] && zs[k..][1..] == zs[k + 1..];
    Outside(zs, k, rx, ry);
  }

  /** While splicing, the last node spliced lies outside what is left of
      both inputs and occurs nowhere earlier in the merged order. */
  lemma Outside(zs: seq<Node>, k: int, rx: seq<Node>, ry: seq<Node>)
    requires Distinct(zs) && 0 < k <= |zs| && MergeNodes(rx, ry) == zs[k..]
    ensures zs[k - 1] !in rx && zs[k - 1] !in ry && zs[k - 1] !in zs[..k][..k - 1]
  {
    var done, left := zs[..k - 1], zs[k - 1..];
    assert zs == done + left;
    DistinctSplit(done, left);
    assert left[0] == zs[k - 1] && left[0] in left;
    assert left[1..] == zs[k..];
    MergeNodesMembers(rx, ry);
    assert zs[..k][..k - 1] == done;
  }

  /** Once one input is exhausted, what is left of the other is the rest of
      the merged order. */
  lemma Rest(zs: seq<Node>, k: int, rx: seq<Node>, ry: seq<Node>)
    requires 0 <= k <= |zs| && MergeNodes(rx, ry) == zs[k..]
    ensures ry == [] ==> zs[..k] + rx == zs
    ensures rx == [] ==> zs[..k] + ry == zs
  {
  }

  /** `merge(l1, l2)`: splices two null-terminated chains into one, taking
      the front of `l2` whenever `strcasecmp(l1->value, l2->value) >= 0`.
      The result is the chain of `MergeNodes(xs, ys)`. */
  method Merge(l1: Node?, l2: Node?, ghost xs: seq<Node>, ghost ys: seq<Node>)
      returns (head: Node?, ghost zs: seq<Node>)
    requires IsList(l1, xs) && IsList(l2, ys) && Disjoint(xs, ys)
    modifies xs, ys
    ensures zs == MergeNodes(xs, ys) && IsList(head, zs)
  {
    zs := MergeNodes(xs, ys);
    if l2 == null {
      return l1, zs;
    }
    if l1 == null {
      return l2, zs;
    }
    ListDistinct(l1, xs);
    ListDistinct(l2, ys);
    MergeNodesDistinct(xs, ys);
    MergedWithin(xs, ys);
    var a, b := l1, l2;
    ghost var rx, ry := xs, ys;
    if StrCaseCmp(a.value, b.value) >= 0 {
      assert zs == [b] + MergeNodes(rx, ry[1..]);
      head := b;
      b := b.next;
      ry := ry[1..];
    } else {
      assert zs == [a] + MergeNodes(rx[1..], ry);
      head := a;
      a := a.next;
      rx := rx[1..];
    }
    Splice(head, a, b, zs, rx, ry);
  }

  /** The loop of `merge` and its last splice: `tmp` starts at the head,
      which has already been taken from one of the chains. */
  method Splice(head: Node, a0: Node?, b0: Node?, ghost zs: seq<Node>,
                ghost rx0: seq<Node>, ghost ry0: seq<Node>)
    requires IsList(a0, rx0) && IsList(b0, ry0) && (a0 != null || b0 != null)
    requires Distinct(zs) && zs != [] && head == zs[0]
    requires MergeNodes(rx0, ry0) == zs[1..]
    modifies zs
    ensures IsList(head, zs)
  {
    var a, b := a0, b0;
    ghost var rx, ry := rx0, ry0;
    ghost var k := 1;
    var tmp := head;
    while a != null && b != null
      invariant IsList(a, rx) && IsList(b, ry)
      invariant a != null || b != null
      invariant 0 < k <= |zs| && tmp == zs[k - 1]
      invariant Segment(zs[..k])
      invariant MergeNodes(rx, ry) == zs[k..]
      decreases |rx| + |ry|
    {
      if StrCaseCmp(a.value, b.value) >= 0 {
        TakeRight(zs, k, rx, ry);
        Link(tmp, b, zs, k);
        tmp := b;
        b := b.next;
        ry := ry[1..];
      } else {
        TakeLeft(zs, k, rx, ry);
        Link(tmp, a, zs, k);
        tmp := a;
        a := a.next;
        rx := rx[1..];
      }
      k := k + 1;
    }
    Finish(tmp, a, b, zs, k, rx, ry);
  }

  /** The end of `merge`: one chain is exhausted and the rest of the other
      is hung from the node spliced last. */
  method Finish(tmp: Node, a: Node?, b: Node?, ghost zs: seq<Node>, ghost k: int,
                ghost rx: seq<Node>, ghost ry: seq<Node>)
    requires IsList(a, rx) && IsList(b, ry) && (a != null || b != null) && (a == null || b == null)
    requires Distinct(zs) && 0 < k <= |zs| && tmp == zs[k - 1]
    requires Segment(zs[..k]) && MergeNodes(rx, ry) == zs[k..]
    modifies zs
    ensures IsList(zs[0], zs)
  {
    Rest(zs, k, rx, ry);
    if a != null {
      Attach(tmp, a, zs[..k], rx);
    }
    if b != null {
      Attach(tmp, b, zs[..k], ry);
    }
  }

  /** One splice of the loop of `merge`: `tmpNode->next` is set to the
      node that comes next in the merged order, which extends the segment
      built so far by that node. */
  method Link(tmp: Node, n: Node, ghost zs: seq<Node>, ghost k: int)
    requires 0 < k < |zs| && tmp == zs[k - 1] && n == zs[k]
    requires Segment(zs[..k]) && tmp !in zs[..k][..k - 1]
    modifies tmp
    ensures tmp.next == n && Segment(zs[..k + 1])
  {
    tmp.next := n;
    assert zs[..k + 1] == zs[..k] + [n];
    SegmentSnoc(zs[..k], n);
  }

  /** The last splice of `merge`: the node spliced last gets the rest of the
      chain that is not yet exhausted as its `next`. */
  method Attach(tmp: Node, h: Node, ghost done: seq<Node>, ghost rest: seq<Node>)
    requires done != [] && Segment(done) && tmp == done[|done| - 1]
    requires IsList(h, rest) && Distinct(done + rest)
    modifies tmp
    ensures IsList(done[0], done + rest)
  {
    DistinctSplit(done, rest);
    ghost var front := done[..|done| - 1];
    assert done == front + [tmp];
    DistinctSplit(front, [tmp]);
    assert tmp in done;
    tmp.next := h;
    Join(done, rest, h);
  }

  /** The fast/slow walk of `mergeSortList`: `fast` moves two nodes for each
      node `slow` moves, so `slow` stops at the last node of the left half. */
  method FindMiddle(head: Node, ghost ns: seq<Node>) returns (slow: Node, ghost k: nat)
    requires IsList(head, ns) && |ns| >= 2
    ensures k + 1 == SortSpec.LeftLength(|ns|) && slow == ns[k]
    ensures slow == ns[SortSpec.LeftLength(|ns|) - 1]
  {
    ListNext(head, ns, 0);
    var fast := head.next;
    slow := head;
    k := 0;
    while fast != null && fast.next != null
      invariant 2 * k + 1 <= |ns|
      invariant slow == ns[k]
      invariant fast == At(ns, 2 * k + 1)
      decreases |ns| - 2 * k
    {
      ListNext(head, ns, 2 * k + 1);
      ListNext(head, ns, 2 * k + 2);
      ListNext(head, ns, k);
      slow := slow.next;
      fast := fast.next.next;
      k := k + 1;
    }
    if fast != null {
      ListNext(head, ns, 2 * k + 1);
    }
  }

  /** The cut of `mergeSortList`: `fast = slow->next; slow->next = NULL;`
      splits the chain after its node at position `k` into two chains. */
  method Cut(slow: Node, ghost h: Node?, ghost ns: seq<Node>, ghost k: nat) returns (fast: Node?)
    requires IsList(h, ns) && k + 1 < |ns| && slow == ns[k]
    modifies slow
    ensures IsList(h, ns[..k + 1]) && IsList(fast, ns[k + 1..])
    ensures Disjoint(ns[..k + 1], ns[k + 1..])
  {
    ghost var left, right := ns[..k + 1], ns[k + 1..];
    ListSplit(h, ns, k + 1);
    ListDistinct(h, ns);
    assert ns == left + right;
    DistinctSplit(left, right);
    assert left == left[..k] + [slow];
    DistinctSplit(left[..k], [slow]);
    assert slow in left;
    fast := slow.next;
    slow.next := null;
    assert left + [] == left;
    Join(left, [], null);
  }

  /** The first half of `mergeSortList`: the fast/slow walk and the cut.
      The chain of `ns` becomes the chain of its first `LeftLength(|ns|)`
      nodes, from `head`, and the chain of the rest, from `fast`. */
  method Halve(head: Node, ghost ns: seq<Node>) returns (fast: Node?, ghost left: seq<Node>, ghost right: seq<Node>)
    requires IsList(head, ns) && |ns| >= 2
    modifies ns
    ensures left == ns[..SortSpec.LeftLength(|ns|)] && right == ns[SortSpec.LeftLength(|ns|)..]
    ensures IsList(head, left) && IsList(fast, right) && Disjoint(left, right)
  {
    var slow;
    ghost var k;
    slow, k := FindMiddle(head, ns);
    left, right := ns[..k + 1], ns[k + 1..];
    assert slow in ns;
    fast := Cut(slow, head, ns, k);
  }

  /** What the two recursive calls and the merge of `mergeSortList` need to
      know about the halves: every node they touch is a node of `ns`, and
      the nodes of one half (sorted or not) are not nodes of the other. */
  lemma Halves(ns: seq<Node>, left: seq<Node>, right: seq<Node>)
    requires ns == left + right && Disjoint(left, right)
    ensures forall i | 0 <= i < |left| :: left[i] in ns
    ensures forall i | 0 <= i < |right| :: right[i] in ns && right[i] !in left
    ensures forall i | 0 <= i < |SortNodes(left)| :: SortNodes(left)[i] in ns && SortNodes(left)[i] !in right
    ensures forall i | 0 <= i < |SortNodes(right)| :: SortNodes(right)[i] in ns
    ensures Disjoint(SortNodes(left), SortNodes(right))
  {
    assert forall n | n in left :: n in ns;
    assert forall n | n in right :: n in ns;
    SortedWithin(left, ns);
    SortedWithin(right, ns);
    SortNodesMembers(left);
    SortNodesMembers(right);
    forall i | 0 <= i < |SortNodes(left)| ensures SortNodes(left)[i] !in right {
      var n := SortNodes(left)[i];
      assert n in SortNodes(left);
    }
  }

  /** `mergeSortList(head)`: chains of fewer than two nodes come back as
      they are; otherwise a fast/slow walk finds the last node of the left
      half, the chain is cut there, both halves are sorted recursively and
      then merged. The result is the chain of `SortNodes(ns)`. */
  method MergeSortList(head: Node?, ghost ns: seq<Node>) returns (r: Node?, ghost rs: seq<Node>)
    requires IsList(head, ns)
    modifies ns
    ensures rs == SortNodes(ns) && IsList(r, rs)
    decreases |ns|
  {
    if head == null || head.next == null {
      if head != null {
        ListNext(head, ns, 0);
      }
      return head, ns;
    }
    ListNext(head, ns, 0);
    var fast;
    ghost var left, right;
    fast, left, right := Halve(head, ns);
    Halves(ns, left, right);

    var l1;
    ghost var sortedLeft;
    label Sorting:
    l1, sortedLeft := MergeSortList(head, left);
    assert unchanged@Sorting(right);
    var l2;
    ghost var sortedRight;
    label SortedLeft:
    l2, sortedRight := MergeSortList(fast, right);
    assert unchanged@SortedLeft(sortedLeft);
    r, rs := Merge(l1, l2, sortedLeft, sortedRight);
  }
}
