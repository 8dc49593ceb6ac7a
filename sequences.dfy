/** Sequence reversal, the abstract effect of reversing a linked chain. */
module Sequences {

  function Rev<T>(s: seq<T>): seq<T> {
    if s == [] then [] else Rev(s[1..]) + [s[0]]
  }

  /** Position `k` of the reversal holds the element `k` places from the end. */
  lemma {:induction false} RevAt<T>(s: seq<T>, k: int)
    requires 0 <= k < |s|
    ensures |Rev(s)| == |s|
    ensures Rev(s)[k] == s[|s| - 1 - k]
  {
    if k < |s| - 1 {
      RevAt(s[1..], k);
    } else {
      RevLength(s[1..]);
    }
  }

  lemma {:induction false} RevLength<T>(s: seq<T>)
    ensures |Rev(s)| == |s|
  {
    if s != [] {
      RevLength(s[1..]);
    }
  }

  /** Reversal keeps the same elements with the same multiplicities. */
  lemma {:induction false} RevMultiset<T>(s: seq<T>)
    ensures multiset(Rev(s)) == multiset(s)
  {
    if s != [] {
      RevMultiset(s[1..]);
      assert s == [s[0]] + s[1..];
    }
  }

  /** Reversing twice gives back the original sequence. */
  lemma RevInvolution<T>(s: seq<T>)
    ensures Rev(Rev(s)) == s
  {
    RevLength(s);
    RevLength(Rev(s));
    forall k | 0 <= k < |s|
      ensures Rev(Rev(s))[k] == s[k]
    {
      RevAt(Rev(s), k);
      RevAt(s, |s| - 1 - k);
    }
  }

  /** Reversing a sequence with one more element at the end puts that
      element first. */
  lemma {:induction false} RevSnoc<T>(s: seq<T>, x: T)
    ensures Rev(s + [x]) == [x] + Rev(s)
  {
    if s == [] {
      assert s + [x] == [x];
    } else {
      assert (s + [x])[1..] == s[1..] + [x];
      RevSnoc(s[1..], x);
    }
  }

  /** Reversal keeps exactly the same elements. */
  lemma RevMembers<T>(s: seq<T>, x: T)
    ensures x in Rev(s) <==> x in s
  {
    RevMultiset(s);
    assert x in Rev(s) <==> x in multiset(Rev(s));
  }
}
