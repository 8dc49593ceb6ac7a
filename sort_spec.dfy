/** The value-level meaning of the merge sort in queue.c: what `merge`
    and `mergeSortList` do to the sequence of stored strings. */
module SortSpec {
  import opened CaseCompare

  /** Non-decreasing in case-insensitive order. */
  predicate Sorted(s: seq<string>) {
    forall i | 0 < i < |s| :: CaseLe(s[i - 1], s[i])
  }

  /** The splice order of `merge`, for any test `takeRight(l, r)` that
      decides whether the front `r` of the right-hand list goes before the
      front `l` of the left-hand list. */
  function MergeBy<T>(xs: seq<T>, ys: seq<T>, takeRight: (T, T) -> bool): (r: seq<T>)
    ensures |r| == |xs| + |ys|
    decreases |xs| + |ys|
  {
    if ys == [] then xs
    else if xs == [] then ys
    else if takeRight(xs[0], ys[0]) then [ys[0]] + MergeBy(xs, ys[1..], takeRight)
    else [xs[0]] + MergeBy(xs[1..], ys, takeRight)
  }

  /** Length of the left half produced by the fast/slow walk: ceil(n/2). */
  function LeftLength(n: nat): nat {
    (n + 1) / 2
  }

  /** The recursion of `mergeSortList`: sequences of length 0 or 1 are
      returned as they are; longer ones are cut after ceil(n/2) elements,
      both halves are sorted and the results merged. */
  function MergeSortBy<T>(s: seq<T>, takeRight: (T, T) -> bool): (r: seq<T>)
    ensures |r| == |s|
    decreases |s|
  {
    if |s| <= 1 then s
    else
      var m := LeftLength(|s|);
      MergeBy(MergeSortBy(s[..m], takeRight), MergeSortBy(s[m..], takeRight), takeRight)
  }

  /** queue.c's tie rule: `strcasecmp(l1->value, l2->value) >= 0` takes the
      right-hand node, so on a tie the front of `l2` goes first. */
  predicate TakesRight(l: string, r: string) {
    StrCaseCmp(l, r) >= 0
  }

  /** What `merge` does to the strings of its two chains. */
  function Merge(xs: seq<string>, ys: seq<string>): seq<string> {
    MergeBy(xs, ys, TakesRight)
  }

  /** What `mergeSortList` does to the strings of its chain. */
  function MergeSort(s: seq<string>): seq<string> {
    MergeSortBy(s, TakesRight)
  }

  /** The fast/slow split of a chain of at least two nodes leaves both
      halves non-empty, so the recursion of `mergeSortList` terminates. */
  lemma SplitIsProper(n: nat)
    requires n >= 2
    ensures 0 < LeftLength(n) < n
    ensures LeftLength(n) == n - LeftLength(n) || LeftLength(n) == n - LeftLength(n) + 1
  {
  }

  /** Merging keeps every element of both inputs and adds none, whatever
      the test. */
  lemma {:induction false} MergeByPermutation<T>(xs: seq<T>, ys: seq<T>, takeRight: (T, T) -> bool)
    ensures multiset(MergeBy(xs, ys, takeRight)) == multiset(xs) + multiset(ys)
    decreases |xs| + |ys|
  {
    if ys == [] || xs == [] {
    } else if takeRight(xs[0], ys[0]) {
      var rest := ys[1..];
      MergeByPermutation(xs, rest, takeRight);
      assert MergeBy(xs, ys, takeRight) == [ys[0]] + MergeBy(xs, rest, takeRight);
      assert multiset(ys) == multiset{ys[0]} + multiset(rest) by {
        assert ys == [ys[0]] + rest;
      }
    } else {
      var rest := xs[1..];
      MergeByPermutation(rest, ys, takeRight);
      assert MergeBy(xs, ys, takeRight) == [xs[0]] + MergeBy(rest, ys, takeRight);
      assert multiset(xs) == multiset{xs[0]} + multiset(rest) by {
        assert xs == [xs[0]] + rest;
      }
    }
  }

  /** The merge sort returns a permutation of its input, whatever the test. */
  lemma {:induction false} MergeSortByPermutation<T>(s: seq<T>, takeRight: (T, T) -> bool)
    ensures multiset(MergeSortBy(s, takeRight)) == multiset(s)
    decreases |s|
  {
    if |s| > 1 {
      var m := LeftLength(|s|);
      var left, right := s[..m], s[m..];
      var sl, sr := MergeSortBy(left, takeRight), MergeSortBy(right, takeRight);
      MergeSortByPermutation(left, takeRight);
      MergeSortByPermutation(right, takeRight);
      MergeByPermutation(sl, sr, takeRight);
      assert MergeSortBy(s, takeRight) == MergeBy(sl, sr, takeRight);
      assert multiset(s) == multiset(left) + multiset(right) by {
        assert s == left + right;
      }
    }
  }

  /** An element is in a merge exactly when it is in one of the inputs. */
  lemma {:induction false} MergeByMembers<T>(xs: seq<T>, ys: seq<T>, takeRight: (T, T) -> bool, x: T)
    ensures x in MergeBy(xs, ys, takeRight) <==> x in xs || x in ys
    decreases |xs| + |ys|
  {
    if ys == [] || xs == [] {
    } else if takeRight(xs[0], ys[0]) {
      MergeByMembers(xs, ys[1..], takeRight, x);
      assert ys == [ys[0]] + ys[1..];
    } else {
      MergeByMembers(xs[1..], ys, takeRight, x);
      assert xs == [xs[0]] + xs[1..];
    }
  }

  /** An element is in the sorted sequence exactly when it is in the input. */
  lemma {:induction false} MergeSortByMembers<T>(s: seq<T>, takeRight: (T, T) -> bool, x: T)
    ensures x in MergeSortBy(s, takeRight) <==> x in s
    decreases |s|
  {
    if |s| > 1 {
      var m := LeftLength(|s|);
      MergeSortByMembers(s[..m], takeRight, x);
      MergeSortByMembers(s[m..], takeRight, x);
      MergeByMembers(MergeSortBy(s[..m], takeRight), MergeSortBy(s[m..], takeRight), takeRight, x);
      assert s == s[..m] + s[m..];
    }
  }

  /** `merge` neither loses nor invents a string. */
  lemma MergePermutation(xs: seq<string>, ys: seq<string>)
    ensures multiset(Merge(xs, ys)) == multiset(xs) + multiset(ys)
  {
    MergeByPermutation(xs, ys, TakesRight);
  }

  /** `mergeSortList` neither loses nor invents a string. */
  lemma MergeSortPermutation(s: seq<string>)
    ensures multiset(MergeSort(s)) == multiset(s)
  {
    MergeSortByPermutation(s, TakesRight);
  }

  /** The first element of a merge is the front of one of the inputs. */
  lemma MergeFront(xs: seq<string>, ys: seq<string>)
    requires xs != [] || ys != []
    ensures Merge(xs, ys) != []
    ensures Merge(xs, ys)[0] == (if xs == [] then ys[0] else xs[0])
         || Merge(xs, ys)[0] == (if ys == [] then xs[0] else ys[0])
  {
  }

  /** Merging two sorted sequences gives a sorted sequence. */
  lemma {:induction false} MergeSorted(xs: seq<string>, ys: seq<string>)
    requires Sorted(xs) && Sorted(ys)
    ensures Sorted(Merge(xs, ys))
    decreases |xs| + |ys|
  {
    if ys == [] || xs == [] {
    } else if StrCaseCmp(xs[0], ys[0]) >= 0 {
      var rest := ys[1..];
      assert Sorted(rest);
      MergeSorted(xs, rest);
      StrCaseCmpAntisymmetric(xs[0], ys[0]);
      MergeFront(xs, rest);
      var m := Merge(xs, rest);
      assert Merge(xs, ys) == [ys[0]] + m;
      assert CaseLe(ys[0], m[0]);
    } else {
      var rest := xs[1..];
      assert Sorted(rest);
      MergeSorted(rest, ys);
      StrCaseCmpAntisymmetric(xs[0], ys[0]);
      MergeFront(rest, ys);
      var m := Merge(rest, ys);
      assert Merge(xs, ys) == [xs[0]] + m;
      assert CaseLe(xs[0], m[0]);
    }
  }

  /** On a tie the right-hand front wins: `merge` is not stable. */
  lemma MergeTakesRightOnTie(xs: seq<string>, ys: seq<string>)
    requires xs != [] && ys != [] && StrCaseCmp(xs[0], ys[0]) == 0
    ensures Merge(xs, ys)[0] == ys[0]
  {
  }

  /** The merge sort returns a non-decreasing sequence. */
  lemma {:induction false} MergeSortSorted(s: seq<string>)
    ensures Sorted(MergeSort(s))
    decreases |s|
  {
    if |s| > 1 {
      var m := LeftLength(|s|);
      MergeSortSorted(s[..m]);
      MergeSortSorted(s[m..]);
      MergeSorted(MergeSort(s[..m]), MergeSort(s[m..]));
    }
  }

  /** Adjacent order extends to every pair of positions. */
  lemma {:induction false} SortedPairwise(s: seq<string>, i: int, j: int)
    requires Sorted(s) && 0 <= i <= j < |s|
    ensures CaseLe(s[i], s[j])
    decreases j - i
  {
    if i == j {
      CaseLeReflexive(s[i]);
    } else {
      SortedPairwise(s, i, j - 1);
      CaseLeTransitive(s[i], s[j - 1], s[j]);
    }
  }

  /** Checks against concrete inputs: digits sort ascending, and
      ["b", "B", "a"] ends as ["a", "B", "b"] because the tie between "b"
      and "B" is broken in favour of the right half. */
  lemma SortExamples()
    ensures MergeSort(["3", "1", "2"]) == ["1", "2", "3"]
    ensures MergeSort(["b", "B", "a"]) == ["a", "B", "b"]
  {
    assert TakesRight("3", "1") && !TakesRight("1", "2") && TakesRight("3", "2") by {
      assert "1"[1..] == [] && "2"[1..] == [] && "3"[1..] == [];
    }
    SortThree(["3", "1", "2"]);
    assert MergeSortBy(["3", "1"], TakesRight) == ["1", "3"] by { SortTwo("3", "1"); }
    assert ["3", "1", "2"][..2] == ["3", "1"] && ["3", "1", "2"][2] == "2";
    MergeExample("1", "3", "2");
    StrCaseCmpIgnoresCase();
    SortThree(["b", "B", "a"]);
    assert MergeSortBy(["b", "B"], TakesRight) == ["B", "b"] by { SortTwo("b", "B"); }
    assert ["b", "B", "a"][..2] == ["b", "B"] && ["b", "B", "a"][2] == "a";
    assert MergeBy(["B", "b"], ["a"], TakesRight) == ["a"] + MergeBy(["B", "b"], [], TakesRight);
  }

  /** Sorting twice need not give the result of sorting once: each pass
      swaps two strings that differ only in case. */
  lemma SortIsNotIdempotent()
    ensures MergeSort(["b", "B"]) == ["B", "b"]
    ensures MergeSort(MergeSort(["b", "B"])) == ["b", "B"]
  {
    StrCaseCmpIgnoresCase();
    StrCaseCmpAntisymmetric("b", "B");
    SortTwo("b", "B");
    SortTwo("B", "b");
  }

  lemma SortTwo(a: string, b: string)
    ensures MergeSortBy([a, b], TakesRight) == if TakesRight(a, b) then [b, a] else [a, b]
  {
    assert [a, b][..1] == [a] && [a, b][1..] == [b];
    assert MergeSortBy([a], TakesRight) == [a] && MergeSortBy([b], TakesRight) == [b];
    assert MergeBy([a], [], TakesRight) == [a] && MergeBy([], [b], TakesRight) == [b];
    assert [a][1..] == [] && [b][1..] == [];
    assert [a] + [b] == [a, b] && [b] + [a] == [b, a];
  }

  lemma MergeExample(a: string, b: string, c: string)
    requires !TakesRight(a, c) && TakesRight(b, c)
    ensures MergeBy([a, b], [c], TakesRight) == [a, c, b]
  {
    assert [a, b][1..] == [b];
    assert MergeBy([b], [c], TakesRight) == [c] + MergeBy([b], [], TakesRight);
  }

  lemma SortThree(s: seq<string>)
    requires |s| == 3
    ensures MergeSortBy(s, TakesRight) == MergeBy(MergeSortBy(s[..2], TakesRight), [s[2]], TakesRight)
  {
    assert s[2..] == [s[2]];
    assert MergeSortBy([s[2]], TakesRight) == [s[2]];
  }
}
