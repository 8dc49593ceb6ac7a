/** Case-insensitive string comparison, as the C library's `strcasecmp` does it
    in the "C" locale: both strings are compared character by character after
    mapping 'A'..'Z' to 'a'..'z'; a string that is a proper prefix of the
    other compares less. Only the sign of the result is modelled. */
module CaseCompare {

  /** ASCII `tolower`. */
  function LowerChar(c: char): char {
    if 'A' <= c <= 'Z' then (c as int + 32) as char else c
  }

  /** The string with every character passed through `LowerChar`. */
  function Lower(s: string): string {
    if s == [] then [] else [LowerChar(s[0])] + Lower(s[1..])
  }

  /** The sign of `strcasecmp(a, b)`: -1, 0 or 1. */
  function StrCaseCmp(a: string, b: string): (r: int)
    ensures -1 <= r <= 1
  {
    if a == [] then (if b == [] then 0 else -1)
    else if b == [] then 1
    else if LowerChar(a[0]) < LowerChar(b[0]) then -1
    else if LowerChar(a[0]) > LowerChar(b[0]) then 1
    else StrCaseCmp(a[1..], b[1..])
  }

  /** `a` ranks no higher than `b` in case-insensitive order. */
  predicate CaseLe(a: string, b: string) {
    StrCaseCmp(a, b) <= 0
  }

  /** Swapping the operands flips the sign. */
  lemma {:induction false} StrCaseCmpAntisymmetric(a: string, b: string)
    ensures StrCaseCmp(a, b) == -StrCaseCmp(b, a)
    ensures StrCaseCmp(a, b) >= 0 <==> CaseLe(b, a)
  {
    if a != [] && b != [] && LowerChar(a[0]) == LowerChar(b[0]) {
      StrCaseCmpAntisymmetric(a[1..], b[1..]);
    }
  }

  /** Two strings compare equal exactly when they agree after lowering. */
  lemma {:induction false} StrCaseCmpZero(a: string, b: string)
    ensures StrCaseCmp(a, b) == 0 <==> Lower(a) == Lower(b)
  {
    if a != [] && b != [] {
      StrCaseCmpZero(a[1..], b[1..]);
      assert Lower(a) == [LowerChar(a[0])] + Lower(a[1..]);
      assert Lower(b) == [LowerChar(b[0])] + Lower(b[1..]);
      if Lower(a) == Lower(b) {
        assert Lower(a)[0] == Lower(b)[0];
        assert Lower(a)[1..] == Lower(b)[1..];
      }
    } else if a != [] {
      assert |Lower(a)| > 0;
    } else if b != [] {
      assert |Lower(b)| > 0;
    }
  }

  lemma {:induction false} StrCaseCmpTransitive(a: string, b: string, c: string)
    requires StrCaseCmp(a, b) <= 0 && StrCaseCmp(b, c) <= 0
    ensures StrCaseCmp(a, c) <= 0
  {
    if a != [] && b != [] && c != []
       && LowerChar(a[0]) == LowerChar(b[0]) == LowerChar(c[0]) {
      StrCaseCmpTransitive(a[1..], b[1..], c[1..]);
    }
  }

  /** Comparing the lowered strings gives the same answer: the comparison
      sees no letter case at all. */
  lemma {:induction false} StrCaseCmpOfLower(a: string, b: string)
    ensures StrCaseCmp(Lower(a), Lower(b)) == StrCaseCmp(a, b)
  {
    if a != [] && b != [] {
      StrCaseCmpOfLower(a[1..], b[1..]);
      assert Lower(a)[0] == LowerChar(a[0]) && Lower(a)[1..] == Lower(a[1..]);
      assert Lower(b)[0] == LowerChar(b[0]) && Lower(b)[1..] == Lower(b[1..]);
    }
  }

  /** Case-insensitive order is total. */
  lemma CaseLeTotal(a: string, b: string)
    ensures CaseLe(a, b) || CaseLe(b, a)
  {
    StrCaseCmpAntisymmetric(a, b);
  }

  lemma CaseLeTransitive(a: string, b: string, c: string)
    requires CaseLe(a, b) && CaseLe(b, c)
    ensures CaseLe(a, c)
  {
    StrCaseCmpTransitive(a, b, c);
  }

  /** Every string ranks equal to itself. */
  lemma CaseLeReflexive(a: string)
    ensures StrCaseCmp(a, a) == 0 && CaseLe(a, a)
  {
    StrCaseCmpZero(a, a);
  }

  /** "b" and "B" compare equal although they are different strings, and
      "B" ranks above "a" although 'B' precedes 'a' in character code. */
  lemma StrCaseCmpIgnoresCase()
    ensures StrCaseCmp("b", "B") == 0 && "b" != "B"
    ensures StrCaseCmp("B", "a") > 0
  {
    assert "b"[1..] == [] && "B"[1..] == [] && "a"[1..] == [];
  }
}
