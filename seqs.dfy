/** Positions and duplicates in sequences, as pandas' "first", `drop_duplicates` and `set` need them. */
module Seqs {

  /** Index of the first occurrence of `x` in `s`. */
  function FirstIndex<T(==)>(s: seq<T>, x: T): (i: nat)
    requires x in s
    ensures i < |s| && s[i] == x
    ensures forall j :: 0 <= j < i ==> s[j] != x
  {
    if s[0] == x then 0
    else
      assert s == [s[0]] + s[1..];
      1 + FirstIndex(s[1..], x)
  }

  /** An index holding `x` with no earlier `x` is the first index. */
  lemma FirstIndexUnique<T>(s: seq<T>, x: T, i: nat)
    requires i < |s| && s[i] == x
    requires forall j :: 0 <= j < i ==> s[j] != x
    ensures FirstIndex(s, x) == i
  {
  }

  /** An index holding `x` is at or after its first index. */
  lemma FirstIndexAtMost<T>(s: seq<T>, x: T, k: nat)
    requires k < |s| && s[k] == x
    ensures x in s && FirstIndex(s, x) <= k
  {
  }

  /** First index in a concatenation. */
  lemma FirstIndexAppend<T>(a: seq<T>, b: seq<T>, x: T)
    requires x in a + b
    ensures x in a ==> FirstIndex(a + b, x) == FirstIndex(a, x)
    ensures x !in a ==> x in b && FirstIndex(a + b, x) == |a| + FirstIndex(b, x)
  {
    if x in a {
      FirstIndexUnique(a + b, x, FirstIndex(a, x));
    } else {
      var j := FirstIndex(b, x);
      forall m | 0 <= m < |a| + j
        ensures (a + b)[m] != x
      {
        if m < |a| { assert a[m] in a; }
      }
      FirstIndexUnique(a + b, x, |a| + j);
    }
  }

  predicate NoDuplicates<T(==)>(s: seq<T>)
  {
    forall i, j :: 0 <= i < j < |s| ==> s[i] != s[j]
  }

  /** The elements of `s` once each, in order of first occurrence. */
  function Distinct<T(==)>(s: seq<T>): (r: seq<T>)
    ensures NoDuplicates(r)
    ensures forall i :: 0 <= i < |r| ==> r[i] in s
    ensures forall i :: 0 <= i < |s| ==> s[i] in r
  {
    if |s| == 0 then []
    else
      var init := Distinct(s[..|s| - 1]);
      assert s == s[..|s| - 1] + [s[|s| - 1]];
      if s[|s| - 1] in init then init else init + [s[|s| - 1]]
  }
}
