/**
 Group keys and the order pandas' `groupby` (with its default `sort=True`)
 puts them in. A key is the tuple of the grouping columns' values; Python
 compares tuples element by element, and the strings in them with `StrLess`.
 */
module GroupKeys {
  import opened Text

  type Key = seq<string>

  /** Python's `<` on tuples of strings. */
  predicate KeyLess(a: Key, b: Key)
  {
    if |a| == 0 then |b| > 0
    else if |b| == 0 then false
    else StrLess(a[0], b[0]) || (a[0] == b[0] && KeyLess(a[1..], b[1..]))
  }

  lemma {:induction false} KeyLessIrreflexive(a: Key)
    ensures !KeyLess(a, a)
  {
    if |a| > 0 {
      StrLessIrreflexive(a[0]);
      KeyLessIrreflexive(a[1..]);
    }
  }

  lemma {:induction false} KeyLessTransitive(a: Key, b: Key, c: Key)
    requires KeyLess(a, b) && KeyLess(b, c)
    ensures KeyLess(a, c)
  {
    if |a| > 0 {
      StrLessIrreflexive(a[0]);
      StrLessIrreflexive(b[0]);
      if a[0] == b[0] && b[0] == c[0] {
        KeyLessTransitive(a[1..], b[1..], c[1..]);
      } else if StrLess(a[0], b[0]) && StrLess(b[0], c[0]) {
        StrLessTransitive(a[0], b[0], c[0]);
      }
    }
  }

  lemma {:induction false} KeyLessTotal(a: Key, b: Key)
    requires a != b
    ensures KeyLess(a, b) || KeyLess(b, a)
  {
    if |a| > 0 && |b| > 0 {
      if a[0] == b[0] {
        assert a == [a[0]] + a[1..] && b == [b[0]] + b[1..];
        KeyLessTotal(a[1..], b[1..]);
      } else {
        StrLessTotal(a[0], b[0]);
      }
    }
  }

  /** One-column keys are ordered as their strings are. */
  lemma KeyLessSingle(a: string, b: string)
    ensures KeyLess([a], [b]) <==> StrLess(a, b)
  {
    assert [a][1..] == [] && [b][1..] == [];
  }

  predicate StrictlyAscending(ks: seq<Key>)
  {
    forall i, j :: 0 <= i < j < |ks| ==> KeyLess(ks[i], ks[j])
  }

  /** Inserting a key into an ascending list of keys, unless it is already there. */
  function Insert(ks: seq<Key>, k: Key): (r: seq<Key>)
    requires StrictlyAscending(ks)
    ensures StrictlyAscending(r)
    ensures forall x :: x in r <==> x in ks || x == k
  {
    if |ks| == 0 then [k]
    else if k == ks[0] then ks
    else if KeyLess(k, ks[0]) then
      assert forall j :: 0 < j < |ks| ==> KeyLess(ks[0], ks[j]);
      InsertFrontAscending(ks, k);
      [k] + ks
    else
      KeyLessTotal(k, ks[0]);
      assert ks == [ks[0]] + ks[1..];
      var rest := Insert(ks[1..], k);
      assert forall j :: 0 <= j < |rest| ==> rest[j] in ks[1..] || rest[j] == k;
      InsertBehindAscending(ks[0], ks[1..], rest, k);
      [ks[0]] + rest
  }

  lemma InsertFrontAscending(ks: seq<Key>, k: Key)
    requires StrictlyAscending(ks) && |ks| > 0 && KeyLess(k, ks[0])
    ensures StrictlyAscending([k] + ks)
  {
    forall j | 0 < j < |ks|
      ensures KeyLess(k, ks[j])
    {
      KeyLessTransitive(k, ks[0], ks[j]);
    }
  }

  lemma InsertBehindAscending(h: Key, tail: seq<Key>, rest: seq<Key>, k: Key)
    requires StrictlyAscending([h] + tail) && StrictlyAscending(rest) && KeyLess(h, k)
    requires forall j :: 0 <= j < |rest| ==> rest[j] in tail || rest[j] == k
    ensures StrictlyAscending([h] + rest)
  {
    forall j | 0 <= j < |rest|
      ensures KeyLess(h, rest[j])
    {
      if rest[j] != k {
        var m :| 0 <= m < |tail| && tail[m] == rest[j];
        assert ([h] + tail)[0] == h && ([h] + tail)[m + 1] == tail[m];
      }
    }
  }

  /** The distinct keys of `ks` in ascending order, as `groupby` lists its groups. */
  function SortedDistinct(ks: seq<Key>): (r: seq<Key>)
    ensures StrictlyAscending(r)
    ensures forall x :: x in r <==> x in ks
  {
    if |ks| == 0 then []
    else
      assert ks == ks[..|ks| - 1] + [ks[|ks| - 1]];
      Insert(SortedDistinct(ks[..|ks| - 1]), ks[|ks| - 1])
  }

  /** An ascending list of keys repeats none of them. */
  lemma AscendingNoDuplicates(ks: seq<Key>)
    requires StrictlyAscending(ks)
    ensures forall i, j :: 0 <= i < j < |ks| ==> ks[i] != ks[j]
  {
    forall i, j | 0 <= i < j < |ks|
      ensures ks[i] != ks[j]
    {
      if ks[i] == ks[j] {
        KeyLessIrreflexive(ks[i]);
      }
    }
  }

  /**
   Two ascending lists with the same keys are the same list: the ascending
   order of a set of keys is unique, so `SortedDistinct` is pandas' order.
   */
  lemma {:induction false} AscendingUnique(a: seq<Key>, b: seq<Key>)
    requires StrictlyAscending(a) && StrictlyAscending(b)
    requires forall x :: x in a <==> x in b
    ensures a == b
  {
    if |a| > 0 { assert a[0] in a; }
    if |b| > 0 { assert b[0] in b; }
    if |a| > 0 && |b| > 0 {
      SameHead(a, b);
      AscendingNoDuplicates(a);
      AscendingNoDuplicates(b);
      assert a == [a[0]] + a[1..] && b == [b[0]] + b[1..];
      forall x
        ensures x in a[1..] <==> x in b[1..]
      {
        if x in a[1..] {
          var m :| 0 <= m < |a[1..]| && a[1..][m] == x;
          assert x == a[m + 1] && x != a[0];
          assert a[m + 1] in a;
          var n :| 0 <= n < |b| && b[n] == x;
          assert b[1..][n - 1] == x;
        }
        if x in b[1..] {
          var m :| 0 <= m < |b[1..]| && b[1..][m] == x;
          assert x == b[m + 1] && x != b[0];
          assert b[m + 1] in b;
          var n :| 0 <= n < |a| && a[n] == x;
          assert a[1..][n - 1] == x;
        }
      }
      AscendingUnique(a[1..], b[1..]);
    }
  }

  /** Ascending lists with the same keys start with the same (least) key. */
  lemma SameHead(a: seq<Key>, b: seq<Key>)
    requires StrictlyAscending(a) && StrictlyAscending(b)
    requires forall x :: x in a <==> x in b
    requires |a| > 0 && |b| > 0
    ensures a[0] == b[0]
  {
    assert a[0] in a && b[0] in b;
    var i :| 0 <= i < |b| && b[i] == a[0];
    var j :| 0 <= j < |a| && a[j] == b[0];
    if a[0] != b[0] {
      assert KeyLess(b[0], a[0]) && KeyLess(a[0], b[0]);
      KeyLessTransitive(a[0], b[0], a[0]);
      KeyLessIrreflexive(a[0]);
    }
  }
}
