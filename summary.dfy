/**
 The summary rows both pipelines produce, pandas' `groupby` over them, and the
 shared helper `get_most_frequent_first_name` with its `most_frequent_name`.
 */
module Summary {
  import opened Text
  import opened Seqs
  import opened GroupKeys

  /**
   A contact with an attendance count. The frame handed to the final
   `groupby` and the summary it returns both have this shape.
   */
  datatype SummaryRow = SummaryRow(name: string, email: string, phone: string, attendance: nat)

  /** A summary frame: its column names, in order, and its rows. */
  datatype Report = Report(columns: seq<string>, rows: seq<SummaryRow>)

  function Emails(rows: seq<SummaryRow>): (es: seq<string>)
    ensures |es| == |rows| && forall i :: 0 <= i < |rows| ==> es[i] == rows[i].email
  {
    seq(|rows|, i requires 0 <= i < |rows| => rows[i].email)
  }

  function Names(rows: seq<SummaryRow>): (ns: seq<string>)
    ensures |ns| == |rows| && forall i :: 0 <= i < |rows| ==> ns[i] == rows[i].name
  {
    seq(|rows|, i requires 0 <= i < |rows| => rows[i].name)
  }

  /** The `sum` aggregation of the attendance column. */
  function Total(rows: seq<SummaryRow>): nat
  {
    if |rows| == 0 then 0 else rows[0].attendance + Total(rows[1..])
  }

  lemma TotalCons(x: SummaryRow, rows: seq<SummaryRow>)
    ensures Total([x] + rows) == x.attendance + Total(rows)
  {
    assert ([x] + rows)[1..] == rows;
  }

  // ---------------------------------------------------------------------------
  // most_frequent_name: Counter(names).most_common(1)[0][0], or '' for no names

  /** What `Counter(names)` holds for `n`. */
  function Count(names: seq<string>, n: string): nat
  {
    multiset(names)[n]
  }

  /**
   The position of the first name in `names` whose count is largest.
   `most_common` orders by count and keeps insertion (first-occurrence)
   order among equal counts, so its first entry is the name found here.
   */
  function FirstMostCommon(names: seq<string>): (k: nat)
    requires |names| > 0
    ensures k < |names|
    ensures forall i :: 0 <= i < |names| ==> Count(names, names[i]) <= Count(names, names[k])
    ensures forall i :: 0 <= i < k ==> Count(names, names[i]) < Count(names, names[k])
  {
    FirstMostCommonFrom(names, 0)
  }

  /** `FirstMostCommon` over the suffix of `names` starting at `lo`. */
  function FirstMostCommonFrom(names: seq<string>, lo: nat): (k: nat)
    requires lo < |names|
    ensures lo <= k < |names|
    ensures forall i :: lo <= i < |names| ==> Count(names, names[i]) <= Count(names, names[k])
    ensures forall i :: lo <= i < k ==> Count(names, names[i]) < Count(names, names[k])
    decreases |names| - lo
  {
    if lo == |names| - 1 then lo
    else
      var best := FirstMostCommonFrom(names, lo + 1);
      if Count(names, names[lo]) >= Count(names, names[best]) then lo else best
  }

  /**
   `most_frequent_name`: a name of largest count, the one met first when
   several share that count, and `""` for an empty list.
   */
  function MostFrequentName(names: seq<string>): (r: string)
    ensures |names| == 0 ==> r == ""
    ensures |names| > 0 ==> r in names
    ensures forall n :: n in names ==> Count(names, n) <= Count(names, r)
    ensures forall n :: n in names && Count(names, n) == Count(names, r) ==> FirstIndex(names, r) <= FirstIndex(names, n)
  {
    if |names| > 0 then
      var k := FirstMostCommon(names);
      FirstOfTies(names, k);
      names[k]
    else ""
  }

  lemma FirstOfTies(names: seq<string>, k: nat)
    requires k < |names|
    requires forall i :: 0 <= i < k ==> Count(names, names[i]) < Count(names, names[k])
    ensures forall n :: n in names && Count(names, n) == Count(names, names[k]) ==> FirstIndex(names, names[k]) <= FirstIndex(names, n)
  {
    FirstIndexAtMost(names, names[k], k);
  }

  /** The contract of `MostFrequentName` singles out one name: any name meeting it is the result. */
  lemma MostFrequentNameUnique(names: seq<string>, n: string)
    requires n in names
    requires forall m :: m in names ==> Count(names, m) <= Count(names, n)
    requires forall m :: m in names && Count(names, m) == Count(names, n) ==> FirstIndex(names, n) <= FirstIndex(names, m)
    ensures MostFrequentName(names) == n
  {
    var r := MostFrequentName(names);
    assert Count(names, r) == Count(names, n);
    assert FirstIndex(names, r) == FirstIndex(names, n);
  }

  /** For a one-row group the helper gives that row's name back. */
  lemma MostFrequentNameSingle(n: string)
    ensures MostFrequentName([n]) == n
  {
    assert MostFrequentName([n]) in [n];
  }

  // ---------------------------------------------------------------------------
  // groupby

  /** The grouping columns: `Email` alone, or `First name`, `Email`, `Phone number`. */
  datatype GroupBy = ByEmail | ByNameEmailPhone

  function KeyOf(cols: GroupBy, r: SummaryRow): Key
  {
    match cols
    case ByEmail => [r.email]
    case ByNameEmailPhone => [r.name, r.email, r.phone]
  }

  function KeysOf(cols: GroupBy, rows: seq<SummaryRow>): (ks: seq<Key>)
    ensures |ks| == |rows| && forall i :: 0 <= i < |rows| ==> ks[i] == KeyOf(cols, rows[i])
  {
    seq(|rows|, i requires 0 <= i < |rows| => KeyOf(cols, rows[i]))
  }

  /** The rows of group `k`, in input order. */
  function Group(cols: GroupBy, rows: seq<SummaryRow>, k: Key): (g: seq<SummaryRow>)
    ensures |g| <= |rows|
    ensures forall i :: 0 <= i < |g| ==> KeyOf(cols, g[i]) == k
    ensures k in KeysOf(cols, rows) ==> |g| > 0
  {
    if |rows| == 0 then []
    else
      assert KeysOf(cols, rows) == [KeyOf(cols, rows[0])] + KeysOf(cols, rows[1..]);
      (if KeyOf(cols, rows[0]) == k then [rows[0]] else []) + Group(cols, rows[1..], k)
  }

  /** The positions from `lo` on whose row carries key `k`, in increasing order. */
  function KeyPositionsFrom(cols: GroupBy, rows: seq<SummaryRow>, k: Key, lo: nat): seq<nat>
    requires lo <= |rows|
    decreases |rows| - lo
  {
    if lo == |rows| then []
    else if KeyOf(cols, rows[lo]) == k then [lo] + KeyPositionsFrom(cols, rows, k, lo + 1)
    else KeyPositionsFrom(cols, rows, k, lo + 1)
  }

  /** The positions found from `lo` are in range, carry the key and ascend. */
  lemma {:induction false} KeyPositionsFromSound(cols: GroupBy, rows: seq<SummaryRow>, k: Key, lo: nat)
    requires lo <= |rows|
    ensures forall j :: 0 <= j < |KeyPositionsFrom(cols, rows, k, lo)| ==>
              lo <= KeyPositionsFrom(cols, rows, k, lo)[j] < |rows| &&
              KeyOf(cols, rows[KeyPositionsFrom(cols, rows, k, lo)[j]]) == k
    ensures forall j1, j2 :: 0 <= j1 < j2 < |KeyPositionsFrom(cols, rows, k, lo)| ==>
              KeyPositionsFrom(cols, rows, k, lo)[j1] < KeyPositionsFrom(cols, rows, k, lo)[j2]
    decreases |rows| - lo
  {
    if lo < |rows| {
      KeyPositionsFromSound(cols, rows, k, lo + 1);
      var ps, ps' := KeyPositionsFrom(cols, rows, k, lo), KeyPositionsFrom(cols, rows, k, lo + 1);
      if KeyOf(cols, rows[lo]) == k {
        assert ps == [lo] + ps';
        forall j | 0 <= j < |ps|
          ensures lo <= ps[j] < |rows| && KeyOf(cols, rows[ps[j]]) == k
        {
          if j > 0 {
            assert ps[j] == ps'[j - 1];
          }
        }
        forall j1, j2 | 0 <= j1 < j2 < |ps|
          ensures ps[j1] < ps[j2]
        {
          assert ps[j2] == ps'[j2 - 1];
          if j1 > 0 {
            assert ps[j1] == ps'[j1 - 1];
          }
        }
      } else {
        assert ps == ps';
      }
    }
  }

  /** Every position from `lo` on whose row carries the key is found. */
  lemma {:induction false} KeyPositionsFromComplete(cols: GroupBy, rows: seq<SummaryRow>, k: Key, lo: nat)
    requires lo <= |rows|
    ensures forall i :: lo <= i < |rows| && KeyOf(cols, rows[i]) == k ==> i in KeyPositionsFrom(cols, rows, k, lo)
    decreases |rows| - lo
  {
    if lo < |rows| {
      KeyPositionsFromComplete(cols, rows, k, lo + 1);
      var ps, ps' := KeyPositionsFrom(cols, rows, k, lo), KeyPositionsFrom(cols, rows, k, lo + 1);
      if KeyOf(cols, rows[lo]) == k {
        assert ps == [lo] + ps';
      } else {
        assert ps == ps';
      }
    }
  }

  /** Every position of a row with key `k`, ascending. */
  function KeyPositions(cols: GroupBy, rows: seq<SummaryRow>, k: Key): (ps: seq<nat>)
    ensures forall j :: 0 <= j < |ps| ==> ps[j] < |rows| && KeyOf(cols, rows[ps[j]]) == k
    ensures forall j1, j2 :: 0 <= j1 < j2 < |ps| ==> ps[j1] < ps[j2]
  {
    KeyPositionsFromSound(cols, rows, k, 0);
    KeyPositionsFrom(cols, rows, k, 0)
  }

  /** `g` lists the rows of `rows` at the positions `ps`, in that order. */
  ghost predicate Picks(g: seq<SummaryRow>, rows: seq<SummaryRow>, ps: seq<nat>)
  {
    |g| == |ps| && forall j :: 0 <= j < |g| ==> ps[j] < |rows| && g[j] == rows[ps[j]]
  }

  /** The group of the suffix from `lo` is the rows at the key's positions from `lo` on. */
  lemma {:induction false} GroupFrom(cols: GroupBy, rows: seq<SummaryRow>, k: Key, lo: nat)
    requires lo <= |rows|
    ensures Picks(Group(cols, rows[lo..], k), rows, KeyPositionsFrom(cols, rows, k, lo))
    decreases |rows| - lo
  {
    if lo < |rows| {
      GroupFrom(cols, rows, k, lo + 1);
      GroupStep(cols, rows, k, lo);
      if KeyOf(cols, rows[lo]) == k {
        PicksCons(Group(cols, rows[lo + 1..], k), rows, KeyPositionsFrom(cols, rows, k, lo + 1), lo);
      }
    }
  }

  lemma PicksCons(g: seq<SummaryRow>, rows: seq<SummaryRow>, ps: seq<nat>, lo: nat)
    requires Picks(g, rows, ps) && lo < |rows|
    ensures Picks([rows[lo]] + g, rows, [lo] + ps)
  {
    var g1, ps1 := [rows[lo]] + g, [lo] + ps;
    forall j | 0 <= j < |g1|
      ensures ps1[j] < |rows| && g1[j] == rows[ps1[j]]
    {
      if j > 0 {
        assert g1[j] == g[j - 1] && ps1[j] == ps[j - 1];
      }
    }
  }

  /** One step of `Group` on the suffix from `lo`. */
  lemma GroupStep(cols: GroupBy, rows: seq<SummaryRow>, k: Key, lo: nat)
    requires lo < |rows|
    ensures KeyOf(cols, rows[lo]) == k ==> Group(cols, rows[lo..], k) == [rows[lo]] + Group(cols, rows[lo + 1..], k)
    ensures KeyOf(cols, rows[lo]) != k ==> Group(cols, rows[lo..], k) == Group(cols, rows[lo + 1..], k)
  {
    var s := rows[lo..];
    assert s[0] == rows[lo] && s[1..] == rows[lo + 1..];
  }

  /**
   A group is the input filtered by its key: the rows at the positions
   carrying the key, all of them, in input order.
   */
  lemma GroupIsFilter(cols: GroupBy, rows: seq<SummaryRow>, k: Key)
    ensures |Group(cols, rows, k)| == |KeyPositions(cols, rows, k)|
    ensures forall j :: 0 <= j < |Group(cols, rows, k)| ==>
              Group(cols, rows, k)[j] == rows[KeyPositions(cols, rows, k)[j]]
    ensures forall i :: 0 <= i < |rows| && KeyOf(cols, rows[i]) == k ==> rows[i] in Group(cols, rows, k)
  {
    assert rows[0..] == rows;
    GroupFrom(cols, rows, k, 0);
    KeyPositionsFromComplete(cols, rows, k, 0);
    var g := Group(cols, rows, k);
    var ps := KeyPositions(cols, rows, k);
    forall i | 0 <= i < |rows| && KeyOf(cols, rows[i]) == k
      ensures rows[i] in g
    {
      var j :| 0 <= j < |ps| && ps[j] == i;
      assert g[j] == rows[i];
    }
  }

  /** The first row of an email's group is the first row with that email (`'first'`). */
  lemma {:induction false} GroupByEmailHead(rows: seq<SummaryRow>, e: string)
    requires e in Emails(rows)
    ensures |Group(ByEmail, rows, [e])| > 0
    ensures Group(ByEmail, rows, [e])[0] == rows[FirstIndex(Emails(rows), e)]
  {
    if rows[0].email != e {
      var tail := rows[1..];
      var m :| 0 <= m < |rows| && Emails(rows)[m] == e;
      assert Emails(tail)[m - 1] == e;
      GroupByEmailHead(tail, e);
      FirstInTail(rows, e);
      assert Group(ByEmail, rows, [e]) == Group(ByEmail, tail, [e]);
    } else {
      FirstIndexUnique(Emails(rows), e, 0);
    }
  }

  lemma EmailsTail(rows: seq<SummaryRow>)
    requires |rows| > 0
    ensures Emails(rows) == [rows[0].email] + Emails(rows[1..])
  {
  }

  /** With every email once, an email's group is that single row. */
  lemma {:induction false} GroupOfDistinctEmails(rows: seq<SummaryRow>, e: string)
    requires NoDuplicates(Emails(rows)) && e in Emails(rows)
    ensures Group(ByEmail, rows, [e]) == [rows[FirstIndex(Emails(rows), e)]]
  {
    DistinctEmailsTail(rows);
    if rows[0].email == e {
      NoEmail(rows[1..], e);
      FirstIndexUnique(Emails(rows), e, 0);
    } else {
      assert Emails(rows)[FirstIndex(Emails(rows), e)] == e;
      var m :| 0 <= m < |rows| && Emails(rows)[m] == e;
      assert Emails(rows[1..])[m - 1] == e;
      GroupOfDistinctEmails(rows[1..], e);
      FirstInTail(rows, e);
    }
  }

  lemma DistinctEmailsTail(rows: seq<SummaryRow>)
    requires |rows| > 0 && NoDuplicates(Emails(rows))
    ensures NoDuplicates(Emails(rows[1..])) && rows[0].email !in Emails(rows[1..])
  {
    var es, tail := Emails(rows), Emails(rows[1..]);
    forall i, j | 0 <= i < j < |tail|
      ensures tail[i] != tail[j]
    {
      assert tail[i] == es[i + 1] && tail[j] == es[j + 1];
    }
  }

  /** The first row of an email absent from the head row is the tail's first row of it. */
  lemma FirstInTail(rows: seq<SummaryRow>, e: string)
    requires |rows| > 0 && rows[0].email != e && e in Emails(rows[1..])
    ensures e in Emails(rows) && rows[FirstIndex(Emails(rows), e)] == rows[1..][FirstIndex(Emails(rows[1..]), e)]
  {
    var es, tail := Emails(rows), Emails(rows[1..]);
    var j := FirstIndex(tail, e);
    assert es[1 + j] == e;
    forall m | 0 <= m < 1 + j
      ensures es[m] != e
    {
      if m > 0 { assert es[m] == tail[m - 1]; }
    }
    FirstIndexUnique(es, e, 1 + j);
  }

  lemma {:induction false} NoEmail(rows: seq<SummaryRow>, e: string)
    requires e !in Emails(rows)
    ensures Group(ByEmail, rows, [e]) == []
  {
    if |rows| > 0 {
      assert Emails(rows) == [rows[0].email] + Emails(rows[1..]);
      NoEmail(rows[1..], e);
    }
  }

  /** The keys `groupby` lists: the distinct keys, ascending. */
  function GroupKeysOf(cols: GroupBy, rows: seq<SummaryRow>): (ks: seq<Key>)
    ensures StrictlyAscending(ks)
    ensures forall k :: k in ks <==> k in KeysOf(cols, rows)
  {
    SortedDistinct(KeysOf(cols, rows))
  }

  // ---------------------------------------------------------------------------
  // get_most_frequent_first_name

  /** One output row of the helper: the group's most frequent name, its first phone, its summed attendance. */
  function SummarizeEmailGroup(g: seq<SummaryRow>): SummaryRow
    requires |g| > 0
  {
    SummaryRow(MostFrequentName(Names(g)), g[0].email, g[0].phone, Total(g))
  }

  /**
   `get_most_frequent_first_name`: one row per distinct email, ascending by
   email; its name is the most frequent name among that email's rows, its
   phone the phone of the first such row, its attendance their sum.
   */
  function AggregateByEmail(rows: seq<SummaryRow>): (out: seq<SummaryRow>)
    ensures forall i, j :: 0 <= i < j < |out| ==> StrLess(out[i].email, out[j].email)
    ensures forall e :: e in Emails(out) <==> e in Emails(rows)
    ensures forall i :: 0 <= i < |out| ==> out[i].email in Emails(rows)
    ensures forall i :: 0 <= i < |out| ==>
              && out[i].name == MostFrequentName(Names(Group(ByEmail, rows, [out[i].email])))
              && out[i].phone == rows[FirstIndex(Emails(rows), out[i].email)].phone
              && out[i].attendance == Total(Group(ByEmail, rows, [out[i].email]))
  {
    var keys := GroupKeysOf(ByEmail, rows);
    var out := seq(|keys|, i requires 0 <= i < |keys| => SummarizeEmailGroup(Group(ByEmail, rows, keys[i])));
    AggregateByEmailFacts(rows, keys, out);
    out
  }

  lemma AggregateByEmailFacts(rows: seq<SummaryRow>, keys: seq<Key>, out: seq<SummaryRow>)
    requires keys == GroupKeysOf(ByEmail, rows)
    requires |out| == |keys|
    requires forall i :: 0 <= i < |keys| ==> |Group(ByEmail, rows, keys[i])| > 0
    requires forall i :: 0 <= i < |keys| ==> out[i] == SummarizeEmailGroup(Group(ByEmail, rows, keys[i]))
    ensures forall i, j :: 0 <= i < j < |out| ==> StrLess(out[i].email, out[j].email)
    ensures forall e :: e in Emails(out) <==> e in Emails(rows)
    ensures forall i :: 0 <= i < |out| ==> out[i].email in Emails(rows)
    ensures forall i :: 0 <= i < |out| ==>
              && out[i].name == MostFrequentName(Names(Group(ByEmail, rows, [out[i].email])))
              && out[i].phone == rows[FirstIndex(Emails(rows), out[i].email)].phone
              && out[i].attendance == Total(Group(ByEmail, rows, [out[i].email]))
  {
    forall i | 0 <= i < |keys|
      ensures keys[i] == [out[i].email] && out[i].email in Emails(rows)
    {
      EmailKey(rows, keys[i], out[i]);
    }
    EmailsAscending(keys, out);
    EmailsCovered(rows, keys, out);
    forall i | 0 <= i < |out|
      ensures out[i].phone == rows[FirstIndex(Emails(rows), out[i].email)].phone
    {
      GroupByEmailHead(rows, out[i].email);
    }
  }

  /** Ascending one-email keys list their emails in ascending order. */
  lemma EmailsAscending(keys: seq<Key>, out: seq<SummaryRow>)
    requires StrictlyAscending(keys) && |out| == |keys|
    requires forall i :: 0 <= i < |keys| ==> keys[i] == [out[i].email]
    ensures forall i, j :: 0 <= i < j < |out| ==> StrLess(out[i].email, out[j].email)
  {
    forall i, j | 0 <= i < j < |out|
      ensures StrLess(out[i].email, out[j].email)
    {
      KeyLessSingle(out[i].email, out[j].email);
    }
  }

  /** Every input email heads a group. */
  lemma EmailsCovered(rows: seq<SummaryRow>, keys: seq<Key>, out: seq<SummaryRow>)
    requires keys == GroupKeysOf(ByEmail, rows) && |out| == |keys|
    requires forall i :: 0 <= i < |keys| ==> keys[i] == [out[i].email]
    ensures forall e :: e in Emails(rows) ==> e in Emails(out)
  {
    forall e | e in Emails(rows)
      ensures e in Emails(out)
    {
      var i := EmailGroupIndex(rows, keys, e);
      assert Emails(out)[i] == e;
    }
  }

  /** A group key of the email grouping is the one-element key of its rows' email. */
  lemma EmailKey(rows: seq<SummaryRow>, k: Key, o: SummaryRow)
    requires k in KeysOf(ByEmail, rows)
    requires |Group(ByEmail, rows, k)| > 0
    requires o == SummarizeEmailGroup(Group(ByEmail, rows, k))
    ensures k == [o.email] && o.email in Emails(rows)
  {
    var g := Group(ByEmail, rows, k);
    assert KeyOf(ByEmail, g[0]) == k;
    var m :| 0 <= m < |rows| && KeysOf(ByEmail, rows)[m] == k;
    assert Emails(rows)[m] == o.email;
  }

  /** Where an input email's group sits among the group keys. */
  lemma EmailGroupIndex(rows: seq<SummaryRow>, keys: seq<Key>, e: string) returns (i: nat)
    requires keys == GroupKeysOf(ByEmail, rows)
    requires e in Emails(rows)
    ensures i < |keys| && keys[i] == [e]
  {
    var m :| 0 <= m < |rows| && Emails(rows)[m] == e;
    assert KeysOf(ByEmail, rows)[m] == [e];
    assert [e] in keys;
    i :| 0 <= i < |keys| && keys[i] == [e];
  }

  /** With every email once, each group has one row, which the helper passes through unchanged. */
  lemma AggregateOfDistinctEmails(rows: seq<SummaryRow>, out: seq<SummaryRow>, i: nat)
    requires NoDuplicates(Emails(rows)) && out == AggregateByEmail(rows)
    requires i < |out|
    ensures out[i].email in Emails(rows)
    ensures out[i] == rows[FirstIndex(Emails(rows), out[i].email)]
  {
    var e := out[i].email;
    var f := rows[FirstIndex(Emails(rows), e)];
    SummarizeSingle(rows, e);
    assert out[i].name == f.name && out[i].attendance == f.attendance;
  }

  /** The summary of a one-row group is that row's name and attendance. */
  lemma SummarizeSingle(rows: seq<SummaryRow>, e: string)
    requires NoDuplicates(Emails(rows)) && e in Emails(rows)
    ensures var f := rows[FirstIndex(Emails(rows), e)];
            var g := Group(ByEmail, rows, [e]);
            MostFrequentName(Names(g)) == f.name && Total(g) == f.attendance
  {
    var f := rows[FirstIndex(Emails(rows), e)];
    GroupOfDistinctEmails(rows, e);
    assert Names([f]) == [f.name];
    MostFrequentNameSingle(f.name);
    TotalCons(f, []);
  }
}
