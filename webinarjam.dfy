/**
 The WebinarJam pipeline (`process_webinarjam` after the file is read): check
 the header, strip the phone numbers, turn `Attended live` into a 0/1 flag,
 sum the flags per (first name, email, phone) and rename the columns.
 */
module WebinarJam {
  import opened Text
  import opened GroupKeys
  import opened Tables
  import opened Summary

  const RequiredColumns: seq<string> := ["First name", "Email", "Phone number", "Attended live"]

  /** The grouped frame's columns after `rename`: `First name` to `First Name`, `Phone number` to `Phone`. */
  const OutputColumns: seq<string> := ["First Name", "Email", "Phone", "Attendance"]

  /** One registrant row restricted to the required columns. */
  datatype Registrant = Registrant(name: string, email: string, phone: string, attended: string)

  /** `df[required_columns]`, once the header is known to hold them. */
  function Registrants(t: Table): (rows: seq<Registrant>)
    requires Rectangular(t) && HasColumns(t, RequiredColumns)
    ensures |rows| == |t.rows|
  {
    assert forall c :: c in RequiredColumns ==> c in t.columns;
    assert "First name" in RequiredColumns && "Email" in RequiredColumns;
    assert "Phone number" in RequiredColumns && "Attended live" in RequiredColumns;
    seq(|t.rows|, i requires 0 <= i < |t.rows| =>
      Registrant(t.rows[i]["First name"], t.rows[i]["Email"], t.rows[i]["Phone number"], t.rows[i]["Attended live"]))
  }

  // ---------------------------------------------------------------------------
  // Attendance: 1 if x.lower() == 'yes' else 0

  function AttendedFlag(v: string): nat
  {
    if Lower(v) == "yes" then 1 else 0
  }

  /**
   The flag is 1 exactly for the three letters y, e, s in any mix of cases,
   with nothing around them (the value is not stripped), and 0 otherwise.
   */
  lemma AttendedFlagCases(v: string)
    ensures AttendedFlag(v) <= 1
    ensures AttendedFlag(v) == 1 <==>
              |v| == 3 && (v[0] == 'y' || v[0] == 'Y') && (v[1] == 'e' || v[1] == 'E') && (v[2] == 's' || v[2] == 'S')
  {
    if |v| == 3 {
      if Lower(v) == "yes" {
        assert LowerChar(v[0]) == 'y' && LowerChar(v[1]) == 'e' && LowerChar(v[2]) == 's';
      }
      if (v[0] == 'y' || v[0] == 'Y') && (v[1] == 'e' || v[1] == 'E') && (v[2] == 's' || v[2] == 'S') {
        assert Lower(v) == ['y', 'e', 's'];
      }
    }
  }

  lemma AttendedFlagExamples()
    ensures AttendedFlag("Yes") == 1 && AttendedFlag("YES") == 1
    ensures AttendedFlag("No") == 0 && AttendedFlag("no") == 0 && AttendedFlag("maybe") == 0
    ensures AttendedFlag(" yes") == 0 && AttendedFlag("") == 0
  {
    AttendedFlagCases("Yes");
    AttendedFlagCases("YES");
    AttendedFlagCases("No");
    AttendedFlagCases("no");
    AttendedFlagCases("maybe");
    AttendedFlagCases(" yes");
    AttendedFlagCases("");
  }

  /** The frame after the phone and attendance columns are rewritten in place. */
  function Flagged(rows: seq<Registrant>): (fs: seq<SummaryRow>)
    ensures |fs| == |rows|
    ensures forall i :: 0 <= i < |rows| ==>
              fs[i] == SummaryRow(rows[i].name, rows[i].email, Strip(rows[i].phone), AttendedFlag(rows[i].attended))
  {
    seq(|rows|, i requires 0 <= i < |rows| =>
      SummaryRow(rows[i].name, rows[i].email, Strip(rows[i].phone), AttendedFlag(rows[i].attended)))
  }

  /** The grouping key of a registrant row: its name, email and stripped phone. */
  function TripleOf(r: Registrant): Key
  {
    [r.name, r.email, Strip(r.phone)]
  }

  // ---------------------------------------------------------------------------
  // Reference counts, on the registrant rows themselves

  function RowCount(rows: seq<Registrant>, k: Key): nat
  {
    if |rows| == 0 then 0 else (if TripleOf(rows[0]) == k then 1 else 0) + RowCount(rows[1..], k)
  }

  function AttendedCount(rows: seq<Registrant>, k: Key): nat
  {
    if |rows| == 0 then 0
    else (if TripleOf(rows[0]) == k then AttendedFlag(rows[0].attended) else 0) + AttendedCount(rows[1..], k)
  }

  /** Rows whose flag is 1. */
  function AttendedRows(rows: seq<Registrant>): nat
  {
    if |rows| == 0 then 0 else AttendedFlag(rows[0].attended) + AttendedRows(rows[1..])
  }

  lemma {:induction false} FlaggedGroup(rows: seq<Registrant>, k: Key)
    ensures Total(Group(ByNameEmailPhone, Flagged(rows), k)) == AttendedCount(rows, k)
    ensures |Group(ByNameEmailPhone, Flagged(rows), k)| == RowCount(rows, k)
  {
    if |rows| > 0 {
      FlaggedCons(rows);
      FlaggedGroup(rows[1..], k);
      var x := Flagged(rows)[0];
      assert KeyOf(ByNameEmailPhone, x) == TripleOf(rows[0]);
      if TripleOf(rows[0]) == k {
        TotalCons(x, Group(ByNameEmailPhone, Flagged(rows[1..]), k));
      } else {
        assert [] + Group(ByNameEmailPhone, Flagged(rows[1..]), k) == Group(ByNameEmailPhone, Flagged(rows[1..]), k);
      }
    }
  }

  lemma {:induction false} FlaggedTotal(rows: seq<Registrant>)
    ensures Total(Flagged(rows)) == AttendedRows(rows)
  {
    if |rows| > 0 {
      FlaggedCons(rows);
      FlaggedTotal(rows[1..]);
    }
  }

  lemma FlaggedCons(rows: seq<Registrant>)
    requires |rows| > 0
    ensures Flagged(rows) == [Flagged(rows)[0]] + Flagged(rows[1..])
  {
  }

  lemma {:induction false} AttendedAtMostRows(rows: seq<Registrant>, k: Key)
    ensures AttendedCount(rows, k) <= RowCount(rows, k)
  {
    if |rows| > 0 {
      AttendedFlagCases(rows[0].attended);
      AttendedAtMostRows(rows[1..], k);
    }
  }

  lemma FlaggedKeys(rows: seq<Registrant>)
    ensures forall k :: k in KeysOf(ByNameEmailPhone, Flagged(rows)) <==> exists i :: 0 <= i < |rows| && TripleOf(rows[i]) == k
  {
    var ks := KeysOf(ByNameEmailPhone, Flagged(rows));
    assert forall i :: 0 <= i < |rows| ==> ks[i] == TripleOf(rows[i]);
  }

  // ---------------------------------------------------------------------------
  // groupby(['First name', 'Email', 'Phone number'])['Attendance'].sum()

  /** One row per distinct key, ascending, with the key's columns and its summed attendance. */
  function SumByTriple(rows: seq<SummaryRow>): (out: seq<SummaryRow>)
    ensures forall i, j :: 0 <= i < j < |out| ==> KeyLess(KeyOf(ByNameEmailPhone, out[i]), KeyOf(ByNameEmailPhone, out[j]))
    ensures forall k :: k in KeysOf(ByNameEmailPhone, out) <==> k in KeysOf(ByNameEmailPhone, rows)
    ensures forall i :: 0 <= i < |out| ==>
              out[i].attendance == Total(Group(ByNameEmailPhone, rows, KeyOf(ByNameEmailPhone, out[i])))
    ensures Total(out) == Total(rows)
  {
    var keys := GroupKeysOf(ByNameEmailPhone, rows);
    var out := seq(|keys|, i requires 0 <= i < |keys| =>
      var g := Group(ByNameEmailPhone, rows, keys[i]);
      SummaryRow(g[0].name, g[0].email, g[0].phone, Total(g)));
    SumByTripleFacts(rows, keys, out);
    out
  }

  lemma SumByTripleFacts(rows: seq<SummaryRow>, keys: seq<Key>, out: seq<SummaryRow>)
    requires keys == GroupKeysOf(ByNameEmailPhone, rows)
    requires |out| == |keys|
    requires forall i :: 0 <= i < |keys| ==> |Group(ByNameEmailPhone, rows, keys[i])| > 0
    requires forall i :: 0 <= i < |keys| ==>
               var g := Group(ByNameEmailPhone, rows, keys[i]);
               out[i] == SummaryRow(g[0].name, g[0].email, g[0].phone, Total(g))
    ensures forall i, j :: 0 <= i < j < |out| ==> KeyLess(KeyOf(ByNameEmailPhone, out[i]), KeyOf(ByNameEmailPhone, out[j]))
    ensures forall k :: k in KeysOf(ByNameEmailPhone, out) <==> k in KeysOf(ByNameEmailPhone, rows)
    ensures forall i :: 0 <= i < |out| ==>
              out[i].attendance == Total(Group(ByNameEmailPhone, rows, KeyOf(ByNameEmailPhone, out[i])))
    ensures Total(out) == Total(rows)
  {
    TripleKeys(rows, keys, out);
    TotalOfGroups(out, rows, keys);
    AllGroupsTotal(rows, keys);
  }

  /** Each output row carries the key of its group. */
  lemma TripleKeys(rows: seq<SummaryRow>, keys: seq<Key>, out: seq<SummaryRow>)
    requires |out| == |keys|
    requires forall i :: 0 <= i < |keys| ==> |Group(ByNameEmailPhone, rows, keys[i])| > 0
    requires forall i :: 0 <= i < |keys| ==>
               var g := Group(ByNameEmailPhone, rows, keys[i]);
               out[i] == SummaryRow(g[0].name, g[0].email, g[0].phone, Total(g))
    ensures KeysOf(ByNameEmailPhone, out) == keys
  {
    forall i | 0 <= i < |keys|
      ensures KeyOf(ByNameEmailPhone, out[i]) == keys[i]
    {
      var g := Group(ByNameEmailPhone, rows, keys[i]);
      assert KeyOf(ByNameEmailPhone, g[0]) == keys[i];
    }
  }

  /** The groups of all distinct keys together hold all the attendance. */
  lemma AllGroupsTotal(rows: seq<SummaryRow>, keys: seq<Key>)
    requires keys == GroupKeysOf(ByNameEmailPhone, rows)
    ensures GroupTotals(rows, keys) == Total(rows)
  {
    AscendingNoDuplicates(keys);
    GroupTotalsPartition(rows, keys);
    var ks := set k | k in keys;
    forall i | 0 <= i < |rows|
      ensures KeyOf(ByNameEmailPhone, rows[i]) in ks
    {
      assert KeysOf(ByNameEmailPhone, rows)[i] in KeysOf(ByNameEmailPhone, rows);
    }
    TotalWhereAll(rows, ks);
  }

  // ---------------------------------------------------------------------------
  // The summed attendance of all groups is the attendance of all rows

  function GroupTotals(rows: seq<SummaryRow>, keys: seq<Key>): nat
  {
    if |keys| == 0 then 0
    else Total(Group(ByNameEmailPhone, rows, keys[0])) + GroupTotals(rows, keys[1..])
  }

  /** The attendance of the rows whose key is in `ks`. */
  function TotalWhere(rows: seq<SummaryRow>, ks: set<Key>): nat
  {
    if |rows| == 0 then 0
    else (if KeyOf(ByNameEmailPhone, rows[0]) in ks then rows[0].attendance else 0) + TotalWhere(rows[1..], ks)
  }

  lemma {:induction false} TotalOfGroups(out: seq<SummaryRow>, rows: seq<SummaryRow>, keys: seq<Key>)
    requires |out| == |keys|
    requires forall i :: 0 <= i < |out| ==> out[i].attendance == Total(Group(ByNameEmailPhone, rows, keys[i]))
    ensures Total(out) == GroupTotals(rows, keys)
  {
    if |out| > 0 {
      TotalOfGroups(out[1..], rows, keys[1..]);
    }
  }

  lemma {:induction false} TotalWhereAdd(rows: seq<SummaryRow>, ks: set<Key>, k: Key)
    requires k !in ks
    ensures TotalWhere(rows, ks + {k}) == Total(Group(ByNameEmailPhone, rows, k)) + TotalWhere(rows, ks)
  {
    if |rows| > 0 {
      TotalWhereAdd(rows[1..], ks, k);
      var g := Group(ByNameEmailPhone, rows[1..], k);
      if KeyOf(ByNameEmailPhone, rows[0]) == k {
        TotalCons(rows[0], g);
      } else {
        assert [] + g == g;
      }
    }
  }

  lemma {:induction false} GroupTotalsPartition(rows: seq<SummaryRow>, keys: seq<Key>)
    requires forall i, j :: 0 <= i < j < |keys| ==> keys[i] != keys[j]
    ensures GroupTotals(rows, keys) == TotalWhere(rows, set k | k in keys)
  {
    if |keys| == 0 {
      assert (set k | k in keys) == {};
      TotalWhereEmpty(rows);
    } else {
      var tail := set k | k in keys[1..];
      GroupTotalsPartition(rows, keys[1..]);
      assert keys[0] !in tail;
      assert (set k | k in keys) == tail + {keys[0]};
      TotalWhereAdd(rows, tail, keys[0]);
    }
  }

  lemma {:induction false} TotalWhereEmpty(rows: seq<SummaryRow>)
    ensures TotalWhere(rows, {}) == 0
  {
    if |rows| > 0 {
      TotalWhereEmpty(rows[1..]);
    }
  }

  lemma {:induction false} TotalWhereAll(rows: seq<SummaryRow>, ks: set<Key>)
    requires forall i :: 0 <= i < |rows| ==> KeyOf(ByNameEmailPhone, rows[i]) in ks
    ensures TotalWhere(rows, ks) == Total(rows)
  {
    if |rows| > 0 {
      TotalWhereAll(rows[1..], ks);
    }
  }

  // ---------------------------------------------------------------------------
  // The pipeline

  /**
   The aggregation after the schema check: one row per distinct (name,
   email, stripped phone) triple, ascending by that triple, whose attendance
   counts the triple's rows flagged "yes" and so lies between 0 and the
   number of those rows; all attendances together count every row flagged "yes".
   */
  function Aggregate(rows: seq<Registrant>): (out: seq<SummaryRow>)
    ensures forall i, j :: 0 <= i < j < |out| ==> KeyLess(KeyOf(ByNameEmailPhone, out[i]), KeyOf(ByNameEmailPhone, out[j]))
    ensures forall k :: k in KeysOf(ByNameEmailPhone, out) <==> exists i :: 0 <= i < |rows| && TripleOf(rows[i]) == k
    ensures forall i :: 0 <= i < |out| ==>
              && out[i].attendance == AttendedCount(rows, KeyOf(ByNameEmailPhone, out[i]))
              && out[i].attendance <= RowCount(rows, KeyOf(ByNameEmailPhone, out[i]))
    ensures Total(out) == AttendedRows(rows)
  {
    var out := SumByTriple(Flagged(rows));
    FlaggedKeys(rows);
    FlaggedTotal(rows);
    forall i | 0 <= i < |out|
      ensures out[i].attendance == AttendedCount(rows, KeyOf(ByNameEmailPhone, out[i]))
      ensures out[i].attendance <= RowCount(rows, KeyOf(ByNameEmailPhone, out[i]))
    {
      FlaggedGroup(rows, KeyOf(ByNameEmailPhone, out[i]));
      AttendedAtMostRows(rows, KeyOf(ByNameEmailPhone, out[i]));
    }
    out
  }

  /** An ascending list of keys drawn from two distinct keys and holding both has length two. */
  lemma TwoKeys(ks: seq<Key>, ta: Key, tb: Key)
    requires StrictlyAscending(ks) && ta != tb && ta in ks && tb in ks
    requires forall m :: 0 <= m < |ks| ==> ks[m] == ta || ks[m] == tb
    ensures |ks| == 2
  {
    var i :| 0 <= i < |ks| && ks[i] == ta;
    var j :| 0 <= j < |ks| && ks[j] == tb;
    assert i != j;
    if |ks| >= 3 {
      assert KeyLess(ks[0], ks[1]) && KeyLess(ks[0], ks[2]) && KeyLess(ks[1], ks[2]);
      KeyLessIrreflexive(ta);
      KeyLessIrreflexive(tb);
      assert false;
    }
  }

  /**
   Two registrations under one email with different first names stay two
   rows; only the one flagged "Yes" counts.
   */
  lemma SeparateRowsPerName(a: Registrant, b: Registrant)
    requires a.email == b.email && a.name != b.name
    requires a.attended == "Yes" && b.attended == "no"
    ensures |Aggregate([a, b])| == 2
    ensures Total(Aggregate([a, b])) == 1
  {
    var rows := [a, b];
    var out := Aggregate(rows);
    var ks := KeysOf(ByNameEmailPhone, out);
    var ta, tb := TripleOf(a), TripleOf(b);
    assert ta[0] != tb[0];
    assert TripleOf(rows[0]) == ta && TripleOf(rows[1]) == tb;
    assert ta in ks && tb in ks;
    forall m | 0 <= m < |ks|
      ensures ks[m] == ta || ks[m] == tb
    {
      assert ks[m] in ks;
    }
    TwoKeys(ks, ta, tb);
    AttendedFlagExamples();
    assert AttendedRows(rows) == AttendedFlag(a.attended) + AttendedRows([b]);
  }

  /**
   `process_webinarjam` from the read frame on: a missing required column is
   an error and nothing is aggregated; otherwise the renamed summary.
   */
  function Process(t: Table): (r: Result<Report>)
    requires Rectangular(t)
    ensures r.Err? <==> exists c :: c in RequiredColumns && c !in t.columns
    ensures r.Err? ==> r.error == MissingColumns(WebinarJamExport, RequiredColumns)
    ensures r.Ok? ==> r.value.columns == OutputColumns && r.value.rows == Aggregate(Registrants(t))
  {
    if HasColumns(t, RequiredColumns) then Ok(Report(OutputColumns, Aggregate(Registrants(t))))
    else Err(MissingColumns(WebinarJamExport, RequiredColumns))
  }
}
