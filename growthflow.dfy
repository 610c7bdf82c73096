/**
 The Growthflow pipeline (`process_growthflow` after the file is read): check
 the header, split each `Attendance_Day` cell on commas into a set, explode
 the sets into rows, count each email's distinct days, keep the first row per
 email and hand that to `get_most_frequent_first_name`.
 */
module Growthflow {
  import opened Text
  import opened Seqs
  import opened Tables
  import opened Summary

  const RequiredColumns: seq<string> := ["First Name", "Email", "Phone", "Attendance_Day"]

  /** `reset_index()` puts the group key first. */
  const OutputColumns: seq<string> := ["Email", "First Name", "Phone", "Attendance"]

  /** One input row restricted to the required columns. */
  datatype Attendee = Attendee(name: string, email: string, phone: string, days: string)

  function AttendeeEmails(rows: seq<Attendee>): (es: seq<string>)
    ensures |es| == |rows| && forall i :: 0 <= i < |rows| ==> es[i] == rows[i].email
  {
    seq(|rows|, i requires 0 <= i < |rows| => rows[i].email)
  }

  /** `df[required_columns]`, once the header is known to hold them. */
  function Attendees(t: Table): (rows: seq<Attendee>)
    requires Rectangular(t) && HasColumns(t, RequiredColumns)
    ensures |rows| == |t.rows|
  {
    assert forall c :: c in RequiredColumns ==> c in t.columns;
    assert "First Name" in RequiredColumns && "Email" in RequiredColumns;
    assert "Phone" in RequiredColumns && "Attendance_Day" in RequiredColumns;
    seq(|t.rows|, i requires 0 <= i < |t.rows| =>
      Attendee(t.rows[i]["First Name"], t.rows[i]["Email"], t.rows[i]["Phone"], t.rows[i]["Attendance_Day"]))
  }

  // ---------------------------------------------------------------------------
  // Attendance_Day: set(x.split(',')) if x else set()

  /** The day tokens of one cell: the comma-separated pieces, untrimmed; none for an empty cell. */
  function DaySet(cell: string): (days: set<string>)
    ensures days == {} <==> cell == ""
    ensures forall d :: d in days ==> ',' !in d
  {
    if cell == "" then {}
    else
      var days := set p | p in SplitComma(cell);
      assert SplitComma(cell)[0] in days;
      days
  }

  /**
   A non-empty cell is exactly the comma-join of its pieces, none of which
   holds a comma, and its day set is the set of those pieces.
   */
  lemma DaySetPieces(cell: string)
    ensures cell == "" ==> DaySet(cell) == {}
    ensures cell != "" ==>
              && JoinComma(SplitComma(cell)) == cell
              && (forall d :: d in DaySet(cell) <==> d in SplitComma(cell))
              && (forall d :: d in DaySet(cell) ==> ',' !in d)
  {
    JoinSplit(cell);
  }

  /** A non-empty cell joined from comma-free pieces has exactly those pieces as its days. */
  lemma DaySetOfJoin(parts: seq<string>)
    requires |parts| >= 1 && forall i :: 0 <= i < |parts| ==> ',' !in parts[i]
    requires JoinComma(parts) != ""
    ensures DaySet(JoinComma(parts)) == set p | p in parts
  {
    SplitJoin(parts);
  }

  /** A trailing comma gives an empty token. */
  lemma DaySetTrailingComma()
    ensures DaySet("Mon,") == {"Mon", ""}
  {
    var parts := ["Mon", ""];
    assert JoinComma(parts) == "Mon,";
    DaySetOfJoin(parts);
  }

  /** A token repeated within one cell is one day. */
  lemma DaySetRepeatedToken()
    ensures DaySet("Mon,Tue,Mon") == {"Mon", "Tue"}
  {
    var parts := ["Mon", "Tue", "Mon"];
    assert JoinComma(parts) == "Mon,Tue,Mon";
    DaySetOfJoin(parts);
    assert (set p | p in parts) == {"Mon", "Tue"};
  }

  /** Tokens are not trimmed. */
  lemma DaySetUntrimmed()
    ensures DaySet("Mon, Tue") == {"Mon", " Tue"}
  {
    var parts := ["Mon", " Tue"];
    assert JoinComma(parts) == "Mon, Tue";
    DaySetOfJoin(parts);
  }

  /** The cell's day set listed once per token, the order `explode` walks it in. */
  function DayTokens(cell: string): (ts: seq<string>)
    ensures NoDuplicates(ts)
    ensures forall d :: d in ts <==> d in DaySet(cell)
  {
    if cell == "" then []
    else
      var ts := Distinct(SplitComma(cell));
      assert forall d :: d in ts <==> d in SplitComma(cell) by {
        forall d | d in SplitComma(cell) ensures d in ts {
          var i :| 0 <= i < |SplitComma(cell)| && SplitComma(cell)[i] == d;
        }
      }
      ts
  }

  // ---------------------------------------------------------------------------
  // explode('Attendance_Day')

  /** A row of the exploded frame; `None` is the missing value an empty set explodes to. */
  datatype ExplodedRow = ExplodedRow(name: string, email: string, phone: string, day: Option<string>)

  function ExplodedEmails(ex: seq<ExplodedRow>): (es: seq<string>)
    ensures |es| == |ex| && forall i :: 0 <= i < |ex| ==> es[i] == ex[i].email
  {
    seq(|ex|, i requires 0 <= i < |ex| => ex[i].email)
  }

  /** The rows `explode` makes of one attendee (see `ExplodeOneRows` and `ExplodeOneDays`). */
  function ExplodeOne(a: Attendee): (ex: seq<ExplodedRow>)
    ensures |ex| > 0
    ensures forall i :: 0 <= i < |ex| ==> ex[i].name == a.name && ex[i].email == a.email && ex[i].phone == a.phone
  {
    var ts := DayTokens(a.days);
    if |ts| == 0 then [ExplodedRow(a.name, a.email, a.phone, None)]
    else seq(|ts|, i requires 0 <= i < |ts| => ExplodedRow(a.name, a.email, a.phone, Some(ts[i])))
  }

  /** `explode` never drops an input row: each gives at least one exploded row. */
  function Explode(rows: seq<Attendee>): (ex: seq<ExplodedRow>)
    ensures |ex| >= |rows|
  {
    if |rows| == 0 then [] else ExplodeOne(rows[0]) + Explode(rows[1..])
  }

  // ---------------------------------------------------------------------------
  // groupby('Email')['Attendance_Day'].transform('nunique')

  /** The distinct non-missing days in the exploded rows of email `e`. */
  function DistinctDays(ex: seq<ExplodedRow>, e: string): set<string>
  {
    set i | 0 <= i < |ex| && ex[i].email == e && ex[i].day.Some? :: ex[i].day.value
  }

  /** Every exploded row gets its email's `nunique` as `Attendance`. */
  function WithAttendance(ex: seq<ExplodedRow>): (rows: seq<SummaryRow>)
    ensures |rows| == |ex|
    ensures Emails(rows) == ExplodedEmails(ex)
  {
    seq(|ex|, i requires 0 <= i < |ex| =>
      SummaryRow(ex[i].name, ex[i].email, ex[i].phone, |DistinctDays(ex, ex[i].email)|))
  }

  // ---------------------------------------------------------------------------
  // drop_duplicates(['Email'])

  /** What `DropSeenEmails(rows, seen)` promises of its result `r`. */
  ghost predicate KeepsFirstUnseen(rows: seq<SummaryRow>, seen: set<string>, r: seq<SummaryRow>)
  {
    && NoDuplicates(Emails(r))
    && (forall e :: e in Emails(r) <==> e in Emails(rows) && e !in seen)
    && (forall i :: 0 <= i < |r| ==> r[i].email in Emails(rows) && r[i] == rows[FirstIndex(Emails(rows), r[i].email)])
  }

  /** Keep the first row of each email not in `seen`. */
  function DropSeenEmails(rows: seq<SummaryRow>, seen: set<string>): (r: seq<SummaryRow>)
    ensures NoDuplicates(Emails(r))
    ensures forall e :: e in Emails(r) <==> e in Emails(rows) && e !in seen
    ensures forall i :: 0 <= i < |r| ==> r[i].email in Emails(rows) && r[i] == rows[FirstIndex(Emails(rows), r[i].email)]
  {
    if |rows| == 0 then []
    else if rows[0].email in seen then
      var r := DropSeenEmails(rows[1..], seen);
      SkipSeen(rows, seen, r);
      r
    else
      var rest := DropSeenEmails(rows[1..], seen + {rows[0].email});
      KeepFirst(rows, seen, rest);
      [rows[0]] + rest
  }

  /** A row whose email was seen is dropped. */
  lemma SkipSeen(rows: seq<SummaryRow>, seen: set<string>, r: seq<SummaryRow>)
    requires |rows| > 0 && rows[0].email in seen
    requires KeepsFirstUnseen(rows[1..], seen, r)
    ensures KeepsFirstUnseen(rows, seen, r)
  {
    EmailsTail(rows);
    DropShift(rows, seen, r);
  }

  /** A row whose email is new is kept, and its email is seen from then on. */
  lemma KeepFirst(rows: seq<SummaryRow>, seen: set<string>, rest: seq<SummaryRow>)
    requires |rows| > 0 && rows[0].email !in seen
    requires KeepsFirstUnseen(rows[1..], seen + {rows[0].email}, rest)
    ensures KeepsFirstUnseen(rows, seen, [rows[0]] + rest)
  {
    var x := rows[0];
    EmailsTail(rows);
    EmailsCons(x, rest);
    KeepFirstDistinct(x, rest);
    KeepFirstRows(rows, seen, rest);
  }

  lemma EmailsCons(x: SummaryRow, rest: seq<SummaryRow>)
    ensures Emails([x] + rest) == [x.email] + Emails(rest)
  {
  }

  lemma KeepFirstDistinct(x: SummaryRow, rest: seq<SummaryRow>)
    requires NoDuplicates(Emails(rest)) && x.email !in Emails(rest)
    ensures NoDuplicates(Emails([x] + rest))
  {
    EmailsCons(x, rest);
    var es := Emails([x] + rest);
    var tail := Emails(rest);
    forall i, j | 0 <= i < j < |es|
      ensures es[i] != es[j]
    {
      assert es[j] == tail[j - 1];
      if i > 0 {
        assert es[i] == tail[i - 1];
      } else {
        assert tail[j - 1] in tail;
      }
    }
  }

  lemma KeepFirstRows(rows: seq<SummaryRow>, seen: set<string>, rest: seq<SummaryRow>)
    requires |rows| > 0 && rows[0].email !in seen
    requires forall i :: 0 <= i < |rest| ==> rest[i].email !in seen + {rows[0].email}
    requires forall i :: 0 <= i < |rest| ==>
               rest[i].email in Emails(rows[1..]) && rest[i] == rows[1..][FirstIndex(Emails(rows[1..]), rest[i].email)]
    ensures var r := [rows[0]] + rest;
            forall i :: 0 <= i < |r| ==> r[i].email in Emails(rows) && r[i] == rows[FirstIndex(Emails(rows), r[i].email)]
  {
    var r := [rows[0]] + rest;
    EmailsTail(rows);
    FirstIndexUnique(Emails(rows), rows[0].email, 0);
    forall i | 0 <= i < |r|
      ensures r[i].email in Emails(rows) && r[i] == rows[FirstIndex(Emails(rows), r[i].email)]
    {
      if i > 0 {
        assert r[i] == rest[i - 1];
        FirstInTail(rows, rest[i - 1].email);
      }
    }
  }

  /** Rows kept from the tail stay the first ones of their email in the whole frame. */
  lemma DropShift(rows: seq<SummaryRow>, seen: set<string>, r: seq<SummaryRow>)
    requires |rows| > 0 && rows[0].email in seen
    requires forall i :: 0 <= i < |r| ==> r[i].email !in seen
    requires forall i :: 0 <= i < |r| ==> r[i].email in Emails(rows[1..]) && r[i] == rows[1..][FirstIndex(Emails(rows[1..]), r[i].email)]
    ensures forall i :: 0 <= i < |r| ==> r[i].email in Emails(rows) && r[i] == rows[FirstIndex(Emails(rows), r[i].email)]
  {
    forall i | 0 <= i < |r|
      ensures r[i].email in Emails(rows) && r[i] == rows[FirstIndex(Emails(rows), r[i].email)]
    {
      FirstInTail(rows, r[i].email);
    }
  }

  function DropDuplicateEmails(rows: seq<SummaryRow>): (r: seq<SummaryRow>)
    ensures NoDuplicates(Emails(r))
    ensures forall e :: e in Emails(r) <==> e in Emails(rows)
    ensures forall i :: 0 <= i < |r| ==> r[i].email in Emails(rows) && r[i] == rows[FirstIndex(Emails(rows), r[i].email)]
  {
    DropSeenEmails(rows, {})
  }

  // ---------------------------------------------------------------------------
  // The pipeline

  /** The days of all input rows with email `e`, together. */
  function UnionDays(rows: seq<Attendee>, e: string): set<string>
  {
    if |rows| == 0 then {}
    else (if rows[0].email == e then DaySet(rows[0].days) else {}) + UnionDays(rows[1..], e)
  }

  /**
   The aggregation after the schema check. The output has one row per
   distinct input email, ascending by email. The row's name and phone are
   those of the first input row with that email: `drop_duplicates` leaves
   only that row for `most_frequent_name` to see. Its attendance is the
   number of distinct day tokens over all of the email's rows.
   */
  function Aggregate(rows: seq<Attendee>): (out: seq<SummaryRow>)
    ensures forall i, j :: 0 <= i < j < |out| ==> StrLess(out[i].email, out[j].email)
    ensures forall e :: e in Emails(out) <==> e in AttendeeEmails(rows)
    ensures forall i :: 0 <= i < |out| ==> out[i].email in AttendeeEmails(rows)
    ensures forall i :: 0 <= i < |out| ==>
              && out[i].name == rows[FirstIndex(AttendeeEmails(rows), out[i].email)].name
              && out[i].phone == rows[FirstIndex(AttendeeEmails(rows), out[i].email)].phone
              && out[i].attendance == |UnionDays(rows, out[i].email)|
  {
    var ex := Explode(rows);
    var tallied := WithAttendance(ex);
    var firsts := DropDuplicateEmails(tallied);
    var out := AggregateByEmail(firsts);
    ExplodeEmails(rows);
    forall i | 0 <= i < |out|
      ensures out[i].email in AttendeeEmails(rows)
      ensures out[i].name == rows[FirstIndex(AttendeeEmails(rows), out[i].email)].name
      ensures out[i].phone == rows[FirstIndex(AttendeeEmails(rows), out[i].email)].phone
      ensures out[i].attendance == |UnionDays(rows, out[i].email)|
    {
      OutputRow(rows, ex, tallied, firsts, out, i);
    }
    out
  }

  lemma OutputRow(rows: seq<Attendee>, ex: seq<ExplodedRow>, tallied: seq<SummaryRow>,
                  firsts: seq<SummaryRow>, out: seq<SummaryRow>, i: nat)
    requires ex == Explode(rows) && tallied == WithAttendance(ex)
    requires firsts == DropDuplicateEmails(tallied) && out == AggregateByEmail(firsts)
    requires i < |out|
    ensures out[i].email in AttendeeEmails(rows)
    ensures out[i].name == rows[FirstIndex(AttendeeEmails(rows), out[i].email)].name
    ensures out[i].phone == rows[FirstIndex(AttendeeEmails(rows), out[i].email)].phone
    ensures out[i].attendance == |UnionDays(rows, out[i].email)|
  {
    var e := out[i].email;
    AggregateOfDistinctEmails(firsts, out, i);
    ExplodeEmails(rows);
    TalliedFirst(rows, ex, tallied, e);
  }

  /** The first tallied row of an input email: the first input row's name and phone, and its distinct days. */
  lemma TalliedFirst(rows: seq<Attendee>, ex: seq<ExplodedRow>, tallied: seq<SummaryRow>, e: string)
    requires ex == Explode(rows) && tallied == WithAttendance(ex)
    requires e in AttendeeEmails(rows)
    ensures e in Emails(tallied)
    ensures var f := tallied[FirstIndex(Emails(tallied), e)];
            var a := rows[FirstIndex(AttendeeEmails(rows), e)];
            f.name == a.name && f.phone == a.phone && f.attendance == |UnionDays(rows, e)|
  {
    ExplodeFirst(rows, e);
    ExplodeDays(rows, e);
    var j := FirstIndex(ExplodedEmails(ex), e);
    assert tallied[j] == SummaryRow(ex[j].name, ex[j].email, ex[j].phone, |DistinctDays(ex, ex[j].email)|);
  }

  lemma AttendeeEmailsCons(rows: seq<Attendee>)
    requires |rows| > 0
    ensures AttendeeEmails(rows) == [rows[0].email] + AttendeeEmails(rows[1..])
  {
  }

  lemma ExplodedEmailsAppend(a: seq<ExplodedRow>, b: seq<ExplodedRow>)
    ensures ExplodedEmails(a + b) == ExplodedEmails(a) + ExplodedEmails(b)
  {
  }

  /** All exploded rows of one input row carry its email, and there is at least one. */
  lemma ExplodeOneEmails(x: Attendee)
    ensures x.email in ExplodedEmails(ExplodeOne(x))
    ensures forall e :: e in ExplodedEmails(ExplodeOne(x)) ==> e == x.email
  {
    var head := ExplodeOne(x);
    assert ExplodedEmails(head)[0] == x.email;
    forall e | e in ExplodedEmails(head)
      ensures e == x.email
    {
      var m :| 0 <= m < |head| && ExplodedEmails(head)[m] == e;
    }
  }

  /** Exploding keeps the set of emails. */
  lemma {:induction false} ExplodeEmails(rows: seq<Attendee>)
    ensures forall e :: e in ExplodedEmails(Explode(rows)) <==> e in AttendeeEmails(rows)
  {
    if |rows| > 0 {
      ExplodeEmails(rows[1..]);
      ExplodedEmailsAppend(ExplodeOne(rows[0]), Explode(rows[1..]));
      AttendeeEmailsCons(rows);
      ExplodeOneEmails(rows[0]);
    }
  }

  /** The first exploded row of email `e` has the name and phone of the first input row of `e`. */
  ghost predicate FirstExplodedMatches(rows: seq<Attendee>, e: string)
  {
    var ex := Explode(rows);
    && e in ExplodedEmails(ex) && e in AttendeeEmails(rows)
    && var x := ex[FirstIndex(ExplodedEmails(ex), e)];
       var a := rows[FirstIndex(AttendeeEmails(rows), e)];
       x.name == a.name && x.phone == a.phone
  }

  /** The first exploded row of an email comes from the first input row of that email. */
  lemma {:induction false} ExplodeFirst(rows: seq<Attendee>, e: string)
    requires e in AttendeeEmails(rows)
    ensures FirstExplodedMatches(rows, e)
  {
    AttendeeEmailsCons(rows);
    if rows[0].email == e {
      ExplodeFirstHead(rows, e);
    } else {
      FirstIndexAppend([rows[0].email], AttendeeEmails(rows[1..]), e);
      ExplodeFirst(rows[1..], e);
      ExplodeFirstTail(rows, e);
    }
  }

  lemma ExplodeFirstHead(rows: seq<Attendee>, e: string)
    requires |rows| > 0 && rows[0].email == e
    ensures FirstExplodedMatches(rows, e)
  {
    var head := ExplodeOne(rows[0]);
    var rest := Explode(rows[1..]);
    ExplodedEmailsAppend(head, rest);
    AttendeeEmailsCons(rows);
    assert ExplodedEmails(head)[0] == e;
    FirstIndexAppend(ExplodedEmails(head), ExplodedEmails(rest), e);
    FirstIndexUnique(ExplodedEmails(head), e, 0);
    FirstIndexUnique(AttendeeEmails(rows), e, 0);
  }

  lemma ExplodeFirstTail(rows: seq<Attendee>, e: string)
    requires |rows| > 0 && rows[0].email != e
    requires FirstExplodedMatches(rows[1..], e)
    ensures FirstExplodedMatches(rows, e)
  {
    var head := ExplodeOne(rows[0]);
    var rest := Explode(rows[1..]);
    ExplodedEmailsAppend(head, rest);
    AttendeeEmailsCons(rows);
    ExplodeOneEmails(rows[0]);
    FirstIndexAppend([rows[0].email], AttendeeEmails(rows[1..]), e);
    FirstIndexAppend(ExplodedEmails(head), ExplodedEmails(rest), e);
    var j := FirstIndex(ExplodedEmails(rest), e);
    assert (head + rest)[|head| + j] == rest[j];
  }

  lemma DistinctDaysAppend(a: seq<ExplodedRow>, b: seq<ExplodedRow>, e: string)
    ensures DistinctDays(a + b, e) == DistinctDays(a, e) + DistinctDays(b, e)
  {
    var ab := a + b;
    forall d | d in DistinctDays(ab, e)
      ensures d in DistinctDays(a, e) + DistinctDays(b, e)
    {
      var i :| 0 <= i < |ab| && ab[i].email == e && ab[i].day == Some(d);
      if i >= |a| {
        assert b[i - |a|] == ab[i];
      }
    }
    forall d | d in DistinctDays(a, e)
      ensures d in DistinctDays(ab, e)
    {
      var i :| 0 <= i < |a| && a[i].email == e && a[i].day == Some(d);
      assert ab[i] == a[i];
    }
    forall d | d in DistinctDays(b, e)
      ensures d in DistinctDays(ab, e)
    {
      var i :| 0 <= i < |b| && b[i].email == e && b[i].day == Some(d);
      assert ab[|a| + i] == b[i];
    }
  }

  /**
   An attendee with no days explodes to one row with no day; otherwise every
   exploded row carries a day of the set, and no two carry the same one.
   */
  lemma ExplodeOneRows(a: Attendee)
    ensures DaySet(a.days) == {} ==> ExplodeOne(a) == [ExplodedRow(a.name, a.email, a.phone, None)]
    ensures DaySet(a.days) != {} ==>
              forall i :: 0 <= i < |ExplodeOne(a)| ==> ExplodeOne(a)[i].day.Some? && ExplodeOne(a)[i].day.value in DaySet(a.days)
    ensures forall i, j :: 0 <= i < j < |ExplodeOne(a)| ==> ExplodeOne(a)[i].day != ExplodeOne(a)[j].day
  {
    var ts := DayTokens(a.days);
    if DaySet(a.days) != {} {
      var d :| d in DaySet(a.days);
      assert d in ts;
    }
  }

  /** The exploded rows of one input row carry exactly its day set, under its email. */
  lemma ExplodeOneDays(x: Attendee, e: string)
    ensures DistinctDays(ExplodeOne(x), e) == if x.email == e then DaySet(x.days) else {}
  {
    var ex := ExplodeOne(x);
    var ts := DayTokens(x.days);
    if x.email == e {
      forall d | d in DaySet(x.days)
        ensures d in DistinctDays(ex, e)
      {
        var i := FirstIndex(ts, d);
        assert ex[i].day == Some(d);
      }
      forall d | d in DistinctDays(ex, e)
        ensures d in DaySet(x.days)
      {
        var i :| 0 <= i < |ex| && ex[i].email == e && ex[i].day == Some(d);
        assert ts[i] == d;
      }
    }
  }

  /** `nunique` over the exploded frame counts the union of the email's day sets. */
  lemma {:induction false} ExplodeDays(rows: seq<Attendee>, e: string)
    ensures DistinctDays(Explode(rows), e) == UnionDays(rows, e)
  {
    if |rows| > 0 {
      DistinctDaysAppend(ExplodeOne(rows[0]), Explode(rows[1..]), e);
      ExplodeOneDays(rows[0], e);
      ExplodeDays(rows[1..], e);
    }
  }

  /**
   Rows that all share one email give one output row, carrying the first
   row's name and phone whatever names the later rows have.
   */
  lemma SingleEmail(rows: seq<Attendee>, e: string)
    requires |rows| > 0 && forall i :: 0 <= i < |rows| ==> rows[i].email == e
    ensures Aggregate(rows) == [SummaryRow(rows[0].name, e, rows[0].phone, |UnionDays(rows, e)|)]
  {
    OnlyEmail(rows, e);
    SingleEmailLength(rows, e);
    SingleEmailRow(rows, e);
  }

  lemma SingleEmailLength(rows: seq<Attendee>, e: string)
    requires |rows| > 0 && rows[0].email == e
    requires forall x :: x in AttendeeEmails(rows) ==> x == e
    ensures |Aggregate(rows)| == 1
  {
    var out := Aggregate(rows);
    assert AttendeeEmails(rows)[0] == e;
    assert e in Emails(out);
    AscendingOneEmail(out, e);
  }

  /** Rows in strictly ascending email order that all carry one email are at most one row. */
  lemma AscendingOneEmail(out: seq<SummaryRow>, e: string)
    requires forall i, j :: 0 <= i < j < |out| ==> StrLess(out[i].email, out[j].email)
    requires forall i :: 0 <= i < |out| ==> out[i].email == e
    ensures |out| <= 1
  {
    if |out| >= 2 {
      assert StrLess(out[0].email, out[1].email);
      StrLessIrreflexive(e);
    }
  }

  lemma SingleEmailRow(rows: seq<Attendee>, e: string)
    requires |rows| > 0 && rows[0].email == e && |Aggregate(rows)| == 1
    requires forall x :: x in AttendeeEmails(rows) ==> x == e
    ensures Aggregate(rows)[0] == SummaryRow(rows[0].name, e, rows[0].phone, |UnionDays(rows, e)|)
  {
    var es := AttendeeEmails(rows);
    var out := Aggregate(rows);
    assert es[0] == e;
    FirstIndexUnique(es, e, 0);
    assert out[0].email == e;
  }

  lemma OnlyEmail(rows: seq<Attendee>, e: string)
    requires forall i :: 0 <= i < |rows| ==> rows[i].email == e
    ensures forall x :: x in AttendeeEmails(rows) ==> x == e
  {
    forall x | x in AttendeeEmails(rows)
      ensures x == e
    {
      var m :| 0 <= m < |rows| && AttendeeEmails(rows)[m] == x;
    }
  }

  lemma DaySetSingle()
    ensures DaySet("Mon") == {"Mon"}
  {
    DaySetOfJoin(["Mon"]);
  }

  lemma DaySetPair()
    ensures DaySet("Mon,Tue") == {"Mon", "Tue"}
  {
    var parts := ["Mon", "Tue"];
    assert JoinComma(parts) == "Mon,Tue";
    DaySetOfJoin(parts);
  }

  /** The day sets of the rows below, together. */
  lemma UnionDaysExample(a: Attendee, b: Attendee, c: Attendee)
    requires a.email == b.email == c.email
    requires a.days == "Mon" && b.days == "Mon,Tue" && c.days == ""
    ensures UnionDays([a, b, c], a.email) == {"Mon", "Tue"}
  {
    DaySetSingle();
    DaySetPair();
    assert [a, b, c][1..] == [b, c] && [b, c][1..] == [c] && [c][1..] == [];
    assert UnionDays([c], a.email) == {};
    assert UnionDays([b, c], a.email) == {"Mon", "Tue"};
  }

  /**
   Three rows under one email, the first with a name the other two do not
   share. The output keeps the first name although `most_frequent_name` over
   all three names would pick the other one; "Mon" in two rows and the empty
   cell count as one day.
   */
  lemma FirstSeenNameWins(a: Attendee, b: Attendee, c: Attendee)
    requires a.email == b.email == c.email
    requires a.days == "Mon" && b.days == "Mon,Tue" && c.days == ""
    requires a.name != b.name && b.name == c.name
    ensures Aggregate([a, b, c]) == [SummaryRow(a.name, a.email, a.phone, 2)]
    ensures MostFrequentName([a.name, b.name, c.name]) == b.name
  {
    SingleEmail([a, b, c], a.email);
    UnionDaysExample(a, b, c);
    PairSize();
    MajorityName(a.name, b.name);
  }

  lemma PairSize()
    ensures |{"Mon", "Tue"}| == 2
  {
  }

  lemma MajorityName(x: string, y: string)
    requires x != y
    ensures MostFrequentName([x, y, y]) == y
  {
    var names := [x, y, y];
    assert Count(names, x) == 1 && Count(names, y) == 2;
  }

  /**
   `process_growthflow` from the read frame on: a missing required column is
   an error and nothing is aggregated; otherwise the summary of the rows.
   */
  function Process(t: Table): (r: Result<Report>)
    requires Rectangular(t)
    ensures r.Err? <==> exists c :: c in RequiredColumns && c !in t.columns
    ensures r.Err? ==> r.error == MissingColumns(GrowthflowExport, RequiredColumns)
    ensures r.Ok? ==> r.value.columns == OutputColumns && r.value.rows == Aggregate(Attendees(t))
  {
    if HasColumns(t, RequiredColumns) then Ok(Report(OutputColumns, Aggregate(Attendees(t))))
    else Err(MissingColumns(GrowthflowExport, RequiredColumns))
  }
}
