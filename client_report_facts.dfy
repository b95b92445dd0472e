/**
 * What the client's report promises its reader: the header comes first,
 * every other row has the header's nine cells and belongs to a user with
 * the instructor role, an instructor with no version gets the `N/A` row,
 * and a row's two clock cells read back as the run of cells it stands for.
 */
module ClientReportFacts {
  import opened Wrappers
  import opened Text
  import opened TimeGrid
  import opened Continuity
  import opened Users
  import opened Versions
  import opened ClientValidation
  import opened ClientReport
  import DayGroups
  import Seqs

  /** A row with the header's nine cells that names the user in its first two. */
  predicate Names(row: seq<string>, u: User) {
    |row| == 9 && row[0] == u.id && row[1] == u.name
  }

  /** Every row names the user. */
  predicate RowsOf(rows: seq<seq<string>>, u: User) {
    forall k :: 0 <= k < |rows| ==> Names(rows[k], u)
  }

  lemma RowsOfAppend(a: seq<seq<string>>, b: seq<seq<string>>, u: User)
    requires RowsOf(a, u) && RowsOf(b, u)
    ensures RowsOf(a + b, u)
  {
    forall k | 0 <= k < |a + b|
      ensures Names((a + b)[k], u)
    {
      if k >= |a| {
        assert (a + b)[k] == b[k - |a|];
      }
    }
  }

  lemma {:induction false} RunRowsOf(u: User, t: Target, day: string, runs: seq<seq<int>>)
    requires NonEmptyRuns(runs)
    ensures RowsOf(RunRows(u, t, day, runs), u)
  {
    if |runs| > 0 {
      var p := runs[..|runs| - 1];
      assert NonEmptyRuns(p) by {
        forall k | 0 <= k < |p|
          ensures |p[k]| > 0
        {
          assert p[k] == runs[k];
        }
      }
      RunRowsOf(u, t, day, p);
      var run := Last(runs);
      RowsOfAppend(RunRows(u, t, day, p), [RunRow(u, t, day, run[0], Last(run))], u);
    }
  }

  lemma {:induction false} DaysRowsOf(u: User, t: Target, days: seq<string>)
    ensures RowsOf(DaysRows(u, t, days), u)
  {
    if |days| > 0 {
      DaysRowsOf(u, t, days[..|days| - 1]);
      RunRowsOf(u, t, Last(days), IndexRuns(t.version.slots, Last(days)));
      RowsOfAppend(DaysRows(u, t, days[..|days| - 1]), DayRows(u, t, Last(days)), u);
    }
  }

  lemma UserRowsOf(u: User, vs: seq<Version>)
    ensures RowsOf(UserRows(u, vs), u)
  {
    match ChooseTarget(vs, u.id)
    case None =>
    case Some(t) => DaysRowsOf(u, t, DayGroups.DayOrder(t.version.slots));
  }

  /** Every row of the users' part has nine cells and names one of the users. */
  lemma {:induction false} UsersRowOwner(users: seq<User>, vs: seq<Version>, j: nat) returns (k: nat)
    requires j < |UsersRows(users, vs)|
    ensures k < |users|
    ensures Names(UsersRows(users, vs)[j], users[k])
  {
    var p, mine := UsersRowsSnoc(users, vs, j);
    if j < |UsersRows(p, vs)| {
      k := UsersRowOwner(p, vs, j);
      PickHead(UsersRows(p, vs), mine, j, p[k]);
      PrefixAt(users, k);
    } else {
      k := |users| - 1;
      PickTail(UsersRows(p, vs), mine, j, users[k]);
    }
  }

  /** The users' part grows by the last user's rows, all of which name that user. */
  lemma UsersRowsSnoc(users: seq<User>, vs: seq<Version>, j: nat) returns (p: seq<User>, mine: seq<seq<string>>)
    requires j < |UsersRows(users, vs)|
    ensures |users| > 0 && p == users[..|users| - 1]
    ensures UsersRows(users, vs) == UsersRows(p, vs) + mine
    ensures RowsOf(mine, users[|users| - 1])
  {
    p := users[..|users| - 1];
    mine := UserRows(Last(users), vs);
    UserRowsOf(Last(users), vs);
  }

  lemma PickHead(a: seq<seq<string>>, b: seq<seq<string>>, j: nat, u: User)
    requires j < |a| && Names(a[j], u)
    ensures Names((a + b)[j], u)
  {
  }

  lemma PickTail(a: seq<seq<string>>, b: seq<seq<string>>, j: nat, u: User)
    requires |a| <= j < |a| + |b| && RowsOf(b, u)
    ensures Names((a + b)[j], u)
  {
    assert (a + b)[j] == b[j - |a|];
  }

  lemma PrefixAt<T>(s: seq<T>, k: nat)
    requires k < |s| - 1
    ensures s[..|s| - 1][k] == s[k]
  {
  }

  /** The report starts with the nine-column header. */
  lemma ReportHeaderFirst(users: seq<User>, vs: seq<Version>)
    ensures |Report(users, vs)| >= 1 && Report(users, vs)[0] == ReportHeader
    ensures |ReportHeader| == 9
  {
  }

  /**
   * Every row after the header has nine cells and belongs to a user with
   * the instructor role (`ReportAt` places these rows right after the header).
   */
  lemma InstructorRowOwner(users: seq<User>, vs: seq<Version>, j: nat) returns (u: User)
    requires j < |UsersRows(Seqs.Filter(users, IsInstructor), vs)|
    ensures u in users && u.role == Instructor
    ensures Names(UsersRows(Seqs.Filter(users, IsInstructor), vs)[j], u)
  {
    var instructors := Seqs.Filter(users, IsInstructor);
    var k := UsersRowOwner(instructors, vs, j);
    u := instructors[k];
    Listed(users, instructors, k);
  }

  /** Past the header, the report holds the instructors' rows. */
  lemma ReportAt(users: seq<User>, vs: seq<Version>, j: nat)
    requires 1 <= j < |Report(users, vs)|
    ensures j - 1 < |UsersRows(Seqs.Filter(users, IsInstructor), vs)|
    ensures Report(users, vs)[j] == UsersRows(Seqs.Filter(users, IsInstructor), vs)[j - 1]
  {
    ConsAt(ReportHeader, UsersRows(Seqs.Filter(users, IsInstructor), vs), j);
  }

  lemma Listed(users: seq<User>, instructors: seq<User>, k: nat)
    requires instructors == Seqs.Filter(users, IsInstructor) && k < |instructors|
    ensures instructors[k] in users && instructors[k].role == Instructor
  {
    Seqs.FilterMembership(users, IsInstructor, instructors[k]);
  }

  lemma ConsAt<T>(h: T, s: seq<T>, j: nat)
    requires 1 <= j < 1 + |s|
    ensures |[h] + s| == 1 + |s| && ([h] + s)[j] == s[j - 1]
  {
  }

  /** An instructor with no version at all gets the single `N/A` / `SIN DATOS` row. */
  lemma NoVersionRow(u: User, vs: seq<Version>)
    requires forall v :: v in vs ==> v.instructorId != u.id
    ensures UserRows(u, vs) == [NoDataRow(u)]
  {
    TargetChoice(vs, u.id);
  }

  /** The rows of a chosen version carry its period, its final flag, its origin and its comment without commas. */
  predicate RowsOfTarget(rows: seq<seq<string>>, t: Target) {
    forall k :: 0 <= k < |rows| ==>
      && |rows[k]| == 9
      && rows[k][2] == t.version.periodId
      && rows[k][3] == (if t.version.isFinal then "SI" else "NO")
      && rows[k][4] == OriginText(t.origin)
      && ',' !in rows[k][8]
  }

  lemma RowsOfTargetAppend(a: seq<seq<string>>, b: seq<seq<string>>, t: Target)
    requires RowsOfTarget(a, t) && RowsOfTarget(b, t)
    ensures RowsOfTarget(a + b, t)
  {
    forall k | |a| <= k < |a + b|
      ensures (a + b)[k] == b[k - |a|]
    {
    }
  }

  lemma RunRowOfTarget(u: User, t: Target, day: string, start: int, prev: int)
    ensures RowsOfTarget([RunRow(u, t, day, start, prev)], t)
  {
    var c := ReplaceAll(t.version.comments, ',', ' ');
    assert ',' !in c by {
      forall i | 0 <= i < |c|
        ensures c[i] != ','
      {
      }
    }
  }

  lemma {:induction false} RunRowsOfTarget(u: User, t: Target, day: string, runs: seq<seq<int>>)
    requires NonEmptyRuns(runs)
    ensures RowsOfTarget(RunRows(u, t, day, runs), t)
  {
    if |runs| > 0 {
      var p := runs[..|runs| - 1];
      assert NonEmptyRuns(p) by {
        forall k | 0 <= k < |p|
          ensures |p[k]| > 0
        {
          assert p[k] == runs[k];
        }
      }
      RunRowsOfTarget(u, t, day, p);
      var run := Last(runs);
      RunRowOfTarget(u, t, day, run[0], Last(run));
      RowsOfTargetAppend(RunRows(u, t, day, p), [RunRow(u, t, day, run[0], Last(run))], t);
    }
  }

  lemma {:induction false} DaysRowsOfTarget(u: User, t: Target, days: seq<string>)
    ensures RowsOfTarget(DaysRows(u, t, days), t)
  {
    if |days| > 0 {
      DaysRowsOfTarget(u, t, days[..|days| - 1]);
      RunRowsOfTarget(u, t, Last(days), IndexRuns(t.version.slots, Last(days)));
      RowsOfTargetAppend(DaysRows(u, t, days[..|days| - 1]), DayRows(u, t, Last(days)), t);
    }
  }

  /**
   * An instructor with versions gets only rows of the chosen version: its
   * period, `SI` exactly for a final one, its origin, and the comment with
   * its commas turned into spaces.
   */
  lemma VersionRowsCells(u: User, vs: seq<Version>)
    requires ChooseTarget(vs, u.id).Some?
    ensures RowsOfTarget(UserRows(u, vs), ChooseTarget(vs, u.id).value)
  {
    var t := ChooseTarget(vs, u.id).value;
    DaysRowsOfTarget(u, t, DayGroups.DayOrder(t.version.slots));
  }

  lemma CellText(a: int)
    requires 0 <= a < GridLength
    ensures Cell(a) == MinutesText(StartMinutes + SlotMinutes * a)
  {
  }

  /** An entry of the list reads back as its clock: `30 a` minutes after 07:30. */
  lemma CellReads(a: int)
    requires 0 <= a < GridLength
    ensures TextMinutes(Cell(a)) == Some(StartMinutes + SlotMinutes * a)
  {
    CellText(a);
    MinutesTextReads(StartMinutes + SlotMinutes * a);
  }

  /** `23:00` is the clock half an hour after the last entry. */
  lemma PastEndText()
    ensures MinutesText(StartMinutes + SlotMinutes * GridLength) == "23:00"
  {
    assert DecimalText(2) == "2" && DecimalText(3) == "3" && DecimalText(0) == "0";
  }

  lemma EndCellInside(b: int)
    requires b + 1 < GridLength
    ensures EndCell(b) == Cell(b + 1)
  {
  }

  lemma EndCellPast(b: int)
    requires b + 1 >= GridLength
    ensures EndCell(b) == "23:00"
  {
  }

  /** A run's end cell is the clock right after its last position, past the list's end too. */
  lemma EndCellText(b: int)
    requires -1 <= b < GridLength
    ensures EndCell(b) == MinutesText(StartMinutes + SlotMinutes * (b + 1))
  {
    if b + 1 < GridLength {
      EndCellInside(b);
      CellText(b + 1);
    } else {
      EndCellPast(b);
      PastEndText();
    }
  }

  /** So the end cell reads back as that clock, `23:00` reading as 23 hours. */
  lemma EndCellReads(b: int)
    requires -1 <= b < GridLength
    ensures TextMinutes(EndCell(b)) == Some(StartMinutes + SlotMinutes * (b + 1))
  {
    EndCellText(b);
    MinutesTextReads(StartMinutes + SlotMinutes * (b + 1));
  }

  /** Every pushed position is a list position, or -1 for a time not in the list. */
  lemma {:induction false} AllPositionsRange(slots: seq<Slot>, d: string)
    ensures forall x :: x in AllPositions(slots, d) ==> -1 <= x < GridLength
  {
    if |slots| > 0 {
      AllPositionsRange(slots[..|slots| - 1], d);
    }
  }

  /** The runs of a day cut its sorted positions into maximal runs of consecutive positions. */
  lemma IndexRunsPartition(slots: seq<Slot>, d: string)
    ensures IsRunPartition(Seqs.Sort(AllPositions(slots, d)), IndexRuns(slots, d), 1)
  {
    RunsPartition(Seqs.Sort(AllPositions(slots, d)), 1);
  }

  /** A run of an on-list day lies inside the list: its last position is `|run| - 1` after its first. */
  lemma RunInList(slots: seq<Slot>, d: string, k: nat)
    requires -1 !in AllPositions(slots, d)
    requires k < |IndexRuns(slots, d)|
    ensures 0 <= IndexRuns(slots, d)[k][0]
    ensures Last(IndexRuns(slots, d)[k]) == IndexRuns(slots, d)[k][0] + |IndexRuns(slots, d)[k]| - 1 < GridLength
  {
    var positions := AllPositions(slots, d);
    var sorted := Seqs.Sort(positions);
    assert IndexRuns(slots, d) == Runs(sorted, 1);
    var run := Runs(sorted, 1)[k];
    RunEnds(sorted, 1, k);
    AllPositionsRange(slots, d);
    Seqs.SortMembership(positions, run[0]);
    Seqs.SortMembership(positions, Last(run));
    assert run[0] in positions && Last(run) in positions;
    assert -1 <= run[0] && run[0] != -1;
    assert 0 <= run[0];
    RunsShape(sorted, 1);
    StepsArithmetic(run, 1, |run| - 1);
  }

  /** The clock, in minutes after midnight, of list position `p`. */
  function PositionMinutes(p: int): int {
    StartMinutes + SlotMinutes * p
  }

  /** A nine-cell row whose start and end cells read as the clocks `from` and `to`. */
  predicate ReadsAs(row: seq<string>, from: int, to: int) {
    && |row| == 9
    && TextMinutes(row[6]).Some? && TextMinutes(row[6]).value == from
    && TextMinutes(row[7]).Some? && TextMinutes(row[7]).value == to
  }

  /**
   * Row `k` of a day whose times are all in the list reads back as the
   * half-open span of the `k`-th run: from its first cell's clock to the
   * clock `|run|` half hours later.
   */
  lemma DayRowRead(u: User, t: Target, d: string, k: nat)
    requires -1 !in AllPositions(t.version.slots, d)
    requires k < |IndexRuns(t.version.slots, d)|
    ensures k < |DayRows(u, t, d)|
    ensures ReadsAs(DayRows(u, t, d)[k], PositionMinutes(IndexRuns(t.version.slots, d)[k][0]),
      PositionMinutes(IndexRuns(t.version.slots, d)[k][0] + |IndexRuns(t.version.slots, d)[k]|))
  {
    var runs := IndexRuns(t.version.slots, d);
    var run := runs[k];
    RunRowsAt(u, t, d, runs, k);
    RunInList(t.version.slots, d, k);
    var after := run[0] + |run|;
    assert Last(run) + 1 == after;
    RunRowReads(u, t, d, run[0], Last(run), after);
  }

  /** A row's clock cells read back as its run's first position and the one after its last. */
  lemma RunRowReads(u: User, t: Target, d: string, start: int, prev: int, after: int)
    requires 0 <= start < GridLength && -1 <= prev < GridLength && after == prev + 1
    ensures ReadsAs(RunRow(u, t, d, start, prev), PositionMinutes(start), PositionMinutes(after))
  {
    CellReads(start);
    EndCellReads(prev);
  }

  /** A time not in the list sorts first as position -1, which opens the day's first run. */
  lemma UnknownTimeFirst(slots: seq<Slot>, d: string)
    requires -1 in AllPositions(slots, d)
    ensures |IndexRuns(slots, d)| > 0 && IndexRuns(slots, d)[0][0] == -1
  {
    var positions := AllPositions(slots, d);
    var sorted := Seqs.Sort(positions);
    Seqs.SortMembership(positions, -1);
    AllPositionsRange(slots, d);
    assert sorted[0] == -1 by {
      Seqs.SortedHeadIsLeast(sorted, -1);
      Seqs.SortMembership(positions, sorted[0]);
    }
    RunsPartition(sorted, 1);
    FlattenHead(Runs(sorted, 1));
  }

  /** So a day with a time not in the list starts with a row whose start cell is empty. */
  lemma UnknownTimeRow(u: User, t: Target, d: string)
    requires -1 in AllPositions(t.version.slots, d)
    ensures |DayRows(u, t, d)| > 0 && |DayRows(u, t, d)[0]| == 9 && DayRows(u, t, d)[0][6] == ""
  {
    UnknownTimeFirst(t.version.slots, d);
    RunRowsAt(u, t, d, IndexRuns(t.version.slots, d), 0);
  }

  /** The first value of laid-out runs is the first value of the first run. */
  lemma {:induction false} FlattenHead(rs: seq<seq<int>>)
    requires |rs| > 0 && |rs[0]| > 0
    ensures |Flatten(rs)| > 0 && Flatten(rs)[0] == rs[0][0]
  {
    if |rs| > 1 {
      FlattenHead(rs[..|rs| - 1]);
    }
  }
}
