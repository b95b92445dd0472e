/**
 * What the condensed report says about a version's slots. Reading each
 * range back as half-hour cells gives the day's slot starts again, sorted;
 * a day's ranges in the report are exactly that day's own ranges; ranges
 * come in order of start and never touch; and only an empty selection
 * condenses to nothing.
 */
module CondenseFacts {
  import opened Wrappers
  import opened TimeGrid
  import opened Continuity
  import opened DayGroups
  import opened Condensation
  import Seqs
  import Text

  /** The half-hour starts `a, a + 30, ...` before `b`. */
  function Cells(a: int, b: int): seq<int>
    decreases b - a
  {
    if b <= a then [] else [a] + Cells(a + SlotMinutes, b)
  }

  /** The cells a range stands for. */
  function Expand(r: TimeRange): seq<int> {
    Cells(r.startMin, r.endMin)
  }

  function ExpandAll(rs: seq<TimeRange>): seq<int> {
    if |rs| == 0 then [] else ExpandAll(rs[..|rs| - 1]) + Expand(Last(rs))
  }

  /** The cells of `[a, b)` are exactly the minutes from `a` below `b` a whole number of half hours past `a`. */
  lemma {:induction false} CellsMember(a: int, b: int, m: int)
    ensures m in Cells(a, b) <==> a <= m < b && (m - a) % SlotMinutes == 0
    decreases b - a
  {
    if a < b {
      CellsMember(a + SlotMinutes, b, m);
      if m != a && a <= m && (m - a) % SlotMinutes == 0 {
        assert m >= a + SlotMinutes;
      }
    }
  }

  /** A minute value belongs to day `d` exactly when some slot of that day starts there. */
  lemma {:induction false} DayMinutesMember(slots: seq<Slot>, d: string, m: int)
    ensures m in DayMinutes(slots, d) <==> exists i :: 0 <= i < |slots| && slots[i].day == d && Minutes(slots[i].time) == m
  {
    if |slots| > 0 {
      var p := slots[..|slots| - 1];
      DayMinutesMember(p, d, m);
      assert forall i :: 0 <= i < |p| ==> p[i] == slots[i];
      if exists i :: 0 <= i < |slots| && slots[i].day == d && Minutes(slots[i].time) == m {
        var i :| 0 <= i < |slots| && slots[i].day == d && Minutes(slots[i].time) == m;
        if i < |p| {
          assert p[i].day == d && Minutes(p[i].time) == m;
        }
      }
    }
  }

  /** The k-th range of a list of runs is the range of the k-th run. */
  lemma {:induction false} RunRangesAt(day: string, runs: seq<seq<int>>, k: nat)
    requires GoodRuns(runs) && k < |runs|
    ensures RunRanges(day, runs)[k] == RunRange(day, runs[k])
  {
    var p := runs[..|runs| - 1];
    assert GoodRuns(p) by {
      forall j | 0 <= j < |p|
        ensures p[j] == runs[j]
      {
      }
    }
    var r := RunRanges(day, runs);
    var q := RunRanges(day, p);
    assert r == q + [RunRange(day, Last(runs))];
    if k < |p| {
      RunRangesAt(day, p, k);
      assert r[k] == q[k];
      assert p[k] == runs[k];
    } else {
      assert r[k] == RunRange(day, Last(runs));
    }
  }

  /** Runs usable as ranges that step by 30 minutes. */
  predicate HalfHourRuns(runs: seq<seq<int>>) {
    forall k :: 0 <= k < |runs| ==> GoodRun(runs[k]) && Steps(runs[k], SlotMinutes)
  }

  lemma {:induction false} CellsOfRun(run: seq<int>)
    requires |run| > 0 && Steps(run, SlotMinutes)
    ensures Cells(run[0], Last(run) + SlotMinutes) == run
    decreases |run|
  {
    if |run| == 1 {
      assert Cells(run[0] + SlotMinutes, Last(run) + SlotMinutes) == [];
    } else {
      var rest := run[1..];
      assert Steps(rest, SlotMinutes) by {
        forall j | 0 < j < |rest|
          ensures rest[j] == rest[j - 1] + SlotMinutes
        {
          assert rest[j] == run[j + 1] && rest[j - 1] == run[j];
        }
      }
      CellsOfRun(rest);
      StepsArithmetic(run, SlotMinutes, |run| - 1);
      assert run == [run[0]] + rest;
    }
  }

  /** Reading the ranges of a list of runs back gives the runs laid end to end. */
  lemma {:induction false} ExpandRunRanges(day: string, runs: seq<seq<int>>)
    requires HalfHourRuns(runs)
    ensures GoodRuns(runs) && ExpandAll(RunRanges(day, runs)) == Flatten(runs)
  {
    if |runs| > 0 {
      var p := runs[..|runs| - 1];
      HalfHourPrefix(runs);
      ExpandRunRanges(day, p);
      var rr := RunRanges(day, runs);
      var last := RunRange(day, Last(runs));
      assert rr == RunRanges(day, p) + [last];
      Seqs.SnocParts(RunRanges(day, p), last);
      CellsOfRun(Last(runs));
      assert Expand(last) == Last(runs);
    }
  }

  lemma HalfHourPrefix(runs: seq<seq<int>>)
    requires HalfHourRuns(runs) && |runs| > 0
    ensures HalfHourRuns(runs[..|runs| - 1])
  {
    var p := runs[..|runs| - 1];
    forall k | 0 <= k < |p|
      ensures p[k] == runs[k]
    {
    }
  }

  lemma DayRunsHalfHour(slots: seq<Slot>, d: string)
    ensures HalfHourRuns(DayRuns(slots, d))
  {
    var t := Seqs.Sort(DayMinutes(slots, d));
    RunsShape(t, SlotMinutes);
    DayRunsGood(slots, d);
    var runs := DayRuns(slots, d);
    assert runs == Runs(t, SlotMinutes);
    forall k | 0 <= k < |runs|
      ensures GoodRun(runs[k]) && Steps(runs[k], SlotMinutes)
    {
      assert runs[k] == Runs(t, SlotMinutes)[k];
    }
  }

  /**
   * Round trip for one day: reading the day's ranges back as half-hour cells
   * gives the starts of the day's slots, sorted.
   */
  lemma DayRoundTrip(slots: seq<Slot>, d: string)
    ensures ExpandAll(DayRanges(slots, d)) == Seqs.Sort(DayMinutes(slots, d))
  {
    DayRunsHalfHour(slots, d);
    ExpandRunRanges(d, DayRuns(slots, d));
    RunsFlatten(Seqs.Sort(DayMinutes(slots, d)), SlotMinutes);
  }

  /** The ranges of the day `d`. */
  function OnDay(d: string): TimeRange -> bool {
    (r: TimeRange) => r.day == d
  }

  lemma RunRangesDay(day: string, runs: seq<seq<int>>)
    requires GoodRuns(runs)
    ensures forall k :: 0 <= k < |RunRanges(day, runs)| ==> RunRanges(day, runs)[k].day == day
  {
    forall k | 0 <= k < |RunRanges(day, runs)|
      ensures RunRanges(day, runs)[k].day == day
    {
      RunRangesAt(day, runs, k);
    }
  }

  /** A day no slot names has no ranges. */
  lemma AbsentDayRanges(slots: seq<Slot>, d: string)
    requires d !in DayOrder(slots)
    ensures DayRanges(slots, d) == []
  {
    DayMinutesAbsent(slots, d);
  }

  lemma {:induction false} RangesOfDaysFilter(slots: seq<Slot>, days: seq<string>, d: string)
    requires Seqs.NoDuplicates(days)
    ensures Seqs.Filter(RangesOfDays(slots, days), OnDay(d)) == if d in days then DayRanges(slots, d) else []
  {
    if |days| > 0 {
      var p := days[..|days| - 1];
      var e := Last(days);
      assert Seqs.NoDuplicates(p);
      RangesOfDaysFilter(slots, p, d);
      Seqs.FilterAppend(RangesOfDays(slots, p), DayRanges(slots, e), OnDay(d));
      DayRunsGood(slots, e);
      RunRangesDay(e, DayRuns(slots, e));
      if e == d {
        Seqs.FilterAll(DayRanges(slots, e), OnDay(d));
        assert d !in p;
      } else {
        Seqs.FilterNone(DayRanges(slots, e), OnDay(d));
        assert d in days <==> d in p;
      }
    }
  }

  /** The report's ranges for day `d`, in report order, are that day's own ranges. */
  lemma CondenseByDay(slots: seq<Slot>, d: string)
    ensures Seqs.Filter(Condense(slots), OnDay(d)) == DayRanges(slots, d)
  {
    RangesOfDaysFilter(slots, DayOrder(slots), d);
    if d !in DayOrder(slots) {
      AbsentDayRanges(slots, d);
    }
  }

  /**
   * Round trip for the report: the ranges it lists for day `d`, read back as
   * half-hour cells, are the starts of the slots of day `d`, sorted.
   */
  lemma CondenseRoundTrip(slots: seq<Slot>, d: string)
    ensures ExpandAll(Seqs.Filter(Condense(slots), OnDay(d))) == Seqs.Sort(DayMinutes(slots, d))
  {
    CondenseByDay(slots, d);
    DayRoundTrip(slots, d);
  }

  /** Only an empty selection condenses to no ranges at all. */
  lemma CondenseEmptyIff(slots: seq<Slot>)
    ensures Condense(slots) == [] <==> |slots| == 0
  {
    if |slots| > 0 {
      var d := slots[0].day;
      DayOrderMembers(slots);
      DayMinutesPresent(slots, d);
      CondenseByDay(slots, d);
      assert |DayRanges(slots, d)| > 0;
    }
  }

  /** `r1` follows `r0`: it starts no earlier than `r0`'s last cell, and not where `r0` ends. */
  predicate InOrder(r0: TimeRange, r1: TimeRange) {
    && r0.startMin <= r1.startMin
    && r0.endMin - SlotMinutes <= r1.startMin
    && r0.endMin != r1.startMin
  }

  /** The range of the k-th run of day `d`. */
  lemma DayRangeAt(slots: seq<Slot>, d: string, k: nat)
    requires k < |DayRuns(slots, d)|
    ensures |DayRanges(slots, d)| == |DayRuns(slots, d)|
    ensures var run := DayRuns(slots, d)[k];
      var r := DayRanges(slots, d)[k];
      |run| > 0 && r.startMin == run[0] && r.endMin == Last(run) + SlotMinutes
      && r.startMin < r.endMin
  {
    DayRunsHalfHour(slots, d);
    RunRangesAt(d, DayRuns(slots, d), k);
    var run := DayRuns(slots, d)[k];
    StepsArithmetic(run, SlotMinutes, |run| - 1);
  }

  /**
   * A day's ranges are each nonempty and come in order: every one starts no
   * earlier than the previous one's last cell, and never right where the
   * previous one ends (that cell would have extended it).
   */
  lemma DayRangesOrdered(slots: seq<Slot>, d: string)
    ensures var rs := DayRanges(slots, d);
      && (forall k :: 0 <= k < |rs| ==> rs[k].startMin < rs[k].endMin)
      && (forall k :: 0 < k < |rs| ==> InOrder(rs[k - 1], rs[k]))
  {
    var rs := DayRanges(slots, d);
    forall k | 0 <= k < |rs|
      ensures rs[k].startMin < rs[k].endMin
    {
      DayRunsHalfHour(slots, d);
      DayRangeAt(slots, d, k);
    }
    forall k | 0 < k < |rs|
      ensures InOrder(rs[k - 1], rs[k])
    {
      InOrderAt(slots, d, k);
    }
  }

  lemma InOrderAt(slots: seq<Slot>, d: string, k: nat)
    requires 0 < k < |DayRanges(slots, d)|
    ensures InOrder(DayRanges(slots, d)[k - 1], DayRanges(slots, d)[k])
  {
    var t := Seqs.Sort(DayMinutes(slots, d));
    var runs := DayRuns(slots, d);
    assert runs == Runs(t, SlotMinutes);
    DayRangeAt(slots, d, k - 1);
    DayRangeAt(slots, d, k);
    DayRunsHalfHour(slots, d);
    StepsArithmetic(runs[k - 1], SlotMinutes, |runs[k - 1]| - 1);
    RunsFollowAt(t, SlotMinutes, k, false);
  }

  /**
   * When no two slots of the day start at the same minute and every start is
   * on the half hour, a day's ranges are separated by at least one free cell.
   */
  lemma DayRangesApart(slots: seq<Slot>, d: string)
    requires Seqs.NoDuplicates(DayMinutes(slots, d))
    requires forall i :: 0 <= i < |slots| ==> Minutes(slots[i].time) % SlotMinutes == 0
    ensures var rs := DayRanges(slots, d);
      forall k :: 0 < k < |rs| ==> rs[k - 1].endMin < rs[k].startMin
  {
    forall k | 0 < k < |DayRanges(slots, d)|
      ensures DayRanges(slots, d)[k - 1].endMin < DayRanges(slots, d)[k].startMin
    {
      ApartAt(slots, d, k);
    }
  }

  lemma ApartAt(slots: seq<Slot>, d: string, k: nat)
    requires Seqs.NoDuplicates(DayMinutes(slots, d))
    requires forall i :: 0 <= i < |slots| ==> Minutes(slots[i].time) % SlotMinutes == 0
    requires 0 < k < |DayRanges(slots, d)|
    ensures DayRanges(slots, d)[k - 1].endMin < DayRanges(slots, d)[k].startMin
  {
    var m := DayMinutes(slots, d);
    var t := Seqs.Sort(m);
    var runs := DayRuns(slots, d);
    assert runs == Runs(t, SlotMinutes);
    DayRangeAt(slots, d, k - 1);
    DayRangeAt(slots, d, k);
    DayRunEnds(slots, d, k - 1);
    DayRunEnds(slots, d, k);
    var x, y := Last(runs[k - 1]), runs[k][0];
    Aligned(slots, d, x);
    Aligned(slots, d, y);
    Seqs.SortDistinct(m);
    RunsFollowAt(t, SlotMinutes, k, true);
    AlignedGap(x, y);
  }

  lemma AlignedGap(x: int, y: int)
    requires x % SlotMinutes == 0 && y % SlotMinutes == 0 && x < y
    ensures x + SlotMinutes <= y
  {
    assert x == SlotMinutes * (x / SlotMinutes) && y == SlotMinutes * (y / SlotMinutes);
    assert x / SlotMinutes < y / SlotMinutes;
  }

  /** The first and last cells of every run of day `d` are minutes of that day. */
  lemma DayRunEnds(slots: seq<Slot>, d: string, k: nat)
    requires k < |DayRuns(slots, d)|
    ensures |DayRuns(slots, d)[k]| > 0
    ensures DayRuns(slots, d)[k][0] in Seqs.Sort(DayMinutes(slots, d))
    ensures Last(DayRuns(slots, d)[k]) in Seqs.Sort(DayMinutes(slots, d))
  {
    var t := Seqs.Sort(DayMinutes(slots, d));
    assert DayRuns(slots, d) == Runs(t, SlotMinutes);
    RunEnds(t, SlotMinutes, k);
  }

  lemma Aligned(slots: seq<Slot>, d: string, x: int)
    requires forall i :: 0 <= i < |slots| ==> Minutes(slots[i].time) % SlotMinutes == 0
    requires x in Seqs.Sort(DayMinutes(slots, d))
    ensures x % SlotMinutes == 0
  {
    Seqs.SortMembership(DayMinutes(slots, d), x);
    DayMinutesMember(slots, d, x);
  }

  /** Every slot of the selection ends, 30 minutes after its start, before hour 100. */
  predicate Writable(slots: seq<Slot>) {
    forall i :: 0 <= i < |slots| ==> Minutes(slots[i].time) + SlotMinutes < 6000
  }

  /** The last cell of every range of day `d` is the start of one of that day's slots. */
  lemma DayRangeLastCell(slots: seq<Slot>, d: string, k: nat)
    requires k < |DayRanges(slots, d)|
    ensures exists i :: 0 <= i < |slots| && slots[i].day == d && Minutes(slots[i].time) == DayRanges(slots, d)[k].endMin - SlotMinutes
  {
    DayRangeAt(slots, d, k);
    DayRunEnds(slots, d, k);
    var x := Last(DayRuns(slots, d)[k]);
    Seqs.SortMembership(DayMinutes(slots, d), x);
    DayMinutesMember(slots, d, x);
  }

  /** Then both texts of every range of the report read back as its minutes. */
  lemma CondenseTextsRead(slots: seq<Slot>, r: TimeRange)
    requires Writable(slots) && r in Condense(slots)
    ensures TextMinutes(StartText(r)) == Some(r.startMin) && TextMinutes(EndText(r)) == Some(r.endMin)
  {
    var d := r.day;
    CondenseByDay(slots, d);
    Seqs.FilterMembership(Condense(slots), OnDay(d), r);
    var rs := DayRanges(slots, d);
    var k :| 0 <= k < |rs| && rs[k] == r;
    DayRangeLastCell(slots, d, k);
    DayRangesOrdered(slots, d);
    RangeTextsRead(r);
  }

  /**
   * The example in `condenseSlots`' own comment: Monday 08:00, 08:30 and
   * 10:00 condense to 08:00–09:00 and 10:00–10:30.
   */
  lemma CondenseDocExample()
    ensures var slots := [Slot("Lunes", Clock(8, 0)), Slot("Lunes", Clock(8, 30)), Slot("Lunes", Clock(10, 0))];
      Condense(slots) == [TimeRange("Lunes", 480, 540), TimeRange("Lunes", 600, 630)]
  {
    ExampleDay("Lunes");
  }

  lemma ExampleDay(d: string)
    ensures var slots := [Slot(d, Clock(8, 0)), Slot(d, Clock(8, 30)), Slot(d, Clock(10, 0))];
      Condense(slots) == [TimeRange(d, 480, 540), TimeRange(d, 600, 630)]
  {
    var slots := [Slot(d, Clock(8, 0)), Slot(d, Clock(8, 30)), Slot(d, Clock(10, 0))];
    ExampleGroups(d);
    ExampleRanges(d);
    assert [d][..0] == [];
    assert RangesOfDays(slots, [d]) == DayRanges(slots, d);
  }

  lemma ExampleRanges(d: string)
    requires DayMinutes([Slot(d, Clock(8, 0)), Slot(d, Clock(8, 30)), Slot(d, Clock(10, 0))], d) == [480, 510, 600]
    ensures var slots := [Slot(d, Clock(8, 0)), Slot(d, Clock(8, 30)), Slot(d, Clock(10, 0))];
      DayRanges(slots, d) == [TimeRange(d, 480, 540), TimeRange(d, 600, 630)]
  {
    var slots := [Slot(d, Clock(8, 0)), Slot(d, Clock(8, 30)), Slot(d, Clock(10, 0))];
    SortSorted(DayMinutes(slots, d));
    ExampleRuns();
    ExampleRunRanges(d, DayRuns(slots, d));
  }

  /** Sorting what is already in order changes nothing. */
  lemma SortSorted(s: seq<int>)
    requires Seqs.Sorted(s)
    ensures Seqs.Sort(s) == s
  {
    Seqs.SortedUnique(Seqs.Sort(s), s);
  }

  lemma ExampleRunRanges(d: string, runs: seq<seq<int>>)
    requires runs == [[480, 510], [600]]
    ensures GoodRuns(runs) && RunRanges(d, runs) == [TimeRange(d, 480, 540), TimeRange(d, 600, 630)]
  {
    RunRangesAt(d, runs, 0);
    RunRangesAt(d, runs, 1);
  }

  lemma ExampleGroups(d: string)
    ensures var slots := [Slot(d, Clock(8, 0)), Slot(d, Clock(8, 30)), Slot(d, Clock(10, 0))];
      DayOrder(slots) == [d] && DayMinutes(slots, d) == [480, 510, 600]
  {
    var s0, s1, s2 := Slot(d, Clock(8, 0)), Slot(d, Clock(8, 30)), Slot(d, Clock(10, 0));
    var one := [s0];
    var two := [s0, s1];
    var slots := [s0, s1, s2];
    assert slots[..2] == two && two[..1] == one && one[..0] == [];
    assert DayOrder(one) == [d];
    assert DayOrder(two) == [d];
    assert DayOrder(slots) == [d];
    assert DayMinutes(one, d) == [480];
    assert DayMinutes(two, d) == [480, 510];
    assert DayMinutes(slots, d) == [480, 510, 600];
  }

  lemma ExampleRuns()
    ensures Runs([480, 510, 600], SlotMinutes) == [[480, 510], [600]]
  {
    var a := [480, 510];
    assert [480, 510, 600][..2] == a && a[..1] == [480];
    assert Runs([480], SlotMinutes) == [[480]];
    RunsSnoc(a, SlotMinutes);
    assert [480] + [510] == a;
    assert Runs(a, SlotMinutes) == [a];
    RunsSnoc([480, 510, 600], SlotMinutes);
  }

  /** And those ranges are written `08:00`, `09:00`, `10:00` and `10:30`. */
  lemma CondenseDocExampleTexts()
    ensures StartText(TimeRange("Lunes", 480, 540)) == "08:00" && EndText(TimeRange("Lunes", 480, 540)) == "09:00"
    ensures StartText(TimeRange("Lunes", 600, 630)) == "10:00" && EndText(TimeRange("Lunes", 600, 630)) == "10:30"
  {
    assert Text.DecimalText(0) == "0" && Text.DecimalText(8) == "8" && Text.DecimalText(9) == "9";
    assert Text.DecimalText(10) == "10" && Text.DecimalText(30) == "30";
  }
}
