/**
 * The server report's `condenseSlots` and `createRange`: a version's slots
 * grouped by day (in first-appearance order), each day's minutes sorted and
 * cut into runs 30 minutes apart, and each run written as a range from its
 * first slot's start to 30 minutes after its last slot's start.
 */
module Condensation {
  import opened Wrappers
  import opened Text
  import opened TimeGrid
  import opened Continuity
  import opened DayGroups
  import Seqs

  /**
   * A report range `[start, end)` of one day. The ends are kept as minutes
   * after midnight; `StartText` and `EndText` are the `HH:MM` texts the
   * range is written with.
   */
  datatype TimeRange = TimeRange(day: string, startMin: nat, endMin: nat)

  /** `createRange`'s `format`: zero-padded hours `m div 60`, a colon, zero-padded minutes `m mod 60`. */
  function StartText(r: TimeRange): string {
    MinutesText(r.startMin)
  }

  function EndText(r: TimeRange): string {
    MinutesText(r.endMin)
  }

  /** Both texts of a range below hour 100 read back as the minutes it was made from. */
  lemma RangeTextsRead(r: TimeRange)
    requires r.startMin < 6000 && r.endMin < 6000
    ensures TextMinutes(StartText(r)) == Some(r.startMin) && TextMinutes(EndText(r)) == Some(r.endMin)
  {
    MinutesTextReads(r.startMin);
    MinutesTextReads(r.endMin);
  }

  /** The minutes after midnight that day `d` collects, in slot order. */
  function DayMinutes(slots: seq<Slot>, d: string): seq<int> {
    if |slots| == 0 then []
    else
      var s := slots[|slots| - 1];
      DayMinutes(slots[..|slots| - 1], d) + (if s.day == d then [Minutes(s.time) as int] else [])
  }

  lemma {:induction false} DayMinutesNonNegative(slots: seq<Slot>, d: string)
    ensures forall i :: 0 <= i < |DayMinutes(slots, d)| ==> DayMinutes(slots, d)[i] >= 0
  {
    if |slots| > 0 {
      DayMinutesNonNegative(slots[..|slots| - 1], d);
    }
  }

  /** A run usable as a range: nonempty, starting and ending at non-negative minutes. */
  predicate GoodRun(run: seq<int>) {
    |run| > 0 && run[0] >= 0 && Last(run) >= 0
  }

  predicate GoodRuns(runs: seq<seq<int>>) {
    forall k :: 0 <= k < |runs| ==> GoodRun(runs[k])
  }

  /** The runs of non-negative minutes are usable as ranges. */
  lemma RunsGood(s: seq<int>)
    requires forall i :: 0 <= i < |s| ==> s[i] >= 0
    ensures GoodRuns(Runs(s, SlotMinutes))
  {
    var rs := Runs(s, SlotMinutes);
    RunsShape(s, SlotMinutes);
    RunsMembers(s, SlotMinutes);
    forall k | 0 <= k < |rs|
      ensures GoodRun(rs[k])
    {
      assert rs[k][0] in s;
      assert rs[k][|rs[k]| - 1] in s;
    }
  }

  /** Sorting keeps every value non-negative. */
  lemma SortNonNegative(s: seq<int>)
    requires forall i :: 0 <= i < |s| ==> s[i] >= 0
    ensures forall i :: 0 <= i < |Seqs.Sort(s)| ==> Seqs.Sort(s)[i] >= 0
  {
    var t := Seqs.Sort(s);
    forall i | 0 <= i < |t|
      ensures t[i] >= 0
    {
      assert t[i] in multiset(s);
    }
  }

  /** One run as a range: from its first start to 30 minutes after its last start. */
  function RunRange(day: string, run: seq<int>): TimeRange
    requires GoodRun(run)
  {
    TimeRange(day, run[0], Last(run) + SlotMinutes)
  }

  function RunRanges(day: string, runs: seq<seq<int>>): (r: seq<TimeRange>)
    requires GoodRuns(runs)
    ensures |r| == |runs|
  {
    if |runs| == 0 then []
    else RunRanges(day, runs[..|runs| - 1]) + [RunRange(day, Last(runs))]
  }

  /** The sorted minutes of day `d` cut into runs 30 minutes apart. */
  function DayRuns(slots: seq<Slot>, d: string): seq<seq<int>> {
    Runs(Seqs.Sort(DayMinutes(slots, d)), SlotMinutes)
  }

  lemma DayRunsGood(slots: seq<Slot>, d: string)
    ensures GoodRuns(DayRuns(slots, d))
  {
    DayMinutesNonNegative(slots, d);
    SortNonNegative(DayMinutes(slots, d));
    RunsGood(Seqs.Sort(DayMinutes(slots, d)));
  }

  function DayRanges(slots: seq<Slot>, d: string): seq<TimeRange> {
    DayRunsGood(slots, d);
    RunRanges(d, DayRuns(slots, d))
  }

  /** The ranges of the listed days, day after day. */
  function RangesOfDays(slots: seq<Slot>, days: seq<string>): seq<TimeRange> {
    if |days| == 0 then []
    else RangesOfDays(slots, days[..|days| - 1]) + DayRanges(slots, Last(days))
  }

  /** What `condenseSlots` returns. */
  function Condense(slots: seq<Slot>): seq<TimeRange> {
    RangesOfDays(slots, DayOrder(slots))
  }

  /** `condenseSlots`: group by day, then per day sort and walk the minutes with `start` and `prev`. */
  method CondenseSlots(slots: seq<Slot>) returns (result: seq<TimeRange>)
    ensures result == Condense(slots)
  {
    if |slots| == 0 {
      return [];
    }
    var days, slotsByDay := GroupMinutes(slots);
    result := [];
    var k := 0;
    while k < |days|
      invariant 0 <= k <= |days|
      invariant result == RangesOfDays(slots, days[..k])
    {
      var day := days[k];
      var ranges := CondenseOneDay(slots, day, slotsByDay[day]);
      RangesOfDaysStep(slots, days, k);
      result := result + ranges;
      k := k + 1;
    }
    assert days[..k] == days;
  }

  lemma RangesOfDaysStep(slots: seq<Slot>, days: seq<string>, k: nat)
    requires k < |days|
    ensures RangesOfDays(slots, days[..k + 1]) == RangesOfDays(slots, days[..k]) + DayRanges(slots, days[k])
  {
    assert days[..k + 1][..k] == days[..k];
  }

  /** One day of `condenseSlots`: sort the day's minutes, then walk them. */
  method CondenseOneDay(slots: seq<Slot>, day: string, minutes: seq<int>) returns (ranges: seq<TimeRange>)
    requires day in DayOrder(slots)
    requires minutes == DayMinutes(slots, day)
    ensures ranges == DayRanges(slots, day)
  {
    var times := Seqs.Sort(minutes);
    DayOrderMembers(slots);
    DayMinutesPresent(slots, day);
    DayMinutesNonNegative(slots, day);
    SortNonNegative(minutes);
    ranges := CondenseDay(day, times);
  }

  /** A day some slot names has at least one minute value. */
  lemma {:induction false} DayMinutesPresent(slots: seq<Slot>, d: string)
    requires exists i :: 0 <= i < |slots| && slots[i].day == d
    ensures |DayMinutes(slots, d)| > 0
  {
    var p := slots[..|slots| - 1];
    if slots[|slots| - 1].day != d {
      var i :| 0 <= i < |slots| && slots[i].day == d;
      assert p[i] == slots[i];
      DayMinutesPresent(p, d);
    }
  }

  /** The grouping loop: a day's key is created on its first slot and every slot's minutes are pushed. */
  method GroupMinutes(slots: seq<Slot>) returns (days: seq<string>, slotsByDay: map<string, seq<int>>)
    ensures days == DayOrder(slots)
    ensures forall d :: d in slotsByDay <==> d in days
    ensures forall d :: d in slotsByDay ==> slotsByDay[d] == DayMinutes(slots, d)
  {
    days := [];
    slotsByDay := map[];
    var i := 0;
    while i < |slots|
      invariant 0 <= i <= |slots|
      invariant days == DayOrder(slots[..i])
      invariant forall d :: d in slotsByDay <==> d in days
      invariant forall d :: d in slotsByDay ==> slotsByDay[d] == DayMinutes(slots[..i], d)
    {
      var slot := slots[i];
      MinutesStep(slots, i, days, slotsByDay);
      if slot.day !in slotsByDay {
        slotsByDay := slotsByDay[slot.day := []];
        days := days + [slot.day];
      }
      slotsByDay := slotsByDay[slot.day := slotsByDay[slot.day] + [Minutes(slot.time) as int]];
      i := i + 1;
    }
    assert slots[..i] == slots;
  }

  lemma MinutesStep(slots: seq<Slot>, i: nat, days: seq<string>, m: map<string, seq<int>>)
    requires i < |slots|
    requires days == DayOrder(slots[..i])
    requires forall d :: d in m <==> d in days
    requires forall d :: d in m ==> m[d] == DayMinutes(slots[..i], d)
    ensures var s := slots[i];
      var m0 := if s.day in m then m else m[s.day := []];
      var days' := if s.day in m then days else days + [s.day];
      var m1 := m0[s.day := m0[s.day] + [Minutes(s.time) as int]];
      && days' == DayOrder(slots[..i + 1])
      && (forall d :: d in m1 <==> d in days')
      && (forall d :: d in m1 ==> m1[d] == DayMinutes(slots[..i + 1], d))
  {
    var s := slots[i];
    assert slots[..i + 1] == slots[..i] + [s];
    DayOrderSnoc(slots[..i], s);
    assert slots[..i + 1][..i] == slots[..i];
    if s.day !in m {
      DayMinutesAbsent(slots[..i], s.day);
    }
  }

  lemma {:induction false} DayMinutesAbsent(slots: seq<Slot>, d: string)
    requires d !in DayOrder(slots)
    ensures DayMinutes(slots, d) == []
  {
    if |slots| > 0 {
      var p := slots[..|slots| - 1];
      assert d != slots[|slots| - 1].day;
      assert d !in DayOrder(p);
      DayMinutesAbsent(p, d);
    }
  }

  /** The per-day loop: `start` opens the current range, `prev` is the last minute seen. */
  method CondenseDay(day: string, times: seq<int>) returns (ranges: seq<TimeRange>)
    requires |times| > 0
    requires forall i :: 0 <= i < |times| ==> times[i] >= 0
    ensures GoodRuns(Runs(times, SlotMinutes)) && ranges == RunRanges(day, Runs(times, SlotMinutes))
  {
    ranges := [];
    var start := times[0];
    var prev := times[0];
    ghost var done: seq<seq<int>> := [];
    ghost var cur: seq<int> := [times[0]];
    assert times[..1] == [times[0]];
    var i := 1;
    while i < |times|
      invariant WalkState(day, times, i, done, cur, ranges)
      invariant start == cur[0] && prev == Last(cur)
    {
      WalkStep(day, times, i, done, cur, ranges);
      if times[i] != prev + SlotMinutes {
        ranges := ranges + [TimeRange(day, start, prev + SlotMinutes)];
        done := done + [cur];
        cur := [times[i]];
        start := times[i];
      } else {
        cur := cur + [times[i]];
      }
      prev := times[i];
      i := i + 1;
    }
    WalkEnd(day, times, done, cur, ranges);
    ranges := ranges + [TimeRange(day, start, prev + SlotMinutes)];
  }

  /** The walk has read `times[..i]`: the closed runs are `done`, written out as `ranges`, and `cur` is open. */
  ghost predicate WalkState(day: string, times: seq<int>, i: nat, done: seq<seq<int>>, cur: seq<int>, ranges: seq<TimeRange>) {
    && 1 <= i <= |times|
    && (forall j :: 0 <= j < |times| ==> times[j] >= 0)
    && Runs(times[..i], SlotMinutes) == done + [cur]
    && GoodRuns(done) && |cur| > 0 && cur[0] >= 0
    && Last(cur) == times[i - 1]
    && ranges == RunRanges(day, done)
  }

  lemma WalkStep(day: string, times: seq<int>, i: nat, done: seq<seq<int>>, cur: seq<int>, ranges: seq<TimeRange>)
    requires WalkState(day, times, i, done, cur, ranges) && i < |times|
    ensures times[i] != Last(cur) + SlotMinutes ==>
      WalkState(day, times, i + 1, done + [cur], [times[i]], ranges + [TimeRange(day, cur[0], Last(cur) + SlotMinutes)])
    ensures times[i] == Last(cur) + SlotMinutes ==> WalkState(day, times, i + 1, done, cur + [times[i]], ranges)
  {
    RunsScanStep(times, i, SlotMinutes, done, cur);
    RunRangesSnoc(day, done, cur);
  }

  lemma WalkEnd(day: string, times: seq<int>, done: seq<seq<int>>, cur: seq<int>, ranges: seq<TimeRange>)
    requires WalkState(day, times, |times|, done, cur, ranges)
    ensures GoodRuns(Runs(times, SlotMinutes))
    ensures RunRanges(day, Runs(times, SlotMinutes)) == ranges + [TimeRange(day, cur[0], Last(cur) + SlotMinutes)]
  {
    assert times[..|times|] == times;
    RunRangesSnoc(day, done, cur);
  }

  lemma RunRangesSnoc(day: string, done: seq<seq<int>>, cur: seq<int>)
    requires GoodRuns(done) && GoodRun(cur)
    ensures GoodRuns(done + [cur])
    ensures RunRanges(day, done + [cur]) == RunRanges(day, done) + [TimeRange(day, cur[0], Last(cur) + SlotMinutes)]
  {
    assert (done + [cur])[..|done|] == done;
  }
}
