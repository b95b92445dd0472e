/**
 * The server's continuity validator for a submitted availability
 * (`validateTimeSlots`). A first pass reads every slot, rejecting an unknown
 * day or a time outside 07:30-22:30 and grouping the accepted times by day;
 * a second pass takes the days in the order they first appeared, sorts each
 * day's times and rejects the first run of consecutive half hours that is
 * shorter than two hours.
 */
module SlotValidation {
  import opened Wrappers
  import opened TimeGrid
  import opened Continuity
  import opened DayGroups
  import Seqs

  datatype SlotError =
    | InvalidDay(slot: Slot)
    | OutOfRange(slot: Slot)
    | IsolatedBlock(day: string, start: string)

  /** The text of the BadRequest exception for each error. */
  function Message(e: SlotError): string {
    match e
    case InvalidDay(slot) => "Día inválido en bloque: " + SlotId(slot)
    case OutOfRange(slot) => "Hora fuera de rango en bloque: " + SlotId(slot)
    case IsolatedBlock(day, start) =>
      "Bloque aislado detectado en " + day + " a las " + start
      + ". Mínimo 2 horas consecutivas (4 bloques)."
  }

  /** A slot the first pass accepts: a known day and a time from 07:30 to before 22:30. */
  predicate SlotOk(s: Slot) {
    s.day in Days && TimeToOffset(s.time).Some?
  }

  /** The error the first pass raises for a slot it refuses; the day is checked before the time. */
  function SlotCheck(s: Slot): (r: Option<SlotError>)
    ensures r.None? <==> SlotOk(s)
    ensures r.Some? ==> (r.value.InvalidDay? || r.value.OutOfRange?) && r.value.slot == s
    ensures r.Some? ==> (r.value.InvalidDay? <==> s.day !in Days)
  {
    if s.day !in Days then Some(InvalidDay(s))
    else if TimeToOffset(s.time).None? then Some(OutOfRange(s))
    else None
  }

  /** Position of the first slot the first pass refuses. */
  function FirstBadIndex(slots: seq<Slot>): (r: Option<nat>)
    ensures r.None? <==> forall i :: 0 <= i < |slots| ==> SlotOk(slots[i])
    ensures r.Some? ==> r.value < |slots| && !SlotOk(slots[r.value])
    ensures r.Some? ==> forall i :: 0 <= i < r.value ==> SlotOk(slots[i])
  {
    if |slots| == 0 then None
    else if !SlotOk(slots[0]) then Some(0)
    else
      match FirstBadIndex(slots[1..])
      case None => None
      case Some(k) => Some(k + 1)
  }

  /** The scaled indices the first pass pushes for day `d`, in slot order. */
  function DayOffsets(slots: seq<Slot>, d: string): (offs: seq<int>)
    ensures forall i :: 0 <= i < |offs| ==> offs[i] >= 0
  {
    if |slots| == 0 then []
    else
      var s := slots[|slots| - 1];
      DayOffsets(slots[..|slots| - 1], d) + Pushed(s, d)
  }

  /** The runs of one day's sorted indices, in scaled form: consecutive means 30 apart. */
  function DayRuns(slots: seq<Slot>, d: string): seq<seq<int>> {
    Runs(Seqs.Sort(DayOffsets(slots, d)), SlotMinutes)
  }

  /** Every run of consecutive half hours on day `d` lasts at least two hours. */
  predicate DayContinuous(slots: seq<Slot>, d: string) {
    forall k :: 0 <= k < |DayRuns(slots, d)| ==> |DayRuns(slots, d)[k]| >= MinRunLength
  }

  /** Where the first short run of day `d` starts, if it has one. */
  function ShortBlockStart(slots: seq<Slot>, d: string): Option<nat> {
    var sorted := Seqs.Sort(DayOffsets(slots, d));
    match ShortRunStart(sorted, SlotMinutes)
    case None => None
    case Some(o) =>
      Seqs.SortMembership(DayOffsets(slots, d), o);
      Some(o)
  }

  /** A day has a short run exactly when it is not continuous; the reported start is that run's first index. */
  lemma ShortBlockStartIff(slots: seq<Slot>, d: string)
    ensures ShortBlockStart(slots, d).None? <==> DayContinuous(slots, d)
    ensures ShortBlockStart(slots, d).Some? ==>
      var runs := DayRuns(slots, d);
      && FirstShortRun(runs).Some?
      && |runs[FirstShortRun(runs).value]| > 0
      && ShortBlockStart(slots, d).value == runs[FirstShortRun(runs).value][0]
  {
    var sorted := Seqs.Sort(DayOffsets(slots, d));
    var runs := Runs(sorted, SlotMinutes);
    assert DayRuns(slots, d) == runs;
    var r := ShortRunStart(sorted, SlotMinutes);
    assert ShortBlockStart(slots, d).None? <==> r.None?;
    ShortRunStartIsRunStart(sorted, SlotMinutes);
    if r.Some? {
      var k := FirstShortRun(runs).value;
      assert |runs[k]| < MinRunLength;
    }
  }

  /** The start of each listed day's first short run, if it has one. */
  function Starts(slots: seq<Slot>, days: seq<string>): (r: seq<Option<nat>>)
    ensures |r| == |days|
    ensures forall j :: 0 <= j < |days| ==> r[j] == ShortBlockStart(slots, days[j])
  {
    seq(|days|, j requires 0 <= j < |days| => ShortBlockStart(slots, days[j]))
  }

  /** The position of the first present value. */
  function FirstSome(xs: seq<Option<nat>>): (r: Option<nat>)
    ensures r.None? <==> forall j :: 0 <= j < |xs| ==> xs[j].None?
    ensures r.Some? ==> r.value < |xs| && xs[r.value].Some?
    ensures r.Some? ==> forall j :: 0 <= j < r.value ==> xs[j].None?
  {
    if |xs| == 0 then None
    else if xs[0].Some? then Some(0)
    else
      match FirstSome(xs[1..])
      case None => None
      case Some(k) => Some(k + 1)
  }

  lemma StartsAt(slots: seq<Slot>, days: seq<string>, k: nat, start: Option<int>)
    requires k < |days| && start == ShortRunStart(Seqs.Sort(DayOffsets(slots, days[k])), SlotMinutes)
    ensures Starts(slots, days)[k].None? <==> start.None?
    ensures start.Some? ==> Starts(slots, days)[k] == Some(start.value)
  {
  }

  lemma NoneUpTo(xs: seq<Option<nat>>, k: nat)
    requires k < |xs| && xs[k].None?
    requires forall j :: 0 <= j < k ==> xs[j].None?
    ensures forall j :: 0 <= j < k + 1 ==> xs[j].None?
  {
  }

  lemma FirstSomeAt(xs: seq<Option<nat>>, k: nat)
    requires k < |xs| && xs[k].Some?
    requires forall j :: 0 <= j < k ==> xs[j].None?
    ensures FirstSome(xs) == Some(k)
  {
  }

  /** The second pass over `days`: the first day with a short run, reported at the run's start. */
  function FirstIsolatedBlock(slots: seq<Slot>, days: seq<string>): Option<SlotError> {
    var starts := Starts(slots, days);
    match FirstSome(starts)
    case None => None
    case Some(k) => Some(IsolatedBlock(days[k], OffsetToTime(starts[k].value)))
  }

  /** What `validateTimeSlots` decides for a list of slots. */
  function Validate(slots: seq<Slot>): Outcome<SlotError> {
    match FirstBadIndex(slots)
    case Some(i) => Fail(SlotCheck(slots[i]).value)
    case None =>
      match FirstIsolatedBlock(slots, DayOrder(slots))
      case Some(e) => Fail(e)
      case None => Pass
  }

  /** The day map after the first pass: keys in first-appearance order, each day's indices in slot order. */
  datatype DayMap = DayMap(days: seq<string>, indices: map<string, seq<int>>)

  ghost predicate GroupsOf(m: DayMap, slots: seq<Slot>) {
    && m.days == DayOrder(slots)
    && (forall d :: d in m.indices <==> d in m.days)
    && (forall d :: d in m.indices ==> m.indices[d] == DayOffsets(slots, d))
  }

  /**
   * `validateTimeSlots`: the first pass, which stops at the first refused
   * slot, then the continuity pass over the days in key order.
   */
  method ValidateTimeSlots(slots: seq<Slot>) returns (r: Outcome<SlotError>)
    ensures r == Validate(slots)
  {
    var grouped := GroupSlots(slots);
    if grouped.Err? {
      return Fail(grouped.error);
    }
    var m := grouped.value;
    ghost var starts := Starts(slots, m.days);
    var k := 0;
    while k < |m.days|
      invariant 0 <= k <= |m.days|
      invariant forall j :: 0 <= j < k ==> starts[j].None?
    {
      var day := m.days[k];
      var indices := Seqs.Sort(m.indices[day]);
      DayOffsetsNonEmpty(slots, day);
      var start := ScanDay(indices);
      assert m.indices[day] == DayOffsets(slots, day);
      StartsAt(slots, m.days, k, start);
      if start.Some? {
        FirstSomeAt(starts, k);
        return Fail(IsolatedBlock(day, OffsetToTime(start.value)));
      }
      NoneUpTo(starts, k);
      k := k + 1;
    }
    return Pass;
  }

  /** The first pass: refuses the first slot with an unknown day or an out-of-range time, else groups by day. */
  method GroupSlots(slots: seq<Slot>) returns (r: Result<DayMap, SlotError>)
    ensures r.Err? <==> FirstBadIndex(slots).Some?
    ensures r.Err? ==> r.error == SlotCheck(slots[FirstBadIndex(slots).value]).value
    ensures r.Ok? ==> GroupsOf(r.value, slots)
  {
    var days: seq<string> := [];
    var dayMap: map<string, seq<int>> := map[];
    var i := 0;
    while i < |slots|
      invariant 0 <= i <= |slots|
      invariant forall j :: 0 <= j < i ==> SlotOk(slots[j])
      invariant GroupsOf(DayMap(days, dayMap), slots[..i])
    {
      var slot := slots[i];
      if slot.day !in Days {
        FirstBadAt(slots, i);
        return Err(InvalidDay(slot));
      }
      var offset := TimeToOffset(slot.time);
      if offset.None? {
        FirstBadAt(slots, i);
        return Err(OutOfRange(slot));
      }
      GroupStep(slots, i, days, dayMap);
      if slot.day !in dayMap {
        dayMap := dayMap[slot.day := []];
        days := days + [slot.day];
      }
      dayMap := dayMap[slot.day := dayMap[slot.day] + [offset.value]];
      i := i + 1;
    }
    assert slots[..i] == slots;
    return Ok(DayMap(days, dayMap));
  }

  lemma FirstBadAt(slots: seq<Slot>, i: nat)
    requires i < |slots| && !SlotOk(slots[i])
    requires forall j :: 0 <= j < i ==> SlotOk(slots[j])
    ensures FirstBadIndex(slots) == Some(i)
  {
  }

  /** Pushing an accepted slot's index under its day keeps the map equal to the grouping of the prefix. */
  lemma GroupStep(slots: seq<Slot>, i: nat, days: seq<string>, dayMap: map<string, seq<int>>)
    requires i < |slots| && SlotOk(slots[i])
    requires GroupsOf(DayMap(days, dayMap), slots[..i])
    ensures var d := slots[i].day;
      var m0 := if d in dayMap then dayMap else dayMap[d := []];
      var days' := if d in dayMap then days else days + [d];
      GroupsOf(DayMap(days', m0[d := m0[d] + [TimeToOffset(slots[i].time).value]]), slots[..i + 1])
  {
    var o := TimeToOffset(slots[i].time).value as int;
    PrefixSnoc(slots, i);
    OffsetsSnoc(slots, i, o);
    if slots[i].day !in dayMap {
      DayOffsetsAbsent(slots[..i], slots[i].day);
    }
    GroupMap(slots, i, days, dayMap, o);
  }

  /** What slot `i`, read as index `o`, adds under each day. */
  function Added(s: Slot, d: string, o: int): seq<int> {
    if s.day == d then [o] else []
  }

  lemma OffsetsSnoc(slots: seq<Slot>, i: nat, o: int)
    requires i < |slots| && SlotOk(slots[i]) && o == TimeToOffset(slots[i].time).value as int
    ensures forall e :: DayOffsets(slots[..i + 1], e) == DayOffsets(slots[..i], e) + Added(slots[i], e, o)
  {
    PrefixSnoc(slots, i);
  }

  /** The map update, with the slot's contribution given. */
  lemma GroupMap(slots: seq<Slot>, i: nat, days: seq<string>, dayMap: map<string, seq<int>>, o: int)
    requires i < |slots|
    requires GroupsOf(DayMap(days, dayMap), slots[..i])
    requires var d := slots[i].day;
      var prev := DayOrder(slots[..i]);
      DayOrder(slots[..i + 1]) == if d in prev then prev else prev + [d]
    requires forall e :: DayOffsets(slots[..i + 1], e) == DayOffsets(slots[..i], e) + Added(slots[i], e, o)
    requires slots[i].day !in dayMap ==> DayOffsets(slots[..i], slots[i].day) == []
    ensures var d := slots[i].day;
      var m0 := if d in dayMap then dayMap else dayMap[d := []];
      var days' := if d in dayMap then days else days + [d];
      GroupsOf(DayMap(days', m0[d := m0[d] + [o]]), slots[..i + 1])
  {
  }

  /** What one slot contributes to day `d`'s index list. */
  function Pushed(s: Slot, d: string): seq<int> {
    if s.day == d && TimeToOffset(s.time).Some? then [TimeToOffset(s.time).value as int] else []
  }

  /** A day no slot names has no indices. */
  lemma {:induction false} DayOffsetsAbsent(slots: seq<Slot>, d: string)
    requires d !in DayOrder(slots)
    ensures DayOffsets(slots, d) == []
  {
    if |slots| > 0 {
      var p := slots[..|slots| - 1];
      assert d != slots[|slots| - 1].day;
      assert d !in DayOrder(p);
      DayOffsetsAbsent(p, d);
    }
  }

  lemma PrefixSnoc(slots: seq<Slot>, i: nat)
    requires i < |slots| && SlotOk(slots[i])
    ensures var d := slots[i].day;
      var prev := DayOrder(slots[..i]);
      DayOrder(slots[..i + 1]) == if d in prev then prev else prev + [d]
    ensures forall e :: DayOffsets(slots[..i + 1], e) == DayOffsets(slots[..i], e) + Pushed(slots[i], e)
  {
    assert slots[..i + 1][..i] == slots[..i];
  }

  /**
   * The scan of one day's sorted indices: `currentRun` counts the current
   * run; at a break, or at the end, a run shorter than four is reported by
   * its first index.
   */
  method ScanDay(indices: seq<int>) returns (start: Option<int>)
    requires |indices| > 0
    ensures start == ShortRunStart(indices, SlotMinutes)
  {
    var currentRun := 1;
    var j := 1;
    ghost var done: seq<seq<int>> := [];
    ScanStart(indices, SlotMinutes);
    while j < |indices|
      invariant ScanState(indices, SlotMinutes, j, currentRun, done)
    {
      if indices[j] == indices[j - 1] + 30 {
        ScanExtend(indices, SlotMinutes, j, currentRun, done);
        currentRun := currentRun + 1;
      } else {
        if currentRun < 4 {
          ScanShort(indices, SlotMinutes, j, currentRun, done);
          return Some(indices[j - currentRun]);
        }
        ScanBreak(indices, SlotMinutes, j, currentRun, done);
        done := done + [indices[j - currentRun..j]];
        currentRun := 1;
      }
      j := j + 1;
    }
    if currentRun < 4 {
      ScanShort(indices, SlotMinutes, j, currentRun, done);
      return Some(indices[|indices| - currentRun]);
    }
    ScanEnd(indices, SlotMinutes, currentRun, done);
    return None;
  }

  /** Every day in the map received at least one index. */
  lemma DayOffsetsNonEmpty(slots: seq<Slot>, d: string)
    requires forall j :: 0 <= j < |slots| ==> SlotOk(slots[j])
    requires d in DayOrder(slots)
    ensures |Seqs.Sort(DayOffsets(slots, d))| > 0
  {
    DayOrderMembers(slots);
    var i :| 0 <= i < |slots| && slots[i].day == d;
    DayOffsetsMember(slots, d, i);
  }

  /** An accepted slot of day `d` contributes its index to that day's list. */
  lemma {:induction false} DayOffsetsMember(slots: seq<Slot>, d: string, i: nat)
    requires i < |slots| && slots[i].day == d && SlotOk(slots[i])
    ensures TimeToOffset(slots[i].time).value as int in DayOffsets(slots, d)
  {
    if i < |slots| - 1 {
      assert slots[..|slots| - 1][i] == slots[i];
      DayOffsetsMember(slots[..|slots| - 1], d, i);
    }
  }

  /** The continuity pass finds nothing exactly when every listed day is continuous. */
  lemma FirstIsolatedBlockNone(slots: seq<Slot>, days: seq<string>)
    ensures FirstIsolatedBlock(slots, days).None? <==> forall d :: d in days ==> DayContinuous(slots, d)
  {
    forall j | 0 <= j < |days|
      ensures ShortBlockStart(slots, days[j]).None? <==> DayContinuous(slots, days[j])
    {
      ShortBlockStartIff(slots, days[j]);
    }
  }

  /**
   * Validation succeeds iff every slot names a known day and a time from
   * 07:30 to before 22:30, and every maximal run of consecutive half hours
   * on every day lasts at least two hours.
   */
  lemma ValidIff(slots: seq<Slot>)
    ensures Validate(slots) == Pass <==>
      (forall i :: 0 <= i < |slots| ==> SlotOk(slots[i])) &&
      (forall i :: 0 <= i < |slots| ==> DayContinuous(slots, slots[i].day))
  {
    FirstIsolatedBlockNone(slots, DayOrder(slots));
    DayOrderMembers(slots);
  }

  /**
   * A refused slot is reported by the first pass, before any continuity
   * check: the error names the first refused slot, as an unknown day when
   * its day is not one of the six, else as an out-of-range time.
   */
  lemma FirstPassReports(slots: seq<Slot>, i: nat)
    requires i < |slots| && !SlotOk(slots[i])
    requires forall j :: 0 <= j < i ==> SlotOk(slots[j])
    ensures Validate(slots).Fail?
    ensures Validate(slots).error.InvalidDay? || Validate(slots).error.OutOfRange?
    ensures Validate(slots).error.slot == slots[i]
    ensures Validate(slots).error.InvalidDay? <==> slots[i].day !in Days
  {
    FirstBadAt(slots, i);
  }

  /**
   * An isolated-block error names a day some slot is on, that is not
   * continuous, and the clock time of the first index of that day's first
   * short run; every slot was accepted by the first pass.
   */
  lemma IsolatedBlockNamesRun(slots: seq<Slot>, day: string, start: string)
    requires Validate(slots) == Fail(IsolatedBlock(day, start))
    ensures forall i :: 0 <= i < |slots| ==> SlotOk(slots[i])
    ensures exists i :: 0 <= i < |slots| && slots[i].day == day
    ensures !DayContinuous(slots, day)
    ensures ShortBlockStart(slots, day).Some? && start == OffsetToTime(ShortBlockStart(slots, day).value)
    ensures exists k :: (0 <= k < |DayOrder(slots)| && DayOrder(slots)[k] == day
                         && forall j :: 0 <= j < k ==> DayContinuous(slots, DayOrder(slots)[j]))
  {
    var days := DayOrder(slots);
    assert FirstBadIndex(slots).None?;
    var k := IsolatedBlockAt(slots, days, day, start);
    forall j | 0 <= j < k
      ensures DayContinuous(slots, days[j])
    {
      ShortBlockStartIff(slots, days[j]);
    }
    ShortBlockStartIff(slots, day);
    DayOrderMembers(slots);
    assert day in days;
  }

  /** Where the continuity pass stopped: the day's position in `days`, every earlier day without a short run. */
  lemma IsolatedBlockAt(slots: seq<Slot>, days: seq<string>, day: string, start: string) returns (k: nat)
    requires FirstIsolatedBlock(slots, days) == Some(IsolatedBlock(day, start))
    ensures k < |days| && days[k] == day
    ensures ShortBlockStart(slots, day).Some? && start == OffsetToTime(ShortBlockStart(slots, day).value)
    ensures forall j :: 0 <= j < k ==> ShortBlockStart(slots, days[j]).None?
  {
    var starts := Starts(slots, days);
    k := FirstSome(starts).value;
    assert starts[k] == ShortBlockStart(slots, days[k]);
    forall j | 0 <= j < k
      ensures ShortBlockStart(slots, days[j]).None?
    {
      assert starts[j] == ShortBlockStart(slots, days[j]);
    }
  }

  /** A repeated index on a day cuts the day's runs there: equal indices are not consecutive. */
  lemma RepeatCutsRun(indices: seq<int>, i: nat)
    requires 0 < i < |indices| && indices[i] == indices[i - 1]
    ensures Runs(indices, SlotMinutes) == Runs(indices[..i], SlotMinutes) + Runs(indices[i..], SlotMinutes)
  {
    RunsSplit(indices, i, SlotMinutes);
  }

  /** No slots, no error. */
  lemma EmptyPasses()
    ensures Validate([]) == Pass
  {
  }
}
