/**
 * The client's copy of the continuity rule (`validateAvailability`). It
 * looks each time up in the list of 31 cell start times, silently dropping a
 * time it does not find, and never checks the day name. Each day's positions
 * are sorted and cut into chains of consecutive positions; the first chain
 * shorter than four cells makes the selection invalid.
 */
module ClientValidation {
  import opened Wrappers
  import opened Text
  import opened TimeGrid
  import opened Continuity
  import opened DayGroups
  import opened SlotValidation
  import Seqs

  /**
   * The verdict. An invalid verdict names the day and the start time of the
   * short chain; the time is None where the source reads past its list and
   * prints `undefined` (a day all of whose times were dropped).
   */
  datatype Verdict = Valid | Invalid(day: string, time: Option<string>)

  function Message(v: Verdict): Option<string> {
    match v
    case Valid => None
    case Invalid(day, time) =>
      var t := match time case Some(t) => t case None => "undefined";
      Some("En " + day + " a las " + t
           + ", tienes un bloque aislado de menos de 2 horas consecutivas. Mínimo 4 casillas continuas.")
  }

  /** `TIME_SLOTS_STRINGS.indexOf(time)` for a slot's time. */
  function Position(s: Slot): int {
    IndexOf(Grid(), ClockText(s.time))
  }

  /** What one slot pushes under day `d`: its position, unless the time was not found. */
  function Found(s: Slot, d: string): seq<int> {
    if s.day == d && Position(s) != -1 then [Position(s)] else []
  }

  /** The positions pushed under day `d`, in slot order. */
  function GridPositions(slots: seq<Slot>, d: string): seq<int> {
    if |slots| == 0 then []
    else GridPositions(slots[..|slots| - 1], d) + Found(slots[|slots| - 1], d)
  }

  lemma {:induction false} GridPositionsInRange(slots: seq<Slot>, d: string)
    ensures forall i :: 0 <= i < |GridPositions(slots, d)| ==> 0 <= GridPositions(slots, d)[i] < GridLength
  {
    if |slots| > 0 {
      GridPositionsInRange(slots[..|slots| - 1], d);
    }
  }

  /** The verdict on one day: its first short chain, or an empty day read as a chain of one undefined cell. */
  function DayVerdict(slots: seq<Slot>, d: string): Option<Verdict> {
    var sorted := Seqs.Sort(GridPositions(slots, d));
    if |sorted| == 0 then Some(Invalid(d, None))
    else
      match ShortRunStart(sorted, 1)
      case None => None
      case Some(p) =>
        GridPositionsInRange(slots, d);
        Seqs.SortMembership(GridPositions(slots, d), p);
        Some(Invalid(d, Some(Grid()[p])))
  }

  function FirstInvalidDay(slots: seq<Slot>, days: seq<string>): Option<Verdict> {
    if |days| == 0 then None
    else
      match DayVerdict(slots, days[0])
      case Some(v) => Some(v)
      case None => FirstInvalidDay(slots, days[1..])
  }

  /** What `validateAvailability` returns for a selection. */
  function ClientValidate(slots: seq<Slot>): Verdict {
    if |slots| == 0 then Valid
    else
      match FirstInvalidDay(slots, DayOrder(slots))
      case Some(v) => v
      case None => Valid
  }

  /**
   * `validateAvailability`: group by day (creating the key before the
   * lookup), then per day sort, build the chains and check them in order.
   */
  method ValidateAvailability(slots: seq<Slot>) returns (r: Verdict)
    ensures r == ClientValidate(slots)
  {
    if |slots| == 0 {
      return Valid;
    }
    var days, slotsByDay := GroupPositions(slots);
    var k := 0;
    while k < |days|
      invariant 0 <= k <= |days|
      invariant FirstInvalidDay(slots, days) == FirstInvalidDay(slots, days[k..])
    {
      var day := days[k];
      assert days[k..][1..] == days[k + 1..];
      var v := CheckDay(slots, day, slotsByDay[day]);
      if v.Some? {
        return v.value;
      }
      k := k + 1;
    }
    return Valid;
  }

  /** One day of the check: sort, build the chains, report the first short one. */
  method CheckDay(slots: seq<Slot>, day: string, positions: seq<int>) returns (v: Option<Verdict>)
    requires positions == GridPositions(slots, day)
    ensures v == DayVerdict(slots, day)
  {
    var indices := Seqs.Sort(positions);
    if |indices| == 0 {
      return Some(Invalid(day, None));
    }
    var chains := BuildChains(indices);
    var bad := FirstShortChain(chains);
    ShortRunStartIsRunStart(indices, 1);
    if bad.None? {
      return None;
    }
    var startIdx := chains[bad.value][0];
    GridPositionsInRange(slots, day);
    Seqs.SortMembership(positions, startIdx);
    return Some(Invalid(day, Some(Grid()[startIdx])));
  }

  /** The grouping loop: a day's key is created for every slot, its position pushed only when found. */
  method GroupPositions(slots: seq<Slot>) returns (days: seq<string>, slotsByDay: map<string, seq<int>>)
    ensures days == DayOrder(slots)
    ensures forall d :: d in slotsByDay <==> d in days
    ensures forall d :: d in slotsByDay ==> slotsByDay[d] == GridPositions(slots, d)
  {
    days := [];
    slotsByDay := map[];
    var i := 0;
    while i < |slots|
      invariant 0 <= i <= |slots|
      invariant Grouped(slots, i, days, slotsByDay)
    {
      var slot := slots[i];
      KeyStep(slots, i, days, slotsByDay);
      if slot.day !in slotsByDay {
        slotsByDay := slotsByDay[slot.day := []];
        days := days + [slot.day];
      }
      var timeIndex := IndexOf(Grid(), ClockText(slot.time));
      PushStep(slots, i, days, slotsByDay, timeIndex);
      if timeIndex != -1 {
        slotsByDay := slotsByDay[slot.day := slotsByDay[slot.day] + [timeIndex]];
      }
      i := i + 1;
    }
    assert slots[..i] == slots;
  }

  /** The grouping loop's state after the first `n` slots. */
  ghost predicate Grouped(slots: seq<Slot>, n: nat, days: seq<string>, m: map<string, seq<int>>)
    requires n <= |slots|
  {
    && days == DayOrder(slots[..n])
    && (forall d :: d in m <==> d in days)
    && (forall d :: d in m ==> m[d] == GridPositions(slots[..n], d))
  }

  /** Half way through slot `i`: its day's key exists, its position not yet pushed. */
  ghost predicate Keyed(slots: seq<Slot>, i: nat, days: seq<string>, m: map<string, seq<int>>)
    requires i < |slots|
  {
    && days == DayOrder(slots[..i + 1])
    && (forall d :: d in m <==> d in days)
    && slots[i].day in m
    && (forall d :: d in m ==> m[d] == GridPositions(slots[..i], d))
  }

  /** Creating the day's key when it is missing. */
  lemma KeyStep(slots: seq<Slot>, i: nat, days: seq<string>, m: map<string, seq<int>>)
    requires i < |slots| && Grouped(slots, i, days, m)
    ensures slots[i].day in m ==> Keyed(slots, i, days, m)
    ensures slots[i].day !in m ==> Keyed(slots, i, days + [slots[i].day], m[slots[i].day := []])
  {
    assert slots[..i + 1] == slots[..i] + [slots[i]];
    DayOrderSnoc(slots[..i], slots[i]);
    if slots[i].day !in m {
      GridPositionsAbsent(slots[..i], slots[i].day);
    }
  }

  /** Pushing the position when it was found. */
  lemma PushStep(slots: seq<Slot>, i: nat, days: seq<string>, m: map<string, seq<int>>, p: int)
    requires i < |slots| && p == Position(slots[i])
    requires Keyed(slots, i, days, m)
    ensures Grouped(slots, i + 1, days, if p != -1 then m[slots[i].day := m[slots[i].day] + [p]] else m)
  {
    PositionsSnoc(slots, i, p);
    PushMap(slots, i, days, m, p);
  }

  /** The map update, with the slot's contribution given. */
  lemma PushMap(slots: seq<Slot>, i: nat, days: seq<string>, m: map<string, seq<int>>, p: int)
    requires i < |slots| && Keyed(slots, i, days, m)
    requires forall d :: GridPositions(slots[..i + 1], d) == GridPositions(slots[..i], d) + Contribution(slots[i], d, p)
    ensures Grouped(slots, i + 1, days, if p != -1 then m[slots[i].day := m[slots[i].day] + [p]] else m)
  {
  }

  /** What a slot whose lookup gave `p` adds under day `d`. */
  function Contribution(s: Slot, d: string, p: int): seq<int> {
    if s.day == d && p != -1 then [p] else []
  }

  /** What slot `i` adds to every day, for its found position `p`. */
  lemma PositionsSnoc(slots: seq<Slot>, i: nat, p: int)
    requires i < |slots| && p == Position(slots[i])
    ensures forall d :: GridPositions(slots[..i + 1], d) == GridPositions(slots[..i], d) + Contribution(slots[i], d, p)
  {
    forall d
      ensures GridPositions(slots[..i + 1], d) == GridPositions(slots[..i], d) + Contribution(slots[i], d, p)
    {
      GridPositionsSnoc(slots, i, d);
    }
  }

  lemma GridPositionsSnoc(slots: seq<Slot>, i: nat, d: string)
    requires i < |slots|
    ensures GridPositions(slots[..i + 1], d) == GridPositions(slots[..i], d) + Found(slots[i], d)
  {
    assert slots[..i + 1][..i] == slots[..i];
  }

  /** A day no slot names has no positions. */
  lemma {:induction false} GridPositionsAbsent(slots: seq<Slot>, d: string)
    requires d !in DayOrder(slots)
    ensures GridPositions(slots, d) == []
  {
    if |slots| > 0 {
      var p := slots[..|slots| - 1];
      assert d != slots[|slots| - 1].day;
      assert d !in DayOrder(p);
      GridPositionsAbsent(p, d);
    }
  }

  /** The chain-building loop: `currentChain` grows while positions step by one, else is pushed onto `chains`. */
  method BuildChains(indices: seq<int>) returns (chains: seq<seq<int>>)
    requires |indices| > 0
    ensures chains == Runs(indices, 1)
  {
    chains := [];
    var currentChain := [indices[0]];
    assert indices[..1] == [indices[0]];
    var i := 1;
    while i < |indices|
      invariant 1 <= i <= |indices|
      invariant Runs(indices[..i], 1) == chains + [currentChain]
    {
      RunsScanStep(indices, i, 1, chains, currentChain);
      if indices[i] == indices[i - 1] + 1 {
        currentChain := currentChain + [indices[i]];
      } else {
        chains := chains + [currentChain];
        currentChain := [indices[i]];
      }
      i := i + 1;
    }
    assert indices[..i] == indices;
    chains := chains + [currentChain];
  }

  /** The check loop over the chains: the first one shorter than four, if any. */
  method FirstShortChain(chains: seq<seq<int>>) returns (r: Option<nat>)
    ensures r == FirstShortRun(chains)
  {
    var j := 0;
    while j < |chains|
      invariant 0 <= j <= |chains|
      invariant forall i :: 0 <= i < j ==> |chains[i]| >= MinRunLength
    {
      if |chains[j]| < 4 {
        return Some(j);
      }
      j := j + 1;
    }
    return None;
  }

  lemma {:induction false} FirstInvalidDayNone(slots: seq<Slot>, days: seq<string>)
    ensures FirstInvalidDay(slots, days).None? <==> forall d :: d in days ==> DayVerdict(slots, d).None?
  {
    if |days| > 0 {
      FirstInvalidDayNone(slots, days[1..]);
      assert days == [days[0]] + days[1..];
    }
  }

  /** A day passes when it has at least one known time and every chain of its sorted positions has four cells. */
  predicate DayPasses(slots: seq<Slot>, d: string) {
    var sorted := Seqs.Sort(GridPositions(slots, d));
    |sorted| > 0 && FirstShortRun(Runs(sorted, 1)).None?
  }

  /**
   * The client accepts exactly the selections in which every day named by a
   * slot passes. The day name itself is never checked: any name is a day.
   */
  lemma ClientValidIff(slots: seq<Slot>)
    ensures ClientValidate(slots) == Valid <==> forall i :: 0 <= i < |slots| ==> DayPasses(slots, slots[i].day)
  {
    var days := DayOrder(slots);
    DayOrderMembers(slots);
    FirstInvalidDayNone(slots, days);
    if |slots| > 0 {
      if FirstInvalidDay(slots, days).Some? {
        FirstInvalidDayIsInvalid(slots, days);
      }
      forall d | d in days
        ensures DayVerdict(slots, d).None? <==> DayPasses(slots, d)
      {
      }
    }
  }

  lemma {:induction false} FirstInvalidDayIsInvalid(slots: seq<Slot>, days: seq<string>)
    requires FirstInvalidDay(slots, days).Some?
    ensures FirstInvalidDay(slots, days).value.Invalid?
  {
    if DayVerdict(slots, days[0]).None? {
      FirstInvalidDayIsInvalid(slots, days[1..]);
    }
  }

  /** A slot whose time is not in the list changes nothing once its day is already present. */
  lemma UnknownTimeIgnored(slots: seq<Slot>, s: Slot)
    requires s.day in DayOrder(slots)
    requires Position(s) == -1
    ensures ClientValidate(slots + [s]) == ClientValidate(slots)
  {
    var t := slots + [s];
    assert t[..|slots|] == slots;
    DayOrderSnoc(slots, s);
    forall d
      ensures GridPositions(t, d) == GridPositions(slots, d)
    {
      assert Found(s, d) == [];
    }
    SameVerdicts(t, slots, DayOrder(slots));
    assert ClientValidate(t) == match FirstInvalidDay(t, DayOrder(t)) case Some(v) => v case None => Valid;
  }

  lemma {:induction false} SameVerdicts(a: seq<Slot>, b: seq<Slot>, days: seq<string>)
    requires forall d :: GridPositions(a, d) == GridPositions(b, d)
    ensures FirstInvalidDay(a, days) == FirstInvalidDay(b, days)
  {
    if |days| > 0 {
      assert DayVerdict(a, days[0]) == DayVerdict(b, days[0]);
      SameVerdicts(a, b, days[1..]);
    }
  }

  /**
   * A day all of whose times are missing from the list is rejected, with the
   * time shown as `undefined`: the source reads the start of the chain
   * `[undefined]` built from an empty list of positions.
   */
  lemma TimelessDayRejected(slots: seq<Slot>, i: nat)
    requires i < |slots|
    requires forall j :: 0 <= j < |slots| && slots[j].day == slots[i].day ==> Position(slots[j]) == -1
    ensures DayVerdict(slots, slots[i].day) == Some(Invalid(slots[i].day, None))
    ensures ClientValidate(slots) != Valid
  {
    var d := slots[i].day;
    GridPositionsEmpty(slots, d);
    assert !DayPasses(slots, d);
    ClientValidIff(slots);
  }

  lemma {:induction false} GridPositionsEmpty(slots: seq<Slot>, d: string)
    requires forall j :: 0 <= j < |slots| && slots[j].day == d ==> Position(slots[j]) == -1
    ensures GridPositions(slots, d) == []
  {
    if |slots| > 0 {
      GridPositionsEmpty(slots[..|slots| - 1], d);
    }
  }

  /** The client places a 22:30 cell at position 30 of its list; the server rejects the same cell as out of range. */
  lemma LastCellDisagreement(s: Slot)
    requires s.time == Clock(22, 30)
    ensures Position(s) == 30
    ensures s.day in Days ==> SlotCheck(s) == Some(OutOfRange(s))
  {
    GridLookup(s.time);
  }
}
