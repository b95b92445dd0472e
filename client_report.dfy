/**
 * The client's own availability report (`generateAvailabilityReport`): a
 * table of text cells whose first row is the header. Every user with the
 * instructor role contributes rows: for the version chosen for them (the
 * first final one, else the newest by timestamp) one row per run of
 * consecutive positions in the list of cell start times, day by day; with no
 * version a single `N/A` row.
 */
module ClientReport {
  import opened Wrappers
  import opened Text
  import opened TimeGrid
  import opened Continuity
  import opened DayGroups
  import opened Users
  import opened Versions
  import opened ClientValidation
  import Seqs

  const ReportHeader: seq<string> :=
    ["Instructor ID", "Nombre", "Periodo", "Es Final", "Origen Datos", "Día", "Hora Inicio", "Hora Fin", "Comentarios"]

  /** Where the reported version came from: `FINAL_MARCADA` or `ULTIMA_VERSION (FALLBACK)`. */
  datatype Origin = MarkedFinal | Fallback

  function OriginText(o: Origin): string {
    match o
    case MarkedFinal => "FINAL_MARCADA"
    case Fallback => "ULTIMA_VERSION (FALLBACK)"
  }

  datatype Target = Target(version: Version, origin: Origin)

  /**
   * The version reported for an instructor: among all of their versions
   * (of any period), the first final one in list order; else the newest by
   * timestamp; else none.
   */
  function ChooseTarget(vs: seq<Version>, instructorId: string): Option<Target> {
    var mine := OfInstructor(vs, instructorId);
    match FirstFinal(mine)
    case Some(v) => Some(Target(v, MarkedFinal))
    case None => if |mine| > 0 then Some(Target(NewestFirst(mine)[0], Fallback)) else None
  }

  /**
   * The choice rule: no target exactly when the instructor has no version;
   * a marked-final target is a final version of theirs, the first one in
   * list order (any period); a fallback target is a draft of theirs no other
   * version of theirs is newer than, and then none of their versions is final.
   */
  lemma TargetChoice(vs: seq<Version>, instructorId: string)
    ensures ChooseTarget(vs, instructorId).None? <==> forall v :: v in vs ==> v.instructorId != instructorId
    ensures ChooseTarget(vs, instructorId).Some? ==>
      var t := ChooseTarget(vs, instructorId).value;
      t.version in vs && t.version.instructorId == instructorId
    ensures ChooseTarget(vs, instructorId).Some? ==>
      var t := ChooseTarget(vs, instructorId).value;
      (t.origin == MarkedFinal <==> t.version.isFinal)
    ensures ChooseTarget(vs, instructorId).Some? && ChooseTarget(vs, instructorId).value.origin == Fallback ==>
      var t := ChooseTarget(vs, instructorId).value;
      forall w :: w in vs && w.instructorId == instructorId ==> !w.isFinal && w.createdAt <= t.version.createdAt
    ensures ChooseTarget(vs, instructorId).Some? && ChooseTarget(vs, instructorId).value.origin == MarkedFinal ==>
      exists i :: FirstOwnFinalAt(vs, instructorId, i) && vs[i] == ChooseTarget(vs, instructorId).value.version
  {
    var mine := OfInstructor(vs, instructorId);
    FinalOrNewestChoice(mine);
    FirstFinalOfInstructor(vs, instructorId);
    if |mine| > 0 {
      assert mine[0] in mine;
    }
    if FirstFinal(mine).None? {
      forall w | w in mine
        ensures !w.isFinal
      {
        var i :| 0 <= i < |mine| && mine[i] == w;
      }
    }
  }

  /** `TIME_SLOTS_STRINGS[k]`; a position outside the list reads `undefined`, written as an empty cell. */
  function Cell(k: int): string {
    if 0 <= k < GridLength then Grid()[k] else ""
  }

  /** The end of a run whose last position is `prev`: the next entry, or `23:00` past the end of the list. */
  function EndCell(prev: int): string {
    if prev + 1 < GridLength then Cell(prev + 1) else "23:00"
  }

  /** One row for one run of positions. */
  function RunRow(user: User, t: Target, day: string, start: int, prev: int): seq<string> {
    [user.id, user.name, t.version.periodId, if t.version.isFinal then "SI" else "NO", OriginText(t.origin),
     day, Cell(start), EndCell(prev), ReplaceAll(t.version.comments, ',', ' ')]
  }

  predicate NonEmptyRuns(runs: seq<seq<int>>) {
    forall k :: 0 <= k < |runs| ==> |runs[k]| > 0
  }

  /** The rows of a day's runs, run after run. */
  function RunRows(user: User, t: Target, day: string, runs: seq<seq<int>>): (r: seq<seq<string>>)
    requires NonEmptyRuns(runs)
    ensures |r| == |runs|
  {
    if |runs| == 0 then []
    else
      var run := Last(runs);
      RunRows(user, t, day, runs[..|runs| - 1]) + [RunRow(user, t, day, run[0], Last(run))]
  }

  lemma {:induction false} RunRowsAt(user: User, t: Target, day: string, runs: seq<seq<int>>, k: nat)
    requires NonEmptyRuns(runs) && k < |runs|
    ensures RunRows(user, t, day, runs)[k] == RunRow(user, t, day, runs[k][0], Last(runs[k]))
  {
    if k < |runs| - 1 {
      RunRowsAt(user, t, day, runs[..|runs| - 1], k);
    }
  }

  /** The positions pushed under day `d`, in slot order, including the -1 of a time not in the list. */
  function AllPositions(slots: seq<Slot>, d: string): seq<int> {
    if |slots| == 0 then []
    else
      var s := slots[|slots| - 1];
      AllPositions(slots[..|slots| - 1], d) + (if s.day == d then [Position(s)] else [])
  }

  /** The sorted positions of day `d` cut into runs of consecutive positions. */
  function IndexRuns(slots: seq<Slot>, d: string): (r: seq<seq<int>>)
    ensures NonEmptyRuns(r)
  {
    var runs := Runs(Seqs.Sort(AllPositions(slots, d)), 1);
    RunsShape(Seqs.Sort(AllPositions(slots, d)), 1);
    runs
  }

  function DayRows(user: User, t: Target, d: string): seq<seq<string>> {
    RunRows(user, t, d, IndexRuns(t.version.slots, d))
  }

  /** The rows of the listed days, day after day. */
  function DaysRows(user: User, t: Target, days: seq<string>): seq<seq<string>> {
    if |days| == 0 then []
    else DaysRows(user, t, days[..|days| - 1]) + DayRows(user, t, Last(days))
  }

  function NoDataRow(user: User): seq<string> {
    [user.id, user.name, "N/A", "NO", "SIN DATOS", "-", "-", "-", "-"]
  }

  /** An instructor's rows: their target's days in first-appearance order, or the `N/A` row. */
  function UserRows(user: User, vs: seq<Version>): seq<seq<string>> {
    match ChooseTarget(vs, user.id)
    case None => [NoDataRow(user)]
    case Some(t) => DaysRows(user, t, DayOrder(t.version.slots))
  }

  function UsersRows(users: seq<User>, vs: seq<Version>): seq<seq<string>> {
    if |users| == 0 then []
    else UsersRows(users[..|users| - 1], vs) + UserRows(Last(users), vs)
  }

  predicate IsInstructor(u: User) {
    u.role == Instructor
  }

  /** What `generateAvailabilityReport` returns. */
  function Report(users: seq<User>, vs: seq<Version>): seq<seq<string>> {
    [ReportHeader] + UsersRows(Seqs.Filter(users, IsInstructor), vs)
  }

  /** `generateAvailabilityReport`: the header, then each instructor's rows. */
  method GenerateAvailabilityReport(users: seq<User>, availabilities: seq<Version>) returns (rows: seq<seq<string>>)
    ensures rows == Report(users, availabilities)
  {
    rows := [ReportHeader];
    var instructors := Seqs.Filter(users, IsInstructor);
    for i := 0 to |instructors|
      invariant rows == [ReportHeader] + UsersRows(instructors[..i], availabilities)
    {
      var userRows := InstructorRows(instructors[i], availabilities);
      UsersRowsStep(instructors, availabilities, i);
      Seqs.AppendAssoc([ReportHeader], UsersRows(instructors[..i], availabilities), userRows);
      rows := rows + userRows;
    }
    assert instructors[..|instructors|] == instructors;
  }

  lemma UsersRowsStep(users: seq<User>, vs: seq<Version>, i: nat)
    requires i < |users|
    ensures UsersRows(users[..i + 1], vs) == UsersRows(users[..i], vs) + UserRows(users[i], vs)
  {
    assert users[..i + 1][..i] == users[..i];
  }

  /** One instructor: the rows of the chosen version, or the `N/A` row. */
  method InstructorRows(user: User, availabilities: seq<Version>) returns (rows: seq<seq<string>>)
    ensures rows == UserRows(user, availabilities)
  {
    var target := ChooseTarget(availabilities, user.id);
    if target.Some? {
      rows := TargetRows(user, target.value);
    } else {
      rows := [NoDataRow(user)];
    }
  }

  /** The rows of one chosen version: group the positions by day, then walk each day's sorted positions. */
  method TargetRows(user: User, t: Target) returns (rows: seq<seq<string>>)
    ensures rows == DaysRows(user, t, DayOrder(t.version.slots))
  {
    var days, slotsByDay := GroupIndices(t.version.slots);
    rows := [];
    for k := 0 to |days|
      invariant rows == DaysRows(user, t, days[..k])
    {
      var dayRows := OneDayRows(user, t, days[k], slotsByDay[days[k]]);
      DaysRowsStep(user, t, days, k);
      rows := rows + dayRows;
    }
    assert days[..|days|] == days;
  }

  lemma DaysRowsStep(user: User, t: Target, days: seq<string>, k: nat)
    requires k < |days|
    ensures DaysRows(user, t, days[..k + 1]) == DaysRows(user, t, days[..k]) + DayRows(user, t, days[k])
  {
    assert days[..k + 1][..k] == days[..k];
  }

  /** One day: sort its positions numerically, then walk them. */
  method OneDayRows(user: User, t: Target, day: string, positions: seq<int>) returns (rows: seq<seq<string>>)
    requires day in DayOrder(t.version.slots)
    requires positions == AllPositions(t.version.slots, day)
    ensures rows == DayRows(user, t, day)
  {
    DayOrderMembers(t.version.slots);
    AllPositionsPresent(t.version.slots, day);
    var indices := Seqs.Sort(positions);
    rows := WalkDay(user, t, day, indices);
  }

  /** The per-day loop: `startIdx` opens the current run, `prevIdx` is the last position seen. */
  method WalkDay(user: User, t: Target, day: string, indices: seq<int>) returns (rows: seq<seq<string>>)
    requires |indices| > 0
    ensures NonEmptyRuns(Runs(indices, 1)) && rows == RunRows(user, t, day, Runs(indices, 1))
  {
    rows := [];
    var startIdx := indices[0];
    var prevIdx := indices[0];
    ghost var done: seq<seq<int>> := [];
    ghost var cur: seq<int> := [indices[0]];
    assert indices[..1] == [indices[0]];
    var i := 1;
    while i < |indices|
      invariant WalkState(user, t, day, indices, i, done, cur, rows)
      invariant startIdx == cur[0] && prevIdx == Last(cur)
    {
      WalkStep(user, t, day, indices, i, done, cur, rows);
      if indices[i] != prevIdx + 1 {
        rows := rows + [RunRow(user, t, day, startIdx, prevIdx)];
        done := done + [cur];
        cur := [indices[i]];
        startIdx := indices[i];
      } else {
        cur := cur + [indices[i]];
      }
      prevIdx := indices[i];
      i := i + 1;
    }
    WalkEnd(user, t, day, indices, done, cur, rows);
    rows := rows + [RunRow(user, t, day, startIdx, prevIdx)];
  }

  /** The walk has read `indices[..i]`: the closed runs are `done`, written out as `rows`, and `cur` is open. */
  ghost predicate WalkState(user: User, t: Target, day: string, indices: seq<int>, i: nat,
                            done: seq<seq<int>>, cur: seq<int>, rows: seq<seq<string>>) {
    && 1 <= i <= |indices|
    && Runs(indices[..i], 1) == done + [cur]
    && NonEmptyRuns(done) && |cur| > 0
    && Last(cur) == indices[i - 1]
    && rows == RunRows(user, t, day, done)
  }

  lemma WalkStep(user: User, t: Target, day: string, indices: seq<int>, i: nat,
                 done: seq<seq<int>>, cur: seq<int>, rows: seq<seq<string>>)
    requires WalkState(user, t, day, indices, i, done, cur, rows) && i < |indices|
    ensures indices[i] != Last(cur) + 1 ==>
      WalkState(user, t, day, indices, i + 1, done + [cur], [indices[i]], rows + [RunRow(user, t, day, cur[0], Last(cur))])
    ensures indices[i] == Last(cur) + 1 ==> WalkState(user, t, day, indices, i + 1, done, cur + [indices[i]], rows)
  {
    RunsScanStep(indices, i, 1, done, cur);
    RunRowsSnoc(user, t, day, done, cur);
  }

  lemma WalkEnd(user: User, t: Target, day: string, indices: seq<int>,
                done: seq<seq<int>>, cur: seq<int>, rows: seq<seq<string>>)
    requires WalkState(user, t, day, indices, |indices|, done, cur, rows)
    ensures NonEmptyRuns(Runs(indices, 1))
    ensures RunRows(user, t, day, Runs(indices, 1)) == rows + [RunRow(user, t, day, cur[0], Last(cur))]
  {
    assert indices[..|indices|] == indices;
    RunRowsSnoc(user, t, day, done, cur);
  }

  lemma RunRowsSnoc(user: User, t: Target, day: string, done: seq<seq<int>>, cur: seq<int>)
    requires NonEmptyRuns(done) && |cur| > 0
    ensures NonEmptyRuns(done + [cur])
    ensures RunRows(user, t, day, done + [cur]) == RunRows(user, t, day, done) + [RunRow(user, t, day, cur[0], Last(cur))]
  {
    assert (done + [cur])[..|done|] == done;
  }

  /** The grouping loop: a day's key is created on its first slot, and every slot's position, found or not, is pushed. */
  method GroupIndices(slots: seq<Slot>) returns (days: seq<string>, slotsByDay: map<string, seq<int>>)
    ensures days == DayOrder(slots)
    ensures forall d :: d in slotsByDay <==> d in days
    ensures forall d :: d in slotsByDay ==> slotsByDay[d] == AllPositions(slots, d)
  {
    days := [];
    slotsByDay := map[];
    var i := 0;
    while i < |slots|
      invariant 0 <= i <= |slots|
      invariant Indexed(slots, i, days, slotsByDay)
    {
      var slot := slots[i];
      var timeIndex := IndexOf(Grid(), ClockText(slot.time));
      IndicesSnoc(slots, i, timeIndex);
      IndexStep(slots, i, days, slotsByDay, timeIndex);
      if slot.day !in slotsByDay {
        slotsByDay := slotsByDay[slot.day := []];
        days := days + [slot.day];
      }
      slotsByDay := slotsByDay[slot.day := slotsByDay[slot.day] + [timeIndex]];
      i := i + 1;
    }
    assert slots[..i] == slots;
  }

  /** The grouping loop's state after the first `n` slots. */
  ghost predicate Indexed(slots: seq<Slot>, n: nat, days: seq<string>, m: map<string, seq<int>>)
    requires n <= |slots|
  {
    && days == DayOrder(slots[..n])
    && (forall d :: d in m <==> d in days)
    && (forall d :: d in m ==> m[d] == AllPositions(slots[..n], d))
  }

  lemma IndexStep(slots: seq<Slot>, i: nat, days: seq<string>, m: map<string, seq<int>>, p: int)
    requires i < |slots| && Indexed(slots, i, days, m)
    requires forall d :: AllPositions(slots[..i + 1], d) == AllPositions(slots[..i], d) + Pushed(slots[i], d, p)
    ensures var s := slots[i];
      var m0 := if s.day in m then m else m[s.day := []];
      var days' := if s.day in m then days else days + [s.day];
      Indexed(slots, i + 1, days', m0[s.day := m0[s.day] + [p]])
  {
    var s := slots[i];
    assert slots[..i + 1] == slots[..i] + [s];
    DayOrderSnoc(slots[..i], s);
    if s.day !in m {
      AllPositionsAbsent(slots[..i], s.day);
    }
    IndexMap(slots, i, days, m, p);
  }

  /** The map update, with what the slot adds to every day given. */
  lemma IndexMap(slots: seq<Slot>, i: nat, days: seq<string>, m: map<string, seq<int>>, p: int)
    requires i < |slots| && Indexed(slots, i, days, m)
    requires DayOrder(slots[..i + 1]) == if slots[i].day in m then days else days + [slots[i].day]
    requires slots[i].day !in m ==> AllPositions(slots[..i], slots[i].day) == []
    requires forall d :: AllPositions(slots[..i + 1], d) == AllPositions(slots[..i], d) + Pushed(slots[i], d, p)
    ensures var s := slots[i];
      var m0 := if s.day in m then m else m[s.day := []];
      var days' := if s.day in m then days else days + [s.day];
      Indexed(slots, i + 1, days', m0[s.day := m0[s.day] + [p]])
  {
  }

  /** What a slot whose lookup gave `p` pushes under day `d`. */
  function Pushed(s: Slot, d: string, p: int): seq<int> {
    if s.day == d then [p] else []
  }

  lemma IndicesSnoc(slots: seq<Slot>, i: nat, p: int)
    requires i < |slots| && p == Position(slots[i])
    ensures forall d :: AllPositions(slots[..i + 1], d) == AllPositions(slots[..i], d) + Pushed(slots[i], d, p)
  {
    forall d
      ensures AllPositions(slots[..i + 1], d) == AllPositions(slots[..i], d) + Pushed(slots[i], d, p)
    {
      AllPositionsSnoc(slots, i, d);
    }
  }

  lemma AllPositionsSnoc(slots: seq<Slot>, i: nat, d: string)
    requires i < |slots|
    ensures AllPositions(slots[..i + 1], d) == AllPositions(slots[..i], d) + Pushed(slots[i], d, Position(slots[i]))
  {
    assert slots[..i + 1][..i] == slots[..i];
  }

  lemma {:induction false} AllPositionsAbsent(slots: seq<Slot>, d: string)
    requires d !in DayOrder(slots)
    ensures AllPositions(slots, d) == []
  {
    if |slots| > 0 {
      var p := slots[..|slots| - 1];
      assert d != slots[|slots| - 1].day;
      assert d !in DayOrder(p);
      AllPositionsAbsent(p, d);
    }
  }

  /** A day some slot names has one position per such slot, so at least one. */
  lemma {:induction false} AllPositionsPresent(slots: seq<Slot>, d: string)
    requires exists i :: 0 <= i < |slots| && slots[i].day == d
    ensures |AllPositions(slots, d)| > 0
  {
    var p := slots[..|slots| - 1];
    if slots[|slots| - 1].day != d {
      var i :| 0 <= i < |slots| && slots[i].day == d;
      assert p[i] == slots[i];
      AllPositionsPresent(p, d);
    }
  }
}
