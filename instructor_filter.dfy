/**
 * The administrators' instructor list (`InstructorsPage` in the separate
 * front end and `InstructorManager` in the single-page client, which run the
 * same filter): a text search over name, id and e-mail, then a status
 * filter. Lower-casing is passed in as a function, since its Unicode rules
 * are not modelled.
 */
module InstructorFilter {
  import opened Wrappers
  import Seqs

  /** A row of the list: the user's identity and two flags about their versions. */
  datatype InstructorRow = InstructorRow(
    id: string,
    name: string,
    email: string,
    hasFinalVersion: bool,
    hasDraft: bool)

  datatype FilterStatus = All | Final | Draft | Pending

  /** `text.includes(part)`: `part` occurs in `text` at some position. */
  predicate Includes(text: string, part: string)
    decreases |text|
  {
    if part <= text then true
    else if |text| == 0 then false
    else Includes(text[1..], part)
  }

  /** The occurrence `Includes` finds, as an offset. */
  lemma {:induction false} IncludesAt(text: string, part: string) returns (k: nat)
    requires Includes(text, part)
    ensures k + |part| <= |text| && text[k..k + |part|] == part
    decreases |text|
  {
    if part <= text {
      k := 0;
    } else {
      var j := IncludesAt(text[1..], part);
      k := j + 1;
      assert text[1..][j..j + |part|] == text[k..k + |part|];
    }
  }

  /** Any occurrence is found. */
  lemma {:induction false} IncludesFrom(text: string, part: string, k: nat)
    requires k + |part| <= |text| && text[k..k + |part|] == part
    ensures Includes(text, part)
    decreases k
  {
    if k == 0 {
      assert part <= text;
    } else if !(part <= text) {
      assert text[1..][k - 1..k - 1 + |part|] == text[k..k + |part|];
      IncludesFrom(text[1..], part, k - 1);
    }
  }

  /** The search test: the lower-cased term occurs in the lower-cased name, id or e-mail. */
  predicate Matches(row: InstructorRow, term: string, lower: string -> string) {
    var t := lower(term);
    Includes(lower(row.name), t) || Includes(lower(row.id), t) || Includes(lower(row.email), t)
  }

  /** The status test: final rows, drafts without a final version, rows without a draft. */
  predicate StatusKeeps(status: FilterStatus, row: InstructorRow) {
    match status
    case All => true
    case Final => row.hasFinalVersion
    case Draft => row.hasDraft && !row.hasFinalVersion
    case Pending => !row.hasDraft
  }

  /** The filter effect: search when the term is not empty, then keep the chosen status. */
  function FilterInstructors(instructors: seq<InstructorRow>, searchTerm: string, status: FilterStatus, lower: string -> string): seq<InstructorRow> {
    var result := if searchTerm != "" then Seqs.Filter(instructors, row => Matches(row, searchTerm, lower)) else instructors;
    if status == All then result else Seqs.Filter(result, row => StatusKeeps(status, row))
  }

  /** A row survives both filters. */
  predicate Kept(searchTerm: string, status: FilterStatus, lower: string -> string, row: InstructorRow) {
    (searchTerm == "" || Matches(row, searchTerm, lower)) && StatusKeeps(status, row)
  }

  /**
   * The two filters in a row are one filter by both tests: the result is
   * the rows that pass both, in their original order.
   */
  lemma FilterIsOneFilter(instructors: seq<InstructorRow>, searchTerm: string, status: FilterStatus, lower: string -> string)
    ensures FilterInstructors(instructors, searchTerm, status, lower)
      == Seqs.Filter(instructors, row => Kept(searchTerm, status, lower, row))
  {
    var keep := row => Kept(searchTerm, status, lower, row);
    var search := row => Matches(row, searchTerm, lower);
    var stat := row => StatusKeeps(status, row);
    if searchTerm != "" && status != All {
      Seqs.FilterFilter(instructors, search, stat, keep);
    } else if searchTerm != "" {
      assert forall row :: search(row) == keep(row);
      FilterSame(instructors, search, keep);
    } else if status != All {
      assert forall row :: stat(row) == keep(row);
      FilterSame(instructors, stat, keep);
    } else {
      Seqs.FilterAll(instructors, keep);
    }
  }

  lemma {:induction false} FilterSame(s: seq<InstructorRow>, p: InstructorRow -> bool, q: InstructorRow -> bool)
    requires forall x :: p(x) == q(x)
    ensures Seqs.Filter(s, p) == Seqs.Filter(s, q)
  {
    if |s| > 0 {
      FilterSame(s[1..], p, q);
    }
  }

  /**
   * The filtered list keeps the original order, and it holds exactly the
   * rows that match the search (when there is one) and the status.
   */
  lemma FilterRule(instructors: seq<InstructorRow>, searchTerm: string, status: FilterStatus, lower: string -> string)
    ensures Seqs.IsSubsequence(FilterInstructors(instructors, searchTerm, status, lower), instructors)
    ensures forall row :: row in FilterInstructors(instructors, searchTerm, status, lower) <==>
      row in instructors && (searchTerm == "" || Matches(row, searchTerm, lower)) && StatusKeeps(status, row)
  {
    var keep := row => Kept(searchTerm, status, lower, row);
    FilterIsOneFilter(instructors, searchTerm, status, lower);
    Seqs.FilterIsSubsequence(instructors, keep);
    forall row
      ensures row in Seqs.Filter(instructors, keep) <==> row in instructors && keep(row)
    {
      Seqs.FilterMembership(instructors, keep, row);
    }
  }

  /** No search term and `ALL` give back the whole list. */
  lemma NoFilterKeepsAll(instructors: seq<InstructorRow>, lower: string -> string)
    ensures FilterInstructors(instructors, "", All, lower) == instructors
  {
  }

  /** A row in the `DRAFT` list is in neither the `FINAL` nor the `PENDING` list. */
  lemma DraftDisjoint(instructors: seq<InstructorRow>, searchTerm: string, lower: string -> string, row: InstructorRow)
    ensures row in FilterInstructors(instructors, searchTerm, Draft, lower) ==>
      row !in FilterInstructors(instructors, searchTerm, Final, lower) &&
      row !in FilterInstructors(instructors, searchTerm, Pending, lower)
  {
    FilterRule(instructors, searchTerm, Draft, lower);
    FilterRule(instructors, searchTerm, Final, lower);
    FilterRule(instructors, searchTerm, Pending, lower);
  }

  /**
   * Every row the search keeps appears under at least one status, and under
   * exactly one when a final version implies a draft; a final row without a
   * draft shows up under both `FINAL` and `PENDING`.
   */
  lemma StatusCover(row: InstructorRow)
    ensures StatusKeeps(Final, row) || StatusKeeps(Draft, row) || StatusKeeps(Pending, row)
    ensures (row.hasFinalVersion ==> row.hasDraft) ==>
      (StatusKeeps(Final, row) ==> !StatusKeeps(Pending, row)) && (StatusKeeps(Draft, row) ==> !StatusKeeps(Final, row))
    ensures row.hasFinalVersion && !row.hasDraft ==> StatusKeeps(Final, row) && StatusKeeps(Pending, row)
  {
  }

  /** The dashboard's counters. */
  datatype DashboardStats = DashboardStats(totalInstructors: int, submittedFinal: int, draftOnly: int, pending: int)

  datatype ChartEntry = ChartEntry(name: string, value: int)

  /** `chartData`: four bars in a fixed order, or none without statistics. */
  function ChartData(stats: Option<DashboardStats>): seq<ChartEntry> {
    match stats
    case None => []
    case Some(s) =>
      [ChartEntry("Total", s.totalInstructors), ChartEntry("Finalizados", s.submittedFinal),
       ChartEntry("Borrador", s.draftOnly), ChartEntry("Pendientes", s.pending)]
  }

  /** Each counter of the statistics is the value of exactly one bar, in the order total, final, draft, pending. */
  lemma ChartShape(stats: Option<DashboardStats>)
    ensures stats.None? <==> |ChartData(stats)| == 0
    ensures stats.Some? ==> (
      && |ChartData(stats)| == 4
      && ChartData(stats)[0].value == stats.value.totalInstructors
      && ChartData(stats)[1].value == stats.value.submittedFinal
      && ChartData(stats)[2].value == stats.value.draftOnly
      && ChartData(stats)[3].value == stats.value.pending)
  {
  }
}
