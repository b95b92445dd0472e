/**
 * The server's report builder (`ReportsService`): the effective version of
 * an instructor becomes flat rows, one per condensed range (or a single
 * placeholder row), and rows become CSV text under a fixed nine-column
 * header. The consolidated report concatenates the rows of every active
 * instructor in the order the user query returns them.
 */
module Reports {
  import opened Wrappers
  import opened Text
  import opened TimeGrid
  import opened Users
  import opened Versions
  import opened Condensation
  import opened AvailabilityStore
  import CondenseFacts
  import Seqs

  /** The row status: `FINAL`, `BORRADOR` or `PENDIENTE`. */
  datatype Status = Final | Draft | Pending

  function StatusText(s: Status): string {
    match s
    case Final => "FINAL"
    case Draft => "BORRADOR"
    case Pending => "PENDIENTE"
  }

  datatype ReportRow = ReportRow(
    instructorId: string,
    instructorName: string,
    instructorEmail: string,
    periodId: string,
    status: Status,
    day: string,
    startTime: string,
    endTime: string,
    comments: string)

  const InstructorNotFound := "Instructor no encontrado"
  const NoAvailability := "SIN DISPONIBILIDAD"

  /** The row of one range: its day and its two clock texts, the comment on one line. */
  function RangeRow(user: User, periodId: string, status: Status, comments: string, r: TimeRange): ReportRow {
    ReportRow(user.id, user.name, user.email, periodId, status, r.day, StartText(r), EndText(r),
              ReplaceAll(comments, '\n', ' '))
  }

  /** `ranges.map(...)`: one row per range, in order. */
  function RangeRows(user: User, periodId: string, status: Status, comments: string, rs: seq<TimeRange>): seq<ReportRow> {
    if |rs| == 0 then [] else [RangeRow(user, periodId, status, comments, rs[0])] + RangeRows(user, periodId, status, comments, rs[1..])
  }

  /**
   * `processVersionToRows`: no version gives one PENDIENTE row; a version
   * whose slots condense to nothing gives one SIN DISPONIBILIDAD row with
   * the comment as stored; otherwise one row per range.
   */
  function ProcessVersionToRows(user: User, periodId: string, version: Option<Version>): seq<ReportRow> {
    match version
    case None => [ReportRow(user.id, user.name, user.email, periodId, Pending, "-", "-", "-", "")]
    case Some(v) =>
      var status := if v.isFinal then Final else Draft;
      var ranges := Condense(v.slots);
      if |ranges| == 0 then
        [ReportRow(user.id, user.name, user.email, periodId, status, NoAvailability, "-", "-", v.comments)]
      else
        RangeRows(user, periodId, status, v.comments, ranges)
  }

  /** The row carries the user's identity and the period. */
  predicate RowOf(row: ReportRow, user: User, periodId: string) {
    row.instructorId == user.id && row.instructorName == user.name
    && row.instructorEmail == user.email && row.periodId == periodId
  }

  /** Range rows: one per range, on its day, with the given status and no line break in the comment. */
  lemma {:induction false} RangeRowsAt(user: User, periodId: string, status: Status, comments: string, rs: seq<TimeRange>)
    ensures var rows := RangeRows(user, periodId, status, comments, rs);
      && |rows| == |rs|
      && forall i :: 0 <= i < |rs| ==>
        && RowOf(rows[i], user, periodId) && rows[i].status == status && rows[i].day == rs[i].day
        && '\n' !in rows[i].comments
  {
    if |rs| > 0 {
      RangeRowsAt(user, periodId, status, comments, rs[1..]);
      var t := ReplaceAll(comments, '\n', ' ');
      assert '\n' !in t by {
        forall i | 0 <= i < |t|
          ensures t[i] != '\n'
        {
        }
      }
    }
  }

  /** Every row belongs to the user and the period, and its status tells pending and final apart. */
  predicate RowsShaped(rows: seq<ReportRow>, user: User, periodId: string, version: Option<Version>) {
    forall i :: 0 <= i < |rows| ==>
      && RowOf(rows[i], user, periodId)
      && (rows[i].status == Pending <==> version.None?)
      && (rows[i].status == Final <==> version.Some? && version.value.isFinal)
  }

  /**
   * The shape of a version's rows: at least one row, all of them the
   * user's; PENDIENTE exactly when there is no version; FINAL exactly when
   * the version is final.
   */
  lemma RowsShape(user: User, periodId: string, version: Option<Version>)
    ensures |ProcessVersionToRows(user, periodId, version)| >= 1
    ensures RowsShaped(ProcessVersionToRows(user, periodId, version), user, periodId, version)
  {
    if version.Some? {
      var v := version.value;
      RangeRowsAt(user, periodId, if v.isFinal then Final else Draft, v.comments, Condense(v.slots));
    }
  }

  /**
   * A version with no slots, and only such a version, gives the single
   * SIN DISPONIBILIDAD row, which keeps the comment as stored; any other
   * version gives one row per range, on the range's day, with the comment's
   * line breaks turned into spaces.
   */
  lemma VersionRows(user: User, periodId: string, v: Version)
    ensures var rows := ProcessVersionToRows(user, periodId, Some(v));
      |v.slots| == 0 <==> |rows| == 1 && rows[0].day == NoAvailability && rows[0].startTime == "-"
    ensures var rows := ProcessVersionToRows(user, periodId, Some(v));
      |v.slots| == 0 ==> rows[0].comments == v.comments
    ensures var rows := ProcessVersionToRows(user, periodId, Some(v));
      var ranges := Condense(v.slots);
      |v.slots| > 0 ==>
        && |rows| == |ranges|
        && forall i :: 0 <= i < |rows| ==> rows[i].day == ranges[i].day && '\n' !in rows[i].comments
  {
    CondenseFacts.CondenseEmptyIff(v.slots);
    var ranges := Condense(v.slots);
    if |ranges| > 0 {
      RangeRowsAt(user, periodId, if v.isFinal then Final else Draft, v.comments, ranges);
      var rows := ProcessVersionToRows(user, periodId, Some(v));
      if |rows| == 1 {
        TextsOfRange(ranges[0]);
        assert rows[0].startTime != "-";
      }
    }
  }

  /** A range's start text is a five-character clock, never the placeholder dash. */
  lemma TextsOfRange(r: TimeRange)
    ensures |StartText(r)| >= 5 && |EndText(r)| >= 5
  {
    Pad2RoundTrip(r.startMin / 60);
    Pad2RoundTrip(r.startMin % 60);
    DecimalTextShape(r.startMin / 60);
    DecimalTextShape(r.startMin % 60);
    DecimalTextShape(r.endMin / 60);
    DecimalTextShape(r.endMin % 60);
  }

  /** Both clock texts of a range read back as its minutes. */
  predicate Readable(r: TimeRange) {
    TextMinutes(StartText(r)) == Some(r.startMin) && TextMinutes(EndText(r)) == Some(r.endMin)
  }

  /** Reading a row back into a range: its day and the minutes of its two clock texts. */
  function ReadRange(row: ReportRow): Option<TimeRange> {
    match (TextMinutes(row.startTime), TextMinutes(row.endTime))
    case (Some(s), Some(e)) => Some(TimeRange(row.day, s, e))
    case _ => None
  }

  /** The ranges a list of rows can be read back into; placeholder rows read as nothing. */
  function ReadRanges(rows: seq<ReportRow>): seq<TimeRange> {
    if |rows| == 0 then []
    else
      (match ReadRange(rows[0]) case Some(r) => [r] case None => []) + ReadRanges(rows[1..])
  }

  lemma {:induction false} ReadRangeRows(user: User, periodId: string, status: Status, comments: string, rs: seq<TimeRange>)
    requires forall i :: 0 <= i < |rs| ==> Readable(rs[i])
    ensures ReadRanges(RangeRows(user, periodId, status, comments, rs)) == rs
  {
    if |rs| > 0 {
      var row := RangeRow(user, periodId, status, comments, rs[0]);
      var rest := RangeRows(user, periodId, status, comments, rs[1..]);
      ReadRangeRow(user, periodId, status, comments, rs[0]);
      ReadRangesCons(row, rest, rs[0]);
      ReadRangeRows(user, periodId, status, comments, rs[1..]);
      assert [rs[0]] + rs[1..] == rs;
    }
  }

  lemma ReadRangesCons(row: ReportRow, rest: seq<ReportRow>, r: TimeRange)
    requires ReadRange(row) == Some(r)
    ensures ReadRanges([row] + rest) == [r] + ReadRanges(rest)
  {
    assert ([row] + rest)[1..] == rest;
  }

  lemma ReadRangeRow(user: User, periodId: string, status: Status, comments: string, r: TimeRange)
    requires Readable(r)
    ensures ReadRange(RangeRow(user, periodId, status, comments, r)) == Some(r)
  {
  }

  /** The placeholder dash is not a clock text. */
  lemma DashUnreadable()
    ensures TextMinutes("-") == None
  {
  }

  /**
   * Round trip for one version: read back, the rows give exactly the
   * ranges the selection condenses to (none for an empty selection).
   */
  lemma RowsReadBack(user: User, periodId: string, v: Version)
    requires CondenseFacts.Writable(v.slots)
    ensures ReadRanges(ProcessVersionToRows(user, periodId, Some(v))) == Condense(v.slots)
  {
    var ranges := Condense(v.slots);
    if |ranges| == 0 {
      DashUnreadable();
    } else {
      forall i | 0 <= i < |ranges|
        ensures Readable(ranges[i])
      {
        CondenseFacts.CondenseTextsRead(v.slots, ranges[i]);
      }
      ReadRangeRows(user, periodId, if v.isFinal then Final else Draft, v.comments, ranges);
    }
  }

  /**
   * What the report promises the reader: the rows of day `d`, read back
   * and cut into half-hour cells, are exactly the slots selected on day `d`.
   */
  lemma RowsCoverSelection(user: User, periodId: string, v: Version, d: string)
    requires CondenseFacts.Writable(v.slots)
    ensures var rows := ProcessVersionToRows(user, periodId, Some(v));
      CondenseFacts.ExpandAll(Seqs.Filter(ReadRanges(rows), CondenseFacts.OnDay(d))) == Seqs.Sort(DayMinutes(v.slots, d))
  {
    RowsReadBack(user, periodId, v);
    CondenseFacts.CondenseRoundTrip(v.slots, d);
  }

  // --- CSV ---

  const HeaderFields: seq<string> :=
    ["ID Instructor", "Nombre", "Email", "Periodo", "Estado", "Día", "Hora Inicio", "Hora Fin", "Observaciones"]

  function Header(): string {
    Join(',', HeaderFields)
  }

  /** A row's nine values, in header order. */
  function Fields(row: ReportRow): (r: seq<string>)
    ensures |r| == |HeaderFields|
  {
    [row.instructorId, row.instructorName, row.instructorEmail, row.periodId, StatusText(row.status),
     row.day, row.startTime, row.endTime, row.comments]
  }

  /** A value between double quotes, with nothing escaped. */
  function Quote(s: string): string {
    ['"'] + s + ['"']
  }

  function QuoteAll(fs: seq<string>): (r: seq<string>)
    ensures |r| == |fs|
    ensures forall i :: 0 <= i < |fs| ==> r[i] == Quote(fs[i])
  {
    if |fs| == 0 then [] else [Quote(fs[0])] + QuoteAll(fs[1..])
  }

  /** One CSV line: the quoted values joined with commas. */
  function RowLine(row: ReportRow): string {
    Join(',', QuoteAll(Fields(row)))
  }

  function Lines(rows: seq<ReportRow>): (r: seq<string>)
    ensures |r| == |rows|
  {
    if |rows| == 0 then [] else [RowLine(rows[0])] + Lines(rows[1..])
  }

  /** `convertToCSV`: the header line, a line break, then the row lines joined by line breaks. */
  function ConvertToCSV(rows: seq<ReportRow>): string {
    Document(Header(), Lines(rows))
  }

  function Document(header: string, lines: seq<string>): string {
    header + "\n" + Join('\n', lines)
  }

  /** No value of the row holds `c`. */
  predicate FieldsAvoid(row: ReportRow, c: char) {
    forall i :: 0 <= i < |Fields(row)| ==> c !in Fields(row)[i]
  }

  lemma HeaderAvoids(c: char)
    requires c == '\n' || c == ','
    ensures forall i :: 0 <= i < |HeaderFields| ==> c !in HeaderFields[i]
  {
  }

  /** The header splits on commas into its nine column names. */
  lemma HeaderColumns()
    ensures Split(',', Header()) == HeaderFields
  {
    HeaderAvoids(',');
    SplitJoin(',', HeaderFields);
  }

  /** The header is a single line. */
  lemma HeaderOneLine()
    ensures '\n' !in Header()
  {
    HeaderAvoids('\n');
    JoinAvoids(',', HeaderFields, '\n');
  }

  /** A row line splits on commas into the row's nine quoted values when none holds a comma. */
  lemma RowColumns(row: ReportRow)
    requires FieldsAvoid(row, ',')
    ensures Split(',', RowLine(row)) == QuoteAll(Fields(row))
    ensures forall i :: 0 <= i < |HeaderFields| ==>
      var q := QuoteAll(Fields(row))[i];
      |q| >= 2 && q[1..|q| - 1] == Fields(row)[i]
  {
    var q := QuoteAll(Fields(row));
    forall i | 0 <= i < |q|
      ensures ',' !in q[i]
    {
      assert q[i] == ['"'] + Fields(row)[i] + ['"'];
    }
    SplitJoin(',', q);
  }

  /** A row line holds no line break when no value does. */
  lemma RowLineOneLine(row: ReportRow)
    requires FieldsAvoid(row, '\n')
    ensures '\n' !in RowLine(row)
  {
    var q := QuoteAll(Fields(row));
    forall i | 0 <= i < |q|
      ensures '\n' !in q[i]
    {
      assert q[i] == ['"'] + Fields(row)[i] + ['"'];
    }
    JoinAvoids(',', q, '\n');
  }

  lemma EmptyDocument(header: string)
    requires '\n' !in header
    ensures Split('\n', Document(header, [])) == [header, ""]
  {
    assert Document(header, []) == header + ['\n'] + "";
    SplitNoSeparator('\n', header, "");
  }

  /** With no rows, the CSV is the header followed by an empty line. */
  lemma CsvNoRows()
    ensures Split('\n', ConvertToCSV([])) == [Header(), ""]
  {
    HeaderOneLine();
    EmptyDocument(Header());
  }

  /** One line per row, in row order. */
  lemma {:induction false} LinesAt(rows: seq<ReportRow>, k: nat)
    requires k < |rows|
    ensures Lines(rows)[k] == RowLine(rows[k])
  {
    if k > 0 {
      LinesAt(rows[1..], k - 1);
    }
  }

  /** No value of any row holds a line break. */
  predicate NoBreaks(rows: seq<ReportRow>) {
    forall k :: 0 <= k < |rows| ==> FieldsAvoid(rows[k], '\n')
  }

  /** The row lines hold no line break when no value does. */
  lemma {:induction false} LinesOneLine(rows: seq<ReportRow>)
    requires NoBreaks(rows)
    ensures forall k :: 0 <= k < |rows| ==> '\n' !in Lines(rows)[k]
  {
    if |rows| > 0 {
      RowLineOneLine(rows[0]);
      LinesOneLine(rows[1..]);
    }
  }

  lemma DocumentLines(header: string, lines: seq<string>)
    requires |lines| > 0
    requires '\n' !in header && forall k :: 0 <= k < |lines| ==> '\n' !in lines[k]
    ensures Split('\n', Document(header, lines)) == [header] + lines
  {
    SplitHeadRest('\n', header, lines);
  }

  /**
   * Line structure of the CSV: split on line breaks it is the header
   * followed by one line per row, when no value holds a line break.
   */
  lemma CsvLines(rows: seq<ReportRow>)
    requires |rows| > 0
    requires NoBreaks(rows)
    ensures Split('\n', ConvertToCSV(rows)) == [Header()] + Lines(rows)
  {
    HeaderOneLine();
    LinesOneLine(rows);
    DocumentLines(Header(), Lines(rows));
  }

  // --- The two reports ---

  /** The effective version's content, if any. */
  function EffectiveOf(store: AvailabilityService, instructorId: string, periodId: string): (r: Option<Version>)
    reads store
    ensures r.Some? ==> r.value in store.versions && InScope(r.value, instructorId, periodId)
    ensures r.None? <==> forall v :: v in store.versions ==> !InScope(v, instructorId, periodId)
  {
    match store.GetEffectiveVersion(instructorId, periodId)
    case None => None
    case Some(e) => Some(e.version)
  }

  /**
   * `generateIndividualReport`: an unknown user is NotFound; otherwise the
   * CSV of that user's effective version in the period.
   */
  function GenerateIndividualReport(store: AvailabilityService, users: seq<User>, instructorId: string, periodId: string)
    : (r: Result<string, ServiceError>)
    reads store
    ensures r.Err? <==> forall i :: 0 <= i < |users| ==> users[i].id != instructorId
    ensures r.Err? ==> r.error == NotFound(InstructorNotFound)
    ensures r.Ok? ==> exists u :: (u in users && u.id == instructorId &&
      r.value == ConvertToCSV(ProcessVersionToRows(u, periodId, EffectiveOf(store, instructorId, periodId))))
  {
    match FindUser(users, instructorId)
    case None => Err(NotFound(InstructorNotFound))
    case Some(user) => Ok(ConvertToCSV(ProcessVersionToRows(user, periodId, EffectiveOf(store, instructorId, periodId))))
  }

  /** The user query of the consolidated report: active instructors. */
  predicate ListedInstructor(u: User) {
    u.role == Instructor && u.active
  }

  /** The rows of the listed users, user after user. */
  function ConsolidatedRows(store: AvailabilityService, users: seq<User>, periodId: string): seq<ReportRow>
    reads store
  {
    if |users| == 0 then []
    else
      var u := users[|users| - 1];
      ConsolidatedRows(store, users[..|users| - 1], periodId) + ProcessVersionToRows(u, periodId, EffectiveOf(store, u.id, periodId))
  }

  /** `generateConsolidatedReport`: every active instructor's rows, in query order, as one CSV. */
  method GenerateConsolidatedReport(store: AvailabilityService, users: seq<User>, periodId: string) returns (csv: string)
    ensures csv == ConvertToCSV(ConsolidatedRows(store, Seqs.Filter(users, ListedInstructor), periodId))
  {
    var listed := Seqs.Filter(users, ListedInstructor);
    var allRows: seq<ReportRow> := [];
    for i := 0 to |listed|
      invariant allRows == ConsolidatedRows(store, listed[..i], periodId)
    {
      var user := listed[i];
      var rows := ProcessVersionToRows(user, periodId, EffectiveOf(store, user.id, periodId));
      ConsolidatedStep(store, listed, periodId, i);
      allRows := allRows + rows;
    }
    assert listed[..|listed|] == listed;
    csv := ConvertToCSV(allRows);
  }

  lemma ConsolidatedStep(store: AvailabilityService, users: seq<User>, periodId: string, i: nat)
    requires i < |users|
    ensures ConsolidatedRows(store, users[..i + 1], periodId)
      == ConsolidatedRows(store, users[..i], periodId) + ProcessVersionToRows(users[i], periodId, EffectiveOf(store, users[i].id, periodId))
  {
    assert users[..i + 1][..i] == users[..i];
  }

  /** The rows of two lists of users are the rows of the first, then those of the second. */
  lemma {:induction false} ConsolidatedAppend(store: AvailabilityService, a: seq<User>, b: seq<User>, periodId: string)
    ensures ConsolidatedRows(store, a + b, periodId) == ConsolidatedRows(store, a, periodId) + ConsolidatedRows(store, b, periodId)
  {
    if |b| > 0 {
      var b' := b[..|b| - 1];
      assert (a + b)[..|a + b| - 1] == a + b';
      ConsolidatedAppend(store, a, b', periodId);
    } else {
      assert a + b == a;
    }
  }

  /**
   * Each listed user's rows appear as one block, between the rows of the
   * users before and after it; so every user has at least one row, and
   * every row is some listed user's.
   */
  lemma ConsolidatedBlock(store: AvailabilityService, users: seq<User>, periodId: string, k: nat)
    requires k < |users|
    ensures ConsolidatedRows(store, users, periodId) ==
      ConsolidatedRows(store, users[..k], periodId)
      + ProcessVersionToRows(users[k], periodId, EffectiveOf(store, users[k].id, periodId))
      + ConsolidatedRows(store, users[k + 1..], periodId)
  {
    assert users == users[..k + 1] + users[k + 1..];
    ConsolidatedAppend(store, users[..k + 1], users[k + 1..], periodId);
    assert users[..k + 1][..k] == users[..k];
  }

  /** At least one row per user. */
  lemma {:induction false} ConsolidatedCount(store: AvailabilityService, users: seq<User>, periodId: string)
    ensures |ConsolidatedRows(store, users, periodId)| >= |users|
  {
    if |users| > 0 {
      var u := users[|users| - 1];
      ConsolidatedCount(store, users[..|users| - 1], periodId);
      RowsShape(u, periodId, EffectiveOf(store, u.id, periodId));
    }
  }

  /** Every row of the consolidated report is the row of one of the listed users. */
  lemma {:induction false} RowOwner(store: AvailabilityService, users: seq<User>, periodId: string, j: nat)
    returns (k: nat)
    requires j < |ConsolidatedRows(store, users, periodId)|
    ensures k < |users| && RowOf(ConsolidatedRows(store, users, periodId)[j], users[k], periodId)
  {
    var p := users[..|users| - 1];
    var u := users[|users| - 1];
    var head := ConsolidatedRows(store, p, periodId);
    var mine := ProcessVersionToRows(u, periodId, EffectiveOf(store, u.id, periodId));
    assert ConsolidatedRows(store, users, periodId) == head + mine;
    if j < |head| {
      k := RowOwner(store, p, periodId, j);
      assert users[k] == p[k];
    } else {
      RowsShape(u, periodId, EffectiveOf(store, u.id, periodId));
      assert mine[j - |head|] == ConsolidatedRows(store, users, periodId)[j];
      k := |users| - 1;
    }
  }
}
