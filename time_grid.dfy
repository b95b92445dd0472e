/**
 * The weekly grid both copies of the availability engine work on: six
 * teaching days and half-hour cells starting at 07:30. A cell is identified
 * by `"<day>-<HH:MM>"`.
 *
 * The client enumerates the cell start times in a list of 31 texts
 * (07:30 to 22:30) and works with positions in that list. The server
 * converts a time to a half-hour index from 07:30 with decimal-hour
 * arithmetic; here that index is kept multiplied by 30, as the number of
 * minutes after 07:30 (the "offset"), so that a time off the half-hour
 * (08:15, index 1.5) is still represented exactly. The source's
 * floating-point index is exact only when the minutes are a multiple of 15;
 * for other minutes (07:40) it carries a rounding error that the model's
 * whole-minute offsets do not have.
 */
module TimeGrid {
  import opened Wrappers
  import opened Text
  import Seqs

  /** The six teaching days, Monday to Saturday, with no Sunday. */
  const Days: seq<string> := ["Lunes", "Martes", "Miércoles", "Jueves", "Viernes", "Sábado"]

  lemma DaysShape()
    ensures |Days| == 6 && Seqs.NoDuplicates(Days)
    ensures Days[0] == "Lunes" && Days[5] == "Sábado"
    ensures "Domingo" !in Days
  {
  }

  /** A well-formed `HH:MM` time, read as its two numbers. */
  datatype Clock = Clock(hour: nat, minute: nat)

  /** Minutes after midnight: `h * 60 + m`. */
  function Minutes(c: Clock): nat {
    60 * c.hour + c.minute
  }

  function ClockText(c: Clock): string {
    HourMinuteText(c.hour, c.minute)
  }

  /** A grid cell `"<day>-<HH:MM>"`, with the day and the time kept apart. */
  datatype Slot = Slot(day: string, time: Clock)

  function SlotId(s: Slot): string {
    s.day + "-" + ClockText(s.time)
  }

  /** 07:30, the start of the first cell. */
  const StartMinutes: nat := 450
  /** 22:30: the server accepts only cells starting before this time. */
  const EndMinutes: nat := 1350
  const SlotMinutes: nat := 30
  /** The client's list runs from 07:30 to 22:30 inclusive. */
  const GridLength: nat := 31

  /** The k-th entry of the client's list of cell start times. */
  function GridEntry(k: nat): string {
    MinutesText(StartMinutes + SlotMinutes * k)
  }

  /** The list of cell start times the client builds once at load time. */
  function Grid(): (g: seq<string>)
    ensures |g| == GridLength
    ensures forall k :: 0 <= k < |g| ==> g[k] == GridEntry(k)
  {
    seq(GridLength, (k: int) requires 0 <= k => GridEntry(k))
  }

  /**
   * `GENERATE_TIME_SLOTS`: walks `(hour, minute)` from 07:30 in steps of 30
   * minutes while the time is not after 22:30, appending each time's text.
   */
  method GenerateTimeSlots() returns (slots: seq<string>)
    ensures slots == Grid()
  {
    slots := [];
    var hour: nat := 7;
    var minute: nat := 30;
    while hour < 22 || (hour == 22 && minute <= 30)
      invariant Generated(hour, minute, slots)
      invariant 60 * hour + minute <= 1380
      decreases 1380 - (60 * hour + minute)
    {
      GenerateStep(hour, minute, slots);
      slots := slots + [HourMinuteText(hour, minute)];
      minute := minute + 30;
      if minute == 60 {
        minute := 0;
        hour := hour + 1;
      }
    }
    GenerateEnd(hour, minute, slots);
  }

  /** The generator has reached `hour:minute` after writing the first `|slots|` entries. */
  ghost predicate Generated(hour: nat, minute: nat, slots: seq<string>) {
    && (minute == 0 || minute == 30)
    && 60 * hour + minute == StartMinutes + SlotMinutes * |slots|
    && |slots| <= GridLength
    && slots == GridPrefix(|slots|)
  }

  /** The first `n` entries of the list. */
  function GridPrefix(n: nat): seq<string> {
    if n == 0 then [] else GridPrefix(n - 1) + [GridEntry(n - 1)]
  }

  lemma {:induction false} GridPrefixIsGrid(n: nat)
    requires n <= GridLength
    ensures GridPrefix(n) == Grid()[..n]
  {
    if n > 0 {
      GridPrefixIsGrid(n - 1);
      PrefixSnoc(Grid(), n);
    }
  }

  lemma PrefixSnoc<T>(s: seq<T>, n: nat)
    requires 0 < n <= |s|
    ensures s[..n] == s[..n - 1] + [s[n - 1]]
  {
  }

  lemma GenerateStep(hour: nat, minute: nat, slots: seq<string>)
    requires Generated(hour, minute, slots) && (hour < 22 || (hour == 22 && minute <= 30))
    ensures var next := slots + [HourMinuteText(hour, minute)];
      if minute + 30 == 60 then Generated(hour + 1, 0, next) && 60 * (hour + 1) <= 1380
      else Generated(hour, minute + 30, next) && 60 * hour + minute + 30 <= 1380
  {
    GridEntryText(hour, minute, |slots|);
  }

  lemma GenerateEnd(hour: nat, minute: nat, slots: seq<string>)
    requires Generated(hour, minute, slots) && !(hour < 22 || (hour == 22 && minute <= 30))
    ensures slots == Grid()
  {
    GridPrefixIsGrid(GridLength);
  }

  /** The clock `hour:minute` that is `n` half hours after 07:30 is written as the n-th entry. */
  lemma GridEntryText(hour: nat, minute: nat, n: nat)
    requires minute < 60 && 60 * hour + minute == StartMinutes + SlotMinutes * n
    ensures GridEntry(n) == HourMinuteText(hour, minute)
  {
    DivMod60(StartMinutes + SlotMinutes * n, hour, minute);
  }

  lemma DivMod60(m: nat, hour: nat, minute: nat)
    requires minute < 60 && m == 60 * hour + minute
    ensures m / 60 == hour && m % 60 == minute
  {
  }

  /** Reading an entry back: its clock is `30 k` minutes after 07:30, on the hour or the half hour. */
  lemma GridEntryClock(k: nat)
    requires k < GridLength
    ensures var m := StartMinutes + SlotMinutes * k;
      && |GridEntry(k)| == 5
      && ParseHourMinute(GridEntry(k)) == Some((m / 60, m % 60))
      && (m % 60 == 0 || m % 60 == 30)
  {
    var m := StartMinutes + SlotMinutes * k;
    GridAligned(k);
    HourMinuteRoundTrip(m / 60, m % 60);
  }

  lemma GridAligned(k: nat)
    requires k < GridLength
    ensures var m := StartMinutes + SlotMinutes * k;
      m / 60 < 24 && (m % 60 == 0 || m % 60 == 30)
  {
    var m := StartMinutes + SlotMinutes * k;
    if k % 2 == 0 {
      DivMod60(m, 7 + k / 2, 30);
    } else {
      DivMod60(m, 8 + k / 2, 0);
    }
  }

  /** The minutes after midnight that a `HH:MM` text denotes. */
  function TextMinutes(s: string): Option<nat> {
    match ParseHourMinute(s)
    case None => None
    case Some((h, m)) => Some(60 * h + m)
  }

  /** A count of minutes below 100 hours reads back from its clock text. */
  lemma MinutesTextReads(m: nat)
    ensures m < 6000 ==> TextMinutes(MinutesText(m)) == Some(m)
  {
    if m < 6000 {
      HourMinuteRoundTrip(m / 60, m % 60);
    }
  }

  /** The client's list has 31 entries, from "07:30" to "22:30". */
  lemma GridEnds()
    ensures |Grid()| == 31
    ensures Grid()[0] == "07:30" && Grid()[30] == "22:30"
  {
    GridEntryText(7, 30, 0);
    GridEntryText(22, 30, 30);
    GridEndTexts();
  }

  /**
   * Each entry is a five-character zero-padded `HH:MM` on the hour or the
   * half hour, 30 minutes after the entry before it.
   */
  lemma GridEntries()
    ensures forall k :: 0 <= k < |Grid()| ==>
      |Grid()[k]| == 5 && TextMinutes(Grid()[k]) == Some(StartMinutes + SlotMinutes * k)
    ensures forall k :: 0 < k < |Grid()| ==>
      TextMinutes(Grid()[k]).value == TextMinutes(Grid()[k - 1]).value + 30
    ensures forall k :: 0 <= k < |Grid()| ==> Grid()[k][3..] == "00" || Grid()[k][3..] == "30"
  {
    forall k | 0 <= k < GridLength
      ensures |GridEntry(k)| == 5 && TextMinutes(GridEntry(k)) == Some(StartMinutes + SlotMinutes * k)
      ensures GridEntry(k)[3..] == "00" || GridEntry(k)[3..] == "30"
    {
      GridEntryFacts(k);
    }
  }

  lemma GridEntryFacts(k: nat)
    requires k < GridLength
    ensures |GridEntry(k)| == 5 && TextMinutes(GridEntry(k)) == Some(StartMinutes + SlotMinutes * k)
    ensures GridEntry(k)[3..] == "00" || GridEntry(k)[3..] == "30"
  {
    GridEntryClock(k);
    var m := StartMinutes + SlotMinutes * k;
    assert GridEntry(k)[3..] == Pad2(m % 60);
    if m % 60 == 0 {
      assert DecimalText(0) == "0";
    } else {
      assert DecimalText(3) == "3";
      assert DecimalText(30) == "30";
    }
  }

  /** The entries are strictly increasing, so none repeats. */
  lemma GridDistinct()
    ensures Seqs.NoDuplicates(Grid())
  {
    GridEntries();
    var g := Grid();
    forall j, k | 0 <= j < k < |g|
      ensures g[j] != g[k]
    {
      assert TextMinutes(g[j]) != TextMinutes(g[k]);
    }
  }

  /**
   * The client's `TIME_SLOTS_STRINGS.indexOf(time)`: a time is found exactly
   * when it is on the hour or the half hour between 07:30 and 22:30, and its
   * position is the number of half hours after 07:30; otherwise -1.
   */
  lemma GridLookup(c: Clock)
    requires c.hour < 100 && c.minute < 100
    ensures IndexOf(Grid(), ClockText(c)) ==
      if (c.minute == 0 || c.minute == 30) && StartMinutes <= Minutes(c) <= EndMinutes
      then (Minutes(c) - StartMinutes) / SlotMinutes
      else -1
  {
    var g := Grid();
    var text := ClockText(c);
    if (c.minute == 0 || c.minute == 30) && StartMinutes <= Minutes(c) <= EndMinutes {
      var k := (Minutes(c) - StartMinutes) / SlotMinutes;
      GridHit(c);
      GridDistinct();
      var r := IndexOf(g, text);
      assert g[r] == g[k];
    } else {
      GridMiss(c);
    }
  }

  lemma GridHit(c: Clock)
    requires (c.minute == 0 || c.minute == 30) && StartMinutes <= Minutes(c) <= EndMinutes
    ensures var k := (Minutes(c) - StartMinutes) / SlotMinutes;
      k < GridLength && Grid()[k] == ClockText(c)
  {
    var k := (Minutes(c) - StartMinutes) / SlotMinutes;
    assert StartMinutes + SlotMinutes * k == Minutes(c);
    GridEntryText(c.hour, c.minute, k);
  }

  lemma GridMiss(c: Clock)
    requires c.hour < 100 && c.minute < 100
    requires !((c.minute == 0 || c.minute == 30) && StartMinutes <= Minutes(c) <= EndMinutes)
    ensures ClockText(c) !in Grid()
  {
    if ClockText(c) in Grid() {
      var k :| 0 <= k < |Grid()| && Grid()[k] == ClockText(c);
      GridEntryIsAligned(c, k);
      assert false;
    }
  }

  /** Only an aligned clock between 07:30 and 22:30 can have the text of a grid entry. */
  lemma GridEntryIsAligned(c: Clock, k: nat)
    requires c.hour < 100 && c.minute < 100 && k < GridLength
    requires GridEntry(k) == ClockText(c)
    ensures c.minute == 0 || c.minute == 30
    ensures Minutes(c) == StartMinutes + SlotMinutes * k
  {
    GridEntryClock(k);
    HourMinuteRoundTrip(c.hour, c.minute);
    var m := StartMinutes + SlotMinutes * k;
    assert c.hour == m / 60 && c.minute == m % 60;
  }

  /**
   * The server's `timeToIndex`, scaled by 30: the minutes after 07:30, or
   * None (the source's -1) for a time before 07:30 or at or after 22:30.
   */
  function TimeToOffset(c: Clock): (r: Option<nat>)
    ensures r.None? <==> Minutes(c) < StartMinutes || Minutes(c) >= EndMinutes
    ensures r.Some? ==> Minutes(c) == StartMinutes + r.value
  {
    if Minutes(c) < StartMinutes || Minutes(c) >= EndMinutes then None
    else Some(Minutes(c) - StartMinutes)
  }

  /** The server's `indexToTime`, on the scaled index: the clock text `offset` minutes after 07:30. */
  function OffsetToTime(offset: nat): string {
    MinutesText(StartMinutes + offset)
  }

  /**
   * The server's index of an aligned time between 07:30 and 22:00 is its
   * position 0..29 in the half-hour grid; 22:30 and later have none.
   */
  lemma TimeToIndexAligned(c: Clock)
    requires c.minute == 0 || c.minute == 30
    ensures StartMinutes <= Minutes(c) < EndMinutes ==>
      TimeToOffset(c).Some? && TimeToOffset(c).value % SlotMinutes == 0 &&
      0 <= TimeToOffset(c).value / SlotMinutes <= 29
    ensures Minutes(c) >= EndMinutes ==> TimeToOffset(c).None?
  {
  }

  /**
   * `indexToTime(timeToIndex(t)) == t` in exact arithmetic, for every
   * accepted `HH:MM` with minutes below 60. The source's floating-point
   * arithmetic agrees when the minutes are a multiple of 15, which includes
   * every grid time.
   */
  lemma OffsetRoundTrip(c: Clock)
    requires c.minute < 60
    requires TimeToOffset(c).Some?
    ensures OffsetToTime(TimeToOffset(c).value) == ClockText(c)
  {
    var m := StartMinutes + TimeToOffset(c).value;
    assert m == 60 * c.hour + c.minute;
    assert m / 60 == c.hour && m % 60 == c.minute;
  }

  /**
   * Where the two copies agree: for an aligned time before 22:30 the
   * client's list position k and the server's index agree (offset = 30 k).
   * At 22:30 they part: the client finds position 30, the server rejects it.
   */
  lemma LookupAgreement(c: Clock)
    requires c.hour < 100 && (c.minute == 0 || c.minute == 30)
    ensures Minutes(c) < EndMinutes ==>
      (TimeToOffset(c).Some? <==> IndexOf(Grid(), ClockText(c)) != -1)
    ensures TimeToOffset(c).Some? ==> TimeToOffset(c).value == SlotMinutes * IndexOf(Grid(), ClockText(c))
    ensures Minutes(c) == EndMinutes ==>
      TimeToOffset(c).None? && IndexOf(Grid(), ClockText(c)) == 30
  {
    GridLookup(c);
    var m := Minutes(c);
    var idx := IndexOf(Grid(), ClockText(c));
    var q := 2 * c.hour + c.minute / 30;
    assert m == 30 * q;
    if m < StartMinutes {
      assert idx == -1;
    } else if m <= EndMinutes {
      assert idx == q - 15;
    } else {
      assert idx == -1;
    }
  }
}
