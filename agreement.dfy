/**
 * The two copies of the continuity rule side by side. On a selection of
 * known days and half-hour cells from 07:30 to 22:00 they accept and refuse
 * the same selections: the server's scaled index of a cell is 30 times the
 * client's list position, sorting and run building commute with that
 * scaling, and run lengths are all either copy looks at.
 */
module Agreement {
  import opened Wrappers
  import opened TimeGrid
  import opened Continuity
  import opened SlotValidation
  import opened ClientValidation
  import Seqs

  /** Client positions turned into server indices: each times 30. */
  function Scale(s: seq<int>): (r: seq<int>)
    ensures |r| == |s|
    ensures forall i :: 0 <= i < |s| ==> r[i] == SlotMinutes * s[i]
  {
    seq(|s|, i requires 0 <= i < |s| => SlotMinutes * s[i])
  }

  function ScaleRuns(rs: seq<seq<int>>): (r: seq<seq<int>>)
    ensures |r| == |rs|
    ensures forall k :: 0 <= k < |rs| ==> r[k] == Scale(rs[k])
  {
    seq(|rs|, k requires 0 <= k < |rs| => Scale(rs[k]))
  }

  /** Inserting into a sorted list commutes with the scaling. */
  lemma {:induction false} InsertScale(x: int, s: seq<int>)
    requires Seqs.SortedBy(s, Seqs.Identity)
    ensures Seqs.SortedBy(Scale(s), Seqs.Identity)
    ensures Seqs.InsertBy(SlotMinutes * x, Scale(s), Seqs.Identity) == Scale(Seqs.InsertBy(x, s, Seqs.Identity))
  {
    if |s| > 0 && x > s[0] {
      assert Scale(s)[1..] == Scale(s[1..]);
      InsertScale(x, s[1..]);
      var rest := Seqs.InsertBy(x, s[1..], Seqs.Identity);
      assert Scale([s[0]] + rest) == [SlotMinutes * s[0]] + Scale(rest);
    } else if |s| > 0 {
      assert Scale([x] + s) == [SlotMinutes * x] + Scale(s);
    }
  }

  lemma {:induction false} SortByScale(s: seq<int>)
    ensures Seqs.SortBy(Scale(s), Seqs.Identity) == Scale(Seqs.SortBy(s, Seqs.Identity))
  {
    if |s| > 0 {
      assert Scale(s)[1..] == Scale(s[1..]);
      SortByScale(s[1..]);
      InsertScale(s[0], Seqs.SortBy(s[1..], Seqs.Identity));
    }
  }

  /** Sorting the server's indices is sorting the client's positions, then scaling. */
  lemma SortScale(s: seq<int>)
    ensures Seqs.Sort(Scale(s)) == Scale(Seqs.Sort(s))
  {
    SortByScale(s);
  }

  /** The runs of the scaled list, 30 apart, are the scaled runs of the positions, 1 apart. */
  lemma {:induction false} RunsScale(s: seq<int>)
    ensures Runs(Scale(s), SlotMinutes) == ScaleRuns(Runs(s, 1))
  {
    var t := Scale(s);
    if |s| == 1 {
      assert Runs(t, SlotMinutes) == [[t[0]]];
      assert Scale([s[0]]) == [t[0]];
      assert ScaleRuns([[s[0]]]) == [[t[0]]];
    } else if |s| >= 2 {
      var n := |s|;
      assert t[..n - 1] == Scale(s[..n - 1]);
      RunsScale(s[..n - 1]);
      var prev := Runs(s[..n - 1], 1);
      var sp := ScaleRuns(prev);
      assert t[n - 1] == t[n - 2] + SlotMinutes <==> s[n - 1] == s[n - 2] + 1;
      if s[n - 1] == s[n - 2] + 1 {
        assert Runs(t, SlotMinutes) == sp[..|sp| - 1] + [Last(sp) + [t[n - 1]]];
        ScaleRunsExtend(prev, s[n - 1]);
      } else {
        assert Runs(t, SlotMinutes) == sp + [[t[n - 1]]];
        ScaleRunsBreak(prev, s[n - 1]);
      }
    }
  }

  lemma ScaleRunsExtend(prev: seq<seq<int>>, x: int)
    requires |prev| > 0
    ensures var sp := ScaleRuns(prev);
      ScaleRuns(prev[..|prev| - 1] + [Last(prev) + [x]]) == sp[..|sp| - 1] + [Last(sp) + [SlotMinutes * x]]
  {
    var sp := ScaleRuns(prev);
    var ext := prev[..|prev| - 1] + [Last(prev) + [x]];
    assert Scale(Last(prev) + [x]) == Last(sp) + [SlotMinutes * x];
    assert forall k :: 0 <= k < |prev| - 1 ==> ext[k] == prev[k];
  }

  lemma ScaleRunsBreak(prev: seq<seq<int>>, x: int)
    ensures ScaleRuns(prev + [[x]]) == ScaleRuns(prev) + [[SlotMinutes * x]]
  {
    var brk := prev + [[x]];
    assert Scale([x]) == [SlotMinutes * x];
    assert forall k :: 0 <= k < |prev| ==> brk[k] == prev[k];
  }

  /** A selection both copies read the same way: known days, half-hour cells from 07:30 to 22:00. */
  predicate OnGrid(slots: seq<Slot>) {
    forall i :: 0 <= i < |slots| ==>
      var c := slots[i].time;
      slots[i].day in Days && c.hour < 100 && (c.minute == 0 || c.minute == 30)
      && StartMinutes <= Minutes(c) < EndMinutes
  }

  /** On such a selection the server's indices for a day are the client's positions times 30. */
  lemma {:induction false} OffsetsArePositions(slots: seq<Slot>, d: string)
    requires OnGrid(slots)
    ensures DayOffsets(slots, d) == Scale(GridPositions(slots, d))
  {
    if |slots| > 0 {
      var p := slots[..|slots| - 1];
      var s := slots[|slots| - 1];
      assert OnGrid(p) by {
        forall i | 0 <= i < |p|
          ensures p[i] == slots[i]
        {
        }
      }
      OffsetsArePositions(p, d);
      PushedIsFound(s, d);
      assert Scale(GridPositions(p, d) + Found(s, d)) == Scale(GridPositions(p, d)) + Scale(Found(s, d));
    }
  }

  lemma PushedIsFound(s: Slot, d: string)
    requires s.time.hour < 100 && (s.time.minute == 0 || s.time.minute == 30)
    requires StartMinutes <= Minutes(s.time) < EndMinutes
    ensures Pushed(s, d) == Scale(Found(s, d))
  {
    LookupAgreement(s.time);
  }

  /** On such a selection the server's runs of a day are the client's chains, scaled. */
  lemma DayRunsScaled(slots: seq<Slot>, d: string)
    requires OnGrid(slots)
    ensures DayRuns(slots, d) == ScaleRuns(Runs(Seqs.Sort(GridPositions(slots, d)), 1))
  {
    var gp := GridPositions(slots, d);
    OffsetsArePositions(slots, d);
    SortScale(gp);
    RunsScale(Seqs.Sort(gp));
  }

  /** Scaling keeps every run's length, so the short runs are the same. */
  lemma ScaledShort(rs: seq<seq<int>>)
    ensures FirstShortRun(rs).None? <==> forall k :: 0 <= k < |ScaleRuns(rs)| ==> |ScaleRuns(rs)[k]| >= MinRunLength
  {
    assert forall k :: 0 <= k < |rs| ==> |ScaleRuns(rs)[k]| == |rs[k]|;
  }

  /** One day: the client's day check passes exactly when the server finds the day continuous. */
  lemma DayAgreement(slots: seq<Slot>, d: string)
    requires OnGrid(slots)
    requires d in DayGroups.DayOrder(slots)
    ensures DayPasses(slots, d) <==> DayContinuous(slots, d)
  {
    var sorted := Seqs.Sort(GridPositions(slots, d));
    DayRunsScaled(slots, d);
    DayOffsetsNonEmpty(slots, d);
    ScaledShort(Runs(sorted, 1));
    assert |sorted| > 0 by {
      SortScale(GridPositions(slots, d));
      OffsetsArePositions(slots, d);
    }
  }

  /**
   * The client accepts a selection of known days and half-hour cells before
   * 22:30 exactly when the server does.
   */
  lemma CopiesAgree(slots: seq<Slot>)
    requires OnGrid(slots)
    ensures ClientValidate(slots) == Valid <==> Validate(slots) == Pass
  {
    ClientValidIff(slots);
    ValidIff(slots);
    DayGroups.DayOrderMembers(slots);
    forall i | 0 <= i < |slots|
      ensures SlotOk(slots[i])
      ensures DayPasses(slots, slots[i].day) <==> DayContinuous(slots, slots[i].day)
    {
      DayAgreement(slots, slots[i].day);
    }
  }
}
