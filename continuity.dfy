/**
 * Maximal runs of consecutive values, the common core of the continuity
 * rule (both validators) and of the report condensation (both report
 * builders). A run is a stretch of a sorted list in which every value is
 * exactly `step` more than the previous one: `step` is 1 on the client's
 * grid positions and 30 on the server's minute offsets.
 */
module Continuity {
  import opened Wrappers

  /** The continuity rule: a run must hold at least four half-hour slots (two hours). */
  const MinRunLength: nat := 4

  function Last<T>(s: seq<T>): T
    requires |s| > 0
  {
    s[|s| - 1]
  }

  /**
   * The maximal runs of `s`, built left to right as the source's loops do:
   * each value either extends the current run (it is `step` more than the
   * previous value) or closes it and opens a new one.
   */
  function Runs(s: seq<int>, step: int): (rs: seq<seq<int>>)
    ensures |s| == 0 <==> |rs| == 0
    ensures |s| > 0 ==> |Last(rs)| > 0 && Last(Last(rs)) == Last(s)
  {
    if |s| == 0 then []
    else if |s| == 1 then [[s[0]]]
    else
      var prev := Runs(s[..|s| - 1], step);
      var x := s[|s| - 1];
      if x == s[|s| - 2] + step then prev[..|prev| - 1] + [Last(prev) + [x]]
      else prev + [[x]]
  }

  /** The runs laid end to end. */
  function Flatten(rs: seq<seq<int>>): seq<int> {
    if |rs| == 0 then [] else Flatten(rs[..|rs| - 1]) + Last(rs)
  }

  predicate Steps(run: seq<int>, step: int) {
    forall j :: 0 < j < |run| ==> run[j] == run[j - 1] + step
  }

  /** `rs` cuts `s` into maximal runs: nothing lost or reordered, steps inside, breaks between. */
  ghost predicate IsRunPartition(s: seq<int>, rs: seq<seq<int>>, step: int) {
    && Flatten(rs) == s
    && (forall k :: 0 <= k < |rs| ==> |rs[k]| > 0 && Steps(rs[k], step))
    && (forall k :: 0 < k < |rs| ==> rs[k][0] != Last(rs[k - 1]) + step)
  }

  /** The two ways Runs grows when one value is added at the end. */
  lemma RunsSnoc(s: seq<int>, step: int)
    requires |s| >= 2
    ensures var prev := Runs(s[..|s| - 1], step);
      if s[|s| - 1] == s[|s| - 2] + step then
        Runs(s, step) == prev[..|prev| - 1] + [Last(prev) + [s[|s| - 1]]]
      else
        Runs(s, step) == prev + [[s[|s| - 1]]]
  {
  }

  lemma {:induction false} RunsFlatten(s: seq<int>, step: int)
    ensures Flatten(Runs(s, step)) == s
  {
    if |s| >= 2 {
      var p := s[..|s| - 1];
      var x := s[|s| - 1];
      RunsFlatten(p, step);
      RunsSnoc(s, step);
      var prev := Runs(p, step);
      var n := |prev|;
      var rs := Runs(s, step);
      assert s == p + [x];
      if x == s[|s| - 2] + step {
        assert rs[..n - 1] == prev[..n - 1];
        assert Flatten(rs) == Flatten(prev[..n - 1]) + (Last(prev) + [x]);
      } else {
        assert rs[..n] == prev;
      }
    }
  }

  /** Every run is nonempty and steps by `step`; consecutive runs are separated by a break. */
  predicate Shaped(rs: seq<seq<int>>, step: int) {
    && (forall k :: 0 <= k < |rs| ==> |rs[k]| > 0 && Steps(rs[k], step))
    && (forall k :: 0 < k < |rs| ==> rs[k][0] != Last(rs[k - 1]) + step)
  }

  lemma {:induction false} RunsShape(s: seq<int>, step: int)
    ensures Shaped(Runs(s, step), step)
  {
    if |s| == 1 {
      assert Runs(s, step) == [[s[0]]];
    } else if |s| >= 2 {
      var p := s[..|s| - 1];
      var x := s[|s| - 1];
      var prev := Runs(p, step);
      RunsShape(p, step);
      RunsSnoc(s, step);
      assert Last(Last(prev)) == s[|s| - 2];
      if x == s[|s| - 2] + step {
        ShapedExtend(prev, x, step);
      } else {
        ShapedBreak(prev, x, step);
      }
    }
  }

  lemma ShapedExtend(prev: seq<seq<int>>, x: int, step: int)
    requires |prev| > 0 && Shaped(prev, step) && x == Last(Last(prev)) + step
    ensures Shaped(prev[..|prev| - 1] + [Last(prev) + [x]], step)
  {
    var n := |prev|;
    var rs := prev[..n - 1] + [Last(prev) + [x]];
    assert Steps(Last(prev) + [x], step);
    forall k | 0 <= k < |rs|
      ensures |rs[k]| > 0 && Steps(rs[k], step)
    {
      if k < n - 1 {
        assert rs[k] == prev[k];
      }
    }
    forall k | 0 < k < |rs|
      ensures rs[k][0] != Last(rs[k - 1]) + step
    {
      assert rs[k][0] == prev[k][0];
      assert rs[k - 1] == prev[k - 1];
    }
  }

  lemma ShapedBreak(prev: seq<seq<int>>, x: int, step: int)
    requires |prev| > 0 && Shaped(prev, step) && x != Last(Last(prev)) + step
    ensures Shaped(prev + [[x]], step)
  {
    var n := |prev|;
    var rs := prev + [[x]];
    forall k | 0 <= k < |rs|
      ensures |rs[k]| > 0 && Steps(rs[k], step)
    {
      if k < n {
        assert rs[k] == prev[k];
      }
    }
    forall k | 0 < k < |rs|
      ensures rs[k][0] != Last(rs[k - 1]) + step
    {
      if k < n {
        assert rs[k] == prev[k];
      }
      assert rs[k - 1] == prev[k - 1];
    }
  }

  /** Run `b` starts no earlier than run `a` ends; strictly later when `strict`. */
  predicate Follows(a: seq<int>, b: seq<int>, strict: bool) {
    |a| > 0 && |b| > 0 && (if strict then Last(a) < b[0] else Last(a) <= b[0])
  }

  /**
   * Runs of a sorted list follow each other: a run starts no earlier than
   * the previous one ends, and strictly later when the list has no repeats.
   */
  lemma {:induction false} RunsOrdered(s: seq<int>, step: int, strict: bool)
    requires forall i, j :: 0 <= i < j < |s| ==> (if strict then s[i] < s[j] else s[i] <= s[j])
    ensures forall k :: 0 < k < |Runs(s, step)| ==> Follows(Runs(s, step)[k - 1], Runs(s, step)[k], strict)
  {
    if |s| >= 2 {
      var p := s[..|s| - 1];
      RunsOrdered(p, step, strict);
      RunsSnoc(s, step);
      RunsShape(p, step);
      if s[|s| - 1] == s[|s| - 2] + step {
        RunsOrderedExtend(p, s[|s| - 1], step, strict);
      } else {
        RunsOrderedBreak(p, s[|s| - 1], step, strict);
      }
    }
  }

  lemma RunsOrderedExtend(p: seq<int>, x: int, step: int, strict: bool)
    requires |p| > 0
    requires forall k :: 0 <= k < |Runs(p, step)| ==> |Runs(p, step)[k]| > 0
    requires forall k :: 0 < k < |Runs(p, step)| ==> Follows(Runs(p, step)[k - 1], Runs(p, step)[k], strict)
    ensures var prev := Runs(p, step);
      var rs := prev[..|prev| - 1] + [Last(prev) + [x]];
      forall k :: 0 < k < |rs| ==> Follows(rs[k - 1], rs[k], strict)
  {
    var prev := Runs(p, step);
    var rs := prev[..|prev| - 1] + [Last(prev) + [x]];
    forall k | 0 < k < |rs|
      ensures Follows(rs[k - 1], rs[k], strict)
    {
      assert rs[k - 1] == prev[k - 1];
      assert rs[k][0] == prev[k][0];
    }
  }

  lemma RunsOrderedBreak(p: seq<int>, x: int, step: int, strict: bool)
    requires |p| > 0 && (if strict then Last(p) < x else Last(p) <= x)
    requires forall k :: 0 < k < |Runs(p, step)| ==> Follows(Runs(p, step)[k - 1], Runs(p, step)[k], strict)
    ensures var prev := Runs(p, step);
      var rs := prev + [[x]];
      forall k :: 0 < k < |rs| ==> Follows(rs[k - 1], rs[k], strict)
  {
    var prev := Runs(p, step);
    var rs := prev + [[x]];
    forall k | 0 < k < |rs|
      ensures Follows(rs[k - 1], rs[k], strict)
    {
      if k < |prev| {
        assert rs[k - 1] == prev[k - 1] && rs[k] == prev[k];
      }
    }
  }

  /** Every value of every run comes from the input. */
  lemma RunsMembers(s: seq<int>, step: int)
    ensures var rs := Runs(s, step);
      forall k, j :: 0 <= k < |rs| && 0 <= j < |rs[k]| ==> rs[k][j] in s
  {
    var rs := Runs(s, step);
    RunsFlatten(s, step);
    forall k, j | 0 <= k < |rs| && 0 <= j < |rs[k]|
      ensures rs[k][j] in s
    {
      FlattenMember(rs, rs[k][j]);
    }
  }

  /** The first and the last value of every run come from the input. */
  lemma RunEnds(s: seq<int>, step: int, k: nat)
    requires k < |Runs(s, step)|
    ensures |Runs(s, step)[k]| > 0
    ensures Runs(s, step)[k][0] in s && Last(Runs(s, step)[k]) in s
  {
    RunsShape(s, step);
    RunsMembers(s, step);
    var run := Runs(s, step)[k];
    assert run[|run| - 1] in s;
  }

  /** Consecutive runs of a sorted list follow each other, and are not one step apart. */
  lemma RunsFollowAt(s: seq<int>, step: int, k: nat, strict: bool)
    requires forall i, j :: 0 <= i < j < |s| ==> (if strict then s[i] < s[j] else s[i] <= s[j])
    requires 0 < k < |Runs(s, step)|
    ensures Follows(Runs(s, step)[k - 1], Runs(s, step)[k], strict)
    ensures Runs(s, step)[k][0] != Last(Runs(s, step)[k - 1]) + step
  {
    RunsShape(s, step);
    RunsOrdered(s, step, strict);
  }

  /** Runs cuts its input into maximal runs. */
  lemma RunsPartition(s: seq<int>, step: int)
    ensures IsRunPartition(s, Runs(s, step), step)
  {
    RunsFlatten(s, step);
    RunsShape(s, step);
  }

  /** A break between positions i-1 and i splits the runs into those before and those after. */
  lemma {:induction false} RunsSplit(s: seq<int>, i: nat, step: int)
    requires 0 < i < |s|
    requires s[i] != s[i - 1] + step
    ensures Runs(s, step) == Runs(s[..i], step) + Runs(s[i..], step)
    decreases |s|
  {
    var n := |s|;
    if n == i + 1 {
      assert s[i..] == [s[n - 1]];
      assert s[..n - 1] == s[..i];
      RunsSnoc(s, step);
    } else {
      RunsSplitStep(s, i, step);
    }
  }

  lemma RunsSplitStep(s: seq<int>, i: nat, step: int)
    requires 0 < i < |s| - 1
    requires s[i] != s[i - 1] + step
    ensures Runs(s, step) == Runs(s[..i], step) + Runs(s[i..], step)
    decreases |s|, 0
  {
    var p := s[..|s| - 1];
    SplitSlices(s, i);
    RunsSplit(p, i, step);
    RunsSplitExtend(s, Runs(s[..i], step), s[i..], step);
  }

  /** How the slices at `i` of a list and of the list without its last value relate. */
  lemma SplitSlices(s: seq<int>, i: nat)
    requires 0 < i < |s| - 1
    ensures var p := s[..|s| - 1]; var t := s[i..];
      && p[..i] == s[..i] && p[i..] == t[..|t| - 1]
      && p[i] == s[i] && p[i - 1] == s[i - 1]
      && |t| >= 2 && t[|t| - 1] == s[|s| - 1] && t[|t| - 2] == s[|s| - 2]
  {
  }

  /** One more value at the end affects only the runs after the break. */
  lemma RunsSplitExtend(s: seq<int>, a: seq<seq<int>>, t: seq<int>, step: int)
    requires |t| >= 2 && |t| < |s|
    requires t[|t| - 1] == s[|s| - 1] && t[|t| - 2] == s[|s| - 2]
    requires Runs(s[..|s| - 1], step) == a + Runs(t[..|t| - 1], step)
    ensures Runs(s, step) == a + Runs(t, step)
  {
    var x := s[|s| - 1];
    var b := Runs(t[..|t| - 1], step);
    RunsSnoc(s, step);
    RunsSnoc(t, step);
    if x == s[|s| - 2] + step {
      ConcatExtendLast(a, b, x);
    } else {
      assert (a + b) + [[x]] == a + (b + [[x]]);
    }
  }

  lemma ConcatExtendLast(a: seq<seq<int>>, b: seq<seq<int>>, x: int)
    requires |b| > 0
    ensures var ab := a + b;
      ab[..|ab| - 1] + [Last(ab) + [x]] == a + (b[..|b| - 1] + [Last(b) + [x]])
  {
    var ab := a + b;
    assert ab[..|ab| - 1] == a + b[..|b| - 1];
  }

  /** Position of the first run shorter than MinRunLength, if there is one. */
  function FirstShortRun(rs: seq<seq<int>>): (r: Option<nat>)
    ensures r.None? <==> forall k :: 0 <= k < |rs| ==> |rs[k]| >= MinRunLength
    ensures r.Some? ==> r.value < |rs| && |rs[r.value]| < MinRunLength
    ensures r.Some? ==> forall k :: 0 <= k < r.value ==> |rs[k]| >= MinRunLength
  {
    if |rs| == 0 then None
    else if |rs[0]| < MinRunLength then Some(0)
    else
      match FirstShortRun(rs[1..])
      case None => None
      case Some(k) => Some(k + 1)
  }

  /** The runs before a first short run are all long: adding more runs after it changes nothing. */
  lemma FirstShortRunPrefix(a: seq<seq<int>>, b: seq<seq<int>>)
    requires FirstShortRun(a).Some?
    ensures FirstShortRun(a + b) == FirstShortRun(a)
  {
    forall k | 0 <= k < |a|
      ensures (a + b)[k] == a[k]
    {
    }
  }

  /** After runs that are all long, the first short run is the first short run of what follows. */
  lemma {:induction false} FirstShortRunAfterLong(a: seq<seq<int>>, b: seq<seq<int>>)
    requires FirstShortRun(a).None?
    ensures FirstShortRun(a + b) == (match FirstShortRun(b) case None => None case Some(k) => Some(|a| + k))
  {
    if |a| == 0 {
      assert a + b == b;
    } else {
      assert (a + b)[0] == a[0] && (a + b)[1..] == a[1..] + b;
      FirstShortRunAfterLong(a[1..], b);
    }
  }


  lemma {:induction false} FlattenAppend(a: seq<seq<int>>, b: seq<seq<int>>)
    ensures Flatten(a + b) == Flatten(a) + Flatten(b)
    decreases |b|
  {
    if |b| > 0 {
      var b' := b[..|b| - 1];
      assert (a + b)[..|a + b| - 1] == a + b';
      assert Last(a + b) == Last(b);
      FlattenAppend(a, b');
    } else {
      assert a + b == a;
    }
  }

  /** A value is in the flattened runs exactly when some run holds it. */
  lemma {:induction false} FlattenMember(rs: seq<seq<int>>, x: int)
    ensures x in Flatten(rs) <==> exists k, j :: 0 <= k < |rs| && 0 <= j < |rs[k]| && rs[k][j] == x
  {
    if |rs| > 0 {
      var p := rs[..|rs| - 1];
      FlattenMember(p, x);
      if x in Flatten(rs) {
        if x in Flatten(p) {
          var k, j :| 0 <= k < |p| && 0 <= j < |p[k]| && p[k][j] == x;
          assert rs[k] == p[k];
        } else {
          assert x in Last(rs);
          var j :| 0 <= j < |Last(rs)| && Last(rs)[j] == x;
          assert rs[|rs| - 1][j] == x;
        }
      }
      if exists k, j :: 0 <= k < |rs| && 0 <= j < |rs[k]| && rs[k][j] == x {
        var k, j :| 0 <= k < |rs| && 0 <= j < |rs[k]| && rs[k][j] == x;
        if k < |p| {
          assert p[k] == rs[k];
        } else {
          assert rs[k] == Last(rs);
        }
      }
    }
  }

  /** Where the first run shorter than MinRunLength starts, if there is one. */
  function ShortRunStart(s: seq<int>, step: int): (r: Option<int>)
    ensures r.None? <==> FirstShortRun(Runs(s, step)).None?
    ensures r.Some? ==> r.value in s
  {
    var rs := Runs(s, step);
    match FirstShortRun(rs)
    case None => None
    case Some(k) =>
      RunsPartition(s, step);
      FlattenMember(rs, rs[k][0]);
      Some(rs[k][0])
  }

  /** The start reported is the first value of the first short run. */
  lemma ShortRunStartIsRunStart(s: seq<int>, step: int)
    ensures ShortRunStart(s, step).Some? ==>
      var rs := Runs(s, step);
      && FirstShortRun(rs).Some?
      && |rs[FirstShortRun(rs).value]| > 0
      && ShortRunStart(s, step).value == rs[FirstShortRun(rs).value][0]
  {
    RunsShape(s, step);
  }

  /** Inside a run, the j-th value is j steps past the first. */
  lemma {:induction false} StepsArithmetic(run: seq<int>, step: int, j: nat)
    requires Steps(run, step) && j < |run|
    ensures run[j] == run[0] + step * j
  {
    if j > 0 {
      StepsArithmetic(run, step, j - 1);
    }
  }

  /**
   * One step of a loop that scans `s` left to right keeping the runs closed
   * so far and the current run: the next value extends the current run or
   * closes it and opens a new one.
   */
  lemma RunsScanStep(s: seq<int>, j: nat, step: int, done: seq<seq<int>>, cur: seq<int>)
    requires 0 < j < |s|
    requires Runs(s[..j], step) == done + [cur]
    ensures s[j] == s[j - 1] + step ==> Runs(s[..j + 1], step) == done + [cur + [s[j]]]
    ensures s[j] != s[j - 1] + step ==> Runs(s[..j + 1], step) == (done + [cur]) + [[s[j]]]
  {
    var t := s[..j + 1];
    assert t[..j] == s[..j];
    RunsSnoc(t, step);
    assert (done + [cur])[..|done|] == done;
  }

  /** A scan that stops at a break (or at the end) right after a short current run has found the first short run. */
  lemma ShortRunFound(s: seq<int>, j: nat, step: int, done: seq<seq<int>>, cur: seq<int>)
    requires 0 < j <= |s|
    requires j < |s| ==> s[j] != s[j - 1] + step
    requires Runs(s[..j], step) == done + [cur]
    requires FirstShortRun(done).None? && 0 < |cur| < MinRunLength
    ensures ShortRunStart(s, step) == Some(cur[0])
  {
    FirstShortRunAfterLong(done, [cur]);
    assert FirstShortRun([cur]) == Some(0);
    if j < |s| {
      RunsSplit(s, j, step);
      FirstShortRunPrefix(done + [cur], Runs(s[j..], step));
    } else {
      assert s[..j] == s;
    }
  }

  /** A scan that reaches the end with every run long enough finds no short run. */
  lemma NoShortRun(s: seq<int>, step: int, done: seq<seq<int>>, cur: seq<int>)
    requires Runs(s, step) == done + [cur]
    requires FirstShortRun(done).None? && |cur| >= MinRunLength
    ensures ShortRunStart(s, step).None?
  {
    FirstShortRunAfterLong(done, [cur]);
  }

  /** The state of a left-to-right scan after `j` values: closed runs `done`, all long, and a current run of length `run`. */
  ghost predicate ScanState(s: seq<int>, step: int, j: nat, run: nat, done: seq<seq<int>>) {
    && 1 <= run <= j <= |s|
    && Runs(s[..j], step) == done + [s[j - run..j]]
    && FirstShortRun(done).None?
  }

  lemma ScanStart(s: seq<int>, step: int)
    requires |s| > 0
    ensures ScanState(s, step, 1, 1, [])
  {
    assert s[..1] == [s[0]];
  }

  /** The next value extends the current run. */
  lemma ScanExtend(s: seq<int>, step: int, j: nat, run: nat, done: seq<seq<int>>)
    requires ScanState(s, step, j, run, done) && j < |s|
    requires s[j] == s[j - 1] + step
    ensures ScanState(s, step, j + 1, run + 1, done)
  {
    RunsScanStep(s, j, step, done, s[j - run..j]);
    assert s[j - run..j] + [s[j]] == s[j - run..j + 1];
  }

  /** The next value starts a new run after a current run that was long enough. */
  lemma ScanBreak(s: seq<int>, step: int, j: nat, run: nat, done: seq<seq<int>>)
    requires ScanState(s, step, j, run, done) && j < |s|
    requires s[j] != s[j - 1] + step && run >= MinRunLength
    ensures ScanState(s, step, j + 1, 1, done + [s[j - run..j]])
  {
    RunsScanStep(s, j, step, done, s[j - run..j]);
    FirstShortRunAfterLong(done, [s[j - run..j]]);
    assert [s[j]] == s[j..j + 1];
  }

  /** A break, or the end, right after a short current run: it is the first short run. */
  lemma ScanShort(s: seq<int>, step: int, j: nat, run: nat, done: seq<seq<int>>)
    requires ScanState(s, step, j, run, done)
    requires j < |s| ==> s[j] != s[j - 1] + step
    requires run < MinRunLength
    ensures ShortRunStart(s, step) == Some(s[j - run])
  {
    ShortRunFound(s, j, step, done, s[j - run..j]);
  }

  /** The end with a long current run: there is no short run. */
  lemma ScanEnd(s: seq<int>, step: int, run: nat, done: seq<seq<int>>)
    requires ScanState(s, step, |s|, run, done)
    requires run >= MinRunLength
    ensures ShortRunStart(s, step).None?
  {
    assert s[..|s|] == s;
    NoShortRun(s, step, done, s[|s| - run..|s|]);
  }
}
