/**
 * Availability versions and the queries both the server and the client run
 * over a list of them: an instructor's versions for a period (the "scope"),
 * the first final version, newest-first ordering, and the rule that picks
 * the version a report or an editor uses: the final one if there is one,
 * else the newest.
 */
module Versions {
  import opened Wrappers
  import opened TimeGrid
  import Seqs

  /**
   * One saved selection. `createdAt` stands for the creation timestamp; a
   * missing comment is kept as the empty text, which every reader of it
   * treats the same way.
   */
  datatype Version = Version(
    id: nat,
    instructorId: string,
    periodId: string,
    slots: seq<Slot>,
    comments: string,
    isFinal: bool,
    createdAt: int)

  predicate InScope(v: Version, instructorId: string, periodId: string) {
    v.instructorId == instructorId && v.periodId == periodId
  }

  /** The versions of one instructor in one period, in table order. */
  function Scope(vs: seq<Version>, instructorId: string, periodId: string): (r: seq<Version>)
    ensures forall v :: v in r <==> v in vs && InScope(v, instructorId, periodId)
  {
    var r := Seqs.Filter(vs, v => InScope(v, instructorId, periodId));
    forall v ensures v in r <==> v in vs && InScope(v, instructorId, periodId) {
      Seqs.FilterMembership(vs, u => InScope(u, instructorId, periodId), v);
    }
    r
  }

  /** The versions of one instructor, any period, in table order. */
  function OfInstructor(vs: seq<Version>, instructorId: string): (r: seq<Version>)
    ensures forall v :: v in r <==> v in vs && v.instructorId == instructorId
  {
    var r := Seqs.Filter(vs, (v: Version) => v.instructorId == instructorId);
    forall v ensures v in r <==> v in vs && v.instructorId == instructorId {
      Seqs.FilterMembership(vs, (u: Version) => u.instructorId == instructorId, v);
    }
    r
  }

  /** `vs.find(v => v.isFinal)`: the first final version in list order. */
  function FirstFinal(vs: seq<Version>): (r: Option<Version>)
    ensures r.None? <==> forall i :: 0 <= i < |vs| ==> !vs[i].isFinal
    ensures r.Some? ==> r.value in vs && r.value.isFinal
    ensures r.Some? ==>
      exists i :: 0 <= i < |vs| && vs[i] == r.value && forall j :: 0 <= j < i ==> !vs[j].isFinal
  {
    if |vs| == 0 then None
    else if vs[0].isFinal then Some(vs[0])
    else
      var r := FirstFinal(vs[1..]);
      assert forall i :: 1 <= i < |vs| ==> vs[i] == vs[1..][i - 1];
      assert r.Some? ==>
        exists i :: 0 <= i < |vs| && vs[i] == r.value && forall j :: 0 <= j < i ==> !vs[j].isFinal
      by {
        if r.Some? {
          var k :| 0 <= k < |vs| - 1 && vs[1..][k] == r.value && forall j :: 0 <= j < k ==> !vs[1..][j].isFinal;
          assert vs[k + 1] == r.value;
        }
      }
      r
  }

  /** `filter` keeps the first version exactly when it is the instructor's. */
  lemma OfInstructorCons(vs: seq<Version>, instructorId: string)
    requires |vs| > 0
    ensures OfInstructor(vs, instructorId) == (if vs[0].instructorId == instructorId then [vs[0]] else []) + OfInstructor(vs[1..], instructorId)
  {
  }

  /** `find` stops at a final first version and otherwise searches the rest. */
  lemma FirstFinalCons(v: Version, vs: seq<Version>)
    ensures FirstFinal([v] + vs) == if v.isFinal then Some(v) else FirstFinal(vs)
  {
    assert ([v] + vs)[1..] == vs;
  }

  /** Position `i` holds the instructor's first final version in `vs`. */
  ghost predicate FirstOwnFinalAt(vs: seq<Version>, instructorId: string, i: int) {
    0 <= i < |vs| && vs[i].instructorId == instructorId && vs[i].isFinal &&
    forall j :: 0 <= j < i ==> !(vs[j].isFinal && vs[j].instructorId == instructorId)
  }

  /** One version in front of the table moves the instructor's first final one back by one, unless it is that one. */
  lemma FirstOwnFinalCons(vs: seq<Version>, instructorId: string, k: int)
    requires |vs| > 0 && !(vs[0].isFinal && vs[0].instructorId == instructorId)
    requires FirstOwnFinalAt(vs[1..], instructorId, k)
    ensures FirstOwnFinalAt(vs, instructorId, k + 1) && vs[k + 1] == vs[1..][k]
  {
    assert forall j :: 1 <= j < k + 1 ==> vs[j] == vs[1..][j - 1];
  }

  /**
   * The first final version among an instructor's versions is the first
   * version of the whole table that is both theirs and final.
   */
  lemma {:induction false} FirstFinalOfInstructor(vs: seq<Version>, instructorId: string)
    ensures FirstFinal(OfInstructor(vs, instructorId)).Some? ==>
      exists i :: FirstOwnFinalAt(vs, instructorId, i) && vs[i] == FirstFinal(OfInstructor(vs, instructorId)).value
  {
    if |vs| > 0 {
      var mine := OfInstructor(vs, instructorId);
      var rest := OfInstructor(vs[1..], instructorId);
      FirstFinalOfInstructor(vs[1..], instructorId);
      OfInstructorCons(vs, instructorId);
      if vs[0].instructorId == instructorId && vs[0].isFinal {
        FirstFinalCons(vs[0], rest);
        assert FirstOwnFinalAt(vs, instructorId, 0);
      } else {
        if vs[0].instructorId == instructorId {
          FirstFinalCons(vs[0], rest);
        } else {
          assert mine == rest;
        }
        if FirstFinal(rest).Some? {
          var k :| FirstOwnFinalAt(vs[1..], instructorId, k) && vs[1..][k] == FirstFinal(rest).value;
          FirstOwnFinalCons(vs, instructorId, k);
        }
      }
    }
  }

  function NegCreatedAt(v: Version): int {
    -v.createdAt
  }

  /** The versions sorted by creation time, newest first; equal times keep their order. */
  function NewestFirst(vs: seq<Version>): (r: seq<Version>)
    ensures multiset(r) == multiset(vs)
    ensures forall i, j :: 0 <= i < j < |r| ==> r[i].createdAt >= r[j].createdAt
  {
    var r := Seqs.SortBy(vs, NegCreatedAt);
    assert forall i, j :: 0 <= i < j < |r| ==> NegCreatedAt(r[i]) <= NegCreatedAt(r[j]);
    r
  }

  /** The head of the newest-first list is a version no other version is newer than. */
  lemma NewestFirstHead(vs: seq<Version>)
    requires |vs| > 0
    ensures |NewestFirst(vs)| > 0
    ensures NewestFirst(vs)[0] in vs
    ensures forall w :: w in vs ==> w.createdAt <= NewestFirst(vs)[0].createdAt
  {
    var r := NewestFirst(vs);
    assert |r| == |multiset(r)| == |multiset(vs)| == |vs|;
    assert r[0] in multiset(vs);
    forall w | w in vs
      ensures w.createdAt <= r[0].createdAt
    {
      assert w in multiset(r);
      var j :| 0 <= j < |r| && r[j] == w;
    }
  }

  /** `vs.find(v => v.isFinal) || newest`: the final version, else the newest, else none. */
  function FinalOrNewest(vs: seq<Version>): Option<Version> {
    match FirstFinal(vs)
    case Some(v) => Some(v)
    case None =>
      var sorted := NewestFirst(vs);
      if |sorted| == 0 then None else Some(sorted[0])
  }

  /**
   * The choice rule: with a final version that one is chosen (the first in
   * list order); otherwise the newest one, which is then a draft; with no
   * versions at all, none.
   */
  lemma FinalOrNewestChoice(vs: seq<Version>)
    ensures FinalOrNewest(vs).None? <==> |vs| == 0
    ensures FinalOrNewest(vs).Some? ==> FinalOrNewest(vs).value in vs
    ensures FirstFinal(vs).Some? ==> FinalOrNewest(vs) == FirstFinal(vs)
    ensures FirstFinal(vs).None? && |vs| > 0 ==>
      !FinalOrNewest(vs).value.isFinal &&
      forall w :: w in vs ==> w.createdAt <= FinalOrNewest(vs).value.createdAt
  {
    var r := NewestFirst(vs);
    assert |r| == |multiset(r)| == |multiset(vs)| == |vs|;
    if FirstFinal(vs).None? && |vs| > 0 {
      NewestFirstHead(vs);
    }
  }

  /** At most one final version per (instructor, period) scope. */
  ghost predicate SingleFinal(vs: seq<Version>) {
    forall i, j ::
      (0 <= i < |vs| && 0 <= j < |vs| && vs[i].isFinal && vs[j].isFinal &&
       vs[i].instructorId == vs[j].instructorId && vs[i].periodId == vs[j].periodId) ==> i == j
  }

  predicate UniqueIds(vs: seq<Version>) {
    forall i, j :: 0 <= i < j < |vs| ==> vs[i].id != vs[j].id
  }

  /** The version with a given id, if any. */
  function FindById(vs: seq<Version>, id: nat): (r: Option<Version>)
    ensures r.None? <==> forall i :: 0 <= i < |vs| ==> vs[i].id != id
    ensures r.Some? ==> r.value in vs && r.value.id == id
  {
    if |vs| == 0 then None
    else if vs[0].id == id then Some(vs[0])
    else
      var r := FindById(vs[1..], id);
      assert forall i :: 1 <= i < |vs| ==> vs[i] == vs[1..][i - 1];
      r
  }

  /**
   * The table after marking version `id` final within the scope (instructor,
   * period): every final version of the scope is unmarked and the version
   * with that id is marked. The server runs this as one transaction; the
   * client's in-memory handler computes the same table.
   */
  function MarkFinalTable(vs: seq<Version>, id: nat, instructorId: string, periodId: string): (r: seq<Version>)
    ensures |r| == |vs|
    ensures forall i :: 0 <= i < |vs| ==> r[i] == vs[i].(isFinal := r[i].isFinal)
    ensures forall i :: 0 <= i < |vs| && InScope(vs[i], instructorId, periodId) ==> (r[i].isFinal <==> vs[i].id == id)
    ensures forall i :: 0 <= i < |vs| && !InScope(vs[i], instructorId, periodId) && vs[i].id != id ==> r[i] == vs[i]
    ensures forall i :: 0 <= i < |vs| && vs[i].id == id ==> r[i].isFinal
  {
    seq(|vs|, i requires 0 <= i < |vs| =>
      if vs[i].id == id then vs[i].(isFinal := true)
      else if InScope(vs[i], instructorId, periodId) && vs[i].isFinal then vs[i].(isFinal := false)
      else vs[i])
  }

  /**
   * Marking a stored version final within its own scope leaves it the only
   * final version of that scope, keeps the ids unique and at most one final
   * version in every scope, and changes no version outside the scope.
   */
  lemma MarkFinalEffect(vs: seq<Version>, t: Version)
    requires UniqueIds(vs) && SingleFinal(vs) && t in vs
    ensures var r := MarkFinalTable(vs, t.id, t.instructorId, t.periodId);
      && (forall i :: 0 <= i < |vs| && !InScope(vs[i], t.instructorId, t.periodId) ==> r[i] == vs[i])
      && UniqueIds(r)
      && SingleFinal(r)
  {
    var r := MarkFinalTable(vs, t.id, t.instructorId, t.periodId);
    forall i, j | 0 <= i < |r| && 0 <= j < |r| && r[i].isFinal && r[j].isFinal &&
      r[i].instructorId == r[j].instructorId && r[i].periodId == r[j].periodId
      ensures i == j
    {
      if InScope(vs[i], t.instructorId, t.periodId) {
        assert vs[i].id == t.id && vs[j].id == t.id;
      } else {
        assert vs[i].isFinal && vs[j].isFinal;
      }
    }
  }
}
