/**
 * Grouping slots by day. Every copy of the engine builds a record keyed by
 * day name, creating a day's key the first time a slot names it, and then
 * walks `Object.keys` of the record: the days in order of first appearance.
 */
module DayGroups {
  import opened TimeGrid
  import Seqs

  /** The days in the order they first appear: the key order of the day map. */
  function DayOrder(slots: seq<Slot>): (days: seq<string>)
    ensures Seqs.NoDuplicates(days)
  {
    if |slots| == 0 then []
    else
      var prev := DayOrder(slots[..|slots| - 1]);
      var d := slots[|slots| - 1].day;
      if d in prev then prev else prev + [d]
  }

  /** The key order lists exactly the days some slot names. */
  lemma {:induction false} DayOrderMembers(slots: seq<Slot>)
    ensures forall i :: 0 <= i < |slots| ==> slots[i].day in DayOrder(slots)
    ensures forall d :: d in DayOrder(slots) ==> exists i :: 0 <= i < |slots| && slots[i].day == d
  {
    if |slots| > 0 {
      var p := slots[..|slots| - 1];
      DayOrderMembers(p);
      assert forall i :: 0 <= i < |p| ==> p[i] == slots[i];
    }
  }

  /** A slot on a day already seen leaves the key order alone; a new day goes last. */
  lemma DayOrderSnoc(slots: seq<Slot>, s: Slot)
    ensures DayOrder(slots + [s]) ==
      if s.day in DayOrder(slots) then DayOrder(slots) else DayOrder(slots) + [s.day]
  {
    assert (slots + [s])[..|slots|] == slots;
  }
}
