/**
 * The slot selection both client editors keep: a `Set` of slot ids in
 * insertion order, written here as a sequence without repeats. A click
 * toggles one slot; loading a version copies its slots into a new set.
 */
module Editor {
  import opened TimeGrid
  import Seqs

  predicate NotSlot(s: Slot, x: Slot) {
    x != s
  }

  /** `set.delete(s)` on a selection without repeats: every other slot, in order. */
  function Remove(selected: seq<Slot>, s: Slot): (r: seq<Slot>) {
    Seqs.Filter(selected, x => NotSlot(s, x))
  }

  /** The click handler's update: delete the slot when present, add it at the end otherwise. */
  function Toggle(selected: seq<Slot>, s: Slot): (r: seq<Slot>) {
    if s in selected then Remove(selected, s) else selected + [s]
  }

  /** `new Set(slots)`: the slots without repeats, in the order of their first occurrences. */
  function Load(slots: seq<Slot>): (r: seq<Slot>)
    ensures Seqs.NoDuplicates(r)
    ensures forall x :: x in r <==> x in slots
    ensures forall i, j :: 0 <= i < j < |r| ==> Seqs.FirstIndex(slots, r[i]) < Seqs.FirstIndex(slots, r[j])
  {
    var r := Seqs.Dedup(slots);
    Seqs.DedupOrder(slots);
    assert forall x :: x in slots ==> x in r by {
      forall x | x in slots
        ensures x in r
      {
        var i :| 0 <= i < |slots| && slots[i] == x;
      }
    }
    r
  }

  lemma RemoveMembership(selected: seq<Slot>, s: Slot, x: Slot)
    ensures x in Remove(selected, s) <==> x in selected && x != s
  {
    Seqs.FilterMembership(selected, y => NotSlot(s, y), x);
  }

  /** A toggle flips the membership of the clicked slot and of no other slot. */
  lemma ToggleMembership(selected: seq<Slot>, s: Slot, x: Slot)
    ensures x in Toggle(selected, s) <==> (if x == s then s !in selected else x in selected)
  {
    if s in selected {
      RemoveMembership(selected, s, x);
    }
  }

  /** Dropping elements from a list without repeats leaves none. */
  lemma {:induction false} FilterDistinct(s: seq<Slot>, p: Slot -> bool)
    requires Seqs.NoDuplicates(s)
    ensures Seqs.NoDuplicates(Seqs.Filter(s, p))
  {
    if |s| > 0 {
      var rest := s[1..];
      assert Seqs.NoDuplicates(rest) by {
        forall i, j | 0 <= i < j < |rest|
          ensures rest[i] != rest[j]
        {
          assert rest[i] == s[i + 1] && rest[j] == s[j + 1];
        }
      }
      FilterDistinct(rest, p);
      Seqs.FilterMembership(rest, p, s[0]);
      assert s[0] !in rest;
      var f := Seqs.Filter(rest, p);
      var h := if p(s[0]) then [s[0]] else [];
      forall i, j | 0 <= i < j < |h + f|
        ensures (h + f)[i] != (h + f)[j]
      {
        if |h| == 1 && i == 0 {
          assert (h + f)[j] == f[j - 1];
          assert f[j - 1] in f;
        }
      }
    }
  }

  /** A toggle keeps the selection free of repeats. */
  lemma ToggleDistinct(selected: seq<Slot>, s: Slot)
    requires Seqs.NoDuplicates(selected)
    ensures Seqs.NoDuplicates(Toggle(selected, s))
  {
    if s in selected {
      FilterDistinct(selected, x => NotSlot(s, x));
    }
  }

  /**
   * Toggling the same slot twice restores the set of selected slots; when
   * the slot was absent it restores the very same sequence.
   */
  lemma ToggleTwice(selected: seq<Slot>, s: Slot)
    ensures forall x :: x in Toggle(Toggle(selected, s), s) <==> x in selected
    ensures s !in selected ==> Toggle(Toggle(selected, s), s) == selected
  {
    var once := Toggle(selected, s);
    forall x
      ensures x in Toggle(once, s) <==> x in selected
    {
      ToggleMembership(selected, s, x);
      ToggleMembership(once, s, x);
      ToggleMembership(selected, s, s);
    }
    if s !in selected {
      assert once == selected + [s];
      Seqs.FilterAppend(selected, [s], x => NotSlot(s, x));
      Seqs.FilterAll(selected, x => NotSlot(s, x));
      Seqs.FilterNone([s], x => NotSlot(s, x));
    }
  }
}
