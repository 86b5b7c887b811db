/** Reveal-on-scroll: every .reveal element is hidden at load and shown once
    an intersection entry reports it inside the viewport. */
module Reveal {
  import opened Observer

  /** The inline style of a .reveal element: as the markup left it, hidden
      (opacity 0, translateY(30px), with the 0.6 s transition) or shown
      (opacity 1, translateY(0), the transition kept). */
  datatype Look = Unstyled | Hidden | Shown

  /** The callback's effect on the group's looks, entry by entry in order:
      an intersecting entry shows its target, any other entry does nothing. */
  function Revealed(looks: seq<Look>, entries: seq<Entry>): (r: seq<Look>)
    requires InGroup(entries, |looks|)
    ensures |r| == |looks|
    ensures forall i :: 0 <= i < |looks| ==>
      r[i] == if i in IntersectingTargets(entries) then Shown else looks[i]
  {
    if entries == [] then looks
    else
      var last := entries[|entries| - 1];
      var before := Revealed(looks, entries[..|entries| - 1]);
      if last.isIntersecting then before[last.target := Shown] else before
  }

  /** Showing is a latch: a shown element stays shown through any later
      batch, and a batch with no intersecting entry changes nothing. */
  lemma {:induction false} RevealedIsLatch(looks: seq<Look>, entries: seq<Entry>)
    requires InGroup(entries, |looks|)
    ensures forall i :: 0 <= i < |looks| && looks[i] == Shown ==> Revealed(looks, entries)[i] == Shown
    ensures (forall k :: 0 <= k < |entries| ==> !entries[k].isIntersecting) ==>
      Revealed(looks, entries) == looks
  {
  }

  /** The reveal observer and the .reveal group it watches. It never
      unobserves: once observed, an element stays observed. */
  class RevealObserver {
    var looks: seq<Look>
    var observed: set<nat>

    ghost predicate Valid()
      reads this
    {
      forall i :: i in observed ==> i < |looks|
    }

    /** new IntersectionObserver(...): nothing is observed yet. */
    constructor (group: seq<Look>)
      ensures Valid() && looks == group && observed == {}
    {
      looks := group;
      observed := {};
    }

    /** The setup loop: hide each element, then observe it. */
    method Setup()
      requires Valid()
      modifies this
      ensures Valid()
      ensures |looks| == |old(looks)| && forall i :: 0 <= i < |looks| ==> looks[i] == Hidden
      ensures observed == old(observed) + Indices(|looks|)
    {
      var n := |looks|;
      for i := 0 to n
        invariant |looks| == n
        invariant forall j :: 0 <= j < i ==> looks[j] == Hidden
        invariant observed == old(observed) + Indices(i)
      {
        looks := looks[i := Hidden];
        observed := observed + {i};
      }
    }

    /** One callback with a batch of entries about observed elements. */
    method OnEntries(entries: seq<Entry>)
      requires Valid()
      requires forall k :: 0 <= k < |entries| ==> entries[k].target in observed
      modifies this
      ensures Valid() && observed == old(observed)
      ensures looks == Revealed(old(looks), entries)
    {
      for k := 0 to |entries|
        invariant observed == old(observed) && |looks| == |old(looks)|
        invariant looks == Revealed(old(looks), entries[..k])
      {
        assert entries[..k + 1][..k] == entries[..k];
        if entries[k].isIntersecting {
          looks := looks[entries[k].target := Shown];
        }
      }
      assert entries[..|entries|] == entries;
    }
  }
}
