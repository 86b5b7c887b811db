/** The entries an IntersectionObserver hands its callback. The browser's
    geometry (threshold, root margin) is not modelled: each entry just says
    which element of the observed group it is about and whether it intersects. */
module Observer {

  /** One IntersectionObserverEntry: the index of its target in the element
      group and its isIntersecting flag. */
  datatype Entry = Entry(target: nat, isIntersecting: bool)

  /** Every entry of the batch is about an element of a group of n elements. */
  predicate InGroup(entries: seq<Entry>, n: nat) {
    forall k :: 0 <= k < |entries| ==> entries[k].target < n
  }

  /** The targets of the intersecting entries of a batch. */
  function IntersectingTargets(entries: seq<Entry>): (r: set<nat>)
    ensures forall t :: t in r <==>
      exists k :: 0 <= k < |entries| && entries[k].target == t && entries[k].isIntersecting
  {
    if entries == [] then {}
    else
      var init := entries[..|entries| - 1];
      var last := entries[|entries| - 1];
      assert forall k :: 0 <= k < |init| ==> init[k] == entries[k];
      IntersectingTargets(init) + (if last.isIntersecting then {last.target} else {})
  }


  /** The indices of a group of n elements: what observing each of them adds
      to an observer's set of observed elements. */
  function Indices(n: nat): (r: set<nat>)
    ensures forall i: nat :: i in r <==> i < n
  {
    if n == 0 then {} else Indices(n - 1) + {n - 1}
  }
}
