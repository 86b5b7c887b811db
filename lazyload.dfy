/** Lazy background images: each .media-panel / .card-img element gains the
    class "loaded" the first time it intersects, and is then unobserved. */
module LazyLoad {
  import opened Observer

  /** The background observer and the group it watches, by index: which
      elements carry "loaded" (the markup may already give it) and which are
      still observed. */
  class LazyBackgrounds {
    const count: nat
    var loaded: set<nat>
    var observed: set<nat>

    ghost predicate Valid()
      reads this
    {
      (forall i :: i in loaded ==> i < count) && (forall i :: i in observed ==> i < count)
    }

    /** new IntersectionObserver(...): nothing is observed yet. */
    constructor (count: nat, loadedInMarkup: set<nat>)
      requires forall i :: i in loadedInMarkup ==> i < count
      ensures Valid() && this.count == count
      ensures loaded == loadedInMarkup && observed == {}
    {
      this.count := count;
      loaded := loadedInMarkup;
      observed := {};
    }

    /** Page load: the observer is asked to watch every element of the group,
        one after another. */
    method Setup()
      requires Valid()
      modifies this
      ensures Valid() && loaded == old(loaded)
      ensures observed == old(observed) + Indices(count)
    {
      for i := 0 to count
        invariant Valid() && loaded == old(loaded)
        invariant observed == old(observed) + Indices(i)
      {
        observed := observed + {i};
      }
    }

    /** One callback: each intersecting entry adds "loaded" to its target and
        unobserves it; other entries change nothing. Hence "loaded" only grows,
        the observed set only shrinks, and every element reported intersecting
        ends loaded and unobserved. */
    method OnEntries(entries: seq<Entry>)
      requires Valid() && InGroup(entries, count)
      modifies this
      ensures Valid()
      ensures loaded == old(loaded) + IntersectingTargets(entries)
      ensures observed == old(observed) - IntersectingTargets(entries)
    {
      for k := 0 to |entries|
        invariant Valid()
        invariant loaded == old(loaded) + IntersectingTargets(entries[..k])
        invariant observed == old(observed) - IntersectingTargets(entries[..k])
      {
        assert entries[..k + 1][..k] == entries[..k];
        if entries[k].isIntersecting {
          loaded := loaded + {entries[k].target};
          observed := observed - {entries[k].target};
        }
      }
      assert entries[..|entries|] == entries;
    }
  }
}
