/** Button ripples: a click on a .btn drops the ripple it already holds,
    appends a fresh one, and a timer later removes that specific ripple. */
module Ripple {

  /** A child node of a button: a node identity and whether it has the class
      "ripple". */
  datatype Child = Child(id: nat, ripple: bool)

  /** The number of ripple children. */
  function RippleCount(cs: seq<Child>): (n: nat)
    ensures n <= |cs|
  {
    if cs == [] then 0 else (if cs[0].ripple then 1 else 0) + RippleCount(cs[1..])
  }

  /** The children that are not ripples, in order. */
  function Others(cs: seq<Child>): (r: seq<Child>)
    ensures |r| + RippleCount(cs) == |cs|
  {
    if cs == [] then [] else (if cs[0].ripple then [] else [cs[0]]) + Others(cs[1..])
  }

  /** No two children are the same node. */
  predicate Distinct(cs: seq<Child>) {
    forall i, j :: 0 <= i < j < |cs| ==> cs[i].id != cs[j].id
  }

  /** Every identity among the children is below `bound`. */
  predicate Below(cs: seq<Child>, bound: nat) {
    forall k :: 0 <= k < |cs| ==> cs[k].id < bound
  }

  /** The click's clean-up of an earlier ripple: the first ripple child in
      document order is taken out, when there is one. One ripple fewer, the
      other children unchanged and in order. */
  function RemoveFirstRipple(cs: seq<Child>): (r: seq<Child>)
    ensures RippleCount(cs) == 0 ==> r == cs
    ensures RippleCount(cs) > 0 ==> RippleCount(r) == RippleCount(cs) - 1 && |r| == |cs| - 1
    ensures Others(r) == Others(cs)
    ensures forall c :: c in r ==> c in cs
  {
    if cs == [] then []
    else if cs[0].ripple then cs[1..]
    else
      var rest := RemoveFirstRipple(cs[1..]);
      assert ([cs[0]] + rest)[1..] == rest;
      [cs[0]] + rest
  }

  /** What goes before the first ripple is kept; the first ripple is what goes. */
  lemma {:induction false} RemoveFirstRippleAt(cs: seq<Child>, k: nat)
    requires k < |cs| && cs[k].ripple && forall j :: 0 <= j < k ==> !cs[j].ripple
    ensures RemoveFirstRipple(cs) == cs[..k] + cs[k + 1..]
  {
    if k > 0 {
      RemoveFirstRippleAt(cs[1..], k - 1);
      assert cs[..k] + cs[k + 1..] == [cs[0]] + (cs[1..][..k - 1] + cs[1..][k..]);
    }
  }

  /** Appending a child adds its share to the counts. */
  lemma {:induction false} CountsOfAppend(cs: seq<Child>, c: Child)
    ensures RippleCount(cs + [c]) == RippleCount(cs) + (if c.ripple then 1 else 0)
    ensures Others(cs + [c]) == Others(cs) + (if c.ripple then [] else [c])
  {
    if cs == [] {
      assert [c][1..] == [];
    } else {
      assert (cs + [c])[1..] == cs[1..] + [c];
      CountsOfAppend(cs[1..], c);
    }
  }

  /** `ripple.remove()` for one node: it leaves the button if it is a child of
      it; nothing happens if it is not. */
  function RemoveNode(cs: seq<Child>, id: nat): (r: seq<Child>)
    ensures forall c :: c in r <==> c in cs && c.id != id
    ensures (forall k :: 0 <= k < |cs| ==> cs[k].id != id) ==> r == cs
    ensures |r| <= |cs|
  {
    if cs == [] then []
    else if cs[0].id == id then RemoveNode(cs[1..], id)
    else [cs[0]] + RemoveNode(cs[1..], id)
  }

  /** Removing a node that is a child of a button takes out exactly that
      child and keeps what precedes and follows it, in order. */
  lemma {:induction false} RemoveNodeAt(cs: seq<Child>, id: nat, k: nat)
    requires Distinct(cs) && k < |cs| && cs[k].id == id
    ensures RemoveNode(cs, id) == cs[..k] + cs[k + 1..]
  {
    if k == 0 {
      assert forall j :: 0 <= j < |cs[1..]| ==> cs[1..][j].id != id;
    } else {
      var tail := cs[1..];
      assert tail[k - 1].id == id;
      calc {
        RemoveNode(cs, id);
        [cs[0]] + RemoveNode(tail, id);
        { RemoveNodeAt(tail, id, k - 1); }
        [cs[0]] + (tail[..k - 1] + tail[k..]);
        ([cs[0]] + tail[..k - 1]) + tail[k..];
        { assert cs[..k] == [cs[0]] + tail[..k - 1]; assert cs[k + 1..] == tail[k..]; }
        cs[..k] + cs[k + 1..];
      }
    }
  }

  /** Removing a ripple node of the button removes one ripple and keeps every
      other child: in a button holding just that ripple, none is left. */
  lemma {:induction false} RemoveRippleNode(cs: seq<Child>, id: nat)
    requires Distinct(cs)
    requires exists k :: 0 <= k < |cs| && cs[k] == Child(id, true)
    ensures RippleCount(RemoveNode(cs, id)) == RippleCount(cs) - 1
    ensures Others(RemoveNode(cs, id)) == Others(cs)
  {
    var k :| 0 <= k < |cs| && cs[k] == Child(id, true);
    if k == 0 {
      assert forall j :: 0 <= j < |cs[1..]| ==> cs[1..][j].id != id;
    } else {
      assert cs[1..][k - 1] == Child(id, true);
      RemoveRippleNode(cs[1..], id);
      var rest := RemoveNode(cs[1..], id);
      assert ([cs[0]] + rest)[1..] == rest;
    }
  }

  /** Children taken from a bounded button are bounded. */
  lemma BelowOfSubset(cs: seq<Child>, r: seq<Child>, bound: nat)
    requires Below(cs, bound) && forall c :: c in r ==> c in cs
    ensures Below(r, bound)
  {
    forall k | 0 <= k < |r| ensures r[k].id < bound {
      assert r[k] in cs;
    }
  }

  /** Taking out the first ripple keeps the children distinct. */
  lemma {:induction false} DistinctAfterRemoveFirst(cs: seq<Child>)
    requires Distinct(cs)
    ensures Distinct(RemoveFirstRipple(cs))
  {
    if cs != [] && !cs[0].ripple {
      DistinctAfterRemoveFirst(cs[1..]);
      var rest := RemoveFirstRipple(cs[1..]);
      forall k | 0 <= k < |rest| ensures rest[k].id != cs[0].id {
        assert rest[k] in cs[1..];
      }
    }
  }

  /** Removing a node keeps the children distinct. */
  lemma {:induction false} DistinctAfterRemove(cs: seq<Child>, id: nat)
    requires Distinct(cs)
    ensures Distinct(RemoveNode(cs, id))
  {
    if cs != [] {
      DistinctAfterRemove(cs[1..], id);
      if cs[0].id != id {
        var rest := RemoveNode(cs[1..], id);
        forall k | 0 <= k < |rest| ensures rest[k].id != cs[0].id {
          assert rest[k] in cs[1..];
        }
      }
    }
  }

  /** One .btn element and the children it holds. */
  class Button {
    var children: seq<Child>
    /** An identity no child of the button has: what createElement gives next. */
    var nextId: nat

    ghost predicate Valid()
      reads this
    {
      Distinct(children) && Below(children, nextId)
    }

    constructor (markup: seq<Child>, nextId: nat)
      requires Distinct(markup) && Below(markup, nextId)
      ensures Valid() && children == markup && this.nextId == nextId
    {
      children := markup;
      this.nextId := nextId;
    }

    /** A click: the first ripple child goes, one new ripple is appended, and
        its identity is returned for the 600 ms removal timer. A button holding
        at most one ripple holds exactly one afterwards, and its other children
        are unchanged. */
    method Click() returns (ripple: nat)
      requires Valid()
      modifies this
      ensures Valid() && ripple == old(nextId)
      ensures children == RemoveFirstRipple(old(children)) + [Child(ripple, true)]
      ensures RippleCount(children) == if RippleCount(old(children)) == 0 then 1 else RippleCount(old(children))
      ensures RippleCount(old(children)) <= 1 ==> RippleCount(children) == 1
      ensures Others(children) == Others(old(children))
    {
      ripple := nextId;
      var kept := RemoveFirstRipple(children);
      DistinctAfterRemoveFirst(children);
      BelowOfSubset(children, kept, ripple);
      CountsOfAppend(kept, Child(ripple, true));
      assert (kept + [Child(ripple, true)])[..|kept|] == kept;
      children := kept + [Child(ripple, true)];
      nextId := nextId + 1;
    }

    /** The removal timer of ripple `ripple` fires. A ripple a later click has
        already evicted is gone, so this changes nothing; otherwise exactly that
        ripple leaves and every other child stays. */
    method Expire(ripple: nat)
      requires Valid()
      modifies this
      ensures Valid() && nextId == old(nextId)
      ensures children == RemoveNode(old(children), ripple)
      ensures (forall k :: 0 <= k < |old(children)| ==> old(children)[k].id != ripple) ==>
        children == old(children)
      ensures (exists k :: 0 <= k < |old(children)| && old(children)[k] == Child(ripple, true)) ==>
        RippleCount(children) == RippleCount(old(children)) - 1 && Others(children) == Others(old(children))
      ensures forall k :: 0 <= k < |old(children)| && old(children)[k].id == ripple ==>
        children == old(children)[..k] + old(children)[k + 1..]
    {
      var before := children;
      children := RemoveNode(children, ripple);
      DistinctAfterRemove(before, ripple);
      BelowOfSubset(before, children, nextId);
      if exists k :: 0 <= k < |before| && before[k] == Child(ripple, true) {
        RemoveRippleNode(before, ripple);
      }
      forall k | 0 <= k < |before| && before[k].id == ripple
        ensures children == before[..k] + before[k + 1..]
      {
        RemoveNodeAt(before, ripple, k);
      }
    }
  }

  /** Two clicks in quick succession on a button holding only its label: one
      ripple at a time, the first ripple's timer finds it already gone, the
      second's takes the remaining ripple away. */
  method RapidDoubleClick() returns (afterFirstTimer: nat, afterSecondTimer: nat)
    ensures afterFirstTimer == 1 && afterSecondTimer == 0
  {
    var button := new Button([Child(0, false)], 1);
    var caption := [Child(0, false)];
    assert RippleCount(caption) == 0;
    var first := button.Click();
    assert button.children == caption + [Child(first, true)];
    assert RemoveFirstRipple(button.children) == caption by {
      RemoveFirstRippleAt(button.children, 1);
    }
    var second := button.Click();
    assert button.children == caption + [Child(second, true)] && first != second;
    button.Expire(first);
    afterFirstTimer := RippleCount(button.children);
    button.Expire(second);
    afterSecondTimer := RippleCount(button.children);
  }
}
