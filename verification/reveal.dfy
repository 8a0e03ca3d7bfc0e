/** Scroll reveal: every `[data-reveal]` element is observed, and the first
    time the observer reports it intersecting it gains `is-visible` and is
    no longer observed. Without an observer every element is made visible
    at once. How the browser decides "intersecting" is not modelled. */
module Reveal {

  /** One `[data-reveal]` element: whether it has `is-visible`, and whether
      the observer is watching it. */
  datatype Target = Target(visible: bool, observed: bool)

  /** One entry of an observer callback: the index of its target among the
      reveal elements, and whether it is intersecting. */
  datatype Entry = Entry(target: nat, isIntersecting: bool)

  /** Page load: with an observer and at least one element, observe every
      element; otherwise mark every element visible. */
  function Init(els: seq<Target>, hasObserver: bool): (r: seq<Target>)
    ensures |r| == |els|
    ensures hasObserver && |els| > 0 ==>
              forall i :: 0 <= i < |els| ==> r[i].observed && r[i].visible == els[i].visible
    ensures !hasObserver ==>
              forall i :: 0 <= i < |els| ==> r[i].visible && r[i].observed == els[i].observed
  {
    if hasObserver && |els| > 0 then
      seq(|els|, i requires 0 <= i < |els| => els[i].(observed := true))
    else
      seq(|els|, i requires 0 <= i < |els| => els[i].(visible := true))
  }

  /** One entry: an intersecting target gains `is-visible` and is
      unobserved; anything else is left as it is. */
  function OnEntry(els: seq<Target>, e: Entry): (r: seq<Target>)
    requires e.target < |els|
    ensures |r| == |els|
    ensures r[e.target].visible <==> els[e.target].visible || e.isIntersecting
    ensures r[e.target].observed <==> els[e.target].observed && !e.isIntersecting
    ensures forall i :: 0 <= i < |els| && i != e.target ==> r[i] == els[i]
  {
    if e.isIntersecting then els[e.target := Target(true, false)] else els
  }

  /** Some entry of the batch reports element `i` intersecting. */
  predicate Hit(entries: seq<Entry>, i: nat)
  {
    exists k :: 0 <= k < |entries| && entries[k].target == i && entries[k].isIntersecting
  }

  predicate Targets(els: seq<Target>, entries: seq<Entry>)
  {
    forall k :: 0 <= k < |entries| ==> entries[k].target < |els|
  }

  /** One observer callback, its entries handled in order. An element is
      visible afterwards exactly when it was before or the batch reports it
      intersecting, and it is still observed exactly when it was and the
      batch did not. */
  function OnEntries(els: seq<Target>, entries: seq<Entry>): (r: seq<Target>)
    requires Targets(els, entries)
    ensures |r| == |els|
    ensures forall i :: 0 <= i < |els| ==> (r[i].visible <==> els[i].visible || Hit(entries, i))
    ensures forall i :: 0 <= i < |els| ==> (r[i].observed <==> els[i].observed && !Hit(entries, i))
    decreases |entries|
  {
    if entries == [] then els
    else
      var next := OnEntry(els, entries[0]);
      assert forall i :: 0 <= i < |els| ==> (Hit(entries, i) <==> (entries[0].target == i && entries[0].isIntersecting) || Hit(entries[1..], i)) by {
        forall i | 0 <= i < |els|
          ensures Hit(entries, i) <==> (entries[0].target == i && entries[0].isIntersecting) || Hit(entries[1..], i)
        {
          if Hit(entries, i) {
            var k :| 0 <= k < |entries| && entries[k].target == i && entries[k].isIntersecting;
            if k > 0 {
              assert entries[1..][k - 1] == entries[k];
            }
          }
          if Hit(entries[1..], i) {
            var k :| 0 <= k < |entries[1..]| && entries[1..][k].target == i && entries[1..][k].isIntersecting;
            assert entries[k + 1] == entries[1..][k];
          }
        }
      }
      OnEntries(next, entries[1..])
  }

  /** No element is both visible and still observed. */
  predicate Settled(els: seq<Target>)
  {
    forall i :: 0 <= i < |els| ==> !(els[i].visible && els[i].observed)
  }

  predicate Pristine(els: seq<Target>)
  {
    forall i :: 0 <= i < |els| ==> !els[i].visible && !els[i].observed
  }

  /** Page load leaves no element both visible and observed. */
  lemma InitSettles(els: seq<Target>, hasObserver: bool)
    requires Pristine(els)
    ensures Settled(Init(els, hasObserver))
  {
  }

  /** Every callback keeps it so: an element is unobserved the moment it
      is revealed. */
  lemma OnEntriesKeepsSettled(els: seq<Target>, entries: seq<Entry>)
    requires Targets(els, entries)
    requires Settled(els)
    ensures Settled(OnEntries(els, entries))
  {
  }

  /** A revealed element is never touched again: visible elements come out
      of any callback exactly as they went in, so the reveal happens at most
      once per element. */
  lemma RevealedIsFinal(els: seq<Target>, entries: seq<Entry>)
    requires Targets(els, entries)
    requires Settled(els)
    ensures forall i :: 0 <= i < |els| && els[i].visible ==> OnEntries(els, entries)[i] == els[i]
  {
  }

  /** Without an observer every element is visible straight after load,
      and loading again changes nothing. */
  lemma FallbackRevealsAll(els: seq<Target>)
    ensures forall i :: 0 <= i < |els| ==> Init(els, false)[i].visible
    ensures Init(Init(els, false), false) == Init(els, false)
  {
  }
}
