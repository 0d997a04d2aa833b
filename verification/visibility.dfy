/**
 * The view's visibility gate: a flag that starts false and is raised the
 * first time the intersection observer reports that the card intersects
 * the scroll area. Rows are rendered in full only once it is raised.
 */
module Visibility {

  /** What the observer callback reads of one observer entry. */
  datatype Entry = Entry(isIntersecting: bool)

  /** The callback's test: the first entry exists and is intersecting. */
  predicate FirstIntersecting(entries: seq<Entry>)
  {
    |entries| > 0 && entries[0].isIntersecting
  }

  /** The flag after one callback, from the flag before it. */
  function Next(visible: bool, entries: seq<Entry>): bool
  {
    if FirstIntersecting(entries) then true else visible
  }

  /** The flag after a series of callbacks, in order. */
  function Replay(visible: bool, batches: seq<seq<Entry>>): bool
    decreases |batches|
  {
    if batches == [] then visible else Replay(Next(visible, batches[0]), batches[1..])
  }

  /** Once raised the flag stays raised, whatever the callbacks report. */
  lemma {:induction false} ReplayKeepsVisible(batches: seq<seq<Entry>>)
    ensures Replay(true, batches)
  {
    if batches != [] {
      ReplayKeepsVisible(batches[1..]);
    }
  }

  /** From the initial false, the flag is raised after a series of callbacks
      exactly when one of them saw its first entry intersecting. */
  lemma {:induction false} ReplayFromHidden(batches: seq<seq<Entry>>)
    ensures Replay(false, batches) <==> exists i :: 0 <= i < |batches| && FirstIntersecting(batches[i])
  {
    if batches != [] {
      if FirstIntersecting(batches[0]) {
        ReplayKeepsVisible(batches[1..]);
      } else {
        ReplayFromHidden(batches[1..]);
        if exists i :: 0 <= i < |batches| && FirstIntersecting(batches[i]) {
          var i :| 0 <= i < |batches| && FirstIntersecting(batches[i]);
          assert batches[1..][i - 1] == batches[i];
        }
        if exists i :: 0 <= i < |batches[1..]| && FirstIntersecting(batches[1..][i]) {
          var i :| 0 <= i < |batches[1..]| && FirstIntersecting(batches[1..][i]);
          assert batches[i + 1] == batches[1..][i];
        }
      }
    }
  }

  /** One-way: a longer series of callbacks never lowers the flag that a
      shorter prefix of it raised. */
  lemma {:induction false} ReplayPrefixMonotone(visible: bool, batches: seq<seq<Entry>>, k: nat)
    requires k <= |batches|
    ensures Replay(visible, batches[..k]) ==> Replay(visible, batches)
    decreases k
  {
    if k > 0 {
      assert batches[..k][0] == batches[0];
      assert batches[..k][1..] == batches[1..][..k - 1];
      ReplayPrefixMonotone(Next(visible, batches[0]), batches[1..], k - 1);
    } else if visible {
      ReplayKeepsVisible(batches);
    }
  }

  /** The mounted AccountDistribution view's `isVisible` state. */
  class AccountDistributionView {
    var isVisible: bool

    /** `useState(false)`. */
    constructor ()
      ensures !isVisible
    {
      isVisible := false;
    }

    /** The observer callback: raise the flag when the first entry is
        intersecting; otherwise leave it as it was. It never lowers it. */
    method OnIntersection(entries: seq<Entry>)
      modifies this
      ensures isVisible == Next(old(isVisible), entries)
      ensures old(isVisible) ==> isVisible
      ensures isVisible != old(isVisible) ==> FirstIntersecting(entries)
    {
      if |entries| > 0 && entries[0].isIntersecting {
        isVisible := true;
      }
    }
  }
}
