/**
 The visibility flag both `CountUp` and `Reveal` keep: an intersection
 observer callback that sets it to true whenever its entry intersects the
 viewport, and never sets it to anything else.
 */
module Visibility {

  /** The observer callback: `if (entry.isIntersecting) setIsVisible(true)`. */
  function Latch(isVisible: bool, isIntersecting: bool): (r: bool)
    ensures isVisible ==> r
    ensures isIntersecting ==> r
    ensures r ==> isVisible || isIntersecting
  {
    if isIntersecting then true else isVisible
  }

  /** The flag after the observer has delivered `entries`, oldest first. */
  function AfterEntries(isVisible: bool, entries: seq<bool>): bool
    decreases |entries|
  {
    if entries == [] then isVisible
    else Latch(AfterEntries(isVisible, entries[..|entries| - 1]), entries[|entries| - 1])
  }

  /** The flag is set exactly when it started set or some delivered entry intersected. */
  lemma {:induction false} AfterEntriesIff(isVisible: bool, entries: seq<bool>)
    ensures AfterEntries(isVisible, entries) <==> isVisible || exists i :: 0 <= i < |entries| && entries[i]
    decreases |entries|
  {
    if entries != [] {
      var init := entries[..|entries| - 1];
      AfterEntriesIff(isVisible, init);
      if exists i :: 0 <= i < |init| && init[i] {
        var i :| 0 <= i < |init| && init[i];
        assert entries[i];
      }
      if exists i :: 0 <= i < |entries| && entries[i] {
        var i :| 0 <= i < |entries| && entries[i];
        if i < |init| {
          assert init[i];
        }
      }
    }
  }

  /** Once set, the flag stays set whatever entries follow. */
  lemma NeverReverts(isVisible: bool, entries: seq<bool>, i: nat, j: nat)
    requires i <= j <= |entries|
    requires AfterEntries(isVisible, entries[..i])
    ensures AfterEntries(isVisible, entries[..j])
  {
    AfterEntriesIff(isVisible, entries[..i]);
    AfterEntriesIff(isVisible, entries[..j]);
    if !isVisible {
      var k :| 0 <= k < i && entries[..i][k];
      assert entries[..j][k];
    }
  }
}
