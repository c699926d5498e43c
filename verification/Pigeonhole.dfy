/** Counting arguments over numbered slots, where the value 0 means empty. */
module Pigeonhole {

  ghost predicate Distinct(slots: seq<nat>) {
    forall s, t :: 0 <= s < t < |slots| && slots[s] != 0 ==> slots[s] != slots[t]
  }

  function Populated(slots: seq<nat>): (n: nat)
    ensures n <= |slots|
  {
    if slots == [] then 0
    else Populated(slots[..|slots| - 1]) + (if slots[|slots| - 1] != 0 then 1 else 0)
  }

  lemma {:induction false} PopulatedClear(slots: seq<nat>, s: nat)
    requires s < |slots|
    ensures Populated(slots[s := 0]) == Populated(slots) - (if slots[s] != 0 then 1 else 0)
  {
    var last := |slots| - 1;
    if s == last {
      assert slots[s := 0][..last] == slots[..last];
    } else {
      assert slots[s := 0][..last] == slots[..last][s := 0];
      PopulatedClear(slots[..last], s);
    }
  }

  lemma {:induction false} PopulatedFull(slots: seq<nat>)
    requires forall s :: 0 <= s < |slots| ==> slots[s] != 0
    ensures Populated(slots) == |slots|
  {
    if slots != [] {
      PopulatedFull(slots[..|slots| - 1]);
    }
  }

  ghost predicate Holds(slots: seq<nat>, v: nat) {
    exists s :: 0 <= s < |slots| && slots[s] == v
  }

  ghost predicate Covers(slots: seq<nat>, m: nat) {
    forall v :: 1 <= v <= m ==> Holds(slots, v)
  }

  /** Pigeonhole: covering 1..m takes at least m slots. */
  lemma {:induction false} CoverNeedsSlots(slots: seq<nat>, m: nat)
    requires Covers(slots, m)
    ensures Populated(slots) >= m
    decreases m
  {
    if m > 0 {
      assert Holds(slots, m);
      var s :| 0 <= s < |slots| && slots[s] == m;
      var cleared := slots[s := 0];
      PopulatedClear(slots, s);
      forall v | 1 <= v <= m - 1 ensures Holds(cleared, v) {
        assert Holds(slots, v);
        var t :| 0 <= t < |slots| && slots[t] == v;
        assert cleared[t] == v;
      }
      CoverNeedsSlots(cleared, m - 1);
    }
  }

  /** Pigeonhole: distinct values up to m fill at most m slots. */
  lemma {:induction false} DistinctFillsFew(slots: seq<nat>, m: nat)
    requires Distinct(slots) && forall s :: 0 <= s < |slots| ==> slots[s] <= m
    ensures Populated(slots) <= m
    decreases m
  {
    if m == 0 {
      AllEmpty(slots);
    } else if m in slots {
      var s :| 0 <= s < |slots| && slots[s] == m;
      PopulatedClear(slots, s);
      DistinctFillsFew(slots[s := 0], m - 1);
    } else {
      DistinctFillsFew(slots, m - 1);
    }
  }

  lemma {:induction false} AllEmpty(slots: seq<nat>)
    requires forall s :: 0 <= s < |slots| ==> slots[s] == 0
    ensures Populated(slots) == 0
  {
    if slots != [] {
      AllEmpty(slots[..|slots| - 1]);
    }
  }
}
