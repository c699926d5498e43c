/** The open-addressed index of the command cache: 256 slots, linear probing,
    slot value 0 for empty and `i + 1` for entry `i`. */
module CacheIndex {
  import opened Bytes
  import opened Pigeonhole

  const HASH_CAP: nat := 256

  /** The `d`-th slot probed for a hash. */
  function Probe(hash: nat, d: nat): (slot: nat)
    ensures slot < HASH_CAP
  {
    (hash + d) % HASH_CAP
  }

  /** Entry `i` sits `d` probes from home and every slot before it is taken. */
  ghost predicate Reaches(slots: seq<nat>, hash: nat, d: nat, i: nat)
    requires |slots| == HASH_CAP
  {
    d < HASH_CAP && slots[Probe(hash, d)] == i + 1 &&
    forall e :: 0 <= e < d ==> slots[Probe(hash, e)] != 0
  }

  ghost predicate Reachable(slots: seq<nat>, hash: nat, i: nat)
    requires |slots| == HASH_CAP
  {
    exists d :: Reaches(slots, hash, d, i)
  }

  /** Every entry is in exactly one slot, found by gap-free probing, and no slot
      holds anything else. */
  ghost predicate Good(slots: seq<nat>, hashes: seq<nat>) {
    && |slots| == HASH_CAP
    && (forall s :: 0 <= s < HASH_CAP ==> slots[s] <= |hashes|)
    && Distinct(slots)
    && (forall i :: 0 <= i < |hashes| ==> Reachable(slots, hashes[i], i))
  }

  lemma GoodCovers(slots: seq<nat>, hashes: seq<nat>)
    requires Good(slots, hashes)
    ensures Covers(slots, |hashes|)
  {
    forall v | 1 <= v <= |hashes| ensures Holds(slots, v) {
      assert Reachable(slots, hashes[v - 1], v - 1);
      var d :| Reaches(slots, hashes[v - 1], d, v - 1);
    }
  }

  /** A good table holds as many slots as entries. */
  lemma GoodCounts(slots: seq<nat>, hashes: seq<nat>)
    requires Good(slots, hashes)
    ensures Populated(slots) == |hashes|
  {
    GoodCovers(slots, hashes);
    CoverNeedsSlots(slots, |hashes|);
    DistinctFillsFew(slots, |hashes|);
  }

  /** The converse the validator relies on: if each of the entries is reached by
      probing and the slot count is right, then no slot is doubled. */
  lemma ReachedAndCountedIsGood(slots: seq<nat>, hashes: seq<nat>)
    requires |slots| == HASH_CAP && Populated(slots) == |hashes|
    requires forall s :: 0 <= s < HASH_CAP ==> slots[s] <= |hashes|
    requires forall i :: 0 <= i < |hashes| ==> Reachable(slots, hashes[i], i)
    ensures Good(slots, hashes)
  {
    forall s, t | 0 <= s < t < HASH_CAP && slots[s] != 0 ensures slots[s] != slots[t] {
      if slots[s] == slots[t] {
        var cleared := slots[t := 0];
        PopulatedClear(slots, t);
        forall v | 1 <= v <= |hashes| ensures Holds(cleared, v) {
          assert Reachable(slots, hashes[v - 1], v - 1);
          var d :| Reaches(slots, hashes[v - 1], d, v - 1);
          var at := Probe(hashes[v - 1], d);
          assert cleared[if at == t then s else at] == v;
        }
        CoverNeedsSlots(cleared, |hashes|);
      }
    }
  }

  // ----- inserting -----

  /** Probes from `d` until the first empty slot; HASH_CAP when there is none. */
  function FirstEmpty(slots: seq<nat>, hash: nat, d: nat): (e: nat)
    requires |slots| == HASH_CAP && d <= HASH_CAP
    ensures d <= e <= HASH_CAP
    ensures forall k :: d <= k < e ==> slots[Probe(hash, k)] != 0
    ensures e < HASH_CAP ==> slots[Probe(hash, e)] == 0
    decreases HASH_CAP - d
  {
    if d == HASH_CAP || slots[Probe(hash, d)] == 0 then d else FirstEmpty(slots, hash, d + 1)
  }

  /** While fewer than 256 entries are indexed, probing meets an empty slot. */
  lemma RoomToInsert(slots: seq<nat>, hashes: seq<nat>, hash: nat)
    requires Good(slots, hashes) && |hashes| < HASH_CAP
    ensures FirstEmpty(slots, hash, 0) < HASH_CAP
  {
    GoodCounts(slots, hashes);
    if forall s :: 0 <= s < HASH_CAP ==> slots[s] != 0 {
      PopulatedFull(slots);
    }
    var s :| 0 <= s < HASH_CAP && slots[s] == 0;
    var d := (s + HASH_CAP - hash % HASH_CAP) % HASH_CAP;
    assert Probe(hash, d) == s;
  }

  /** Filling an empty slot at the end of its probe path keeps the table good. */
  lemma InsertKeepsGood(slots: seq<nat>, hashes: seq<nat>, hash: nat)
    requires Good(slots, hashes)
    requires FirstEmpty(slots, hash, 0) < HASH_CAP
    ensures Good(slots[Probe(hash, FirstEmpty(slots, hash, 0)) := |hashes| + 1], hashes + [hash])
  {
    hide FirstEmpty, Probe;
    var n, e := |hashes|, FirstEmpty(slots, hash, 0);
    var at := Probe(hash, e);
    var filled, more := slots[at := n + 1], hashes + [hash];
    forall i | 0 <= i <= n ensures Reachable(filled, more[i], i) {
      if i == n {
        assert Reaches(filled, hash, e, n);
      } else {
        assert Reachable(slots, hashes[i], i);
        var d :| Reaches(slots, hashes[i], d, i);
        assert Reaches(filled, hashes[i], d, i);
      }
    }
  }

  lemma EmptyIsGood(slots: seq<nat>)
    requires |slots| == HASH_CAP && forall s :: 0 <= s < HASH_CAP ==> slots[s] == 0
    ensures Good(slots, [])
  {
  }

  lemma ProbeOn(slots: seq<nat>, hash: nat, d: nat)
    requires |slots| == HASH_CAP && d < HASH_CAP
    ensures Probe(hash, d + 1) == (Probe(hash, d) + 1) % HASH_CAP
    ensures FirstEmpty(slots, hash, d) == if slots[Probe(hash, d)] == 0 then d else FirstEmpty(slots, hash, d + 1)
  {
  }

  /** `insert_hash_slot`: the first empty slot on the probe path. */
  method InsertHashSlot(slots: array<nat>, hash: nat, index: nat) returns (ok: bool)
    requires slots.Length == HASH_CAP
    modifies slots
    ensures ok <==> FirstEmpty(old(slots[..]), hash, 0) < HASH_CAP
    ensures slots[..] == if ok then old(slots[..])[Probe(hash, FirstEmpty(old(slots[..]), hash, 0)) := index + 1]
                         else old(slots[..])
  {
    var slot, probes := hash % HASH_CAP, 0;
    ghost var before := slots[..];
    assert slot == Probe(hash, 0);
    hide FirstEmpty, Probe;
    while probes < HASH_CAP
      invariant 0 <= probes <= HASH_CAP && slot == Probe(hash, probes)
      invariant slots[..] == before
      invariant FirstEmpty(before, hash, 0) == FirstEmpty(before, hash, probes)
    {
      ProbeOn(before, hash, probes);
      assert slots[slot] == before[slot];
      if slots[slot] == 0 {
        slots[slot] := index + 1;
        return true;
      }
      slot, probes := (slot + 1) % HASH_CAP, probes + 1;
    }
    return false;
  }
}
