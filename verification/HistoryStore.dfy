/** The history ring: 1024 slots reused in turn, event numbers that never move,
    and the two searches. */
module HistoryStore {
  import opened Bytes

  const CAP: nat := 1024
  const ENTRY_CAP: nat := 4096
  const EVENT_LIMIT: nat := 0xFFFF_FFFF_FFFF_FFFF

  /** What a store holds: its commands, oldest first, and the next event number. */
  datatype Log = Log(entries: seq<Text>, next: nat)

  datatype Outcome = Refused | Duplicate | Stored

  predicate Admissible(command: Text) {
    0 < |command| < ENTRY_CAP
  }

  predicate LogOk(log: Log) {
    && |log.entries| <= CAP && |log.entries| < log.next <= EVENT_LIMIT
    && forall i :: 0 <= i < |log.entries| ==> Admissible(log.entries[i])
  }

  predicate Repeats(kept: seq<Text>, command: Text, dedup: bool) {
    dedup && kept != [] && kept[|kept| - 1] == command
  }

  function PushOutcome(log: Log, command: Text, dedup: bool): Outcome {
    if !Admissible(command) then Refused
    else if Repeats(log.entries, command, dedup) then Duplicate
    else if log.next == EVENT_LIMIT then Refused
    else Stored
  }

  /** `gsh_history_add`. */
  function Push(log: Log, command: Text, dedup: bool): Log {
    if PushOutcome(log, command, dedup).Stored? then
      Log(Last(log.entries + [command], CAP), log.next + 1)
    else log
  }

  lemma PushKeepsOk(log: Log, command: Text, dedup: bool)
    requires LogOk(log)
    ensures LogOk(Push(log, command, dedup))
  {
  }

  function Oldest(log: Log): nat
    requires |log.entries| <= log.next
  {
    log.next - |log.entries|
  }

  /** `gsh_history_event`. */
  function EventAt(log: Log, event: nat): Option<Text>
    requires |log.entries| <= log.next
  {
    if Oldest(log) <= event < log.next then Some(log.entries[event - Oldest(log)]) else None
  }

  // ----- over a whole run -----

  datatype Add = Add(command: Text, dedup: bool)

  /** The list without a capacity. */
  function Extend(kept: seq<Text>, command: Text, dedup: bool): seq<Text> {
    if Repeats(kept, command, dedup) then kept else kept + [command]
  }

  /** Every command ever stored by a run of additions. */
  function Accepted(adds: seq<Add>): (kept: seq<Text>)
    ensures |kept| <= |adds|
  {
    if adds == [] then []
    else
      var front, last := Accepted(adds[..|adds| - 1]), adds[|adds| - 1];
      if Admissible(last.command) then Extend(front, last.command, last.dedup) else front
  }

  function RunAdds(adds: seq<Add>): (log: Log)
    ensures LogOk(log)
  {
    if adds == [] then Log([], 1)
    else
      var last := adds[|adds| - 1];
      Push(RunAdds(adds[..|adds| - 1]), last.command, last.dedup)
  }

  /** Forgetting old entries never changes what an addition does to the recent ones. */
  lemma LastOfExtend(kept: seq<Text>, command: Text, dedup: bool, n: nat)
    requires n > 0
    ensures Last(Extend(Last(kept, n), command, dedup), n) == Last(Extend(kept, command, dedup), n)
    ensures Repeats(Last(kept, n), command, dedup) == Repeats(kept, command, dedup)
  {
  }

  /** A store holds the last 1024 commands ever accepted, and its next event
      number counts all of them. */
  lemma {:induction false} RunKeepsLast(adds: seq<Add>)
    requires |adds| + 1 < EVENT_LIMIT
    ensures RunAdds(adds) == Log(Last(Accepted(adds), CAP), |Accepted(adds)| + 1)
  {
    if adds != [] {
      var front, last := adds[..|adds| - 1], adds[|adds| - 1];
      RunKeepsLast(front);
      LastOfExtend(Accepted(front), last.command, last.dedup, CAP);
      hide Last;
      LastTwice(Accepted(front));
    }
  }

  lemma LastTwice(kept: seq<Text>)
    ensures Last(Last(kept, CAP), CAP) == Last(kept, CAP)
  {
  }

  /** Event numbers are dense and never move: event `e` is the `e`-th accepted
      command while it is among the last 1024, and nothing otherwise. */
  lemma EventsNeverMove(adds: seq<Add>, event: nat)
    requires |adds| + 1 < EVENT_LIMIT
    ensures var all := Accepted(adds);
      EventAt(RunAdds(adds), event) ==
      if 1 <= event <= |all| && |all| < event + CAP then Some(all[event - 1]) else None
  {
    hide Accepted, RunAdds, LogOk;
    RunKeepsLast(adds);
  }

  // ----- the searches, as properties -----

  predicate OccursAt(text: Text, query: Text, offset: nat) {
    offset + |query| <= |text| && text[offset..offset + |query|] == query
  }

  ghost predicate Contains(text: Text, query: Text) {
    exists offset: nat :: OccursAt(text, query, offset)
  }

  /** `contains`. */
  method FindText(text: Text, query: Text) returns (found: bool)
    ensures found <==> Contains(text, query)
  {
    if |query| == 0 {
      assert OccursAt(text, query, 0);
      return true;
    }
    var offset := 0;
    while offset + |query| <= |text|
      invariant forall k: nat :: k < offset ==> !OccursAt(text, query, k)
    {
      if text[offset..offset + |query|] == query {
        assert OccursAt(text, query, offset);
        return true;
      }
      offset := offset + 1;
    }
    return false;
  }

  /** The entry at `position`, counted from the newest, contains the query. */
  ghost predicate Matches(entries: seq<Text>, position: nat, query: Text) {
    position < |entries| && Contains(entries[|entries| - position - 1], query)
  }

  // ----- the ring -----

  class Store {
    const entries: array<Text>
    var start: nat
    var count: nat
    var nextEvent: nat

    ghost predicate Valid()
      reads this, entries
    {
      && entries.Length == CAP && start < CAP && count <= CAP && count < nextEvent <= EVENT_LIMIT
      && LogOk(Log(Held(entries[..], start, count), nextEvent))
    }

    ghost function Contents(): (log: Log)
      reads this, entries
      requires Valid()
      ensures LogOk(log)
    {
      Log(Held(entries[..], start, count), nextEvent)
    }

    constructor ()
      ensures Valid() && Contents() == Log([], 1) && fresh(entries)
    {
      entries := new Text[CAP](_ => []);
      start, count, nextEvent := 0, 0, 1;
    }

    /** `gsh_history_initialize`. */
    method Reset()
      requires Valid()
      modifies this
      ensures Valid() && Contents() == Log([], 1)
    {
      start, count, nextEvent := 0, 0, 1;
    }

    /** `gsh_history_add`. */
    method AddCommand(command: Text, dedup: bool) returns (outcome: Outcome)
      requires Valid()
      modifies this, entries
      ensures Valid()
      ensures outcome == PushOutcome(old(Contents()), command, dedup)
      ensures Contents() == Push(old(Contents()), command, dedup)
    {
      hide Last;
      if |command| == 0 || |command| >= ENTRY_CAP {
        return Refused;
      }
      ghost var before := Contents().entries;
      if dedup && count != 0 {
        assert before[count - 1] == entries[Physical(start, count - 1)];
        if entries[Physical(start, count - 1)] == command {
          return Duplicate;
        }
      }
      if nextEvent == EVENT_LIMIT {
        return Refused;
      }
      Place(command);
      return Stored;
    }

    /** Behind the newest entry, or over the oldest. */
    method Place(command: Text)
      requires Valid() && Admissible(command) && nextEvent < EVENT_LIMIT
      modifies this, entries
      ensures Valid() && Contents() == Log(Last(old(Contents()).entries + [command], CAP), old(nextEvent) + 1)
    {
      hide Physical, Held, Last, LogOk;
      ghost var log := Contents();
      PushKeepsOk(log, command, false);
      RingAfterAdd(entries[..], start, count, command);
      nextEvent := nextEvent + 1;
      if count < CAP {
        entries[Physical(start, count)] := command;
        count := count + 1;
      } else {
        entries[start] := command;
        start := (start + 1) % CAP;
      }
      assert Push(log, command, false) == Log(Held(entries[..], start, count), nextEvent);
    }

    /** `gsh_history_from_newest`. */
    method FromNewest(position: nat) returns (entry: Option<Text>)
      requires Valid()
      ensures entry == if position < count then Some(Contents().entries[count - position - 1]) else None
    {
      if position >= count {
        return None;
      }
      return Some(entries[Physical(start, count - position - 1)]);
    }

    /** `gsh_history_search_reverse`: the nearest entry at or behind `before`, counted
        from the newest, that contains the query. */
    method SearchReverse(query: Text, before: nat) returns (position: Option<nat>)
      requires Valid()
      ensures |query| >= ENTRY_CAP || before > count ==> position.None?
      ensures position.Some? ==> before <= position.value < count && Matches(Contents().entries, position.value, query)
      ensures |query| < ENTRY_CAP && before <= count ==>
                forall p :: before <= p < (if position.Some? then position.value else count) ==>
                  !Matches(Contents().entries, p, query)
    {
      hide Contains, Physical;
      if |query| >= ENTRY_CAP || before > count {
        return None;
      }
      for candidate := before to count
        invariant forall p :: before <= p < candidate ==> !Matches(Contents().entries, p, query)
      {
        var entry := FromNewest(candidate);
        var found := FindText(entry.value, query);
        if found {
          return Some(candidate);
        }
      }
      return None;
    }

    /** `gsh_history_oldest_event` and `gsh_history_newest_event`; zero when empty. */
    method EventRange() returns (oldest: nat, newest: nat)
      requires Valid()
      ensures count == 0 ==> oldest == 0 && newest == 0
      ensures count > 0 ==> oldest == Oldest(Contents()) && newest == Contents().next - 1
      ensures forall e :: e > 0 ==> (oldest <= e <= newest <==> EventAt(Contents(), e).Some?)
    {
      if count == 0 {
        return 0, 0;
      }
      return nextEvent - count, nextEvent - 1;
    }

    /** `gsh_history_event`. */
    method Event(event: nat) returns (entry: Option<Text>)
      requires Valid()
      ensures entry == EventAt(Contents(), event)
    {
      var oldest, _ := EventRange();
      if oldest == 0 || event < oldest || event >= nextEvent {
        return None;
      }
      return Some(entries[Physical(start, event - oldest)]);
    }

    /** `gsh_history_find_prefix`: the newest event up to `beforeEvent` that starts
        with the prefix. */
    method FindPrefix(prefix: Text, beforeEvent: nat) returns (event: Option<nat>)
      requires Valid()
      ensures |prefix| >= ENTRY_CAP ==> event.None?
      ensures event.Some? ==> event.value <= beforeEvent && Starts(EventAt(Contents(), event.value), prefix)
      ensures |prefix| < ENTRY_CAP ==>
                forall e: nat :: e <= beforeEvent && (event.Some? ==> e > event.value) ==>
                  !Starts(EventAt(Contents(), e), prefix)
    {
      var oldest, newest := EventRange();
      if |prefix| >= ENTRY_CAP || oldest == 0 {
        return None;
      }
      hide LogOk;
      var candidate := if beforeEvent >= nextEvent then nextEvent - 1 else beforeEvent;
      var checked := 0;
      while checked < count && candidate >= oldest
        invariant candidate + checked == (if beforeEvent >= nextEvent then nextEvent - 1 else beforeEvent)
        invariant forall e: nat :: candidate < e <= beforeEvent ==> !Starts(EventAt(Contents(), e), prefix)
        decreases count - checked
      {
        var entry := Event(candidate);
        if |prefix| <= |entry.value| && entry.value[..|prefix|] == prefix {
          return Some(candidate);
        }
        checked, candidate := checked + 1, candidate - 1;
      }
      return None;
    }
  }

  predicate Starts(entry: Option<Text>, prefix: Text) {
    entry.Some? && |prefix| <= |entry.value| && entry.value[..|prefix|] == prefix
  }

  /** What the ring holds, oldest first. */
  function Held(slots: seq<Text>, start: nat, count: nat): (held: seq<Text>)
    requires |slots| == CAP
    ensures |held| == count && forall k :: 0 <= k < count ==> held[k] == slots[Physical(start, k)]
  {
    seq(count, k requires 0 <= k < count => slots[Physical(start, k)])
  }

  /** `physical_index`. */
  function Physical(start: nat, chronological: nat): (slot: nat)
    ensures slot < CAP && slot == (start + chronological) % CAP
  {
    (start + chronological) % CAP
  }

  lemma PhysicalIs(start: nat, k: nat)
    requires start < CAP && k < CAP
    ensures Physical(start, k) == if start + k < CAP then start + k else start + k - CAP
  {
  }

  lemma PhysicalShifts(start: nat, k: nat)
    requires start < CAP && k < CAP
    ensures Physical((start + 1) % CAP, k) == if k + 1 < CAP then Physical(start, k + 1) else start
  {
    PhysicalIs((start + 1) % CAP, k);
    if k + 1 < CAP {
      PhysicalIs(start, k + 1);
    }
  }

  /** Writing behind the newest entry, or over the oldest, appends to what is held. */
  lemma RingAfterAdd(slots: seq<Text>, start: nat, count: nat, command: Text)
    requires start < CAP && count <= CAP && |slots| == CAP
    ensures var all := Held(slots, start, count) + [command];
      if count < CAP then Held(slots[Physical(start, count) := command], start, count + 1) == Last(all, CAP)
      else Held(slots[start := command], (start + 1) % CAP, count) == Last(all, CAP)
  {
    hide Physical;
    var all := Held(slots, start, count) + [command];
    if count < CAP {
      PhysicalIs(start, count);
      forall k | 0 <= k <= count ensures slots[Physical(start, count) := command][Physical(start, k)] == all[k] {
        PhysicalIs(start, k);
      }
      assert Last(all, CAP) == all;
    } else {
      assert Last(all, CAP) == all[1..];
      forall k | 0 <= k < CAP ensures slots[start := command][Physical((start + 1) % CAP, k)] == Last(all, CAP)[k] {
        PhysicalShifts(start, k);
        if k + 1 < CAP {
          PhysicalIs(start, k + 1);
        }
      }
    }
  }
}
