/** The bounded table of background jobs: wrapping job ids, reclaimed slots, and
    the current and previous job. */
module JobTable {
  import opened Bytes
  import opened Waiting
  import opened Pipeline
  import opened Pigeonhole
  import opened JobEntry

  const CAP: nat := 128
  const MEMBER_CAP: nat := 64
  const COMMAND_CAP: nat := 4096
  const MAX_ID: nat := 0xFFFF_FFFF

  datatype Table = Table(entries: seq<Entry>, used: nat, nextId: nat, current: nat, previous: nat, nextSequence: nat)

  // ----- job ids -----

  /** The 32-bit counter after `id`, with 0 skipped. */
  function Successor(id: nat): nat {
    if id == MAX_ID then 1 else id + 1
  }

  predicate IdInUse(entries: seq<Entry>, used: nat, id: nat) {
    exists k :: 0 <= k < used && k < |entries| && entries[k].known && entries[k].id == id
  }

  /** `next_job_id` with `tries` candidates left: the id and the next counter. */
  function FreeId(entries: seq<Entry>, used: nat, candidate: nat, tries: nat): Option<(nat, nat)>
    decreases tries
  {
    if tries == 0 then None
    else if candidate != 0 && !IdInUse(entries, used, candidate) then Some((candidate, Successor(candidate)))
    else FreeId(entries, used, Successor(candidate), tries - 1)
  }

  /** The `k`-th candidate from `id` on. */
  function Candidate(id: nat, k: nat): nat
    requires id > 0
  {
    (id - 1 + k) % MAX_ID + 1
  }

  lemma {:induction false} FreeIdIsFree(entries: seq<Entry>, used: nat, candidate: nat, tries: nat)
    requires 0 < candidate <= MAX_ID
    ensures match FreeId(entries, used, candidate, tries)
      case Some((id, next)) => 0 < id <= MAX_ID && 0 < next <= MAX_ID && !IdInUse(entries, used, id)
      case None => forall k :: 0 <= k < tries ==> IdInUse(entries, used, Candidate(candidate, k))
    decreases tries
  {
    hide IdInUse;
    if tries > 0 && IdInUse(entries, used, candidate) {
      FreeIdIsFree(entries, used, Successor(candidate), tries - 1);
      if FreeId(entries, used, candidate, tries).None? {
        forall k | 0 <= k < tries ensures IdInUse(entries, used, Candidate(candidate, k)) {
          if k > 0 {
            assert IdInUse(entries, used, Candidate(Successor(candidate), k - 1));
          }
        }
      }
    }
  }

  /** Among 129 consecutive ids one is free, because at most 128 are in use. */
  lemma FreeIdExists(entries: seq<Entry>, used: nat, candidate: nat)
    requires 0 < candidate <= MAX_ID && used <= CAP && used <= |entries|
    ensures FreeId(entries, used, candidate, CAP + 1).Some?
  {
    hide FreeId;
    FreeIdIsFree(entries, used, candidate, CAP + 1);
    if FreeId(entries, used, candidate, CAP + 1).None? {
      var holders := seq(CAP + 1, k requires 0 <= k < CAP + 1 => HolderOf(entries, used, candidate, k));
      forall j, k | 0 <= j < k < |holders| ensures holders[j] != holders[k] {
        assert Candidate(candidate, j) != Candidate(candidate, k);
      }
      PopulatedFull(holders);
      DistinctFillsFew(holders, used);
    }
  }

  /** One more than the index of an entry that holds the `k`-th candidate. */
  ghost function HolderOf(entries: seq<Entry>, used: nat, candidate: nat, k: nat): (h: nat)
    requires candidate > 0 && used <= |entries|
    requires IdInUse(entries, used, Candidate(candidate, k))
    ensures 1 <= h <= used && entries[h - 1].id == Candidate(candidate, k)
  {
    var i :| 0 <= i < used && i < |entries| && entries[i].known && entries[i].id == Candidate(candidate, k);
    i + 1
  }

  // ----- slots -----

  predicate Reclaimable(e: Entry) {
    !e.known || (e.state == JOB_DONE && (e.notified || e.consumed))
  }

  /** `gsh_background_has_capacity`. */
  predicate HasCapacity(t: Table) {
    t.used < CAP || (t.used == CAP && exists k :: 0 <= k < t.used && k < |t.entries| && Reclaimable(t.entries[k]))
  }

  function FirstReclaimable(entries: seq<Entry>, used: nat, k: nat): (r: Option<nat>)
    requires k <= used <= |entries|
    ensures r.Some? ==> k <= r.value < used && Reclaimable(entries[r.value])
    ensures r.None? ==> forall i :: k <= i < used ==> !Reclaimable(entries[i])
    decreases used - k
  {
    if k == used then None
    else if Reclaimable(entries[k]) then Some(k)
    else FirstReclaimable(entries, used, k + 1)
  }

  /** `available_entry`: a reclaimed slot first, else a new one. */
  function Available(t: Table): Option<nat>
    requires t.used <= |t.entries| == CAP
  {
    var reclaimed := FirstReclaimable(t.entries, t.used, 0);
    if reclaimed.Some? then reclaimed else if t.used < CAP then Some(t.used) else None
  }

  predicate MemberInUse(entries: seq<Entry>, used: nat, pid: int) {
    exists k :: 0 <= k < used && k < |entries| && entries[k].known && pid in entries[k].members
  }

  // ----- adding a job -----

  datatype AddResult = Added(id: nat) | InvalidArgument | Duplicate | NoRoom

  predicate ValidArguments(pgid: int, pid: int, members: seq<int>, commands: nat) {
    pgid > 0 && pid > 0 && 0 < |members| <= MEMBER_CAP && 0 < commands <= |members|
  }

  /** The first member the table refuses, from the `k`-th on. */
  function BadMember(t: Table, members: seq<int>, k: nat): (r: Option<AddResult>)
    requires k <= |members|
    ensures r.Some? ==> !r.value.Added?
    ensures r.None? <==> forall i :: k <= i < |members| ==> members[i] > 0 && !MemberInUse(t.entries, t.used, members[i])
    decreases |members| - k
  {
    if k == |members| then None
    else if members[k] <= 0 then Some(InvalidArgument)
    else if MemberInUse(t.entries, t.used, members[k]) then Some(Duplicate)
    else BadMember(t, members, k + 1)
  }

  /** `gsh_background_add_job`. */
  function AddJob(t: Table, pgid: int, pid: int, members: seq<int>, commands: nat, pipefail: bool): (Table, AddResult)
    requires t.used <= |t.entries| == CAP
  {
    if !ValidArguments(pgid, pid, members, commands) then (t, InvalidArgument)
    else if BadMember(t, members, 0).Some? then (t, BadMember(t, members, 0).value)
    else
      var id := FreeId(t.entries, t.used, t.nextId, CAP + 1);
      if id.None? then (t, NoRoom)
      else
        var counted := t.(nextId := id.value.1);
        var slot := Available(t);
        if slot.None? then (counted, NoRoom)
        else (Placed(counted, slot.value, NewEntry(pgid, pid, members, commands, pipefail, id.value.0, t.nextSequence)),
              Added(id.value.0))
  }

  function Placed(t: Table, slot: nat, e: Entry): Table
    requires slot < |t.entries|
  {
    Table(t.entries[slot := e], if slot == t.used then t.used + 1 else t.used, t.nextId, e.id, t.current, t.nextSequence + 1)
  }

  // ----- reports and the other operations -----

  function MemberIndex(members: seq<int>, pid: int, m: nat): (r: Option<nat>)
    requires m <= |members|
    ensures r.Some? ==> m <= r.value < |members| && members[r.value] == pid
    ensures r.None? ==> forall k :: m <= k < |members| ==> members[k] != pid
    decreases |members| - m
  {
    if m == |members| then None else if members[m] == pid then Some(m) else MemberIndex(members, pid, m + 1)
  }

  /** The first known entry with a member of this pid. */
  function FindMember(entries: seq<Entry>, used: nat, pid: int, k: nat): (r: Option<(nat, nat)>)
    requires k <= used <= |entries|
    ensures r.Some? ==> k <= r.value.0 < used && entries[r.value.0].known
    ensures r.Some? ==> r.value.1 < |entries[r.value.0].members| && entries[r.value.0].members[r.value.1] == pid
    ensures r.None? ==> forall i :: k <= i < used && entries[i].known ==> pid !in entries[i].members
    decreases used - k
  {
    if k == used then None
    else
      var m := MemberIndex(entries[k].members, pid, 0);
      if entries[k].known && m.Some? then Some((k, m.value)) else FindMember(entries, used, pid, k + 1)
  }

  /** A job that becomes the current one moves the old one to previous. */
  function MakeCurrent(t: Table, id: nat): Table {
    if t.current == id then t else t.(previous := t.current, current := id)
  }

  /** `gsh_background_update_member`. */
  function UpdateMember(t: Table, pid: int, s: WaitStatus): Table
    requires t.used <= |t.entries|
  {
    var found := FindMember(t.entries, t.used, pid, 0);
    if found.None? then t
    else
      var (k, m) := found.value;
      var e := t.entries[k];
      if m >= |e.states| then t
      else
        var updated := t.(entries := t.entries[k := Report(e, m, s)]);
        if s.Stopped? && AllStopped(e.(states := e.states[m := Halted])) then MakeCurrent(updated, e.id) else updated
  }

  function FindId(entries: seq<Entry>, used: nat, id: nat, k: nat): (r: Option<nat>)
    requires k <= used <= |entries|
    ensures r.Some? ==> k <= r.value < used && entries[r.value].known && entries[r.value].id == id
    ensures r.None? ==> forall i :: k <= i < used && entries[i].known ==> entries[i].id != id
    decreases used - k
  {
    if k == used then None
    else if entries[k].known && entries[k].id == id then Some(k)
    else FindId(entries, used, id, k + 1)
  }

  /** The first known, done entry whose status pid this is. */
  function FindDone(entries: seq<Entry>, used: nat, pid: int, k: nat): (r: Option<nat>)
    requires k <= used <= |entries|
    ensures r.Some? ==> k <= r.value < used && entries[r.value].known && entries[r.value].pid == pid && entries[r.value].done
    ensures r.None? ==> forall i :: k <= i < used && entries[i].known && entries[i].pid == pid ==> !entries[i].done
    decreases used - k
  {
    if k == used then None
    else if entries[k].known && entries[k].pid == pid && entries[k].done then Some(k)
    else FindDone(entries, used, pid, k + 1)
  }

  /** Drop unknown entries from the end. */
  function Trim(entries: seq<Entry>, used: nat): (r: nat)
    requires used <= |entries|
    ensures r <= used
    ensures forall k :: r <= k < used ==> !entries[k].known
    ensures r > 0 ==> entries[r - 1].known
  {
    if used > 0 && !entries[used - 1].known then Trim(entries, used - 1) else used
  }

  datatype Newest = Newest(newest: nat, prior: nat, current: nat, previous: nat)

  function Newer(r: Newest, e: Entry): Newest {
    if !e.known then r
    else if e.sequence > r.newest then Newest(e.sequence, r.newest, e.id, r.current)
    else if e.sequence > r.prior then r.(prior := e.sequence, previous := e.id)
    else r
  }

  /** `refresh_current_jobs` over the first `n` entries. */
  function Refresh(entries: seq<Entry>, n: nat): Newest
    requires n <= |entries|
  {
    if n == 0 then Newest(0, 0, 0, 0) else Newer(Refresh(entries, n - 1), entries[n - 1])
  }

  function Forget(t: Table, k: nat, e: Entry): Table
    requires k < t.used <= |t.entries|
  {
    var entries := t.entries[k := e];
    var used := Trim(entries, t.used);
    var r := Refresh(entries, used);
    t.(entries := entries, used := used, current := r.current, previous := r.previous)
  }

  /** `gsh_background_consume`. */
  function Consume(t: Table, pid: int): (Table, Option<WaitStatus>)
    requires t.used <= |t.entries|
  {
    var k := FindDone(t.entries, t.used, pid, 0);
    if k.None? then (t, None)
    else (Forget(t, k.value, t.entries[k.value].(consumed := true, known := false)), Some(t.entries[k.value].status))
  }

  datatype Operation =
    | Add(pgid: int, pid: int, members: seq<int>, commands: nat, pipefail: bool)
    | Update(member: int, status: WaitStatus)
    | ConsumeJob(pid: int)
    | ConsumeAll
    | MarkNotified(id: nat)
    | ContinueJob(id: nat)
    | StopJob(id: nat)
    | RemoveJob(id: nat)

  /** The member's process has already ended. */
  predicate EndedMember(t: Table, pid: int)
    requires t.used <= |t.entries|
  {
    var found := FindMember(t.entries, t.used, pid, 0);
    found.Some? && found.value.1 < |t.entries[found.value.0].states| &&
    t.entries[found.value.0].states[found.value.1] == Ended
  }

  /** One call.  A new job's members are distinct processes, and a process is not
      reported again after it ended. */
  function Step(t: Table, op: Operation): Table
    requires t.used <= |t.entries| == CAP
  {
    match op
    case Add(pgid, pid, members, commands, pipefail) =>
      if DistinctMembers(members) then AddJob(t, pgid, pid, members, commands, pipefail).0 else t
    case Update(pid, s) => if EndedMember(t, pid) then t else UpdateMember(t, pid, s)
    case ConsumeJob(pid) => Consume(t, pid).0
    case ConsumeAll =>
      if exists k :: 0 <= k < t.used && t.entries[k].known && t.entries[k].state != JOB_DONE then t
      else t.(used := 0, current := 0, previous := 0)
    case MarkNotified(id) =>
      var k := FindId(t.entries, t.used, id, 0);
      if k.None? then t else t.(entries := t.entries[k.value := t.entries[k.value].(notified := true)])
    case ContinueJob(id) =>
      var k := FindId(t.entries, t.used, id, 0);
      if k.None? || t.entries[k.value].state == JOB_DONE then t
      else MakeCurrent(t.(entries := t.entries[k.value := JobEntry.ContinueAll(t.entries[k.value])]), id)
    case StopJob(id) =>
      var k := FindId(t.entries, t.used, id, 0);
      if k.None? || t.entries[k.value].state == JOB_DONE then t
      else MakeCurrent(t.(entries := t.entries[k.value := StopAll(t.entries[k.value])]), id)
    case RemoveJob(id) =>
      var k := FindId(t.entries, t.used, id, 0);
      if k.None? then t else Forget(t, k.value, t.entries[k.value].(known := false))
  }

  const START := Table(seq(CAP, _ => NO_ENTRY), 0, 1, 0, 0, 1)

  // ----- what every run keeps -----

  predicate DistinctMembers(members: seq<int>) {
    forall i, j :: 0 <= i < j < |members| ==> members[i] != members[j]
  }

  /** A known entry by itself. */
  ghost predicate KnownOk(e: Entry, nextSequence: nat) {
    e.known ==>
      && EntryOk(e) && 0 < e.id <= MAX_ID && 0 < e.sequence < nextSequence
      && |e.members| <= MEMBER_CAP && DistinctMembers(e.members)
  }

  /** Two known entries share no id, no member and no sequence number. */
  predicate Apart(a: Entry, b: Entry) {
    a.known && b.known ==>
      && a.id != b.id && a.sequence != b.sequence
      && forall m :: 0 <= m < |a.members| ==> a.members[m] !in b.members
  }

  ghost predicate Inv(t: Table) {
    && t.used <= |t.entries| == CAP
    && 0 < t.nextId <= MAX_ID && t.nextSequence > 0
    && (forall k :: 0 <= k < t.used ==> KnownOk(t.entries[k], t.nextSequence))
    && (forall j, k :: 0 <= j < k < t.used ==> Apart(t.entries[j], t.entries[k]))
  }

  /** An entry that keeps its identity, or is forgotten. */
  predicate SameJob(e: Entry, f: Entry) {
    f.known ==> e.known && f.id == e.id && f.sequence == e.sequence && f.members == e.members
  }

  lemma ChangeKeepsInv(t: Table, k: nat, f: Entry, used: nat)
    requires Inv(t) && k < t.used && used <= t.used
    requires SameJob(t.entries[k], f) && (f.known ==> EntryOk(f))
    ensures Inv(t.(entries := t.entries[k := f], used := used))
  {
    var entries := t.entries[k := f];
    forall i | 0 <= i < used ensures KnownOk(entries[i], t.nextSequence) {
      assert KnownOk(t.entries[i], t.nextSequence);
    }
    hide KnownOk, EntryOk;
    forall i, j | 0 <= i < j < used ensures Apart(entries[i], entries[j]) {
      assert Apart(t.entries[i], t.entries[j]);
    }
  }

  /** The counters for the current job play no part in the invariant. */
  lemma CurrentIsFree(t: Table, current: nat, previous: nat)
    requires Inv(t)
    ensures Inv(t.(current := current, previous := previous))
  {
    hide KnownOk, Apart;
  }

  lemma AddKeepsInv(t: Table, pgid: int, pid: int, members: seq<int>, commands: nat, pipefail: bool)
    requires Inv(t) && DistinctMembers(members)
    ensures Inv(AddJob(t, pgid, pid, members, commands, pipefail).0)
  {
    FreeIdIsFree(t.entries, t.used, t.nextId, CAP + 1);
    AddCases(t, pgid, pid, members, commands, pipefail);
    hide IdInUse, FreeId, NewEntry, AddJob, KnownOk, Apart, EntryOk, MemberInUse, Placed, Available, BadMember;
    var id, slot := FreeId(t.entries, t.used, t.nextId, CAP + 1), Available(t);
    if AddJob(t, pgid, pid, members, commands, pipefail).1.Added? {
      NewEntryOk(pgid, pid, members, commands, pipefail, id.value.0, t.nextSequence);
      CounterIsFree(t, id.value.1);
      PlaceKeepsInv(t.(nextId := id.value.1), slot.value,
                    NewEntry(pgid, pid, members, commands, pipefail, id.value.0, t.nextSequence));
    } else if id.Some? {
      CounterIsFree(t, id.value.1);
    }
  }

  lemma CounterIsFree(t: Table, nextId: nat)
    requires Inv(t) && 0 < nextId <= MAX_ID
    ensures Inv(t.(nextId := nextId))
  {
    hide KnownOk, Apart;
  }

  /** What adding a job comes to. */
  lemma AddCases(t: Table, pgid: int, pid: int, members: seq<int>, commands: nat, pipefail: bool)
    requires t.used <= |t.entries| == CAP
    ensures var r := AddJob(t, pgid, pid, members, commands, pipefail);
            var id, slot := FreeId(t.entries, t.used, t.nextId, CAP + 1), Available(t);
      if r.1.Added? then
        && id.Some? && slot.Some? && slot.value <= t.used && slot.value < CAP
        && ValidArguments(pgid, pid, members, commands) && BadMember(t, members, 0).None?
        && (forall m :: 0 <= m < |members| ==> !MemberInUse(t.entries, t.used, members[m]))
        && r.0 == Placed(t.(nextId := id.value.1), slot.value,
                         NewEntry(pgid, pid, members, commands, pipefail, id.value.0, t.nextSequence))
      else r.0 == t || (id.Some? && r.0 == t.(nextId := id.value.1))
  {
    hide FreeId, NewEntry, MemberInUse, Placed;
  }

  lemma NewEntryOk(pgid: int, pid: int, members: seq<int>, commands: nat, pipefail: bool, id: nat, sequence: nat)
    requires 0 < commands <= |members|
    ensures var e := NewEntry(pgid, pid, members, commands, pipefail, id, sequence);
      EntryOk(e) && e.known && e.id == id && e.sequence == sequence && e.members == members
  {
    AllActive(|members|);
    hide Unfinished;
  }

  lemma PlaceKeepsInv(t: Table, slot: nat, e: Entry)
    requires Inv(t) && slot <= t.used && slot < CAP
    requires e.known && EntryOk(e) && 0 < e.id <= MAX_ID && e.sequence == t.nextSequence
    requires !IdInUse(t.entries, t.used, e.id) && |e.members| <= MEMBER_CAP && DistinctMembers(e.members)
    requires forall m :: 0 <= m < |e.members| ==> !MemberInUse(t.entries, t.used, e.members[m])
    ensures Inv(Placed(t, slot, e))
  {
    hide EntryOk;
    var after := Placed(t, slot, e);
    forall k | 0 <= k < after.used ensures KnownOk(after.entries[k], after.nextSequence) {
      if k != slot {
        assert KnownOk(t.entries[k], t.nextSequence);
      }
    }
    forall j, k | 0 <= j < k < after.used ensures Apart(after.entries[j], after.entries[k]) {
      if j != slot && k != slot {
        assert Apart(t.entries[j], t.entries[k]);
      } else {
        NewIsApart(t, e, if j == slot then k else j);
      }
    }
  }

  lemma NewIsApart(t: Table, e: Entry, k: nat)
    requires k < t.used <= |t.entries| && KnownOk(t.entries[k], t.nextSequence)
    requires e.sequence == t.nextSequence && !IdInUse(t.entries, t.used, e.id)
    requires forall m :: 0 <= m < |e.members| ==> !MemberInUse(t.entries, t.used, e.members[m])
    ensures Apart(e, t.entries[k]) && Apart(t.entries[k], e)
  {
    var d := t.entries[k];
    if d.known {
      forall m | 0 <= m < |e.members| ensures e.members[m] !in d.members {
        assert !MemberInUse(t.entries, t.used, e.members[m]);
      }
    }
  }

  lemma UpdateKeepsInv(t: Table, pid: int, s: WaitStatus)
    requires Inv(t) && !EndedMember(t, pid)
    ensures Inv(UpdateMember(t, pid, s))
  {
    hide FindMember, Report, Apart, AllStopped;
    var found := FindMember(t.entries, t.used, pid, 0);
    if found.Some? {
      var (k, m) := found.value;
      var e := t.entries[k];
      assert KnownOk(e, t.nextSequence);
      ReportKeepsOk(e, m, s);
      ReportSameJob(e, m, s);
      ChangeKeepsInv(t, k, Report(e, m, s), t.used);
      hide KnownOk;
      CurrentIsFree(t.(entries := t.entries[k := Report(e, m, s)]), e.id, t.current);
    }
  }

  lemma ReportSameJob(e: Entry, m: nat, s: WaitStatus)
    requires m < |e.states|
    ensures SameJob(e, Report(e, m, s))
  {
    hide Record, Result, AllStopped;
  }

  lemma ForgetKeepsInv(t: Table, k: nat, e: Entry)
    requires Inv(t) && k < t.used && !e.known
    ensures Inv(Forget(t, k, e))
  {
    hide Trim, Refresh, KnownOk, Apart, EntryOk;
    var entries := t.entries[k := e];
    ChangeKeepsInv(t, k, e, Trim(entries, t.used));
  }

  lemma StepKeepsInv(t: Table, op: Operation)
    requires Inv(t)
    ensures Inv(Step(t, op))
  {
    hide KnownOk, Apart, EntryOk, AddJob, UpdateMember, EndedMember, Forget, FindId, FindDone, StopAll, JobEntry.ContinueAll;
    match op
    case Add(pgid, pid, members, commands, pipefail) =>
      if DistinctMembers(members) {
        AddKeepsInv(t, pgid, pid, members, commands, pipefail);
      }
    case Update(pid, s) =>
      if !EndedMember(t, pid) {
        UpdateKeepsInv(t, pid, s);
      }
    case ConsumeJob(pid) =>
      var k := FindDone(t.entries, t.used, pid, 0);
      if k.Some? {
        ForgetKeepsInv(t, k.value, t.entries[k.value].(consumed := true, known := false));
      }
    case ConsumeAll =>
    case MarkNotified(id) =>
      JobOperationKeepsInv(t, op);
    case ContinueJob(id) =>
      JobOperationKeepsInv(t, op);
    case StopJob(id) =>
      JobOperationKeepsInv(t, op);
    case RemoveJob(id) =>
      var k := FindId(t.entries, t.used, id, 0);
      if k.Some? {
        ForgetKeepsInv(t, k.value, t.entries[k.value].(known := false));
      }
  }

  lemma JobOperationKeepsInv(t: Table, op: Operation)
    requires Inv(t) && (op.MarkNotified? || op.ContinueJob? || op.StopJob?)
    ensures Inv(Step(t, op))
  {
    var k := FindId(t.entries, t.used, op.id, 0);
    if k.Some? {
      var e := t.entries[k.value];
      assert KnownOk(e, t.nextSequence);
      StopContinueKeepOk(e);
      ChangeKeepsInv(t, k.value, e.(notified := true), t.used);
      ChangeKeepsInv(t, k.value, StopAll(e), t.used);
      ChangeKeepsInv(t, k.value, JobEntry.ContinueAll(e), t.used);
      hide KnownOk, Apart, EntryOk, FindId;
      CurrentIsFree(t.(entries := t.entries[k.value := StopAll(e)]), op.id, t.current);
      CurrentIsFree(t.(entries := t.entries[k.value := JobEntry.ContinueAll(e)]), op.id, t.current);
    }
  }

  function Run(t: Table, ops: seq<Operation>): (r: Table)
    requires t.used <= |t.entries| == CAP
    ensures r.used <= |r.entries| == CAP
  {
    if ops == [] then t
    else
      var before := Run(t, ops[..|ops| - 1]);
      StepShape(before, ops[|ops| - 1]);
      Step(before, ops[|ops| - 1])
  }

  lemma StepShape(t: Table, op: Operation)
    requires t.used <= |t.entries| == CAP
    ensures Step(t, op).used <= |Step(t, op).entries| == CAP
  {
    hide FreeId, BadMember, FindMember, Report, AllStopped, Refresh, NewEntry, StopAll, JobEntry.ContinueAll;
  }

  /** Over every run, job ids, member pids and sequence numbers are unique among
      the known entries, and each known entry's state is the one its members imply. */
  lemma {:induction false} RunKeepsInv(ops: seq<Operation>)
    ensures Inv(Run(START, ops))
  {
    if ops != [] {
      hide Inv, Step;
      RunKeepsInv(ops[..|ops| - 1]);
      StepKeepsInv(Run(START, ops[..|ops| - 1]), ops[|ops| - 1]);
    }
  }

  /** With valid arguments and fresh members, adding succeeds exactly when the
      table has capacity: an id is always free. */
  lemma AddIffCapacity(t: Table, pgid: int, pid: int, members: seq<int>, commands: nat, pipefail: bool)
    requires Inv(t) && ValidArguments(pgid, pid, members, commands)
    requires forall m :: 0 <= m < |members| ==> members[m] > 0 && !MemberInUse(t.entries, t.used, members[m])
    ensures AddJob(t, pgid, pid, members, commands, pipefail).1.Added? <==> HasCapacity(t)
  {
    FreeIdExists(t.entries, t.used, t.nextId);
    hide FreeId, MemberInUse, NewEntry;
  }

  // ----- the current and the previous job -----

  /** A known job with this sequence number and id is among the first `n`. */
  ghost predicate Held(entries: seq<Entry>, n: nat, sequence: nat, id: nat) {
    exists k :: 0 <= k < n && k < |entries| && entries[k].known && entries[k].sequence == sequence && entries[k].id == id
  }

  /** The current job is the newest known one and the previous job the second
      newest; id 0 stands for none. */
  ghost predicate IsNewest(entries: seq<Entry>, n: nat, r: Newest) {
    && (if r.newest == 0 then r.current == 0 == r.prior else r.prior < r.newest && Held(entries, n, r.newest, r.current))
    && (if r.prior == 0 then r.previous == 0 else Held(entries, n, r.prior, r.previous))
    && (forall k :: 0 <= k < n && k < |entries| && entries[k].known ==>
          entries[k].sequence == r.newest || entries[k].sequence <= r.prior)
  }

  lemma HeldLonger(entries: seq<Entry>, n: nat, sequence: nat, id: nat)
    ensures Held(entries, n, sequence, id) ==> Held(entries, n + 1, sequence, id)
    ensures n < |entries| && entries[n].known ==> Held(entries, n + 1, entries[n].sequence, entries[n].id)
    ensures n < |entries| && Held(entries, n, sequence, id) ==>
      exists k :: 0 <= k < n && entries[k].known && entries[k].sequence == sequence
  {
  }

  /** With distinct positive sequence numbers, refreshing finds the two newest. */
  lemma {:induction false} RefreshIsNewest(entries: seq<Entry>, n: nat)
    requires n <= |entries|
    requires forall k :: 0 <= k < n && entries[k].known ==> entries[k].sequence > 0
    requires forall j, k :: 0 <= j < k < n && entries[j].known && entries[k].known ==> entries[j].sequence != entries[k].sequence
    ensures IsNewest(entries, n, Refresh(entries, n))
  {
    if n > 0 {
      RefreshIsNewest(entries, n - 1);
      hide IsNewest, Refresh;
      NewerIsNewest(entries, n - 1, Refresh(entries, n - 1));
      RefreshUnfold(entries, n - 1);
    } else {
      assert Refresh(entries, 0) == Newest(0, 0, 0, 0);
    }
  }

  lemma RefreshUnfold(entries: seq<Entry>, n: nat)
    requires n < |entries|
    ensures Refresh(entries, n + 1) == Newer(Refresh(entries, n), entries[n])
  {
  }

  lemma NewerIsNewest(entries: seq<Entry>, n: nat, r: Newest)
    requires n < |entries| && IsNewest(entries, n, r)
    requires entries[n].known ==> entries[n].sequence > 0
    requires forall j :: 0 <= j < n && entries[j].known && entries[n].known ==> entries[j].sequence != entries[n].sequence
    ensures IsNewest(entries, n + 1, Newer(r, entries[n]))
  {
    HeldLonger(entries, n, r.newest, r.current);
    HeldLonger(entries, n, r.prior, r.previous);
    hide Held;
  }

  // ----- the imperative table -----

  class BackgroundTable {
    const entries: array<Entry>
    var used: nat
    var nextId: nat
    var current: nat
    var previous: nat
    var nextSequence: nat

    ghost predicate Valid()
      reads this, entries
    {
      entries.Length == CAP && Inv(View())
    }

    ghost function View(): Table
      reads this, entries
    {
      Table(entries[..], used, nextId, current, previous, nextSequence)
    }

    constructor ()
      ensures Valid() && View() == START && fresh(entries)
    {
      entries := new Entry[CAP](_ => NO_ENTRY);
      used, nextId, current, previous, nextSequence := 0, 1, 0, 0, 1;
      new;
      assert entries[..] == START.entries;
    }

    /** `job_id_in_use`. */
    method UsesId(id: nat) returns (b: bool)
      requires entries.Length == CAP && used <= CAP
      ensures b <==> IdInUse(entries[..], used, id)
    {
      for index := 0 to used
        invariant forall k :: 0 <= k < index ==> !(entries[k].known && entries[k].id == id)
      {
        if entries[index].known && entries[index].id == id {
          assert entries[..][index] == entries[index];
          return true;
        }
      }
      assert forall k :: 0 <= k < CAP ==> entries[..][k] == entries[k];
      return false;
    }

    /** `next_job_id`: at most 129 candidates; on failure the counter has moved
        past all of them. */
    method NextJobId() returns (id: Option<nat>)
      requires entries.Length == CAP && used <= CAP && 0 < nextId <= MAX_ID
      modifies this`nextId
      ensures match FreeId(entries[..], used, old(nextId), CAP + 1)
        case Some((found, next)) => id == Some(found) && nextId == next
        case None => id == None
    {
      hide IdInUse, FreeId;
      var checked := 0;
      while checked <= CAP
        invariant 0 <= checked <= CAP + 1 && 0 < nextId <= MAX_ID
        invariant FreeId(entries[..], used, old(nextId), CAP + 1) == FreeId(entries[..], used, nextId, CAP + 1 - checked)
      {
        FreeIdStep(entries[..], used, nextId, CAP + 1 - checked);
        var candidate := nextId;
        nextId := if candidate == MAX_ID then 1 else candidate + 1;
        var inUse := UsesId(candidate);
        if !inUse {
          return Some(candidate);
        }
        checked := checked + 1;
      }
      FreeIdStep(entries[..], used, nextId, 0);
      return None;
    }

    /** `member_in_use`. */
    method UsesMember(pid: int) returns (b: bool)
      requires entries.Length == CAP && used <= CAP
      ensures b <==> MemberInUse(entries[..], used, pid)
    {
      for index := 0 to used
        invariant forall k :: 0 <= k < index ==> !(entries[k].known && pid in entries[k].members)
      {
        if entries[index].known {
          var m := MemberIndex(entries[index].members, pid, 0);
          if m.Some? {
            assert entries[..][index] == entries[index];
            return true;
          }
        }
      }
      assert forall k :: 0 <= k < CAP ==> entries[..][k] == entries[k];
      return false;
    }

    /** `available_entry`, with the slot counted if it is a new one. */
    method AvailableSlot() returns (slot: Option<nat>)
      requires entries.Length == CAP && used <= CAP
      modifies this`used
      ensures slot == Available(old(View()))
      ensures used == if slot == Some(old(used)) then old(used) + 1 else old(used)
    {
      ghost var all := entries[..];
      for index := 0 to used
        invariant FirstReclaimable(all, used, 0) == FirstReclaimable(all, used, index)
        invariant used == old(used)
      {
        assert all[index] == entries[index];
        if Reclaimable(entries[index]) {
          return Some(index);
        }
      }
      if used < CAP {
        used := used + 1;
        return Some(used - 1);
      }
      return None;
    }

    method FirstBadMember(members: seq<int>) returns (r: Option<AddResult>)
      requires entries.Length == CAP && used <= CAP
      ensures r == BadMember(View(), members, 0)
    {
      hide MemberInUse;
      ghost var t := View();
      for index := 0 to |members|
        invariant BadMember(t, members, 0) == BadMember(t, members, index)
      {
        if members[index] <= 0 {
          return Some(InvalidArgument);
        }
        var inUse := UsesMember(members[index]);
        if inUse {
          return Some(Duplicate);
        }
      }
      return None;
    }

    /** `gsh_background_add_job`. */
    method AddBackgroundJob(pgid: int, pid: int, members: seq<int>, commands: nat, pipefail: bool, command: Text)
      returns (r: AddResult)
      requires Valid()
      modifies this, entries
      ensures (View(), r) == if |command| >= COMMAND_CAP then (old(View()), InvalidArgument)
                             else AddJob(old(View()), pgid, pid, members, commands, pipefail)
      ensures DistinctMembers(members) ==> Valid()
    {
      if DistinctMembers(members) {
        AddKeepsInv(View(), pgid, pid, members, commands, pipefail);
      }
      FreeIdExists(entries[..], used, nextId);
      assert used <= CAP && 0 < nextId <= MAX_ID;
      hide Inv, FreeId, BadMember, NewEntry, Available, DistinctMembers;
      if !ValidArguments(pgid, pid, members, commands) || |command| >= COMMAND_CAP {
        return InvalidArgument;
      }
      var bad := FirstBadMember(members);
      if bad.Some? {
        return bad.value;
      }
      var jobId := NextJobId();
      ghost var counted := View();
      var slot := AvailableSlot();
      if slot.None? {
        return NoRoom;
      }
      entries[slot.value] := NewEntry(pgid, pid, members, commands, pipefail, jobId.value, nextSequence);
      nextSequence := nextSequence + 1;
      previous := current;
      current := jobId.value;
      NewEntryId(pgid, pid, members, commands, pipefail, jobId.value, counted.nextSequence);
      return Added(jobId.value);
    }

    method LocateMember(pid: int) returns (found: Option<(nat, nat)>)
      requires entries.Length == CAP && used <= CAP
      ensures found == FindMember(entries[..], used, pid, 0)
    {
      hide MemberIndex;
      ghost var all := entries[..];
      for index := 0 to used
        invariant FindMember(all, used, pid, 0) == FindMember(all, used, pid, index)
      {
        assert entries[index] == all[index];
        if entries[index].known {
          var m := MemberIndex(entries[index].members, pid, 0);
          if m.Some? {
            return Some((index, m.value));
          }
        }
      }
      return None;
    }

    /** `gsh_background_update_member`. */
    method UpdateMemberState(pid: int, s: WaitStatus) returns (found: bool)
      requires Valid()
      modifies this`current, this`previous, entries
      ensures View() == UpdateMember(old(View()), pid, s)
      ensures found <==> FindMember(old(entries[..]), used, pid, 0).Some?
      ensures !EndedMember(old(View()), pid) ==> Valid()
    {
      ghost var t := View();
      if !EndedMember(t, pid) {
        UpdateKeepsInv(t, pid, s);
      }
      var place := LocateMember(pid);
      if place.None? {
        return false;
      }
      var index, m := place.value.0, place.value.1;
      var e := entries[index];
      assert KnownOk(t.entries[index], t.nextSequence);
      hide Inv, Report, EndedMember, FindMember, AllStopped;
      entries[index] := Report(e, m, s);
      if s.Stopped? && AllStopped(e.(states := e.states[m := Halted])) && current != e.id {
        previous := current;
        current := e.id;
      }
      return true;
    }

    /** `refresh_current_jobs`. */
    method RefreshCurrent()
      requires entries.Length == CAP && used <= CAP
      modifies this`current, this`previous
      ensures current == Refresh(entries[..], used).current && previous == Refresh(entries[..], used).previous
    {
      ghost var all := entries[..];
      var r := Newest(0, 0, 0, 0);
      for index := 0 to used
        invariant r == Refresh(all, index)
      {
        var e := entries[index];
        assert e == all[index];
        if e.known {
          if e.sequence > r.newest {
            r := Newest(e.sequence, r.newest, e.id, r.current);
          } else if e.sequence > r.prior {
            r := r.(prior := e.sequence, previous := e.id);
          }
        }
      }
      current, previous := r.current, r.previous;
    }

    /** `gsh_background_consume`: report the status once and forget the job. */
    method ConsumeStatus(pid: int) returns (status: Option<WaitStatus>)
      requires Valid()
      modifies this`used, this`current, this`previous, entries
      ensures Valid() && (View(), status) == Consume(old(View()), pid)
    {
      ghost var t := View();
      StepKeepsInv(t, ConsumeJob(pid));
      hide Inv;
      var found := LocateDone(pid);
      if found.None? {
        return None;
      }
      hide FindDone, Refresh, Trim;
      var index := found.value;
      status := Some(entries[index].status);
      entries[index] := entries[index].(consumed := true, known := false);
      DropUnknown();
      RefreshCurrent();
    }

    method LocateDone(pid: int) returns (found: Option<nat>)
      requires entries.Length == CAP && used <= CAP
      ensures found == FindDone(entries[..], used, pid, 0)
    {
      ghost var all := entries[..];
      for index := 0 to used
        invariant FindDone(all, used, pid, 0) == FindDone(all, used, pid, index)
      {
        assert entries[index] == all[index];
        if entries[index].known && entries[index].pid == pid && entries[index].done {
          return Some(index);
        }
      }
      return None;
    }

    method DropUnknown()
      requires entries.Length == CAP && used <= CAP
      modifies this`used
      ensures used == Trim(entries[..], old(used))
    {
      ghost var all := entries[..];
      while used != 0 && !entries[used - 1].known
        invariant used <= CAP && Trim(all, old(used)) == Trim(all, used)
        decreases used
      {
        assert entries[used - 1] == all[used - 1];
        used := used - 1;
      }
      assert used > 0 ==> entries[used - 1] == all[used - 1];
    }
  }

  lemma FreeIdStep(entries: seq<Entry>, used: nat, candidate: nat, tries: nat)
    requires 0 < candidate <= MAX_ID
    ensures FreeId(entries, used, candidate, tries) ==
      if tries == 0 then None
      else if !IdInUse(entries, used, candidate) then Some((candidate, Successor(candidate)))
      else FreeId(entries, used, Successor(candidate), tries - 1)
  {
  }

  lemma NewEntryId(pgid: int, pid: int, members: seq<int>, commands: nat, pipefail: bool, id: nat, sequence: nat)
    ensures NewEntry(pgid, pid, members, commands, pipefail, id, sequence).id == id
  {
  }
}
