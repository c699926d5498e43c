/** Which calls can take a job off the table, and that a job whose members have all
    been reported is there to be asked for its status. */
module JobKept {
  import opened Bytes
  import opened Waiting
  import opened Pipeline
  import opened JobEntry
  import opened JobTable

  /** The calls after which job `e` may be gone: its removal, the consumption of its
      status, or of all statuses when every job is done, and an addition, if the job is
      done and its end has been notified. */
  predicate Dismisses(t: Table, e: Entry, op: Operation) {
    match op
    case RemoveJob(id) => id == e.id
    case ConsumeJob(pid) => pid == e.pid && e.done
    case ConsumeAll => forall k :: 0 <= k < t.used && k < |t.entries| && t.entries[k].known ==> t.entries[k].state == JOB_DONE
    case Add(_, _, _, _, _) => e.state == JOB_DONE && (e.notified || e.consumed)
    case _ => false
  }

  /** The same job, as it was added. */
  predicate SameAddition(e: Entry, f: Entry) {
    && f.known == e.known && f.sequence == e.sequence && f.id == e.id && f.pid == e.pid && f.members == e.members
    && f.pipeline.commands == e.pipeline.commands && f.pipeline.pipefail == e.pipeline.pipefail
  }

  lemma ReportIsSameAddition(e: Entry, m: nat, s: WaitStatus)
    requires m < |e.states|
    ensures SameAddition(e, Report(e, m, s)) && Report(e, m, s).consumed == e.consumed
  {
    hide Record, Result, AllStopped;
    RecordKeeps(e.pipeline, m, s);
  }

  /** What a call makes of slot `k`, when it does not dismiss the job there. */
  function SlotAfter(t: Table, op: Operation, k: nat): Entry
    requires t.used <= |t.entries| && k < t.used
  {
    var e := t.entries[k];
    match op
    case Update(pid, s) =>
      var m := MemberIndex(e.members, pid, 0);
      if m.None? || m.value >= |e.states| || e.states[m.value] == Ended then e else Report(e, m.value, s)
    case MarkNotified(id) => if id == e.id then e.(notified := true) else e
    case StopJob(id) => if id == e.id then StopAll(e) else e
    case ContinueJob(id) => if id == e.id then JobEntry.ContinueAll(e) else e
    case _ => e
  }

  /** A known job's slot changes by reports about its own members and by calls that name
      it, and by nothing else, until a call dismisses it. */
  lemma SlotIsKept(t: Table, op: Operation, k: nat)
    requires Inv(t) && k < t.used && t.entries[k].known && !Dismisses(t, t.entries[k], op)
    ensures k < Step(t, op).used <= |Step(t, op).entries| && Step(t, op).entries[k] == SlotAfter(t, op, k)
  {
    JobTable.StepShape(t, op);
    match op
    case Add(pgid, pid, members, commands, pipefail) => AddKeepsSlot(t, pgid, pid, members, commands, pipefail, k);
    case Update(pid, s) => UpdateKeepsSlot(t, pid, s, k);
    case ConsumeJob(pid) =>
      hide Inv, FindDone;
      var i := FindDone(t.entries, t.used, pid, 0);
      if i.Some? {
        ForgetKeepsSlot(t, i.value, t.entries[i.value].(consumed := true, known := false), k);
      }
    case RemoveJob(id) =>
      hide Inv, FindId;
      var i := FindId(t.entries, t.used, id, 0);
      if i.Some? {
        ForgetKeepsSlot(t, i.value, t.entries[i.value].(known := false), k);
      }
    case ConsumeAll =>
    case MarkNotified(id) => NamedKeepsSlot(t, op, k);
    case StopJob(id) => NamedKeepsSlot(t, op, k);
    case ContinueJob(id) => NamedKeepsSlot(t, op, k);
  }

  lemma AddKeepsSlot(t: Table, pgid: int, pid: int, members: seq<int>, commands: nat, pipefail: bool, k: nat)
    requires Inv(t) && k < t.used && !Reclaimable(t.entries[k])
    ensures var r := AddJob(t, pgid, pid, members, commands, pipefail).0;
      k < r.used && r.used <= |r.entries| && r.entries[k] == t.entries[k]
  {
    hide KnownOk, Apart, AddJob, FreeId, NewEntry, BadMember, ValidArguments, MemberInUse, FirstReclaimable;
    AddCases(t, pgid, pid, members, commands, pipefail);
  }

  lemma MembersApart(a: Entry, b: Entry, pid: int)
    requires Apart(a, b) && a.known && b.known && pid in a.members
    ensures pid !in b.members
  {
    var m :| 0 <= m < |a.members| && a.members[m] == pid;
  }

  /** No other known job has the id, or the member. */
  lemma OnlyThisJob(t: Table, k: nat, i: nat, pid: int)
    requires Inv(t) && k < t.used && i < t.used && i != k && t.entries[k].known && t.entries[i].known
    ensures t.entries[i].id != t.entries[k].id
    ensures pid in t.entries[i].members ==> pid !in t.entries[k].members
  {
    hide KnownOk;
    var a, b := if i < k then i else k, if i < k then k else i;
    assert Apart(t.entries[a], t.entries[b]);
    if pid in t.entries[a].members {
      MembersApart(t.entries[a], t.entries[b], pid);
    }
  }

  lemma UpdateKeepsSlot(t: Table, pid: int, s: WaitStatus, k: nat)
    requires Inv(t) && k < t.used && t.entries[k].known
    ensures Step(t, Update(pid, s)).entries[k] == SlotAfter(t, Update(pid, s), k)
    ensures Step(t, Update(pid, s)).used == t.used
  {
    hide KnownOk, Apart, FindMember, Report, AllStopped, MemberIndex;
    var found := FindMember(t.entries, t.used, pid, 0);
    if found.Some? {
      var (i, m) := found.value;
      if i != k {
        OnlyThisJob(t, k, i, pid);
      } else {
        FoundIsIndex(t, pid, k);
      }
    }
  }

  lemma FoundIsIndex(t: Table, pid: int, k: nat)
    requires t.used <= |t.entries| && k < t.used
    requires FindMember(t.entries, t.used, pid, 0).Some? && FindMember(t.entries, t.used, pid, 0).value.0 == k
    ensures MemberIndex(t.entries[k].members, pid, 0) == Some(FindMember(t.entries, t.used, pid, 0).value.1)
  {
    FoundFrom(t, pid, 0);
  }

  lemma {:induction false} FoundFrom(t: Table, pid: int, from: nat)
    requires from <= t.used <= |t.entries| && FindMember(t.entries, t.used, pid, from).Some?
    ensures var (k, m) := FindMember(t.entries, t.used, pid, from).value;
      MemberIndex(t.entries[k].members, pid, 0) == Some(m)
    decreases t.used - from
  {
    hide MemberIndex;
    if from < t.used && !(t.entries[from].known && MemberIndex(t.entries[from].members, pid, 0).Some?) {
      FoundFrom(t, pid, from + 1);
    }
  }

  lemma ForgetKeepsSlot(t: Table, i: nat, e: Entry, k: nat)
    requires i < t.used <= |t.entries| && k < t.used && k != i && t.entries[k].known
    ensures k < Forget(t, i, e).used && Forget(t, i, e).entries[k] == t.entries[k]
  {
    hide Trim, Refresh;
  }

  lemma NamedKeepsSlot(t: Table, op: Operation, k: nat)
    requires Inv(t) && k < t.used && t.entries[k].known && (op.MarkNotified? || op.StopJob? || op.ContinueJob?)
    ensures Step(t, op).entries[k] == SlotAfter(t, op, k) && Step(t, op).used == t.used
  {
    hide KnownOk, Apart, FindId;
    var i := FindId(t.entries, t.used, op.id, 0);
    if i.Some? && i.value != k {
      OnlyThisJob(t, k, i.value, 0);
    }
  }

  /** A job that is removed, or whose status has just been answered, is on the table no
      more, so its status is answered once. */
  lemma DismissedIsGone(t: Table, op: Operation, k: nat)
    requires Inv(t) && k < t.used && t.entries[k].known
    requires op == RemoveJob(t.entries[k].id) || (op.ConsumeJob? && FindDone(t.entries, t.used, op.pid, 0) == Some(k))
    ensures Step(t, op).used <= |Step(t, op).entries|
    ensures forall j :: 0 <= j < Step(t, op).used && Step(t, op).entries[j].known ==>
      Step(t, op).entries[j].sequence != t.entries[k].sequence
  {
    JobTable.StepShape(t, op);
    hide KnownOk, Apart, Trim, Refresh, FindId, FindDone;
    if op.RemoveJob? {
      var i := FindId(t.entries, t.used, op.id, 0);
      if i.value != k {
        OnlyThisJob(t, k, i.value, 0);
        assert false;
      }
    }
    forall j | 0 <= j < t.used && j != k && t.entries[j].known ensures t.entries[j].sequence != t.entries[k].sequence {
      SequencesDiffer(t, j, k);
    }
  }

  lemma SequencesDiffer(t: Table, j: nat, k: nat)
    requires Inv(t) && j < t.used && k < t.used && j != k && t.entries[j].known && t.entries[k].known
    ensures t.entries[j].sequence != t.entries[k].sequence
  {
    hide KnownOk;
    assert Apart(t.entries[if j < k then j else k], t.entries[if j < k then k else j]);
  }

  // ----- a job from its addition on -----

  /** The first end each member is reported with. */
  function ReportsOf(members: seq<int>, ops: seq<Operation>): (exits: seq<Option<WaitStatus>>)
    ensures |exits| == |members|
  {
    if ops == [] then seq(|members|, _ => None)
    else
      var before, op := ReportsOf(members, ops[..|ops| - 1]), ops[|ops| - 1];
      var m := if op.Update? then MemberIndex(members, op.member, 0) else None;
      if m.Some? && before[m.value].None? then ExitsAfter(before, m.value, op.status) else before
  }

  predicate AllReported(exits: seq<Option<WaitStatus>>) {
    forall m :: 0 <= m < |exits| ==> exits[m].Some?
  }

  /** The job is not removed, and once all its members have been reported, its end is not
      notified and no status is consumed for it. */
  predicate LeftAlone(id: nat, pid: int, members: seq<int>, ops: seq<Operation>) {
    forall i :: 0 <= i < |ops| ==>
      && ops[i] != RemoveJob(id)
      && (ops[i] == ConsumeJob(pid) || ops[i] == ConsumeAll || ops[i] == MarkNotified(id) ==>
            !AllReported(ReportsOf(members, ops[..i])))
  }

  /** An entry in step with the reports, whose end has not been notified. */
  ghost predicate Awaits(e: Entry, exits: seq<Option<WaitStatus>>) {
    e.known && !e.consumed && EntryTracks(e, exits) && (e.state == JOB_DONE ==> !e.notified)
  }

  lemma AwaitsDone(e: Entry, exits: seq<Option<WaitStatus>>)
    requires Awaits(e, exits)
    ensures |exits| == |e.members| && (e.state == JOB_DONE <==> AllReported(exits)) && (e.done <==> AllReported(exits))
  {
    UnfinishedZero(e.states);
    hide Unfinished, Tracks, Final;
  }

  lemma SlotStillAwaits(t: Table, op: Operation, k: nat, exits: seq<Option<WaitStatus>>)
    requires Inv(t) && k < t.used && Awaits(t.entries[k], exits)
    requires op == MarkNotified(t.entries[k].id) ==> !AllReported(exits)
    ensures |t.entries| == CAP && |exits| == |t.entries[k].members|
    ensures SameAddition(t.entries[k], SlotAfter(t, op, k))
    ensures var m := if op.Update? then MemberIndex(t.entries[k].members, op.member, 0) else None;
      Awaits(SlotAfter(t, op, k),
             if m.Some? && exits[m.value].None? then ExitsAfter(exits, m.value, op.status) else exits)
  {
    hide KnownOk, Apart;
    var e := t.entries[k];
    AwaitsDone(e, exits);
    match op
    case Update(pid, s) =>
      var m := MemberIndex(e.members, pid, 0);
      if m.Some? {
        TracksEnded(e, exits, m.value);
        if e.states[m.value] != Ended {
          ReportIsSameAddition(e, m.value, s);
          ReportKeepsTracking(e, exits, m.value, s);
          ReportUnnoticed(e, m.value, s);
        }
      }
    case MarkNotified(id) => NotifyKeeps(e, exits);
    case StopJob(id) => StopContinueKeepTracking(e, exits);
    case ContinueJob(id) => StopContinueKeepTracking(e, exits);
    case _ =>
  }

  lemma ReportUnnoticed(e: Entry, m: nat, s: WaitStatus)
    requires m < |e.states| && (e.state == JOB_DONE ==> !e.notified)
    ensures Report(e, m, s).state == JOB_DONE ==> !Report(e, m, s).notified
  {
    hide Record, Result, AllStopped;
  }

  /** The job in its slot after a run that leaves it alone. */
  ghost predicate Waits(t: Table, k: nat, sequence: nat, id: nat, pid: int, members: seq<int>, commands: nat,
                        pipefail: bool, exits: seq<Option<WaitStatus>>)
  {
    && k < t.used && k < |t.entries| && Awaits(t.entries[k], exits)
    && var e := t.entries[k];
       && e.sequence == sequence && e.id == id && e.pid == pid && e.members == members
       && e.pipeline.commands == commands && e.pipeline.pipefail == pipefail
  }

  lemma AddedWaits(t: Table, op: Operation, id: nat) returns (k: nat)
    requires Inv(t) && op.Add? && DistinctMembers(op.members)
    requires AddJob(t, op.pgid, op.pid, op.members, op.commands, op.pipefail).1 == Added(id)
    ensures Waits(Step(t, op), k, t.nextSequence, id, op.pid, op.members, op.commands, op.pipefail, ReportsOf(op.members, []))
  {
    AddCases(t, op.pgid, op.pid, op.members, op.commands, op.pipefail);
    k := Available(t).value;
    NewEntryTracks(op.pgid, op.pid, op.members, op.commands, op.pipefail, id, t.nextSequence);
    hide Inv, FreeId, BadMember, MemberInUse, FirstReclaimable, EntryTracks;
  }

  lemma {:induction false} StillWaits(before: seq<Operation>, op: Operation, after: seq<Operation>, id: nat) returns (k: nat)
    requires op.Add? && DistinctMembers(op.members)
    requires AddJob(Run(START, before), op.pgid, op.pid, op.members, op.commands, op.pipefail).1 == Added(id)
    requires LeftAlone(id, op.pid, op.members, after)
    ensures Waits(Run(START, before + [op] + after), k, Run(START, before).nextSequence, id, op.pid, op.members,
                  op.commands, op.pipefail, ReportsOf(op.members, after))
    decreases |after|
  {
    hide Inv, Step, AddJob, Waits;
    var ops := before + [op] + after;
    if after == [] {
      assert ops == before + [op] && ops[..|ops| - 1] == before;
      RunKeepsInv(before);
      k := AddedWaits(Run(START, before), op, id);
    } else {
      var front, last := after[..|after| - 1], after[|after| - 1];
      assert ops[..|ops| - 1] == before + [op] + front && ops[|ops| - 1] == last;
      assert LeftAlone(id, op.pid, op.members, front) by {
        forall i | 0 <= i < |front| ensures front[i] == after[i] && front[..i] == after[..i] {
        }
      }
      k := StillWaits(before, op, front, id);
      RunKeepsInv(ops[..|ops| - 1]);
      assert after[..|after| - 1] == front;
      WaitsOn(Run(START, before + [op] + front), k, Run(START, before).nextSequence, id, op, front, last);
    }
  }

  lemma WaitsOn(t: Table, k: nat, sequence: nat, id: nat, op: Operation, front: seq<Operation>, last: Operation)
    requires Inv(t) && op.Add?
    requires Waits(t, k, sequence, id, op.pid, op.members, op.commands, op.pipefail, ReportsOf(op.members, front))
    requires last != RemoveJob(id)
    requires last == ConsumeJob(op.pid) || last == ConsumeAll || last == MarkNotified(id) ==>
      !AllReported(ReportsOf(op.members, front))
    ensures Waits(Step(t, last), k, sequence, id, op.pid, op.members, op.commands, op.pipefail,
                  ReportsOf(op.members, front + [last]))
  {
    hide Inv, Step, Awaits, AllReported, SlotAfter, MemberIndex;
    var exits := ReportsOf(op.members, front);
    assert (front + [last])[..|front|] == front;
    AwaitsDone(t.entries[k], exits);
    AwaitsKnown(t.entries[k], exits);
    SlotIsKept(t, last, k);
    SlotStillAwaits(t, last, k, exits);
  }

  lemma AwaitsKnown(e: Entry, exits: seq<Option<WaitStatus>>)
    requires Awaits(e, exits)
    ensures e.known && !e.consumed && (e.state == JOB_DONE ==> !e.notified)
  {
  }

  /** Over every run: a job stays on the table from its addition on, with the state its
      members' reports imply, for as long as it is left alone; once all of them have been
      reported, consuming its status pid answers its pipeline status, if no other job on
      the table has that pid. */
  lemma ReportedJobIsAnswered(before: seq<Operation>, op: Operation, after: seq<Operation>, id: nat)
    requires op.Add? && DistinctMembers(op.members)
    requires AddJob(Run(START, before), op.pgid, op.pid, op.members, op.commands, op.pipefail).1 == Added(id)
    requires LeftAlone(id, op.pid, op.members, after)
    ensures var t, exits := Run(START, before + [op] + after), ReportsOf(op.members, after);
      && (exists k :: 0 <= k < t.used && OnTable(t.entries[k], op, id) && (t.entries[k].done <==> AllReported(exits)))
      && ((forall j, k :: 0 <= j < k < t.used && t.entries[j].known && t.entries[k].known && t.entries[j].pid == op.pid
             ==> t.entries[k].pid != op.pid) && AllReported(exits) ==>
            op.commands <= |exits| && Consume(t, op.pid).1 == Final(exits[..op.commands], op.pipefail))
  {
    var k := StillWaits(before, op, after, id);
    hide Run, Final, Forget, FindDone, Awaits, ReportsOf, AllReported;
    var t, exits := Run(START, before + [op] + after), ReportsOf(op.members, after);
    AwaitsDone(t.entries[k], exits);
    AwaitsKnown(t.entries[k], exits);
    assert OnTable(t.entries[k], op, id);
    if AllReported(exits) {
      AwaitsFinal(t.entries[k], exits);
    }
  }

  predicate OnTable(e: Entry, op: Operation, id: nat)
    requires op.Add?
  {
    e.known && e.id == id && e.pid == op.pid && e.members == op.members
  }

  lemma AwaitsFinal(e: Entry, exits: seq<Option<WaitStatus>>)
    requires Awaits(e, exits) && e.done
    ensures e.pipeline.commands <= |exits| && Final(exits[..e.pipeline.commands], e.pipeline.pipefail) == Some(e.status)
  {
    hide Unfinished, Tracks, Final;
  }

  // ----- the current job -----

  ghost predicate KnownId(t: Table, id: nat) {
    exists k :: 0 <= k < t.used && k < |t.entries| && t.entries[k].known && t.entries[k].id == id
  }

  /** The current job is a known one, and there is none exactly when no job is known. */
  ghost predicate CurrentOk(t: Table) {
    if t.current == 0 then forall id :: !KnownId(t, id) else KnownId(t, t.current)
  }

  /** A job that is added, stopped or continued, or whose last running member is reported
      stopped, becomes the current one, and the one that was current the previous one. */
  lemma TouchedIsCurrent(t: Table, op: Operation, k: nat)
    requires Inv(t)
    ensures op.Add? && DistinctMembers(op.members) ==>
      match AddJob(t, op.pgid, op.pid, op.members, op.commands, op.pipefail).1
      case Added(id) => Step(t, op).current == id && Step(t, op).previous == t.current
      case _ => Step(t, op).current == t.current && Step(t, op).previous == t.previous
    ensures k < t.used && t.entries[k].known && t.entries[k].state != JOB_DONE && Touches(t, op, k) ==>
      && Step(t, op).current == t.entries[k].id
      && Step(t, op).previous == (if t.current == t.entries[k].id then t.previous else t.current)
  {
    if op.Add? {
      AddCases(t, op.pgid, op.pid, op.members, op.commands, op.pipefail);
      hide Inv, FreeId, BadMember, NewEntry, Available, MemberInUse;
    } else if k < t.used && t.entries[k].known && t.entries[k].state != JOB_DONE && Touches(t, op, k) {
      if op.Update? {
        ReportIsTouch(t, op.member, op.status, k);
      } else {
        hide KnownOk, Apart, FindId, StopAll, JobEntry.ContinueAll;
        var i := FindId(t.entries, t.used, op.id, 0);
        if i.value != k {
          OnlyThisJob(t, k, i.value, 0);
        }
      }
    }
  }

  predicate Touches(t: Table, op: Operation, k: nat)
    requires t.used <= |t.entries| && k < t.used
  {
    || op == StopJob(t.entries[k].id) || op == ContinueJob(t.entries[k].id)
    || (op.Update? && op.status.Stopped? && SlotAfter(t, op, k) != t.entries[k] && SlotAfter(t, op, k).state == JOB_STOPPED
        && t.entries[k].state == JOB_RUNNING)
  }

  lemma ReportIsTouch(t: Table, pid: int, s: WaitStatus, k: nat)
    requires Inv(t) && k < t.used && t.entries[k].known && s.Stopped?
    requires Touches(t, Update(pid, s), k)
    ensures Step(t, Update(pid, s)).current == t.entries[k].id
    ensures Step(t, Update(pid, s)).previous == (if t.current == t.entries[k].id then t.previous else t.current)
  {
    hide KnownOk, Apart, FindMember, MemberIndex;
    var found := FindMember(t.entries, t.used, pid, 0);
    var m := MemberIndex(t.entries[k].members, pid, 0);
    assert found.Some?;
    if found.value.0 != k {
      OnlyThisJob(t, k, found.value.0, pid);
    } else {
      FoundIsIndex(t, pid, k);
    }
  }

  lemma SameKnown(t: Table, u: Table)
    requires t.used == u.used && |t.entries| == |u.entries|
    requires forall k :: 0 <= k < t.used && k < |t.entries| ==>
      t.entries[k].known == u.entries[k].known && t.entries[k].id == u.entries[k].id
    ensures forall id :: KnownId(t, id) <==> KnownId(u, id)
  {
    forall id ensures KnownId(t, id) <==> KnownId(u, id) {
      if k :| 0 <= k < t.used && k < |t.entries| && t.entries[k].known && t.entries[k].id == id {
        assert u.entries[k].known && u.entries[k].id == id;
      }
      if k :| 0 <= k < u.used && k < |u.entries| && u.entries[k].known && u.entries[k].id == id {
        assert t.entries[k].known && t.entries[k].id == id;
      }
    }
  }

  /** The job that is current after a call was current before, is known, or has been chosen
      among the known ones. */
  lemma StepKeepsCurrent(t: Table, op: Operation)
    requires Inv(t) && CurrentOk(t)
    ensures CurrentOk(Step(t, op))
  {
    hide KnownOk, Apart, AddJob, UpdateMember, EndedMember, Forget, FindId, FindDone, StopAll, JobEntry.ContinueAll, KnownId;
    match op
    case Add(pgid, pid, members, commands, pipefail) => AddKeepsCurrent(t, op);
    case Update(pid, s) => UpdateKeepsCurrent(t, pid, s);
    case ConsumeJob(pid) =>
      var k := FindDone(t.entries, t.used, pid, 0);
      if k.Some? {
        ForgetKeepsCurrent(t, k.value, t.entries[k.value].(consumed := true, known := false));
      }
    case RemoveJob(id) =>
      var k := FindId(t.entries, t.used, id, 0);
      if k.Some? {
        ForgetKeepsCurrent(t, k.value, t.entries[k.value].(known := false));
      }
    case ConsumeAll => NothingKnown(t);
    case MarkNotified(id) => NamedKeepsCurrent(t, op);
    case StopJob(id) => NamedKeepsCurrent(t, op);
    case ContinueJob(id) => NamedKeepsCurrent(t, op);
  }

  lemma NothingKnown(t: Table)
    ensures CurrentOk(t.(used := 0, current := 0, previous := 0))
  {
  }

  lemma AddKeepsCurrent(t: Table, op: Operation)
    requires Inv(t) && CurrentOk(t) && op.Add?
    ensures CurrentOk(Step(t, op))
  {
    var u := Step(t, op);
    AddCases(t, op.pgid, op.pid, op.members, op.commands, op.pipefail);
    FreeIdIsFree(t.entries, t.used, t.nextId, CAP + 1);
    hide KnownOk, Apart, FreeId, BadMember, NewEntry, Available, MemberInUse, IdInUse, AddJob, KnownId;
    if DistinctMembers(op.members) && AddJob(t, op.pgid, op.pid, op.members, op.commands, op.pipefail).1.Added? {
      var id, slot := FreeId(t.entries, t.used, t.nextId, CAP + 1).value, Available(t).value;
      var e := NewEntry(op.pgid, op.pid, op.members, op.commands, op.pipefail, id.0, t.nextSequence);
      NewEntryOk(op.pgid, op.pid, op.members, op.commands, op.pipefail, id.0, t.nextSequence);
      IsKnown(u, slot);
    } else {
      SameKnown(t, u);
    }
  }

  lemma IsKnown(t: Table, k: nat)
    requires k < t.used && k < |t.entries| && t.entries[k].known
    ensures KnownId(t, t.entries[k].id)
  {
  }

  lemma UpdateKeepsCurrent(t: Table, pid: int, s: WaitStatus)
    requires Inv(t) && CurrentOk(t)
    ensures CurrentOk(Step(t, Update(pid, s)))
  {
    hide KnownOk, Apart, FindMember, Report, AllStopped, KnownId;
    var u := Step(t, Update(pid, s));
    var found := FindMember(t.entries, t.used, pid, 0);
    if found.Some? {
      var (k, m) := found.value;
      if m < |t.entries[k].states| {
        ReportIsSameAddition(t.entries[k], m, s);
      }
      IsKnown(t, k);
      IdIsPositive(t, k);
    }
    SameKnown(t, u);
  }

  lemma IdIsPositive(t: Table, k: nat)
    requires Inv(t) && k < t.used && t.entries[k].known
    ensures t.entries[k].id > 0
  {
    assert KnownOk(t.entries[k], t.nextSequence);
  }

  lemma NamedKeepsCurrent(t: Table, op: Operation)
    requires Inv(t) && CurrentOk(t) && (op.MarkNotified? || op.StopJob? || op.ContinueJob?)
    ensures CurrentOk(Step(t, op))
  {
    hide KnownOk, Apart, FindId, KnownId;
    var i := FindId(t.entries, t.used, op.id, 0);
    if i.Some? {
      IsKnown(t, i.value);
      IdIsPositive(t, i.value);
    }
    SameKnown(t, Step(t, op));
  }

  lemma ForgetKeepsCurrent(t: Table, i: nat, e: Entry)
    requires Inv(t) && i < t.used && !e.known
    ensures CurrentOk(Forget(t, i, e))
  {
    var entries := t.entries[i := e];
    var used := Trim(entries, t.used);
    forall k | 0 <= k < used && entries[k].known ensures entries[k].sequence > 0 && entries[k].id > 0 {
      assert KnownOk(t.entries[k], t.nextSequence);
    }
    forall j, k | 0 <= j < k < used && entries[j].known && entries[k].known ensures entries[j].sequence != entries[k].sequence {
      SequencesDiffer(t, j, k);
    }
    hide Trim, Refresh, Inv;
    RefreshIsNewest(entries, used);
  }

  /** Over every run the current job is a known one, and there is none exactly when no job
      is known. */
  lemma {:induction false} RunKeepsCurrent(ops: seq<Operation>)
    ensures CurrentOk(Run(START, ops))
  {
    hide Inv, Step, KnownId;
    if ops == [] {
      NobodyKnown();
    } else {
      RunKeepsCurrent(ops[..|ops| - 1]);
      RunKeepsInv(ops[..|ops| - 1]);
      StepKeepsCurrent(Run(START, ops[..|ops| - 1]), ops[|ops| - 1]);
    }
  }

  lemma NobodyKnown()
    ensures CurrentOk(START)
  {
  }
}
