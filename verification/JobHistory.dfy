/** What a run of the job table reported about each job, and that the status a job is
    consumed with is the pipeline status of exactly those reports. */
module JobHistory {
  import opened Bytes
  import opened Waiting
  import opened Pipeline
  import opened JobEntry
  import opened JobTable

  /** One job as it was added, and the exits reported for its members since. */
  datatype Job = Job(members: seq<int>, commands: nat, pipefail: bool, exits: seq<Option<WaitStatus>>)

  /** Jobs by their sequence number, which no other job of the run ever has. */
  type History = map<nat, Job>

  function Reported(job: Job, m: nat, s: WaitStatus): Job {
    if m < |job.exits| then job.(exits := ExitsAfter(job.exits, m, s)) else job
  }

  /** The process of a report: the job's sequence number and the member, if any known
      job has one that has not ended. */
  function Target(t: Table, pid: int): (r: Option<(nat, nat)>)
    requires t.used <= |t.entries|
    ensures r.Some? ==> r.value.0 < t.used && t.entries[r.value.0].known
  {
    if EndedMember(t, pid) then None else FindMember(t.entries, t.used, pid, 0)
  }

  /** What one call adds to the history. */
  function StepHistory(t: Table, h: History, op: Operation): History
    requires t.used <= |t.entries| == CAP
  {
    match op
    case Add(pgid, pid, members, commands, pipefail) =>
      if DistinctMembers(members) && AddJob(t, pgid, pid, members, commands, pipefail).1.Added?
      then h[t.nextSequence := Job(members, commands, pipefail, seq(|members|, _ => None))] else h
    case Update(pid, s) =>
      var target := Target(t, pid);
      if target.None? || t.entries[target.value.0].sequence !in h then h
      else
        var sequence := t.entries[target.value.0].sequence;
        h[sequence := Reported(h[sequence], target.value.1, s)]
    case _ => h
  }

  function RunHistory(t: Table, ops: seq<Operation>): History
    requires t.used <= |t.entries| == CAP
  {
    if ops == [] then map[]
    else
      StepHistory(Run(t, ops[..|ops| - 1]), RunHistory(t, ops[..|ops| - 1]), ops[|ops| - 1])
  }

  // ----- the table agrees with the history -----

  ghost predicate Agrees(e: Entry, h: History) {
    e.known ==>
      && e.sequence in h && h[e.sequence].members == e.members
      && h[e.sequence].commands == e.pipeline.commands && h[e.sequence].pipefail == e.pipeline.pipefail
      && EntryTracks(e, h[e.sequence].exits)
  }

  ghost predicate Traced(t: Table, h: History)
    requires t.used <= |t.entries|
  {
    forall k :: 0 <= k < t.used ==> Agrees(t.entries[k], h)
  }

  /** The histories differ in one job at most. */
  ghost predicate OnlyAt(h: History, g: History, sequence: nat) {
    forall s :: s != sequence ==> ((s in h <==> s in g) && (s in h ==> h[s] == g[s]))
  }

  lemma AgreesStill(e: Entry, h: History, g: History, sequence: nat)
    requires Agrees(e, h) && OnlyAt(h, g, sequence) && (e.known ==> e.sequence != sequence)
    ensures Agrees(e, g)
  {
    hide EntryTracks;
  }

  /** One known entry changes, and its job with it. */
  lemma ChangeIsTraced(t: Table, h: History, k: nat, f: Entry, g: History)
    requires Inv(t) && Traced(t, h) && k < t.used && t.entries[k].known
    requires OnlyAt(h, g, t.entries[k].sequence) && Agrees(f, g)
    ensures Traced(t.(entries := t.entries[k := f]), g)
  {
    hide Agrees, OnlyAt, KnownOk;
    var entries := t.entries[k := f];
    forall i | 0 <= i < t.used ensures Agrees(entries[i], g) {
      if i != k {
        assert Apart(t.entries[if i < k then i else k], t.entries[if i < k then k else i]);
        AgreesStill(t.entries[i], h, g, t.entries[k].sequence);
      }
    }
  }

  lemma Unchanged(h: History, sequence: nat)
    ensures OnlyAt(h, h, sequence)
  {
  }

  lemma FewerAreTraced(t: Table, h: History, entries: seq<Entry>, used: nat, other: Table)
    requires used <= t.used <= |t.entries| == |entries| && Traced(t.(entries := entries), h)
    requires other.entries == entries && other.used == used
    ensures Traced(other, h)
  {
    hide Agrees;
    forall i | 0 <= i < used ensures Agrees(other.entries[i], h) {
      assert Agrees(t.(entries := entries).entries[i], h);
    }
  }

  // ----- each call -----

  lemma AddIsTraced(t: Table, h: History, pgid: int, pid: int, members: seq<int>, commands: nat, pipefail: bool)
    requires Inv(t) && Traced(t, h) && DistinctMembers(members)
    ensures var op := Add(pgid, pid, members, commands, pipefail); Traced(Step(t, op), StepHistory(t, h, op))
  {
    hide FreeId, NewEntry, MemberInUse, Placed, Agrees, AddJob, KnownOk, Apart, BadMember, Available, OnlyAt;
    AddCases(t, pgid, pid, members, commands, pipefail);
    var r := AddJob(t, pgid, pid, members, commands, pipefail);
    if r.1.Added? {
      var id, slot := FreeId(t.entries, t.used, t.nextId, CAP + 1).value, Available(t).value;
      var e := NewEntry(pgid, pid, members, commands, pipefail, id.0, t.nextSequence);
      var g := h[t.nextSequence := Job(members, commands, pipefail, seq(|members|, _ => None))];
      NewAgrees(pgid, pid, members, commands, pipefail, id.0, t.nextSequence, g);
      PlacedShape(t.(nextId := id.1), slot, e);
      NewOnly(h, t.nextSequence, g[t.nextSequence]);
      forall i | 0 <= i < r.0.used ensures Agrees(r.0.entries[i], g) {
        if i != slot {
          if t.entries[i].known {
            SequenceBelow(t, i);
          }
          AgreesStill(t.entries[i], h, g, t.nextSequence);
        }
      }
    }
  }

  lemma NewOnly(h: History, sequence: nat, job: Job)
    ensures OnlyAt(h, h[sequence := job], sequence)
  {
  }

  lemma SequenceBelow(t: Table, i: nat)
    requires Inv(t) && i < t.used && t.entries[i].known
    ensures t.entries[i].sequence < t.nextSequence
  {
    assert KnownOk(t.entries[i], t.nextSequence);
  }

  lemma PlacedShape(t: Table, slot: nat, e: Entry)
    requires slot <= t.used && slot < |t.entries|
    ensures Placed(t, slot, e).entries == t.entries[slot := e]
    ensures Placed(t, slot, e).used == if slot == t.used then t.used + 1 else t.used
  {
  }

  lemma NewAgrees(pgid: int, pid: int, members: seq<int>, commands: nat, pipefail: bool, id: nat, sequence: nat, h: History)
    requires 0 < commands <= |members| && sequence in h
    requires h[sequence] == Job(members, commands, pipefail, seq(|members|, _ => None))
    ensures Agrees(NewEntry(pgid, pid, members, commands, pipefail, id, sequence), h)
  {
    NewEntryTracks(pgid, pid, members, commands, pipefail, id, sequence);
    hide EntryTracks;
  }

  lemma UpdateIsTraced(t: Table, h: History, pid: int, s: WaitStatus)
    requires Inv(t) && Traced(t, h)
    ensures Traced(Step(t, Update(pid, s)), StepHistory(t, h, Update(pid, s)))
  {
    hide FindMember, Report, Apart, AllStopped, Agrees, KnownOk;
    var target := Target(t, pid);
    if target.Some? {
      var (k, m) := target.value;
      var e := t.entries[k];
      assert Agrees(e, h);
      AgreesShape(e, h);
      var g := h[e.sequence := Reported(h[e.sequence], m, s)];
      NewOnly(h, e.sequence, g[e.sequence]);
      if m < |e.states| {
        ReportAgrees(e, h, m, s, g);
        ChangeIsTraced(t, h, k, Report(e, m, s), g);
        CurrentIsUntraced(t.(entries := t.entries[k := Report(e, m, s)]), g, e.id);
      } else {
        NothingReported(h, e.sequence, m, s, g);
      }
    }
  }

  lemma AgreesShape(e: Entry, h: History)
    requires Agrees(e, h) && e.known
    ensures e.sequence in h && |h[e.sequence].exits| == |e.states|
  {
  }

  lemma NothingReported(h: History, sequence: nat, m: nat, s: WaitStatus, g: History)
    requires sequence in h && m >= |h[sequence].exits| && g == h[sequence := Reported(h[sequence], m, s)]
    ensures g == h
  {
  }

  lemma CurrentIsUntraced(t: Table, h: History, id: nat)
    requires t.used <= |t.entries| && Traced(t, h)
    ensures Traced(MakeCurrent(t, id), h)
  {
    hide Agrees;
  }

  lemma ReportAgrees(e: Entry, h: History, m: nat, s: WaitStatus, g: History)
    requires Agrees(e, h) && e.known && m < |e.states| && e.states[m] != Ended
    requires e.sequence in h && g == h[e.sequence := Reported(h[e.sequence], m, s)]
    ensures Agrees(Report(e, m, s), g)
  {
    ReportKeepsTracking(e, h[e.sequence].exits, m, s);
    AgreesShape(e, h);
    ReportSameJob(e, m, s);
    JobEntry.StepShape(e, MemberReport(m, s));
    ReportStaysKnown(e, m, s);
    hide EntryTracks, Report;
  }

  lemma ReportStaysKnown(e: Entry, m: nat, s: WaitStatus)
    requires m < |e.states|
    ensures Report(e, m, s).known == e.known
  {
    hide Record, Result, AllStopped;
  }

  /** Forgetting a job, and the operations on a whole job, leave the history alone. */
  lemma JobIsTraced(t: Table, h: History, op: Operation)
    requires Inv(t) && Traced(t, h) && (op.MarkNotified? || op.ContinueJob? || op.StopJob?)
    ensures Traced(Step(t, op), h)
  {
    hide KnownOk, Apart, FindId, Agrees, StopAll, JobEntry.ContinueAll, MakeCurrent;
    var k := FindId(t.entries, t.used, op.id, 0);
    if k.Some? {
      var e := t.entries[k.value];
      Unchanged(h, e.sequence);
      assert Agrees(e, h);
      WholeJobAgrees(e, h);
      if op.MarkNotified? {
        ChangeIsTraced(t, h, k.value, e.(notified := true), h);
      } else if e.state != JOB_DONE {
        var f := if op.StopJob? then StopAll(e) else JobEntry.ContinueAll(e);
        ChangeIsTraced(t, h, k.value, f, h);
        CurrentIsUntraced(t.(entries := t.entries[k.value := f]), h, op.id);
      }
    }
  }

  lemma WholeJobAgrees(e: Entry, h: History)
    requires Agrees(e, h) && e.known
    ensures Agrees(e.(notified := true), h) && Agrees(StopAll(e), h) && Agrees(JobEntry.ContinueAll(e), h)
  {
    StopContinueKeepTracking(e, h[e.sequence].exits);
    NotifyKeeps(e, h[e.sequence].exits);
    hide EntryTracks;
  }

  lemma ForgetIsTraced(t: Table, h: History, k: nat, e: Entry)
    requires Inv(t) && Traced(t, h) && k < t.used && t.entries[k].known && !e.known
    ensures Traced(Forget(t, k, e), h)
  {
    hide Trim, Refresh, KnownOk, Apart;
    var entries := t.entries[k := e];
    Unchanged(h, t.entries[k].sequence);
    ChangeIsTraced(t, h, k, e, h);
    hide Agrees;
    FewerAreTraced(t, h, entries, Trim(entries, t.used), Forget(t, k, e));
  }

  lemma StepIsTraced(t: Table, h: History, op: Operation)
    requires Inv(t) && Traced(t, h)
    ensures Step(t, op).used <= |Step(t, op).entries| && Traced(Step(t, op), StepHistory(t, h, op))
  {
    JobTable.StepShape(t, op);
    hide Inv, Agrees, AddJob, UpdateMember, EndedMember, Forget, FindId, FindDone, StopAll, JobEntry.ContinueAll;
    if op.Add? {
      if DistinctMembers(op.members) {
        AddIsTraced(t, h, op.pgid, op.pid, op.members, op.commands, op.pipefail);
      }
    } else if op.Update? {
      UpdateIsTraced(t, h, op.member, op.status);
    } else if op.ConsumeJob? {
      var k := FindDone(t.entries, t.used, op.pid, 0);
      if k.Some? {
        ForgetIsTraced(t, h, k.value, t.entries[k.value].(consumed := true, known := false));
      }
    } else if op.RemoveJob? {
      var k := FindId(t.entries, t.used, op.id, 0);
      if k.Some? {
        ForgetIsTraced(t, h, k.value, t.entries[k.value].(known := false));
      }
    } else if !op.ConsumeAll? {
      JobIsTraced(t, h, op);
    }
  }

  // ----- every run -----

  lemma {:induction false} RunIsTraced(ops: seq<Operation>)
    ensures Traced(Run(START, ops), RunHistory(START, ops))
  {
    hide Inv, Step, StepHistory, Agrees;
    if ops != [] {
      var front := ops[..|ops| - 1];
      RunIsTraced(front);
      RunKeepsInv(front);
      hide Traced;
      StepIsTraced(Run(START, front), RunHistory(START, front), ops[|ops| - 1]);
    }
  }

  /** Over every run: the status a job is consumed with is the pipeline status, under the
      options it was added with, of the exits reported for its members, and all of them
      have been reported. */
  lemma ConsumedStatusIsReported(ops: seq<Operation>, pid: int)
    ensures var t, h := Run(START, ops), RunHistory(START, ops);
      var k, status := FindDone(t.entries, t.used, pid, 0), Consume(t, pid).1;
      && (status.Some? <==> k.Some?)
      && (k.Some? ==>
            && t.entries[k.value].sequence in h
            && var job := h[t.entries[k.value].sequence];
               && job.members == t.entries[k.value].members && |job.exits| == |job.members|
               && 0 < job.commands <= |job.members|
               && (forall m :: 0 <= m < |job.exits| ==> job.exits[m].Some?)
               && status == Final(job.exits[..job.commands], job.pipefail))
  {
    RunIsTraced(ops);
    hide Run, RunHistory, Inv, Final, FindDone, Forget;
    var t, h := Run(START, ops), RunHistory(START, ops);
    var k := FindDone(t.entries, t.used, pid, 0);
    if k.Some? {
      assert Agrees(t.entries[k.value], h);
      DoneIsReported(t.entries[k.value], h[t.entries[k.value].sequence].exits);
    }
  }

  lemma DoneIsReported(e: Entry, exits: seq<Option<WaitStatus>>)
    requires EntryTracks(e, exits) && e.done
    ensures |exits| == |e.members| && 0 < e.pipeline.commands <= |e.members|
    ensures forall m :: 0 <= m < |exits| ==> exits[m].Some?
    ensures Final(exits[..e.pipeline.commands], e.pipeline.pipefail) == Some(e.status)
  {
    UnfinishedZero(e.states);
    hide Unfinished, Tracks, Final;
  }
}
