/** One background job: its members' states, the job state they imply, and the
    status it ends with, over every order of child reports. */
module JobEntry {
  import opened Bytes
  import opened Waiting
  import opened Pipeline

  datatype MemberState = Active | Halted | Ended
  datatype JobState = JOB_RUNNING | JOB_STOPPED | JOB_DONE

  /** `gsh_background_entry` without its texts and terminal flags. */
  datatype Entry = Entry(
    pid: int, pgid: int, members: seq<int>, states: seq<MemberState>, remaining: nat, status: WaitStatus,
    id: nat, sequence: nat, state: JobState, known: bool, done: bool, notified: bool, consumed: bool, pipeline: Status)

  function NewEntry(pgid: int, pid: int, members: seq<int>, commands: nat, pipefail: bool, id: nat, sequence: nat): Entry {
    Entry(pid, pgid, members, seq(|members|, _ => Active), |members|, Exited(0), id, sequence, JOB_RUNNING,
          true, false, false, false, Initial(commands, pipefail))
  }

  const NO_ENTRY := Entry(0, 0, [], [], 0, Exited(0), 0, 0, JOB_RUNNING, false, false, false, false, Initial(0, false))

  function Unfinished(states: seq<MemberState>): (n: nat)
    ensures n <= |states|
  {
    if states == [] then 0
    else Unfinished(states[..|states| - 1]) + (if states[|states| - 1] == Ended then 0 else 1)
  }

  /** `all_members_stopped`: no member is active, and not all have ended. */
  predicate AllStopped(e: Entry) {
    e.remaining != 0 && forall m :: 0 <= m < |e.states| ==> e.states[m] != Active
  }

  /** A report about member `m`, as `gsh_background_update_member` applies it. */
  function Report(e: Entry, m: nat, s: WaitStatus): Entry
    requires m < |e.states|
  {
    match s
    case Stopped(_) =>
      var halted := e.(states := e.states[m := Halted]);
      if AllStopped(halted) then halted.(state := JOB_STOPPED, notified := false) else halted
    case Continued => e.(states := e.states[m := Active], state := JOB_RUNNING, notified := false)
    case _ =>
      var ended := e.(states := e.states[m := Ended],
                      remaining := if e.states[m] != Ended && e.remaining > 0 then e.remaining - 1 else e.remaining,
                      pipeline := if m < e.pipeline.commands then Record(e.pipeline, m, s) else e.pipeline);
      if ended.remaining != 0 then ended
      else
        var result := Result(ended.pipeline);
        ended.(state := JOB_DONE, done := true, notified := false,
               status := if result.Some? then result.value else Exited(125))
  }

  /** `gsh_background_stop_job` and `gsh_background_continue_job`, on a job that
      is not done. */
  function StopAll(e: Entry): Entry {
    if e.state == JOB_DONE then e
    else e.(states := seq(|e.states|, m requires 0 <= m < |e.states| => if e.states[m] == Ended then Ended else Halted),
            state := JOB_STOPPED, notified := false)
  }

  function ContinueAll(e: Entry): Entry {
    if e.state == JOB_DONE then e
    else e.(states := seq(|e.states|, m requires 0 <= m < |e.states| => if e.states[m] == Halted then Active else e.states[m]),
            state := JOB_RUNNING, notified := false)
  }

  // ----- what every job satisfies -----

  /** The state of a job is the one its members imply. */
  ghost predicate EntryOk(e: Entry) {
    && |e.members| == |e.states| && 0 < e.pipeline.commands <= |e.members|
    && e.remaining == Unfinished(e.states)
    && (e.state == JOB_DONE <==> e.remaining == 0)
    && (e.done <==> e.state == JOB_DONE)
    && (e.state == JOB_STOPPED ==> forall m :: 0 <= m < |e.states| ==> e.states[m] != Active)
  }

  /** The statuses the ended members reported, and what is recorded of them. */
  ghost predicate EntryTracks(e: Entry, exits: seq<Option<WaitStatus>>) {
    && EntryOk(e) && |exits| == |e.states|
    && (forall m :: 0 <= m < |exits| ==> (exits[m].Some? <==> e.states[m] == Ended))
    && Tracks(e.pipeline, exits[..e.pipeline.commands])
    && (e.done ==> Final(exits[..e.pipeline.commands], e.pipeline.pipefail) == Some(e.status))
  }

  lemma {:induction false} UnfinishedUpdate(states: seq<MemberState>, m: nat, s: MemberState)
    requires m < |states|
    ensures Unfinished(states[m := s]) ==
      Unfinished(states) - (if states[m] == Ended then 0 else 1) + (if s == Ended then 0 else 1)
  {
    var last := |states| - 1;
    if m == last {
      assert states[m := s][..last] == states[..last];
    } else {
      assert states[m := s][..last] == states[..last][m := s];
      UnfinishedUpdate(states[..last], m, s);
    }
  }

  lemma {:induction false} UnfinishedSame(a: seq<MemberState>, b: seq<MemberState>)
    requires |a| == |b| && forall m :: 0 <= m < |a| ==> (a[m] == Ended <==> b[m] == Ended)
    ensures Unfinished(a) == Unfinished(b)
  {
    if a != [] {
      UnfinishedSame(a[..|a| - 1], b[..|b| - 1]);
    }
  }

  lemma {:induction false} UnfinishedZero(states: seq<MemberState>)
    ensures Unfinished(states) == 0 <==> forall m :: 0 <= m < |states| ==> states[m] == Ended
  {
    if states != [] {
      var front := states[..|states| - 1];
      UnfinishedZero(front);
      assert forall m :: 0 <= m < |front| ==> front[m] == states[m];
    }
  }

  lemma {:induction false} AllActive(n: nat)
    ensures Unfinished(seq(n, _ => Active)) == n
  {
    if n > 0 {
      AllActive(n - 1);
      assert seq(n, _ => Active)[..n - 1] == seq(n - 1, _ => Active);
    }
  }

  lemma NewEntryTracks(pgid: int, pid: int, members: seq<int>, commands: nat, pipefail: bool, id: nat, sequence: nat)
    requires 0 < commands <= |members|
    ensures EntryTracks(NewEntry(pgid, pid, members, commands, pipefail, id, sequence), seq(|members|, _ => None))
  {
    hide Tracks;
    AllActive(|members|);
    InitialTracks(commands, pipefail);
    assert seq<Option<WaitStatus>>(|members|, _ => None)[..commands] == seq<Option<WaitStatus>>(commands, _ => None);
  }

  /** The exits known after a report. */
  function ExitsAfter(exits: seq<Option<WaitStatus>>, m: nat, s: WaitStatus): seq<Option<WaitStatus>>
    requires m < |exits|
  {
    if s.Terminal() then exits[m := Some(s)] else exits
  }

  /** A report about a member that has not ended keeps the job consistent. */
  lemma ReportKeepsTracking(e: Entry, exits: seq<Option<WaitStatus>>, m: nat, s: WaitStatus)
    requires EntryTracks(e, exits) && m < |e.states| && e.states[m] != Ended
    ensures EntryTracks(Report(e, m, s), ExitsAfter(exits, m, s))
  {
    UnfinishedZero(e.states);
    if s.Terminal() {
      EndKeepsTracking(e, exits, m, s);
    } else {
      PauseKeepsTracking(e, exits, m, s);
    }
  }

  lemma PauseKeepsTracking(e: Entry, exits: seq<Option<WaitStatus>>, m: nat, s: WaitStatus)
    requires EntryTracks(e, exits) && m < |e.states| && e.states[m] != Ended && !s.Terminal()
    requires e.remaining > 0
    ensures EntryTracks(Report(e, m, s), exits)
  {
    UnfinishedUpdate(e.states, m, if s.Continued? then Active else Halted);
    hide Unfinished, Tracks, Final, Record, Result;
  }

  lemma EndKeepsTracking(e: Entry, exits: seq<Option<WaitStatus>>, m: nat, s: WaitStatus)
    requires EntryTracks(e, exits) && m < |e.states| && e.states[m] != Ended && s.Terminal()
    requires e.remaining > 0
    ensures EntryTracks(Report(e, m, s), exits[m := Some(s)])
  {
    hide Unfinished, Final, Record, Result, Rightmost, Tracks;
    var n := e.pipeline.commands;
    var states, after := e.states[m := Ended], exits[m := Some(s)];
    UnfinishedUpdate(e.states, m, Ended);
    UnfinishedZero(states);
    if m < n {
      RecordTracks(e.pipeline, exits[..n], m, s);
      assert after[..n] == exits[..n][m := Some(s)];
    } else {
      assert after[..n] == exits[..n];
    }
    var d := Report(e, m, s);
    RecordKeeps(e.pipeline, m, s);
    ResultIsFinal(d.pipeline, after[..n]);
    if d.remaining == 0 {
      assert states[n - 1] == Ended;
      assert after[n - 1].Some? && after[..n][n - 1].Some?;
    }
  }

  lemma RecordKeeps(p: Status, m: nat, s: WaitStatus)
    ensures Record(p, m, s).commands == p.commands && Record(p, m, s).pipefail == p.pipefail
  {
  }

  lemma StopContinueKeepTracking(e: Entry, exits: seq<Option<WaitStatus>>)
    requires EntryTracks(e, exits)
    ensures EntryTracks(StopAll(e), exits) && EntryTracks(ContinueAll(e), exits)
  {
    if e.state != JOB_DONE {
      UnfinishedSame(e.states, StopAll(e).states);
      UnfinishedSame(e.states, ContinueAll(e).states);
      hide Unfinished, Tracks, Final;
    }
  }

  /** Without the exits: the job state alone. */
  lemma ReportKeepsOk(e: Entry, m: nat, s: WaitStatus)
    requires EntryOk(e) && m < |e.states| && e.states[m] != Ended
    ensures EntryOk(Report(e, m, s))
  {
    UnfinishedZero(e.states);
    UnfinishedUpdate(e.states, m, if s.Terminal() then Ended else if s.Continued? then Active else Halted);
    hide Unfinished, Result, Record;
    RecordKeeps(e.pipeline, m, s);
  }

  lemma StopContinueKeepOk(e: Entry)
    requires EntryOk(e)
    ensures EntryOk(StopAll(e)) && EntryOk(ContinueAll(e))
  {
    if e.state != JOB_DONE {
      UnfinishedSame(e.states, StopAll(e).states);
      UnfinishedSame(e.states, ContinueAll(e).states);
      hide Unfinished;
    }
  }

  // ----- every run of one job -----

  datatype JobEvent = MemberReport(member: nat, status: WaitStatus) | Stop | Resume | Notify

  function JobStep(e: Entry, ev: JobEvent): Entry {
    match ev
    case MemberReport(m, s) => if m < |e.states| then Report(e, m, s) else e
    case Stop => StopAll(e)
    case Resume => ContinueAll(e)
    case Notify => e.(notified := true)
  }

  function JobRun(e: Entry, events: seq<JobEvent>): Entry {
    if events == [] then e else JobStep(JobRun(e, events[..|events| - 1]), events[|events| - 1])
  }

  /** The status each member ended with. */
  function ExitsOf(n: nat, events: seq<JobEvent>): (exits: seq<Option<WaitStatus>>)
    ensures |exits| == n
  {
    if events == [] then seq(n, _ => None)
    else
      var before, ev := ExitsOf(n, events[..|events| - 1]), events[|events| - 1];
      if ev.MemberReport? && ev.member < n then ExitsAfter(before, ev.member, ev.status) else before
  }

  /** A process is not reported again after it ended. */
  ghost predicate Lifecycle(events: seq<JobEvent>) {
    forall i, j :: (
      && 0 <= i < j < |events| && events[i].MemberReport? && events[j].MemberReport?
      && events[i].status.Terminal()) ==> events[i].member != events[j].member
  }

  lemma {:induction false} ExitsComeFromReports(n: nat, events: seq<JobEvent>, m: nat)
    requires m < n
    ensures ExitsOf(n, events)[m].Some? ==>
      exists i :: 0 <= i < |events| && events[i].MemberReport? && events[i].member == m && events[i].status.Terminal()
  {
    if events != [] {
      var front := events[..|events| - 1];
      ExitsComeFromReports(n, front, m);
      if ExitsOf(n, front)[m].Some? {
        var i :| 0 <= i < |front| && front[i].MemberReport? && front[i].member == m && front[i].status.Terminal();
        assert events[i] == front[i];
      }
    }
  }

  lemma {:induction false} JobRunTracks(e: Entry, events: seq<JobEvent>)
    requires EntryTracks(e, seq(|e.states|, _ => None)) && Lifecycle(events)
    ensures EntryTracks(JobRun(e, events), ExitsOf(|e.states|, events))
    ensures |JobRun(e, events).states| == |e.states| && JobRun(e, events).pipeline.commands == e.pipeline.commands
    ensures JobRun(e, events).pipeline.pipefail == e.pipeline.pipefail
  {
    hide EntryTracks, Report, StopAll, ContinueAll;
    if events != [] {
      var front, ev := events[..|events| - 1], events[|events| - 1];
      assert forall i :: 0 <= i < |front| ==> front[i] == events[i];
      JobRunTracks(e, front);
      var d, exits := JobRun(e, front), ExitsOf(|e.states|, front);
      StepShape(d, ev);
      match ev
      case MemberReport(m, s) =>
        if m < |e.states| {
          ExitsComeFromReports(|e.states|, front, m);
          TracksEnded(d, exits, m);
          ReportKeepsTracking(d, exits, m, s);
        }
      case Notify =>
        NotifyKeeps(d, exits);
      case _ =>
        StopContinueKeepTracking(d, exits);
    }
  }

  lemma StepShape(e: Entry, ev: JobEvent)
    ensures var d := JobStep(e, ev);
      |d.states| == |e.states| && d.pipeline.commands == e.pipeline.commands && d.pipeline.pipefail == e.pipeline.pipefail
  {
    hide Record, Result, AllStopped;
    if ev.MemberReport? {
      RecordKeeps(e.pipeline, ev.member, ev.status);
    }
  }

  lemma TracksEnded(e: Entry, exits: seq<Option<WaitStatus>>, m: nat)
    requires EntryTracks(e, exits) && m < |exits|
    ensures |e.states| == |exits| && (exits[m].Some? <==> e.states[m] == Ended)
  {
  }

  lemma NotifyKeeps(e: Entry, exits: seq<Option<WaitStatus>>)
    requires EntryTracks(e, exits)
    ensures EntryTracks(e.(notified := true), exits)
  {
  }

  /** For every run of a job with at most one end per member: `remaining` counts
      the unfinished members, the job is done exactly when there are none, it is
      stopped only while no member runs, and when it is done its status is the
      pipeline's; the 125 fallback is never used. */
  lemma EveryJobRun(e: Entry, events: seq<JobEvent>, pgid: int, pid: int, members: seq<int>, commands: nat, pipefail: bool, id: nat, sequence: nat)
    requires 0 < commands <= |members| && Lifecycle(events)
    requires e == NewEntry(pgid, pid, members, commands, pipefail, id, sequence)
    ensures var d, exits := JobRun(e, events), ExitsOf(|members|, events);
      && |d.states| == |members| && d.remaining == Unfinished(d.states)
      && (d.state == JOB_DONE <==> forall m :: 0 <= m < |members| ==> exits[m].Some?)
      && (d.state == JOB_STOPPED ==> forall m :: 0 <= m < |members| ==> d.states[m] != Active)
      && (d.state == JOB_DONE ==> Final(exits[..commands], pipefail) == Some(d.status))
  {
    NewEntryTracks(pgid, pid, members, commands, pipefail, id, sequence);
    JobRunTracks(e, events);
    var d := JobRun(e, events);
    UnfinishedZero(d.states);
    hide JobRun, ExitsOf, Unfinished, Tracks, Final, NewEntry;
  }

  /** What the events say of one member: ended once it was reported so, else halted or
      active by the last stop or continuation of it or of the whole job. */
  function MemberAfter(events: seq<JobEvent>, m: nat): MemberState {
    if events == [] then Active
    else
      var before, ev := MemberAfter(events[..|events| - 1], m), events[|events| - 1];
      if before == Ended then Ended
      else match ev
        case MemberReport(k, s) =>
          if k != m then before else if s.Terminal() then Ended else if s.Stopped? then Halted else Active
        case Stop => Halted
        case Resume => Active
        case Notify => before
  }

  lemma ReportedStates(d: Entry, k: nat, s: WaitStatus)
    requires k < |d.states|
    ensures Report(d, k, s).states == d.states[k := if s.Terminal() then Ended else if s.Stopped? then Halted else Active]
  {
    hide Record, Result, AllStopped;
  }

  lemma DoneIsEnded(d: Entry)
    requires EntryOk(d) && d.state == JOB_DONE
    ensures forall m :: 0 <= m < |d.states| ==> d.states[m] == Ended
  {
    UnfinishedZero(d.states);
    hide Unfinished;
  }

  lemma MemberStep(d: Entry, ev: JobEvent, m: nat)
    requires EntryOk(d) && m < |d.states|
    ensures var f := JobStep(d, ev);
      m < |f.states| && f.states[m] ==
        if d.states[m] == Ended && !(ev.MemberReport? && ev.member == m) then Ended
        else match ev
          case MemberReport(k, s) =>
            if k != m then d.states[m] else if s.Terminal() then Ended else if s.Stopped? then Halted else Active
          case Stop => Halted
          case Resume => Active
          case Notify => d.states[m]
  {
    hide EntryOk, Report;
    if d.state == JOB_DONE {
      DoneIsEnded(d);
    }
    if ev.MemberReport? && ev.member < |d.states| {
      ReportedStates(d, ev.member, ev.status);
    }
  }

  /** Over every run each member's state is what the events say of it. */
  lemma {:induction false} MembersFollowEvents(e: Entry, events: seq<JobEvent>, m: nat)
    requires EntryTracks(e, seq(|e.states|, _ => None)) && Lifecycle(events) && m < |e.states|
    requires forall k :: 0 <= k < |e.states| ==> e.states[k] == Active
    ensures m < |JobRun(e, events).states| && JobRun(e, events).states[m] == MemberAfter(events, m)
    decreases |events|
  {
    hide JobStep, EntryTracks;
    if events != [] {
      var front, ev := events[..|events| - 1], events[|events| - 1];
      assert forall i :: 0 <= i < |front| ==> front[i] == events[i];
      MembersFollowEvents(e, front, m);
      JobRunTracks(e, front);
      var d, exits := JobRun(e, front), ExitsOf(|e.states|, front);
      TracksEnded(d, exits, m);
      ExitsComeFromReports(|e.states|, front, m);
      TracksOk(d, exits);
      MemberStep(d, ev, m);
    }
  }

  lemma TracksOk(e: Entry, exits: seq<Option<WaitStatus>>)
    requires EntryTracks(e, exits)
    ensures EntryOk(e)
  {
  }

  // ----- when a job counts as stopped -----

  predicate Pauses(n: nat, ev: JobEvent) {
    ev.Stop? || (ev.MemberReport? && ev.member < n && ev.status.Stopped?)
  }

  predicate Resumes(n: nat, ev: JobEvent) {
    ev.Resume? || (ev.MemberReport? && ev.member < n && ev.status.Continued?)
  }

  /** Event `i` stopped the last running member, and nothing was continued since. */
  ghost predicate HaltedSince(e: Entry, events: seq<JobEvent>, i: nat) {
    && i < |events| && Pauses(|e.states|, events[i]) && AllStopped(JobRun(e, events[..i + 1]))
    && forall j :: i < j < |events| ==> !Resumes(|e.states|, events[j])
  }

  lemma HaltedLonger(e: Entry, events: seq<JobEvent>, i: nat)
    requires events != [] && i < |events| - 1
    ensures HaltedSince(e, events, i) <==>
            HaltedSince(e, events[..|events| - 1], i) && !Resumes(|e.states|, events[|events| - 1])
  {
    hide JobRun, AllStopped, Resumes, Pauses;
    var front := events[..|events| - 1];
    assert front[..i + 1] == events[..i + 1];
    assert forall j :: 0 <= j < |front| ==> front[j] == events[j];
  }

  /** What one event does to the stopped state. */
  lemma StoppedStep(d: Entry, exits: seq<Option<WaitStatus>>, ev: JobEvent)
    requires EntryTracks(d, exits)
    requires ev.MemberReport? && ev.member < |d.states| ==> d.states[ev.member] != Ended
    ensures var f := JobStep(d, ev);
      && (Pauses(|d.states|, ev) ==> (f.state == JOB_STOPPED <==> AllStopped(f)))
      && (Resumes(|d.states|, ev) ==> f.state != JOB_STOPPED)
      && (!Pauses(|d.states|, ev) && !Resumes(|d.states|, ev) ==>
            (f.state == JOB_STOPPED <==> d.state == JOB_STOPPED && f.remaining != 0))
      && (f.remaining != 0 ==> d.remaining != 0) && (f.state == JOB_STOPPED ==> f.remaining != 0)
      && (d.state == JOB_STOPPED && Pauses(|d.states|, ev) ==> f.state == JOB_STOPPED)
  {
    UnfinishedZero(d.states);
    hide Unfinished, Tracks, Final, Record, Result;
    var f := JobStep(d, ev);
    if ev.Stop? {
      if d.state != JOB_DONE {
        assert forall m :: 0 <= m < |f.states| ==> f.states[m] != Active;
      }
    } else if ev.MemberReport? && ev.member < |d.states| && ev.status.Stopped? {
      assert f.states == d.states[ev.member := Halted];
      if d.state == JOB_STOPPED {
        assert forall m :: 0 <= m < |f.states| ==> f.states[m] != Active;
      }
    }
  }

  /** For every run: a job counts as stopped exactly when members are left and some stop
      left none of them running, with nothing continued since. */
  lemma {:induction false} StoppedExactlyWhen(e: Entry, events: seq<JobEvent>)
    requires EntryTracks(e, seq(|e.states|, _ => None)) && e.state == JOB_RUNNING && Lifecycle(events)
    ensures JobRun(e, events).state == JOB_STOPPED <==>
            JobRun(e, events).remaining != 0 && exists i: nat :: HaltedSince(e, events, i)
    decreases |events|
  {
    hide EntryTracks, JobStep, AllStopped, HaltedSince, Pauses, Resumes;
    if events == [] {
      NothingHalted(e);
    } else {
      var front, ev := events[..|events| - 1], events[|events| - 1];
      assert forall i :: 0 <= i < |front| ==> front[i] == events[i];
      StoppedExactlyWhen(e, front);
      JobRunTracks(e, front);
      var d, exits := JobRun(e, front), ExitsOf(|e.states|, front);
      if ev.MemberReport? && ev.member < |e.states| {
        ExitsComeFromReports(|e.states|, front, ev.member);
        TracksEnded(d, exits, ev.member);
      }
      StoppedStep(d, exits, ev);
      HaltedNow(e, events);
      forall i: nat | i < |front|
        ensures HaltedSince(e, events, i) <==> HaltedSince(e, front, i) && !Resumes(|e.states|, ev)
      {
        HaltedLonger(e, events, i);
      }
      HaltedInside(e, events);
      HaltedInside(e, front);
      if i: nat :| HaltedSince(e, front, i) {
        assert HaltedSince(e, events, i) <==> !Resumes(|e.states|, ev);
      }
      if i: nat :| HaltedSince(e, events, i) && i < |front| {
        assert HaltedSince(e, front, i);
      }
    }
  }

  lemma NothingHalted(e: Entry)
    ensures forall i: nat :: !HaltedSince(e, [], i)
  {
  }

  lemma HaltedInside(e: Entry, events: seq<JobEvent>)
    ensures forall i: nat :: HaltedSince(e, events, i) ==> i < |events|
  {
  }

  lemma HaltedNow(e: Entry, events: seq<JobEvent>)
    requires events != []
    ensures HaltedSince(e, events, |events| - 1) <==>
            Pauses(|e.states|, events[|events| - 1]) && AllStopped(JobRun(e, events))
    ensures !(Pauses(|e.states|, events[|events| - 1]) && Resumes(|e.states|, events[|events| - 1]))
  {
    assert events[..|events|] == events;
  }

  /** With one member stopped and the other ending afterwards no member runs, but the
      job does not count as stopped. */
  lemma EndLeavesRunning(pgid: int, pid: int, id: nat, sequence: nat)
    ensures var d := JobRun(NewEntry(pgid, pid, [11, 12], 2, false, id, sequence),
                            [MemberReport(0, Stopped(19)), MemberReport(1, Exited(0))]);
      AllStopped(d) && d.state == JOB_RUNNING
  {
    hide Record, Result;
    var e := NewEntry(pgid, pid, [11, 12], 2, false, id, sequence);
    var events := [MemberReport(0, Stopped(19)), MemberReport(1, Exited(0))];
    assert events[..1] == [MemberReport(0, Stopped(19))] && events[..1][..0] == [];
    assert JobRun(e, events[..1]) == Report(e, 0, Stopped(19));
  }
}
