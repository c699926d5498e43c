/** The managed REPL's scheduler: sixteen cells, barriers, fences, status
    dependencies, a job limit and one slot kept for control commands. */
module Scheduler {
  import opened Bytes
  import opened Waiting

  const CELL_CAP: nat := 16
  const JOB_CAP: nat := 8

  datatype CellState = UNUSED | QUEUED | STARTING | RUNNING | STOPPED | DONE | FAILED | CANCELLED | REJECTED

  /** The scheduling fields of one cell.  `pty` is negative when closed. */
  datatype Cell = Cell(
    occupied: bool, barrier: bool, blocks: bool, dependency: bool, control: bool, ai: bool,
    pending: bool, closed: bool, id: nat, state: CellState, pid: int, pty: int, status: WaitStatus)

  const EMPTY_CELL := Cell(false, false, false, false, false, false, false, false, 0, UNUSED, 0, -1, Exited(0))

  type Cells = seq<Cell>

  predicate Terminal(c: Cell) {
    c.occupied && c.state in {DONE, FAILED, CANCELLED, REJECTED}
  }

  predicate Live(c: Cell) {
    c.occupied && c.state in {STARTING, RUNNING, STOPPED}
  }

  /** A slot a new command may take. */
  predicate Free(c: Cell) {
    !c.occupied || (Terminal(c) && c.closed && !c.pending)
  }

  // ----- counting over the cells -----

  function FreeCount(cells: Cells): nat {
    if cells == [] then 0
    else FreeCount(cells[..|cells| - 1]) + (if Free(cells[|cells| - 1]) then 1 else 0)
  }

  predicate IsJob(c: Cell) {
    c.occupied && c.pid > 0 && !Terminal(c)
  }

  /** `gsh_async_repl_job_count`. */
  function JobCount(cells: Cells): nat {
    if cells == [] then 0
    else JobCount(cells[..|cells| - 1]) + (if IsJob(cells[|cells| - 1]) then 1 else 0)
  }

  function OrdinaryJobs(cells: Cells): nat {
    if cells == [] then 0
    else OrdinaryJobs(cells[..|cells| - 1]) + (if IsJob(cells[|cells| - 1]) && !cells[|cells| - 1].control then 1 else 0)
  }

  lemma {:induction false} CountsUpdate(cells: Cells, k: nat, c: Cell)
    requires k < |cells|
    ensures FreeCount(cells[k := c]) == FreeCount(cells) - (if Free(cells[k]) then 1 else 0) + (if Free(c) then 1 else 0)
    ensures OrdinaryJobs(cells[k := c]) == OrdinaryJobs(cells)
      - (if IsJob(cells[k]) && !cells[k].control then 1 else 0) + (if IsJob(c) && !c.control then 1 else 0)
  {
    var last := |cells| - 1;
    if k == last {
      assert cells[k := c][..last] == cells[..last];
    } else {
      assert cells[k := c][..last] == cells[..last][k := c];
      CountsUpdate(cells[..last], k, c);
    }
  }

  lemma {:induction false} OrdinaryBelowAll(cells: Cells)
    ensures OrdinaryJobs(cells) <= JobCount(cells)
    ensures (forall k :: 0 <= k < |cells| && IsJob(cells[k]) ==> !cells[k].control) ==> OrdinaryJobs(cells) == JobCount(cells)
    ensures (forall k :: 0 <= k < |cells| ==> !IsJob(cells[k])) ==> JobCount(cells) == 0
  {
    if cells != [] {
      OrdinaryBelowAll(cells[..|cells| - 1]);
      assert forall k :: 0 <= k < |cells| - 1 ==> cells[..|cells| - 1][k] == cells[k];
    }
  }

  lemma {:induction false} SomeFree(cells: Cells)
    ensures FreeCount(cells) > 0 <==> exists k :: 0 <= k < |cells| && Free(cells[k])
  {
    if cells != [] {
      var front := cells[..|cells| - 1];
      SomeFree(front);
      if k :| 0 <= k < |front| && Free(front[k]) {
        assert Free(cells[k]);
      }
      if k :| 0 <= k < |cells| && Free(cells[k]) {
        assert k < |front| ==> Free(front[k]);
      }
    }
  }

  // ----- choosing a slot -----

  /** The first unoccupied slot, if any. */
  function Unused(cells: Cells, n: nat): (r: Option<nat>)
    requires n <= |cells|
    ensures r.Some? ==> r.value < n && !cells[r.value].occupied
    ensures r.None? ==> forall k :: 0 <= k < n ==> cells[k].occupied
  {
    if n == 0 then None
    else
      var before := Unused(cells, n - 1);
      if before.Some? then before else if !cells[n - 1].occupied then Some(n - 1) else None
  }

  /** The settled cell with the smallest id. */
  function Oldest(cells: Cells, n: nat): (r: Option<nat>)
    requires n <= |cells|
    ensures r.Some? ==> r.value < n && cells[r.value].occupied && Free(cells[r.value])
    ensures r.Some? ==> forall k :: 0 <= k < n && cells[k].occupied && Free(cells[k]) ==> cells[r.value].id <= cells[k].id
    ensures r.None? ==> forall k :: 0 <= k < n && cells[k].occupied ==> !Free(cells[k])
  {
    if n == 0 then None
    else
      var before := Oldest(cells, n - 1);
      if cells[n - 1].occupied && Free(cells[n - 1]) && (before.None? || cells[n - 1].id < cells[before.value].id)
      then Some(n - 1) else before
  }

  /** `oldest_reusable_cell`: an ordinary command needs two free slots so that
      one is left for a control command. */
  function Reusable(cells: Cells, control: bool): (r: Option<nat>)
    ensures r.Some? ==> r.value < |cells| && Free(cells[r.value])
    ensures r.Some? <==> FreeCount(cells) >= if control then 1 else 2
  {
    SomeFree(cells);
    if FreeCount(cells) < (if control then 1 else 2) then None
    else if Unused(cells, |cells|).Some? then Unused(cells, |cells|)
    else Oldest(cells, |cells|)
  }

  // ----- choosing a command to dispatch -----

  /** `p` is the newest non-AI cell older than `id`. */
  predicate IsPrevious(cells: Cells, id: nat, p: nat) {
    && p < |cells| && cells[p].occupied && !cells[p].ai && cells[p].id < id
    && forall k :: 0 <= k < |cells| && cells[k].occupied && !cells[k].ai && cells[k].id < id ==> cells[k].id <= cells[p].id
  }

  predicate DependencyReady(cells: Cells, i: nat)
    requires i < |cells|
  {
    cells[i].dependency ==> forall p :: 0 <= p < |cells| && IsPrevious(cells, cells[i].id, p) ==> Terminal(cells[p])
  }

  predicate EarlierBlocker(cells: Cells, id: nat) {
    exists k :: 0 <= k < |cells| && cells[k].occupied && cells[k].id < id && cells[k].blocks && !Terminal(cells[k])
  }

  predicate EarlierUnsettled(cells: Cells, id: nat) {
    exists k :: 0 <= k < |cells| && cells[k].occupied && !cells[k].ai && cells[k].id < id && !Terminal(cells[k])
  }

  predicate AiLaneBusy(cells: Cells) {
    exists k :: 0 <= k < |cells| && cells[k].occupied && cells[k].ai && cells[k].pid > 0
  }

  /** The conditions under which `next` may select cell `i`. */
  predicate Dispatchable(cells: Cells, i: nat, laneBusy: bool)
    requires i < |cells|
  {
    var c := cells[i];
    && c.occupied && c.state == QUEUED
    && (c.ai ==> !AiLaneBusy(cells))
    && (c.control ||
      (JobCount(cells) < JOB_CAP && DependencyReady(cells, i) && !EarlierBlocker(cells, c.id) &&
       (c.barrier ==> !laneBusy && !EarlierUnsettled(cells, c.id))))
  }

  /** `gsh_async_repl_next`: the dispatchable cell with the smallest id. */
  function Next(cells: Cells, laneBusy: bool, n: nat): (r: Option<nat>)
    requires n <= |cells|
    ensures r.Some? ==> r.value < n && Dispatchable(cells, r.value, laneBusy)
    ensures r.Some? ==> forall k :: 0 <= k < n && Dispatchable(cells, k, laneBusy) ==> cells[r.value].id <= cells[k].id
    ensures r.None? ==> forall k :: 0 <= k < n ==> !Dispatchable(cells, k, laneBusy)
  {
    if n == 0 then None
    else
      var before := Next(cells, laneBusy, n - 1);
      if Dispatchable(cells, n - 1, laneBusy) && (before.None? || cells[n - 1].id < cells[before.value].id)
      then Some(n - 1) else before
  }

  // ----- the state machine -----

  datatype Repl = Repl(cells: Cells, nextId: nat)

  /** What becomes of a selected command: a running process, or a failure before
      or without one. */
  datatype Launch = Attach(pid: int, pty: int) | Finish(status: WaitStatus, launched: bool)

  /** `fits` says whether the texts of a command fit the cell's buffers. */
  datatype Event =
    | Accept(barrier: bool, blocks: bool, dependency: bool, control: bool, ai: bool, pending: bool, fits: bool)
    | Dispatch(laneBusy: bool, launch: Launch)
    | Settle(cell: nat, status: WaitStatus, launched: bool)
    | Reap(pid: int, status: WaitStatus)
    | CloseOutput(cell: nat)
    | Receipt(cell: nat)
    | CancelAi
    | MarkStopped(cell: nat)
    | MarkRunning(cell: nat)

  function Accepted(e: Event, id: nat): Cell
    requires e.Accept?
  {
    Cell(true, e.barrier, e.blocks, e.dependency, e.control, e.ai, e.pending, false, id, QUEUED, 0, -1, Exited(0))
  }

  function Finished(c: Cell, status: WaitStatus, launched: bool): Cell {
    c.(status := status, state := if launched && status.Success() then DONE else FAILED, closed := c.pty < 0)
  }

  function Attached(c: Cell, pid: int, pty: int): Cell {
    c.(pid := pid, pty := pty, state := RUNNING)
  }

  function Launched(c: Cell, launch: Launch): Cell {
    match launch
    case Attach(pid, pty) => Attached(c, pid, pty)
    case Finish(status, launched) => Finished(c, status, launched)
  }

  function Reaped(c: Cell, status: WaitStatus): Cell {
    c.(status := status, pid := 0, closed := c.pty < 0,
       state := if c.state == CANCELLED then CANCELLED else if status.Success() then DONE else FAILED)
  }

  predicate PidInUse(cells: Cells, pid: int) {
    exists k :: 0 <= k < |cells| && cells[k].occupied && cells[k].pid == pid
  }

  /** The first cell that owns the process. */
  function CellForPid(cells: Cells, pid: int, from: nat): (r: Option<nat>)
    requires from <= |cells|
    ensures r.Some? ==> from <= r.value < |cells| && cells[r.value].occupied && cells[r.value].pid == pid > 0
    ensures r.None? && pid > 0 ==> forall k :: from <= k < |cells| && cells[k].occupied ==> cells[k].pid != pid
    decreases |cells| - from
  {
    if pid <= 0 || from == |cells| then None
    else if cells[from].occupied && cells[from].pid == pid then Some(from)
    else CellForPid(cells, pid, from + 1)
  }

  /** The AI cell `cancel_active_ai` stops. */
  function ActiveAi(cells: Cells, from: nat): (r: Option<nat>)
    requires from <= |cells|
    ensures r.Some? ==> from <= r.value < |cells| && cells[r.value].occupied && cells[r.value].ai
    ensures r.Some? ==> cells[r.value].pid > 0 && cells[r.value].state in {RUNNING, STOPPED}
    decreases |cells| - from
  {
    if from == |cells| then None
    else if cells[from].occupied && cells[from].ai && cells[from].pid > 0 && cells[from].state in {RUNNING, STOPPED}
    then Some(from)
    else ActiveAi(cells, from + 1)
  }

  /** The cell an event other than acceptance and dispatch changes, and its new value. */
  function Change(r: Repl, e: Event): (change: Option<(nat, Cell)>)
    requires |r.cells| == CELL_CAP && !e.Accept? && !e.Dispatch?
    ensures change.Some? ==> change.value.0 < CELL_CAP
  {
    match e
    case Settle(i, status, launched) =>
      if i < CELL_CAP && r.cells[i].occupied && !Terminal(r.cells[i])
      then Some((i, Finished(r.cells[i], status, launched))) else None
    case Reap(pid, status) =>
      var i := CellForPid(r.cells, pid, 0);
      if i.Some? then Some((i.value, Reaped(r.cells[i.value], status))) else None
    case CloseOutput(i) =>
      if i < CELL_CAP && r.cells[i].occupied && r.cells[i].pty >= 0
      then Some((i, r.cells[i].(pty := -1, closed := true))) else None
    case Receipt(i) => if i < CELL_CAP then Some((i, r.cells[i].(pending := false))) else None
    case CancelAi =>
      var i := ActiveAi(r.cells, 0);
      if i.Some? then Some((i.value, r.cells[i.value].(state := CANCELLED))) else None
    case MarkStopped(i) =>
      if i < CELL_CAP && Live(r.cells[i]) then Some((i, r.cells[i].(state := STOPPED))) else None
    case MarkRunning(i) =>
      if i < CELL_CAP && Live(r.cells[i]) then Some((i, r.cells[i].(state := RUNNING))) else None
  }

  /** One call of the scheduler.  Dispatching is one step: select, start, and
      attach or finish.  A process id is attached only while no cell owns it;
      output is closed only through an open descriptor; stop and continue
      reports concern live cells. */
  function Step(r: Repl, e: Event): Repl
    requires |r.cells| == CELL_CAP
  {
    match e
    case Accept(_, _, _, control, _, _, fits) =>
      var slot := Reusable(r.cells, control);
      if slot.None? then r
      else if !fits then r.(cells := r.cells[slot.value := EMPTY_CELL])
      else Repl(r.cells[slot.value := Accepted(e, r.nextId)], r.nextId + 1)
    case Dispatch(laneBusy, launch) =>
      var i := Next(r.cells, laneBusy, |r.cells|);
      if i.None? then r
      else if launch.Attach? && (launch.pid <= 0 || launch.pty < 0 || PidInUse(r.cells, launch.pid)) then r
      else r.(cells := r.cells[i.value := Launched(r.cells[i.value], launch)])
    case _ =>
      match Change(r, e)
      case None => r
      case Some((k, c)) => r.(cells := r.cells[k := c])
  }

  function Run(r: Repl, events: seq<Event>): (s: Repl)
    requires |r.cells| == CELL_CAP
    ensures |s.cells| == CELL_CAP
    decreases |events|
  {
    if events == [] then r else Step(Run(r, events[..|events| - 1]), events[|events| - 1])
  }

  const START := Repl(seq(CELL_CAP, _ => EMPTY_CELL), 1)

  // ----- what every reachable state satisfies -----

  predicate CellOk(c: Cell, nextId: nat) {
    && (c.occupied ==> 0 < c.id < nextId && c.state != UNUSED && c.state != STARTING)
    && (c.state == QUEUED ==> c.pid <= 0 && c.pty < 0 && !c.closed)
    && (Live(c) ==> c.pid > 0)
    && (c.closed ==> c.pty < 0)
  }

  /** A running command's order with the commands accepted before it. */
  predicate Ordered(cells: Cells, i: nat)
    requires i < |cells|
  {
    var c := cells[i];
    Live(c) && !c.control ==>
      && !EarlierBlocker(cells, c.id)
      && (c.barrier ==> !EarlierUnsettled(cells, c.id))
  }

  predicate SamePid(a: Cell, b: Cell) {
    a.occupied && b.occupied && a.pid > 0 && a.pid == b.pid
  }

  predicate BothAi(a: Cell, b: Cell) {
    a.occupied && b.occupied && a.ai && b.ai && a.pid > 0 && b.pid > 0
  }

  ghost predicate Unique(cells: Cells) {
    && (forall i, j :: 0 <= i < j < |cells| && cells[i].occupied && cells[j].occupied ==> cells[i].id != cells[j].id)
    && (forall i, j :: 0 <= i < j < |cells| ==> !SamePid(cells[i], cells[j]))
    && (forall i, j :: 0 <= i < j < |cells| ==> !BothAi(cells[i], cells[j]))
  }

  /** A slot is free, or a control command is still unsettled. */
  predicate ControlHasRoom(cells: Cells) {
    FreeCount(cells) >= 1 || exists k :: 0 <= k < |cells| && cells[k].control && !Free(cells[k])
  }

  ghost predicate Inv(r: Repl) {
    && |r.cells| == CELL_CAP && r.nextId > 0
    && (forall i :: 0 <= i < CELL_CAP ==> CellOk(r.cells[i], r.nextId) && Ordered(r.cells, i))
    && Unique(r.cells)
    && OrdinaryJobs(r.cells) <= JOB_CAP
    && ControlHasRoom(r.cells)
  }

  // ----- the invariant is inductive -----

  lemma StartInv()
    ensures Inv(START)
  {
    SomeFree(START.cells);
    assert Free(START.cells[0]);
    OrdinaryBelowAll(START.cells);
  }

  /** Replacing cell `k` by `c` brings no new unsettled command before `id`. */
  lemma NoNewWait(cells: Cells, k: nat, c: Cell, id: nat)
    requires k < |cells|
    requires c.occupied && c.id < id && !Terminal(c) ==>
      cells[k].occupied && cells[k].id == c.id && cells[k].blocks == c.blocks && cells[k].ai == c.ai && !Terminal(cells[k])
    ensures EarlierBlocker(cells[k := c], id) ==> EarlierBlocker(cells, id)
    ensures EarlierUnsettled(cells[k := c], id) ==> EarlierUnsettled(cells, id)
  {
  }

  /** A cell that moves towards its end: same command, never less settled, no
      new process. */
  predicate Advances(c: Cell, d: Cell) {
    && d.occupied == c.occupied && d.id == c.id && d.barrier == c.barrier && d.blocks == c.blocks
    && d.control == c.control && d.ai == c.ai
    && (Terminal(c) ==> Terminal(d)) && (Live(d) ==> Live(c)) && (Free(c) ==> Free(d))
    && (d.pid == c.pid || d.pid <= 0)
  }

  lemma AdvanceKeepsInv(r: Repl, k: nat, d: Cell)
    requires Inv(r) && k < CELL_CAP && Advances(r.cells[k], d) && CellOk(d, r.nextId)
    ensures Inv(r.(cells := r.cells[k := d]))
  {
    hide EarlierBlocker, EarlierUnsettled, FreeCount, OrdinaryJobs;
    var cells, c := r.cells[k := d], r.cells[k];
    CountsUpdate(r.cells, k, d);
    forall i | 0 <= i < CELL_CAP ensures Ordered(cells, i) {
      assert Ordered(r.cells, i);
      NoNewWait(r.cells, k, d, r.cells[i].id);
    }
    AdvanceKeepsUnique(r.cells, k, d);
    hide Unique;
    if FreeCount(cells) == 0 {
      var j :| 0 <= j < |r.cells| && r.cells[j].control && !Free(r.cells[j]);
      assert cells[j].control && !Free(cells[j]);
    }
  }

  lemma AdvanceKeepsUnique(cells: Cells, k: nat, d: Cell)
    requires Unique(cells) && k < |cells| && Advances(cells[k], d)
    ensures Unique(cells[k := d])
  {
    var after := cells[k := d];
    forall i, j | 0 <= i < j < |after| ensures !SamePid(after[i], after[j]) && !BothAi(after[i], after[j]) {
      assert !SamePid(cells[i], cells[j]) && !BothAi(cells[i], cells[j]);
    }
  }

  lemma AttachKeepsInv(r: Repl, k: nat, laneBusy: bool, pid: int, pty: int)
    requires Inv(r) && k < CELL_CAP && Dispatchable(r.cells, k, laneBusy)
    requires pid > 0 && pty >= 0 && !PidInUse(r.cells, pid)
    ensures Inv(r.(cells := r.cells[k := Attached(r.cells[k], pid, pty)]))
  {
    hide EarlierBlocker, EarlierUnsettled, FreeCount, OrdinaryJobs, JobCount;
    var c, d := r.cells[k], Attached(r.cells[k], pid, pty);
    var cells := r.cells[k := d];
    CountsUpdate(r.cells, k, d);
    OrdinaryBelowAll(r.cells);
    forall i | 0 <= i < CELL_CAP ensures Ordered(cells, i) {
      assert Ordered(r.cells, i);
      NoNewWait(r.cells, k, d, r.cells[i].id);
    }
    forall i, j | 0 <= i < j < |cells| ensures !SamePid(cells[i], cells[j]) && !BothAi(cells[i], cells[j]) {
      assert !SamePid(r.cells[i], r.cells[j]) && !BothAi(r.cells[i], r.cells[j]);
    }
    if FreeCount(cells) == 0 {
      var j :| 0 <= j < |r.cells| && r.cells[j].control && !Free(r.cells[j]);
      assert cells[j].control && !Free(cells[j]);
    }
  }

  lemma AcceptKeepsInv(r: Repl, k: nat, c: Cell, nextId: nat)
    requires Inv(r) && k < CELL_CAP && Free(r.cells[k]) && r.nextId <= nextId
    requires CellOk(c, nextId) && (c.occupied ==> c.state == QUEUED && c.id == r.nextId)
    requires c.occupied && !c.control ==> FreeCount(r.cells) >= 2
    ensures Inv(Repl(r.cells[k := c], nextId))
  {
    hide EarlierBlocker, EarlierUnsettled, FreeCount, OrdinaryJobs;
    var cells := r.cells[k := c];
    CountsUpdate(r.cells, k, c);
    forall i | 0 <= i < CELL_CAP ensures CellOk(cells[i], nextId) && Ordered(cells, i) {
      assert CellOk(r.cells[i], r.nextId) && Ordered(r.cells, i);
      if r.cells[i].occupied {
        NoNewWait(r.cells, k, c, r.cells[i].id);
      }
    }
    AcceptKeepsUnique(r, k, c, nextId);
    hide Unique;
    SomeFree(cells);
    if FreeCount(cells) == 0 {
      assert !Free(cells[k]);
    }
  }

  lemma AcceptKeepsUnique(r: Repl, k: nat, c: Cell, nextId: nat)
    requires Unique(r.cells) && k < |r.cells|
    requires forall i :: 0 <= i < |r.cells| ==> CellOk(r.cells[i], r.nextId)
    requires c.occupied ==> c.pid <= 0 && c.id == r.nextId
    ensures Unique(r.cells[k := c])
  {
    var cells := r.cells[k := c];
    forall i, j | 0 <= i < j < |cells|
      ensures !SamePid(cells[i], cells[j]) && !BothAi(cells[i], cells[j])
      ensures cells[i].occupied && cells[j].occupied ==> cells[i].id != cells[j].id
    {
      assert CellOk(r.cells[i], r.nextId) && CellOk(r.cells[j], r.nextId);
      if i != k && j != k {
        assert !SamePid(r.cells[i], r.cells[j]) && !BothAi(r.cells[i], r.cells[j]);
      }
    }
  }

  lemma AcceptStep(r: Repl, e: Event)
    requires Inv(r) && e.Accept?
    ensures Inv(Step(r, e))
  {
    hide FreeCount, Reusable, Unique, ControlHasRoom, Ordered, OrdinaryJobs;
    var slot := Reusable(r.cells, e.control);
    if slot.Some? {
      if e.fits {
        AcceptKeepsInv(r, slot.value, Accepted(e, r.nextId), r.nextId + 1);
      } else {
        AcceptKeepsInv(r, slot.value, EMPTY_CELL, r.nextId);
      }
    }
  }

  lemma DispatchStep(r: Repl, e: Event)
    requires Inv(r) && e.Dispatch?
    ensures Inv(Step(r, e))
  {
    hide FreeCount, Next, Unique, ControlHasRoom, Ordered, OrdinaryJobs, PidInUse;
    var i := Next(r.cells, e.laneBusy, |r.cells|);
    if i.Some? {
      var c := r.cells[i.value];
      assert CellOk(c, r.nextId);
      if e.launch.Finish? {
        AdvanceKeepsInv(r, i.value, Finished(c, e.launch.status, e.launch.launched));
      } else if e.launch.pid > 0 && e.launch.pty >= 0 && !PidInUse(r.cells, e.launch.pid) {
        AttachKeepsInv(r, i.value, e.laneBusy, e.launch.pid, e.launch.pty);
      }
    }
  }

  lemma ChangeAdvances(r: Repl, e: Event)
    requires Inv(r) && !e.Accept? && !e.Dispatch? && Change(r, e).Some?
    ensures var (k, d) := Change(r, e).value;
            k < CELL_CAP && Advances(r.cells[k], d) && CellOk(d, r.nextId)
  {
    hide FreeCount, Unique, ControlHasRoom, Ordered, OrdinaryJobs, CellForPid, ActiveAi;
    assert CellOk(r.cells[Change(r, e).value.0], r.nextId);
  }

  lemma StepKeepsInv(r: Repl, e: Event)
    requires Inv(r)
    ensures Inv(Step(r, e))
  {
    if e.Accept? {
      AcceptStep(r, e);
    } else if e.Dispatch? {
      DispatchStep(r, e);
    } else {
      if Change(r, e).Some? {
        ChangeAdvances(r, e);
        hide Inv, Advances, CellOk, Change;
        AdvanceKeepsInv(r, Change(r, e).value.0, Change(r, e).value.1);
      }
    }
  }

  /** Every run from the initial state satisfies the invariant. */
  lemma {:induction false} RunInv(events: seq<Event>)
    ensures Inv(Run(START, events))
    decreases |events|
  {
    hide Inv, Step;
    if events == [] {
      StartInv();
    } else {
      RunInv(events[..|events| - 1]);
      StepKeepsInv(Run(START, events[..|events| - 1]), events[|events| - 1]);
    }
  }

  // ----- what the invariant says to a user -----

  /** A command keeps its slot, and a settled one stays settled, until it has settled, its
      output is closed and no receipt is pending; then an acceptance may take the slot. */
  lemma SettledStays(r: Repl, e: Event, i: nat)
    requires Inv(r) && i < CELL_CAP && r.cells[i].occupied
    ensures var c, d := r.cells[i], Step(r, e).cells[i];
      if d.occupied && d.id == c.id then Terminal(c) ==> Terminal(d)
      else
        && e.Accept? && Terminal(c) && c.closed && c.pty < 0 && !c.pending
        && (d.occupied ==> d.id == r.nextId)
  {
    hide FreeCount, Unique, ControlHasRoom, Ordered, OrdinaryJobs, Next, Reusable, PidInUse, Change;
    assert CellOk(r.cells[i], r.nextId);
    if !e.Accept? && !e.Dispatch? && Change(r, e).Some? {
      ChangeAdvances(r, e);
    }
  }

  /** No deadlock: when nothing runs, no AI process is left and the state lane
      is free, a queue with a command has a dispatchable one. */
  lemma NoDeadlock(r: Repl, queued: nat)
    requires Inv(r) && queued < CELL_CAP && r.cells[queued].state == QUEUED && r.cells[queued].occupied
    requires forall i :: 0 <= i < CELL_CAP ==> !Live(r.cells[i])
    requires !AiLaneBusy(r.cells)
    ensures Next(r.cells, false, CELL_CAP).Some?
  {
    hide Next, JobCount, FreeCount, OrdinaryJobs, ControlHasRoom, Unique, AiLaneBusy;
    var first := OldestQueued(r.cells, queued);
    OrdinaryBelowAll(r.cells);
    forall k | 0 <= k < CELL_CAP
      ensures !IsJob(r.cells[k])
      ensures r.cells[k].occupied && r.cells[k].id < r.cells[first].id ==> Terminal(r.cells[k])
    {
      assert CellOk(r.cells[k], r.nextId);
    }
    assert Dispatchable(r.cells, first, false);
  }

  lemma {:induction false} OldestQueued(cells: Cells, k: nat) returns (first: nat)
    requires k < |cells| && cells[k].occupied && cells[k].state == QUEUED
    ensures first < |cells| && cells[first].occupied && cells[first].state == QUEUED
    ensures forall j :: 0 <= j < |cells| && cells[j].occupied && cells[j].state == QUEUED ==> cells[first].id <= cells[j].id
    decreases cells[k].id
  {
    if j :| 0 <= j < |cells| && cells[j].occupied && cells[j].state == QUEUED && cells[j].id < cells[k].id {
      first := OldestQueued(cells, j);
    } else {
      first := k;
    }
  }

  /** A control command is accepted whenever no other one is unsettled. */
  lemma ControlIsNeverRefused(r: Repl)
    requires Inv(r)
    requires forall k :: 0 <= k < CELL_CAP && r.cells[k].control ==> Free(r.cells[k])
    ensures Reusable(r.cells, true).Some?
  {
  }

  // ----- the imperative scheduler -----

  class ManagedRepl {
    const cells: array<Cell>
    var nextId: nat

    ghost predicate Valid()
      reads this, cells
    {
      cells.Length == CELL_CAP && Inv(View())
    }

    ghost function View(): Repl
      reads this, cells
    {
      Repl(cells[..], nextId)
    }

    constructor ()
      ensures Valid() && View() == START && fresh(cells)
    {
      cells := new Cell[CELL_CAP](_ => EMPTY_CELL);
      nextId := 1;
      new;
      StartInv();
      assert cells[..] == START.cells;
    }

    /** `oldest_reusable_cell`. */
    method OldestReusable(control: bool) returns (slot: Option<nat>)
      requires cells.Length == CELL_CAP
      ensures slot == Reusable(cells[..], control)
    {
      hide FreeCount, Unused, Oldest, Free, Terminal;
      CountNone();
      var available := 0;
      var reusable: Option<nat>, unused: Option<nat> := None, None;
      ghost var all := cells[..];
      assert all[..0] == [];
      for index := 0 to CELL_CAP
        invariant available == FreeCount(all[..index])
        invariant unused == Unused(all, index) && reusable == Oldest(all, index)
      {
        CountNext(all, index);
        var cell := cells[index];
        assert cell == all[index];
        if !cell.occupied {
          available := available + 1;
          if unused.None? {
            unused := Some(index);
          }
        }
        if Terminal(cell) && cell.closed && !cell.pending {
          available := available + 1;
          if reusable.None? || cell.id < cells[reusable.value].id {
            reusable := Some(index);
          }
        }
      }
      assert all[..CELL_CAP] == all;
      if available < (if control then 1 else 2) {
        return None;
      }
      return if unused.Some? then unused else reusable;
    }

    /** `gsh_async_repl_accept` and its AI variant: the slot is reset before the
        texts are copied, so a text that does not fit leaves it empty. */
    method AcceptCommand(e: Event) returns (slot: Option<nat>)
      requires Valid() && e.Accept?
      modifies this, cells
      ensures Valid() && View() == Step(old(View()), e)
      ensures slot == if e.fits then Reusable(old(cells[..]), e.control) else None
    {
      hide Inv, Reusable;
      StepKeepsInv(View(), e);
      ghost var before := View();
      slot := OldestReusable(e.control);
      if slot.None? {
        return;
      }
      cells[slot.value] := EMPTY_CELL;
      if !e.fits {
        return None;
      }
      assert cells[..] == before.cells[slot.value := EMPTY_CELL];
      cells[slot.value] := Accepted(e, nextId);
      nextId := nextId + 1;
      assert cells[..] == before.cells[slot.value := Accepted(e, before.nextId)];
    }

    /** `gsh_async_repl_job_count`. */
    method CountJobs() returns (count: nat)
      requires cells.Length == CELL_CAP
      ensures count == JobCount(cells[..])
    {
      hide JobCount, IsJob;
      CountNone();
      count := 0;
      ghost var all := cells[..];
      assert all[..0] == [];
      for index := 0 to CELL_CAP
        invariant count == JobCount(all[..index])
      {
        CountNext(all, index);
        assert cells[index] == all[index];
        if IsJob(cells[index]) {
          count := count + 1;
        }
      }
      assert all[..CELL_CAP] == all;
    }

    /** `previous_cell`: the newest non-AI cell older than `id`. */
    method Previous(id: nat) returns (selected: Option<nat>)
      requires Valid()
      ensures selected.Some? ==> IsPrevious(cells[..], id, selected.value)
      ensures selected.None? ==> forall p :: 0 <= p < CELL_CAP ==> !IsPrevious(cells[..], id, p)
    {
      hide Ordered, OrdinaryJobs, ControlHasRoom, Unique, CellOk, Inv;
      var previous := 0;
      selected := None;
      for index := 0 to CELL_CAP
        invariant selected.Some? ==> selected.value < index && cells[selected.value].id == previous > 0
        invariant selected.Some? ==>
          cells[selected.value].occupied && !cells[selected.value].ai && cells[selected.value].id < id
        invariant selected.None? ==> previous == 0
        invariant forall k :: 0 <= k < index && cells[k].occupied && !cells[k].ai && cells[k].id < id ==> cells[k].id <= previous
      {
        var cell := cells[index];
        if cell.occupied && !cell.ai && cell.id < id && cell.id > previous {
          previous, selected := cell.id, Some(index);
        }
      }
      ghost var all := cells[..];
      assert forall k :: 0 <= k < CELL_CAP ==> cells[k] == all[k];
      if selected.None? {
        forall p | 0 <= p < CELL_CAP ensures !IsPrevious(all, id, p) {
          IdsArePositive(View(), p);
        }
      }
    }

    /** `cell_dependency_ready`. */
    method Ready(index: nat) returns (b: bool)
      requires Valid() && index < CELL_CAP
      ensures b <==> DependencyReady(cells[..], index)
    {
      if !cells[index].dependency {
        return true;
      }
      var previous := Previous(cells[index].id);
      if previous.Some? {
        OnePrevious(View(), cells[index].id, previous.value);
      }
      hide Inv, IsPrevious, Terminal;
      return previous.None? || Terminal(cells[previous.value]);
    }

    /** `earlier_blocker_unsettled`. */
    method BlockerUnsettled(id: nat) returns (b: bool)
      requires cells.Length == CELL_CAP
      ensures b <==> EarlierBlocker(cells[..], id)
    {
      ghost var all := cells[..];
      for index := 0 to CELL_CAP
        invariant forall k :: 0 <= k < index ==> !(all[k].occupied && all[k].id < id && all[k].blocks && !Terminal(all[k]))
      {
        assert cells[index] == all[index];
        if cells[index].occupied && cells[index].id < id && cells[index].blocks && !Terminal(cells[index]) {
          return true;
        }
      }
      return false;
    }

    /** `earlier_cell_unsettled`. */
    method CellUnsettled(id: nat) returns (b: bool)
      requires cells.Length == CELL_CAP
      ensures b <==> EarlierUnsettled(cells[..], id)
    {
      ghost var all := cells[..];
      for index := 0 to CELL_CAP
        invariant forall k :: 0 <= k < index ==> !(all[k].occupied && !all[k].ai && all[k].id < id && !Terminal(all[k]))
      {
        assert cells[index] == all[index];
        if cells[index].occupied && !cells[index].ai && cells[index].id < id && !Terminal(cells[index]) {
          return true;
        }
      }
      return false;
    }

    /** `ai_lane_busy`. */
    method LaneBusy() returns (b: bool)
      requires cells.Length == CELL_CAP
      ensures b <==> AiLaneBusy(cells[..])
    {
      ghost var all := cells[..];
      for index := 0 to CELL_CAP
        invariant forall k :: 0 <= k < index ==> !(all[k].occupied && all[k].ai && all[k].pid > 0)
      {
        assert cells[index] == all[index];
        if cells[index].occupied && cells[index].ai && cells[index].pid > 0 {
          return true;
        }
      }
      return false;
    }

    /** The condition of `next` on one cell. */
    method MayDispatch(index: nat, laneBusy: bool) returns (b: bool)
      requires Valid() && index < CELL_CAP
      ensures b <==> Dispatchable(cells[..], index, laneBusy)
    {
      hide Inv, JobCount, DependencyReady, EarlierBlocker, EarlierUnsettled, AiLaneBusy;
      var cell := cells[index];
      if !cell.occupied || cell.state != QUEUED {
        return false;
      }
      if cell.ai {
        var busy := LaneBusy();
        if busy {
          return false;
        }
      }
      if cell.control {
        return true;
      }
      var jobs := CountJobs();
      var ready := Ready(index);
      var blocked := BlockerUnsettled(cell.id);
      if jobs >= JOB_CAP || !ready || blocked {
        return false;
      }
      if cell.barrier {
        var unsettled := CellUnsettled(cell.id);
        return !laneBusy && !unsettled;
      }
      return true;
    }

    /** `gsh_async_repl_next`. */
    method NextCommand(laneBusy: bool) returns (selected: Option<nat>)
      requires Valid()
      ensures selected == Next(cells[..], laneBusy, CELL_CAP)
    {
      hide Inv, Next, Dispatchable;
      ghost var all := cells[..];
      NextNone(all, laneBusy);
      selected := None;
      for index := 0 to CELL_CAP
        invariant selected == Next(all, laneBusy, index)
      {
        NextOne(all, laneBusy, index);
        var may := MayDispatch(index, laneBusy);
        if may && (selected.None? || cells[index].id < cells[selected.value].id) {
          selected := Some(index);
        }
      }
    }

    /** `gsh_async_repl_finish`, on a cell in range. */
    method FinishCell(i: nat, status: WaitStatus, launched: bool)
      requires cells.Length == CELL_CAP && i < CELL_CAP
      modifies cells
      ensures cells[..] == if old(cells[i]).occupied && !Terminal(old(cells[i]))
                           then old(cells[..])[i := Finished(old(cells[i]), status, launched)] else old(cells[..])
    {
      if !cells[i].occupied || Terminal(cells[i]) {
        return;
      }
      var cell := cells[i];
      cells[i] := cell.(status := status, state := if launched && status.Success() then DONE else FAILED, closed := cell.pty < 0);
    }

    /** `gsh_async_repl_starting`. */
    method Starting(i: nat)
      requires cells.Length == CELL_CAP && i < CELL_CAP
      modifies cells
      ensures cells[..] == if old(cells[i]).occupied then old(cells[..])[i := old(cells[i]).(state := STARTING)] else old(cells[..])
    {
      if cells[i].occupied {
        cells[i] := cells[i].(state := STARTING);
      }
    }

    /** `gsh_async_repl_attach`; a resource descriptor of -1 stands for none. */
    method AttachProcess(i: nat, pid: int, pgid: int, pty: int, resource: int) returns (ok: bool)
      requires cells.Length == CELL_CAP && i < CELL_CAP
      modifies cells
      ensures ok <==> pid > 0 && pgid > 0 && pty >= 0 && resource >= -1
                      && old(cells[i]).occupied && old(cells[i]).state == STARTING
      ensures cells[..] == if ok then old(cells[..])[i := Attached(old(cells[i]), pid, pty)] else old(cells[..])
    {
      if pid <= 0 || pgid <= 0 || pty < 0 || resource < -1 || !cells[i].occupied || cells[i].state != STARTING {
        return false;
      }
      cells[i] := cells[i].(pid := pid, pty := pty, state := RUNNING);
      return true;
    }

    /** Start a selected command, then attach its process or finish it. */
    method Launching(i: nat, launch: Launch)
      requires cells.Length == CELL_CAP && i < CELL_CAP && cells[i].occupied
      requires launch.Attach? ==> launch.pid > 0 && launch.pty >= 0
      modifies cells
      ensures cells[..] == old(cells[..])[i := Launched(old(cells[i]), launch)]
    {
      ghost var before, c := cells[..], cells[i];
      Starting(i);
      hide Finished, Attached, Launched, Terminal;
      StartingForgotten(c, launch);
      match launch {
        case Attach(pid, pty) =>
          var ok := AttachProcess(i, pid, pid, pty, -1);
        case Finish(status, launched) =>
          FinishCell(i, status, launched);
      }
      assert cells[..] == before[i := Launched(c, launch)];
    }

    /** One dispatch: select a command and launch it. */
    method DispatchNext(laneBusy: bool, launch: Launch) returns (selected: Option<nat>)
      requires Valid()
      requires launch.Attach? ==> launch.pid > 0 && launch.pty >= 0 && !PidInUse(cells[..], launch.pid)
      modifies cells
      ensures Valid() && View() == Step(old(View()), Dispatch(laneBusy, launch))
      ensures selected == Next(old(cells[..]), laneBusy, CELL_CAP)
    {
      StepKeepsInv(View(), Dispatch(laneBusy, launch));
      hide Inv, Next, PidInUse, Change;
      selected := NextCommand(laneBusy);
      if selected.Some? {
        QueuedIsQueued(cells[..], laneBusy);
        Launching(selected.value, launch);
      }
    }

    /** `gsh_async_repl_cell_for_pid`. */
    method OwnerOf(pid: int) returns (cell: Option<nat>)
      requires cells.Length == CELL_CAP
      ensures cell == CellForPid(cells[..], pid, 0)
    {
      if pid <= 0 {
        return None;
      }
      ghost var all := cells[..];
      for index := 0 to CELL_CAP
        invariant CellForPid(all, pid, 0) == CellForPid(all, pid, index)
      {
        assert cells[index] == all[index];
        if cells[index].occupied && cells[index].pid == pid {
          return Some(index);
        }
      }
      return None;
    }

    /** `gsh_async_repl_reap`. */
    method ReapProcess(pid: int, status: WaitStatus) returns (owner: Option<nat>)
      requires Valid()
      modifies cells
      ensures Valid() && View() == Step(old(View()), Reap(pid, status))
      ensures owner == CellForPid(old(cells[..]), pid, 0)
    {
      StepKeepsInv(View(), Reap(pid, status));
      hide Inv, CellForPid, Terminal;
      ghost var all := cells[..];
      owner := OwnerOf(pid);
      if owner.None? {
        return;
      }
      var cell := cells[owner.value];
      var state := cell.state;
      if state != CANCELLED {
        state := if status.Success() then DONE else FAILED;
      }
      cells[owner.value] := cell.(status := status, pid := 0, closed := cell.pty < 0, state := state);
    }

    method FindActiveAi() returns (cell: Option<nat>)
      requires cells.Length == CELL_CAP
      ensures cell == ActiveAi(cells[..], 0)
    {
      ghost var all := cells[..];
      for index := 0 to CELL_CAP
        invariant ActiveAi(all, 0) == ActiveAi(all, index)
      {
        var cell := cells[index];
        assert cell == all[index];
        if cell.occupied && cell.ai && cell.pid > 0 && (cell.state == RUNNING || cell.state == STOPPED) {
          return Some(index);
        }
      }
      return None;
    }

    /** `gsh_async_repl_cancel_active_ai`: the process is signalled, not reaped. */
    method CancelActive() returns (cancelled: bool)
      requires Valid()
      modifies cells
      ensures Valid() && View() == Step(old(View()), CancelAi)
      ensures cancelled == ActiveAi(old(cells[..]), 0).Some?
    {
      StepKeepsInv(View(), CancelAi);
      hide Inv, ActiveAi;
      var cell := FindActiveAi();
      if cell.None? {
        return false;
      }
      cells[cell.value] := cells[cell.value].(state := CANCELLED);
      return true;
    }

    /** `gsh_async_repl_close_output`, on a cell with an open descriptor. */
    method CloseCell(i: nat)
      requires Valid() && i < CELL_CAP && cells[i].occupied && cells[i].pty >= 0
      modifies cells
      ensures Valid() && View() == Step(old(View()), CloseOutput(i))
    {
      StepKeepsInv(View(), CloseOutput(i));
      hide Inv;
      ghost var all := cells[..];
      var cell := cells[i].(pty := -1);
      cells[i] := cell.(closed := true);
      assert cells[..] == all[i := all[i].(pty := -1, closed := true)];
    }
  }

  lemma StartingForgotten(c: Cell, launch: Launch)
    requires c.occupied
    ensures var d := c.(state := STARTING);
      && d.occupied && d.state == STARTING && !Terminal(d)
      && match launch
         case Attach(pid, pty) => Attached(d, pid, pty) == Launched(c, launch)
         case Finish(status, launched) => Finished(d, status, launched) == Launched(c, launch)
  {
  }

  lemma CountNone()
    ensures FreeCount([]) == 0 && JobCount([]) == 0
    ensures forall cells: Cells :: Unused(cells, 0) == None && Oldest(cells, 0) == None
  {
  }

  lemma CountNext(cells: Cells, n: nat)
    requires n < |cells|
    ensures FreeCount(cells[..n + 1]) == FreeCount(cells[..n]) + (if Free(cells[n]) then 1 else 0)
    ensures JobCount(cells[..n + 1]) == JobCount(cells[..n]) + (if IsJob(cells[n]) then 1 else 0)
    ensures Unused(cells, n + 1) ==
      if Unused(cells, n).Some? then Unused(cells, n) else if !cells[n].occupied then Some(n) else None
    ensures Oldest(cells, n + 1) ==
      if cells[n].occupied && Free(cells[n]) && (Oldest(cells, n).None? || cells[n].id < cells[Oldest(cells, n).value].id)
      then Some(n) else Oldest(cells, n)
    ensures Free(cells[n]) <==> !cells[n].occupied || (Terminal(cells[n]) && cells[n].closed && !cells[n].pending)
    ensures Terminal(cells[n]) ==> cells[n].occupied
  {
    assert cells[..n + 1][..n] == cells[..n];
  }

  lemma NextNone(cells: Cells, laneBusy: bool)
    ensures Next(cells, laneBusy, 0) == None
  {
  }

  lemma NextOne(cells: Cells, laneBusy: bool, n: nat)
    requires n < |cells|
    ensures var before := Next(cells, laneBusy, n);
      Next(cells, laneBusy, n + 1) ==
      if Dispatchable(cells, n, laneBusy) && (before.None? || cells[n].id < cells[before.value].id) then Some(n) else before
  {
  }

  lemma QueuedIsQueued(cells: Cells, laneBusy: bool)
    requires |cells| == CELL_CAP && Next(cells, laneBusy, CELL_CAP).Some?
    ensures var c := cells[Next(cells, laneBusy, CELL_CAP).value]; c.occupied && c.state == QUEUED
  {
  }

  lemma IdsArePositive(r: Repl, k: nat)
    requires Inv(r) && k < CELL_CAP
    ensures r.cells[k].occupied ==> r.cells[k].id > 0
  {
    assert CellOk(r.cells[k], r.nextId);
  }

  lemma OnePrevious(r: Repl, id: nat, p: nat)
    requires Inv(r) && IsPrevious(r.cells, id, p)
    ensures forall q :: 0 <= q < CELL_CAP && IsPrevious(r.cells, id, q) ==> q == p
  {
  }
}
