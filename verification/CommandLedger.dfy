/** What a run of the scheduler was asked and told about each command, kept by command
    id; that the cells say the same; and what the order of commands is in these terms. */
module CommandLedger {
  import opened Bytes
  import opened Waiting
  import opened Scheduler

  type Acceptance = e: Event | e.Accept? witness Accept(false, false, false, false, false, false, true)

  /** How a command ended, and whether it had been started. */
  datatype End = End(status: WaitStatus, launched: bool)

  /** One command: how it was accepted, its process until that is reaped, its terminal until
      that is closed, whether it was last reported stopped, the last end reported, whether
      it was cancelled, and whether a receipt is pending. */
  datatype Command = Command(order: Acceptance, process: Option<int>, terminal: Option<int>, stopped: bool,
                             end: Option<End>, cancelled: bool, pending: bool)

  type Ledger = map<nat, Command>

  predicate Over(c: Command) {
    c.cancelled || c.end.Some?
  }

  predicate Working(c: Command) {
    c.process.Some? && !Over(c)
  }

  /** Nothing more is expected of the command. */
  predicate Settled(c: Command) {
    Over(c) && c.terminal.None? && !c.pending
  }

  /** The state a command should show: it is done exactly when it was not cancelled and
      the last end reported for it is a started process's exit with status 0. */
  function StateOf(c: Command): CellState {
    if c.cancelled then CANCELLED
    else if c.end.Some? then (if c.end.value == End(Exited(0), true) then DONE else FAILED)
    else if c.process.None? then QUEUED
    else if c.stopped then STOPPED else RUNNING
  }

  // ----- the ledger of a run -----

  predicate Refused(r: Repl, launch: Launch) {
    launch.Attach? && (launch.pid <= 0 || launch.pty < 0 || PidInUse(r.cells, launch.pid))
  }

  /** The cell a dispatch starts. */
  function Started(r: Repl, e: Event): (i: Option<nat>)
    requires |r.cells| == CELL_CAP
    ensures i.Some? ==> i.value < CELL_CAP
  {
    if !e.Dispatch? || Refused(r, e.launch) then None else Next(r.cells, e.laneBusy, |r.cells|)
  }

  /** The cell whose command an event is about. */
  function Slot(r: Repl, e: Event): (i: Option<nat>)
    requires |r.cells| == CELL_CAP
    ensures i.Some? ==> i.value < CELL_CAP && r.cells[i.value].occupied
  {
    match e
    case Dispatch(_, _) => Started(r, e)
    case Settle(i, _, _) => if i < CELL_CAP && r.cells[i].occupied then Some(i) else None
    case Reap(pid, _) => CellForPid(r.cells, pid, 0)
    case CancelAi => ActiveAi(r.cells, 0)
    case CloseOutput(i) => if i < CELL_CAP && r.cells[i].occupied then Some(i) else None
    case Receipt(i) => if i < CELL_CAP && r.cells[i].occupied then Some(i) else None
    case MarkStopped(i) => if i < CELL_CAP && r.cells[i].occupied then Some(i) else None
    case MarkRunning(i) => if i < CELL_CAP && r.cells[i].occupied then Some(i) else None
    case Accept(_, _, _, _, _, _, _) => None
  }

  /** What an event tells of its command. */
  function Told(c: Command, e: Event): Command {
    match e
    case Dispatch(_, Attach(pid, pty)) => c.(process := Some(pid), terminal := Some(pty), stopped := false)
    case Dispatch(_, Finish(status, launched)) => c.(end := Some(End(status, launched)))
    case Settle(_, status, launched) => if Over(c) then c else c.(end := Some(End(status, launched)))
    case Reap(_, status) => c.(process := None, end := Some(End(status, true)))
    case CloseOutput(_) => c.(terminal := None)
    case Receipt(_) => c.(pending := false)
    case CancelAi => c.(cancelled := true)
    case MarkStopped(_) => if Working(c) then c.(stopped := true) else c
    case MarkRunning(_) => if Working(c) then c.(stopped := false) else c
    case Accept(_, _, _, _, _, _, _) => c
  }

  function StepLedger(r: Repl, l: Ledger, e: Event): Ledger
    requires |r.cells| == CELL_CAP
  {
    if e.Accept? then
      if e.fits && Reusable(r.cells, e.control).Some? then l[r.nextId := Command(e, None, None, false, None, false, e.pending)] else l
    else
      var slot := Slot(r, e);
      if slot.None? || r.cells[slot.value].id !in l then l
      else l[r.cells[slot.value].id := Told(l[r.cells[slot.value].id], e)]
  }

  ghost function LedgerOf(r: Repl, events: seq<Event>): Ledger
    requires |r.cells| == CELL_CAP
    decreases |events|
  {
    if events == [] then map[]
    else StepLedger(Run(r, events[..|events| - 1]), LedgerOf(r, events[..|events| - 1]), events[|events| - 1])
  }

  /** The commands a run has dispatched, whatever became of them since. */
  ghost function Dispatched(r: Repl, events: seq<Event>): set<nat>
    requires |r.cells| == CELL_CAP
    decreases |events|
  {
    if events == [] then {}
    else Dispatched(r, events[..|events| - 1]) + StartedId(Run(r, events[..|events| - 1]), events[|events| - 1])
  }

  function StartedId(r: Repl, e: Event): set<nat>
    requires |r.cells| == CELL_CAP
  {
    if Started(r, e).Some? then {r.cells[Started(r, e).value].id} else {}
  }

  // ----- the cells agree with the ledger -----

  /** A cell shows its command as the ledger has it. */
  predicate Shows(d: Cell, c: Command) {
    && d.barrier == c.order.barrier && d.blocks == c.order.blocks && d.dependency == c.order.dependency
    && d.control == c.order.control && d.ai == c.order.ai
    && d.state == StateOf(c)
    && (if c.process.Some? then d.pid == c.process.value && d.pid > 0 else d.pid <= 0)
    && (if c.terminal.Some? then d.pty == c.terminal.value && d.pty >= 0 else d.pty < 0)
    && (d.closed <==> c.terminal.None? && d.state != QUEUED) && d.pending == c.pending
    && (c.end.Some? ==> d.status == c.end.value.status)
  }

  predicate ShownAt(r: Repl, l: Ledger, i: nat)
    requires i < |r.cells|
  {
    r.cells[i].occupied ==> r.cells[i].id in l && Shows(r.cells[i], l[r.cells[i].id])
  }

  /** The commands that hold a slot. */
  function Kept(cells: Cells): set<nat> {
    set i | 0 <= i < |cells| && cells[i].occupied :: cells[i].id
  }

  /** Every occupied cell shows its command, and a command without a cell is settled. */
  ghost predicate Agrees(r: Repl, l: Ledger) {
    && (forall id :: id in l <==> 0 < id < r.nextId)
    && (forall i :: 0 <= i < |r.cells| ==> ShownAt(r, l, i))
    && (forall id :: id in l && id !in Kept(r.cells) ==> Settled(l[id]))
  }

  lemma TerminalIsOver(d: Cell, c: Command)
    requires Shows(d, c) && d.occupied
    ensures Terminal(d) <==> Over(c)
    ensures IsJob(d) <==> Working(c)
    ensures d.state == QUEUED <==> c.process.None? && !Over(c)
    ensures Free(d) <==> Settled(c)
  {
  }

  /** What a call other than acceptance makes of a slot. */
  function Moved(r: Repl, e: Event): (change: Option<(nat, Cell)>)
    requires |r.cells| == CELL_CAP && !e.Accept?
    ensures change.Some? ==> change.value.0 < CELL_CAP
  {
    if !e.Dispatch? then Change(r, e)
    else
      var i := Started(r, e);
      if i.None? then None else Some((i.value, Launched(r.cells[i.value], e.launch)))
  }

  lemma StepMoves(r: Repl, e: Event)
    requires |r.cells| == CELL_CAP && !e.Accept?
    ensures Step(r, e) == match Moved(r, e)
      case None => r
      case Some((k, d)) => r.(cells := r.cells[k := d])
  {
    hide Next, Change, Launched, PidInUse;
  }

  /** What an event other than acceptance and dispatch makes of its command's cell. */
  function CellAfter(c: Cell, e: Event): Cell
    requires !e.Accept? && !e.Dispatch?
  {
    match e
    case Settle(_, status, launched) => if Terminal(c) then c else Finished(c, status, launched)
    case Reap(_, status) => Reaped(c, status)
    case CloseOutput(_) => if c.pty >= 0 then c.(pty := -1, closed := true) else c
    case Receipt(_) => c.(pending := false)
    case CancelAi => c.(state := CANCELLED)
    case MarkStopped(_) => if Live(c) then c.(state := STOPPED) else c
    case MarkRunning(_) => if Live(c) then c.(state := RUNNING) else c
  }

  lemma FinishedShows(d: Cell, c: Command, status: WaitStatus, launched: bool)
    requires d.occupied && Shows(d, c) && !Over(c)
    ensures Shows(Finished(d, status, launched), c.(end := Some(End(status, launched))))
  {
  }

  lemma ReapedShows(d: Cell, c: Command, status: WaitStatus)
    requires d.occupied && Shows(d, c) && d.pid > 0
    ensures Shows(Reaped(d, status), c.(process := None, end := Some(End(status, true))))
  {
  }

  lemma LiveIsWorking(d: Cell, c: Command, nextId: nat)
    requires d.occupied && Shows(d, c) && CellOk(d, nextId)
    ensures Live(d) <==> Working(c)
  {
  }

  lemma SignalShows(d: Cell, c: Command)
    requires d.occupied && Shows(d, c) && Working(c)
    ensures Shows(d.(state := STOPPED), c.(stopped := true))
    ensures Shows(d.(state := RUNNING), c.(stopped := false))
  {
  }

  lemma CancelledShows(d: Cell, c: Command)
    requires d.occupied && Shows(d, c) && d.state in {RUNNING, STOPPED}
    ensures Shows(d.(state := CANCELLED), c.(cancelled := true))
  {
  }

  lemma OutputShows(d: Cell, c: Command, nextId: nat)
    requires d.occupied && Shows(d, c) && CellOk(d, nextId)
    ensures Shows(if d.pty >= 0 then d.(pty := -1, closed := true) else d, c.(terminal := None))
    ensures Shows(d.(pending := false), c.(pending := false))
  {
  }

  lemma CellAfterShows(d: Cell, c: Command, e: Event, nextId: nat)
    requires !e.Accept? && !e.Dispatch? && d.occupied && CellOk(d, nextId) && Shows(d, c)
    requires e.CancelAi? ==> d.state in {RUNNING, STOPPED}
    requires e.Reap? ==> d.pid > 0
    ensures var f := CellAfter(d, e); f.occupied && f.id == d.id && Shows(f, Told(c, e))
  {
    TerminalIsOver(d, c);
    LiveIsWorking(d, c, nextId);
    hide Shows, Terminal, Over, Working, CellOk, Live, Finished, Reaped;
    match e
    case Settle(_, status, launched) =>
      if !Over(c) {
        FinishedShows(d, c, status, launched);
      }
    case Reap(_, status) => ReapedShows(d, c, status);
    case CloseOutput(_) => OutputShows(d, c, nextId);
    case Receipt(_) => OutputShows(d, c, nextId);
    case CancelAi => CancelledShows(d, c);
    case MarkStopped(_) =>
      if Working(c) {
        SignalShows(d, c);
      }
    case MarkRunning(_) =>
      if Working(c) {
        SignalShows(d, c);
      }
  }

  lemma MoveIsCellAfter(r: Repl, e: Event)
    requires |r.cells| == CELL_CAP && !e.Accept? && !e.Dispatch?
    ensures match Slot(r, e)
      case Some(i) => if Moved(r, e).Some? then Moved(r, e) == Some((i, CellAfter(r.cells[i], e)))
                      else CellAfter(r.cells[i], e) == r.cells[i]
      case None => Moved(r, e).Some? ==>
        var (k, d) := Moved(r, e).value; !d.occupied && !r.cells[k].occupied && d.id == r.cells[k].id
  {
    hide CellForPid, ActiveAi, Finished, Reaped, Started;
  }

  /** The slot that changes is the command's, and shows what the event told. */
  lemma MovedShows(r: Repl, l: Ledger, e: Event)
    requires Inv(r) && Agrees(r, l) && !e.Accept?
    ensures var slot, moved := Slot(r, e), Moved(r, e);
      && (moved.Some? ==>
            && (slot.Some? ==> slot.value == moved.value.0)
            && var (k, d) := moved.value;
               && d.occupied == r.cells[k].occupied && d.id == r.cells[k].id
               && (d.occupied ==> slot.Some? && d.id in l && Shows(d, Told(l[d.id], e))))
      && (moved.None? && slot.Some? ==>
            var d := r.cells[slot.value]; d.id in l && Shows(d, Told(l[d.id], e)))
  {
    KeptSize(r);
    hide Inv, Agrees, Shows, CellOk, Moved, Slot, Told, CellAfter, Started;
    var slot := Slot(r, e);
    if slot.Some? {
      ShownCell(r, l, slot.value);
      CellIsOk(r, slot.value);
      SlotState(r, e);
    }
    if e.Dispatch? {
      DispatchMoves(r, e);
      if slot.Some? {
        DispatchShows(r, l, e);
      }
    } else {
      MoveIsCellAfter(r, e);
      if slot.Some? {
        CellAfterShows(r.cells[slot.value], l[r.cells[slot.value].id], e, r.nextId);
      }
    }
  }

  lemma CellIsOk(r: Repl, i: nat)
    requires Inv(r) && i < CELL_CAP
    ensures |r.cells| == CELL_CAP && CellOk(r.cells[i], r.nextId)
  {
  }

  lemma SlotState(r: Repl, e: Event)
    requires |r.cells| == CELL_CAP && Slot(r, e).Some?
    ensures var d := r.cells[Slot(r, e).value];
      d.occupied && (e.CancelAi? ==> d.state in {RUNNING, STOPPED}) && (e.Reap? ==> d.pid > 0)
  {
    hide Started;
  }

  lemma DispatchMoves(r: Repl, e: Event)
    requires |r.cells| == CELL_CAP && e.Dispatch?
    ensures Slot(r, e) == Started(r, e)
    ensures Moved(r, e) == if Started(r, e).None? then None
      else Some((Started(r, e).value, Launched(r.cells[Started(r, e).value], e.launch)))
  {
    hide Started;
  }

  lemma DispatchShows(r: Repl, l: Ledger, e: Event)
    requires Inv(r) && Agrees(r, l) && e.Dispatch? && Started(r, e).Some?
    ensures var i := Started(r, e).value; var c, d := r.cells[i], Launched(r.cells[i], e.launch);
      && c.occupied && c.state == QUEUED && c.id in l
      && d.occupied && d.id == c.id
      && Shows(d, Told(l[c.id], e))
  {
    hide Unique, ControlHasRoom, OrdinaryJobs, Ordered, Kept, Next, JobCount, DependencyReady, EarlierBlocker, EarlierUnsettled;
    var i := Started(r, e).value;
    assert ShownAt(r, l, i) && CellOk(r.cells[i], r.nextId);
  }

  // ----- every run -----

  /** A changed slot that shows its command still, and what that means for the rest. */
  lemma OneSlotAgrees(r: Repl, l: Ledger, k: nat, d: Cell, c: Command)
    requires Inv(r) && Agrees(r, l) && k < CELL_CAP
    requires d.occupied == r.cells[k].occupied && d.id == r.cells[k].id
    requires d.occupied ==> d.id in l && Shows(d, c)
    ensures Agrees(r.(cells := r.cells[k := d]), if d.occupied then l[d.id := c] else l)
  {
    var s, m := r.(cells := r.cells[k := d]), if d.occupied then l[d.id := c] else l;
    hide Shows, Settled, ControlHasRoom, OrdinaryJobs, Ordered;
    forall i | 0 <= i < CELL_CAP ensures ShownAt(s, m, i) {
      assert ShownAt(r, l, i);
      if i != k && d.occupied && r.cells[i].occupied {
        assert if i < k then r.cells[i].id != r.cells[k].id else r.cells[k].id != r.cells[i].id;
      }
    }
    KeptSame(r.cells, k, d);
    hide ShownAt, Unique, Kept;
    assert forall id :: id in m ==> id in l;
  }

  lemma KeptSame(cells: Cells, k: nat, d: Cell)
    requires k < |cells| && d.occupied == cells[k].occupied && d.id == cells[k].id
    ensures Kept(cells[k := d]) == Kept(cells)
  {
    var after := cells[k := d];
    forall id ensures id in Kept(after) <==> id in Kept(cells) {
      if id in Kept(after) {
        var i :| 0 <= i < |cells| && after[i].occupied && after[i].id == id;
        assert cells[i].occupied && cells[i].id == id;
      }
      if id in Kept(cells) {
        var i :| 0 <= i < |cells| && cells[i].occupied && cells[i].id == id;
        assert after[i].occupied && after[i].id == id;
      }
    }
  }

  /** What is over stays so. */
  lemma ToldStaysOver(c: Command, e: Event)
    requires Over(c)
    ensures Over(Told(c, e))
  {
  }

  lemma MoveAgrees(r: Repl, l: Ledger, e: Event)
    requires Inv(r) && Agrees(r, l) && !e.Accept?
    ensures Agrees(Step(r, e), StepLedger(r, l, e))
  {
    KeptSize(r);
    hide Step, Inv, Moved, Slot, Told, Shows, Agrees, Over, Kept, Reusable;
    StepMoves(r, e);
    MovedShows(r, l, e);
    var slot, moved := Slot(r, e), Moved(r, e);
    if moved.Some? {
      var (k, d) := moved.value;
      if d.occupied {
        OneSlotAgrees(r, l, k, d, Told(l[d.id], e));
      } else {
        OneSlotAgrees(r, l, k, d, SOME_COMMAND);
      }
    } else if slot.Some? {
      var d := r.cells[slot.value];
      OneSlotAgrees(r, l, slot.value, d, Told(l[d.id], e));
      assert r.cells[slot.value := d] == r.cells;
    }
  }

  const SOME_COMMAND := Command(Accept(false, false, false, false, false, false, true), None, None, false, None, false, false)

  lemma AcceptAgrees(r: Repl, l: Ledger, e: Event)
    requires Inv(r) && Agrees(r, l) && e.Accept?
    ensures Agrees(Step(r, e), StepLedger(r, l, e))
  {
    hide Unique, ControlHasRoom, OrdinaryJobs, Ordered, Reusable, FreeCount;
    var slot := Reusable(r.cells, e.control);
    if slot.Some? {
      var k := slot.value;
      var s, m := Step(r, e), StepLedger(r, l, e);
      assert ShownAt(r, l, k);
      if r.cells[k].occupied {
        TerminalIsOver(r.cells[k], l[r.cells[k].id]);
      }
      forall i | 0 <= i < CELL_CAP ensures ShownAt(s, m, i) {
        assert ShownAt(r, l, i);
      }
      forall id | id in m ensures id in Kept(s.cells) || Settled(m[id]) {
        if id == r.nextId && e.fits {
          assert s.cells[k].occupied && s.cells[k].id == id;
        } else if id in Kept(r.cells) {
          var i :| 0 <= i < |r.cells| && r.cells[i].occupied && r.cells[i].id == id;
          assert i != k ==> s.cells[i].occupied && s.cells[i].id == id;
        }
      }
    }
  }

  lemma {:induction false} RunAgrees(events: seq<Event>)
    ensures Inv(Run(START, events)) && Agrees(Run(START, events), LedgerOf(START, events))
    decreases |events|
  {
    RunInv(events);
    hide Inv, Step, StepLedger;
    if events == [] {
    } else {
      var front, e := events[..|events| - 1], events[|events| - 1];
      RunAgrees(front);
      hide Agrees;
      if e.Accept? {
        AcceptAgrees(Run(START, front), LedgerOf(START, front), e);
      } else {
        MoveAgrees(Run(START, front), LedgerOf(START, front), e);
      }
    }
  }

  // ----- the order of commands -----

  /** Ordinary command `q` has to wait for `p`, accepted before: `p` blocks all that
      follow, or `q` is a barrier, or it depends on the status of `p`, the newest non-AI
      command before it, where only the given commands count. */
  ghost predicate WaitsFor(l: Ledger, among: set<nat>, p: nat, q: nat) {
    && p in l && q in l && p < q && p in among && !l[q].order.control
    && (|| l[p].order.blocks
        || (l[q].order.barrier && !l[p].order.ai)
        || (l[q].order.dependency && !l[p].order.ai &&
            forall m :: m in among && m in l && p < m < q ==> l[m].order.ai))
  }

  /** All that a dispatched command had to wait for is over, and no other command has a
      process. */
  ghost predicate InOrder(l: Ledger, started: set<nat>) {
    && (forall p, q :: q in started && WaitsFor(l, l.Keys, p, q) ==> Over(l[p]))
    && (forall q :: q in l && l[q].process.Some? ==> q in started)
  }

  /** The commands that are not over and have a process: all, or the ordinary ones. */
  function WorkingIds(l: Ledger, all: bool): set<nat> {
    set id | id in l && Working(l[id]) && (all || !l[id].order.control)
  }

  /** The conditions under which a dispatch may select command `q`: it waits, no other AI
      command has a process if it is one, and an ordinary one finds fewer than eight
      working commands and nothing among the kept ones to wait for. */
  ghost predicate MayStart(l: Ledger, kept: set<nat>, q: nat, laneBusy: bool) {
    && q in l && StateOf(l[q]) == QUEUED
    && (l[q].order.ai ==> forall m :: m in kept && m in l && l[m].order.ai ==> l[m].process.None?)
    && (l[q].order.control ||
        (&& |WorkingIds(l, true)| < JOB_CAP
         && (forall p :: WaitsFor(l, kept, p, q) ==> Over(l[p]))
         && (l[q].order.barrier ==> !laneBusy)))
  }

  /** The cell of a kept command. */
  ghost function CellOf(r: Repl, id: nat): (i: nat)
    requires id in Kept(r.cells)
    ensures i < |r.cells| && r.cells[i].occupied && r.cells[i].id == id
  {
    var i :| 0 <= i < |r.cells| && r.cells[i].occupied && r.cells[i].id == id;
    i
  }

  lemma ShownCell(r: Repl, l: Ledger, i: nat)
    requires Agrees(r, l) && i < |r.cells| && r.cells[i].occupied
    ensures var d := r.cells[i]; d.id in Kept(r.cells) && d.id in l && Shows(d, l[d.id])
  {
    assert ShownAt(r, l, i);
  }

  // ----- counting the working commands -----

  function JobIds(cells: Cells, n: nat, all: bool): set<nat>
    requires n <= |cells|
  {
    set i | 0 <= i < n && IsJob(cells[i]) && (all || !cells[i].control) :: cells[i].id
  }

  function Jobs(cells: Cells, all: bool): nat {
    if all then JobCount(cells) else OrdinaryJobs(cells)
  }

  lemma JobsNext(cells: Cells, n: nat, all: bool)
    requires n < |cells|
    ensures var one := IsJob(cells[n]) && (all || !cells[n].control);
      && Jobs(cells[..n + 1], all) == Jobs(cells[..n], all) + (if one then 1 else 0)
      && JobIds(cells, n + 1, all) == JobIds(cells, n, all) + (if one then {cells[n].id} else {})
  {
    hide IsJob;
    assert cells[..n + 1][..n] == cells[..n];
  }

  lemma {:induction false} CountIsSize(r: Repl, n: nat, all: bool)
    requires n <= CELL_CAP == |r.cells| && Inv(r)
    ensures Jobs(r.cells[..n], all) == |JobIds(r.cells, n, all)|
  {
    hide IsJob, Inv;
    if n > 0 {
      CountIsSize(r, n - 1, all);
      JobsNext(r.cells, n - 1, all);
      hide Jobs, JobIds;
      if IsJob(r.cells[n - 1]) {
        JobIsNew(r, n - 1, all);
      }
    }
  }

  lemma JobIsNew(r: Repl, n: nat, all: bool)
    requires n < CELL_CAP && Inv(r) && IsJob(r.cells[n])
    ensures r.cells[n].id !in JobIds(r.cells, n, all)
  {
  }

  lemma JobsAreWorking(r: Repl, l: Ledger, all: bool)
    requires Inv(r) && Agrees(r, l)
    ensures Jobs(r.cells, all) == |WorkingIds(l, all)|
  {
    KeptSize(r);
    CountIsSize(r, CELL_CAP, all);
    assert r.cells[..CELL_CAP] == r.cells;
    hide Inv, Agrees, IsJob, Working, Kept, Jobs;
    forall id ensures id in JobIds(r.cells, CELL_CAP, all) <==> id in WorkingIds(l, all) {
      if id in JobIds(r.cells, CELL_CAP, all) {
        var i :| 0 <= i < CELL_CAP && IsJob(r.cells[i]) && (all || !r.cells[i].control) && r.cells[i].id == id;
        JobShows(r, l, i);
      }
      if id in WorkingIds(l, all) {
        var i := WorkingHasCell(r, l, id);
        JobShows(r, l, i);
      }
    }
    assert JobIds(r.cells, CELL_CAP, all) == WorkingIds(l, all);
  }

  lemma JobShows(r: Repl, l: Ledger, i: nat)
    requires Inv(r) && Agrees(r, l) && i < CELL_CAP
    ensures |r.cells| == CELL_CAP && (IsJob(r.cells[i]) ==> r.cells[i].occupied)
    ensures r.cells[i].occupied ==>
      && r.cells[i].id in l && (IsJob(r.cells[i]) <==> Working(l[r.cells[i].id]))
      && r.cells[i].control == l[r.cells[i].id].order.control
  {
    if r.cells[i].occupied {
      ShownCell(r, l, i);
      hide Inv, Agrees;
      TerminalIsOver(r.cells[i], l[r.cells[i].id]);
    }
  }

  lemma WorkingHasCell(r: Repl, l: Ledger, id: nat) returns (i: nat)
    requires Agrees(r, l) && id in l && Working(l[id])
    ensures i < |r.cells| && r.cells[i].occupied && r.cells[i].id == id
  {
    i := CellOf(r, id);
  }

  // ----- selection -----

  /** What the scheduler tests on a cell is what the ledger says of its command. */
  lemma DispatchableIsMayStart(r: Repl, l: Ledger, i: nat, laneBusy: bool)
    requires Inv(r) && Agrees(r, l) && i < CELL_CAP && r.cells[i].occupied
    ensures Dispatchable(r.cells, i, laneBusy) <==> MayStart(l, Kept(r.cells), r.cells[i].id, laneBusy)
  {
    ShownCell(r, l, i);
    JobsAreWorking(r, l, true);
    LaneIsBusy(r, l);
    WaitingIsBlocked(r, l, i);
    assert |r.cells| == CELL_CAP;
    hide Inv, Agrees, JobCount, AiLaneBusy, DependencyReady, EarlierBlocker, EarlierUnsettled, WaitsFor, Kept, WorkingIds;
    TerminalIsOver(r.cells[i], l[r.cells[i].id]);
  }

  lemma LaneIsBusy(r: Repl, l: Ledger)
    requires Inv(r) && Agrees(r, l)
    ensures AiLaneBusy(r.cells) <==> exists m :: m in Kept(r.cells) && m in l && l[m].order.ai && l[m].process.Some?
  {
    hide Inv, Agrees, Kept;
    if AiLaneBusy(r.cells) {
      var k :| 0 <= k < |r.cells| && r.cells[k].occupied && r.cells[k].ai && r.cells[k].pid > 0;
      ShownCell(r, l, k);
    }
    if m :| m in Kept(r.cells) && m in l && l[m].order.ai && l[m].process.Some? {
      var k := CellOf(r, m);
      ShownCell(r, l, k);
    }
  }

  lemma WaitsInside(l: Ledger, among: set<nat>, p: nat, q: nat)
    requires WaitsFor(l, among, p, q)
    ensures p in among && p in l && q in l && p < q
  {
  }

  lemma PreviousShows(r: Repl, l: Ledger, q: nat, k: nat)
    requires Agrees(r, l) && k < |r.cells| && r.cells[k].occupied && r.cells[k].id < q
    ensures IsPrevious(r.cells, q, k) <==> (
      && r.cells[k].id in l && !l[r.cells[k].id].order.ai
      && forall m :: m in Kept(r.cells) && m in l && r.cells[k].id < m < q ==> l[m].order.ai)
  {
    ShownCell(r, l, k);
    hide Agrees, Kept;
    if IsPrevious(r.cells, q, k) {
      forall m | m in Kept(r.cells) && m in l && r.cells[k].id < m < q ensures l[m].order.ai {
        ShownCell(r, l, CellOf(r, m));
      }
    } else if !r.cells[k].ai {
      var j :| 0 <= j < |r.cells| && r.cells[j].occupied && !r.cells[j].ai && r.cells[k].id < r.cells[j].id < q;
      ShownCell(r, l, j);
    }
  }

  /** What one cell has to wait for, on the cells and in the ledger. */
  lemma WaitShows(r: Repl, l: Ledger, i: nat, k: nat)
    requires Agrees(r, l) && i < |r.cells| && k < |r.cells| && r.cells[i].occupied && r.cells[k].occupied
    requires r.cells[i].id in l && !l[r.cells[i].id].order.control
    ensures var p, q := r.cells[k].id, r.cells[i].id;
      && p in l && (Terminal(r.cells[k]) <==> Over(l[p]))
      && (WaitsFor(l, Kept(r.cells), p, q) <==> (
            && p < q
            && (|| r.cells[k].blocks || (r.cells[i].barrier && !r.cells[k].ai)
                || (r.cells[i].dependency && IsPrevious(r.cells, q, k)))))
  {
    ShownCell(r, l, i);
    ShownCell(r, l, k);
    if r.cells[k].id < r.cells[i].id {
      PreviousShows(r, l, r.cells[i].id, k);
    }
    hide Agrees, Kept, IsPrevious;
    TerminalIsOver(r.cells[k], l[r.cells[k].id]);
  }

  lemma WaitingIsBlocked(r: Repl, l: Ledger, i: nat)
    requires Inv(r) && Agrees(r, l) && i < CELL_CAP && r.cells[i].occupied
    ensures r.cells[i].id in l
    ensures !l[r.cells[i].id].order.control ==>
      ((exists p :: WaitsFor(l, Kept(r.cells), p, r.cells[i].id) && !Over(l[p])) <==> (
        || EarlierBlocker(r.cells, r.cells[i].id) || !DependencyReady(r.cells, i)
        || (r.cells[i].barrier && EarlierUnsettled(r.cells, r.cells[i].id))))
  {
    ShownCell(r, l, i);
    var q := r.cells[i].id;
    hide Inv, Agrees, Kept, WaitsFor, IsPrevious;
    if !l[q].order.control {
      if k :| 0 <= k < |r.cells| && r.cells[k].occupied && r.cells[k].id < q && !Terminal(r.cells[k])
              && (r.cells[k].blocks || (r.cells[i].barrier && !r.cells[k].ai)
                  || (r.cells[i].dependency && IsPrevious(r.cells, q, k))) {
        WaitShows(r, l, i, k);
      }
      if p :| WaitsFor(l, Kept(r.cells), p, q) && !Over(l[p]) {
        WaitsInside(l, Kept(r.cells), p, q);
        WaitShows(r, l, i, CellOf(r, p));
      }
    }
  }

  /** Over every run: a dispatch selects the smallest command that may start, and none
      exactly when none may. */
  lemma SelectionIsExact(events: seq<Event>, laneBusy: bool)
    ensures var r, l := Run(START, events), LedgerOf(START, events);
      match Next(r.cells, laneBusy, |r.cells|)
      case None => forall q :: !MayStart(l, Kept(r.cells), q, laneBusy)
      case Some(i) =>
        && MayStart(l, Kept(r.cells), r.cells[i].id, laneBusy)
        && forall q :: MayStart(l, Kept(r.cells), q, laneBusy) ==> r.cells[i].id <= q
  {
    RunAgrees(events);
    var r, l := Run(START, events), LedgerOf(START, events);
    assert |r.cells| == CELL_CAP;
    var next := Next(r.cells, laneBusy, |r.cells|);
    hide Run, LedgerOf, Inv, Agrees, Next, MayStart, Kept, Dispatchable;
    if next.Some? {
      DispatchableHasCell(r, next.value, laneBusy);
      DispatchableIsMayStart(r, l, next.value, laneBusy);
    }
    forall q | MayStart(l, Kept(r.cells), q, laneBusy) ensures next.Some? && r.cells[next.value].id <= q {
      WaitingIsKept(r, l, q, laneBusy);
      DispatchableIsMayStart(r, l, CellOf(r, q), laneBusy);
    }
  }

  lemma DispatchableHasCell(r: Repl, i: nat, laneBusy: bool)
    requires i < |r.cells| && Dispatchable(r.cells, i, laneBusy)
    ensures r.cells[i].occupied && r.cells[i].state == QUEUED
  {
  }

  lemma WaitingIsKept(r: Repl, l: Ledger, q: nat, laneBusy: bool)
    requires Agrees(r, l) && MayStart(l, Kept(r.cells), q, laneBusy)
    ensures q in Kept(r.cells)
  {
  }

  /** At its dispatch a command finds everything over that it has to wait for. */
  lemma StartedInOrder(r: Repl, l: Ledger, e: Event, p: nat)
    requires Inv(r) && Agrees(r, l) && Started(r, e).Some?
    requires WaitsFor(l, l.Keys, p, r.cells[Started(r, e).value].id)
    ensures Over(l[p])
  {
    hide Inv, Agrees, Next, Kept, Dispatchable, WaitsFor, Over, MayStart;
    assert |r.cells| == CELL_CAP by { KeptSize(r); }
    var i := Started(r, e).value;
    WaitsInside(l, l.Keys, p, r.cells[i].id);
    DispatchableHasCell(r, i, e.laneBusy);
    DispatchableIsMayStart(r, l, i, e.laneBusy);
    if p in Kept(r.cells) {
      FewerKept(l, Kept(r.cells), p, r.cells[i].id);
      NothingToWaitFor(l, Kept(r.cells), p, r.cells[i].id, e.laneBusy);
    } else {
      ForgottenIsOver(r, l, p);
    }
  }

  lemma KeptSize(r: Repl)
    requires Inv(r)
    ensures |r.cells| == CELL_CAP
  {
  }

  lemma FewerKept(l: Ledger, kept: set<nat>, p: nat, q: nat)
    requires WaitsFor(l, l.Keys, p, q) && p in kept
    ensures WaitsFor(l, kept, p, q)
  {
  }

  lemma NothingToWaitFor(l: Ledger, kept: set<nat>, p: nat, q: nat, laneBusy: bool)
    requires MayStart(l, kept, q, laneBusy) && WaitsFor(l, kept, p, q)
    ensures Over(l[p])
  {
  }

  lemma ForgottenIsOver(r: Repl, l: Ledger, p: nat)
    requires Agrees(r, l) && p in l && p !in Kept(r.cells)
    ensures Over(l[p])
  {
  }

  /** One event leaves every order as it was, ends nothing's end, and adds only a newer
      command. */
  lemma LedgerGrows(r: Repl, l: Ledger, e: Event)
    requires |r.cells| == CELL_CAP && forall id :: id in l ==> id < r.nextId
    ensures var m := StepLedger(r, l, e);
      && (forall id :: id in l ==> id in m && m[id].order == l[id].order && (Over(l[id]) ==> Over(m[id])))
      && (forall id :: id in m && id !in l ==> id == r.nextId)
  {
    hide Reusable, Slot, Told, Over;
    if !e.Accept? {
      var slot := Slot(r, e);
      if slot.Some? && r.cells[slot.value].id in l {
        var c := l[r.cells[slot.value].id];
        ToldSameOrder(c, e);
        if Over(c) {
          ToldStaysOver(c, e);
        }
      }
    }
  }

  lemma ToldSameOrder(c: Command, e: Event)
    ensures Told(c, e).order == c.order
  {
  }

  lemma WaitsForOlder(l: Ledger, m: Ledger, p: nat, q: nat, nextId: nat)
    requires forall id :: id in l ==> id in m && m[id].order == l[id].order
    requires forall id :: id in m && id !in l ==> id == nextId
    requires q in l && q < nextId && WaitsFor(m, m.Keys, p, q)
    ensures WaitsFor(l, l.Keys, p, q)
  {
  }

  lemma StepInOrder(r: Repl, l: Ledger, e: Event, started: set<nat>)
    requires Inv(r) && Agrees(r, l) && InOrder(l, started) && started <= l.Keys
    ensures InOrder(StepLedger(r, l, e), started + StartedId(r, e))
    ensures started + StartedId(r, e) <= StepLedger(r, l, e).Keys
  {
    var m, now := StepLedger(r, l, e), started + StartedId(r, e);
    LedgerGrows(r, l, e);
    StartedIsKnown(r, l, e);
    IdsBelow(r, l);
    ProcessesAreStarted(r, l, e, started);
    hide StepLedger, Started, WaitsFor, Over, Inv, Agrees;
    forall p, q | q in now && WaitsFor(m, m.Keys, p, q) ensures Over(m[p]) {
      WaitsForOlder(l, m, p, q, r.nextId);
      WaitsInside(l, l.Keys, p, q);
      if q !in started {
        StartedInOrder(r, l, e, p);
      }
    }
  }

  /** Only a dispatch gives a command a process. */
  lemma ProcessesAreStarted(r: Repl, l: Ledger, e: Event, started: set<nat>)
    requires |r.cells| == CELL_CAP && forall q :: q in l && l[q].process.Some? ==> q in started
    ensures var m := StepLedger(r, l, e);
      forall q :: q in m && m[q].process.Some? ==> q in started + StartedId(r, e)
  {
    hide Reusable, Started, CellForPid, ActiveAi;
  }

  lemma IdsBelow(r: Repl, l: Ledger)
    requires Agrees(r, l)
    ensures forall id :: id in l ==> 0 < id < r.nextId
  {
  }

  lemma StartedIsKnown(r: Repl, l: Ledger, e: Event)
    requires Inv(r) && Agrees(r, l)
    ensures StartedId(r, e) <= l.Keys
  {
    hide Next, Dispatchable, Inv;
    KeptSize(r);
    var i := Started(r, e);
    if i.Some? {
      DispatchableHasCell(r, i.value, e.laneBusy);
      ShownCell(r, l, i.value);
    }
  }

  lemma {:induction false} RunInOrder(events: seq<Event>)
    ensures InOrder(LedgerOf(START, events), Dispatched(START, events))
    ensures Dispatched(START, events) <= LedgerOf(START, events).Keys
    decreases |events|
  {
    hide Run, StepLedger, StartedId;
    if events == [] {
    } else {
      var front := events[..|events| - 1];
      RunInOrder(front);
      RunAgrees(front);
      hide Inv, Agrees, InOrder;
      StepInOrder(Run(START, front), LedgerOf(START, front), events[|events| - 1], Dispatched(START, front));
    }
  }

  predicate HasAiProcess(l: Ledger, kept: set<nat>, p: nat) {
    p in kept && p in l && l[p].order.ai && l[p].process.Some?
  }

  /** Two kept AI commands never have processes at the same time. */
  ghost predicate OneAi(l: Ledger, kept: set<nat>) {
    forall p, q :: 0 < p < q && HasAiProcess(l, kept, p) ==> !HasAiProcess(l, kept, q)
  }

  /** Over every run: every command accepted has an id of its own; an occupied cell shows
      its command exactly as it was accepted and with the state its reports imply, and a
      command without a cell is settled; only dispatched commands have processes, and whatever
      a dispatched ordinary command had to wait for, as all commands of the run were
      accepted, is over and stays so; there is one AI process at a time, and at most eight
      working ordinary commands. */
  lemma RunsAreOrdered(events: seq<Event>)
    ensures var r, l := Run(START, events), LedgerOf(START, events);
      && (forall id :: id in l <==> 0 < id < r.nextId)
      && (forall i, j :: 0 <= i < j < CELL_CAP && r.cells[i].occupied && r.cells[j].occupied ==> r.cells[i].id != r.cells[j].id)
      && (forall i :: 0 <= i < CELL_CAP && r.cells[i].occupied ==> r.cells[i].id in l && Shows(r.cells[i], l[r.cells[i].id]))
      && (forall id :: id in l && id !in Kept(r.cells) ==> Settled(l[id]))
      && InOrder(l, Dispatched(START, events))
      && OneAi(l, Kept(r.cells))
      && |WorkingIds(l, false)| <= JOB_CAP
  {
    RunAgrees(events);
    RunInOrder(events);
    var r, l := Run(START, events), LedgerOf(START, events);
    hide Run, LedgerOf, Dispatched, Shows, Settled, InOrder, ControlHasRoom, Ordered, Kept, WorkingIds;
    JobsAreWorking(r, l, false);
    forall i | 0 <= i < CELL_CAP && r.cells[i].occupied ensures r.cells[i].id in l && Shows(r.cells[i], l[r.cells[i].id]) {
      assert ShownAt(r, l, i);
    }
    hide Inv, Agrees;
    forall p, q | 0 < p < q && HasAiProcess(l, Kept(r.cells), p) ensures !HasAiProcess(l, Kept(r.cells), q) {
      OneAiProcess(r, l, p, q);
    }
  }

  lemma OneAiProcess(r: Repl, l: Ledger, p: nat, q: nat)
    requires Inv(r) && Agrees(r, l) && p < q && HasAiProcess(l, Kept(r.cells), p)
    ensures !HasAiProcess(l, Kept(r.cells), q)
  {
    if q in Kept(r.cells) {
      var i, j := CellOf(r, p), CellOf(r, q);
      ShownCell(r, l, i);
      ShownCell(r, l, j);
      assert !BothAi(r.cells[if i < j then i else j], r.cells[if i < j then j else i]);
    }
  }

  // ----- acceptance, cancellation and reaping -----

  function UnsettledIds(l: Ledger): set<nat> {
    set id | id in l && !Settled(l[id])
  }

  function BusyIds(cells: Cells, n: nat): set<nat>
    requires n <= |cells|
  {
    set i | 0 <= i < n && !Free(cells[i]) :: cells[i].id
  }

  lemma FreeNext(cells: Cells, n: nat)
    requires n < |cells|
    ensures FreeCount(cells[..n + 1]) == FreeCount(cells[..n]) + (if Free(cells[n]) then 1 else 0)
    ensures BusyIds(cells, n + 1) == BusyIds(cells, n) + (if Free(cells[n]) then {} else {cells[n].id})
  {
    hide Free;
    assert cells[..n + 1][..n] == cells[..n];
  }

  lemma BusyIsNew(r: Repl, n: nat)
    requires n < CELL_CAP && Inv(r) && !Free(r.cells[n])
    ensures r.cells[n].id !in BusyIds(r.cells, n)
  {
  }

  lemma {:induction false} FreeAndBusy(r: Repl, n: nat)
    requires n <= CELL_CAP == |r.cells| && Inv(r)
    ensures FreeCount(r.cells[..n]) + |BusyIds(r.cells, n)| == n
  {
    hide Free, Inv;
    if n == 0 {
      assert r.cells[..0] == [];
    } else {
      FreeAndBusy(r, n - 1);
      FreeNext(r.cells, n - 1);
      hide FreeCount, BusyIds;
      if !Free(r.cells[n - 1]) {
        BusyIsNew(r, n - 1);
      }
    }
  }

  lemma BusyAreUnsettled(r: Repl, l: Ledger)
    requires Inv(r) && Agrees(r, l)
    ensures |r.cells| == CELL_CAP && BusyIds(r.cells, CELL_CAP) == UnsettledIds(l)
  {
    KeptSize(r);
    hide Inv, Agrees, Free, Settled, Kept;
    forall id ensures id in BusyIds(r.cells, CELL_CAP) <==> id in UnsettledIds(l) {
      if id in BusyIds(r.cells, CELL_CAP) {
        var i :| 0 <= i < CELL_CAP && !Free(r.cells[i]) && r.cells[i].id == id;
        BusyIsOccupied(r.cells[i]);
        FreeShows(r, l, i);
      }
      if id in UnsettledIds(l) {
        UnsettledIsKept(r, l, id);
        FreeShows(r, l, CellOf(r, id));
      }
    }
  }

  lemma BusyIsOccupied(c: Cell)
    requires !Free(c)
    ensures c.occupied
  {
  }

  lemma FreeShows(r: Repl, l: Ledger, i: nat)
    requires Agrees(r, l) && i < |r.cells| && r.cells[i].occupied
    ensures r.cells[i].id in l && (Free(r.cells[i]) <==> Settled(l[r.cells[i].id]))
  {
    ShownCell(r, l, i);
    hide Agrees;
    TerminalIsOver(r.cells[i], l[r.cells[i].id]);
  }

  lemma UnsettledIsKept(r: Repl, l: Ledger, id: nat)
    requires Agrees(r, l) && id in l && !Settled(l[id])
    ensures id in Kept(r.cells)
  {
  }

  /** Over every run an ordinary command finds a slot exactly while fewer than fifteen
      commands are unsettled, and a control command while fewer than sixteen are. */
  lemma AcceptsExactlyWhen(events: seq<Event>, control: bool)
    ensures Reusable(Run(START, events).cells, control).Some? <==>
      |UnsettledIds(LedgerOf(START, events))| < (if control then CELL_CAP else CELL_CAP - 1)
  {
    RunAgrees(events);
    hide Run, LedgerOf, Inv, Agrees, FreeCount, BusyIds, UnsettledIds;
    var r, l := Run(START, events), LedgerOf(START, events);
    BusyAreUnsettled(r, l);
    FreeAndBusy(r, CELL_CAP);
    assert r.cells[..CELL_CAP] == r.cells;
  }

  /** Over every run: cancelling reaches the AI command that works, if one does, and a reaped
      process is looked for, and found, among the commands that hold a slot. */
  lemma EventsFindTheirCommand(events: seq<Event>, pid: int)
    requires pid > 0
    ensures var r, l := Run(START, events), LedgerOf(START, events);
      && (match ActiveAi(r.cells, 0)
          case Some(i) => r.cells[i].id in l && l[r.cells[i].id].order.ai && Working(l[r.cells[i].id])
          case None => forall id :: id in l && l[id].order.ai ==> !Working(l[id]))
      && (match CellForPid(r.cells, pid, 0)
          case Some(i) => r.cells[i].id in l && l[r.cells[i].id].process == Some(pid)
          case None => forall id :: id in l && id in Kept(r.cells) ==> l[id].process != Some(pid))
  {
    RunAgrees(events);
    var r, l := Run(START, events), LedgerOf(START, events);
    KeptSize(r);
    hide Run, LedgerOf, Inv, Agrees, CellForPid, Kept;
    var ai, owner := ActiveAi(r.cells, 0), CellForPid(r.cells, pid, 0);
    if ai.Some? {
      ShownCell(r, l, ai.value);
    }
    if owner.Some? {
      ShownCell(r, l, owner.value);
    }
    forall id | id in l && l[id].order.ai && Working(l[id]) ensures ai.Some? {
      var i := WorkingHasCell(r, l, id);
      ShownCell(r, l, i);
      ActiveIsFound(r.cells, 0, i);
    }
    forall id | id in l && id in Kept(r.cells) && l[id].process == Some(pid) ensures owner.Some? {
      ShownCell(r, l, CellOf(r, id));
    }
  }

  lemma {:induction false} ActiveIsFound(cells: Cells, from: nat, i: nat)
    requires from <= i < |cells| && cells[i].occupied && cells[i].ai && cells[i].pid > 0 && cells[i].state in {RUNNING, STOPPED}
    ensures ActiveAi(cells, from).Some?
    decreases i - from
  {
    if from < i {
      ActiveIsFound(cells, from + 1, i);
    }
  }
}
