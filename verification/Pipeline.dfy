/** Pipeline exit status, gathered in whatever order the children finish. */
module Pipeline {
  import opened Bytes
  import opened Waiting

  /** `gsh_pipeline_status`; the two `known` flags are the options' tags. */
  datatype Status = Status(
    commands: nat, pipefail: bool, rightmost: nat, selected: Option<WaitStatus>, last: Option<WaitStatus>)

  function Initial(commands: nat, pipefail: bool): Status {
    Status(commands, pipefail, 0, None, None)
  }

  predicate Nonzero(s: WaitStatus) {
    s.Signaled? || (s.Exited? && s.code != 0)
  }

  /** `gsh_pipeline_status_record`; a rejected report changes nothing. */
  function Record(p: Status, index: nat, s: WaitStatus): Status {
    if p.commands == 0 || index >= p.commands || !s.Terminal() then p
    else
      var q := if index + 1 == p.commands then p.(last := Some(s)) else p;
      if p.pipefail && Nonzero(s) && (p.selected.None? || index > p.rightmost)
      then q.(selected := Some(s), rightmost := index) else q
  }

  /** `gsh_pipeline_status_result`. */
  function Result(p: Status): Option<WaitStatus> {
    if p.commands == 0 || p.last.None? then None
    else if p.pipefail && p.selected.Some? then p.selected else p.last
  }

  // ----- what the status of a pipeline is -----

  /** The rightmost known status that is not zero. */
  function Rightmost(exits: seq<Option<WaitStatus>>): (r: Option<nat>)
    ensures r.Some? ==> r.value < |exits| && exits[r.value].Some? && Nonzero(exits[r.value].value)
    ensures r.Some? ==> forall k :: r.value < k < |exits| && exits[k].Some? ==> !Nonzero(exits[k].value)
    ensures r.None? ==> forall k :: 0 <= k < |exits| && exits[k].Some? ==> !Nonzero(exits[k].value)
  {
    if exits == [] then None
    else
      var n := |exits| - 1;
      if exits[n].Some? && Nonzero(exits[n].value) then Some(n) else Rightmost(exits[..n])
  }

  /** Section 2.9.2 of XCU, POSIX.1-2024: with pipefail the rightmost non-zero
      status if there is one, else the status of the last command. */
  function Final(statuses: seq<Option<WaitStatus>>, pipefail: bool): Option<WaitStatus>
    requires |statuses| > 0
  {
    if pipefail && Rightmost(statuses).Some? then statuses[Rightmost(statuses).value]
    else statuses[|statuses| - 1]
  }

  /** The accumulator after the commands in `exits` with a status reported it. */
  ghost predicate Tracks(p: Status, exits: seq<Option<WaitStatus>>) {
    && p.commands == |exits| > 0
    && p.last == exits[|exits| - 1]
    && (p.pipefail ==>
          match Rightmost(exits)
          case None => p.selected == None
          case Some(k) => p.selected == exits[k] && p.rightmost == k)
    && (!p.pipefail ==> p.selected == None)
  }

  lemma RightmostIs(exits: seq<Option<WaitStatus>>, k: nat)
    requires k < |exits| && exits[k].Some? && Nonzero(exits[k].value)
    requires forall j :: k < j < |exits| && exits[j].Some? ==> !Nonzero(exits[j].value)
    ensures Rightmost(exits) == Some(k)
  {
    var r := Rightmost(exits);
    assert r.Some? && !(r.value < k) && !(r.value > k);
  }

  lemma RightmostNone(exits: seq<Option<WaitStatus>>)
    requires forall k :: 0 <= k < |exits| && exits[k].Some? ==> !Nonzero(exits[k].value)
    ensures Rightmost(exits) == None
  {
  }

  /** One more report keeps the accumulator in step with the reports. */
  lemma RecordTracks(p: Status, exits: seq<Option<WaitStatus>>, index: nat, s: WaitStatus)
    requires Tracks(p, exits) && index < |exits| && s.Terminal() && exits[index].None?
    ensures Tracks(Record(p, index, s), exits[index := Some(s)])
  {
    hide Rightmost;
    var after := exits[index := Some(s)];
    var r := Rightmost(exits);
    if Nonzero(s) && (r.None? || index > r.value) {
      RightmostIs(after, index);
    } else if r.Some? {
      RightmostIs(after, r.value);
    } else {
      RightmostNone(after);
    }
  }

  lemma InitialTracks(n: nat, pipefail: bool)
    requires n > 0
    ensures Tracks(Initial(n, pipefail), seq(n, _ => None))
  {
    hide Rightmost;
    RightmostNone(seq(n, _ => None));
  }

  /** A result is available as soon as the last command has reported, and once
      all have, it is the pipeline's status. */
  lemma ResultIsFinal(p: Status, exits: seq<Option<WaitStatus>>)
    requires Tracks(p, exits)
    ensures Result(p).Some? <==> exits[|exits| - 1].Some?
    ensures Result(p).Some? ==> Result(p) == Final(exits, p.pipefail)
  {
  }

  /** Command `k` failed and none to the right of it did. */
  predicate LastFailed(statuses: seq<WaitStatus>, k: nat)
    requires k < |statuses|
  {
    !statuses[k].Success() && forall j :: k < j < |statuses| ==> statuses[j].Success()
  }

  /** Report the commands of `order`, each with its status. */
  function RecordAll(p: Status, order: seq<nat>, statuses: seq<WaitStatus>): Status
    requires forall k :: 0 <= k < |order| ==> order[k] < |statuses|
  {
    if order == [] then p
    else Record(RecordAll(p, order[..|order| - 1], statuses), order[|order| - 1], statuses[order[|order| - 1]])
  }

  function Reported(order: seq<nat>, statuses: seq<WaitStatus>): seq<Option<WaitStatus>> {
    seq(|statuses|, i requires 0 <= i < |statuses| => if i in order then Some(statuses[i]) else None)
  }

  function Known(statuses: seq<WaitStatus>): (r: seq<Option<WaitStatus>>)
    ensures |r| == |statuses|
    ensures forall i :: 0 <= i < |statuses| ==> r[i] == Some(statuses[i])
  {
    seq(|statuses|, i requires 0 <= i < |statuses| => Some(statuses[i]))
  }

  lemma AllReported(order: seq<nat>, statuses: seq<WaitStatus>)
    requires forall i :: 0 <= i < |statuses| ==> i in order
    ensures Reported(order, statuses) == Known(statuses)
  {
  }

  lemma {:induction false} AnyOrderTracks(order: seq<nat>, statuses: seq<WaitStatus>, pipefail: bool)
    requires |statuses| > 0 && forall i :: 0 <= i < |statuses| ==> statuses[i].Terminal()
    requires forall k :: 0 <= k < |order| ==> order[k] < |statuses|
    requires forall j, k :: 0 <= j < k < |order| ==> order[j] != order[k]
    ensures Tracks(RecordAll(Initial(|statuses|, pipefail), order, statuses), Reported(order, statuses))
  {
    hide Tracks, Record;
    if order == [] {
      InitialTracks(|statuses|, pipefail);
      assert Reported(order, statuses) == seq(|statuses|, _ => None);
    } else {
      var front, i := order[..|order| - 1], order[|order| - 1];
      AnyOrderTracks(front, statuses, pipefail);
      assert i !in front;
      RecordTracks(RecordAll(Initial(|statuses|, pipefail), front, statuses), Reported(front, statuses), i, statuses[i]);
      assert order == front + [i];
      assert Reported(order, statuses) == Reported(front, statuses)[i := Some(statuses[i])];
    }
  }

  /** For every arrival order of the exits, the result is the pipeline's status. */
  lemma AnyArrivalOrder(order: seq<nat>, statuses: seq<WaitStatus>, pipefail: bool)
    requires |statuses| > 0 && forall i :: 0 <= i < |statuses| ==> statuses[i].Terminal()
    requires forall k :: 0 <= k < |order| ==> order[k] < |statuses|
    requires forall j, k :: 0 <= j < k < |order| ==> order[j] != order[k]
    requires forall i :: 0 <= i < |statuses| ==> i in order
    ensures var result := Result(RecordAll(Initial(|statuses|, pipefail), order, statuses));
      && result == Final(Known(statuses), pipefail)
      && (forall k :: 0 <= k < |statuses| && pipefail && LastFailed(statuses, k) ==> result == Some(statuses[k]))
      && (!pipefail || (forall k :: 0 <= k < |statuses| ==> statuses[k].Success()) ==>
            result == Some(statuses[|statuses| - 1]))
  {
    FinalIs(statuses, pipefail);
    AnyOrderTracks(order, statuses, pipefail);
    var p := RecordAll(Initial(|statuses|, pipefail), order, statuses);
    AllReported(order, statuses);
    ResultIsFinal(p, Known(statuses));
    hide RecordAll, Rightmost, Tracks, Result, Final, Reported;
    PipefailKept(order, statuses, pipefail);
  }

  lemma FinalIs(statuses: seq<WaitStatus>, pipefail: bool)
    requires |statuses| > 0 && forall i :: 0 <= i < |statuses| ==> statuses[i].Terminal()
    ensures forall k :: 0 <= k < |statuses| && pipefail && LastFailed(statuses, k) ==>
      Final(Known(statuses), pipefail) == Some(statuses[k])
    ensures !pipefail || (forall k :: 0 <= k < |statuses| ==> statuses[k].Success()) ==>
      Final(Known(statuses), pipefail) == Some(statuses[|statuses| - 1])
  {
    hide Rightmost;
    forall k | 0 <= k < |statuses| && pipefail && LastFailed(statuses, k)
      ensures Final(Known(statuses), pipefail) == Some(statuses[k])
    {
      RightmostIs(Known(statuses), k);
    }
    if forall k :: 0 <= k < |statuses| ==> statuses[k].Success() {
      RightmostNone(Known(statuses));
    }
  }

  lemma {:induction false} PipefailKept(order: seq<nat>, statuses: seq<WaitStatus>, pipefail: bool)
    requires forall k :: 0 <= k < |order| ==> order[k] < |statuses|
    ensures RecordAll(Initial(|statuses|, pipefail), order, statuses).pipefail == pipefail
  {
    if order != [] {
      PipefailKept(order[..|order| - 1], statuses, pipefail);
    }
  }
}
