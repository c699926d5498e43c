/** The history file: loading, merging a session into it, and what any sequence of
    locked saves by several shells adds up to. */
module HistoryFile {
  import opened Bytes
  import opened HistoryStore
  import opened HistoryFormat

  const BYTE_CAP: nat := CAP * (2 * ENTRY_CAP + 64)
  const CHUNK_CAP: nat := 4096

  // ----- loading -----

  /** Where the first line ends. */
  function LineEnd(text: Text): (end: nat)
    ensures end <= |text| && NEWLINE !in text[..end]
    ensures end < |text| ==> text[end] == NEWLINE
  {
    if text == [] || text[0] == NEWLINE then 0 else 1 + LineEnd(text[1..])
  }

  /** `accept_line`. */
  function Accept(log: Log, line: Text): Log {
    if Entry(line).Some? then Push(log, Entry(line).value, false) else log
  }

  /** Every line of the text, the unterminated last one included. */
  function LoadLines(log: Log, text: Text): Log
    decreases |text|
  {
    var end := LineEnd(text);
    if end == |text| then Accept(log, text)
    else LoadLines(Accept(log, text[..end]), text[end + 1..])
  }

  /** With `discard`, the rest of a line that began before the text is skipped. */
  function LoadText(log: Log, text: Text, discard: bool): Log {
    if !discard then LoadLines(log, text)
    else if LineEnd(text) == |text| then log
    else LoadLines(log, text[LineEnd(text) + 1..])
  }

  /** `load_history`; only the end of an oversized file is read. */
  function LoadFile(log: Log, file: Option<Text>): Log {
    if file.None? then log else LoadText(log, Last(file.value, BYTE_CAP), |file.value| > BYTE_CAP)
  }

  lemma {:induction false} LineEndIs(line: Text, rest: Text)
    requires NEWLINE !in line && (rest == [] || rest[0] == NEWLINE)
    ensures LineEnd(line + rest) == |line|
  {
    if line == [] {
      assert line + rest == rest;
    } else {
      assert (line + rest)[1..] == line[1..] + rest;
      LineEndIs(line[1..], rest);
    }
  }

  lemma LastLine(log: Log, line: Text)
    requires NEWLINE !in line
    ensures LoadLines(log, line) == Accept(log, line)
  {
    LineEndIs(line, []);
    assert line + [] == line;
  }

  lemma NextLine(log: Log, line: Text, rest: Text)
    requires NEWLINE !in line
    ensures LoadLines(log, line + ([NEWLINE] + rest)) == LoadLines(Accept(log, line), rest)
  {
    hide Accept, LineEnd;
    LineEndIs(line, [NEWLINE] + rest);
    var text := line + ([NEWLINE] + rest);
    assert text[..|line|] == line && text[|line| + 1..] == rest;
  }

  lemma DiscardStep(log: Log, byte: Byte, rest: Text)
    ensures LoadText(log, [byte] + rest, true) == LoadText(log, rest, byte != NEWLINE)
  {
    hide LoadLines;
    var text := [byte] + rest;
    assert text[1..] == rest;
    if byte != NEWLINE && LineEnd(rest) < |rest| {
      assert text[LineEnd(text) + 1..] == rest[LineEnd(rest) + 1..];
    }
  }

  lemma {:induction false} LoadKeepsOk(log: Log, text: Text)
    requires LogOk(log)
    ensures LogOk(LoadLines(log, text)) && LoadLines(log, text).next <= log.next + |text| + 1
    decreases |text|
  {
    hide LogOk, LineEnd;
    var end := LineEnd(text);
    AcceptKeepsOk(log, text[..end]);
    if end < |text| {
      LoadKeepsOk(Accept(log, text[..end]), text[end + 1..]);
    } else {
      assert text[..end] == text;
    }
  }

  lemma AcceptKeepsOk(log: Log, line: Text)
    requires LogOk(log)
    ensures LogOk(Accept(log, line)) && log.next <= Accept(log, line).next <= log.next + 1
  {
    if Entry(line).Some? {
      PushKeepsOk(log, Entry(line).value, false);
    }
  }

  /** Of an oversized file the line that is cut, or begins at the cut, is not read, and
      every later one is. */
  lemma OversizedFileLosesFirstLine(log: Log, front: Text, rest: Text)
    requires |front| + 1 + |rest| > BYTE_CAP && |rest| < BYTE_CAP
    requires NEWLINE !in front[|front| + 1 + |rest| - BYTE_CAP..]
    ensures LoadFile(log, Some(front + [NEWLINE] + rest)) == LoadLines(log, rest)
  {
    hide LoadLines, LineEnd;
    var file, cut := front + [NEWLINE] + rest, |front| + 1 + |rest| - BYTE_CAP;
    var tail := front[cut..];
    assert Last(file, BYTE_CAP) == tail + ([NEWLINE] + rest);
    LineEndIs(tail, [NEWLINE] + rest);
    assert (tail + ([NEWLINE] + rest))[|tail| + 1..] == rest;
  }

  // ----- saving -----

  /** `merge_session`. */
  function PushAll(log: Log, session: seq<Text>, dedup: bool): Log {
    if session == [] then log
    else Push(PushAll(log, session[..|session| - 1], dedup), session[|session| - 1], dedup)
  }

  function Row(command: Text, time: nat): Text {
    Line(command, time) + [NEWLINE]
  }

  /** `write_store`. */
  function FileOf(entries: seq<Text>, time: nat): Text {
    if entries == [] then []
    else FileOf(entries[..|entries| - 1], time) + Row(entries[|entries| - 1], time)
  }

  /** One call of `gsh_history_file_save` by a shell that gets the lock; a call that
      does not reach the rename leaves the file as it was. */
  datatype Saving = Saving(session: seq<Text>, limit: nat, dedup: bool, time: nat, renamed: bool)

  predicate Admitted(s: Saving) {
    && |s.session| <= CAP && 0 < s.limit <= CAP && s.time < 0x1_0000_0000_0000_0000
    && forall i :: 0 <= i < |s.session| ==> Admissible(s.session[i])
  }

  predicate Effective(s: Saving) {
    s.renamed && s.session != []
  }

  function Save(file: Option<Text>, s: Saving): Option<Text> {
    if !Effective(s) then file
    else
      var merged := PushAll(LoadFile(Log([], 1), file), s.session, s.dedup);
      Some(FileOf(Last(merged.entries, s.limit), s.time))
  }

  // ----- what a file that gsh wrote holds -----

  lemma {:induction false} FileLength(entries: seq<Text>, time: nat)
    requires time < 0x1_0000_0000_0000_0000 && forall i :: 0 <= i < |entries| ==> Admissible(entries[i])
    ensures |FileOf(entries, time)| <= |entries| * LINE_CAP
    ensures |entries| <= CAP ==> |FileOf(entries, time)| <= BYTE_CAP
  {
    hide Line, Entry;
    if entries != [] {
      FileLength(entries[..|entries| - 1], time);
      LineRoundTrip(entries[|entries| - 1], time);
    }
  }

  lemma {:induction false} FileFirst(entries: seq<Text>, time: nat)
    requires entries != []
    ensures FileOf(entries, time) == Row(entries[0], time) + FileOf(entries[1..], time)
  {
    hide Row;
    var last := |entries| - 1;
    if last == 0 {
      assert entries[..0] == [] && entries[1..] == [];
    } else {
      FileFirst(entries[..last], time);
      assert entries[..last][1..] == entries[1..][..last - 1];
      Regroup(Row(entries[0], time), FileOf(entries[1..][..last - 1], time), Row(entries[last], time));
    }
  }

  lemma {:induction false} PushAllFirst(log: Log, session: seq<Text>, dedup: bool)
    requires session != []
    ensures PushAll(log, session, dedup) == PushAll(Push(log, session[0], dedup), session[1..], dedup)
  {
    hide Push;
    var last := |session| - 1;
    if last == 0 {
      assert session[..0] == [] && session[1..] == [];
    } else {
      PushAllFirst(log, session[..last], dedup);
      assert session[..last][1..] == session[1..][..last - 1];
    }
  }

  lemma {:induction false} LoadWritten(log: Log, entries: seq<Text>, time: nat)
    requires time < 0x1_0000_0000_0000_0000 && forall i :: 0 <= i < |entries| ==> Admissible(entries[i])
    ensures LoadLines(log, FileOf(entries, time)) == PushAll(log, entries, false)
    decreases |entries|
  {
    hide Line, Entry, Push;
    if entries == [] {
      LastLine(log, []);
      NothingOnAnEmptyLine();
    } else {
      FileFirst(entries, time);
      LineRoundTrip(entries[0], time);
      Regroup(Line(entries[0], time), [NEWLINE], FileOf(entries[1..], time));
      NextLine(log, Line(entries[0], time), FileOf(entries[1..], time));
      LoadWritten(Push(log, entries[0], false), entries[1..], time);
      PushAllFirst(log, entries, false);
    }
  }

  lemma NothingOnAnEmptyLine()
    ensures Entry([]) == None
  {
  }

  /** A list that fits comes back entry for entry. */
  lemma {:induction false} PushAllFits(entries: seq<Text>)
    requires |entries| <= CAP && forall i :: 0 <= i < |entries| ==> Admissible(entries[i])
    ensures PushAll(Log([], 1), entries, false) == Log(entries, |entries| + 1)
  {
    if entries != [] {
      var front, last := entries[..|entries| - 1], entries[|entries| - 1];
      PushAllFits(front);
      assert front + [last] == entries;
    }
  }

  /** A written file loads as exactly the entries it was written from. */
  lemma WrittenFileLoads(entries: seq<Text>, time: nat)
    requires |entries| <= CAP && forall i :: 0 <= i < |entries| ==> Admissible(entries[i])
    requires time < 0x1_0000_0000_0000_0000
    ensures LoadFile(Log([], 1), Some(FileOf(entries, time))) == Log(entries, |entries| + 1)
  {
    FileLength(entries, time);
    LoadWritten(Log([], 1), entries, time);
    PushAllFits(entries);
    hide FileOf, PushAll, LoadLines, LineEnd, Entry, Admissible;
    var text := FileOf(entries, time);
    assert Last(text, BYTE_CAP) == text;
  }

  // ----- merging -----

  /** The merge without a capacity. */
  function ExtendAll(kept: seq<Text>, session: seq<Text>, dedup: bool): seq<Text> {
    if session == [] then kept
    else Extend(ExtendAll(kept, session[..|session| - 1], dedup), session[|session| - 1], dedup)
  }

  /** A capacity never changes which recent entries a merge leaves. */
  lemma {:induction false} ExtendAllLast(kept: seq<Text>, session: seq<Text>, dedup: bool, n: nat)
    requires n > 0
    ensures Last(ExtendAll(Last(kept, n), session, dedup), n) == Last(ExtendAll(kept, session, dedup), n)
  {
    if session == [] {
      LastOfLast(kept, n, n);
    } else {
      var front, last := session[..|session| - 1], session[|session| - 1];
      ExtendAllLast(kept, front, dedup, n);
      LastOfExtend(ExtendAll(Last(kept, n), front, dedup), last, dedup, n);
      LastOfExtend(ExtendAll(kept, front, dedup), last, dedup, n);
      hide Last, Extend;
    }
  }

  lemma LastOfLast(kept: seq<Text>, m: nat, n: nat)
    requires n <= m
    ensures Last(Last(kept, m), n) == Last(kept, n)
  {
  }

  lemma {:induction false} PushAllIs(log: Log, session: seq<Text>, dedup: bool)
    requires LogOk(log) && log.next + |session| < EVENT_LIMIT
    requires forall i :: 0 <= i < |session| ==> Admissible(session[i])
    ensures PushAll(log, session, dedup).entries == Last(ExtendAll(log.entries, session, dedup), CAP)
    ensures LogOk(PushAll(log, session, dedup)) && PushAll(log, session, dedup).next <= log.next + |session|
  {
    hide Last, Extend, LogOk, Admissible;
    if session == [] {
      WholeIsLast(log);
    } else {
      var front, last := session[..|session| - 1], session[|session| - 1];
      PushAllIs(log, front, dedup);
      PushIs(PushAll(log, front, dedup), last, dedup);
      LastOfExtend(ExtendAll(log.entries, front, dedup), last, dedup, CAP);
    }
  }

  lemma WholeIsLast(log: Log)
    requires LogOk(log)
    ensures Last(log.entries, CAP) == log.entries
  {
  }

  lemma PushIs(log: Log, command: Text, dedup: bool)
    requires LogOk(log) && log.next < EVENT_LIMIT && Admissible(command)
    ensures Push(log, command, dedup).entries == Last(Extend(log.entries, command, dedup), CAP)
    ensures LogOk(Push(log, command, dedup)) && Push(log, command, dedup).next <= log.next + 1
  {
    PushKeepsOk(log, command, dedup);
  }

  /** Without the duplicate rule a merge keeps every command. */
  lemma {:induction false} NothingCollapses(kept: seq<Text>, commands: seq<Text>)
    ensures ExtendAll(kept, commands, false) == kept + commands
  {
    if commands != [] {
      var front, last := commands[..|commands| - 1], commands[|commands| - 1];
      NothingCollapses(kept, front);
      assert commands == front + [last];
      Regroup(kept, front, [last]);
    }
  }

  predicate BeginsRun(commands: seq<Text>, i: nat)
    requires i < |commands|
  {
    i == 0 || commands[i] != commands[i - 1]
  }

  /** The places where a run of equal commands begins, and the commands there. */
  ghost predicate RunStarts(commands: seq<Text>, at: seq<nat>, kept: seq<Text>) {
    && |at| == |kept|
    && (forall k :: 0 <= k < |at| ==> at[k] < |commands| && BeginsRun(commands, at[k]) && commands[at[k]] == kept[k])
    && (forall i :: 0 <= i < |commands| && BeginsRun(commands, i) ==> i in at)
    && (forall j, k :: 0 <= j < k < |at| ==> at[j] < at[k])
  }

  lemma RunStartsGrow(commands: seq<Text>, at: seq<nat>, kept: seq<Text>, last: Text)
    requires RunStarts(commands, at, kept)
    ensures var all := commands + [last];
      if commands != [] && commands[|commands| - 1] == last then RunStarts(all, at, kept)
      else RunStarts(all, at + [|commands|], kept + [last])
  {
    var all := commands + [last];
    forall i | 0 <= i < |commands| ensures BeginsRun(all, i) <==> BeginsRun(commands, i) {
    }
    if commands != [] && commands[|commands| - 1] == last {
      assert !BeginsRun(all, |commands|);
    } else {
      var more := at + [|commands|];
      assert more[|at|] == |commands|;
      forall i | 0 <= i < |all| && BeginsRun(all, i) ensures i in more {
        if i < |commands| {
          assert i in at;
        }
      }
    }
  }

  lemma ExtendAllNext(front: seq<Text>, last: Text, dedup: bool)
    ensures ExtendAll([], front + [last], dedup) == Extend(ExtendAll([], front, dedup), last, dedup)
    ensures ExtendAll([], [], dedup) == []
  {
    assert (front + [last])[..|front|] == front;
  }

  lemma SameLast(commands: seq<Text>, kept: seq<Text>, last: Text)
    requires if commands == [] then kept == [] else kept != [] && kept[|kept| - 1] == commands[|commands| - 1]
    ensures Extend(kept, last, true) ==
      if commands != [] && commands[|commands| - 1] == last then kept else kept + [last]
  {
  }

  /** With it, exactly one command of each run of equal ones is kept. */
  lemma {:induction false} RunsCollapse(commands: seq<Text>) returns (at: seq<nat>)
    ensures var kept := ExtendAll([], commands, true);
      && RunStarts(commands, at, kept)
      && (if commands == [] then kept == [] else kept != [] && kept[|kept| - 1] == commands[|commands| - 1])
  {
    hide RunStarts, ExtendAll, Extend;
    if commands == [] {
      at := [];
      ExtendAllNext([], [], true);
      NoRuns();
    } else {
      var front, last := commands[..|commands| - 1], commands[|commands| - 1];
      assert commands == front + [last];
      var kept := ExtendAll([], front, true);
      at := RunsCollapse(front);
      RunStartsGrow(front, at, kept, last);
      ExtendAllNext(front, last, true);
      SameLast(front, kept, last);
      if front == [] || front[|front| - 1] != last {
        at := at + [|front|];
      }
    }
  }

  lemma NoRuns()
    ensures RunStarts([], [], [])
  {
  }

  function Entries(file: Option<Text>): (entries: seq<Text>)
  {
    LoadFile(Log([], 1), file).entries
  }

  lemma LoadedOk(file: Option<Text>)
    ensures LogOk(LoadFile(Log([], 1), file)) && LoadFile(Log([], 1), file).next <= BYTE_CAP + 2
  {
    hide LoadLines;
    if file.Some? {
      var text := Last(file.value, BYTE_CAP);
      LoadKeepsOk(Log([], 1), text);
      if LineEnd(text) < |text| {
        LoadKeepsOk(Log([], 1), text[LineEnd(text) + 1..]);
      }
    }
  }

  /** Reloading a saved history gives the last `limit` of the file's entries followed
      by the session's, consecutive duplicates dropped if asked. */
  lemma SaveThenLoad(file: Option<Text>, s: Saving)
    requires Admitted(s)
    ensures Entries(Save(file, s)) ==
            if Effective(s) then Last(ExtendAll(Entries(file), s.session, s.dedup), s.limit) else Entries(file)
  {
    if Effective(s) {
      var log := LoadFile(Log([], 1), file);
      LoadedOk(file);
      PushAllIs(log, s.session, s.dedup);
      var merged := PushAll(log, s.session, s.dedup);
      var kept := Last(merged.entries, s.limit);
      WrittenFileLoads(kept, s.time);
      LastOfLast(ExtendAll(log.entries, s.session, s.dedup), CAP, s.limit);
    }
  }

  // ----- several shells -----

  function RunSaves(file: Option<Text>, saves: seq<Saving>): Option<Text> {
    if saves == [] then file else Save(RunSaves(file, saves[..|saves| - 1]), saves[|saves| - 1])
  }

  /** The merges, one after another in the order of the lock. */
  function FoldMerges(entries: seq<Text>, saves: seq<Saving>): seq<Text> {
    if saves == [] then entries
    else
      var before, s := FoldMerges(entries, saves[..|saves| - 1]), saves[|saves| - 1];
      if Effective(s) then Last(ExtendAll(before, s.session, s.dedup), s.limit) else before
  }

  /** Any sequence of locked saves equals folding the merges in lock order. */
  lemma {:induction false} SavesFoldMerges(file: Option<Text>, saves: seq<Saving>)
    requires forall i :: 0 <= i < |saves| ==> Admitted(saves[i])
    ensures Entries(RunSaves(file, saves)) == FoldMerges(Entries(file), saves)
  {
    hide Save, Entries, ExtendAll, Last, Admitted;
    if saves != [] {
      SavesFoldMerges(file, saves[..|saves| - 1]);
      SaveThenLoad(RunSaves(file, saves[..|saves| - 1]), saves[|saves| - 1]);
    }
  }

  /** Every session that was saved, one behind the other. */
  function Sessions(saves: seq<Saving>): seq<Text> {
    if saves == [] then []
    else Sessions(saves[..|saves| - 1]) +
         (if Effective(saves[|saves| - 1]) then saves[|saves| - 1].session else [])
  }

  /** Saves are additive: with one limit and one duplicate rule, several shells leave
      what a single shell with all their commands would have left. */
  lemma {:induction false} SavesAreAdditive(file: Option<Text>, saves: seq<Saving>, limit: nat, dedup: bool)
    requires 0 < limit <= CAP
    requires forall i :: 0 <= i < |saves| ==>
               Admitted(saves[i]) && saves[i].limit == limit && saves[i].dedup == dedup
    ensures Last(Entries(RunSaves(file, saves)), limit) == Last(ExtendAll(Entries(file), Sessions(saves), dedup), limit)
    ensures (exists i :: 0 <= i < |saves| && Effective(saves[i])) ==> |Entries(RunSaves(file, saves))| <= limit
  {
    hide Save, Entries, ExtendAll, Last, Admitted, Effective;
    ExtendByNothing(Entries(file), dedup);
    if saves != [] {
      var front, s := saves[..|saves| - 1], saves[|saves| - 1];
      SavesAreAdditive(file, front, limit, dedup);
      var before, all := Entries(RunSaves(file, front)), ExtendAll(Entries(file), Sessions(front), dedup);
      SaveThenLoad(RunSaves(file, front), s);
      if Effective(s) {
        ExtendAllLast(before, s.session, dedup, limit);
        ExtendAllLast(all, s.session, dedup, limit);
        ExtendAllConcat(Entries(file), Sessions(front), s.session, dedup);
        LastOfLast(ExtendAll(before, s.session, dedup), limit, limit);
        LastLength(ExtendAll(before, s.session, dedup), limit);
      } else {
        assert Sessions(front) + [] == Sessions(front);
        forall i | 0 <= i < |saves| && Effective(saves[i]) ensures 0 <= i < |front| && Effective(front[i]) {
        }
      }
    }
  }

  lemma ExtendByNothing(kept: seq<Text>, dedup: bool)
    ensures ExtendAll(kept, [], dedup) == kept
  {
  }

  lemma LastLength(kept: seq<Text>, n: nat)
    ensures |Last(kept, n)| <= n
  {
  }

  lemma {:induction false} ExtendAllConcat(kept: seq<Text>, a: seq<Text>, b: seq<Text>, dedup: bool)
    ensures ExtendAll(kept, a + b, dedup) == ExtendAll(ExtendAll(kept, a, dedup), b, dedup)
  {
    hide Extend;
    if b == [] {
      assert a + b == a;
    } else {
      assert (a + b)[..|a + b| - 1] == a + b[..|b| - 1];
      ExtendAllConcat(kept, a, b[..|b| - 1], dedup);
    }
  }
}
