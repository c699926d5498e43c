/** What the journal's frames notice, what a header holds byte by byte, and what the two
    journal files together remember. */
module JournalIntegrity {
  import opened Bytes
  import opened LittleEndian
  import opened Journal

  // ----- the checksum notices every changed byte -----

  const WORD: nat := 0x1_0000_0000
  const PRIME: nat := 16777619

  function PowerOfTwo(n: nat): nat {
    if n == 0 then 1 else 2 * PowerOfTwo(n - 1)
  }

  lemma Halves(bit: nat, half: nat)
    requires bit < 2
    ensures (bit + 2 * half) % 2 == bit && (bit + 2 * half) / 2 == half
  {
  }

  lemma ParityTwice(a: nat, b: nat, r: nat)
    requires r % 2 == (a + b) % 2
    ensures (r + b) % 2 == a % 2
  {
  }

  /** Exclusive or with the same number undoes itself. */
  lemma {:induction false} XorTwice(a: nat, b: nat, bits: nat)
    requires a < PowerOfTwo(bits)
    ensures Xor(Xor(a, b, bits), b, bits) == a && Xor(a, b, bits) < PowerOfTwo(bits)
  {
    if bits > 0 {
      XorTwice(a / 2, b / 2, bits - 1);
      var half := Xor(a / 2, b / 2, bits - 1);
      Halves((a + b) % 2, half);
      ParityTwice(a, b, (a + b) % 2 + 2 * half);
    }
  }

  lemma {:induction false} XorCommutes(a: nat, b: nat, bits: nat)
    ensures Xor(a, b, bits) == Xor(b, a, bits)
  {
    if bits > 0 {
      XorCommutes(a / 2, b / 2, bits - 1);
    }
  }

  lemma ByteBits()
    ensures PowerOfTwo(8) == 256
  {
    assert PowerOfTwo(4) == 16;
  }

  /** The prime has an inverse, so multiplying by it loses nothing. */
  lemma PrimeIsInvertible(x: nat, y: nat)
    requires x < WORD && y < WORD && (x * PRIME) % WORD == (y * PRIME) % WORD
    ensures x == y
  {
    var k := x * PRIME / WORD - y * PRIME / WORD;
    assert (x - y) * PRIME == WORD * k;
    var m := k * 899433627 - (x - y) * 3513497;
    assert (x - y) * (PRIME * 899433627) == (WORD * k) * 899433627;
    assert x - y == WORD * m;
  }

  lemma XorIsInjective(a: nat, b: nat, c: nat, d: nat)
    requires a < 256 && b < 256 && c < 256 && d < 256 && Xor(a, b, 8) == Xor(c, d, 8) && (a == c || b == d)
    ensures a == c && b == d
  {
    ByteBits();
    XorTwice(a, b, 8);
    XorTwice(c, d, 8);
    XorCommutes(a, b, 8);
    XorCommutes(c, d, 8);
    XorTwice(b, a, 8);
    XorTwice(d, c, 8);
    hide Xor, PowerOfTwo;
  }

  lemma XorIsByte(a: nat, b: nat)
    requires a < 256
    ensures Xor(a, b, 8) < 256
  {
    ByteBits();
    XorTwice(a, b, 8);
    hide Xor;
  }

  lemma HighPart(h: nat, x: nat)
    requires h < WORD && x < 256
    ensures h - h % 256 + x == 256 * (h / 256) + x < WORD
  {
  }

  lemma LowPart(p: nat, x: nat, q: nat, y: nat)
    requires x < 256 && y < 256 && 256 * p + x == 256 * q + y
    ensures p == q && x == y
  {
  }

  /** One step of the hash loses neither the hash nor the byte. */
  lemma StepIsInjective(h: nat, b: Byte, g: nat, c: Byte)
    requires h < WORD && g < WORD && FnvStep(h, b) == FnvStep(g, c) && (h == g || b == c)
    ensures h == g && b == c
  {
    hide Xor;
    var x, y := Xor(h % 256, b, 8), Xor(g % 256, c, 8);
    XorIsByte(h % 256, b);
    XorIsByte(g % 256, c);
    HighPart(h, x);
    HighPart(g, y);
    PrimeIsInvertible(256 * (h / 256) + x, 256 * (g / 256) + y);
    LowPart(h / 256, x, g / 256, y);
    XorIsInjective(h % 256, b, g % 256, c);
  }

  lemma {:induction false} HashIsInjective(h: nat, g: nat, s: Text)
    requires h < WORD && g < WORD && FnvFrom(h, s) == FnvFrom(g, s)
    ensures h == g
    decreases |s|
  {
    hide FnvStep;
    if s != [] {
      HashIsInjective(FnvStep(h, s[0]), FnvStep(g, s[0]), s[1..]);
      StepIsInjective(h, s[0], g, s[0]);
    }
  }

  lemma {:induction false} ChangedByteChangesHash(h: nat, s: Text, k: nat, c: Byte)
    requires h < WORD && k < |s| && c != s[k]
    ensures FnvFrom(h, s[k := c]) != FnvFrom(h, s)
    decreases k
  {
    hide FnvStep;
    var t := s[k := c];
    if k == 0 {
      assert t[1..] == s[1..];
      if FnvFrom(h, t) == FnvFrom(h, s) {
        HashIsInjective(FnvStep(h, c), FnvStep(h, s[0]), s[1..]);
        StepIsInjective(h, c, h, s[0]);
      }
    } else {
      assert t[1..] == s[1..][k - 1 := c];
      ChangedByteChangesHash(FnvStep(h, s[0]), s[1..], k - 1, c);
    }
  }

  /** A frame in whose text any one byte has changed is rejected, whatever follows. */
  lemma AlteredTextIsRejected(s: Stamped, k: nat, c: Byte, rest: Text)
    requires Fits(s) && k < |s.record.text| && c != s.record.text[k]
    ensures Parse(Frame(s)[HEADER + k := c] + rest) == Broken
  {
    HeaderRoundTrip(s);
    ChangedByteChangesHash(2166136261, s.record.text, k, c);
    hide EncodeHeader, DecodeHeader, FnvFrom;
    var h, text := EncodeHeader(s), s.record.text[k := c];
    assert Frame(s)[HEADER + k := c] == h + text;
    Ends(h, text, rest);
    Middle(h, text, rest);
  }

  // ----- the header, byte by byte -----

  lemma ByteOfNumber(h: Text, at: nat, value: nat, width: nat, i: nat)
    requires at + width <= |h| && h[at..at + width] == Encode(value, width) && i < width
    ensures h[at + i] == Shifted(value, i) % 256
  {
    EncodeAt(value, width, i);
    hide Encode, Shifted;
    assert h[at + i] == h[at..at + width][i];
  }

  /** "GSHJ", version 1, the kind, two zero bytes, and from the low end up the length in
      four bytes, the sequence and the time in eight, and the checksum in four. */
  lemma HeaderBytesAre(s: Stamped, i: nat)
    requires Fits(s) && i < 8
    ensures var h := EncodeHeader(s);
      && h[..4] == Spelled("GSHJ") && h[4..8] == [1, s.record.kind, 0, 0]
      && (i < 4 ==> h[8 + i] == Shifted(|s.record.text|, i) % 256)
      && h[12 + i] == Shifted(s.sequence, i) % 256 && h[20 + i] == Shifted(s.time, i) % 256
      && (i < 4 ==> h[28 + i] == Shifted(Checksum(s.record.text), i) % 256)
  {
    HeaderFields(s);
    HeaderStart(EncodeHeader(s), s.record.kind);
    hide EncodeHeader, Encode, Checksum, Shifted, Prefix;
    var h := EncodeHeader(s);
    ByteOfNumber(h, 12, s.sequence, 8, i);
    ByteOfNumber(h, 20, s.time, 8, i);
    if i < 4 {
      ByteOfNumber(h, 8, |s.record.text|, 4, i);
      ByteOfNumber(h, 28, Checksum(s.record.text), 4, i);
    }
  }

  lemma HeaderStart(h: Text, kind: nat)
    requires |h| == HEADER && kind < 256 && h[..8] == Prefix(kind)
    ensures h[..4] == Spelled("GSHJ") && h[4..8] == [1, kind, 0, 0]
  {
    assert h[..4] == h[..8][..4] == [71, 83, 72, 74];
    assert h[4..8] == h[..8][4..];
  }

  /** The names of the five kinds. */
  lemma LabelsAreNames()
    ensures Label(COMMAND) == Spelled("command") && Label(OUTPUT) == Spelled("output")
    ensures Label(PROMPT) == Spelled("user") && Label(ANSWER) == Spelled("assistant") && Label(TOOL) == Spelled("tool")
  {
  }

  // ----- the exchanges of a conversation -----

  predicate IsExchange(r: Record) {
    r.kind == PROMPT || r.kind == ANSWER
  }

  /** `e` is the record, its text cut to 8191 bytes. */
  predicate IsCut(r: Record, e: Record) {
    e.kind == r.kind && e.text == (if |r.text| < SLOT_CAP then r.text else r.text[..SLOT_CAP - 1])
  }

  /** The places of the chosen records, in order: `out` is those records, cut. */
  ghost predicate Places(records: seq<Record>, at: seq<nat>, out: seq<Record>) {
    && |at| == |out|
    && (forall j, k :: 0 <= j < k < |at| ==> at[j] < at[k])
    && (forall k :: 0 <= k < |at| ==> at[k] < |records| && IsExchange(records[at[k]]) && IsCut(records[at[k]], out[k]))
  }

  lemma PlacesGrow(records: seq<Record>, last: Record, at: seq<nat>, out: seq<Record>)
    requires Places(records, at, out)
    ensures Places(records + [last], at, out)
    ensures IsExchange(last) ==> Places(records + [last], at + [|records|], out + [Kept(last)])
  {
    var all, more, kept := records + [last], at + [|records|], out + [Kept(last)];
    hide IsCut, IsExchange;
    CutIsKept(last);
    if IsExchange(last) {
      forall k | 0 <= k < |more|
        ensures more[k] < |all| && IsExchange(all[more[k]]) && IsCut(all[more[k]], kept[k])
      {
        if k < |at| {
          assert all[at[k]] == records[at[k]];
        }
      }
    }
  }

  lemma CutIsKept(r: Record)
    ensures IsCut(r, Kept(r))
  {
    if |r.text| < SLOT_CAP {
      assert r.text[..|r.text|] == r.text;
    }
  }

  /** The exchanges are exactly the prompts and answers of the journal, in order, each cut
      to 8191 bytes; `at` says where each comes from. */
  lemma {:induction false} ExchangesAreExact(records: seq<Record>) returns (at: seq<nat>)
    ensures Places(records, at, Exchanges(records))
    ensures forall i: nat :: i < |records| && IsExchange(records[i]) ==> i in at
  {
    hide Places, Kept;
    if records == [] {
      at := [];
      NoPlaces();
    } else {
      var front, last := records[..|records| - 1], records[|records| - 1];
      assert records == front + [last];
      var before := ExchangesAreExact(front);
      PlacesGrow(front, last, before, Exchanges(front));
      at := if IsExchange(last) then before + [|front|] else before;
      forall i: nat | i < |records| && IsExchange(records[i]) ensures i in at {
        if i < |front| {
          assert front[i] == records[i] && i in before;
        }
      }
    }
  }

  lemma NoPlaces()
    ensures Places([], [], Exchanges([]))
  {
  }

  // ----- both files -----

  /** An append begins a new log if the active journal needs rotation, and goes to the last. */
  function Begun(logs: seq<seq<Stamped>>, rotates: bool): (begun: seq<seq<Stamped>>)
    requires |logs| > 0
    ensures |begun| > 0
  {
    if rotates then logs + [[]] else logs
  }

  function Grown(logs: seq<seq<Stamped>>, more: seq<Stamped>): (grown: seq<seq<Stamped>>)
    requires |logs| > 0
    ensures |grown| == |logs|
  {
    logs[|logs| - 1 := logs[|logs| - 1] + more]
  }

  /** What an append adds to what is completed. */
  function Added(a: Append): seq<Stamped> {
    if Complete(a) then [a.entry] else []
  }

  /** The logs of all journals a run has begun, the active one last. */
  ghost function Journals(d: Disk, appends: seq<Append>): (logs: seq<seq<Stamped>>)
    ensures |logs| > 0
  {
    if appends == [] then [[]]
    else
      var before, a := Journals(d, appends[..|appends| - 1]), appends[|appends| - 1];
      Grown(Begun(before, NeedsRotation(Run(d, appends[..|appends| - 1]).active, |a.entry.record.text|)), Added(a))
  }

  /** The appends that were completed, in order. */
  function Completed(appends: seq<Append>): seq<Stamped> {
    if appends == [] then [] else Completed(appends[..|appends| - 1]) + Added(appends[|appends| - 1])
  }

  function Joined(logs: seq<seq<Stamped>>): seq<Stamped> {
    if logs == [] then [] else Joined(logs[..|logs| - 1]) + logs[|logs| - 1]
  }

  lemma JoinedLast(logs: seq<seq<Stamped>>, log: seq<Stamped>)
    ensures Joined(logs + [log]) == Joined(logs) + log
  {
    assert (logs + [log])[..|logs|] == logs;
  }

  /** A file that holds a log, and perhaps the start of one more frame. */
  ghost predicate Holds(file: Option<Text>, log: seq<Stamped>) {
    if file.None? then log == [] else exists tail :: Consistent(file.value, log, tail)
  }

  ghost predicate Remember(d: Disk, logs: seq<seq<Stamped>>, completed: seq<Stamped>) {
    && |logs| > 0 && Joined(logs) == completed && Holds(d.active, logs[|logs| - 1])
    && (if |logs| == 1 then d.previous.None? else d.previous.Some? && Holds(d.previous, logs[|logs| - 2]))
  }

  lemma BegunJoins(logs: seq<seq<Stamped>>, rotates: bool)
    requires |logs| > 0
    ensures Joined(Begun(logs, rotates)) == Joined(logs)
  {
    JoinedLast(logs, []);
    assert Joined(logs) + [] == Joined(logs);
  }

  lemma GrownJoins(logs: seq<seq<Stamped>>, more: seq<Stamped>)
    requires |logs| > 0
    ensures Joined(Grown(logs, more)) == Joined(logs) + more
  {
    var n := |logs| - 1;
    assert Grown(logs, more)[..n] == logs[..n];
    Regroup(Joined(logs[..n]), logs[n], more);
  }

  lemma AppendRemembers(d: Disk, log: seq<Stamped>, tail: Text, logs: seq<seq<Stamped>>, completed: seq<Stamped>, a: Append)
    requires Sound(d, log, tail) && Fits(a.entry) && Remember(d, logs, completed) && log == logs[|logs| - 1]
    ensures var after := Grown(Begun(logs, NeedsRotation(d.active, |a.entry.record.text|)), Added(a));
      && Remember(Apply(d, a), after, completed + Added(a))
      && LogAfter(d, log, a) == after[|after| - 1]
  {
    hide NeedsRotation, Complete, Holds, Fits, Joined, Sound, TailAfter, Apply, Added;
    AppendKeepsSound(d, log, tail, a);
    ApplyMoves(d, log, a);
    SoundIsHeld(Apply(d, a), LogAfter(d, log, a), TailAfter(a));
    var rotates := NeedsRotation(d.active, |a.entry.record.text|);
    BegunJoins(logs, rotates);
    GrownJoins(Begun(logs, rotates), Added(a));
  }

  /** Where an append puts the files, and what it adds to which log. */
  lemma ApplyMoves(d: Disk, log: seq<Stamped>, a: Append)
    requires Fits(a.entry)
    ensures var rotates := NeedsRotation(d.active, |a.entry.record.text|);
      && Apply(d, a).previous == (if rotates then d.active else d.previous) && (rotates ==> d.active.Some?)
      && LogAfter(d, log, a) == (if rotates then [] else log) + Added(a)
  {
    hide ScanForRotation, Frame, Complete;
  }

  lemma SoundIsHeld(d: Disk, log: seq<Stamped>, tail: Text)
    requires Sound(d, log, tail)
    ensures Holds(d.active, log)
  {
    hide Consistent;
  }

  lemma NothingRemembered()
    ensures Remember(Disk(None, None), [[]], [])
  {
    var none: seq<seq<Stamped>> := [];
    JoinedLast(none, []);
    assert none + [[]] == [[]];
  }

  lemma {:induction false} RunRemembers(appends: seq<Append>)
    requires forall i :: 0 <= i < |appends| ==> Fits(appends[i].entry)
    ensures var d, logs := Run(Disk(None, None), appends), Journals(Disk(None, None), appends);
      Remember(d, logs, Completed(appends)) && RunLog(appends) == logs[|logs| - 1]
  {
    hide Apply, LogAfter, Fits, NeedsRotation, Remember, Sound, Added, Begun, Grown, TailAfter;
    var d := Disk(None, None);
    if appends == [] {
      NothingRemembered();
    } else {
      var front := appends[..|appends| - 1];
      RunRemembers(front);
      RunIsSound(front);
      AppendRemembers(Run(d, front), RunLog(front), if front == [] then [] else TailAfter(front[|front| - 1]),
                      Journals(d, front), Completed(front), appends[|appends| - 1]);
    }
  }

  lemma HeldIsRead(file: Text, log: seq<Stamped>)
    requires Holds(Some(file), log)
    ensures ReadRecords(file, SCAN_CAP) == Records(log)
  {
    hide Torn, Frames, Prompts, Fits;
    var tail :| Consistent(file, log, tail);
    ReadsEveryRecord(log, tail, SCAN_CAP);
  }

  /** Over every run of appends, each possibly cut short: reading the previous journal and
      then the active one gives exactly the completed appends since the last but one
      rotation, in order; what is lost is what was in still older journals. */
  lemma JournalsRememberLatest(appends: seq<Append>)
    requires forall i :: 0 <= i < |appends| ==> Fits(appends[i].entry)
    ensures var d, logs := Run(Disk(None, None), appends), Journals(Disk(None, None), appends);
      var n := |logs|;
      && Completed(appends) == Joined(logs)
      && (if d.active.None? then logs[n - 1] == [] else ReadRecords(d.active.value, SCAN_CAP) == Records(logs[n - 1]))
      && (if n == 1 then d.previous.None?
          else d.previous.Some? && ReadRecords(d.previous.value, SCAN_CAP) == Records(logs[n - 2]))
  {
    RunRemembers(appends);
    hide Run, Journals, Completed, Joined, ReadRecords, Fits, Consistent;
    var d, logs := Run(Disk(None, None), appends), Journals(Disk(None, None), appends);
    if d.active.Some? {
      HeldIsRead(d.active.value, logs[|logs| - 1]);
    }
    if |logs| > 1 {
      HeldIsRead(d.previous.value, logs[|logs| - 2]);
    }
  }
}
