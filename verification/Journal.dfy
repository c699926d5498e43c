/** The framed AI journal: checksummed records, torn tails, and rotation before
    a limit is passed, over runs that may crash at any byte of a write. */
module Journal {
  import opened Bytes
  import opened LittleEndian

  const HEADER: nat := 32
  const RECORD_CAP: nat := 65536
  const PROMPT_CAP: nat := 1024
  const SCAN_CAP: nat := 8192
  const FILE_CAP: nat := 4 * 1024 * 1024

  const COMMAND: nat := 1
  const OUTPUT: nat := 2
  const PROMPT: nat := 3
  const ANSWER: nat := 4
  const TOOL: nat := 5

  /** One record, and the two clock readings its frame carries. */
  datatype Record = Record(kind: nat, text: Text)
  datatype Stamped = Stamped(record: Record, sequence: nat, time: nat)

  predicate Appendable(r: Record) {
    COMMAND <= r.kind <= TOOL && |r.text| <= RECORD_CAP
  }

  predicate Fits(s: Stamped) {
    Appendable(s.record) && s.sequence < 0x1_0000_0000_0000_0000 && s.time < 0x1_0000_0000_0000_0000
  }

  // ----- frames -----

  function Checksum(text: Text): (c: nat)
    ensures c < 0x1_0000_0000
  {
    if |text| <= RECORD_CAP then Fnv(text) else 0
  }

  /** The fixed start of a header: "GSHJ", version 1, the kind, two zero bytes. */
  function Prefix(kind: nat): Text {
    [71, 83, 72, 74, 1, kind % 256, 0, 0]
  }

  /** `encode_header`. */
  function EncodeHeader(s: Stamped): (h: Text)
    ensures |h| == HEADER
  {
    Prefix(s.record.kind) + Encode(|s.record.text|, 4) + Encode(s.sequence, 8) + Encode(s.time, 8) +
    Encode(Checksum(s.record.text), 4)
  }

  datatype Header = Header(kind: nat, length: nat, sequence: nat, checksum: nat)

  /** `decode_header`. */
  function DecodeHeader(h: Text): Option<Header>
    requires |h| == HEADER
  {
    if h[..4] != [71, 83, 72, 74] || h[4] != 1 || h[5] < COMMAND || h[5] > TOOL then None
    else
      var length := Decode(h[8..12]);
      if length > RECORD_CAP then None
      else Some(Header(h[5], length, Decode(h[12..20]), Decode(h[28..32])))
  }

  function Frame(s: Stamped): (f: Text)
    ensures |f| == HEADER + |s.record.text|
  {
    EncodeHeader(s) + s.record.text
  }

  lemma HeaderFields(s: Stamped)
    ensures var h := EncodeHeader(s);
      && h[..8] == Prefix(s.record.kind) && h[8..12] == Encode(|s.record.text|, 4)
      && h[12..20] == Encode(s.sequence, 8) && h[20..28] == Encode(s.time, 8)
      && h[28..32] == Encode(Checksum(s.record.text), 4)
  {
    hide Encode, Checksum;
  }

  lemma HeaderRoundTrip(s: Stamped)
    requires Fits(s)
    ensures DecodeHeader(EncodeHeader(s)) ==
            Some(Header(s.record.kind, |s.record.text|, s.sequence, Checksum(s.record.text)))
  {
    HeaderFields(s);
    Widths();
    DecodeEncode(|s.record.text|, 4);
    DecodeEncode(s.sequence, 8);
    DecodeEncode(Checksum(s.record.text), 4);
    hide Encode, Decode, Checksum, Power256, EncodeHeader, Prefix;
    PrefixBytes(EncodeHeader(s), s.record.kind);
  }

  lemma PrefixBytes(h: Text, kind: nat)
    requires |h| == HEADER && h[..8] == Prefix(kind) && kind < 256
    ensures h[..4] == [71, 83, 72, 74] && h[4] == 1 && h[5] == kind
  {
    assert h[..4] == h[..8][..4] && h[4] == h[..8][4] && h[5] == h[..8][5];
  }

  // ----- reading -----

  datatype Parsed = End | Broken | Got(record: Record, rest: Text)

  /** `next_record` on what is left of the file. */
  function Parse(rest: Text): (p: Parsed)
    ensures p.Got? ==> |p.rest| < |rest|
  {
    if rest == [] then End
    else if |rest| < HEADER then Broken
    else
      var header := DecodeHeader(rest[..HEADER]);
      if header.None? then Broken
      else
        var end := HEADER + header.value.length;
        if |rest| < end then Broken
        else
          var text := rest[HEADER..end];
          if Checksum(text) != header.value.checksum then Broken
          else Got(Record(header.value.kind, text), rest[end..])
  }

  /** A whole frame reads back as its record, whatever follows. */
  lemma ParseFrame(s: Stamped, rest: Text)
    requires Fits(s)
    ensures Parse(Frame(s) + rest) == Got(s.record, rest)
  {
    HeaderRoundTrip(s);
    hide EncodeHeader, DecodeHeader, Checksum;
    var all, h := Frame(s) + rest, EncodeHeader(s);
    assert all == h + s.record.text + rest;
    Ends(h, s.record.text, rest);
    Middle(h, s.record.text, rest);
  }

  /** A non-empty proper prefix of a frame is recognised as broken. */
  lemma ParseTorn(s: Stamped, k: nat)
    requires Fits(s) && 0 < k < |Frame(s)|
    ensures Parse(Frame(s)[..k]) == Broken
  {
    HeaderRoundTrip(s);
    hide EncodeHeader, DecodeHeader, Checksum;
    if k >= HEADER {
      assert Frame(s)[..k][..HEADER] == EncodeHeader(s);
    }
  }

  /** What a reader sees: records up to the first end or broken frame. */
  function ReadRecords(rest: Text, limit: nat): seq<Record> {
    if limit == 0 || !Parse(rest).Got? then []
    else [Parse(rest).record] + ReadRecords(Parse(rest).rest, limit - 1)
  }

  // ----- the active file -----

  function Frames(log: seq<Stamped>): Text {
    if log == [] then [] else Frame(log[0]) + Frames(log[1..])
  }

  function Records(log: seq<Stamped>): (r: seq<Record>)
    ensures |r| == |log|
  {
    seq(|log|, i requires 0 <= i < |log| => log[i].record)
  }

  function Prompts(log: seq<Stamped>): nat {
    if log == [] then 0 else (if log[0].record.kind == PROMPT then 1 else 0) + Prompts(log[1..])
  }

  /** The start of a frame that was never finished. */
  ghost predicate Torn(tail: Text) {
    exists s :: Fits(s) && |tail| < |Frame(s)| && tail == Frame(s)[..|tail|]
  }

  /** Complete frames and at most one torn tail, within the three limits. */
  ghost predicate Consistent(file: Text, log: seq<Stamped>, tail: Text) {
    && file == Frames(log) + tail && Torn(tail)
    && (forall i :: 0 <= i < |log| ==> Fits(log[i]))
    && |file| <= FILE_CAP && |log| <= SCAN_CAP && Prompts(log) <= PROMPT_CAP
  }

  lemma {:induction false} ReadsEveryRecord(log: seq<Stamped>, tail: Text, limit: nat)
    requires Torn(tail) && forall i :: 0 <= i < |log| ==> Fits(log[i])
    requires |log| <= limit
    ensures ReadRecords(Frames(log) + tail, limit) == Records(log)
  {
    hide Parse, Frame;
    if log == [] {
      assert Frames(log) + tail == tail;
      TailStops(tail);
    } else {
      Regroup(Frame(log[0]), Frames(log[1..]), tail);
      ParseFrame(log[0], Frames(log[1..]) + tail);
      ReadsEveryRecord(log[1..], tail, limit - 1);
    }
  }

  lemma TailStops(tail: Text)
    requires Torn(tail)
    ensures Parse(tail) == if tail == [] then End else Broken
  {
    if tail != [] {
      hide Frame, Fits;
      var s :| Fits(s) && |tail| < |Frame(s)| && tail == Frame(s)[..|tail|];
      ParseTorn(s, |tail|);
    }
  }

  lemma NothingTorn()
    ensures Torn([])
  {
    var s := Stamped(Record(1, []), 0, 0);
    assert Fits(s) && Frame(s)[..0] == [];
  }

  // ----- rotation -----

  /** The scanning loop of `journal_needs_rotation`. */
  function ScanForRotation(rest: Text, records: nat, prompts: nat): bool
    decreases SCAN_CAP - records
  {
    if records >= SCAN_CAP then true
    else match Parse(rest)
      case End => false
      case Broken => true
      case Got(record, next) =>
        var counted := if record.kind == PROMPT then prompts + 1 else prompts;
        counted >= PROMPT_CAP || ScanForRotation(next, records + 1, counted)
  }

  /** `journal_needs_rotation`; a journal that cannot be opened needs none. */
  function NeedsRotation(file: Option<Text>, length: nat): bool {
    file.Some? && (|file.value| + HEADER + length > FILE_CAP || ScanForRotation(file.value, 0, 0))
  }

  lemma {:induction false} ScanDecides(log: seq<Stamped>, tail: Text, records: nat, prompts: nat)
    requires Torn(tail) && forall i :: 0 <= i < |log| ==> Fits(log[i])
    requires records + |log| <= SCAN_CAP && prompts < PROMPT_CAP
    ensures ScanForRotation(Frames(log) + tail, records, prompts) <==>
            tail != [] || records + |log| == SCAN_CAP || prompts + Prompts(log) >= PROMPT_CAP
    decreases |log|
  {
    hide Parse, Frame;
    if log == [] {
      assert Frames(log) + tail == tail;
      TailStops(tail);
    } else {
      Regroup(Frame(log[0]), Frames(log[1..]), tail);
      ParseFrame(log[0], Frames(log[1..]) + tail);
      var counted := if log[0].record.kind == PROMPT then prompts + 1 else prompts;
      if counted < PROMPT_CAP {
        ScanDecides(log[1..], tail, records + 1, counted);
      }
    }
  }

  /** A consistent file is rotated exactly when it is torn or full. */
  lemma RotationIsExact(file: Text, log: seq<Stamped>, tail: Text, length: nat)
    requires Consistent(file, log, tail)
    ensures NeedsRotation(Some(file), length) <==>
      || |file| + HEADER + length > FILE_CAP || tail != []
      || |log| == SCAN_CAP || Prompts(log) >= PROMPT_CAP
  {
    hide ScanForRotation, Torn;
    ScanDecides(log, tail, 0, 0);
  }

  // ----- appending -----

  /** The directory: the active journal and the one it replaced. */
  datatype Disk = Disk(active: Option<Text>, previous: Option<Text>)

  /** An append of which `written` bytes of the frame reach the disk. */
  datatype Append = Append(entry: Stamped, written: nat)

  predicate Complete(a: Append) {
    a.written >= |Frame(a.entry)|
  }

  /** `gsh_llm_journal_append`, with a crash or write error after `written` bytes. */
  function Apply(d: Disk, a: Append): Disk {
    if !Appendable(a.entry.record) then d
    else
      var rotated := if NeedsRotation(d.active, |a.entry.record.text|) then Disk(None, d.active) else d;
      var before := if rotated.active.Some? then rotated.active.value else [];
      var frame := Frame(a.entry);
      rotated.(active := Some(before + frame[..Min(a.written, |frame|)]))
  }

  /** The complete frames and the torn tail of the active journal after an append. */
  function LogAfter(d: Disk, log: seq<Stamped>, a: Append): seq<Stamped> {
    var kept := if NeedsRotation(d.active, |a.entry.record.text|) then [] else log;
    if Complete(a) then kept + [a.entry] else kept
  }

  function TailAfter(a: Append): Text {
    if Complete(a) then [] else Frame(a.entry)[..a.written]
  }

  ghost predicate Sound(d: Disk, log: seq<Stamped>, tail: Text) {
    if d.active.None? then log == [] && tail == [] else Consistent(d.active.value, log, tail)
  }

  lemma {:induction false} FramesConcat(a: seq<Stamped>, b: seq<Stamped>)
    ensures Frames(a + b) == Frames(a) + Frames(b)
    ensures Prompts(a + b) == Prompts(a) + Prompts(b)
  {
    if a == [] {
      assert a + b == b;
    } else {
      assert (a + b)[1..] == a[1..] + b;
      FramesConcat(a[1..], b);
      Regroup(Frame(a[0]), Frames(a[1..]), Frames(b));
    }
  }

  /** Adding one frame, whole or torn, to complete frames. */
  lemma ExtendConsistent(file: Text, log: seq<Stamped>, s: Stamped, written: nat)
    requires Consistent(file, log, []) && Fits(s)
    requires |file| + |Frame(s)| <= FILE_CAP && |log| < SCAN_CAP && Prompts(log) < PROMPT_CAP
    ensures written >= |Frame(s)| ==> Consistent(file + Frame(s), log + [s], [])
    ensures written < |Frame(s)| ==> Consistent(file + Frame(s)[..written], log, Frame(s)[..written])
  {
    FramesConcat(log, [s]);
    OneFrame(s);
    hide Frame, Frames, Fits;
    assert Frames(log) + [] == Frames(log);
    if written < |Frame(s)| {
      assert Torn(Frame(s)[..written]);
    } else {
      assert file + Frame(s) == Frames(log + [s]) + [];
    }
  }

  lemma OneFrame(s: Stamped)
    ensures Frames([s]) == Frame(s) && Prompts([s]) <= 1
  {
    hide Frame;
    assert [s][1..] == [];
    assert Frames([s]) == Frame(s) + [];
    assert Prompts([s][1..]) == 0;
  }

  lemma EmptyConsistent()
    ensures Consistent([], [], [])
  {
    NothingTorn();
    hide Torn;
  }

  /** Whatever byte a crash stops at, the journal stays sound; a torn tail never
      gains a record behind it. */
  lemma AppendKeepsSound(d: Disk, log: seq<Stamped>, tail: Text, a: Append)
    requires Sound(d, log, tail) && Fits(a.entry)
    ensures Sound(Apply(d, a), LogAfter(d, log, a), TailAfter(a))
    ensures Apply(d, a).active.Some?
  {
    hide Frame, Fits, Frames, Torn, Prompts, ScanForRotation;
    EmptyConsistent();
    NeedsFits(a.entry);
    var frame := Frame(a.entry);
    assert [] + frame[..Min(a.written, |frame|)] == frame[..Min(a.written, |frame|)] && [] + frame == frame;
    assert frame[..|frame|] == frame;
    if d.active.Some? {
      RotationIsExact(d.active.value, log, tail, |a.entry.record.text|);
    }
    if d.active.None? || NeedsRotation(d.active, |a.entry.record.text|) {
      NoPrompts();
      ExtendConsistent([], [], a.entry, a.written);
    } else {
      ExtendConsistent(d.active.value, log, a.entry, a.written);
    }
  }

  lemma NeedsFits(s: Stamped)
    requires Fits(s)
    ensures Appendable(s.record) && |s.record.text| <= RECORD_CAP && |Frame(s)| == HEADER + |s.record.text|
  {
  }

  lemma NoPrompts()
    ensures Prompts([]) == 0
  {
  }

  // ----- runs -----

  function Run(d: Disk, appends: seq<Append>): Disk {
    if appends == [] then d else Apply(Run(d, appends[..|appends| - 1]), appends[|appends| - 1])
  }

  function RunLog(appends: seq<Append>): seq<Stamped> {
    if appends == [] then []
    else LogAfter(Run(Disk(None, None), appends[..|appends| - 1]), RunLog(appends[..|appends| - 1]), appends[|appends| - 1])
  }

  /** Over every run of appends, each possibly cut short anywhere, the active
      journal is complete frames and at most one torn tail, within 4 MiB, 8192
      records and 1024 prompts. */
  lemma {:induction false} RunIsSound(appends: seq<Append>)
    requires forall i :: 0 <= i < |appends| ==> Fits(appends[i].entry)
    ensures Sound(Run(Disk(None, None), appends), RunLog(appends),
                  if appends == [] then [] else TailAfter(appends[|appends| - 1]))
  {
    hide Sound, Apply, LogAfter, TailAfter, Fits;
    if appends == [] {
      NoJournal();
    } else {
      var front := appends[..|appends| - 1];
      RunIsSound(front);
      AppendKeepsSound(Run(Disk(None, None), front), RunLog(front),
                       if front == [] then [] else TailAfter(front[|front| - 1]), appends[|appends| - 1]);
    }
  }

  lemma NoJournal()
    ensures Sound(Disk(None, None), [], [])
  {
  }

  /** After each completed append a reader gets every active record, the new one last. */
  lemma CompletedAppendIsRead(appends: seq<Append>)
    requires appends != [] && forall i :: 0 <= i < |appends| ==> Fits(appends[i].entry)
    requires Complete(appends[|appends| - 1])
    ensures var d, log := Run(Disk(None, None), appends), RunLog(appends);
      && d.active.Some? && log != []
      && ReadRecords(d.active.value, SCAN_CAP) == Records(log)
      && Records(log)[|log| - 1] == appends[|appends| - 1].entry.record
  {
    hide ReadRecords, Frames, Frame, Fits, Torn, NeedsRotation;
    RunIsSound(appends);
    var d, log := Run(Disk(None, None), appends), RunLog(appends);
    ReadsEveryRecord(log, [], SCAN_CAP);
  }

  // ----- the conversation context -----

  const SLOT_CAP: nat := 8192
  const SLOT_COUNT: nat := 10

  /** A record as it is kept in a context slot. */
  function Kept(r: Record): Record {
    Record(r.kind, r.text[..Min(|r.text|, SLOT_CAP - 1)])
  }

  predicate Exchange(r: Record) {
    r.kind == PROMPT || r.kind == ANSWER
  }

  /** The prompts and answers, oldest first. */
  function Exchanges(records: seq<Record>): seq<Record> {
    if records == [] then []
    else
      var front, last := Exchanges(records[..|records| - 1]), records[|records| - 1];
      if Exchange(last) then front + [Kept(last)] else front
  }

  /** `kind_label`. */
  function Label(kind: nat): (name: Text)
    ensures 4 <= |name| <= 9
  {
    if kind == COMMAND then [99, 111, 109, 109, 97, 110, 100]
    else if kind == OUTPUT then [111, 117, 116, 112, 117, 116]
    else if kind == PROMPT then [117, 115, 101, 114]
    else if kind == ANSWER then [97, 115, 115, 105, 115, 116, 97, 110, 116]
    else [116, 111, 111, 108]
  }

  /** "[label] ", the text and a newline. */
  function LabeledLine(r: Record): Text {
    [91] + Label(r.kind) + [93, 32] + r.text + [NEWLINE]
  }

  /** `append_labeled`: the text is cut so that its newline and a NUL fit; a line with
      no room for its label is left out. */
  function Labeled(out: Text, r: Record, capacity: nat): (labeled: Text)
    ensures |out| < capacity ==> |labeled| < capacity
  {
    var front := [91] + Label(r.kind) + [93, 32];
    if |out| + |front| + 2 > capacity then out
    else out + front + r.text[..Min(|r.text|, capacity - |out| - |front| - 2)] + [NEWLINE]
  }

  function Rendered(records: seq<Record>, capacity: nat): (out: Text)
    ensures capacity > 0 ==> |out| < capacity
  {
    if records == [] then []
    else Labeled(Rendered(records[..|records| - 1], capacity), records[|records| - 1], capacity)
  }

  function Lines(records: seq<Record>): Text {
    if records == [] then [] else Lines(records[..|records| - 1]) + LabeledLine(records[|records| - 1])
  }

  lemma LabeledFits(out: Text, r: Record, capacity: nat)
    requires |out| + |LabeledLine(r)| < capacity
    ensures Labeled(out, r, capacity) == out + LabeledLine(r)
  {
    hide Label;
    var front := [91] + Label(r.kind) + [93, 32];
    assert r.text[..Min(|r.text|, capacity - |out| - |front| - 2)] == r.text;
    Regroup(out, front, r.text);
    Regroup(out, front + r.text, [NEWLINE]);
  }

  /** A line that does not fit is left out if there is no room for its label, else cut so
      that with its newline the text ends one byte below the capacity. */
  lemma LabeledIsCut(out: Text, r: Record, capacity: nat)
    requires |out| < capacity <= |out| + |LabeledLine(r)|
    ensures var labeled, whole := Labeled(out, r, capacity), out + LabeledLine(r);
      if |out| + |Label(r.kind)| + 5 > capacity then labeled == out
      else |labeled| == capacity - 1 && labeled == whole[..capacity - 2] + [NEWLINE]
  {
    hide Label;
    var front := [91] + Label(r.kind) + [93, 32];
    var room := capacity - |out| - |front| - 2;
    if room >= 0 {
      assert (out + LabeledLine(r))[..capacity - 2] == out + front + r.text[..room];
    }
  }

  /** A context that fits is every line, whole and in order. */
  lemma {:induction false} RenderedFits(records: seq<Record>, capacity: nat)
    requires |Lines(records)| < capacity
    ensures Rendered(records, capacity) == Lines(records)
  {
    hide Labeled, LabeledLine;
    if records != [] {
      RenderedFits(records[..|records| - 1], capacity);
      LabeledFits(Lines(records[..|records| - 1]), records[|records| - 1], capacity);
    }
  }

  // ----- the imperative journal -----

  class JournalFile {
    var active: Option<Text>
    var previous: Option<Text>

    ghost function View(): Disk
      reads this
    {
      Disk(active, previous)
    }

    constructor (active: Option<Text>, previous: Option<Text>)
      ensures View() == Disk(active, previous)
    {
      this.active, this.previous := active, previous;
    }

    /** `journal_needs_rotation`: scan until a limit, the end, or a broken frame. */
    method Rotates(length: nat) returns (rotate: bool)
      ensures rotate <==> NeedsRotation(active, length)
    {
      hide Parse, ScanForRotation;
      if active.None? {
        return false;
      }
      if |active.value| + HEADER + length > FILE_CAP {
        return true;
      }
      var rest, prompts, records := active.value, 0, 0;
      while records < SCAN_CAP
        invariant records <= SCAN_CAP
        invariant ScanForRotation(active.value, 0, 0) == ScanForRotation(rest, records, prompts)
      {
        ScanStep(rest, records, prompts);
        var parsed := Parse(rest);
        if !parsed.Got? {
          return parsed.Broken?;
        }
        if parsed.record.kind == PROMPT {
          prompts := prompts + 1;
        }
        if prompts >= PROMPT_CAP {
          return true;
        }
        rest, records := parsed.rest, records + 1;
      }
      ScanStep(rest, records, prompts);
      return true;
    }

    /** `encode_header` into a 32-byte buffer. */
    method HeaderBytes(s: Stamped) returns (header: array<Byte>)
      requires Fits(s)
      ensures fresh(header) && header[..] == EncodeHeader(s)
    {
      header := new Byte[HEADER](_ => NUL);
      header[0], header[1], header[2], header[3] := 71, 83, 72, 74;
      header[4] := 1;
      header[5] := s.record.kind;
      assert header[..8] == Prefix(s.record.kind);
      hide Encode, Checksum, Prefix;
      ghost var p, n, q, t := Prefix(s.record.kind), Encode(|s.record.text|, 4), Encode(s.sequence, 8), Encode(s.time, 8);
      Write(header, 8, |s.record.text|, 4);
      assert header[..12] == p + n;
      Write(header, 12, s.sequence, 8);
      assert header[..20] == p + n + q;
      Write(header, 20, s.time, 8);
      assert header[..28] == p + n + q + t;
      Write(header, 28, Checksum(s.record.text), 4);
    }

    /** `gsh_llm_journal_append`, stopped by a crash or a write error after `written`
        bytes; a record of no known kind, or too long, is refused and changes nothing. */
    method AppendRecord(s: Stamped, written: nat) returns (ok: bool)
      requires s.sequence < 0x1_0000_0000_0000_0000 && s.time < 0x1_0000_0000_0000_0000
      modifies this
      ensures View() == Apply(old(View()), Append(s, written))
      ensures ok <==> Appendable(s.record) && Complete(Append(s, written))
    {
      hide NeedsRotation, EncodeHeader;
      if !(COMMAND <= s.record.kind <= TOOL) || |s.record.text| > RECORD_CAP {
        return false;
      }
      var rotate := Rotates(|s.record.text|);
      if rotate {
        previous, active := active, None;
      }
      var before := if active.Some? then active.value else [];
      var header := HeaderBytes(s);
      var frame := header[..] + s.record.text;
      var reached := if written < |frame| then written else |frame|;
      active := Some(before + frame[..reached]);
      return reached == |frame|;
    }

    /** The scan of `gsh_llm_journal_context`: ten slots used as a ring. */
    method Collect() returns (slots: array<Record>, count: nat, ghost kept: seq<Record>)
      requires active.Some?
      ensures fresh(slots) && count == |kept| && Ring(slots[..], kept)
      ensures kept == Exchanges(ReadRecords(active.value, SCAN_CAP))
    {
      hide Parse, ReadRecords, Exchanges, Ring, Exchange, Kept;
      slots := new Record[SLOT_COUNT](_ => Record(0, []));
      count, kept := 0, [];
      var rest, scans := active.value, 0;
      ghost var read: seq<Record> := [];
      ExchangesNone();
      RingNone(slots[..]);
      while scans < SCAN_CAP
        invariant scans <= SCAN_CAP && count == |kept| && kept == Exchanges(read)
        invariant ReadRecords(active.value, SCAN_CAP) == read + ReadRecords(rest, SCAN_CAP - scans)
        invariant Ring(slots[..], kept) && slots.Length == SLOT_COUNT
      {
        ReadStep(rest, SCAN_CAP - scans);
        var parsed := Parse(rest);
        if !parsed.Got? {
          break;
        }
        ExchangesNext(read, parsed.record);
        Regroup(read, [parsed.record], ReadRecords(parsed.rest, SCAN_CAP - scans - 1));
        read := read + [parsed.record];
        if Exchange(parsed.record) {
          RingNext(slots[..], kept, Kept(parsed.record));
          slots[count % SLOT_COUNT] := Kept(parsed.record);
          count, kept := count + 1, kept + [Kept(parsed.record)];
        }
        rest, scans := parsed.rest, scans + 1;
      }
      ReadStep(rest, SCAN_CAP - scans);
      assert read + [] == read;
    }

    /** `gsh_llm_journal_context`: the last exchanges, oldest first, as labelled lines
        cut at the caller's capacity; None is the refusal. */
    method Context(exchanges: nat, capacity: nat) returns (context: Option<Text>)
      ensures context == if capacity == 0 || exchanges > 5 then None else if active.None? then Some([])
                         else Some(Rendered(Last(Exchanges(ReadRecords(active.value, SCAN_CAP)), 2 * exchanges), capacity))
    {
      hide ReadRecords, Exchanges, Ring, Labeled;
      if capacity == 0 || exchanges > 5 {
        return None;
      }
      if active.None? {
        return Some([]);
      }
      var slots, count, kept := Collect();
      RingSize(slots[..], kept);
      var retained := if count < 2 * exchanges then count else 2 * exchanges;
      var output: Text := [];
      ghost var last := kept[count - retained..];
      assert last[..0] == [];
      for offset := retained downto 0
        invariant output == Rendered(last[..retained - offset], capacity) && Ring(slots[..], kept)
      {
        RingHolds(slots[..], kept, count - offset - 1);
        assert last[..retained - offset][..retained - offset - 1] == last[..retained - offset - 1];
        output := Labeled(output, slots[(count - offset - 1) % SLOT_COUNT], capacity);
      }
      assert last[..retained] == last;
      return Some(output);
    }
  }

  lemma RingNone(slots: seq<Record>)
    requires |slots| == SLOT_COUNT
    ensures Ring(slots, [])
  {
  }

  lemma RingSize(slots: seq<Record>, kept: seq<Record>)
    requires Ring(slots, kept)
    ensures |slots| == SLOT_COUNT
  {
  }

  /** The last ten records kept are in their slots. */
  ghost predicate Ring(slots: seq<Record>, kept: seq<Record>) {
    |slots| == SLOT_COUNT &&
    forall k :: 0 <= k < |kept| && |kept| - SLOT_COUNT <= k ==> slots[Slot(k)] == kept[k]
  }

  function Slot(k: nat): (slot: nat)
    ensures slot < SLOT_COUNT && slot == k % SLOT_COUNT
  {
    k % SLOT_COUNT
  }

  lemma RingNext(slots: seq<Record>, kept: seq<Record>, r: Record)
    requires Ring(slots, kept)
    ensures Ring(slots[|kept| % SLOT_COUNT := r], kept + [r])
  {
    forall k | 0 <= k < |kept| && |kept| + 1 - SLOT_COUNT <= k ensures Slot(k) != Slot(|kept|) {
    }
  }

  lemma RingHolds(slots: seq<Record>, kept: seq<Record>, k: nat)
    requires Ring(slots, kept) && k < |kept| && |kept| - SLOT_COUNT <= k
    ensures slots[k % SLOT_COUNT] == kept[k]
  {
    assert slots[Slot(k)] == kept[k];
  }

  lemma ExchangesNone()
    ensures Exchanges([]) == []
  {
  }

  lemma ExchangesNext(read: seq<Record>, r: Record)
    ensures Exchanges(read + [r]) == if Exchange(r) then Exchanges(read) + [Kept(r)] else Exchanges(read)
  {
    assert (read + [r])[..|read|] == read;
  }

  lemma ReadStep(rest: Text, limit: nat)
    ensures ReadRecords(rest, limit) ==
      if limit == 0 || !Parse(rest).Got? then [] else [Parse(rest).record] + ReadRecords(Parse(rest).rest, limit - 1)
  {
  }

  lemma ScanStep(rest: Text, records: nat, prompts: nat)
    ensures ScanForRotation(rest, records, prompts) ==
      if records >= SCAN_CAP then true
      else match Parse(rest)
        case End => false
        case Broken => true
        case Got(record, next) =>
          var counted := if record.kind == PROMPT then prompts + 1 else prompts;
          counted >= PROMPT_CAP || ScanForRotation(next, records + 1, counted)
  {
  }
}
