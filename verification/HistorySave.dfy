/** The imperative side of the history file: a chunked reader, the loading loop, and
    the locked save. */
module HistorySave {
  import opened Bytes
  import opened HistoryStore
  import opened HistoryFormat
  import opened HistoryFile

  /** Reads return any positive number of the bytes asked for. */
  class Reader {
    const source: Text
    const chunk: array<Byte>
    var offset: nat
    var length: nat
    var remaining: nat

    ghost predicate Valid()
      reads this
    {
      chunk.Length == CHUNK_CAP && offset <= length <= CHUNK_CAP && remaining <= |source|
    }

    /** The bytes not yet handed out. */
    ghost function Rest(): Text
      reads this, chunk
      requires Valid()
    {
      chunk[offset..length] + source[|source| - remaining..]
    }

    constructor (source: Text)
      ensures Valid() && Rest() == source && fresh(chunk)
    {
      this.source := source;
      chunk := new Byte[CHUNK_CAP](_ => NUL);
      offset, length, remaining := 0, 0, |source|;
    }

    /** `fill_reader`. */
    method Fill() returns (filled: bool)
      requires Valid() && offset == length
      modifies this, chunk
      ensures Valid() && Rest() == old(Rest())
      ensures filled <==> old(Rest()) != []
      ensures filled ==> offset < length
    {
      if remaining == 0 {
        return false;
      }
      var requested: nat := if remaining < CHUNK_CAP then remaining else CHUNK_CAP;
      var count: nat :| 0 < count <= requested;
      var at := |source| - remaining;
      for k := 0 to count
        invariant remaining == old(remaining) && offset == old(offset) && length == old(length)
        invariant forall j :: 0 <= j < k ==> chunk[j] == source[at + j]
      {
        chunk[k] := source[at + k];
      }
      assert chunk[..count] == source[at..at + count];
      CutAt(source, at, count);
      offset, length, remaining := 0, count, remaining - count;
      return true;
    }

    /** `next_byte`: the bytes in order, however the reads are cut. */
    method NextByte() returns (byte: Option<Byte>)
      requires Valid()
      modifies this, chunk
      ensures Valid()
      ensures old(Rest()) == [] ==> byte.None? && Rest() == []
      ensures old(Rest()) != [] ==> byte == Some(old(Rest())[0]) && Rest() == old(Rest())[1..]
    {
      if offset == length {
        var filled := Fill();
        if !filled {
          return None;
        }
      }
      byte := Some(chunk[offset]);
      FirstAndRest(chunk[..], offset, length, source[|source| - remaining..]);
      offset := offset + 1;
    }
  }

  lemma FirstAndRest(s: Text, from: nat, to: nat, tail: Text)
    requires from < to <= |s|
    ensures (s[from..to] + tail)[0] == s[from] && (s[from..to] + tail)[1..] == s[from + 1..to] + tail
  {
  }

  lemma CutAt(s: Text, at: nat, n: nat)
    requires at + n <= |s|
    ensures s[at..] == s[at..at + n] + s[at + n..]
  {
  }

  /** The line buffer and the overflow flag stand for `whole`. */
  ghost predicate Buffered(line: Text, length: nat, overflow: bool, whole: Text) {
    && |line| == LINE_CAP && length == Min(|whole|, LINE_CAP)
    && line[..length] == whole[..length] && (overflow <==> |whole| > LINE_CAP)
  }

  lemma BufferEmpty(line: Text)
    requires |line| == LINE_CAP
    ensures Buffered(line, 0, false, [])
  {
  }

  /** One more byte of a line, dropped when the buffer is full. */
  method PutByte(line: array<Byte>, length: nat, overflow: bool, byte: Byte, ghost whole: Text)
    returns (used: nat, full: bool)
    requires Buffered(line[..], length, overflow, whole)
    modifies line
    ensures Buffered(line[..], used, full, whole + [byte])
  {
    if !overflow && length < LINE_CAP {
      line[length] := byte;
      return length + 1, overflow;
    }
    return length, true;
  }

  /** `accept_line`: what the line buffer and the overflow flag stand for is `whole`. */
  method AcceptLine(store: Store, line: array<Byte>, length: nat, overflow: bool, ghost whole: Text)
    requires store.Valid() && Buffered(line[..], length, overflow, whole)
    modifies store, store.entries
    ensures store.Valid() && store.Contents() == Accept(old(store.Contents()), whole)
  {
    hide Unescape, Payload, Push, LogOk;
    if overflow || length == 0 {
      assert Entry(whole).None?;
      return;
    }
    assert whole[..length] == whole;
    var kept := length;
    if line[kept - 1] == CARRIAGE {
      kept := kept - 1;
    }
    assert line[..kept] == Stripped(whole);
    if kept == 0 {
      return;
    }
    var payload := ExtendedPayload(line[..kept]);
    if payload.Some? {
      var decoded := DecodeEntry(line[..kept], payload.value);
      if decoded.Some? && |decoded.value| != 0 {
        var _ := store.AddCommand(decoded.value, false);
      }
    } else if kept < ENTRY_CAP {
      var _ := store.AddCommand(line[..kept], false);
    }
  }

  /** `load_history`: the byte limit on the loop is never what ends it. */
  method LoadHistory(file: Option<Text>, store: Store) returns (ok: bool)
    requires store.Valid()
    modifies store, store.entries
    ensures ok && store.Valid() && store.Contents() == LoadFile(old(store.Contents()), file)
  {
    if file.None? {
      return true;
    }
    hide LoadLines, LoadText, LineEnd, Accept, Remaining, Buffered, Store.Valid, Store.Contents, Reader.Valid, Reader.Rest;
    var text := Last(file.value, BYTE_CAP);
    var discard := |file.value| > BYTE_CAP;
    var reader := new Reader(text);
    var line := new Byte[LINE_CAP](_ => NUL);
    var length: nat, overflow: bool := 0, false;
    ghost var whole: Text, log := [], store.Contents();
    StartText(log, text, discard);
    BufferEmpty(line[..]);
    for step := 0 to BYTE_CAP + 1
      invariant fresh(line) && fresh(reader) && fresh(reader.chunk) && line != reader.chunk
      invariant store.Valid() && reader.Valid() && |reader.Rest()| == |text| - step
      invariant NEWLINE !in whole && Buffered(line[..], length, overflow, whole)
      invariant LoadText(log, text, |file.value| > BYTE_CAP) ==
                Remaining(store.Contents(), whole, reader.Rest(), discard)
    {
      ghost var rest := reader.Rest();
      var byte := reader.NextByte();
      if byte.None? {
        AtEnd(store.Contents(), whole, discard);
        if !discard {
          AcceptLine(store, line, length, overflow, whole);
        }
        return true;
      }
      assert rest == [byte.value] + reader.Rest();
      length, overflow, discard, whole :=
        TakeByte(store, line, length, overflow, discard, byte.value, whole, reader.Rest());
    }
    return false;
  }

  /** One byte of the loading loop. */
  method TakeByte(store: Store, line: array<Byte>, length: nat, overflow: bool, discard: bool, byte: Byte,
                  ghost whole: Text, ghost rest: Text)
    returns (used: nat, full: bool, skip: bool, ghost partial: Text)
    requires store.Valid() && NEWLINE !in whole && Buffered(line[..], length, overflow, whole)
    modifies store, store.entries, line
    ensures store.Valid() && NEWLINE !in partial && Buffered(line[..], used, full, partial)
    ensures Remaining(old(store.Contents()), whole, [byte] + rest, discard) ==
            Remaining(store.Contents(), partial, rest, skip)
  {
    hide Accept, Remaining, Buffered, Store.Valid, Store.Contents;
    AtByte(store.Contents(), whole, byte, rest, discard);
    used, full, skip, partial := length, overflow, discard, whole;
    if byte == NEWLINE {
      if !discard {
        AcceptLine(store, line, length, overflow, whole);
      }
      used, full, skip, partial := 0, false, false, [];
      StillBuffers(line, length, overflow, whole);
    } else if !discard {
      used, full := PutByte(line, length, overflow, byte, whole);
      partial := whole + [byte];
    }
  }

  lemma StillBuffers(line: array<Byte>, length: nat, overflow: bool, whole: Text)
    requires Buffered(line[..], length, overflow, whole)
    ensures Buffered(line[..], 0, false, [])
  {
  }

  /** What is left to do with a partial line and the rest of the text. */
  ghost function Remaining(log: Log, whole: Text, rest: Text, discard: bool): Log {
    if discard then LoadText(log, rest, true) else LoadLines(log, whole + rest)
  }

  lemma StartText(log: Log, text: Text, discard: bool)
    ensures LoadText(log, text, discard) == Remaining(log, [], text, discard)
  {
    hide LoadLines, LineEnd;
    assert [] + text == text;
  }

  lemma AtEnd(log: Log, whole: Text, discard: bool)
    requires NEWLINE !in whole
    ensures Remaining(log, whole, [], discard) == if discard then log else Accept(log, whole)
  {
    hide LoadLines, Accept;
    assert whole + [] == whole;
    LastLine(log, whole);
  }

  lemma AtByte(log: Log, whole: Text, byte: Byte, rest: Text, discard: bool)
    requires NEWLINE !in whole
    ensures Remaining(log, whole, [byte] + rest, discard) ==
            if byte == NEWLINE then Remaining(if discard then log else Accept(log, whole), [], rest, false)
            else if discard then Remaining(log, whole, rest, true)
            else Remaining(log, whole + [byte], rest, false)
  {
    hide LoadLines, Accept, LineEnd;
    assert [] + rest == rest;
    DiscardStep(log, byte, rest);
    if byte == NEWLINE {
      NextLine(log, whole, rest);
    } else {
      Regroup(whole, [byte], rest);
    }
  }

  /** The store behind a ring: its count, and which entry an event number names. */
  lemma StoreHolds(store: Store)
    requires store.Valid()
    ensures store.count == |store.Contents().entries| <= CAP
    ensures LogOk(store.Contents())
  {
  }

  lemma EventNames(log: Log, k: nat)
    requires LogOk(log) && k < |log.entries|
    ensures EventAt(log, Oldest(log) + k) == Some(log.entries[k]) && Admissible(log.entries[k])
  {
  }

  lemma PushAllNext(log: Log, session: seq<Text>, k: nat, dedup: bool)
    requires k < |session|
    ensures PushAll(log, session[..k + 1], dedup) == Push(PushAll(log, session[..k], dedup), session[k], dedup)
  {
    hide Push;
    assert session[..k + 1][..k] == session[..k];
  }

  lemma PushStores(log: Log, command: Text, dedup: bool)
    requires Admissible(command) && log.next < EVENT_LIMIT
    ensures !PushOutcome(log, command, dedup).Refused? && Push(log, command, dedup).next <= log.next + 1
  {
  }

  lemma FileNext(entries: seq<Text>, k: nat, time: nat)
    requires k < |entries|
    ensures FileOf(entries[..k + 1], time) == FileOf(entries[..k], time) + Row(entries[k], time)
  {
    hide Row;
    assert entries[..k + 1][..k] == entries[..k];
  }

  /** `merge_session`: the session's events, oldest first. */
  method MergeSession(persisted: Store, session: Store, dedup: bool) returns (ok: bool)
    requires persisted.Valid() && session.Valid()
    requires persisted != session && persisted.entries != session.entries
    requires persisted.Contents().next + CAP < EVENT_LIMIT
    modifies persisted, persisted.entries
    ensures ok && persisted.Valid() && session.Valid()
    ensures persisted.Contents() == PushAll(old(persisted.Contents()), session.Contents().entries, dedup)
    ensures session.Contents() == old(session.Contents())
  {
    hide LogOk, PushAll, Push, PushOutcome, EventAt, Admissible, Oldest, Store.Valid, Store.Contents;
    ghost var log, given := persisted.Contents(), session.Contents();
    ghost var added := given.entries;
    StoreHolds(session);
    var oldest, _ := session.EventRange();
    var index := 0;
    assert added[..0] == [];
    PushNothing(log, dedup);
    while index < CAP && index < session.count
      invariant index <= session.count && persisted.Valid() && session.Valid()
      invariant session.Contents() == given && session.count == |added|
      invariant persisted.Contents() == PushAll(log, added[..index], dedup)
      invariant persisted.Contents().next <= log.next + index
    {
      EventNames(given, index);
      var entry := session.Event(oldest + index);
      PushAllNext(log, added, index, dedup);
      PushStores(persisted.Contents(), added[index], dedup);
      var outcome := persisted.AddCommand(entry.value, dedup);
      if outcome.Refused? {
        return false;
      }
      index := index + 1;
    }
    assert added[..index] == added;
    return index == session.count;
  }

  lemma PushNothing(log: Log, dedup: bool)
    ensures PushAll(log, [], dedup) == log
  {
  }

  /** `write_store`: the newest entries, at most `limit` of them. */
  method WriteStore(store: Store, limit: nat, time: nat) returns (output: Option<Text>)
    requires store.Valid() && 0 < limit <= CAP && time < 0x1_0000_0000_0000_0000
    ensures output == Some(FileOf(Last(store.Contents().entries, limit), time))
  {
    hide Last, Line, FileOf, Oldest, Admissible, LogOk, EventAt, Store.Valid, Store.Contents;
    ghost var log := store.Contents();
    StoreHolds(store);
    var retained: nat := if store.count < limit then store.count else limit;
    var first := store.count - retained;
    var oldest, _ := store.EventRange();
    var text: Text := [];
    WrittenNothing(log, limit, time);
    for index := 0 to retained
      invariant text == Written(log, limit, index, time)
    {
      WrittenNext(log, limit, index, time);
      var entry := store.Event(oldest + first + index);
      var line := WriteEntry(entry.value, time);
      text := text + line.value;
    }
    WrittenAll(log, limit, retained, time);
    return Some(text);
  }

  /** The file after the first `k` of the entries that are kept. */
  function Written(log: Log, limit: nat, k: nat, time: nat): Text {
    var kept := Last(log.entries, limit);
    FileOf(kept[..if k < |kept| then k else |kept|], time)
  }

  lemma WrittenNothing(log: Log, limit: nat, time: nat)
    ensures Written(log, limit, 0, time) == []
  {
    hide Last;
    assert Last(log.entries, limit)[..0] == [];
    FileNothing(time);
  }

  /** The next entry kept is the next event's, and it adds its line. */
  lemma WrittenNext(log: Log, limit: nat, k: nat, time: nat)
    requires LogOk(log) && k < |log.entries| && k < limit
    ensures var first := if |log.entries| < limit then 0 else |log.entries| - limit;
      && first + k < |log.entries| && Admissible(log.entries[first + k])
      && EventAt(log, Oldest(log) + first + k) == Some(log.entries[first + k])
      && Written(log, limit, k + 1, time) ==
         Written(log, limit, k, time) + (Line(log.entries[first + k], time) + [NEWLINE])
  {
    var first := if |log.entries| < limit then 0 else |log.entries| - limit;
    EventNames(log, first + k);
    FileNext(Last(log.entries, limit), k, time);
  }

  lemma WrittenAll(log: Log, limit: nat, k: nat, time: nat)
    requires k == Min(|log.entries|, limit)
    ensures Written(log, limit, k, time) == FileOf(Last(log.entries, limit), time)
  {
    var kept := Last(log.entries, limit);
    assert kept[..|kept|] == kept;
  }

  lemma FileNothing(time: nat)
    ensures FileOf([], time) == []
  {
  }

  /** The file the shells of one user share. */
  class SharedFile {
    var content: Option<Text>

    constructor (content: Option<Text>)
      ensures this.content == content
    {
      this.content := content;
    }

    /** `gsh_history_file_save` under the lock; `renamed` tells whether the
        replacement reached its rename. */
    method SaveSession(persisted: Store, session: Store, limit: nat, dedup: bool, time: nat, renamed: bool)
      requires persisted.Valid() && session.Valid()
      requires persisted != session && persisted.entries != session.entries
      requires 0 < limit <= CAP && time < 0x1_0000_0000_0000_0000
      modifies this, persisted, persisted.entries
      ensures persisted.Valid() && session.Valid() && session.Contents() == old(session.Contents())
      ensures content == Save(old(content), Saving(session.Contents().entries, limit, dedup, time, renamed))
    {
      if session.count == 0 {
        return;
      }
      hide LogOk, LoadFile, PushAll, FileOf;
      LoadedOk(content);
      persisted.Reset();
      var loaded := LoadHistory(content, persisted);
      var merged := MergeSession(persisted, session, dedup);
      var output := WriteStore(persisted, limit, time);
      if renamed {
        content := output;
      }
    }
  }
}
