/** The PATH search for external commands (section 8.3 of XBD, POSIX.1-2024). */
module PathSearch {
  import opened Bytes

  const PATH_CAP: nat := 4096
  const SCAN_CAP: nat := 32768
  const COLON: Byte := 58
  const DOT: Byte := 46

  /** The errors are EINVAL, ENAMETOOLONG, E2BIG and ENOSPC. */
  datatype Result = Found(path: Text) | NotFound | Invalid | NameTooLong | PathTooBig | NoSpace

  /** The colon-separated prefixes; an empty PATH has one empty prefix. */
  function Components(path: Text): (dirs: seq<Text>)
    ensures |dirs| > 0
    decreases |path|
  {
    var end := End(path);
    [path[..end]] + if end == |path| then [] else Components(path[end + 1..])
  }

  /** The end of the first component. */
  function End(path: Text): (end: nat)
    ensures end <= |path|
    ensures COLON !in path[..end]
    ensures end < |path| ==> path[end] == COLON
  {
    if path == [] || path[0] == COLON then 0
    else
      var rest := End(path[1..]);
      assert path[..1 + rest] == [path[0]] + path[1..][..rest];
      1 + rest
  }

  function Join(dirs: seq<Text>): Text
    requires |dirs| > 0
  {
    if |dirs| == 1 then dirs[0] else dirs[0] + [COLON] + Join(dirs[1..])
  }

  lemma JoinMore(dir: Text, dirs: seq<Text>)
    requires |dirs| > 0
    ensures Join([dir] + dirs) == dir + [COLON] + Join(dirs)
  {
    assert ([dir] + dirs)[1..] == dirs;
  }

  /** Splitting loses nothing, and no component holds a colon. */
  lemma {:induction false} ComponentsPartition(path: Text)
    ensures Join(Components(path)) == path
    ensures forall k :: 0 <= k < |Components(path)| ==> COLON !in Components(path)[k]
    decreases |path|
  {
    hide End, Join;
    var end := End(path);
    if end < |path| {
      var rest := Components(path[end + 1..]);
      ComponentsPartition(path[end + 1..]);
      JoinMore(path[..end], rest);
      assert path == path[..end] + [COLON] + path[end + 1..];
    } else {
      assert path[..end] == path;
      JoinOne(path);
    }
  }

  lemma JoinOne(dir: Text)
    ensures Join([dir] + []) == dir
  {
  }

  lemma {:induction false} ComponentsWithin(path: Text, b: Byte)
    requires b !in path
    ensures forall k :: 0 <= k < |Components(path)| ==> b !in Components(path)[k]
    decreases |path|
  {
    var end := End(path);
    if end < |path| {
      ComponentsWithin(path[end + 1..], b);
    }
  }

  /** The file a prefix proposes; an empty prefix names the current directory,
      and a path that does not fit its buffer is skipped. */
  function Candidate(dir: Text, name: Text): Option<Text> {
    var used := if dir == [] then 1 else |dir|;
    if |dir| >= PATH_CAP || used + 1 + |name| + 1 > PATH_CAP then None
    else Some((if dir == [] then [DOT] else dir) + [SLASH] + name)
  }

  predicate Usable(executable: Text -> bool, dir: Text, name: Text) {
    Candidate(dir, name).Some? && executable(Candidate(dir, name).value)
  }

  function FirstExecutable(executable: Text -> bool, dirs: seq<Text>, name: Text): Option<Text> {
    if dirs == [] then None
    else if Usable(executable, dirs[0], name) then Candidate(dirs[0], name)
    else FirstExecutable(executable, dirs[1..], name)
  }

  /** The answer is the candidate of the first usable prefix, and there is none
      exactly when no prefix is usable. */
  lemma {:induction false} FirstIsFirst(executable: Text -> bool, dirs: seq<Text>, name: Text)
    ensures match FirstExecutable(executable, dirs, name)
      case None => forall k :: 0 <= k < |dirs| ==> !Usable(executable, dirs[k], name)
      case Some(file) => (exists k ::
        && 0 <= k < |dirs| && Usable(executable, dirs[k], name)
        && file == Candidate(dirs[k], name).value
        && forall j :: 0 <= j < k ==> !Usable(executable, dirs[j], name))
  {
    if dirs != [] && !Usable(executable, dirs[0], name) {
      FirstIsFirst(executable, dirs[1..], name);
      if FirstExecutable(executable, dirs, name).Some? {
        var file := FirstExecutable(executable, dirs, name).value;
        var k :| 0 <= k < |dirs| - 1 && Usable(executable, dirs[1..][k], name) &&
          file == Candidate(dirs[1..][k], name).value &&
          forall j :: 0 <= j < k ==> !Usable(executable, dirs[1..][j], name);
        forall j | 0 <= j < k + 1 ensures !Usable(executable, dirs[j], name) {
          assert j > 0 ==> dirs[j] == dirs[1..][j - 1];
        }
        assert Usable(executable, dirs[k + 1], name);
      }
    }
  }

  /** `gsh_command_search_external`, with the file system as the predicate
      "executable and not a directory". */
  function Search(executable: Text -> bool, name: Text, path: Text): Result {
    if name == [] then Invalid
    else if |name| >= PATH_CAP then NameTooLong
    else if SLASH in name then (if executable(name) then Found(name) else NotFound)
    else if |path| > SCAN_CAP then PathTooBig
    else match FirstExecutable(executable, Components(path), name)
      case Some(file) => Found(file)
      case None => NotFound
  }

  /** Prefix `dir` opens `file`: the two are joined by one slash, with the current
      directory for an empty prefix, and the path with its NUL fits 4096 bytes. */
  predicate Opens(executable: Text -> bool, dir: Text, name: Text, file: Text) {
    && file == (if dir == [] then [DOT, SLASH] + name else dir + [SLASH] + name)
    && |file| < PATH_CAP && executable(file)
  }

  /** Prefix `k` opens `file`, and none before it opens any. */
  ghost predicate OpensFirst(executable: Text -> bool, dirs: seq<Text>, k: nat, name: Text, file: Text) {
    && k < |dirs| && Opens(executable, dirs[k], name, file)
    && forall j, other :: 0 <= j < k ==> !Opens(executable, dirs[j], name, other)
  }

  ghost predicate FirstOpens(executable: Text -> bool, dirs: seq<Text>, name: Text, file: Text) {
    exists k: nat :: OpensFirst(executable, dirs, k, name, file)
  }

  ghost predicate NoneOpens(executable: Text -> bool, dirs: seq<Text>, name: Text) {
    forall k, other :: 0 <= k < |dirs| ==> !Opens(executable, dirs[k], name, other)
  }

  lemma {:induction false} FirstIsOpened(executable: Text -> bool, dirs: seq<Text>, name: Text, file: Text)
    ensures FirstExecutable(executable, dirs, name).None? <==> NoneOpens(executable, dirs, name)
    ensures FirstExecutable(executable, dirs, name) == Some(file) <==> FirstOpens(executable, dirs, name, file)
  {
    hide Usable, Opens, Candidate;
    if dirs != [] {
      OpensIsUsable(executable, dirs[0], name);
      if Usable(executable, dirs[0], name) {
        var first := Candidate(dirs[0], name).value;
        assert OpensFirst(executable, dirs, 0, name, first);
        forall k: nat | OpensFirst(executable, dirs, k, name, file) ensures k == 0 {
        }
      } else {
        FirstIsOpened(executable, dirs[1..], name, file);
        NoneOfMore(executable, dirs, name);
        if k: nat :| OpensFirst(executable, dirs[1..], k, name, file) {
          OneMoreDir(executable, dirs, k, name, file);
        }
        if k: nat :| OpensFirst(executable, dirs, k, name, file) {
          assert k > 0;
          OneMoreDir(executable, dirs, k - 1, name, file);
        }
      }
    }
  }

  lemma NoneOfMore(executable: Text -> bool, dirs: seq<Text>, name: Text)
    requires dirs != [] && forall file :: !Opens(executable, dirs[0], name, file)
    ensures NoneOpens(executable, dirs, name) <==> NoneOpens(executable, dirs[1..], name)
  {
    hide Opens;
    if NoneOpens(executable, dirs, name) {
      forall k, other | 0 <= k < |dirs| - 1 ensures !Opens(executable, dirs[1..][k], name, other) {
        assert !Opens(executable, dirs[k + 1], name, other);
      }
    }
    if NoneOpens(executable, dirs[1..], name) {
      forall k, other | 0 <= k < |dirs| ensures !Opens(executable, dirs[k], name, other) {
        if k > 0 {
          assert !Opens(executable, dirs[1..][k - 1], name, other);
        }
      }
    }
  }

  lemma OneMoreDir(executable: Text -> bool, dirs: seq<Text>, k: nat, name: Text, file: Text)
    requires dirs != [] && forall other :: !Opens(executable, dirs[0], name, other)
    ensures OpensFirst(executable, dirs, k + 1, name, file) <==> OpensFirst(executable, dirs[1..], k, name, file)
  {
    hide Opens;
    if OpensFirst(executable, dirs, k + 1, name, file) {
      forall j, other | 0 <= j < k ensures !Opens(executable, dirs[1..][j], name, other) {
        assert !Opens(executable, dirs[j + 1], name, other);
      }
    }
    if OpensFirst(executable, dirs[1..], k, name, file) {
      forall j, other | 0 <= j < k + 1 ensures !Opens(executable, dirs[j], name, other) {
        if j > 0 {
          assert !Opens(executable, dirs[1..][j - 1], name, other);
        }
      }
    }
  }

  /** A name without a slash is the file that the first prefix of PATH to open one opens,
      and it is not found exactly when no prefix opens any; a name with a slash is itself
      that file. */
  lemma SearchIsFirstOpened(executable: Text -> bool, name: Text, path: Text, file: Text)
    requires 0 < |name| < PATH_CAP && |path| <= SCAN_CAP
    ensures SLASH !in name ==>
      && (Search(executable, name, path) == Found(file) <==> FirstOpens(executable, Components(path), name, file))
      && (Search(executable, name, path) == NotFound <==> NoneOpens(executable, Components(path), name))
    ensures SLASH in name ==>
      && (Search(executable, name, path) == Found(file) <==> file == name && executable(file))
      && (Search(executable, name, path) == NotFound <==> !executable(name))
  {
    FirstIsOpened(executable, Components(path), name, file);
    hide Components, FirstExecutable, NoneOpens, FirstOpens;
  }

  lemma OpensIsUsable(executable: Text -> bool, dir: Text, name: Text)
    ensures Usable(executable, dir, name) ==>
      Candidate(dir, name).Some? && Opens(executable, dir, name, Candidate(dir, name).value)
    ensures forall file :: Opens(executable, dir, name, file) ==>
      Usable(executable, dir, name) && file == Candidate(dir, name).value
  {
    assert [DOT] + [SLASH] + name == [DOT, SLASH] + name;
  }

  /** The scanning loop.  Its component count never ends it: the last return is
      not taken on any input, as the agreement with `Search` shows. */
  method SearchExternal(executable: Text -> bool, name: Text, path: Text) returns (r: Result)
    ensures r == Search(executable, name, path)
  {
    hide FirstExecutable, Components, Candidate, End;
    if name == [] {
      return Invalid;
    }
    if |name| >= PATH_CAP {
      return NameTooLong;
    }
    if SLASH in name {
      return if executable(name) then Found(name) else NotFound;
    }
    if |path| > SCAN_CAP {
      return PathTooBig;
    }
    var offset, components := 0, 0;
    assert path[0..] == path;
    while offset <= |path| && components <= SCAN_CAP
      invariant components <= offset <= |path|
      invariant FirstExecutable(executable, Components(path), name) ==
                FirstExecutable(executable, Components(path[offset..]), name)
      decreases |path| - offset
    {
      var end := ComponentEnd(path, offset);
      SearchStep(executable, path, offset, end, name);
      var candidate := if end - offset < PATH_CAP then Candidate(path[offset..end], name) else None;
      if candidate.Some? && executable(candidate.value) {
        return Found(candidate.value);
      }
      if end == |path| {
        return NotFound;
      }
      offset, components := end + 1, components + 1;
    }
    return PathTooBig;
  }

  method ComponentEnd(path: Text, offset: nat) returns (end: nat)
    requires offset <= |path|
    ensures offset <= end <= |path| && end == offset + End(path[offset..])
  {
    end := offset;
    while end < |path| && path[end] != COLON
      invariant offset <= end <= |path|
      invariant End(path[offset..]) == end - offset + End(path[end..])
    {
      assert path[end..][1..] == path[end + 1..];
      end := end + 1;
    }
  }

  lemma SearchStep(executable: Text -> bool, path: Text, offset: nat, end: nat, name: Text)
    requires offset <= end <= |path| && end == offset + End(path[offset..])
    ensures FirstExecutable(executable, Components(path[offset..]), name) ==
      if Usable(executable, path[offset..end], name) then Candidate(path[offset..end], name)
      else if end == |path| then None
      else FirstExecutable(executable, Components(path[end + 1..]), name)
    ensures end - offset >= PATH_CAP ==> Candidate(path[offset..end], name) == None
  {
    hide Components, End, Candidate;
    var rest := path[offset..];
    var tail := if end == |path| then [] else Components(path[end + 1..]);
    ComponentsBegin(rest);
    assert rest[..end - offset] == path[offset..end];
    if end < |path| {
      assert rest[end - offset + 1..] == path[end + 1..];
    }
    assert Components(rest)[1..] == tail;
    TooLong(path[offset..end], name);
  }

  lemma ComponentsBegin(path: Text)
    ensures Components(path) ==
      [path[..End(path)]] + (if End(path) == |path| then [] else Components(path[End(path) + 1..]))
  {
    hide End;
  }

  lemma TooLong(dir: Text, name: Text)
    ensures |dir| >= PATH_CAP ==> Candidate(dir, name) == None
  {
  }
}
