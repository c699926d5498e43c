/** The remembered locations of external commands: a bounded cache that behaves
    as a partial map from names to paths and never changes what a PATH search
    would answer. */
module CommandCache {
  import opened Bytes
  import opened CacheIndex
  import opened Pigeonhole
  import opened CacheLayout
  import opened PathSearch

  // ----- the abstract cache -----

  /** The map a list of pairs stands for. */
  function ToMap(pairs: seq<Pair>): map<Text, Text> {
    if pairs == [] then map[]
    else ToMap(pairs[..|pairs| - 1])[pairs[|pairs| - 1].name := pairs[|pairs| - 1].path]
  }

  predicate Has(pairs: seq<Pair>, name: Text) {
    exists i :: 0 <= i < |pairs| && pairs[i].name == name
  }

  function IndexOf(pairs: seq<Pair>, name: Text): (i: nat)
    requires Has(pairs, name)
    ensures i < |pairs| && pairs[i].name == name
  {
    if pairs[|pairs| - 1].name == name then |pairs| - 1
    else
      var i :| 0 <= i < |pairs| && pairs[i].name == name;
      assert pairs[..|pairs| - 1][i].name == name;
      IndexOf(pairs[..|pairs| - 1], name)
  }

  lemma {:induction false} MapKeys(pairs: seq<Pair>, name: Text)
    ensures name in ToMap(pairs) <==> Has(pairs, name)
  {
    if pairs != [] {
      var front, last := pairs[..|pairs| - 1], pairs[|pairs| - 1];
      MapKeys(front, name);
      assert pairs == front + [last];
      if i :| 0 <= i < |front| && front[i].name == name {
        assert pairs[i].name == name;
      }
    }
  }

  lemma {:induction false} MapAt(pairs: seq<Pair>, i: nat)
    requires UniqueNames(pairs) && i < |pairs|
    ensures pairs[i].name in ToMap(pairs) && ToMap(pairs)[pairs[i].name] == pairs[i].path
  {
    if i < |pairs| - 1 {
      MapAt(pairs[..|pairs| - 1], i);
    }
  }

  /** Removing an entry deletes its key and nothing else. */
  lemma WithoutDeletesKey(pairs: seq<Pair>, k: nat)
    requires UniqueNames(pairs) && k < |pairs|
    ensures ToMap(Without(pairs, k)) == ToMap(pairs) - {pairs[k].name}
    ensures UniqueNames(Without(pairs, k))
  {
    hide ToMap;
    var rest := Without(pairs, k);
    var expected := ToMap(pairs) - {pairs[k].name};
    WithoutUnique(pairs, k);
    hide CacheLayout.UniqueNames;
    forall name
      ensures name in ToMap(rest) <==> name in expected
      ensures name in ToMap(rest) ==> ToMap(rest)[name] == ToMap(pairs)[name]
    {
      WithoutAt(pairs, k, name);
    }
  }

  lemma WithoutAt(pairs: seq<Pair>, k: nat, name: Text)
    requires UniqueNames(pairs) && k < |pairs| && UniqueNames(Without(pairs, k))
    ensures name in ToMap(Without(pairs, k)) <==> name in ToMap(pairs) && name != pairs[k].name
    ensures name in ToMap(Without(pairs, k)) ==> ToMap(Without(pairs, k))[name] == ToMap(pairs)[name]
  {
    hide ToMap, CacheLayout.UniqueNames, Has;
    var rest := Without(pairs, k);
    MapKeys(pairs, name);
    MapKeys(rest, name);
    WithoutHas(pairs, k, name);
    if Has(rest, name) {
      var i := WithoutIndex(pairs, k, name);
      MapAt(rest, i);
      MapAt(pairs, if i < k then i else i + 1);
    }
  }

  lemma WithoutHas(pairs: seq<Pair>, k: nat, name: Text)
    requires UniqueNames(pairs) && k < |pairs|
    ensures Has(Without(pairs, k), name) <==> Has(pairs, name) && name != pairs[k].name
  {
    var rest := Without(pairs, k);
    if Has(pairs, name) && name != pairs[k].name {
      var i :| 0 <= i < |pairs| && pairs[i].name == name;
      assert rest[if i < k then i else i - 1].name == name;
    }
    if Has(rest, name) {
      var i := WithoutIndex(pairs, k, name);
    }
  }

  lemma WithoutIndex(pairs: seq<Pair>, k: nat, name: Text) returns (i: nat)
    requires UniqueNames(pairs) && k < |pairs| && Has(Without(pairs, k), name)
    ensures i < |pairs| - 1 && Without(pairs, k)[i].name == name
    ensures Without(pairs, k)[i] == pairs[if i < k then i else i + 1]
    ensures Has(pairs, name) && name != pairs[k].name
  {
    i :| 0 <= i < |Without(pairs, k)| && Without(pairs, k)[i].name == name;
    var j := if i < k then i else i + 1;
    assert pairs[j].name == name;
    assert if j < k then pairs[j].name != pairs[k].name else pairs[k].name != pairs[j].name;
  }

  /** A stored pair adds its key to the map. */
  lemma StoreAddsKey(pairs: seq<Pair>, p: Pair)
    ensures ToMap(pairs + [p]) == ToMap(pairs)[p.name := p.path]
  {
    assert (pairs + [p])[..|pairs|] == pairs;
  }

  datatype Remembered = Stored | Present | Rejected | Full

  /** What remembering a pair does: EINVAL and ENOSPC leave the list alone. */
  function Remember(pairs: seq<Pair>, p: Pair): (r: (Remembered, seq<Pair>))
    ensures r.0 != Stored ==> r.1 == pairs
  {
    if !Storable(p) || |Cell(p)| > TEXT_CAP then (Rejected, pairs)
    else if Has(pairs, p.name) then (Present, pairs)
    else if |pairs| >= CAP || |Arena(pairs)| + |Cell(p)| > TEXT_CAP then (Full, pairs)
    else (Stored, pairs + [p])
  }

  datatype Resolved = Resolved(result: Result, pairs: seq<Pair>, changed: bool)

  /** `gsh_command_cache_resolve` on the list of pairs; `stale` says that the
      PATH generation differs from the observed one. */
  function Resolve(pairs: seq<Pair>, stale: bool, executable: Text -> bool, name: Text, path: Text, require: bool): Resolved {
    var current := if stale then [] else pairs;
    if name == [] || |name| >= PATH_CAP || SLASH in name then
      Resolved(Search(executable, name, path), current, stale)
    else if Has(current, name) && executable(current[IndexOf(current, name)].path) then
      Resolved(Found(current[IndexOf(current, name)].path), current, stale)
    else
      var kept := if Has(current, name) then Without(current, IndexOf(current, name)) else current;
      var dropped := stale || Has(current, name);
      match Search(executable, name, path)
      case Found(file) =>
        var (outcome, stored) := Remember(kept, Pair(name, file));
        if outcome.Stored? || outcome.Present? then Resolved(Found(file), stored, true)
        else Resolved(if !require then Found(file) else if outcome.Full? then NoSpace else Invalid, kept, dropped)
      case other => Resolved(other, kept, dropped)
  }

  // ----- the cache never changes an answer -----

  /** Every remembered path is what a search of this PATH finds. */
  ghost predicate Agrees(pairs: seq<Pair>, executable: Text -> bool, path: Text) {
    forall i :: 0 <= i < |pairs| ==> Search(executable, pairs[i].name, path) == Found(pairs[i].path)
  }

  lemma SearchFindsUsable(executable: Text -> bool, name: Text, path: Text)
    ensures Search(executable, name, path).Found? ==> executable(Search(executable, name, path).path)
  {
    FirstIsFirst(executable, Components(path), name);
  }

  /** The answer is the search's; only a caller that requires the command to be
      remembered learns instead that the one found cannot be. */
  predicate Answered(answer: Result, search: Result, require: bool) {
    answer == search || (require && search.Found? && answer in {NoSpace, Invalid})
  }

  /** With a fixed file system and an agreeing cache, resolving answers the PATH
      search, and the cache still agrees. */
  lemma ResolveIsSearch(pairs: seq<Pair>, stale: bool, executable: Text -> bool, name: Text, path: Text, require: bool)
    requires !stale ==> Agrees(pairs, executable, path)
    ensures var r := Resolve(pairs, stale, executable, name, path, require);
      && Agrees(r.pairs, executable, path)
      && Answered(r.result, Search(executable, name, path), require)
  {
    hide PathSearch.Search, Storable, Arena, Cell;
    SearchFindsUsable(executable, name, path);
    var current := if stale then [] else pairs;
    if Has(current, name) {
      assert current[IndexOf(current, name)].name == name;
    }
  }

  // ----- what is remembered -----

  /** A name that is searched for and may be remembered. */
  predicate Bare(name: Text) {
    0 < |name| < PATH_CAP && SLASH !in name
  }

  /** The list has room for one more pair. */
  predicate Room(pairs: seq<Pair>, p: Pair) {
    Storable(p) && |pairs| < CAP && |Arena(pairs)| + |Cell(p)| <= TEXT_CAP
  }

  predicate Remembers(pairs: seq<Pair>, name: Text, file: Text) {
    Has(pairs, name) && pairs[IndexOf(pairs, name)].path == file
  }

  lemma RememberIsRoom(pairs: seq<Pair>, p: Pair)
    requires !Has(pairs, p.name)
    ensures var (outcome, stored) := Remember(pairs, p);
      && (Room(pairs, p) ==> outcome.Stored? && stored == pairs + [p] && Remembers(stored, p.name, p.path))
      && (!Room(pairs, p) ==> (outcome.Rejected? || outcome.Full?) && stored == pairs)
  {
    LastIsRemembered(pairs, p);
    hide Storable, Arena, Cell, Has, IndexOf;
  }

  /** A command that must be remembered is, if it is found and answered; and it is found
      but not answered only when the list as it is left has no room for it. */
  lemma RequiredIsRemembered(pairs: seq<Pair>, stale: bool, executable: Text -> bool, name: Text, path: Text)
    requires Bare(name) && UniqueNames(pairs)
    ensures var r, search := Resolve(pairs, stale, executable, name, path, true), Search(executable, name, path);
      && (r.result.Found? ==> Remembers(r.pairs, name, r.result.path) && executable(r.result.path))
      && (r.result.NoSpace? || r.result.Invalid? ==> search.Found? && !Room(r.pairs, Pair(name, search.path)))
  {
    SearchFindsUsable(executable, name, path);
    BareIsSearched(executable, name, path);
    hide PathSearch.Search, CacheLayout.UniqueNames, IndexOf, Has, Room, Remember, Without;
    var current, search := if stale then [] else pairs, Search(executable, name, path);
    NothingUnique();
    if Has(current, name) {
      WithoutHas(current, IndexOf(current, name), name);
    }
    if search.Found? {
      RememberIsRoom(if Has(current, name) then Without(current, IndexOf(current, name)) else current, Pair(name, search.path));
    }
  }

  lemma NothingUnique()
    ensures UniqueNames([])
  {
  }

  lemma BareIsSearched(executable: Text -> bool, name: Text, path: Text)
    requires Bare(name)
    ensures var search := Search(executable, name, path); !search.NoSpace? && !search.Invalid?
  {
    hide FirstExecutable, Components;
  }

  lemma LastIsRemembered(pairs: seq<Pair>, p: Pair)
    ensures Remembers(pairs + [p], p.name, p.path)
  {
    assert (pairs + [p])[|pairs|].name == p.name;
  }

  /** With room for it any command that is found is remembered. */
  lemma RoomIsUsed(pairs: seq<Pair>, stale: bool, executable: Text -> bool, name: Text, path: Text, require: bool)
    requires Bare(name) && UniqueNames(pairs)
    ensures var r := Resolve(pairs, stale, executable, name, path, require);
      r.result.Found? && Room(pairs, Pair(name, r.result.path)) ==> Remembers(r.pairs, name, r.result.path)
  {
    hide PathSearch.Search, Storable, Arena, Cell, CacheLayout.UniqueNames, IndexOf, Has, Remember, Without;
    var current, search := if stale then [] else pairs, Search(executable, name, path);
    NothingUnique();
    NoArena();
    var kept := current;
    if Has(current, name) {
      kept := Without(current, IndexOf(current, name));
      WithoutHas(current, IndexOf(current, name), name);
      WithoutIsShorter(current, IndexOf(current, name));
    }
    if search.Found? {
      RememberIsRoom(kept, Pair(name, search.path));
    }
  }

  lemma NoArena()
    ensures Arena([]) == []
  {
  }

  lemma WithoutIsShorter(pairs: seq<Pair>, k: nat)
    requires k < |pairs|
    ensures |Without(pairs, k)| < |pairs| && |Arena(Without(pairs, k))| <= |Arena(pairs)|
  {
    hide Cell, Arena;
    RemovedArena(pairs, k);
  }

  /** What is remembered is answered from memory, whatever PATH is by then, for as long as
      the file stays executable. */
  lemma RememberedIsAnswered(pairs: seq<Pair>, executable: Text -> bool, name: Text, file: Text, path: Text, require: bool)
    requires Bare(name) && Remembers(pairs, name, file) && executable(file)
    ensures Resolve(pairs, false, executable, name, path, require) == Resolved(Found(file), pairs, false)
  {
    hide PathSearch.Search, Storable, Arena, Cell, IndexOf, Has;
  }

  // ----- runs -----

  datatype Operation =
    | Sync(generation: nat)
    | Clear(generation: nat)
    | Command(generation: nat, name: Text, require: bool)
    | Rebind(final: nat, parent: nat)

  datatype Model = Model(pairs: seq<Pair>, generation: nat)

  /** `gsh_command_cache_sync` and `gsh_command_cache_rebind`. */
  function Synced(m: Model, generation: nat): Model {
    Model(if generation == m.generation then m.pairs else [], generation)
  }

  function Rebound(m: Model, final: nat, parent: nat): Model {
    Model(if m.generation == final then m.pairs else [], parent)
  }

  /** One public operation; `pathOf` gives the PATH value of each generation. */
  function Step(m: Model, op: Operation, executable: Text -> bool, pathOf: nat -> Text): (Model, Option<Result>) {
    match op
    case Sync(g) => (Synced(m, g), None)
    case Clear(g) => (Model([], g), None)
    case Command(g, name, require) =>
      var r := Resolve(m.pairs, g != m.generation, executable, name, pathOf(g), require);
      (Model(r.pairs, g), Some(r.result))
    case Rebind(final, parent) => (Rebound(m, final, parent), None)
  }

  /** The answers of a run from a fresh cache, in order. */
  function Answers(m: Model, ops: seq<Operation>, executable: Text -> bool, pathOf: nat -> Text): seq<Result>
    decreases |ops|
  {
    if ops == [] then []
    else
      var (next, answer) := Step(m, ops[0], executable, pathOf);
      (if answer.Some? then [answer.value] else []) + Answers(next, ops[1..], executable, pathOf)
  }

  /** The commands of a run, in order. */
  function Commands(ops: seq<Operation>): (commands: seq<Operation>)
    ensures forall i :: 0 <= i < |commands| ==> commands[i].Command?
  {
    if ops == [] then []
    else (if ops[0].Command? then [ops[0]] else []) + Commands(ops[1..])
  }

  /** Over every run of syncs, clears, commands and rebinds the cache is invisible:
      with a fixed file system, a PATH value for each generation, and rebinds that keep
      the PATH value, every command gets the answer of a search of PATH made then,
      whatever the commands before it required. */
  lemma {:induction false} CacheIsInvisible(m: Model, ops: seq<Operation>, executable: Text -> bool, pathOf: nat -> Text)
    requires Agrees(m.pairs, executable, pathOf(m.generation))
    requires forall op :: op in ops && op.Rebind? ==> pathOf(op.final) == pathOf(op.parent)
    ensures var answers, commands := Answers(m, ops, executable, pathOf), Commands(ops);
      && |answers| == |commands|
      && forall i :: 0 <= i < |answers| ==>
           Answered(answers[i], Search(executable, commands[i].name, pathOf(commands[i].generation)), commands[i].require)
    decreases |ops|
  {
    hide Resolve, PathSearch.Search, Answered;
    if ops != [] {
      var op := ops[0];
      if op.Command? {
        ResolveIsSearch(m.pairs, op.generation != m.generation, executable, op.name, pathOf(op.generation), op.require);
      }
      CacheIsInvisible(Step(m, op, executable, pathOf).0, ops[1..], executable, pathOf);
    }
  }

  /** Without `require` the answers are exactly those of the searches. */
  lemma UnrequiredAnswers(m: Model, ops: seq<Operation>, executable: Text -> bool, pathOf: nat -> Text, i: nat)
    requires Agrees(m.pairs, executable, pathOf(m.generation))
    requires forall op :: op in ops && op.Rebind? ==> pathOf(op.final) == pathOf(op.parent)
    requires i < |Commands(ops)| && !Commands(ops)[i].require
    ensures i < |Answers(m, ops, executable, pathOf)|
    ensures Answers(m, ops, executable, pathOf)[i] ==
            Search(executable, Commands(ops)[i].name, pathOf(Commands(ops)[i].generation))
  {
    hide Answers, Commands, PathSearch.Search, Agrees;
    CacheIsInvisible(m, ops, executable, pathOf);
  }

  /** An operation under which the PATH generation stays what it was observed to be. */
  predicate KeepsGeneration(m: Model, op: Operation) {
    match op
    case Sync(g) => g == m.generation
    case Clear(_) => false
    case Command(g, _, _) => g == m.generation
    case Rebind(final, _) => final == m.generation
  }

  /** While the generation stays, no operation forgets a remembered command whose file is
      still executable; when it changes, at most the command that is resolved then is
      remembered. */
  lemma MemoryLastsAGeneration(m: Model, op: Operation, executable: Text -> bool, pathOf: nat -> Text, name: Text, file: Text)
    requires UniqueNames(m.pairs)
    ensures var next := Step(m, op, executable, pathOf).0.pairs;
      && (KeepsGeneration(m, op) && Remembers(m.pairs, name, file) && executable(file) ==> Remembers(next, name, file))
      && (!KeepsGeneration(m, op) ==> forall i :: 0 <= i < |next| ==> op.Command? && next[i].name == op.name)
  {
    hide PathSearch.Search, Storable, Arena, Cell, CacheLayout.UniqueNames, IndexOf, Has, Remembers;
    if op.Command? {
      var current := if op.generation != m.generation then [] else m.pairs;
      var path := pathOf(op.generation);
      if KeepsGeneration(m, op) && Remembers(m.pairs, name, file) && executable(file) {
        ResolveKeeps(current, executable, op.name, path, op.require, name, file);
      }
      NothingHad(op.name);
      ResolveFromNothing(executable, op.name, path, op.require);
    }
  }

  lemma NothingHad(name: Text)
    ensures !Has([], name)
  {
  }

  lemma ResolveFromNothing(executable: Text -> bool, name: Text, path: Text, require: bool)
    ensures var r := Resolve([], true, executable, name, path, require);
      forall i :: 0 <= i < |r.pairs| ==> r.pairs[i].name == name
    ensures forall pairs :: Resolve(pairs, true, executable, name, path, require) == Resolve([], true, executable, name, path, require)
  {
    hide PathSearch.Search, Storable, Arena, Cell;
  }

  lemma ResolveKeeps(pairs: seq<Pair>, executable: Text -> bool, other: Text, path: Text, require: bool, name: Text, file: Text)
    requires UniqueNames(pairs) && Remembers(pairs, name, file) && executable(file)
    ensures Remembers(Resolve(pairs, false, executable, other, path, require).pairs, name, file)
  {
    hide PathSearch.Search, Storable, Arena, Cell, CacheLayout.UniqueNames, IndexOf, Has;
    var search := Search(executable, other, path);
    var p := Pair(other, if search.Found? then search.path else []);
    if Has(pairs, other) && !executable(pairs[IndexOf(pairs, other)].path) {
      var k := IndexOf(pairs, other);
      WithoutKeeps(pairs, k, name, file);
      WithoutHas(pairs, k, other);
      MoreKeeps(Without(pairs, k), p, name, file);
    } else if !Has(pairs, other) {
      MoreKeeps(pairs, p, name, file);
    }
  }

  lemma WithoutKeeps(pairs: seq<Pair>, k: nat, name: Text, file: Text)
    requires UniqueNames(pairs) && k < |pairs| && Remembers(pairs, name, file) && pairs[k].name != name
    ensures Remembers(Without(pairs, k), name, file)
  {
    hide CacheLayout.UniqueNames, Has, IndexOf, ToMap;
    WithoutHas(pairs, k, name);
    WithoutUnique(pairs, k);
    var rest := Without(pairs, k);
    var i, j := IndexOf(rest, name), IndexOf(pairs, name);
    MapAt(rest, i);
    MapAt(pairs, j);
    WithoutAt(pairs, k, name);
  }

  lemma MoreKeeps(pairs: seq<Pair>, p: Pair, name: Text, file: Text)
    requires Remembers(pairs, name, file) && p.name != name
    ensures Remembers(pairs + [p], name, file)
  {
    assert (pairs + [p])[IndexOf(pairs, name)].name == name;
    assert (pairs + [p])[..|pairs|] == pairs;
  }

  // ----- array helpers -----

  /** `memset` on part of an array. */
  method Fill<T>(a: array<T>, from: nat, to: nat, value: T)
    requires from <= to <= a.Length
    modifies a
    ensures forall k :: 0 <= k < a.Length ==> a[k] == if from <= k < to then value else old(a[k])
  {
    for k := from to to
      invariant forall j :: 0 <= j < a.Length ==> a[j] == if from <= j < k then value else old(a[j])
    {
      a[k] := value;
    }
  }

  /** `memmove` towards the front: a[from..limit] to position `to`. */
  method MoveDown<T>(a: array<T>, to: nat, from: nat, limit: nat)
    requires to <= from <= limit <= a.Length
    modifies a
    ensures a[..to + limit - from] == old(a[..to]) + old(a[from..limit])
    ensures a[to + limit - from..] == old(a[to + limit - from..])
  {
    for k := to to to + limit - from
      invariant forall j :: 0 <= j < a.Length ==>
        a[j] == if to <= j < k then old(a[j + from - to]) else old(a[j])
    {
      a[k] := a[k + from - to];
    }
  }

  // ----- the concrete cache -----

  class Cache {
    var version: nat
    var count: nat
    var used: nat
    var reserved: nat
    var generation: nat
    const entries: array<Entry>
    const slots: array<nat>
    const text: array<Byte>
    /** The remembered commands, oldest first. */
    ghost var pairs: seq<Pair>

    ghost predicate Shape()
    {
      && entries.Length == CAP && slots.Length == HASH_CAP && text.Length == TEXT_CAP
      && slots as object != text && entries as object != text && entries as object != slots
    }

    ghost function View(): State
      reads this, entries, slots, text
    {
      State(version, count, used, reserved, generation, entries[..], slots[..], text[..])
    }

    ghost predicate Valid()
      reads this, entries, slots, text
    {
      Shape() && Rep(View(), pairs) && Clean(View())
    }

    constructor (generation: nat)
      ensures Valid() && pairs == [] && this.generation == generation
      ensures fresh(entries) && fresh(slots) && fresh(text)
    {
      entries := new Entry[CAP](_ => BLANK);
      slots := new nat[HASH_CAP](_ => 0);
      text := new Byte[TEXT_CAP](_ => NUL);
      version, count, used, reserved := VERSION, 0, 0, 0;
      this.generation := generation;
      pairs := [];
      new;
      assert Entries([]) == [] == entries[..0] && Hashes([]) == [];
      EmptyIsGood(slots[..]);
    }

    /** `gsh_command_cache_initialize`, which also clears. */
    method Initialize(generation: nat)
      requires Shape()
      modifies this, entries, slots, text
      ensures Valid() && pairs == [] && this.generation == generation
    {
      Fill(entries, 0, CAP, BLANK);
      Fill(slots, 0, HASH_CAP, 0);
      Fill(text, 0, TEXT_CAP, NUL);
      version, count, used, reserved := VERSION, 0, 0, 0;
      this.generation := generation;
      pairs := [];
      assert Entries([]) == [] == entries[..0] && Hashes([]) == [];
      EmptyIsGood(slots[..]);
    }

    method SyncGeneration(generation: nat) returns (cleared: bool)
      requires Valid()
      modifies this, entries, slots, text
      ensures Valid() && this.generation == generation
      ensures cleared <==> old(this.generation) != generation
      ensures Model(pairs, this.generation) == Synced(Model(old(pairs), old(this.generation)), generation)
    {
      if this.generation == generation {
        return false;
      }
      Initialize(generation);
      return true;
    }

    method RebindGeneration(final: nat, parent: nat)
      requires Valid()
      modifies this, entries, slots, text
      ensures Valid() && Model(pairs, generation) == Rebound(Model(old(pairs), old(generation)), final, parent)
    {
      if generation != final {
        Initialize(parent);
      } else {
        generation := parent;
      }
    }

    /** `cache_index`: probe until the name, an empty slot, or all slots. */
    method Index(name: Text, hash: nat) returns (i: nat)
      requires Shape()
      ensures i == FindFrom(View(), name, hash, 0)
    {
      hide CacheLayout.FindFrom, CacheIndex.Probe;
      ghost var st := View();
      var slot, probes := hash % HASH_CAP, 0;
      ProbeHome(hash);
      while probes < HASH_CAP
        invariant 0 <= probes <= HASH_CAP && slot == Probe(hash, probes)
        invariant FindFrom(st, name, hash, 0) == FindFrom(st, name, hash, probes)
      {
        FindStep(st, name, hash, probes);
        var encoded := slots[slot];
        if encoded == 0 {
          return CAP;
        }
        if encoded - 1 < count {
          var matches := Matches(encoded - 1, name, hash);
          if matches {
            return encoded - 1;
          }
        }
        slot, probes := (slot + 1) % HASH_CAP, probes + 1;
      }
      FindEnd(st, name, hash);
      return CAP;
    }

    /** `entry_matches`. */
    method Matches(i: nat, name: Text, hash: nat) returns (b: bool)
      requires Shape()
      ensures b <==> EntryMatches(View(), i, name, hash)
    {
      if i >= entries.Length {
        return false;
      }
      var entry := entries[i];
      if entry.hash != hash || entry.nameLength != |name| || entry.nameOffset >= used {
        return false;
      }
      if entry.nameOffset + |name| > text.Length {
        return false;
      }
      assert text[..][entry.nameOffset..entry.nameOffset + |name|] == text[entry.nameOffset..entry.nameOffset + |name|];
      return text[entry.nameOffset..entry.nameOffset + |name|] == name;
    }

    /** `rebuild_hash`: empty the table and index every entry again. */
    method RebuildHash(ghost hashes: seq<nat>)
      requires Shape() && count == |hashes| <= CAP
      requires forall i :: 0 <= i < count ==> entries[i].hash == hashes[i]
      modifies slots
      ensures Good(slots[..], hashes)
    {
      hide CacheIndex.Good, CacheIndex.FirstEmpty, CacheIndex.Probe;
      Fill(slots, 0, HASH_CAP, 0);
      EmptyIsGood(slots[..]);
      assert hashes[..0] == [];
      for index := 0 to count
        invariant Good(slots[..], hashes[..index])
      {
        RoomToInsert(slots[..], hashes[..index], entries[index].hash);
        InsertKeepsGood(slots[..], hashes[..index], entries[index].hash);
        assert hashes[..index + 1] == hashes[..index] + [hashes[index]];
        var ok := InsertHashSlot(slots, entries[index].hash, index);
      }
      assert hashes[..count] == hashes;
    }

    /** Lower the offsets of the entries that lay behind the removed bytes. */
    method ShiftOffsets(begin: nat, removed: nat, ghost all: seq<Pair>, ghost k: nat)
      requires Shape() && k < |all| <= CAP && count == |all| - 1
      requires begin == Offset(all, k) && removed == |Cell(all[k])|
      requires forall i :: 0 <= i < count ==> entries[i] == Entries(all)[if i < k then i else i + 1]
      modifies entries
      ensures forall i :: 0 <= i < count ==> entries[i] == Entries(Without(all, k))[i]
      ensures entries[count..] == old(entries[count..])
    {
      hide CacheLayout.Offset, CacheLayout.Cell, CacheLayout.Entries, CacheLayout.Without;
      for other := 0 to count
        invariant forall i :: 0 <= i < other ==> entries[i] == Entries(Without(all, k))[i]
        invariant forall i :: other <= i < CAP ==> entries[i] == old(entries[i])
      {
        RemovedEntry(all, k, other);
        var entry := entries[other];
        if entry.nameOffset > begin {
          entries[other] := entry.(nameOffset := entry.nameOffset - removed, pathOffset := entry.pathOffset - removed);
        }
      }
    }

    /** Close the gap of entry `index` and of its bytes in the arena. */
    method Compact(index: nat, begin: nat, end: nat)
      requires Shape() && index < count <= CAP && begin <= end <= used <= TEXT_CAP
      modifies this`count, this`used, entries, text
      ensures count == old(count) - 1 && used == old(used) - (end - begin)
      ensures text[..used] == old(text[..begin]) + old(text[end..used])
      ensures text[old(used)..] == old(text[used..])
      ensures forall i :: 0 <= i < count ==> entries[i] == old(entries[if i < index then i else i + 1])
      ensures entries[count + 1..] == old(entries[count..])
    {
      ghost var before, tail := entries[..], text[used - (end - begin)..];
      assert text[used..] == tail[end - begin..];
      MoveDown(text, begin, end, used);
      MoveDown(entries, index, index + 1, count);
      count := count - 1;
      used := used - (end - begin);
      assert entries[count + 1..] == entries[count..][1..] == before[count + 1..];
      forall i | 0 <= i < count ensures entries[i] == before[if i < index then i else i + 1] {
        assert entries[i] == entries[..count][i];
      }
    }

    /** Zero the storage that a removal freed. */
    method ClearTail(removed: nat)
      requires Shape() && count < CAP && used + removed <= TEXT_CAP
      requires forall i :: count < i < CAP ==> entries[i] == BLANK
      requires forall k :: used + removed <= k < TEXT_CAP ==> text[k] == NUL
      modifies entries, text
      ensures Clean(View()) && entries[..count] == old(entries[..count]) && text[..used] == old(text[..used])
    {
      Fill(entries, count, count + 1, BLANK);
      Fill(text, used, used + removed, NUL);
    }

    /** `remove_entry`: close the gaps in arena and entries, shift the offsets
        behind it, clear the freed storage and index everything again. */
    method RemoveEntry(index: nat)
      requires Valid() && index < count
      modifies this`count, this`used, this`pairs, entries, slots, text
      ensures Valid() && pairs == Without(old(pairs), index)
    {
      hide CacheLayout.Offset, CacheLayout.Cell, CacheLayout.Entries, CacheLayout.Hashes, CacheLayout.Without;
      hide CacheLayout.Arena, CacheLayout.UniqueNames, CacheIndex.Good, CacheLayout.Storable;
      ghost var before, all, rest := View(), pairs, Without(pairs, index);
      RemovalFacts(before, all, index);
      hide CacheLayout.Rep;
      var begin := entries[index].nameOffset;
      var end := entries[index].pathOffset + entries[index].pathLength + 1;
      Compact(index, begin, end);
      ShiftOffsets(begin, end - begin, all, index);
      TailStays(before, entries[..], text[..]);
      ClearTail(end - begin);
      assert forall i :: 0 <= i < count ==> entries[i] == entries[..count][i];
      RebuildHash(Hashes(rest));
      pairs := rest;
      RemoveRep(before, View(), all, index);
    }

    /** `memcpy` of one NUL-terminated string into the arena. */
    method Put(at: nat, s: Text)
      requires Shape() && at + |s| + 1 <= TEXT_CAP
      modifies text
      ensures text[..at + |s| + 1] == old(text[..at]) + s + [NUL]
      ensures text[at + |s| + 1..] == old(text[at + |s| + 1..])
    {
      for k := 0 to |s|
        invariant forall j :: 0 <= j < TEXT_CAP ==> text[j] == if at <= j < at + k then s[j - at] else old(text[j])
      {
        text[at + k] := s[k];
      }
      text[at + |s|] := NUL;
    }

    /** The name and the path of a new entry, one after the other. */
    method PutCell(at: nat, p: Pair)
      requires Shape() && at + |Cell(p)| <= TEXT_CAP
      modifies text
      ensures text[..at + |Cell(p)|] == old(text[..at]) + Cell(p)
      ensures text[at + |Cell(p)|..] == old(text[at + |Cell(p)|..])
    {
      ghost var before := text[..];
      var path := at + |p.name| + 1;
      Put(at, p.name);
      ghost var between := text[..];
      assert between[path + |p.path| + 1..] == between[path..][|p.path| + 1..] == before[path + |p.path| + 1..];
      Put(path, p.path);
      assert text[..path] == between[..path];
      assert text[..path + |p.path| + 1] == before[..at] + p.name + [NUL] + p.path + [NUL];
    }

    /** `remember_path`.  The slot for the new entry always exists. */
    method RememberPath(name: Text, path: Text) returns (r: Remembered)
      requires Valid() && NUL !in name && NUL !in path
      modifies this`count, this`used, this`pairs, entries, slots, text
      ensures Valid() && (r, pairs) == Remember(old(pairs), Pair(name, path))
    {
      hide CacheIndex.Good, CacheIndex.FirstEmpty, CacheIndex.Probe, CacheLayout.Arena, CacheLayout.FindFrom, Bytes.Fnv;
      var required := |name| + |path| + 2;
      if name == [] || |name| > NAME_WIDTH || path == [] || |path| > NAME_WIDTH ||
        SLASH in name || NEWLINE in name || NEWLINE in path || required > TEXT_CAP {
        return Rejected;
      }
      FindIsExact(View(), pairs, name);
      var index := Index(name, Fnv(name));
      if index != CAP {
        return Present;
      }
      if count == CAP || required > TEXT_CAP - used {
        return Full;
      }
      assert !Has(pairs, name) && Storable(Pair(name, path)) && |Cell(Pair(name, path))| == required;
      hide CacheLayout.UniqueNames, CacheLayout.Storable, CacheLayout.Cell;
      ghost var before := View();
      var p := Pair(name, path);
      index := count;
      count := count + 1;
      entries[index] := Entry(used, used + |name| + 1, Fnv(name), |name|, |path|);
      PutCell(used, p);
      used := used + required;
      RoomToInsert(slots[..], Hashes(pairs), Fnv(name));
      var ok := InsertHashSlot(slots, entries[index].hash, index);
      assert ok;
      AppendRep(before, View(), pairs, p);
      pairs := pairs + [p];
      StillClean(before, View());
      return Stored;
    }

    /** `gsh_command_cache_path`, for an index in range. */
    method PathText(index: nat) returns (path: Text)
      requires Valid() && index < count
      ensures index < |pairs| && path == pairs[index].path
    {
      NameAndPathAt(View(), pairs, index);
      var entry := entries[index];
      assert text[..][entry.pathOffset..entry.pathOffset + entry.pathLength] ==
             text[entry.pathOffset..entry.pathOffset + entry.pathLength];
      return text[entry.pathOffset..entry.pathOffset + entry.pathLength];
    }

    /** `gsh_command_cache_lookup`. */
    method Lookup(generation: nat, name: Text) returns (path: Option<Text>)
      requires Valid() && NUL !in name
      ensures path == if generation != this.generation || |name| >= PATH_CAP || name !in ToMap(pairs)
                      then None else Some(ToMap(pairs)[name])
    {
      hide CacheLayout.Arena, CacheLayout.FindFrom, CacheIndex.Good, ToMap;
      MapKeys(pairs, name);
      FindIsExact(View(), pairs, name);
      if this.generation != generation {
        return None;
      }
      if name == [] || |name| >= PATH_CAP || SLASH in name {
        return None;
      }
      var index := Index(name, Fnv(name));
      if index == CAP {
        return None;
      }
      MapAt(pairs, index);
      var found := PathText(index);
      return Some(found);
    }

    /** `gsh_command_cache_resolve`. */
    method ResolveName(generation: nat, name: Text, path: Text, require: bool, executable: Text -> bool)
      returns (result: Result, changed: bool)
      requires Valid() && NUL !in name && NUL !in path
      modifies this, entries, slots, text
      ensures Valid() && this.generation == generation
      ensures Resolved(result, pairs, changed) ==
              Resolve(old(pairs), old(this.generation) != generation, executable, name, path, require)
    {
      hide CacheLayout.Arena, CacheLayout.FindFrom, CacheIndex.Good, PathSearch.Search, Remember;
      changed := SyncGeneration(generation);
      if name == [] || |name| >= PATH_CAP || SLASH in name {
        result := SearchExternal(executable, name, path);
        return;
      }
      FindIsExact(View(), pairs, name);
      var index := Index(name, Fnv(name));
      if index != CAP {
        OnlyIndex(pairs, name, index);
        var cached := PathText(index);
        if executable(cached) {
          result := Found(cached);
          return;
        }
        RemoveEntry(index);
        changed := true;
      }
      result := SearchExternal(executable, name, path);
      if !result.Found? {
        return;
      }
      FoundHasNoNul(executable, name, path);
      var outcome := RememberPath(name, result.path);
      if outcome.Rejected? || outcome.Full? {
        if require {
          result := if outcome.Full? then NoSpace else Invalid;
        }
        return;
      }
      changed := true;
    }

    /** The checks of one turn of the validator's last loop. */
    method CheckEntry(index: nat, expected: nat) returns (ok: bool)
      requires Shape() && index < CAP && used <= TEXT_CAP
      ensures ok <==> EntryOk(View(), index, expected)
    {
      hide CacheLayout.Find, Bytes.Fnv, CacheLayout.CleanBytes;
      var e := entries[index];
      if e.nameOffset != expected || e.nameLength == 0 || e.pathOffset != expected + e.nameLength + 1 ||
        e.pathLength == 0 || e.pathOffset > used || e.pathLength + 1 > used - e.pathOffset {
        return false;
      }
      var name, path := text[e.nameOffset..e.nameOffset + e.nameLength], text[e.pathOffset..e.pathOffset + e.pathLength];
      assert PairAt(View(), index) == Pair(name, path);
      if text[e.nameOffset + e.nameLength] != NUL || text[e.pathOffset + e.pathLength] != NUL ||
        !CleanBytes(name, path) || e.hash != Fnv(name) {
        return false;
      }
      var found := Index(name, e.hash);
      assert found == Find(View(), name) by {
        FindUnfold(View(), name);
      }
      return found == index;
    }

    /** `gsh_command_cache_validate`, on raw fields of any value that fit their
        C types: it accepts exactly the representations of some list of pairs. */
    method Validate() returns (ok: bool)
      requires Shape()
      requires forall i :: 0 <= i < CAP ==> entries[i].nameLength <= NAME_WIDTH && entries[i].pathLength <= NAME_WIDTH
      ensures ok <==> exists ps :: Rep(View(), ps)
    {
      hide CacheLayout.Rep, CacheLayout.Arena, CacheLayout.EntryOk, CacheLayout.Prefix, Pigeonhole.Populated;
      ghost var st := View();
      forall ps | Rep(st, ps)
        ensures RepHeader(st, |ps|, |Arena(ps)|)
      {
        RepNeeds(st, ps);
      }
      if version != VERSION || reserved != 0 || count > CAP || used > TEXT_CAP {
        return false;
      }
      var populated := 0;
      PopulatedNone();
      assert slots[..0] == [];
      for index := 0 to HASH_CAP
        invariant populated == Populated(slots[..index])
        invariant forall s :: 0 <= s < index ==> slots[s] <= count
      {
        PopulatedNext(slots[..], index);
        if slots[index] != 0 {
          if slots[index] - 1 >= count {
            return false;
          }
          populated := populated + 1;
        }
      }
      assert slots[..HASH_CAP] == slots[..];
      if populated != count {
        return false;
      }
      var expected := 0;
      ghost var read: seq<Pair> := [];
      PrefixEmpty(st);
      for index := 0 to count
        invariant |read| == index && Prefix(st, read) && expected == |Arena(read)|
        invariant forall ps :: Rep(st, ps) ==> |ps| == count && expected == Offset(ps, index)
      {
        forall ps | Rep(st, ps) ensures EntryOk(st, index, expected) {
          RepEntryOk(st, ps, index);
        }
        var valid := CheckEntry(index, expected);
        if !valid {
          return false;
        }
        forall ps | Rep(st, ps) ensures Offset(ps, index + 1) == entries[index].pathOffset + entries[index].pathLength + 1 {
          RepEntryOk(st, ps, index);
        }
        ghost var next := PrefixGrows(st, read);
        read := read + [next];
        expected := entries[index].pathOffset + entries[index].pathLength + 1;
      }
      forall ps | Rep(st, ps) ensures expected == used {
        assert ps[..count] == ps;
      }
      if expected == used {
        PrefixIsRep(st, read);
        assert Rep(View(), read);
      }
      return expected == used;
    }
  }

  /** What a representation implies for the fields checked before the loops. */
  ghost predicate RepHeader(st: State, length: nat, bytes: nat) {
    && st.version == VERSION && st.reserved == 0
    && st.count == length <= CAP && st.used == bytes <= TEXT_CAP
    && Shaped(st) && Populated(st.slots) == st.count
    && forall s :: 0 <= s < HASH_CAP ==> st.slots[s] <= st.count
  }

  lemma RepNeeds(st: State, pairs: seq<Pair>)
    requires Rep(st, pairs)
    ensures RepHeader(st, |pairs|, |Arena(pairs)|)
  {
    GoodCounts(st.slots, Hashes(pairs));
  }

  lemma PrefixEmpty(st: State)
    requires Shaped(st) && st.count <= CAP && st.used <= TEXT_CAP
    ensures Prefix(st, []) && Arena([]) == []
    ensures forall ps :: Rep(st, ps) ==> Offset(ps, 0) == 0
  {
    assert st.entries[..0] == Entries([]);
    assert forall ps: seq<Pair> :: ps[..0] == [];
  }

  lemma PopulatedNone()
    ensures Populated([]) == 0
  {
  }

  lemma PopulatedNext(slots: seq<nat>, index: nat)
    requires index < |slots|
    ensures Populated(slots[..index + 1]) == Populated(slots[..index]) + (if slots[index] != 0 then 1 else 0)
  {
    assert slots[..index + 1][..index] == slots[..index];
  }

  lemma FindUnfold(st: State, name: Text)
    requires |st.slots| == HASH_CAP
    ensures Find(st, name) == FindFrom(st, name, Fnv(name), 0)
  {
  }

  lemma OnlyIndex(pairs: seq<Pair>, name: Text, index: nat)
    requires UniqueNames(pairs) && index < |pairs| && pairs[index].name == name
    ensures Has(pairs, name) && IndexOf(pairs, name) == index
  {
  }

  lemma FoundHasNoNul(executable: Text -> bool, name: Text, path: Text)
    requires NUL !in name && NUL !in path
    ensures Search(executable, name, path).Found? ==> NUL !in Search(executable, name, path).path
  {
    if Search(executable, name, path).Found? && SLASH !in name {
      FirstIsFirst(executable, Components(path), name);
      ComponentsWithin(path, NUL);
    }
  }

  lemma StillClean(before: State, after: State)
    requires Clean(before) && Shaped(after)
    requires before.count < CAP && after.count == before.count + 1 && before.used <= after.used <= TEXT_CAP
    requires after.entries == before.entries[before.count := after.entries[before.count]]
    requires after.text[after.used..] == before.text[after.used..]
    ensures Clean(after)
  {
    forall k | after.used <= k < TEXT_CAP ensures after.text[k] == NUL {
      assert after.text[k] == after.text[after.used..][k - after.used];
    }
  }

  lemma TailStays(before: State, entries: seq<Entry>, text: Text)
    requires Clean(before) && before.count > 0 && |entries| == CAP && |text| == TEXT_CAP
    requires entries[before.count..] == before.entries[before.count..] && text[before.used..] == before.text[before.used..]
    ensures forall i :: before.count <= i < CAP ==> entries[i] == BLANK
    ensures forall k :: before.used <= k < TEXT_CAP ==> text[k] == NUL
  {
    assert forall i :: before.count <= i < CAP ==> entries[i] == entries[before.count..][i - before.count];
    assert forall k :: before.used <= k < TEXT_CAP ==> text[k] == text[before.used..][k - before.used];
  }

  lemma RemovalFacts(st: State, pairs: seq<Pair>, k: nat)
    requires Rep(st, pairs) && k < |pairs|
    ensures st.count == |pairs| <= CAP && st.used <= TEXT_CAP
    ensures forall i :: 0 <= i < |pairs| ==> i < |Entries(pairs)| && st.entries[i] == Entries(pairs)[i]
    ensures var e := st.entries[k];
      && e.nameOffset == Offset(pairs, k)
      && e.pathOffset + e.pathLength + 1 == Offset(pairs, k) + |Cell(pairs[k])| <= st.used
      && 0 < |Cell(pairs[k])|
    ensures |Without(pairs, k)| == |pairs| - 1 == |Hashes(Without(pairs, k))| == |Entries(Without(pairs, k))|
    ensures forall i :: 0 <= i < |pairs| - 1 ==> Entries(Without(pairs, k))[i].hash == Hashes(Without(pairs, k))[i]
  {
    hide CacheLayout.Arena, CacheIndex.Good;
    TextAt(st, pairs, k);
    assert forall i :: 0 <= i < |pairs| ==> st.entries[..st.count][i] == st.entries[i];
  }

  lemma ProbeHome(hash: nat)
    ensures Probe(hash, 0) == hash % HASH_CAP
  {
  }

  lemma FindStep(st: State, name: Text, hash: nat, d: nat)
    requires |st.slots| == HASH_CAP && d < HASH_CAP
    ensures Probe(hash, d + 1) == (Probe(hash, d) + 1) % HASH_CAP
    ensures var encoded := st.slots[Probe(hash, d)];
      FindFrom(st, name, hash, d) ==
      if encoded == 0 then CAP
      else if encoded - 1 < st.count && EntryMatches(st, encoded - 1, name, hash) then encoded - 1
      else FindFrom(st, name, hash, d + 1)
  {
  }

  lemma FindEnd(st: State, name: Text, hash: nat)
    requires |st.slots| == HASH_CAP
    ensures FindFrom(st, name, hash, HASH_CAP) == CAP
  {
  }
}
