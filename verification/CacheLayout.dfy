/** The packed storage of the command cache: entries at consecutive offsets of
    one text arena, and what the raw fields stand for. */
module CacheLayout {
  import opened Bytes
  import opened CacheIndex
  import opened Pigeonhole

  const CAP: nat := 128
  const TEXT_CAP: nat := 65536
  const VERSION: nat := 1
  const NAME_WIDTH: nat := 65535   // UINT16_MAX, the width of the length fields

  datatype Entry = Entry(nameOffset: nat, pathOffset: nat, hash: nat, nameLength: nat, pathLength: nat)

  const BLANK := Entry(0, 0, 0, 0, 0)

  /** The raw fields of `gsh_command_cache`, whatever their values. */
  datatype State = State(
    version: nat, count: nat, used: nat, reserved: nat, generation: nat,
    entries: seq<Entry>, slots: seq<nat>, text: Text)

  /** One remembered command. */
  datatype Pair = Pair(name: Text, path: Text)

  // ----- the arena -----

  function Cell(p: Pair): Text {
    p.name + [NUL] + p.path + [NUL]
  }

  function Arena(pairs: seq<Pair>): Text {
    if pairs == [] then [] else Arena(pairs[..|pairs| - 1]) + Cell(pairs[|pairs| - 1])
  }

  function EntryFor(p: Pair, offset: nat): Entry {
    Entry(offset, offset + |p.name| + 1, Fnv(p.name), |p.name|, |p.path|)
  }

  /** Where entry `i` begins. */
  function Offset(pairs: seq<Pair>, i: nat): nat
    requires i <= |pairs|
  {
    |Arena(pairs[..i])|
  }

  function Entries(pairs: seq<Pair>): (r: seq<Entry>)
    ensures |r| == |pairs|
  {
    seq(|pairs|, i requires 0 <= i < |pairs| => EntryFor(pairs[i], Offset(pairs, i)))
  }

  function Hashes(pairs: seq<Pair>): (r: seq<nat>)
    ensures |r| == |pairs|
  {
    seq(|pairs|, i requires 0 <= i < |pairs| => Fnv(pairs[i].name))
  }

  lemma {:induction false} ArenaConcat(a: seq<Pair>, b: seq<Pair>)
    ensures Arena(a + b) == Arena(a) + Arena(b)
  {
    if b == [] {
      assert a + b == a;
    } else {
      var front, last := b[..|b| - 1], b[|b| - 1];
      assert (a + b)[..|a + b| - 1] == a + front;
      ArenaConcat(a, front);
      Regroup(Arena(a), Arena(front), Cell(last));
    }
  }

  lemma ArenaStep(pairs: seq<Pair>, i: nat)
    requires i < |pairs|
    ensures Arena(pairs[..i + 1]) == Arena(pairs[..i]) + Cell(pairs[i])
  {
    assert pairs[..i + 1][..i] == pairs[..i];
  }

  /** The arena around entry `i`. */
  lemma ArenaSplit(pairs: seq<Pair>, i: nat)
    requires i < |pairs|
    ensures Arena(pairs) == Arena(pairs[..i]) + Cell(pairs[i]) + Arena(pairs[i + 1..])
    ensures Offset(pairs, i) + |Cell(pairs[i])| <= |Arena(pairs)|
  {
    ArenaStep(pairs, i);
    assert pairs == pairs[..i + 1] + pairs[i + 1..];
    ArenaConcat(pairs[..i + 1], pairs[i + 1..]);
  }

  // ----- what is stored -----

  /** What the cache accepts: a non-empty name without '/', NUL or newline, a
      non-empty path without NUL or newline, both within the length fields. */
  predicate Storable(p: Pair) {
    && 0 < |p.name| <= NAME_WIDTH && 0 < |p.path| <= NAME_WIDTH
    && NUL !in p.name && NEWLINE !in p.name && SLASH !in p.name
    && NUL !in p.path && NEWLINE !in p.path
  }

  ghost predicate UniqueNames(pairs: seq<Pair>) {
    forall i, j :: 0 <= i < j < |pairs| ==> pairs[i].name != pairs[j].name
  }

  ghost predicate Shaped(st: State) {
    |st.entries| == CAP && |st.slots| == HASH_CAP && |st.text| == TEXT_CAP
  }

  /** The raw fields represent exactly the list `pairs`. */
  ghost predicate Rep(st: State, pairs: seq<Pair>) {
    && Shaped(st)
    && st.version == VERSION && st.reserved == 0
    && st.count == |pairs| <= CAP
    && st.used == |Arena(pairs)| <= TEXT_CAP
    && st.entries[..st.count] == Entries(pairs)
    && st.text[..st.used] == Arena(pairs)
    && (forall i :: 0 <= i < |pairs| ==> Storable(pairs[i]))
    && UniqueNames(pairs)
    && Good(st.slots, Hashes(pairs))
  }

  /** Unused storage is zero, which removal restores. */
  ghost predicate Clean(st: State) {
    && Shaped(st) && st.count <= CAP && st.used <= TEXT_CAP
    && (forall i :: st.count <= i < CAP ==> st.entries[i] == BLANK)
    && (forall k :: st.used <= k < TEXT_CAP ==> st.text[k] == NUL)
  }

  /** The bytes entry `i` names, when they lie inside the arena's buffer. */
  predicate EntryMatches(st: State, i: nat, name: Text, hash: nat) {
    i < |st.entries| &&
    var entry := st.entries[i];
    && entry.hash == hash && entry.nameLength == |name|
    && entry.nameOffset < st.used
    && entry.nameOffset + |name| <= |st.text|
    && st.text[entry.nameOffset..entry.nameOffset + |name|] == name
  }

  lemma TextAt(st: State, pairs: seq<Pair>, i: nat)
    requires Rep(st, pairs) && i < |pairs|
    ensures st.entries[i] == EntryFor(pairs[i], Offset(pairs, i))
    ensures st.entries[i].nameOffset + |Cell(pairs[i])| <= st.used
    ensures st.text[st.entries[i].nameOffset..st.entries[i].nameOffset + |Cell(pairs[i])|] == Cell(pairs[i])
  {
    var o, cell := Offset(pairs, i), Cell(pairs[i]);
    assert st.entries[..st.count][i] == st.entries[i];
    ArenaSplit(pairs, i);
    hide Arena, Cell, UniqueNames, CacheIndex.Good, Storable;
    SliceOfSlice(st.text, 0, st.used, o, o + |cell|);
    Middle(Arena(pairs[..i]), cell, Arena(pairs[i + 1..]));
  }

  lemma PartsOfCell(p: Pair)
    ensures var n, m, cell := |p.name|, |p.path|, Cell(p);
      && |cell| == n + m + 2 && cell[0..n] == p.name && cell[n] == NUL
      && cell[n + 1..n + 1 + m] == p.path && cell[n + 1 + m] == NUL
  {
    Middle(p.name + [NUL], p.path, [NUL]);
  }

  lemma CellParts(text: Text, o: nat, p: Pair)
    requires o + |Cell(p)| <= |text| && text[o..o + |Cell(p)|] == Cell(p)
    ensures var n, m := |p.name|, |p.path|;
      && o + n + m + 2 <= |text|
      && text[o..o + n] == p.name && text[o + n] == NUL
      && text[o + n + 1..o + n + 1 + m] == p.path && text[o + n + 1 + m] == NUL
  {
    var n, m, cell := |p.name|, |p.path|, text[o..o + |Cell(p)|];
    PartsOfCell(p);
    hide Cell;
    SliceOfSlice(text, o, o + |cell|, 0, n);
    SliceOfSlice(text, o, o + |cell|, n + 1, n + 1 + m);
  }

  /** The name and path of an entry, read back from the arena. */
  lemma NameAndPathAt(st: State, pairs: seq<Pair>, i: nat)
    requires Rep(st, pairs) && i < |pairs|
    ensures var e := st.entries[i];
      && e == EntryFor(pairs[i], Offset(pairs, i))
      && e.pathOffset + |pairs[i].path| + 1 <= st.used
      && st.text[e.nameOffset..e.nameOffset + |pairs[i].name|] == pairs[i].name
      && st.text[e.nameOffset + |pairs[i].name|] == NUL
      && st.text[e.pathOffset..e.pathOffset + |pairs[i].path|] == pairs[i].path
      && st.text[e.pathOffset + |pairs[i].path|] == NUL
  {
    TextAt(st, pairs, i);
    CellParts(st.text, st.entries[i].nameOffset, pairs[i]);
    hide Arena, Fnv, UniqueNames, CacheIndex.Good;
  }

  lemma MatchesItsName(st: State, pairs: seq<Pair>, i: nat, name: Text)
    requires Rep(st, pairs) && i < |pairs|
    ensures EntryMatches(st, i, name, Fnv(name)) <==> pairs[i].name == name
  {
    NameAndPathAt(st, pairs, i);
  }

  // ----- lookup -----

  /** `cache_index` from the `d`-th probe on; CAP when the name is not found. */
  function FindFrom(st: State, name: Text, hash: nat, d: nat): (i: nat)
    requires |st.slots| == HASH_CAP && d <= HASH_CAP
    ensures st.count <= CAP ==> i < st.count || i == CAP
    decreases HASH_CAP - d
  {
    if d == HASH_CAP then CAP
    else
      var encoded := st.slots[Probe(hash, d)];
      if encoded == 0 then CAP
      else if encoded - 1 < st.count && EntryMatches(st, encoded - 1, name, hash) then encoded - 1
      else FindFrom(st, name, hash, d + 1)
  }

  function Find(st: State, name: Text): (i: nat)
    requires |st.slots| == HASH_CAP
    ensures st.count <= CAP ==> i < st.count || i == CAP
  {
    FindFrom(st, name, Fnv(name), 0)
  }

  lemma {:induction false} FindHit(st: State, pairs: seq<Pair>, i: nat, d: nat, home: nat)
    requires Rep(st, pairs) && i < |pairs|
    requires d <= home && Reaches(st.slots, Fnv(pairs[i].name), home, i)
    ensures FindFrom(st, pairs[i].name, Fnv(pairs[i].name), d) == i
    decreases home - d
  {
    hide Arena, Fnv, EntryMatches, Probe, Entries;
    var name := pairs[i].name;
    var encoded := st.slots[Probe(Fnv(name), d)];
    MatchesItsName(st, pairs, i, name);
    if d < home && encoded - 1 < st.count {
      MatchesItsName(st, pairs, encoded - 1, name);
    }
    if d < home && encoded != i + 1 {
      FindHit(st, pairs, i, d + 1, home);
    }
  }

  lemma {:induction false} FindMiss(st: State, pairs: seq<Pair>, name: Text, d: nat)
    requires Rep(st, pairs) && d <= HASH_CAP
    requires forall i :: 0 <= i < |pairs| ==> pairs[i].name != name
    ensures FindFrom(st, name, Fnv(name), d) == CAP
    decreases HASH_CAP - d
  {
    hide Arena, Fnv, EntryMatches, Probe, Entries;
    if d < HASH_CAP {
      var encoded := st.slots[Probe(Fnv(name), d)];
      if 0 < encoded && encoded - 1 < st.count {
        MatchesItsName(st, pairs, encoded - 1, name);
      }
      FindMiss(st, pairs, name, d + 1);
    }
  }

  /** Linear probing finds a name exactly when it is stored, and where it is. */
  lemma FindIsExact(st: State, pairs: seq<Pair>, name: Text)
    requires Rep(st, pairs)
    ensures Find(st, name) != CAP ==> Find(st, name) < |pairs| && pairs[Find(st, name)].name == name
    ensures Find(st, name) == CAP <==> forall i :: 0 <= i < |pairs| ==> pairs[i].name != name
  {
    hide Arena, Fnv, FindFrom, Entries;
    if i :| 0 <= i < |pairs| && pairs[i].name == name {
      assert Reachable(st.slots, Hashes(pairs)[i], i);
      var home :| Reaches(st.slots, Fnv(name), home, i);
      FindHit(st, pairs, i, 0, home);
    } else {
      FindMiss(st, pairs, name, 0);
    }
  }

  /** Raw probing alone: an index returned for an entry's own name is reachable. */
  lemma {:induction false} FoundIsReached(st: State, name: Text, hash: nat, d: nat)
    requires |st.slots| == HASH_CAP && d <= HASH_CAP && st.count <= CAP
    requires FindFrom(st, name, hash, d) < st.count
    requires forall e :: 0 <= e < d ==> st.slots[Probe(hash, e)] != 0
    ensures Reachable(st.slots, hash, FindFrom(st, name, hash, d))
    decreases HASH_CAP - d
  {
    hide EntryMatches, Probe;
    if d < HASH_CAP {
      var encoded := st.slots[Probe(hash, d)];
      if encoded != 0 && encoded - 1 < st.count && EntryMatches(st, encoded - 1, name, hash) {
        assert Reaches(st.slots, hash, d, encoded - 1);
      } else {
        FoundIsReached(st, name, hash, d + 1);
      }
    }
  }

  // ----- adding and removing pairs -----

  /** Appending a pair at the end of the arena, its entry after the others and
      its slot on its probe path represents the longer list. */
  lemma AppendRep(before: State, after: State, pairs: seq<Pair>, p: Pair)
    requires Rep(before, pairs) && Shaped(after)
    requires Storable(p) && |pairs| < CAP && before.used + |Cell(p)| <= TEXT_CAP
    requires forall i :: 0 <= i < |pairs| ==> pairs[i].name != p.name
    requires after.version == VERSION && after.reserved == 0
    requires after.count == before.count + 1 && after.used == before.used + |Cell(p)|
    requires after.entries == before.entries[before.count := EntryFor(p, before.used)]
    requires after.text[..after.used] == before.text[..before.used] + Cell(p)
    requires FirstEmpty(before.slots, Fnv(p.name), 0) < HASH_CAP
    requires after.slots == before.slots[Probe(Fnv(p.name), FirstEmpty(before.slots, Fnv(p.name), 0)) := before.count + 1]
    ensures Rep(after, pairs + [p])
  {
    hide Fnv, Probe, FirstEmpty, Storable, Cell, CacheIndex.Good;
    var more := pairs + [p];
    assert Hashes(more) == Hashes(pairs) + [Fnv(p.name)];
    InsertKeepsGood(before.slots, Hashes(pairs), Fnv(p.name));
    AppendArena(pairs, p);
    hide Arena;
    assert after.entries[..after.count] == before.entries[..before.count] + [EntryFor(p, before.used)];
  }

  lemma AppendArena(pairs: seq<Pair>, p: Pair)
    ensures Arena(pairs + [p]) == Arena(pairs) + Cell(p)
    ensures Entries(pairs + [p]) == Entries(pairs) + [EntryFor(p, |Arena(pairs)|)]
  {
    hide Fnv, Cell, Arena, EntryFor;
    var more := pairs + [p];
    assert more[..|pairs|] == pairs && more[..|more|] == more;
    ArenaStep(more, |pairs|);
    forall i | 0 <= i < |pairs| ensures Entries(more)[i] == Entries(pairs)[i] {
      assert more[..i] == pairs[..i];
    }
    assert Entries(more)[|pairs|] == EntryFor(p, |Arena(pairs)|);
  }

  /** `pairs` without entry `k`. */
  function Without(pairs: seq<Pair>, k: nat): (r: seq<Pair>)
    requires k < |pairs|
    ensures |r| == |pairs| - 1
  {
    pairs[..k] + pairs[k + 1..]
  }

  lemma WithoutUnique(pairs: seq<Pair>, k: nat)
    requires UniqueNames(pairs) && k < |pairs|
    ensures UniqueNames(Without(pairs, k))
  {
    var rest := Without(pairs, k);
    forall i, j | 0 <= i < j < |rest| ensures rest[i].name != rest[j].name {
      assert rest[i] == pairs[if i < k then i else i + 1] && rest[j] == pairs[if j < k then j else j + 1];
    }
  }

  /** Where the entries after a removed one move. */
  lemma WithoutOffsets(pairs: seq<Pair>, k: nat, i: nat)
    requires k < |pairs| && i < |pairs| - 1
    ensures i < k ==> Without(pairs, k)[i] == pairs[i] && Offset(Without(pairs, k), i) == Offset(pairs, i)
    ensures i >= k ==> Without(pairs, k)[i] == pairs[i + 1] &&
                       Offset(Without(pairs, k), i) + |Cell(pairs[k])| == Offset(pairs, i + 1)
  {
    var rest := Without(pairs, k);
    if i < k {
      assert rest[..i] == pairs[..i];
    } else {
      var between := pairs[k + 1..i + 1];
      assert rest[..i] == pairs[..k] + between;
      assert pairs[..i + 1] == pairs[..k + 1] + between;
      ArenaConcat(pairs[..k], between);
      ArenaConcat(pairs[..k + 1], between);
      ArenaStep(pairs, k);
    }
  }

  lemma {:induction false} OffsetsIncrease(pairs: seq<Pair>, i: nat, j: nat)
    requires i < j <= |pairs|
    ensures Offset(pairs, i) < Offset(pairs, j)
    decreases j
  {
    ArenaStep(pairs, j - 1);
    if i < j - 1 {
      OffsetsIncrease(pairs, i, j - 1);
    }
  }

  /** The entry at `i` after removal: moved down by one place, and down by the
      removed bytes when it lay behind them. */
  function MovedEntry(e: Entry, begin: nat, removed: nat): Entry
    requires e.nameOffset > begin ==> removed <= e.nameOffset && removed <= e.pathOffset
  {
    if e.nameOffset > begin then e.(nameOffset := e.nameOffset - removed, pathOffset := e.pathOffset - removed) else e
  }

  /** Each entry of the shorter list is the moved entry of the longer one. */
  lemma RemovedEntry(pairs: seq<Pair>, k: nat, i: nat)
    requires k < |pairs| && i < |pairs| - 1
    ensures var e := Entries(pairs)[if i < k then i else i + 1];
            var begin, removed := Offset(pairs, k), |Cell(pairs[k])|;
      && (e.nameOffset > begin ==> removed <= e.nameOffset && removed <= e.pathOffset)
      && Entries(Without(pairs, k))[i] == MovedEntry(e, begin, removed)
  {
    hide Fnv, Arena;
    WithoutOffsets(pairs, k, i);
    if i < k {
      OffsetsIncrease(pairs, i, k);
    } else {
      OffsetsIncrease(pairs, k, i + 1);
    }
  }

  lemma RemovedArena(pairs: seq<Pair>, k: nat)
    requires k < |pairs|
    ensures var begin, end := Offset(pairs, k), Offset(pairs, k) + |Cell(pairs[k])|;
            end <= |Arena(pairs)| &&
            Arena(Without(pairs, k)) == Arena(pairs)[..begin] + Arena(pairs)[end..]
  {
    ArenaSplit(pairs, k);
    ArenaConcat(pairs[..k], pairs[k + 1..]);
    hide Arena, Cell;
    Ends(Arena(pairs[..k]), Cell(pairs[k]), Arena(pairs[k + 1..]));
  }

  /** Removal represents the shorter list. */
  lemma RemoveRep(before: State, after: State, pairs: seq<Pair>, k: nat)
    requires Rep(before, pairs) && k < |pairs| && Shaped(after)
    requires after.version == VERSION && after.reserved == 0
    requires var begin, end := Offset(pairs, k), Offset(pairs, k) + |Cell(pairs[k])|;
      && end <= before.used
      && after.count == before.count - 1 && after.used == before.used - |Cell(pairs[k])|
      && after.text[..after.used] == before.text[..begin] + before.text[end..before.used]
    requires forall i :: 0 <= i < after.count ==> after.entries[i] == Entries(Without(pairs, k))[i]
    requires Good(after.slots, Hashes(Without(pairs, k)))
    ensures Rep(after, Without(pairs, k))
  {
    hide Arena, Cell, Fnv, CacheIndex.Good, Storable, Offset;
    var rest := Without(pairs, k);
    RemovedArena(pairs, k);
    var begin, end := Offset(pairs, k), Offset(pairs, k) + |Cell(pairs[k])|;
    assert before.text[..before.used][..begin] == before.text[..begin];
    assert before.text[..before.used][end..] == before.text[end..before.used];
    assert after.entries[..after.count] == Entries(rest);
    WithoutUnique(pairs, k);
  }

  // ----- what the validator checks -----

  predicate CleanBytes(name: Text, path: Text) {
    NUL !in name && NUL !in path && NEWLINE !in name && NEWLINE !in path && SLASH !in name
  }

  /** The checks on one entry, given where the previous one ended. */
  predicate EntryOk(st: State, index: nat, expected: nat)
    requires |st.slots| == HASH_CAP
  {
    index < |st.entries| &&
    var e := st.entries[index];
    && e.nameOffset == expected && e.nameLength != 0
    && e.pathOffset == expected + e.nameLength + 1 && e.pathLength != 0
    && e.pathOffset + e.pathLength + 1 <= st.used <= |st.text|
    && st.text[e.nameOffset + e.nameLength] == NUL && st.text[e.pathOffset + e.pathLength] == NUL
    && var p := PairAt(st, index);
    && CleanBytes(p.name, p.path)
    && e.hash == Fnv(p.name)
    && Find(st, p.name) == index
  }

  /** The name and path an entry delimits. */
  function PairAt(st: State, index: nat): Pair
    requires index < |st.entries|
    requires st.entries[index].nameOffset + st.entries[index].nameLength <= |st.text|
    requires st.entries[index].pathOffset + st.entries[index].pathLength <= |st.text|
  {
    var e := st.entries[index];
    Pair(st.text[e.nameOffset..e.nameOffset + e.nameLength], st.text[e.pathOffset..e.pathOffset + e.pathLength])
  }

  lemma RepEntryOk(st: State, pairs: seq<Pair>, index: nat)
    requires Rep(st, pairs) && index < |pairs|
    ensures EntryOk(st, index, Offset(pairs, index))
    ensures st.entries[index].pathOffset + st.entries[index].pathLength + 1 == Offset(pairs, index + 1)
  {
    hide Arena, Find, Fnv, CacheIndex.Good, UniqueNames;
    NameAndPathAt(st, pairs, index);
    FindOwn(st, pairs, index);
    ArenaStep(pairs, index);
    assert Storable(pairs[index]);
    hide Rep;
    assert PairAt(st, index) == pairs[index];
  }

  lemma FindOwn(st: State, pairs: seq<Pair>, index: nat)
    requires Rep(st, pairs) && index < |pairs|
    ensures Find(st, pairs[index].name) == index
    ensures |st.text| == TEXT_CAP && st.used <= TEXT_CAP
  {
    FindIsExact(st, pairs, pairs[index].name);
    hide Arena, Find, CacheIndex.Good, Fnv, Storable;
  }

  /** A prefix of the entries and of the arena that reads as `pairs`. */
  ghost predicate Prefix(st: State, pairs: seq<Pair>) {
    && Shaped(st) && |pairs| <= st.count <= CAP && |Arena(pairs)| <= st.used <= TEXT_CAP
    && st.entries[..|pairs|] == Entries(pairs)
    && st.text[..|Arena(pairs)|] == Arena(pairs)
    && (forall i :: 0 <= i < |pairs| ==> Storable(pairs[i]) && Find(st, pairs[i].name) == i)
  }

  lemma CellFromParts(text: Text, o: nat, p: Pair)
    requires o + |p.name| + |p.path| + 2 <= |text|
    requires text[o..o + |p.name|] == p.name && text[o + |p.name|] == NUL
    requires text[o + |p.name| + 1..o + |p.name| + 1 + |p.path|] == p.path && text[o + |p.name| + 1 + |p.path|] == NUL
    ensures text[..o + |Cell(p)|] == text[..o] + Cell(p)
  {
    var n, m, path := |p.name|, |p.path|, o + |p.name| + 1;
    Split(text, o, o + n, path);
    Split(text, path, path + m, path + m + 1);
    Regroup(p.name, [NUL], p.path);
    Regroup(p.name, [NUL] + p.path, [NUL]);
    assert text[path..path + m + 1] == p.path + [NUL];
    assert text[o..path] == p.name + [NUL];
    Split(text, o, path, path + m + 1);
    assert Cell(p) == (p.name + [NUL]) + (p.path + [NUL]);
    Split(text, 0, o, path + m + 1);
  }

  lemma Split<T>(s: seq<T>, a: nat, b: nat, c: nat)
    requires a <= b <= c <= |s|
    ensures s[a..c] == s[a..b] + s[b..c]
  {
  }

  lemma PrefixGrows(st: State, pairs: seq<Pair>) returns (p: Pair)
    requires Prefix(st, pairs) && |pairs| < st.count
    requires EntryOk(st, |pairs|, |Arena(pairs)|)
    requires st.entries[|pairs|].nameLength <= NAME_WIDTH && st.entries[|pairs|].pathLength <= NAME_WIDTH
    ensures Prefix(st, pairs + [p])
    ensures |Arena(pairs + [p])| == st.entries[|pairs|].pathOffset + st.entries[|pairs|].pathLength + 1
  {
    hide Arena, Find, Fnv, Cell, Storable, Entries, EntryFor;
    p := OkPair(st, |pairs|, |Arena(pairs)|);
    AppendArena(pairs, p);
    hide EntryOk;
    PrefixExtends(st, pairs, p);
  }

  lemma PrefixExtends(st: State, pairs: seq<Pair>, p: Pair)
    requires Prefix(st, pairs) && |pairs| < st.count
    requires Entries(pairs + [p]) == Entries(pairs) + [st.entries[|pairs|]]
    requires Arena(pairs + [p]) == Arena(pairs) + Cell(p) && |Arena(pairs + [p])| <= st.used
    requires st.text[..|Arena(pairs + [p])|] == Arena(pairs + [p])
    requires Storable(p) && Find(st, p.name) == |pairs|
    ensures Prefix(st, pairs + [p])
  {
    hide Arena, Find, Fnv, Cell, Storable, Entries;
    var n, more := |pairs|, pairs + [p];
    assert st.entries[..n + 1] == st.entries[..n] + [st.entries[n]];
    forall i | 0 <= i < |more| ensures Storable(more[i]) && Find(st, more[i].name) == i {
      assert i < n ==> more[i] == pairs[i];
    }
  }

  /** What an accepted entry delimits. */
  lemma OkPair(st: State, index: nat, expected: nat) returns (p: Pair)
    requires Shaped(st) && EntryOk(st, index, expected) && st.used <= TEXT_CAP
    requires st.entries[index].nameLength <= NAME_WIDTH && st.entries[index].pathLength <= NAME_WIDTH
    ensures st.entries[index] == EntryFor(p, expected) && Storable(p) && Find(st, p.name) == index
    ensures expected + |Cell(p)| == st.entries[index].pathOffset + st.entries[index].pathLength + 1 <= st.used
    ensures st.text[..expected + |Cell(p)|] == st.text[..expected] + Cell(p)
  {
    p := PairAt(st, index);
    hide Find, Fnv;
    CellFromParts(st.text, expected, p);
  }

  /** The whole arena read, counted and probed: the representation holds. */
  lemma PrefixIsRep(st: State, pairs: seq<Pair>)
    requires Prefix(st, pairs) && |pairs| == st.count && |Arena(pairs)| == st.used
    requires st.version == VERSION && st.reserved == 0
    requires Populated(st.slots) == st.count
    requires forall s :: 0 <= s < HASH_CAP ==> st.slots[s] <= st.count
    ensures Rep(st, pairs)
  {
    hide Arena, Fnv, FindFrom, Storable, CacheIndex.Good, EntryMatches;
    var hashes := Hashes(pairs);
    forall i | 0 <= i < |hashes| ensures Reachable(st.slots, hashes[i], i) {
      assert Find(st, pairs[i].name) == i;
      FoundIsReached(st, pairs[i].name, Fnv(pairs[i].name), 0);
    }
    ReachedAndCountedIsGood(st.slots, hashes);
    forall i, j | 0 <= i < j < |pairs| ensures pairs[i].name != pairs[j].name {
      assert Find(st, pairs[i].name) == i && Find(st, pairs[j].name) == j;
    }
  }
}
