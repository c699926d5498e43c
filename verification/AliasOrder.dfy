/** Which token an alias expansion rewrites next, said one rewrite at a time. */
module AliasOrder {
  import opened Bytes
  import opened AliasFrames
  import opened AliasBlank
  import opened AliasRun
  import Tokens

  /** Rewrite `r` replaces the first token behind `marker`, a word with an alias. */
  ghost predicate IsBehind(shell: Shell, b: Buffer, marker: nat, r: Rewrite) {
    && marker < |b.text| && marker <= r.begin <= r.end <= |b.text|
    && FindAlias(shell, b, r.begin, r.end) == Some(Alias(r.alias, r.value))
    && var first := Tokens.Next(b.text[marker..], Tokens.State(0, Tokens.Okay, 0));
       && first.returned == Tokens.Okay && first.token.Some?
       && first.token.value == Tokens.Token(Tokens.Word, r.begin - marker, r.end - marker)
  }

  /** Rewrite `r` replaces the first command word that has an alias. */
  ghost predicate IsFirstCommand(shell: Shell, b: Buffer, r: Rewrite)
    requires ShellOk(shell)
  {
    var words := shell.commandWords(b.text);
    exists i :: 0 <= i < |words| && Range(r.begin, r.end) == words[i] && HasAlias(shell, b, words[i], r)
      && forall j, q :: 0 <= j < i ==> !HasAlias(shell, b, words[j], q)
  }

  ghost predicate HasAlias(shell: Shell, b: Buffer, range: Range, r: Rewrite) {
    && range.begin <= range.end <= |b.text|
    && FindAlias(shell, b, range.begin, range.end) == Some(Alias(r.alias, r.value))
  }

  /** The value asks for the word behind it: it ends in an unquoted blank and, unless it
      has been asked for itself, its last command word is not `command`. */
  ghost predicate Asks(shell: Shell, value: Text, asked: bool)
    requires ShellOk(shell)
  {
    && EndsInBlank(value)
    && (asked || !shell.parses(value) ||
        var words := shell.commandWords(value);
        words == [] || value[words[|words| - 1].begin..words[|words| - 1].end] != COMMAND)
  }

  /** The buffer between two rewrites, and where the last value asks for a word. */
  datatype Point = Point(b: Buffer, marker: Option<nat>)

  ghost predicate Asked(shell: Shell, p: Point) {
    p.marker.Some? && exists r :: IsBehind(shell, p.b, p.marker.value, r)
  }

  /** The rewrite that comes next: of the word asked for if it has an alias, else of the
      first command word that has one. */
  ghost predicate IsNext(shell: Shell, p: Point, r: Rewrite)
    requires ShellOk(shell)
  {
    if Asked(shell, p) then IsBehind(shell, p.b, p.marker.value, r) else IsFirstCommand(shell, p.b, r)
  }

  ghost function After(shell: Shell, capacity: nat, p: Point, r: Rewrite): Point
    requires ShellOk(shell) && |p.b.text| < capacity && Apply(p.b, r, capacity).Some?
  {
    Point(Apply(p.b, r, capacity).value, if Asks(shell, r.value, Asked(shell, p)) then Some(r.begin + |r.value| + 1) else None)
  }

  /** Every rewrite of the log is the one that comes next; the run ends at `end`. */
  ghost predicate Directed(shell: Shell, capacity: nat, p: Point, log: seq<Rewrite>, end: Point)
    requires ShellOk(shell)
    decreases |log|
  {
    if log == [] then p == end
    else
      && |p.b.text| < capacity && IsNext(shell, p, log[0]) && Apply(p.b, log[0], capacity).Some?
      && Directed(shell, capacity, After(shell, capacity, p, log[0]), log[1..], end)
  }

  /** Nothing is left to rewrite. */
  ghost predicate Settled(shell: Shell, p: Point)
    requires ShellOk(shell)
  {
    forall r :: !IsNext(shell, p, r)
  }

  /** The next rewrite does not fit. */
  ghost predicate Stuck(shell: Shell, capacity: nat, p: Point)
    requires ShellOk(shell)
  {
    |p.b.text| < capacity && exists r :: IsNext(shell, p, r) && Apply(p.b, r, capacity).None?
  }

  // ----- the next rewrite is unique -----

  lemma NextIsUnique(shell: Shell, p: Point, r: Rewrite, q: Rewrite)
    requires ShellOk(shell) && IsNext(shell, p, r) && IsNext(shell, p, q)
    ensures r == q
  {
    hide FindAlias, Tokens.Next;
    if !Asked(shell, p) {
      FirstCommandIsUnique(shell, p.b, r, q);
    }
  }

  lemma FirstCommandIsUnique(shell: Shell, b: Buffer, r: Rewrite, q: Rewrite)
    requires ShellOk(shell) && IsFirstCommand(shell, b, r) && IsFirstCommand(shell, b, q)
    ensures r == q
  {
    hide FindAlias;
    var words := shell.commandWords(b.text);
    var i :| 0 <= i < |words| && Range(r.begin, r.end) == words[i] && HasAlias(shell, b, words[i], r)
      && forall j, o :: 0 <= j < i ==> !HasAlias(shell, b, words[j], o);
    var k :| 0 <= k < |words| && Range(q.begin, q.end) == words[k] && HasAlias(shell, b, words[k], q)
      && forall j, o :: 0 <= j < k ==> !HasAlias(shell, b, words[j], o);
    assert i == k;
  }

  /** So the order determines the run: of two logs in order one begins with the other. */
  lemma {:induction false} DirectedIsDetermined(shell: Shell, capacity: nat, p: Point, log: seq<Rewrite>, end: Point,
                                                other: seq<Rewrite>, otherEnd: Point)
    requires ShellOk(shell) && Directed(shell, capacity, p, log, end) && Directed(shell, capacity, p, other, otherEnd)
    requires |log| <= |other|
    ensures log == other[..|log|] && (|log| == |other| ==> end == otherEnd)
    ensures |log| < |other| ==> !Settled(shell, end) && !Stuck(shell, capacity, end)
    decreases |log|
  {
    hide IsNext, Apply, After;
    if log == [] {
      if other != [] {
        NotStuck(shell, capacity, p, other[0]);
      }
    } else {
      NextIsUnique(shell, p, log[0], other[0]);
      DirectedIsDetermined(shell, capacity, After(shell, capacity, p, log[0]), log[1..], end, other[1..], otherEnd);
      assert other[1..][..|log| - 1] == other[..|log|][1..];
    }
  }

  lemma NotStuck(shell: Shell, capacity: nat, p: Point, r: Rewrite)
    requires ShellOk(shell) && |p.b.text| < capacity && IsNext(shell, p, r) && Apply(p.b, r, capacity).Some?
    ensures !Settled(shell, p) && !Stuck(shell, capacity, p)
  {
    hide IsNext, Apply;
    forall q | IsNext(shell, p, q) ensures q == r {
      NextIsUnique(shell, p, r, q);
    }
  }

  // ----- the run is directed -----

  lemma {:induction false} DirectedConcat(shell: Shell, capacity: nat, p: Point, first: seq<Rewrite>, mid: Point,
                                          second: seq<Rewrite>, end: Point)
    requires ShellOk(shell) && Directed(shell, capacity, p, first, mid) && Directed(shell, capacity, mid, second, end)
    ensures Directed(shell, capacity, p, first + second, end)
    decreases |first|
  {
    hide IsNext, Apply, After;
    if first == [] {
      assert first + second == second;
    } else {
      assert (first + second)[1..] == first[1..] + second;
      DirectedConcat(shell, capacity, After(shell, capacity, p, first[0]), first[1..], mid, second, end);
    }
  }

  lemma OneIsDirected(shell: Shell, capacity: nat, p: Point, r: Rewrite)
    requires ShellOk(shell) && |p.b.text| < capacity && IsNext(shell, p, r) && Apply(p.b, r, capacity).Some?
    ensures Directed(shell, capacity, p, [r], After(shell, capacity, p, r))
  {
    hide IsNext, Apply, After;
    assert [r][1..] == [];
  }

  lemma {:induction false} FirstFound(shell: Shell, b: Buffer, index: nat)
    requires ShellOk(shell) && index <= |shell.commandWords(b.text)|
    requires forall j, q :: 0 <= j < index ==> !HasAlias(shell, b, shell.commandWords(b.text)[j], q)
    ensures match FirstAlias(shell, b, index)
      case Some(found) => IsFirstCommand(shell, b, RewriteOf(found.range, found.alias))
      case None => forall r :: !IsFirstCommand(shell, b, r)
    decreases |shell.commandWords(b.text)| - index
  {
    hide FindAlias;
    var words := shell.commandWords(b.text);
    if index < |words| {
      var alias := FindAlias(shell, b, words[index].begin, words[index].end);
      if alias.Some? {
        assert HasAlias(shell, b, words[index], RewriteOf(words[index], alias.value));
      } else {
        FirstFound(shell, b, index + 1);
      }
    }
  }

  /** What the search behind a marker finds. */
  lemma BehindFound(shell: Shell, b: Buffer, marker: nat)
    requires marker < |b.text|
    ensures var next := WordBehind(b, marker);
      var alias := if next.Some? then FindAlias(shell, b, next.value.begin, next.value.end) else None;
      && (alias.Some? ==> IsBehind(shell, b, marker, RewriteOf(next.value, alias.value)))
      && (alias.None? ==> forall r :: !IsBehind(shell, b, marker, r))
  {
    hide FindAlias, Tokens.Next;
  }

  lemma BehindIsNext(shell: Shell, capacity: nat, b: Buffer, marker: nat, r: Rewrite)
    requires ShellOk(shell) && IsBehind(shell, b, marker, r)
    ensures var p := Point(b, Some(marker)); Asked(shell, p) && IsNext(shell, p, r)
    ensures |b.text| < capacity && Apply(b, r, capacity).Some? ==>
      After(shell, capacity, Point(b, Some(marker)), r) ==
      Point(Apply(b, r, capacity).value, if EndsInBlank(r.value) then Some(r.begin + |r.value| + 1) else None)
  {
    hide Apply, IsBehind, EndsInBlank, IsFirstCommand;
  }

  /** Where the search for words behind a marker ends. */
  lemma {:induction false} ForceIsDirected(shell: Shell, capacity: nat, b: Buffer, marker: nat, expansions: nat) returns (end: Point)
    requires ShellOk(shell) && |b.text| < capacity
    ensures var f := Force(shell, capacity, b, marker, expansions);
      && Directed(shell, capacity, Point(b, Some(marker)), f.log, end) && end.b == f.buffer
      && (f.expansions < EXPANSION_LIMIT ==> if f.ok then !Asked(shell, end) else Stuck(shell, capacity, end))
    decreases EXPANSION_LIMIT - expansions
  {
    hide FindAlias, Apply, WordBehind, EndsInBlank, IsBehind, IsNext, After, Asks, ShellOk;
    var p := Point(b, Some(marker));
    end := p;
    if marker >= |b.text| {
      NothingBehind(shell, b, marker);
    } else if expansions < EXPANSION_LIMIT {
      BehindFound(shell, b, marker);
      var next := WordBehind(b, marker);
      if next.Some? {
        var alias := FindAlias(shell, b, next.value.begin, next.value.end);
        if alias.Some? {
          var r := RewriteOf(next.value, alias.value);
          BehindIsNext(shell, capacity, b, marker, r);
          var after := Apply(b, r, capacity);
          if after.Some? {
            OneIsDirected(shell, capacity, p, r);
            end := After(shell, capacity, p, r);
            if EndsInBlank(r.value) {
              var more := Force(shell, capacity, after.value, r.begin + |r.value| + 1, expansions + 1);
              end := ForceIsDirected(shell, capacity, after.value, r.begin + |r.value| + 1, expansions + 1);
              DirectedConcat(shell, capacity, p, [r], After(shell, capacity, p, r), more.log, end);
            }
          }
        }
      }
    }
  }

  lemma NothingBehind(shell: Shell, b: Buffer, marker: nat)
    requires marker >= |b.text|
    ensures forall r :: !IsBehind(shell, b, marker, r)
  {
  }

  /** One command word and the words it asks for. */
  lemma RoundIsDirected(shell: Shell, capacity: nat, p: Point, r: Rewrite, expansions: nat) returns (end: Point)
    requires ShellOk(shell) && |p.b.text| < capacity && !Asked(shell, p) && IsNext(shell, p, r)
    ensures var f := Round(shell, capacity, p.b, r, expansions);
      && Directed(shell, capacity, p, f.log, end) && end.b == f.buffer
      && (f.expansions < EXPANSION_LIMIT ==> if f.ok then !Asked(shell, end) else Stuck(shell, capacity, end))
  {
    hide Apply, Force, EndsInBlank, IsBehind, IsFirstCommand;
    end := p;
    var after := Apply(p.b, r, capacity);
    if after.Some? {
      OneIsDirected(shell, capacity, p, r);
      end := After(shell, capacity, p, r);
      if EndsInBlank(r.value) && !EndsInCommand(shell, r.value) {
        var more := Force(shell, capacity, after.value, r.begin + |r.value| + 1, expansions);
        end := ForceIsDirected(shell, capacity, after.value, r.begin + |r.value| + 1, expansions);
        DirectedConcat(shell, capacity, p, [r], After(shell, capacity, p, r), more.log, end);
      }
    }
  }

  /** With no word asked for, the first alias among the command words is next. */
  lemma FoundIsNext(shell: Shell, p: Point)
    requires ShellOk(shell) && !Asked(shell, p)
    ensures match FirstAlias(shell, p.b, 0)
      case Some(found) => IsNext(shell, p, RewriteOf(found.range, found.alias)) && !Settled(shell, p)
      case None => Settled(shell, p)
  {
    FirstFound(shell, p.b, 0);
    hide FirstAlias, IsFirstCommand, Asked, IsBehind;
    var found := FirstAlias(shell, p.b, 0);
    if found.Some? {
      assert IsNext(shell, p, RewriteOf(found.value.range, found.value.alias));
    }
  }

  lemma NothingDirected(shell: Shell, capacity: nat, p: Point)
    requires ShellOk(shell)
    ensures Directed(shell, capacity, p, [], p)
  {
  }

  /** Everything from the head of the loop on. */
  lemma {:induction false} LoopIsDirected(shell: Shell, capacity: nat, p: Point, expansions: nat, last: nat) returns (end: Point)
    requires ShellOk(shell) && |p.b.text| < capacity && expansions <= EXPANSION_LIMIT + 1
    requires expansions < EXPANSION_LIMIT ==> !Asked(shell, p)
    ensures var o := Loop(shell, capacity, p.b, expansions, last);
      && Directed(shell, capacity, p, o.log, end) && end.b == o.buffer
      && (o.done ==> expansions + |o.log| < EXPANSION_LIMIT && Settled(shell, end))
      && (!o.done && expansions + |o.log| < EXPANSION_LIMIT ==> Stuck(shell, capacity, end))
    decreases EXPANSION_LIMIT + 1 - expansions
  {
    hide Round, FirstAlias, Asked, Apply, IsNext, Settled, Stuck, Directed, ShellOk;
    end := p;
    NothingDirected(shell, capacity, p);
    if expansions < EXPANSION_LIMIT {
      FoundIsNext(shell, p);
      var found := FirstAlias(shell, p.b, 0);
      if found.Some? {
        var r := RewriteOf(found.value.range, found.value.alias);
        var round := Round(shell, capacity, p.b, r, expansions);
        end := RoundIsDirected(shell, capacity, p, r, expansions);
        if round.ok {
          var mid := end;
          var rest := Loop(shell, capacity, round.buffer, round.expansions + 1, r.begin);
          end := LoopIsDirected(shell, capacity, mid, round.expansions + 1, r.begin);
          DirectedConcat(shell, capacity, p, round.log, mid, rest.log, end);
        }
      }
    }
  }

  lemma FirstRoundCounts(shell: Shell, capacity: nat, b: Buffer, r: Rewrite)
    requires ShellOk(shell) && |b.text| < capacity
    ensures var f, round := FirstRound(shell, capacity, b, r), Round(shell, capacity, b, r, 1);
      && f.ok == round.ok && f.buffer == round.buffer && f.log == round.log
      && (f.log != [] ==> f.expansions == round.expansions == |f.log|)
      && (f.log == [] ==> !f.ok && round.expansions == 1)
  {
    hide Apply, Force, EndsInBlank, EndsInCommand;
  }

  /** For every input: each rewrite is the one that comes next, that is, of the word a
      value asked for if it has an alias, else of the first command word that has one; the
      result is parsed exactly when fewer than 128 rewrites leave nothing to rewrite, and
      refused short of that many only because the next one, or the input, does not fit. */
  lemma ExpansionIsDirected(shell: Shell, capacity: nat, input: Text) returns (end: Point)
    requires ShellOk(shell)
    ensures var o := Expand(shell, capacity, input);
      && Directed(shell, capacity, Point(Buffer(input, []), None), o.log, end) && end.b == o.buffer
      && (o.done <==> |o.log| < EXPANSION_LIMIT && Settled(shell, end))
      && (!o.done && |o.log| < EXPANSION_LIMIT ==>
            (o.log == [] && |input| >= capacity) || Stuck(shell, capacity, end))
  {
    hide Round, FirstAlias, IsFirstCommand, IsBehind, Loop, Apply, IsNext, Settled, Directed, ShellOk;
    var p := Point(Buffer(input, []), None);
    end := p;
    NothingDirected(shell, capacity, p);
    FoundIsNext(shell, p);
    var found := FirstAlias(shell, p.b, 0);
    if found.Some? && |input| < capacity {
      var r := RewriteOf(found.value.range, found.value.alias);
      var round := FirstRound(shell, capacity, p.b, r);
      FirstRoundCounts(shell, capacity, p.b, r);
      end := RoundIsDirected(shell, capacity, p, r, 1);
      if round.ok {
        var mid := end;
        var rest := Loop(shell, capacity, round.buffer, round.expansions, r.begin);
        end := LoopIsDirected(shell, capacity, mid, round.expansions, r.begin);
        DirectedConcat(shell, capacity, p, round.log, mid, rest.log, end);
      }
    }
    if Stuck(shell, capacity, end) {
      StuckIsUnsettled(shell, capacity, end);
    }
  }

  lemma StuckIsUnsettled(shell: Shell, capacity: nat, p: Point)
    requires ShellOk(shell) && Stuck(shell, capacity, p)
    ensures !Settled(shell, p)
  {
    hide IsNext, Apply;
  }
}
