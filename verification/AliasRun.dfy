/** The whole alias expansion: which token is rewritten next, when the run stops, and
    why no alias is expanded inside its own expansion. */
module AliasRun {
  import opened Bytes
  import opened AliasFrames
  import opened AliasBlank
  import WordGrammar
  import Tokens

  datatype Range = Range(begin: nat, end: nat)
  datatype Alias = Alias(index: nat, value: Text)

  /** The parser and the alias store, as the expansion sees them. */
  datatype Shell = Shell(
    parses: Text -> bool,
    commandWords: Text -> seq<Range>,
    lookup: Text -> Option<Alias>)

  /** Command words lie in the text and begin where the lexer begins a word: at the
      start, or behind a blank, a newline or an operator.  The one operator that ends in
      a name byte, `<<-`, takes the word behind it as its delimiter. */
  ghost predicate ShellOk(shell: Shell) {
    forall t: Text, i :: 0 <= i < |shell.commandWords(t)| ==>
      && shell.commandWords(t)[i].begin <= shell.commandWords(t)[i].end <= |t|
      && AtEdge(t, shell.commandWords(t)[i].begin)
  }

  // ----- the word to rewrite -----

  const RESERVED: seq<Text> := [
    [105, 102], [116, 104, 101, 110], [101, 108, 115, 101], [101, 108, 105, 102], [102, 105], [100, 111],
    [100, 111, 110, 101], [99, 97, 115, 101], [101, 115, 97, 99], [119, 104, 105, 108, 101],
    [117, 110, 116, 105, 108], [102, 111, 114], [105, 110], [123], [125], [33]
  ]

  /** "command". */
  const COMMAND: Text := [99, 111, 109, 109, 97, 110, 100]

  /** `gsh_alias_name_is_valid`. */
  predicate IsName(word: Text) {
    NameBytes(word, 0, |word|)
  }

  /** `find_alias`. */
  function FindAlias(shell: Shell, b: Buffer, begin: nat, end: nat): Option<Alias>
    requires begin <= end <= |b.text|
  {
    var word := b.text[begin..end];
    if !IsName(word) || word in RESERVED then None
    else
      var alias := shell.lookup(word);
      if alias.None? || alias.value.index >= ALIAS_CAP then None
      else if alias.value.index in TokenAncestors(b.frames, begin, end) then None
      else alias
  }

  datatype Found = Found(range: Range, alias: Alias)

  /** `find_command_alias`, from word `index` on. */
  function FirstAlias(shell: Shell, b: Buffer, index: nat): (found: Option<Found>)
    requires ShellOk(shell)
    ensures found.Some? ==> var r := found.value.range;
      r.begin <= r.end <= |b.text| && AtEdge(b.text, r.begin) && FindAlias(shell, b, r.begin, r.end) == Some(found.value.alias)
    decreases |shell.commandWords(b.text)| - index
  {
    var words := shell.commandWords(b.text);
    if index >= |words| then None
    else
      var alias := FindAlias(shell, b, words[index].begin, words[index].end);
      if alias.Some? then Some(Found(words[index], alias.value)) else FirstAlias(shell, b, index + 1)
  }

  /** `replacement_ends_in_command`. */
  function EndsInCommand(shell: Shell, value: Text): bool
    requires ShellOk(shell)
  {
    var words := shell.commandWords(value);
    shell.parses(value) && words != [] && value[words[|words| - 1].begin..words[|words| - 1].end] == COMMAND
  }

  // ----- the run -----

  datatype Forced = Forced(ok: bool, buffer: Buffer, expansions: nat, log: seq<Rewrite>)

  function RewriteOf(range: Range, alias: Alias): Rewrite {
    Rewrite(range.begin, range.end, alias.value, alias.index)
  }

  /** `force_following_aliases`: the words behind a value that ends in a blank. */
  function Force(shell: Shell, capacity: nat, b: Buffer, marker: nat, expansions: nat): (f: Forced)
    requires |b.text| < capacity
    ensures |f.buffer.text| < capacity && expansions <= f.expansions
    ensures expansions <= EXPANSION_LIMIT ==> f.expansions <= EXPANSION_LIMIT
    ensures f.expansions - expansions == |f.log|
    decreases EXPANSION_LIMIT - expansions
  {
    if marker >= |b.text| || expansions >= EXPANSION_LIMIT then Forced(marker >= |b.text|, b, expansions, [])
    else
      var next := WordBehind(b, marker);
      if next.None? then Forced(true, b, expansions, [])
      else
        var alias := FindAlias(shell, b, next.value.begin, next.value.end);
        if alias.None? then Forced(true, b, expansions, [])
        else
          var r := RewriteOf(next.value, alias.value);
          var after := Apply(b, r, capacity);
          if after.None? then Forced(false, b, expansions, [])
          else if !EndsInBlank(r.value) then Forced(true, after.value, expansions + 1, [r])
          else
            var more := Force(shell, capacity, after.value, r.begin + |r.value| + 1, expansions + 1);
            more.(log := [r] + more.log)
  }

  /** The first token behind `marker`, if it is a word. */
  function WordBehind(b: Buffer, marker: nat): (range: Option<Range>)
    requires marker < |b.text|
    ensures range.Some? ==> marker <= range.value.begin <= range.value.end <= |b.text|
  {
    var rest := b.text[marker..];
    var step := Tokens.Next(rest, Tokens.State(0, Tokens.Okay, 0));
    if step.returned != Tokens.Okay || step.token.None? || !step.token.value.kind.Word? then None
    else
      var t := step.token.value;
      assert t.begin <= t.end <= |rest| by { WordIsInside(rest); }
      Some(Range(marker + t.begin, marker + t.end))
  }

  lemma WordIsInside(rest: Text)
    requires var step := Tokens.Next(rest, Tokens.State(0, Tokens.Okay, 0));
      step.returned == Tokens.Okay && step.token.Some? && step.token.value.kind.Word?
    ensures var t := Tokens.Next(rest, Tokens.State(0, Tokens.Okay, 0)).token.value; t.begin <= t.end <= |rest|
  {
    hide Tokens.Skip, Tokens.OPERATORS, Tokens.OperatorAt;
    var st := Tokens.State(0, Tokens.Okay, 0);
    Tokens.NextMoves(rest, st);
    var p := Tokens.Skip(rest, 0, Tokens.TRIVIA_STEP_CAP).at;
    Tokens.OperatorsAreLongest(rest, p);
    if Tokens.OperatorAt(rest, p).Some? {
      Tokens.KindsOfOperators(Tokens.OperatorAt(rest, p).value);
    }
    Tokens.ScanMoves(rest, WordGrammar.Config(p, [], None));
  }

  lemma {:induction false} TriviaEndsAtEdge(s: Text, p: nat, q: nat)
    requires p < q <= |s| && Tokens.Trivia(s, p, q) && (q < |s| ==> s[q] != NEWLINE)
    ensures q < |s| ==> !IsNameByte(s[q - 1])
    decreases q - p
  {
    hide Tokens.CommentEnd;
    if s[p] == WordGrammar.SPACE || s[p] == WordGrammar.TAB {
      if p + 1 < q {
        TriviaEndsAtEdge(s, p + 1, q);
      }
    } else if Tokens.Continued(s, p) {
      if p + 2 < q {
        TriviaEndsAtEdge(s, p + 2, q);
      }
    } else {
      Tokens.CommentMoves(s, p);
      if Tokens.CommentEnd(s, p) < q {
        TriviaEndsAtEdge(s, Tokens.CommentEnd(s, p), q);
      }
    }
  }

  /** A word the lexer returns begins at the start or behind trivia. */
  lemma WordBeginsAtEdge(rest: Text)
    requires var step := Tokens.Next(rest, Tokens.State(0, Tokens.Okay, 0));
      step.returned == Tokens.Okay && step.token.Some? && step.token.value.kind.Word?
    ensures AtEdge(rest, Tokens.Next(rest, Tokens.State(0, Tokens.Okay, 0)).token.value.begin)
  {
    hide Tokens.Skip, Tokens.OPERATORS, Tokens.OperatorAt, Tokens.Trivia, WordGrammar.Scan;
    WordIsInside(rest);
    Tokens.SkipIsTrivia(rest, 0, Tokens.TRIVIA_STEP_CAP);
    var p := Tokens.Skip(rest, 0, Tokens.TRIVIA_STEP_CAP).at;
    if Tokens.OperatorAt(rest, p).Some? {
      Tokens.OperatorsAreLongest(rest, p);
      Tokens.KindsOfOperators(Tokens.OperatorAt(rest, p).value);
    }
    if p > 0 {
      TriviaEndsAtEdge(rest, 0, p);
    }
  }

  /** Directly behind an inserted blank. */
  predicate BehindBlank(text: Text, marker: nat) {
    0 < marker <= |text| && text[marker - 1] == BLANK
  }

  lemma WordBehindIsAtEdge(b: Buffer, marker: nat)
    requires marker < |b.text| && BehindBlank(b.text, marker) && WordBehind(b, marker).Some?
    ensures AtEdge(b.text, WordBehind(b, marker).value.begin)
  {
    hide Tokens.Next;
    var rest := b.text[marker..];
    WordBeginsAtEdge(rest);
    var p := Tokens.Next(rest, Tokens.State(0, Tokens.Okay, 0)).token.value.begin;
    WordIsInside(rest);
    if p > 0 {
      assert rest[p - 1] == b.text[marker + p - 1];
    }
  }

  lemma BlankIsBehind(b: Buffer, r: Rewrite, capacity: nat)
    requires |b.text| < capacity && Apply(b, r, capacity).Some?
    ensures BehindBlank(Apply(b, r, capacity).value.text, r.begin + |r.value| + 1)
  {
    OneTokenChanges(b, r, capacity);
    hide Apply;
  }

  /** How an expansion ends: parsed, or refused at an offset. */
  datatype Outcome = Outcome(done: bool, buffer: Buffer, log: seq<Rewrite>, offset: nat)

  /** One rewrite and the words it forces. */
  function Round(shell: Shell, capacity: nat, b: Buffer, r: Rewrite, expansions: nat): (f: Forced)
    requires ShellOk(shell) && |b.text| < capacity
    ensures |f.buffer.text| < capacity
    ensures expansions <= EXPANSION_LIMIT ==> expansions <= f.expansions <= EXPANSION_LIMIT
    ensures f.expansions <= expansions + |f.log| <= f.expansions + 1
    ensures f.ok ==> |f.log| == f.expansions - expansions + 1
  {
    var after := Apply(b, r, capacity);
    if after.None? then Forced(false, b, expansions, [])
    else if !EndsInBlank(r.value) || EndsInCommand(shell, r.value) then Forced(true, after.value, expansions, [r])
    else
      var more := Force(shell, capacity, after.value, r.begin + |r.value| + 1, expansions);
      more.(log := [r] + more.log)
  }

  /** The loop of `gsh_alias_parse`. */
  function Loop(shell: Shell, capacity: nat, b: Buffer, expansions: nat, last: nat): (o: Outcome)
    requires ShellOk(shell) && |b.text| < capacity && expansions <= EXPANSION_LIMIT + 1
    decreases EXPANSION_LIMIT + 1 - expansions
  {
    if expansions >= EXPANSION_LIMIT then Outcome(false, b, [], last)
    else
      var found := FirstAlias(shell, b, 0);
      if found.None? then Outcome(true, b, [], 0)
      else
        var r := RewriteOf(found.value.range, found.value.alias);
        var round := Round(shell, capacity, b, r, expansions);
        if !round.ok then Outcome(false, round.buffer, round.log, r.begin)
        else
          var rest := Loop(shell, capacity, round.buffer, round.expansions + 1, r.begin);
          rest.(log := round.log + rest.log)
  }

  /** `gsh_alias_parse`; an input that nothing rewrites is parsed as it is. */
  function Expand(shell: Shell, capacity: nat, input: Text): Outcome
    requires ShellOk(shell)
  {
    var b := Buffer(input, []);
    var found := FirstAlias(shell, b, 0);
    if found.None? then Outcome(true, b, [], 0)
    else if |input| >= capacity then Outcome(false, b, [], |input|)
    else
      var r := RewriteOf(found.value.range, found.value.alias);
      var round := FirstRound(shell, capacity, b, r);
      if !round.ok then Outcome(false, round.buffer, round.log, r.begin)
      else
        var rest := Loop(shell, capacity, round.buffer, round.expansions, r.begin);
        rest.(log := round.log + rest.log)
  }

  /** The rewrite in front of the loop counts before it forces anything. */
  function FirstRound(shell: Shell, capacity: nat, b: Buffer, r: Rewrite): (f: Forced)
    requires ShellOk(shell) && |b.text| < capacity
    ensures |f.buffer.text| < capacity && f.expansions <= EXPANSION_LIMIT
    ensures |f.log| <= f.expansions && (f.ok ==> |f.log| == f.expansions)
  {
    if Apply(b, r, capacity).None? then Forced(false, b, 0, [])
    else
      Round(shell, capacity, b, r, 1)
  }

  // ----- every run is a chain of legal rewrites -----

  /** The token is a whole name with an alias that is not among its ancestors. */
  predicate Legal(shell: Shell, b: Buffer, r: Rewrite) {
    && NameBytes(b.text, r.begin, r.end) && AtEdge(b.text, r.begin) && b.text[r.begin..r.end] !in RESERVED
    && shell.lookup(b.text[r.begin..r.end]) == Some(Alias(r.alias, r.value)) && r.alias < ALIAS_CAP
    && r.alias !in TokenAncestors(b.frames, r.begin, r.end)
  }

  predicate Chain(shell: Shell, capacity: nat, b: Buffer, log: seq<Rewrite>, final: Buffer)
    decreases |log|
  {
    if log == [] then b == final
    else
      && |b.text| < capacity && Legal(shell, b, log[0]) && Apply(b, log[0], capacity).Some?
      && Chain(shell, capacity, Apply(b, log[0], capacity).value, log[1..], final)
  }

  lemma FoundIsLegal(shell: Shell, b: Buffer, range: Range)
    requires range.begin <= range.end <= |b.text| && AtEdge(b.text, range.begin)
    requires FindAlias(shell, b, range.begin, range.end).Some?
    ensures Legal(shell, b, RewriteOf(range, FindAlias(shell, b, range.begin, range.end).value))
  {
    hide TokenAncestors, RESERVED;
    var word := b.text[range.begin..range.end];
    assert forall k :: range.begin <= k < range.end ==> b.text[k] == word[k - range.begin];
  }

  lemma {:induction false} ChainConcat(shell: Shell, capacity: nat, b: Buffer, first: seq<Rewrite>, mid: Buffer,
                                       second: seq<Rewrite>, final: Buffer)
    requires Chain(shell, capacity, b, first, mid) && Chain(shell, capacity, mid, second, final)
    ensures Chain(shell, capacity, b, first + second, final)
    decreases |first|
  {
    hide Legal, Apply;
    if first == [] {
      assert first + second == second;
    } else {
      assert (first + second)[1..] == first[1..] + second;
      ChainConcat(shell, capacity, Apply(b, first[0], capacity).value, first[1..], mid, second, final);
    }
  }

  lemma OneIsChain(shell: Shell, capacity: nat, b: Buffer, r: Rewrite)
    requires |b.text| < capacity && Legal(shell, b, r) && Apply(b, r, capacity).Some?
    ensures Chain(shell, capacity, b, [r], Apply(b, r, capacity).value)
  {
    hide Legal, Apply;
    assert [r][1..] == [];
  }

  lemma {:induction false} ForceIsChain(shell: Shell, capacity: nat, b: Buffer, marker: nat, expansions: nat)
    requires |b.text| < capacity && BehindBlank(b.text, marker)
    ensures var f := Force(shell, capacity, b, marker, expansions); Chain(shell, capacity, b, f.log, f.buffer)
    decreases EXPANSION_LIMIT - expansions
  {
    hide FindAlias, Apply, Legal, WordBehind, EndsInBlank;
    if marker < |b.text| && expansions < EXPANSION_LIMIT {
      var next := WordBehind(b, marker);
      if next.Some? {
        var alias := FindAlias(shell, b, next.value.begin, next.value.end);
        if alias.Some? {
          var r := RewriteOf(next.value, alias.value);
          WordBehindIsAtEdge(b, marker);
          FoundIsLegal(shell, b, next.value);
          var after := Apply(b, r, capacity);
          if after.Some? {
            OneIsChain(shell, capacity, b, r);
            BlankIsBehind(b, r, capacity);
            if EndsInBlank(r.value) {
              ForceIsChain(shell, capacity, after.value, r.begin + |r.value| + 1, expansions + 1);
              var more := Force(shell, capacity, after.value, r.begin + |r.value| + 1, expansions + 1);
              ChainConcat(shell, capacity, b, [r], after.value, more.log, more.buffer);
            }
          }
        }
      }
    }
  }

  lemma RoundIsChain(shell: Shell, capacity: nat, b: Buffer, r: Rewrite, expansions: nat)
    requires ShellOk(shell) && |b.text| < capacity && Legal(shell, b, r)
    ensures var f := Round(shell, capacity, b, r, expansions); Chain(shell, capacity, b, f.log, f.buffer)
  {
    hide Apply, Legal, Force, Chain, EndsInBlank, EndsInCommand;
    var after := Apply(b, r, capacity);
    NoChain(shell, capacity, b);
    if after.Some? {
      OneIsChain(shell, capacity, b, r);
      BlankIsBehind(b, r, capacity);
      ForceIsChain(shell, capacity, after.value, r.begin + |r.value| + 1, expansions);
      var more := Force(shell, capacity, after.value, r.begin + |r.value| + 1, expansions);
      ChainConcat(shell, capacity, b, [r], after.value, more.log, more.buffer);
    }
  }

  lemma NoChain(shell: Shell, capacity: nat, b: Buffer)
    ensures Chain(shell, capacity, b, [], b)
  {
  }

  lemma {:induction false} LoopIsChain(shell: Shell, capacity: nat, b: Buffer, expansions: nat, last: nat)
    requires ShellOk(shell) && |b.text| < capacity && expansions <= EXPANSION_LIMIT + 1
    ensures var o := Loop(shell, capacity, b, expansions, last);
      && Chain(shell, capacity, b, o.log, o.buffer) && expansions + |o.log| <= EXPANSION_LIMIT + 1
      && (o.done ==> FirstAlias(shell, o.buffer, 0).None?)
    decreases EXPANSION_LIMIT + 1 - expansions
  {
    hide Round, Chain, Legal, FirstAlias;
    NoChain(shell, capacity, b);
    if expansions < EXPANSION_LIMIT {
      var found := FirstAlias(shell, b, 0);
      if found.Some? {
        var r := RewriteOf(found.value.range, found.value.alias);
        FoundIsLegal(shell, b, found.value.range);
        RoundIsChain(shell, capacity, b, r, expansions);
        var round := Round(shell, capacity, b, r, expansions);
        if round.ok {
          LoopIsChain(shell, capacity, round.buffer, round.expansions + 1, r.begin);
          var rest := Loop(shell, capacity, round.buffer, round.expansions + 1, r.begin);
          ChainConcat(shell, capacity, b, round.log, round.buffer, rest.log, rest.buffer);
        }
      }
    }
  }

  /** Every expansion is at most 129 legal rewrites of one token each, the text stays
      below the capacity, and what is parsed at the end has no alias left to expand. */
  lemma ExpansionIsChain(shell: Shell, capacity: nat, input: Text)
    requires ShellOk(shell)
    ensures var o := Expand(shell, capacity, input);
      && Chain(shell, capacity, Buffer(input, []), o.log, o.buffer)
      && |o.log| <= EXPANSION_LIMIT + 1
      && (o.done ==> FirstAlias(shell, o.buffer, 0).None?)
      && (o.log != [] ==> |o.buffer.text| < capacity)
  {
    hide Round, Loop, Chain, Legal, FirstAlias, Apply;
    var b := Buffer(input, []);
    NoChain(shell, capacity, b);
    var found := FirstAlias(shell, b, 0);
    if found.Some? && |input| < capacity {
      var r := RewriteOf(found.value.range, found.value.alias);
      FoundIsLegal(shell, b, found.value.range);
      RoundIsChain(shell, capacity, b, r, 1);
      var round := FirstRound(shell, capacity, b, r);
      if round.ok {
        LoopIsChain(shell, capacity, round.buffer, round.expansions, r.begin);
        var rest := Loop(shell, capacity, round.buffer, round.expansions, r.begin);
        ChainConcat(shell, capacity, b, round.log, round.buffer, rest.log, rest.buffer);
        ChainFits(shell, capacity, round.buffer, rest.log, rest.buffer);
      }
    }
  }

  lemma {:induction false} ChainFits(shell: Shell, capacity: nat, b: Buffer, log: seq<Rewrite>, final: Buffer)
    requires Chain(shell, capacity, b, log, final) && |b.text| < capacity
    ensures |final.text| < capacity
    decreases |log|
  {
    hide Legal;
    if log != [] {
      ChainFits(shell, capacity, Apply(b, log[0], capacity).value, log[1..], final);
    }
  }

  // ----- where every byte really came from -----

  function Union(marks: seq<set<nat>>): set<nat> {
    if marks == [] then {} else Union(marks[..|marks| - 1]) + marks[|marks| - 1]
  }

  /** The bytes of a value come from the alias and from all its token came from;
      every other byte comes from where it came from before. */
  function Marked(marks: seq<set<nat>>, r: Rewrite): (after: seq<set<nat>>)
    requires r.begin <= r.end <= |marks|
    ensures |after| == |marks| - (r.end - r.begin) + |r.value| + 1
  {
    marks[..r.begin] + seq(|r.value|, _ => Union(marks[r.begin..r.end]) + {r.alias}) + [{}] + marks[r.end..]
  }

  function MarksAfter(marks: seq<set<nat>>, log: seq<Rewrite>): seq<set<nat>>
    decreases |log|
  {
    if log == [] || !(log[0].begin <= log[0].end <= |marks|) then marks
    else MarksAfter(Marked(marks, log[0]), log[1..])
  }

  /** On every byte of a name the recorded intervals say exactly where it came from. */
  ghost predicate Traced(marks: seq<set<nat>>, b: Buffer) {
    && |marks| == |b.text|
    && forall at :: 0 <= at < |marks| && IsNameByte(b.text[at]) ==> marks[at] == AncestorsAt(b.frames, at)
  }

  lemma {:induction false} UnionOfSame(marks: seq<set<nat>>, all: set<nat>)
    requires marks != [] && forall i :: 0 <= i < |marks| ==> marks[i] == all
    ensures Union(marks) == all
  {
    if |marks| > 1 {
      UnionOfSame(marks[..|marks| - 1], all);
    } else {
      assert Union(marks[..0]) == {};
    }
  }

  /** What `find_alias` consults for a name is exactly what the name came from. */
  lemma NameIsTraced(marks: seq<set<nat>>, b: Buffer, begin: nat, end: nat)
    requires Traced(marks, b) && Fenced(b) && NameBytes(b.text, begin, end)
    ensures end <= |marks| && Union(marks[begin..end]) == TokenAncestors(b.frames, begin, end)
  {
    hide TokenAncestors, Fenced, Union;
    forall i | 0 <= i < end - begin ensures marks[begin..end][i] == TokenAncestors(b.frames, begin, end) {
      NameIsUniform(b.text, b.frames, begin, end, begin + i);
    }
    UnionOfSame(marks[begin..end], TokenAncestors(b.frames, begin, end));
  }

  /** A byte that survives is the same byte with the same marks. */
  lemma SurvivorMarks(marks: seq<set<nat>>, b: Buffer, r: Rewrite, capacity: nat, at: nat)
    requires |marks| == |b.text| < capacity && Apply(b, r, capacity).Some? && r.begin < r.end && Survives(b, r, at)
    ensures var t := Apply(b, r, capacity).value.text;
      && Moved(r, at) < |t| == |Marked(marks, r)|
      && t[Moved(r, at)] == b.text[at] && Marked(marks, r)[Moved(r, at)] == marks[at]
  {
    OneTokenChanges(b, r, capacity);
    hide Apply, Union;
    var t, behind := Apply(b, r, capacity).value.text, r.begin + |r.value| + 1;
    if at < r.begin {
      assert t[at] == t[..r.begin][at] == b.text[at];
    } else {
      assert t[Moved(r, at)] == t[behind..][at - r.end] == b.text[at];
    }
  }

  lemma ValueMarks(marks: seq<set<nat>>, r: Rewrite, at: nat)
    requires r.begin <= r.end <= |marks| && r.begin <= at < r.begin + |r.value|
    ensures Marked(marks, r)[at] == Union(marks[r.begin..r.end]) + {r.alias}
  {
    hide Union;
  }

  lemma TracedAt(marks: seq<set<nat>>, b: Buffer, at: nat)
    requires Traced(marks, b) && at < |b.text| && IsNameByte(b.text[at])
    ensures |marks| == |b.text| && marks[at] == AncestorsAt(b.frames, at)
  {
    hide IsNameByte, AncestorsAt;
  }

  lemma SurvivorStaysTraced(marks: seq<set<nat>>, b: Buffer, r: Rewrite, capacity: nat, at: nat)
    requires Traced(marks, b) && Fenced(b) && |b.text| < capacity && Apply(b, r, capacity).Some?
    requires NameBytes(b.text, r.begin, r.end) && Survives(b, r, at)
    ensures var after := Apply(b, r, capacity).value;
      && Moved(r, at) < |after.text| && |marks| == |b.text|
      && (IsNameByte(after.text[Moved(r, at)]) ==>
            Marked(marks, r)[Moved(r, at)] == AncestorsAt(after.frames, Moved(r, at)))
  {
    hide AncestorsAt, Apply, Fenced, Marked, IsNameByte;
    SurvivorMarks(marks, b, r, capacity, at);
    NamesNeverForget(b, r, capacity, at);
    if IsNameByte(b.text[at]) {
      TracedAt(marks, b, at);
    }
  }

  lemma ValueIsTraced(marks: seq<set<nat>>, b: Buffer, r: Rewrite, capacity: nat, at: nat)
    requires Traced(marks, b) && Fenced(b) && |b.text| < capacity && Apply(b, r, capacity).Some?
    requires NameBytes(b.text, r.begin, r.end) && r.begin <= at < r.begin + |r.value|
    ensures r.end <= |marks| && Marked(marks, r)[at] == AncestorsAt(Apply(b, r, capacity).value.frames, at)
  {
    hide AncestorsAt, Apply, Fenced, Marked, Traced;
    NameIsTraced(marks, b, r.begin, r.end);
    ProvenanceAfter(b, r, capacity, at);
    ValueMarks(marks, r, at);
  }

  /** Where a byte outside the replacement was. */
  lemma Origin(b: Buffer, r: Rewrite, capacity: nat, at: nat) returns (was: nat)
    requires |b.text| < capacity && Apply(b, r, capacity).Some? && r.begin < r.end
    requires at < |Apply(b, r, capacity).value.text| && (at < r.begin || r.begin + |r.value| < at)
    ensures Survives(b, r, was) && Moved(r, was) == at
  {
    OneTokenChanges(b, r, capacity);
    hide Apply;
    was := if at < r.begin then at else at - (r.begin + |r.value| + 1) + r.end;
  }

  lemma StaysTraced(marks: seq<set<nat>>, b: Buffer, r: Rewrite, capacity: nat)
    requires Traced(marks, b) && Fenced(b) && |b.text| < capacity && Apply(b, r, capacity).Some?
    requires NameBytes(b.text, r.begin, r.end)
    ensures r.end <= |marks| && Traced(Marked(marks, r), Apply(b, r, capacity).value)
  {
    var after := Apply(b, r, capacity).value;
    OneTokenChanges(b, r, capacity);
    hide AncestorsAt, Apply, Fenced, Marked, Moved, Survives;
    var now := Marked(marks, r);
    assert !IsNameByte(BLANK);
    forall at | 0 <= at < |now| && IsNameByte(after.text[at]) ensures now[at] == AncestorsAt(after.frames, at) {
      if r.begin <= at < r.begin + |r.value| {
        ValueIsTraced(marks, b, r, capacity, at);
      } else {
        var was := Origin(b, r, capacity, at);
        SurvivorStaysTraced(marks, b, r, capacity, was);
      }
    }
  }

  /** No rewritten token holds a byte that came from the same alias. */
  predicate NeverInsideItself(marks: seq<set<nat>>, log: seq<Rewrite>)
    decreases |log|
  {
    log != [] ==>
      && log[0].begin <= log[0].end <= |marks|
      && log[0].alias !in Union(marks[log[0].begin..log[0].end])
      && NeverInsideItself(Marked(marks, log[0]), log[1..])
  }

  lemma {:induction false} ChainNeverInsideItself(shell: Shell, capacity: nat, b: Buffer, log: seq<Rewrite>,
                                                  final: Buffer, marks: seq<set<nat>>)
    requires Chain(shell, capacity, b, log, final) && Fenced(b) && Traced(marks, b)
    ensures NeverInsideItself(marks, log) && Fenced(final) && Traced(MarksAfter(marks, log), final)
    decreases |log|
  {
    hide Apply, Traced, Fenced, Union, TokenAncestors;
    if log != [] {
      var r := log[0];
      FencesStay(b, r, capacity);
      StaysTraced(marks, b, r, capacity);
      NameIsTraced(marks, b, r.begin, r.end);
      ChainNeverInsideItself(shell, capacity, Apply(b, r, capacity).value, log[1..], final, Marked(marks, r));
    }
  }

  lemma NothingTraced(input: Text)
    ensures Fenced(Buffer(input, [])) && Traced(seq(|input|, _ => {}), Buffer(input, []))
  {
  }

  /** For every input: no alias is expanded inside its own expansion, directly or
      through others. */
  lemma NoAliasInsideItself(shell: Shell, capacity: nat, input: Text)
    requires ShellOk(shell)
    ensures NeverInsideItself(seq(|input|, _ => {}), Expand(shell, capacity, input).log)
  {
    hide Expand, Chain, NeverInsideItself, Fenced, Traced;
    ExpansionIsChain(shell, capacity, input);
    NothingTraced(input);
    var o := Expand(shell, capacity, input);
    ChainNeverInsideItself(shell, capacity, Buffer(input, []), o.log, o.buffer, seq(|input|, _ => {}));
  }

  /** And nothing else is held back: in the text an expansion ends with, a name that
      has an alias is left alone exactly when it came from that alias. */
  lemma WithheldExactlyInside(shell: Shell, capacity: nat, input: Text, begin: nat, end: nat)
    requires ShellOk(shell)
    requires NameBytes(Expand(shell, capacity, input).buffer.text, begin, end)
    ensures var o := Expand(shell, capacity, input);
      var marks := MarksAfter(seq(|input|, _ => {}), o.log);
      var word := o.buffer.text[begin..end];
      && end <= |marks|
      && (word !in RESERVED && shell.lookup(word).Some? && shell.lookup(word).value.index < ALIAS_CAP ==>
            (FindAlias(shell, o.buffer, begin, end).None? <==>
             shell.lookup(word).value.index in Union(marks[begin..end])))
  {
    hide Expand, Chain, NeverInsideItself, Fenced, Traced, Union, TokenAncestors, RESERVED;
    ExpansionIsChain(shell, capacity, input);
    NothingTraced(input);
    var o := Expand(shell, capacity, input);
    ChainNeverInsideItself(shell, capacity, Buffer(input, []), o.log, o.buffer, seq(|input|, _ => {}));
    NameIsTraced(MarksAfter(seq(|input|, _ => {}), o.log), o.buffer, begin, end);
    var word := o.buffer.text[begin..end];
    assert IsName(word);
  }
}
