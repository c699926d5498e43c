/** The imperative alias expansion: a text buffer edited in place, an array of
    intervals compacted in place, and the loops that drive them. */
module AliasExpansion {
  import opened Bytes
  import opened AliasFrames
  import opened AliasBlank
  import opened AliasRun
  import WordGrammar
  import Tokens
  import Lexer

  class Expander {
    const shell: Shell
    const text: array<Byte>
    var length: nat
    const frames: array<Frame>
    var frameCount: nat

    ghost predicate Valid()
      reads this, text
    {
      && ShellOk(shell) && frames.Length == EXPANSION_LIMIT && frameCount <= EXPANSION_LIMIT
      && length < text.Length && text[length] == NUL
    }

    ghost function View(): (b: Buffer)
      reads this, text, frames
      requires Valid()
      ensures |b.text| == length && |b.frames| == frameCount
    {
      Buffer(text[..length], frames[..frameCount])
    }

    /** The copy of the input, with no intervals yet. */
    constructor (shell: Shell, input: Text, capacity: nat)
      requires ShellOk(shell) && |input| < capacity
      ensures Valid() && View() == Buffer(input, []) && text.Length == capacity && this.shell == shell
      ensures fresh(text) && fresh(frames)
    {
      this.shell := shell;
      text := new Byte[capacity](k => if 0 <= k < |input| then input[k] else NUL);
      length := |input|;
      frames := new Frame[EXPANSION_LIMIT](_ => Frame(0, 0, {}));
      frameCount := 0;
      new;
      assert text[..length] == input;
    }

    /** `token_ancestors`. */
    method Ancestors(begin: nat, end: nat) returns (ancestors: set<nat>)
      requires Valid()
      ensures ancestors == TokenAncestors(View().frames, begin, end)
    {
      ancestors := {};
      for index := 0 to frameCount
        invariant ancestors == TokenAncestors(frames[..index], begin, end)
      {
        assert frames[..index + 1] == frames[..index] + [frames[index]];
        AncestorsNext(frames[..index], frames[index], begin, end);
        if Overlaps(frames[index], begin, end) {
          ancestors := ancestors + frames[index].ancestors;
        }
      }
    }

    /** The compaction loop of `rewrite_alias`: reading never falls behind writing. */
    method CompactFrames(begin: nat, end: nat, replacement: nat) returns (write: nat, ancestors: set<nat>)
      requires Valid() && begin <= end
      modifies frames
      ensures Valid() && write <= frameCount
      ensures frames[..write] == Adjusted(old(View()).frames, begin, end, replacement)
      ensures ancestors == TokenAncestors(old(View()).frames, begin, end)
    {
      hide Adjust, Adjusted, TokenAncestors, ShellOk, Overlaps;
      ghost var was := frames[..frameCount];
      CompactNothing(begin, end, replacement);
      write, ancestors := 0, {};
      for read := 0 to frameCount
        invariant write <= read
        invariant frames[..write] == Adjusted(was[..read], begin, end, replacement)
        invariant forall k :: read <= k < frameCount ==> frames[k] == was[k]
        invariant ancestors == TokenAncestors(was[..read], begin, end)
      {
        var frame := frames[read];
        CompactNext(was, read, begin, end, replacement);
        if Overlaps(frame, begin, end) {
          ancestors := ancestors + frame.ancestors;
        }
        var kept := Adjust(frame, begin, end, replacement);
        if kept.Some? {
          frames[write] := kept.value;
          write := write + 1;
        }
      }
      assert was[..frameCount] == was;
    }

    /** Copy bytes as if through a second buffer. */
    method Copy(source: Text, to: nat)
      requires to + |source| <= text.Length
      modifies text
      ensures forall k :: 0 <= k < |source| ==> text[to + k] == source[k]
      ensures forall k :: 0 <= k < to || to + |source| <= k < text.Length ==> text[k] == old(text[k])
    {
      forall k | 0 <= k < |source| {
        text[to + k] := source[k];
      }
    }

    /** The copies of `rewrite_alias`: the tail moves, then the value and a blank take
        the place of the token. */
    method ReplaceToken(r: Rewrite)
      requires Valid() && r.begin <= r.end <= length
      requires length - (r.end - r.begin) + |r.value| + 1 < text.Length
      modifies this`length, text
      ensures Valid() && text[..length] == ReplacedText(old(text[..length]), r)
    {
      hide ShellOk, ReplacedText;
      ghost var was := text[..length];
      var tail := text[r.end..length];
      var behind := r.begin + |r.value| + 1;
      Copy(tail, behind);
      Copy(r.value + [BLANK], r.begin);
      length := behind + |tail|;
      text[length] := NUL;
      Reassembled(text[..length], was, r);
    }

    /** `rewrite_alias`. */
    method RewriteAlias(r: Rewrite) returns (ok: bool)
      requires Valid()
      modifies this`length, this`frameCount, text, frames
      ensures Valid() && ok == Apply(old(View()), r, text.Length).Some?
      ensures View() == if ok then Apply(old(View()), r, text.Length).value else old(View())
    {
      hide Adjusted, ReplacedText, TokenAncestors;
      if frameCount == EXPANSION_LIMIT || r.begin > r.end || r.end > length ||
         |r.value| + 1 >= text.Length - (length - (r.end - r.begin)) {
        return false;
      }
      var write, ancestors := CompactFrames(r.begin, r.end, |r.value| + 1);
      ReplaceToken(r);
      frames[write] := Frame(r.begin, r.begin + |r.value|, ancestors + {r.alias});
      frameCount := write + 1;
      return true;
    }

    /** `find_alias`. */
    method LookUp(begin: nat, end: nat) returns (alias: Option<Alias>)
      requires Valid() && begin <= end <= length
      ensures alias == FindAlias(shell, View(), begin, end)
    {
      hide TokenAncestors, RESERVED;
      assert View().text[begin..end] == text[begin..end];
      var word := text[begin..end];
      if !IsName(word) || word in RESERVED {
        return None;
      }
      alias := shell.lookup(word);
      if alias.None? || alias.value.index >= ALIAS_CAP {
        return None;
      }
      var ancestors := Ancestors(begin, end);
      if alias.value.index in ancestors {
        return None;
      }
    }

    /** `find_command_alias`. */
    method FindCommand() returns (found: Option<Found>)
      requires Valid()
      ensures found == FirstAlias(shell, View(), 0)
    {
      hide FindAlias;
      assert View().text == text[..length];
      var words := shell.commandWords(text[..length]);
      var index := 0;
      while index < |words|
        invariant index <= |words| && FirstAlias(shell, View(), 0) == FirstAlias(shell, View(), index)
      {
        var alias := LookUp(words[index].begin, words[index].end);
        if alias.Some? {
          return Some(Found(words[index], alias.value));
        }
        index := index + 1;
      }
      return None;
    }

    /** The first token behind `marker`, if the lexer returns a word. */
    method NextWord(marker: nat) returns (range: Option<Range>)
      requires Valid() && marker < length
      ensures range == WordBehind(View(), marker)
    {
      hide Tokens.Next;
      assert View().text[marker..] == text[marker..length];
      var lexer := new Lexer.PosixLexer(text[marker..length]);
      var returned, token, _, _ := lexer.NextToken();
      if returned != Tokens.Okay || token.None? || !token.value.kind.Word? {
        return None;
      }
      return Some(Range(marker + token.value.begin, marker + token.value.end));
    }

    /** `force_following_aliases`. */
    method ForceFollowing(marker: nat, expansions: nat) returns (ok: bool, count: nat, ghost log: seq<Rewrite>)
      requires Valid()
      modifies this`length, this`frameCount, text, frames
      ensures Valid()
      ensures Forced(ok, View(), count, log) == Force(shell, text.Length, old(View()), marker, expansions)
    {
      hide FindAlias, Apply, WordBehind, EndsInBlank;
      var at: nat := marker;
      count, log := expansions, [];
      ghost var whole := Force(shell, text.Length, View(), marker, expansions);
      while at < length && count < EXPANSION_LIMIT
        invariant Valid() && whole == Continued(log, Force(shell, text.Length, View(), at, count))
        decreases EXPANSION_LIMIT - count
      {
        var next := NextWord(at);
        if next.None? {
          ok := true;
          assert log + [] == log;
          return;
        }
        var alias := LookUp(next.value.begin, next.value.end);
        if alias.None? {
          ok := true;
          assert log + [] == log;
          return;
        }
        var r := RewriteOf(next.value, alias.value);
        ghost var more := Force(shell, text.Length, View(), at, count).log;
        var rewritten := RewriteAlias(r);
        if !rewritten {
          ok := false;
          assert log + [] == log;
          return;
        }
        count := count + 1;
        var follows := CheckBlank(r.value);
        if more != [] {
          Regroup(log, [r], more[1..]);
        }
        log := log + [r];
        if !follows {
          ok := true;
          return;
        }
        at := r.begin + |r.value| + 1;
      }
      assert log + [] == log;
      ok := at >= length;
    }

    /** One rewrite and, behind a value that ends in a blank, the words it forces. */
    method RewriteRound(r: Rewrite, expansions: nat) returns (ok: bool, count: nat, ghost log: seq<Rewrite>)
      requires Valid()
      modifies this`length, this`frameCount, text, frames
      ensures Valid()
      ensures Forced(ok, View(), count, log) == Round(shell, text.Length, old(View()), r, expansions)
    {
      hide Apply, Force, EndsInBlank, EndsInCommand;
      ok := RewriteAlias(r);
      count, log := expansions, [];
      if !ok {
        return;
      }
      log := [r];
      var follows := CheckBlank(r.value);
      if follows && !EndsInCommand(shell, r.value) {
        ghost var more;
        ok, count, more := ForceFollowing(r.begin + |r.value| + 1, expansions);
        log := [r] + more;
      }
    }

    /** The loop of `gsh_alias_parse`. */
    method ExpandAll(expansions: nat, last: nat) returns (done: bool, offset: nat, ghost log: seq<Rewrite>)
      requires Valid() && expansions <= EXPANSION_LIMIT
      modifies this`length, this`frameCount, text, frames
      ensures Valid()
      ensures Outcome(done, View(), log, offset) == Loop(shell, text.Length, old(View()), expansions, last)
    {
      hide Round, FirstAlias, ShellOk, Loop;
      var count: nat, candidate: nat := expansions, last;
      log := [];
      ghost var whole := Loop(shell, text.Length, View(), expansions, last);
      while count < EXPANSION_LIMIT
        invariant Valid() && count <= EXPANSION_LIMIT + 1
        invariant whole == Before(log, Loop(shell, text.Length, View(), count, candidate))
        decreases EXPANSION_LIMIT + 1 - count
      {
        LoopTurn(shell, text.Length, View(), count, candidate);
        var found := FindCommand();
        if found.None? {
          done, offset := true, 0;
          assert log + [] == log;
          return;
        }
        var r := RewriteOf(found.value.range, found.value.alias);
        candidate := r.begin;
        ghost var was := View();
        var ok, now, more := RewriteRound(r, count);
        ghost var rest := Loop(shell, text.Length, View(), now + 1, r.begin);
        Regroup(log, more, rest.log);
        log := log + more;
        if !ok {
          done, offset := false, candidate;
          return;
        }
        count := now + 1;
      }
      LoopTurn(shell, text.Length, View(), count, candidate);
      done, offset := false, candidate;
      assert log + [] == log;
    }
  }

  function Continued(log: seq<Rewrite>, f: Forced): Forced {
    f.(log := log + f.log)
  }

  function Before(log: seq<Rewrite>, o: Outcome): Outcome {
    o.(log := log + o.log)
  }

  lemma LoopTurn(shell: Shell, capacity: nat, b: Buffer, expansions: nat, last: nat)
    requires ShellOk(shell) && |b.text| < capacity && expansions <= EXPANSION_LIMIT + 1
    ensures Loop(shell, capacity, b, expansions, last) ==
      if expansions >= EXPANSION_LIMIT then Outcome(false, b, [], last)
      else
        var found := FirstAlias(shell, b, 0);
        if found.None? then Outcome(true, b, [], 0)
        else
          var r := RewriteOf(found.value.range, found.value.alias);
          var round := Round(shell, capacity, b, r, expansions);
          if !round.ok then Outcome(false, round.buffer, round.log, r.begin)
          else Before(round.log, Loop(shell, capacity, round.buffer, round.expansions + 1, r.begin))
  {
    hide Round, FirstAlias;
  }

  lemma CompactNothing(begin: nat, end: nat, length: nat)
    requires begin <= end
    ensures Adjusted([], begin, end, length) == [] && TokenAncestors([], begin, end) == {}
  {
  }

  lemma CompactNext(frames: seq<Frame>, k: nat, begin: nat, end: nat, length: nat)
    requires k < |frames| && begin <= end
    ensures var f := Adjust(frames[k], begin, end, length); var front := Adjusted(frames[..k], begin, end, length);
      Adjusted(frames[..k + 1], begin, end, length) == if f.Some? then front + [f.value] else front
    ensures TokenAncestors(frames[..k + 1], begin, end) ==
      TokenAncestors(frames[..k], begin, end) + (if Overlaps(frames[k], begin, end) then frames[k].ancestors else {})
  {
    hide Adjust;
    assert frames[..k + 1][..k] == frames[..k];
  }

  lemma Reassembled(now: Text, was: Text, r: Rewrite)
    requires r.begin <= r.end <= |was| && |now| == r.begin + |r.value| + 1 + |was| - r.end
    requires forall k :: 0 <= k < r.begin ==> now[k] == was[k]
    requires forall k :: 0 <= k <= |r.value| ==> now[r.begin + k] == (r.value + [BLANK])[k]
    requires forall k :: 0 <= k < |was| - r.end ==> now[r.begin + |r.value| + 1 + k] == was[r.end..][k]
    ensures now == ReplacedText(was, r)
  {
    var behind := r.begin + |r.value| + 1;
    assert now[..r.begin] == was[..r.begin];
    assert now[r.begin..behind] == r.value + [BLANK];
    assert now[behind..] == was[r.end..];
    assert now == now[..r.begin] + now[r.begin..behind] + now[behind..];
    Regroup(was[..r.begin], r.value, [BLANK]);
  }

  /** `ends_in_unquoted_blank`. */
  method CheckBlank(value: Text) returns (follows: bool)
    ensures follows == EndsInBlank(value)
  {
    if |value| == 0 || (value[|value| - 1] != BLANK && value[|value| - 1] != 9) {
      return false;
    }
    var quote, final, offset := Unquoted, false, 0;
    while offset < |value|
      invariant FinalQuoted(value, 0, Unquoted, false) == FinalQuoted(value, offset, quote, final)
      decreases |value| - offset
    {
      var byte := value[offset];
      final := quote != Unquoted;
      if quote == InSingle {
        if byte == 39 {
          quote := Unquoted;
        }
      } else if quote == InDouble {
        if byte == 34 {
          quote := Unquoted;
        } else if byte == BACKSLASH && offset + 1 < |value| && EscapedInDouble(value[offset + 1]) {
          offset := offset + 1;
        }
      } else if byte == 39 {
        quote := InSingle;
      } else if byte == 34 {
        quote := InDouble;
      } else if byte == BACKSLASH && offset + 1 < |value| {
        offset := offset + 1;
        final := offset + 1 == |value|;
      }
      offset := offset + 1;
    }
    return !final;
  }

  /** `gsh_alias_parse`, up to the parse of the text it ends with. */
  method AliasParse(shell: Shell, input: Text, capacity: nat)
    returns (done: bool, parsed: Text, offset: nat, ghost outcome: Outcome)
    requires ShellOk(shell)
    ensures outcome == Expand(shell, capacity, input)
    ensures done == outcome.done && offset == outcome.offset
    ensures done ==> parsed == outcome.buffer.text
    ensures !done ==> parsed == input
  {
    hide Round, FirstAlias, Loop;
    outcome := Expand(shell, capacity, input);
    var plain := new Expander(shell, input, |input| + 1);
    var found := plain.FindCommand();
    if found.None? {
      return true, input, 0, outcome;
    }
    if |input| >= capacity {
      return false, input, |input|, outcome;
    }
    var expander := new Expander(shell, input, capacity);
    var r := RewriteOf(found.value.range, found.value.alias);
    RefusedRound(shell, capacity, Buffer(input, []), r);
    var ok, count, log := expander.RewriteRound(r, 1);
    if !ok {
      return false, input, r.begin, outcome;
    }
    ghost var rest;
    done, offset, rest := expander.ExpandAll(count, r.begin);
    return done, if done then expander.text[..expander.length] else input, offset, outcome;
  }

  lemma RefusedRound(shell: Shell, capacity: nat, b: Buffer, r: Rewrite)
    requires ShellOk(shell) && |b.text| < capacity
    ensures Apply(b, r, capacity).None? ==> Round(shell, capacity, b, r, 1) == Forced(false, b, 1, [])
    ensures Round(shell, capacity, b, r, 1).ok ==> Apply(b, r, capacity).Some?
  {
    hide Apply;
  }
}
