/** One line of the history file: `: <time>:0;` and the escaped command, or the
    plain command of an older file. */
module HistoryFormat {
  import opened Bytes
  import opened HistoryStore

  const LINE_CAP: nat := 2 * ENTRY_CAP + 64
  const COLON: Byte := 58
  const SPACE: Byte := 32
  const ZERO: Byte := 48
  const SEMICOLON: Byte := 59
  const LETTER_N: Byte := 110
  const LETTER_R: Byte := 114

  // ----- escaping -----

  function Escaped(b: Byte): Text {
    if b == BACKSLASH then [BACKSLASH, BACKSLASH]
    else if b == NEWLINE then [BACKSLASH, LETTER_N]
    else if b == CARRIAGE then [BACKSLASH, LETTER_R]
    else [b]
  }

  function Escape(command: Text): Text {
    if command == [] then [] else Escaped(command[0]) + Escape(command[1..])
  }

  predicate Pair(s: Text) {
    |s| >= 2 && s[0] == BACKSLASH && (s[1] == LETTER_N || s[1] == LETTER_R || s[1] == BACKSLASH)
  }

  function Unpaired(b: Byte): Byte {
    if b == LETTER_N then NEWLINE else if b == LETTER_R then CARRIAGE else b
  }

  /** A lone backslash stands for itself. */
  function Unescape(s: Text): Text {
    if s == [] then []
    else if Pair(s) then [Unpaired(s[1])] + Unescape(s[2..])
    else [s[0]] + Unescape(s[1..])
  }

  lemma {:induction false} UnescapeEscape(command: Text)
    ensures Unescape(Escape(command)) == command
  {
    if command != [] {
      var head, tail := Escaped(command[0]), Escape(command[1..]);
      assert (head + tail)[|head|..] == tail;
      UnescapeEscape(command[1..]);
    }
  }

  lemma {:induction false} EscapeIsOneLine(command: Text)
    ensures NEWLINE !in Escape(command) && CARRIAGE !in Escape(command)
    ensures |command| <= |Escape(command)| <= 2 * |command|
  {
    if command != [] {
      EscapeIsOneLine(command[1..]);
    }
  }

  // ----- the header -----

  function Decimal(n: nat): (digits: Text)
    ensures digits != [] && forall i :: 0 <= i < |digits| ==> IsDigit(digits[i])
  {
    if n < 10 then [ZERO + n] else Decimal(n / 10) + [ZERO + n % 10]
  }

  function Power10(k: nat): nat {
    if k == 0 then 1 else 10 * Power10(k - 1)
  }

  lemma {:induction false} DecimalLength(n: nat, k: nat)
    requires k > 0 && n < Power10(k)
    ensures |Decimal(n)| <= k
  {
    if n >= 10 {
      assert k > 1 by {
        assert Power10(1) == 10 * Power10(0) == 10;
      }
      DecimalLength(n / 10, k - 1);
    }
  }

  lemma TimeLength(time: nat)
    requires time < 0x1_0000_0000_0000_0000
    ensures |Decimal(time)| <= 20
  {
    assert Power10(5) == 100_000;
    assert Power10(10) == 10_000_000_000;
    assert Power10(15) == 1_000_000_000_000_000;
    assert Power10(20) == 100_000_000_000_000_000_000;
    DecimalLength(time, 20);
  }

  function Header(time: nat): Text {
    [COLON, SPACE] + Decimal(time) + [COLON, ZERO, SEMICOLON]
  }

  /** `write_entry`, without the newline that ends the line. */
  function Line(command: Text, time: nat): Text {
    Header(time) + Escape(command)
  }

  /** The end of the run of digits that starts at `index`. */
  function DigitsEnd(line: Text, index: nat): (end: nat)
    requires index <= |line|
    ensures index <= end <= |line|
    decreases |line| - index
  {
    if index < |line| && IsDigit(line[index]) then DigitsEnd(line, index + 1) else index
  }

  /** `extended_payload`: where the command starts, if the line has a header. */
  function Payload(line: Text): (p: Option<nat>)
    ensures p.Some? ==> p.value <= |line|
  {
    if |line| < 7 || line[0] != COLON || line[1] != SPACE then None
    else
      var time := DigitsEnd(line, 2);
      if time == 2 || time >= |line| || line[time] != COLON then None
      else
        var elapsed := DigitsEnd(line, time + 1);
        if elapsed == time + 1 || elapsed >= |line| || line[elapsed] != SEMICOLON then None
        else Some(elapsed + 1)
  }

  lemma {:induction false} DigitsEndIs(line: Text, index: nat, end: nat)
    requires index <= end < |line| && !IsDigit(line[end])
    requires forall k :: index <= k < end ==> IsDigit(line[k])
    ensures DigitsEnd(line, index) == end
    decreases end - index
  {
    if index < end {
      DigitsEndIs(line, index + 1, end);
    }
  }

  lemma PayloadOfLine(time: nat, rest: Text)
    requires rest != []
    ensures Payload(Header(time) + rest) == Some(|Header(time)|)
    ensures (Header(time) + rest)[|Header(time)|..] == rest
  {
    hide Decimal;
    var line, digits := Header(time) + rest, Decimal(time);
    var end := 2 + |digits|;
    assert forall k :: 2 <= k < end ==> line[k] == digits[k - 2];
    assert line[end] == COLON && line[end + 1] == ZERO && line[end + 2] == SEMICOLON;
    DigitsEndIs(line, 2, end);
    DigitsEndIs(line, end + 1, end + 2);
  }

  // ----- reading a line -----

  /** A line of a file edited elsewhere may end in a carriage return. */
  function Stripped(line: Text): Text {
    if line != [] && line[|line| - 1] == CARRIAGE then line[..|line| - 1] else line
  }

  /** The command `accept_line` finds on a line; too long a line holds none. */
  function Entry(line: Text): (command: Option<Text>)
    ensures command.Some? ==> Admissible(command.value)
  {
    var kept := Stripped(line);
    if |line| > LINE_CAP || kept == [] then None
    else
      var command := if Payload(kept).Some? then Unescape(kept[Payload(kept).value..]) else kept;
      if Admissible(command) then Some(command) else None
  }

  /** A written line is short, has no newline, and reads back as its command. */
  lemma LineRoundTrip(command: Text, time: nat)
    requires Admissible(command) && time < 0x1_0000_0000_0000_0000
    ensures Entry(Line(command, time)) == Some(command)
    ensures NEWLINE !in Line(command, time) && |Line(command, time)| < LINE_CAP - 2
  {
    UnescapeEscape(command);
    EscapeIsOneLine(command);
    TimeLength(time);
    PayloadOfLine(time, Escape(command));
    hide Escape, Unescape, Payload, Decimal;
    var line := Line(command, time);
    assert line[|line| - 1] == Escape(command)[|Escape(command)| - 1];
    assert Stripped(line) == line;
  }

  // ----- lines written by others -----

  ghost predicate AllDigits(d: Text) {
    d != [] && forall k :: 0 <= k < |d| ==> IsDigit(d[k])
  }

  /** A plain line is its command as it is, with or without a carriage return behind it. */
  lemma PlainLineIsCommand(line: Text)
    requires Admissible(line) && Payload(line).None? && line[|line| - 1] != CARRIAGE
    ensures Entry(line) == Some(line) && Entry(line + [CARRIAGE]) == Some(line)
  {
    hide Payload;
    assert (line + [CARRIAGE])[..|line|] == line;
  }

  lemma HeaderedParts(time: Text, elapsed: Text, rest: Text)
    requires AllDigits(time) && AllDigits(elapsed) && rest != []
    ensures var line := [COLON, SPACE] + time + [COLON] + elapsed + [SEMICOLON] + rest;
      var first, second := 2 + |time|, 3 + |time| + |elapsed|;
      && |line| == second + 1 + |rest| && line[0] == COLON && line[1] == SPACE
      && line[first] == COLON && line[second] == SEMICOLON
      && (forall k :: 2 <= k < first ==> IsDigit(line[k])) && (forall k :: first < k < second ==> IsDigit(line[k]))
      && line[second + 1..] == rest && line[|line| - 1] == rest[|rest| - 1]
  {
    var line := [COLON, SPACE] + time + [COLON] + elapsed + [SEMICOLON] + rest;
    var first, second := 2 + |time|, 3 + |time| + |elapsed|;
    assert forall k :: 2 <= k < first ==> line[k] == time[k - 2];
    assert forall k :: first < k < second ==> line[k] == elapsed[k - first - 1];
  }

  lemma PayloadBehind(line: Text, first: nat, second: nat)
    requires 2 < first && first + 1 < second && second + 1 < |line| && line[0] == COLON && line[1] == SPACE
    requires line[first] == COLON && line[second] == SEMICOLON
    requires (forall k :: 2 <= k < first ==> IsDigit(line[k])) && (forall k :: first < k < second ==> IsDigit(line[k]))
    ensures Payload(line) == Some(second + 1)
  {
    DigitsEndIs(line, 2, first);
    DigitsEndIs(line, first + 1, second);
  }

  /** Any time and duration make a header, and what follows is the escaped command. */
  lemma HeaderedLineIsCommand(time: Text, elapsed: Text, rest: Text)
    requires AllDigits(time) && AllDigits(elapsed) && rest != [] && rest[|rest| - 1] != CARRIAGE
    requires |time| + |elapsed| + |rest| + 4 <= LINE_CAP && Admissible(Unescape(rest))
    ensures Entry([COLON, SPACE] + time + [COLON] + elapsed + [SEMICOLON] + rest) == Some(Unescape(rest))
  {
    hide Unescape, Payload;
    HeaderedParts(time, elapsed, rest);
    PayloadBehind([COLON, SPACE] + time + [COLON] + elapsed + [SEMICOLON] + rest, 2 + |time|, 3 + |time| + |elapsed|);
  }

  /** Backslashes in front of anything but `n`, `r` and a backslash stand for themselves. */
  lemma {:induction false} NothingToUnescape(s: Text)
    requires forall k :: 0 <= k < |s| - 1 && s[k] == BACKSLASH ==> s[k + 1] !in [LETTER_N, LETTER_R, BACKSLASH]
    ensures Unescape(s) == s
  {
    if s != [] {
      NothingToUnescape(s[1..]);
      assert s == [s[0]] + s[1..];
    }
  }

  // ----- the imperative codec -----

  /** The digit loop of `extended_payload`. */
  method SkipDigits(line: Text, index: nat) returns (end: nat)
    requires index <= |line| <= LINE_CAP
    ensures end == DigitsEnd(line, index)
  {
    end := index;
    var step := 0;
    while step < LINE_CAP && end < |line| && IsDigit(line[end])
      invariant index <= end <= |line| && end == index + step
      invariant DigitsEnd(line, index) == DigitsEnd(line, end)
      decreases LINE_CAP - step
    {
      step, end := step + 1, end + 1;
    }
  }

  /** `extended_payload`. */
  method ExtendedPayload(line: Text) returns (payload: Option<nat>)
    requires |line| <= LINE_CAP
    ensures payload == Payload(line)
  {
    hide DigitsEnd;
    if |line| < 7 || line[0] != COLON || line[1] != SPACE {
      return None;
    }
    var index := SkipDigits(line, 2);
    if index == 2 || index >= |line| || line[index] != COLON {
      return None;
    }
    index := index + 1;
    var elapsed := index;
    index := SkipDigits(line, index);
    if index == elapsed || index >= |line| || line[index] != SEMICOLON {
      return None;
    }
    return Some(index + 1);
  }

  lemma UnescapeStep(line: Text, index: nat)
    requires index < |line|
    ensures Unescape(line[index..]) ==
            if index + 1 < |line| && Pair(line[index..index + 2])
            then [Unpaired(line[index + 1])] + Unescape(line[index + 2..])
            else [line[index]] + Unescape(line[index + 1..])
  {
    assert line[index..][1..] == line[index + 1..];
    if index + 1 < |line| {
      assert line[index..][2..] == line[index + 2..];
    }
  }

  lemma UnescapeNothing()
    ensures Unescape([]) == []
  {
  }

  /** `decode_entry`: a command that does not fit the entry is refused. */
  method DecodeEntry(line: Text, payload: nat) returns (command: Option<Text>)
    requires payload <= |line| <= LINE_CAP
    ensures command ==
            if |Unescape(line[payload..])| < ENTRY_CAP then Some(Unescape(line[payload..])) else None
  {
    hide Unescape;
    var output := new Byte[ENTRY_CAP](_ => NUL);
    var index, length := payload, 0;
    while index < |line|
      invariant payload <= index <= |line| && length < ENTRY_CAP
      invariant Unescape(line[payload..]) == output[..length] + Unescape(line[index..])
    {
      UnescapeStep(line, index);
      var byte := line[index];
      if byte == BACKSLASH && index + 1 < |line| && line[index + 1] == LETTER_N {
        byte := NEWLINE;
        index := index + 1;
      } else if byte == BACKSLASH && index + 1 < |line| && line[index + 1] == LETTER_R {
        byte := CARRIAGE;
        index := index + 1;
      } else if byte == BACKSLASH && index + 1 < |line| && line[index + 1] == BACKSLASH {
        index := index + 1;
      }
      ghost var rest := Unescape(line[index + 1..]);
      assert Unescape(line[payload..]) == output[..length] + ([byte] + rest);
      Regroup(output[..length], [byte], rest);
      if length + 1 >= ENTRY_CAP {
        return None;
      }
      output[length] := byte;
      assert output[..length + 1] == output[..length] + [byte];
      length, index := length + 1, index + 1;
    }
    assert line[index..] == [];
    UnescapeNothing();
    assert output[..length] + [] == output[..length];
    return Some(output[..length]);
  }

  lemma EscapeStep(command: Text, index: nat)
    requires index < |command|
    ensures Escape(command[..index + 1]) == Escape(command[..index]) + Escaped(command[index])
  {
    EscapeConcat(command[..index], [command[index]]);
    assert command[..index + 1] == command[..index] + [command[index]];
    assert Escape([command[index]]) == Escaped(command[index]) + Escape([]);
  }

  lemma {:induction false} EscapeConcat(a: Text, b: Text)
    ensures Escape(a + b) == Escape(a) + Escape(b)
  {
    hide Escaped;
    if a == [] {
      assert a + b == b;
    } else {
      assert (a + b)[1..] == a[1..] + b;
      EscapeConcat(a[1..], b);
      Regroup(Escaped(a[0]), Escape(a[1..]), Escape(b));
    }
  }

  lemma HeaderLength(time: nat)
    requires |Decimal(time)| <= 20
    ensures |Header(time)| <= 25
  {
  }

  /** Store a byte, behind a backslash if it needs one, while there is room. */
  method PutEscaped(line: array<Byte>, used: nat, byte: Byte) returns (end: Option<nat>)
    requires used <= line.Length == LINE_CAP
    modifies line
    ensures end.None? <==> used + |Escaped(byte)| >= LINE_CAP
    ensures end.Some? ==> end.value == used + |Escaped(byte)| <= used + 2 && end.value <= LINE_CAP
    ensures end.Some? ==> line[..end.value] == old(line[..used]) + Escaped(byte)
  {
    if byte == BACKSLASH || byte == NEWLINE || byte == CARRIAGE {
      if used + 2 >= LINE_CAP {
        return None;
      }
      line[used] := BACKSLASH;
      line[used + 1] := if byte == NEWLINE then LETTER_N else if byte == CARRIAGE then LETTER_R else BACKSLASH;
      return Some(used + 2);
    } else {
      if used + 1 >= LINE_CAP {
        return None;
      }
      line[used] := byte;
      return Some(used + 1);
    }
  }

  lemma EscapedLength(byte: Byte)
    ensures 1 <= |Escaped(byte)| <= 2
  {
  }

  /** `write_entry`: the line buffer is never too small for an admissible command. */
  method WriteEntry(command: Text, time: nat) returns (written: Option<Text>)
    requires time < 0x1_0000_0000_0000_0000
    ensures written == if Admissible(command) then Some(Line(command, time) + [NEWLINE]) else None
  {
    if !(0 < |command| < ENTRY_CAP) {
      return None;
    }
    TimeLength(time);
    hide Escape, Escaped, Header;
    var header := Header(time);
    HeaderLength(time);
    var line := new Byte[LINE_CAP](k => if 0 <= k < |header| then header[k] else NUL);
    var used: nat := |header|;
    assert line[..used] == header + Escape(command[..0]) by {
      assert Escape([]) == [] by {
        EscapeIsOneLine([]);
      }
    }
    for index := 0 to |command|
      invariant used <= |header| + 2 * index
      invariant used <= LINE_CAP && line[..used] == header + Escape(command[..index])
    {
      EscapeStep(command, index);
      EscapedLength(command[index]);
      var end := PutEscaped(line, used, command[index]);
      if end.None? {
        return None;
      }
      Regroup(header, Escape(command[..index]), Escaped(command[index]));
      used := end.value;
    }
    assert command[..|command|] == command;
    if used + 1 > LINE_CAP {
      return None;
    }
    ghost var before := line[..used];
    line[used] := NEWLINE;
    assert line[..used + 1] == before + [NEWLINE];
    return Some(line[..used + 1]);
  }
}
