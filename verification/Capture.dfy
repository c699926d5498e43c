/** Captured terminal output of a cell: a byte-driven automaton that joins UTF-8
    scalars, filters escape sequences, and lets a carriage return overwrite the
    current row of a bounded buffer. */
module Capture {
  import opened Bytes

  const OUTPUT_CAP: nat := 65536
  const SEQUENCE_CAP: nat := 64
  const ESC: Byte := 27
  const BRACKET: Byte := 91   // '['
  const FINAL: Byte := 109    // 'm'

  /** The text kept so far, the start of its last row, and the write position. */
  datatype Screen = Screen(out: Text, lineStart: nat, cursor: nat, truncated: bool)

  /** `escape`: 0 text, 1 after ESC, 2 control sequence, 3/4 OSC string, 5/6
      other strings; `sequence` holds a control sequence, `utf8` an unfinished
      scalar of `expected` bytes. */
  datatype State = State(screen: Screen, escape: nat, sequence: Text, utf8: Text, expected: nat)

  const START := State(Screen([], 0, 0, false), 0, [], [], 0)

  // ----- the row buffer -----

  predicate InBounds(s: Screen) {
    s.lineStart <= s.cursor <= |s.out| < OUTPUT_CAP
  }

  /** `recover_output_cursor`. */
  function Recover(s: Screen): (r: Screen)
    ensures InBounds(r)
  {
    var kept := if |s.out| >= OUTPUT_CAP then s.(out := s.out[..OUTPUT_CAP - 1], truncated := true) else s;
    if kept.lineStart > |kept.out| || kept.cursor < kept.lineStart || kept.cursor > |kept.out|
    then kept.(lineStart := |kept.out|, cursor := |kept.out|) else kept
  }

  /** `write_visible_byte`. */
  function Visible(screen: Screen, b: Byte): Screen {
    var s := Recover(screen);
    if s.cursor < |s.out| then s.(out := s.out[s.cursor := b], cursor := s.cursor + 1)
    else if |s.out| >= OUTPUT_CAP - 1 then s.(truncated := true)
    else s.(out := s.out + [b], cursor := |s.out| + 1)
  }

  /** `append_visible_newline`. */
  function Newline(screen: Screen): Screen {
    var s := Recover(screen);
    if |s.out| >= OUTPUT_CAP - 1 then s.(truncated := true, cursor := |s.out|)
    else Screen(s.out + [NEWLINE], |s.out| + 1, |s.out| + 1, s.truncated)
  }

  /** `text` written over `out` from `at` on, keeping what lies behind it. */
  function Overwrite(out: Text, at: nat, text: Text): Text
    requires at <= |out|
  {
    out[..at] + text + (if at + |text| < |out| then out[at + |text|..] else [])
  }

  /** `write_style_sequence`. */
  function Style(screen: Screen, sequence: Text): Screen {
    if |sequence| == 0 || |sequence| > SEQUENCE_CAP then screen
    else
      var s := Recover(screen);
      if s.cursor + |sequence| > OUTPUT_CAP - 1 then s.(truncated := true)
      else s.(out := Overwrite(s.out, s.cursor, sequence), cursor := s.cursor + |sequence|)
  }

  function Return(screen: Screen): Screen {
    var s := Recover(screen);
    s.(cursor := s.lineStart)
  }

  function VisibleAll(s: Screen, bytes: Text): Screen
    decreases |bytes|
  {
    if bytes == [] then s else VisibleAll(Visible(s, bytes[0]), bytes[1..])
  }

  // ----- the automaton -----

  predicate StyleByte(b: Byte) {
    IsDigit(b) || b == 59
  }

  /** `retained_sgr`: a complete style sequence. */
  predicate RetainedStyle(s: Text) {
    && 3 <= |s| <= SEQUENCE_CAP && s[0] == ESC && s[1] == BRACKET && s[|s| - 1] == FINAL
    && forall k :: 2 <= k < |s| - 1 ==> StyleByte(s[k])
  }

  function CaptureByte(sequence: Text, b: Byte): Text {
    if |sequence| >= SEQUENCE_CAP then sequence else sequence + [b]
  }

  /** `consume_active_escape`. */
  function Escaped(c: State, b: Byte): State {
    if c.escape == 1 then
      if b == BRACKET then c.(escape := 2, sequence := CaptureByte(c.sequence, b))
      else c.(sequence := [], escape :=
        if b == 93 then 3 else if b == 80 || b == 88 || b == 94 || b == 95 then 5 else 0)
    else if c.escape == 2 then
      var sequence := CaptureByte(c.sequence, b);
      if 0x40 <= b <= 0x7e then
        State(if b == FINAL && RetainedStyle(sequence) then Style(c.screen, sequence) else c.screen,
              0, [], c.utf8, c.expected)
      else c.(sequence := sequence)
    else if c.escape == 3 || c.escape == 4 then
      c.(escape := if b == 7 || b == 0x9c || (c.escape == 4 && b == BACKSLASH) then 0 else if b == ESC then 4 else 3)
    else if c.escape == 5 || c.escape == 6 then
      c.(escape := if b == 0x9c || (c.escape == 6 && b == BACKSLASH) then 0 else if b == ESC then 6 else 5)
    else c
  }

  function ExpectedLength(b: Byte): nat {
    if 0xc2 <= b <= 0xdf then 2 else if 0xe0 <= b <= 0xef then 3 else if 0xf0 <= b <= 0xf4 then 4 else 0
  }

  /** `utf8_continuation`: the byte may follow the ones gathered so far. */
  predicate Continuation(gathered: Text, b: Byte) {
    && |gathered| > 0 && 0x80 <= b <= 0xbf
    && (|gathered| == 1 ==>
          !((gathered[0] == 0xe0 && b < 0xa0) || (gathered[0] == 0xed && b > 0x9f) ||
            (gathered[0] == 0xf0 && b < 0x90) || (gathered[0] == 0xf4 && b > 0x8f)))
  }

  const REPLACEMENT: Text := [0xef, 0xbf, 0xbd]

  function ResetScalar(c: State): State {
    c.(utf8 := [], expected := 0)
  }

  /** `consume_output_utf8`, with whether the byte was consumed. */
  function Scalar(c: State, b: Byte): (State, bool) {
    if c.utf8 != [] then
      if !Continuation(c.utf8, b) then (ResetScalar(c.(screen := VisibleAll(c.screen, REPLACEMENT))), false)
      else
        var bytes := c.utf8 + [b];
        if |bytes| != c.expected then (c.(utf8 := bytes), true)
        else
          var hidden := bytes[0] == 0xc2 && bytes[1] <= 0x9f;
          (ResetScalar(if hidden then c else c.(screen := VisibleAll(c.screen, bytes))), true)
    else if ExpectedLength(b) == 0 then (c, false)
    else (c.(utf8 := [b], expected := ExpectedLength(b)), true)
  }

  /** Bytes outside scalars and sequences. */
  function Control(c: State, b: Byte): State {
    if b == ESC then c.(escape := 1, sequence := [ESC])
    else if b == 0x9b then c.(escape := 2, sequence := [ESC, BRACKET])
    else if b == 0x9d then c.(escape := 3)
    else if b == 0x90 || b == 0x98 || b == 0x9e || b == 0x9f then c.(escape := 5)
    else if b == CARRIAGE then c.(screen := Return(c.screen))
    else if b == NEWLINE then c.(screen := Newline(c.screen))
    else if b == 9 then c.(screen := Visible(c.screen, 32))
    else if b >= 32 then c.(screen := Visible(c.screen, b))
    else c
  }

  function Fresh(c: State, b: Byte): State {
    if c.escape != 0 then Escaped(c, b)
    else
      var (next, consumed) := Scalar(c, b);
      if consumed then next else Control(next, b)
  }

  /** `append_terminal_byte`. */
  function AppendByte(c: State, b: Byte): State {
    if c.utf8 == [] then Fresh(c, b)
    else
      var (next, consumed) := Scalar(c, b);
      if consumed then next else Fresh(next, b)
  }

  /** `gsh_async_repl_append`. */
  function Append(c: State, bytes: Text): State
    decreases |bytes|
  {
    if bytes == [] then c else Append(AppendByte(c, bytes[0]), bytes[1..])
  }

  /** How the stream is cut into reads does not matter. */
  lemma {:induction false} AppendChunks(c: State, a: Text, b: Text)
    ensures Append(c, a + b) == Append(Append(c, a), b)
    decreases |a|
  {
    hide AppendByte;
    if a == [] {
      assert a + b == b;
    } else {
      assert (a + b)[1..] == a[1..] + b;
      AppendChunks(AppendByte(c, a[0]), a[1..], b);
    }
  }

  // ----- style tokens -----

  /** A whole `ESC [ digits-or-semicolons m` occupies s[p..q + 1]. */
  predicate TokenAt(s: Text, p: nat, q: nat) {
    && p + 1 < q < |s| && s[p] == ESC && s[p + 1] == BRACKET && s[q] == FINAL
    && forall k :: p + 2 <= k < q ==> StyleByte(s[k])
  }

  /** The ESC at `p` begins a token, and the token does not lie across `cut`. */
  ghost predicate Begins(s: Text, p: nat, cut: nat) {
    exists q: nat :: TokenAt(s, p, q) && (p < cut ==> q < cut)
  }

  /** Every ESC begins a complete token, none of which lies across `cut`. */
  ghost predicate Styled(s: Text, cut: nat) {
    forall p :: 0 <= p < |s| && s[p] == ESC ==> Begins(s, p, cut)
  }

  ghost predicate ScreenOk(s: Screen) {
    InBounds(s) && Styled(s.out, s.lineStart) && Styled(s.out, s.cursor)
  }

  ghost predicate Ok(c: State) {
    && ScreenOk(c.screen)
    && (forall k :: 0 <= k < |c.utf8| ==> c.utf8[k] >= 0x80)
    && (c.utf8 != [] ==> |c.utf8| < c.expected <= 4)
    && c.escape <= 6
    && |c.sequence| <= SEQUENCE_CAP
    && (c.escape in {1, 2} ==> |c.sequence| > 0)
  }

  lemma MoveToken(s: Text, t: Text, p: nat, q: nat)
    requires TokenAt(s, p, q) && q < |t|
    requires forall k :: p <= k <= q ==> t[k] == s[k]
    ensures TokenAt(t, p, q)
  {
    forall k | p + 2 <= k < q ensures StyleByte(t[k]) {
      assert StyleByte(s[k]);
    }
  }

  /** Replacing `text` at `at` in a styled row keeps it styled, if the new text
      is one token or holds no ESC: old tokens end before it, start behind it, or
      lose their ESC first. */
  lemma OverwriteKeepsStyled(out: Text, at: nat, text: Text, cut: nat)
    requires at <= |out| && Styled(out, at) && Styled(out, cut)
    requires cut <= at || cut == at + |text|
    requires RetainedStyle(text) || ESC !in text
    ensures Styled(Overwrite(out, at, text), cut)
    ensures Styled(Overwrite(out, at, text), at + |text|)
  {
    var t, end := Overwrite(out, at, text), at + |text|;
    OverwriteAt(out, at, text);
    hide Overwrite, RetainedStyle, TokenAt;
    forall p | 0 <= p < |t| && t[p] == ESC ensures Begins(t, p, cut) && Begins(t, p, end) {
      if p < at || p >= end {
        assert Begins(out, p, at) && Begins(out, p, cut);
        var q: nat :| TokenAt(out, p, q) && (p < at ==> q < at);
        TokenEndUnique(out, p, q, cut);
        TokenSpans(out, p, q);
        MoveToken(out, t, p, q);
      } else {
        assert text[p - at] in text;
        StyleStartsOnce(text, p - at);
        TokenInside(t, text, at);
      }
    }
  }

  lemma OverwriteAt(out: Text, at: nat, text: Text)
    requires at <= |out|
    ensures var t := Overwrite(out, at, text);
      && at + |text| <= |t| && |out| <= |t|
      && (forall k :: 0 <= k < at || at + |text| <= k < |t| ==> k < |out| && t[k] == out[k])
      && (forall k :: at <= k < at + |text| ==> t[k] == text[k - at])
  {
  }

  lemma TokenSpans(s: Text, p: nat, q: nat)
    requires TokenAt(s, p, q)
    ensures p < q < |s|
  {
  }

  lemma TokenEndUnique(s: Text, p: nat, q: nat, cut: nat)
    requires TokenAt(s, p, q) && Begins(s, p, cut)
    ensures p < cut ==> q < cut
  {
    var r: nat :| TokenAt(s, p, r) && (p < cut ==> r < cut);
    assert q < r ==> StyleByte(s[q]);
    assert r < q ==> StyleByte(s[r]);
  }

  lemma StyleStartsOnce(text: Text, k: nat)
    requires RetainedStyle(text) || ESC !in text
    requires k < |text| && text[k] == ESC
    ensures RetainedStyle(text) && k == 0
  {
  }

  lemma TokenInside(t: Text, text: Text, at: nat)
    requires RetainedStyle(text) && at + |text| <= |t|
    requires forall k :: 0 <= k < |text| ==> t[at + k] == text[k]
    ensures TokenAt(t, at, at + |text| - 1)
  {
    assert t[at + 0] == text[0] && t[at + 1] == text[1] && t[at + (|text| - 1)] == text[|text| - 1];
    forall k | at + 2 <= k < at + |text| - 1 ensures StyleByte(t[k]) {
      assert t[at + (k - at)] == text[k - at];
    }
  }

  lemma VisibleIsOverwrite(s: Screen, b: Byte)
    requires InBounds(s)
    ensures var v := Visible(s, b);
      if s.cursor < |s.out| || |s.out| < OUTPUT_CAP - 1
      then v == s.(out := Overwrite(s.out, s.cursor, [b]), cursor := s.cursor + 1)
      else v == s.(truncated := true)
  {
    if s.cursor < |s.out| {
      assert s.out[s.cursor := b] == Overwrite(s.out, s.cursor, [b]);
    } else {
      assert s.out[..s.cursor] == s.out;
    }
  }

  lemma VisibleKeepsOk(s: Screen, b: Byte)
    requires ScreenOk(s) && b != ESC
    ensures ScreenOk(Visible(s, b))
  {
    hide Styled, Visible;
    VisibleIsOverwrite(s, b);
    if s.cursor < |s.out| || |s.out| < OUTPUT_CAP - 1 {
      OverwriteKeepsStyled(s.out, s.cursor, [b], s.lineStart);
    }
  }

  lemma {:induction false} VisibleAllKeepsOk(s: Screen, bytes: Text)
    requires ScreenOk(s) && ESC !in bytes
    ensures ScreenOk(VisibleAll(s, bytes))
    decreases |bytes|
  {
    hide ScreenOk, Visible;
    if bytes != [] {
      VisibleKeepsOk(s, bytes[0]);
      VisibleAllKeepsOk(Visible(s, bytes[0]), bytes[1..]);
    }
  }

  lemma StyleKeepsOk(s: Screen, sequence: Text)
    requires ScreenOk(s) && RetainedStyle(sequence)
    ensures ScreenOk(Style(s, sequence))
  {
    hide Styled;
    OverwriteKeepsStyled(s.out, s.cursor, sequence, s.lineStart);
  }

  lemma NewlineKeepsOk(s: Screen)
    requires ScreenOk(s)
    ensures ScreenOk(Newline(s)) && ScreenOk(Return(s))
  {
    StyledAtEnd(s.out, s.cursor);
    StyledThenPlain(s.out, NEWLINE);
    hide Styled;
  }

  lemma StyledAtEnd(out: Text, cut: nat)
    requires Styled(out, cut)
    ensures Styled(out, |out|)
  {
    forall p | 0 <= p < |out| && out[p] == ESC ensures Begins(out, p, |out|) {
      assert Begins(out, p, cut);
      var q: nat :| TokenAt(out, p, q) && (p < cut ==> q < cut);
    }
  }

  lemma StyledThenPlain(out: Text, b: Byte)
    requires Styled(out, |out|) && b != ESC
    ensures Styled(out + [b], |out| + 1)
  {
    forall p | 0 <= p < |out| + 1 && (out + [b])[p] == ESC ensures Begins(out + [b], p, |out| + 1) {
      assert Begins(out, p, |out|);
      var q: nat :| TokenAt(out, p, q) && (p < |out| ==> q < |out|);
      MoveToken(out, out + [b], p, q);
    }
  }

  lemma EscapedKeepsOk(c: State, b: Byte)
    requires Ok(c)
    ensures Ok(Escaped(c, b))
  {
    hide ScreenOk, Style, RetainedStyle;
    var sequence := CaptureByte(c.sequence, b);
    if RetainedStyle(sequence) {
      StyleKeepsOk(c.screen, sequence);
    }
  }

  lemma ScalarKeepsOk(c: State, b: Byte)
    requires Ok(c)
    ensures Ok(Scalar(c, b).0)
    ensures !Scalar(c, b).1 ==> Scalar(c, b).0.utf8 == []
  {
    hide ScreenOk, VisibleAll;
    VisibleAllKeepsOk(c.screen, REPLACEMENT);
    if c.utf8 != [] && Continuation(c.utf8, b) {
      var bytes := c.utf8 + [b];
      assert ESC !in bytes;
      VisibleAllKeepsOk(c.screen, bytes);
    }
  }

  lemma ControlKeepsOk(c: State, b: Byte)
    requires Ok(c)
    ensures Ok(Control(c, b))
  {
    hide ScreenOk, Newline, Return, Visible;
    NewlineKeepsOk(c.screen);
    VisibleKeepsOk(c.screen, 32);
    if b != ESC {
      VisibleKeepsOk(c.screen, b);
    }
  }

  lemma AppendByteKeepsOk(c: State, b: Byte)
    requires Ok(c)
    ensures Ok(AppendByte(c, b))
  {
    hide Ok, Scalar, Control, Escaped;
    var start := if c.utf8 == [] then c else Scalar(c, b).0;
    ScalarKeepsOk(c, b);
    EscapedKeepsOk(start, b);
    ScalarKeepsOk(start, b);
    ControlKeepsOk(Scalar(start, b).0, b);
  }

  /** For every byte stream, from any reachable state: the cursor stays inside
      the buffer, and every ESC in the text begins a complete style sequence. */
  lemma {:induction false} AppendKeepsOk(c: State, bytes: Text)
    requires Ok(c)
    ensures Ok(Append(c, bytes))
    decreases |bytes|
  {
    hide Ok, AppendByte;
    if bytes != [] {
      AppendByteKeepsOk(c, bytes[0]);
      AppendKeepsOk(AppendByte(c, bytes[0]), bytes[1..]);
    }
  }

  /** Over every stream from the start: bounds hold, so `recover_output_cursor`
      never acts, and every ESC kept is the start of a whole style token. */
  lemma CapturedStylesAreWhole(bytes: Text)
    ensures var s := Append(START, bytes).screen;
      && s.lineStart <= s.cursor <= |s.out| < OUTPUT_CAP
      && Recover(s) == s
      && forall p :: 0 <= p < |s.out| && s.out[p] == ESC ==> exists q: nat :: TokenAt(s.out, p, q)
  {
    AppendKeepsOk(START, bytes);
    hide Append;
    var s := Append(START, bytes).screen;
    forall p | 0 <= p < |s.out| && s.out[p] == ESC ensures exists q: nat :: TokenAt(s.out, p, q) {
      assert Begins(s.out, p, s.cursor);
    }
  }

  // ----- plain text and carriage returns -----

  predicate Plain(b: Byte) {
    32 <= b < 127
  }

  predicate Idle(c: State) {
    c.escape == 0 && c.utf8 == []
  }

  /** Plain text overwrites the row from the cursor on. */
  lemma {:induction false} PlainOverwrites(c: State, text: Text)
    requires Idle(c) && InBounds(c.screen) && forall k :: 0 <= k < |text| ==> Plain(text[k])
    requires c.screen.cursor + |text| < OUTPUT_CAP
    ensures Append(c, text) == c.(screen := c.screen.(
      out := Overwrite(c.screen.out, c.screen.cursor, text), cursor := c.screen.cursor + |text|))
    decreases |text|
  {
    var s := c.screen;
    if text == [] {
      assert Overwrite(s.out, s.cursor, []) == s.out;
    } else {
      assert Plain(text[0]);
      VisibleIsOverwrite(s, text[0]);
      assert AppendByte(c, text[0]).screen == Visible(s, text[0]);
      var next := AppendByte(c, text[0]);
      PlainOverwrites(next, text[1..]);
      OverwriteTwice(s.out, s.cursor, text);
    }
  }

  lemma OverwriteTwice(out: Text, at: nat, text: Text)
    requires at <= |out| && text != []
    ensures Overwrite(Overwrite(out, at, [text[0]]), at + 1, text[1..]) == Overwrite(out, at, text)
  {
    var once := Overwrite(out, at, [text[0]]);
    var twice, all := Overwrite(once, at + 1, text[1..]), Overwrite(out, at, text);
    assert |once| >= at + 1 && |twice| == |all|;
    forall k | 0 <= k < |all| ensures twice[k] == all[k] {
      if k > at && k < at + |text| {
        assert text[1..][k - at - 1] == text[k - at];
      }
    }
  }

  /** A progress row: text, carriage return, text again on the same row keeps
      the earlier rows and overlays the second text on the first. */
  lemma CarriageReturnRewritesRow(c: State, first: Text, second: Text)
    requires Idle(c) && InBounds(c.screen) && c.screen.cursor == c.screen.lineStart == |c.screen.out|
    requires forall k :: 0 <= k < |first| ==> Plain(first[k])
    requires forall k :: 0 <= k < |second| ==> Plain(second[k])
    requires |c.screen.out| + |first| < OUTPUT_CAP && |c.screen.out| + |second| < OUTPUT_CAP
    ensures Append(c, first + [CARRIAGE] + second).screen.out == c.screen.out + Overwrite(first, 0, second)
  {
    hide AppendByte, Overwrite;
    var out := c.screen.out;
    PlainOverwrites(c, first);
    AppendToEnd(out, first);
    var one := Append(c, first);
    ReturnByte(one);
    var two := AppendByte(one, CARRIAGE);
    PlainOverwrites(two, second);
    AppendChunks(c, first, [CARRIAGE]);
    AppendChunks(c, first + [CARRIAGE], second);
    OverwriteTail(out, first, second);
  }

  lemma ReturnByte(c: State)
    requires Idle(c) && InBounds(c.screen)
    ensures Append(c, [CARRIAGE]) == AppendByte(c, CARRIAGE) == c.(screen := c.screen.(cursor := c.screen.lineStart))
  {
  }

  lemma AppendToEnd(out: Text, text: Text)
    ensures Overwrite(out, |out|, text) == out + text
  {
    assert out[..|out|] == out;
  }

  lemma OverwriteTail(out: Text, first: Text, second: Text)
    ensures Overwrite(out + first, |out|, second) == out + Overwrite(first, 0, second)
  {
    assert (out + first)[..|out|] == out && first[..0] == [];
    if |second| < |first| {
      assert (out + first)[|out| + |second|..] == first[|second|..];
    }
  }

  // ----- scalars are atomic -----

  /** A well-formed UTF-8 scalar of two to four bytes, as the accumulator sees it. */
  predicate WellFormed(bytes: Text) {
    && 2 <= |bytes| <= 4 && ExpectedLength(bytes[0]) == |bytes|
    && forall k :: 1 <= k < |bytes| ==> Continuation(bytes[..k], bytes[k])
  }

  predicate HiddenControl(bytes: Text)
    requires |bytes| >= 2
  {
    bytes[0] == 0xc2 && bytes[1] <= 0x9f
  }

  /** Nothing of a scalar reaches the row before its last byte. */
  lemma {:induction false} ScalarGathers(c: State, bytes: Text, n: nat)
    requires Idle(c) && WellFormed(bytes) && 1 <= n < |bytes|
    ensures Append(c, bytes[..n]) == c.(utf8 := bytes[..n], expected := |bytes|)
  {
    if n == 1 {
      assert bytes[..1] == [bytes[0]];
      assert Append(c, bytes[..1]) == AppendByte(c, bytes[0]);
    } else {
      ScalarGathers(c, bytes, n - 1);
      assert bytes[..n] == bytes[..n - 1] + [bytes[n - 1]];
      AppendChunks(c, bytes[..n - 1], [bytes[n - 1]]);
      var before := Append(c, bytes[..n - 1]);
      assert Continuation(bytes[..n - 1], bytes[n - 1]);
      assert Append(before, [bytes[n - 1]]) == AppendByte(before, bytes[n - 1]);
    }
  }

  /** A whole scalar is written as one text, and an encoded C1 control not at all. */
  lemma ScalarIsAtomic(c: State, bytes: Text)
    requires Idle(c) && WellFormed(bytes)
    ensures Append(c, bytes) ==
      ResetScalar(c.(screen := if HiddenControl(bytes) then c.screen else VisibleAll(c.screen, bytes)))
  {
    hide VisibleAll;
    var n := |bytes| - 1;
    ScalarGathers(c, bytes, n);
    var before := Append(c, bytes[..n]);
    AppendChunks(c, bytes[..n], [bytes[n]]);
    assert bytes == bytes[..n] + [bytes[n]];
    assert Continuation(bytes[..n], bytes[n]);
    assert Append(before, [bytes[n]]) == AppendByte(before, bytes[n]);
  }

  /** `gsh_async_repl_close_output` as far as the text goes: an unfinished scalar
      becomes one replacement character. */
  function Closed(c: State): State {
    if c.utf8 == [] then c else ResetScalar(c.(screen := VisibleAll(c.screen, REPLACEMENT)))
  }

  lemma ClosedKeepsOk(c: State)
    requires Ok(c)
    ensures Ok(Closed(c)) && Closed(c).utf8 == []
  {
    hide ScreenOk, VisibleAll;
    VisibleAllKeepsOk(c.screen, REPLACEMENT);
  }

  // ----- the imperative capture -----

  datatype Appended = Refused | Whole | Truncated

  class OutputCell {
    const output: array<Byte>
    var length: nat
    var lineStart: nat
    var cursor: nat
    var truncated: bool
    var escape: nat
    var sequence: Text
    var utf8: Text
    var expected: nat

    ghost predicate Shape()
      reads this, output
    {
      output.Length == OUTPUT_CAP && length < OUTPUT_CAP && output[length] == NUL
    }

    ghost function Screen_(): Screen
      reads this, output
      requires Shape()
    {
      Screen(output[..length], lineStart, cursor, truncated)
    }

    ghost function View(): State
      reads this, output
      requires Shape()
    {
      State(Screen_(), escape, sequence, utf8, expected)
    }

    /** The buffer is NUL-terminated and its state is a reachable one. */
    ghost predicate Valid()
      reads this, output
    {
      Shape() && Ok(View())
    }

    constructor ()
      ensures Valid() && View() == START && fresh(output)
    {
      output := new Byte[OUTPUT_CAP](_ => NUL);
      length, lineStart, cursor, truncated := 0, 0, 0, false;
      escape, sequence, utf8, expected := 0, [], [], 0;
    }

    /** `recover_output_cursor`. */
    method RecoverCursor()
      requires Shape()
      modifies this`lineStart, this`cursor
      ensures Shape() && Screen_() == Recover(old(Screen_()))
    {
      if lineStart > length || cursor < lineStart || cursor > length {
        lineStart, cursor := length, length;
      }
    }

    method WriteVisible(b: Byte)
      requires Shape()
      modifies this`length, this`lineStart, this`cursor, this`truncated, output
      ensures Shape() && Screen_() == Visible(old(Screen_()), b)
    {
      RecoverCursor();
      if cursor < length {
        output[cursor] := b;
        cursor := cursor + 1;
        return;
      }
      if length >= OUTPUT_CAP - 1 {
        truncated := true;
        return;
      }
      output[length] := b;
      length := length + 1;
      cursor := length;
      output[length] := NUL;
    }

    method AppendNewline()
      requires Shape()
      modifies this`length, this`lineStart, this`cursor, this`truncated, output
      ensures Shape() && Screen_() == Newline(old(Screen_()))
    {
      RecoverCursor();
      if length >= OUTPUT_CAP - 1 {
        truncated := true;
        cursor := length;
        return;
      }
      output[length] := NEWLINE;
      length := length + 1;
      output[length] := NUL;
      lineStart := length;
      cursor := length;
    }

    /** `write_style_sequence`. */
    method WriteStyle(text: Text)
      requires Shape()
      modifies this`length, this`lineStart, this`cursor, this`truncated, output
      ensures Shape() && Screen_() == Style(old(Screen_()), text)
    {
      if |text| == 0 || |text| > SEQUENCE_CAP {
        return;
      }
      RecoverCursor();
      if cursor + |text| > OUTPUT_CAP - 1 {
        truncated := true;
        return;
      }
      var at, end := cursor, cursor + |text|;
      ghost var before, screen := output[..], Screen_();
      for k := 0 to |text|
        invariant cursor == at && lineStart == screen.lineStart && length == |screen.out| && truncated == screen.truncated
        invariant forall j :: 0 <= j < OUTPUT_CAP ==>
          output[j] == if cursor <= j < cursor + k then text[j - cursor] else before[j]
      {
        output[cursor + k] := text[k];
      }
      cursor := end;
      if end > length {
        length := end;
      }
      output[length] := NUL;
      assert output[..length] == Overwrite(screen.out, at, text);
    }

    method WriteVisibleAll(bytes: Text)
      requires Shape()
      modifies this`length, this`lineStart, this`cursor, this`truncated, output
      ensures Shape() && Screen_() == VisibleAll(old(Screen_()), bytes)
    {
      hide Visible;
      ghost var goal := VisibleAll(Screen_(), bytes);
      assert bytes[0..] == bytes;
      for k := 0 to |bytes|
        invariant Shape() && VisibleAll(Screen_(), bytes[k..]) == goal
      {
        assert bytes[k..][1..] == bytes[k + 1..];
        WriteVisible(bytes[k]);
      }
    }

    /** `consume_active_escape` and `finish_csi`. */
    method ConsumeEscape(b: Byte)
      requires Shape() && escape != 0
      modifies this`length, this`lineStart, this`cursor, this`truncated, this`escape, this`sequence, output
      ensures Shape() && View() == Escaped(old(View()), b)
    {
      hide Style, RetainedStyle;
      if escape == 1 {
        if b == BRACKET {
          sequence := CaptureByte(sequence, b);
          escape := 2;
        } else {
          escape := if b == 93 then 3 else if b == 80 || b == 88 || b == 94 || b == 95 then 5 else 0;
          sequence := [];
        }
      } else if escape == 2 {
        sequence := CaptureByte(sequence, b);
        if 0x40 <= b <= 0x7e {
          if b == FINAL && RetainedStyle(sequence) {
            WriteStyle(sequence);
          }
          sequence := [];
          escape := 0;
        }
      } else if escape == 3 || escape == 4 {
        if b == 7 || b == 0x9c || (escape == 4 && b == BACKSLASH) {
          escape := 0;
        } else {
          escape := if b == ESC then 4 else 3;
        }
      } else if escape == 5 || escape == 6 {
        if b == 0x9c || (escape == 6 && b == BACKSLASH) {
          escape := 0;
        } else {
          escape := if b == ESC then 6 else 5;
        }
      }
    }

    /** `consume_output_utf8`. */
    method ConsumeScalar(b: Byte) returns (consumed: bool)
      requires Shape()
      modifies this`length, this`lineStart, this`cursor, this`truncated, this`utf8, this`expected, output
      ensures Shape() && (View(), consumed) == Scalar(old(View()), b)
    {
      hide VisibleAll;
      if utf8 != [] {
        if !Continuation(utf8, b) {
          WriteVisibleAll(REPLACEMENT);
          utf8, expected := [], 0;
          return false;
        }
        utf8 := utf8 + [b];
        if |utf8| == expected {
          if !(utf8[0] == 0xc2 && utf8[1] <= 0x9f) {
            WriteVisibleAll(utf8);
          }
          utf8, expected := [], 0;
        }
        return true;
      }
      if ExpectedLength(b) == 0 {
        return false;
      }
      utf8, expected := [b], ExpectedLength(b);
      return true;
    }

    method ControlByte(b: Byte)
      requires Shape()
      modifies this`length, this`lineStart, this`cursor, this`truncated, this`escape, this`sequence, output
      ensures Shape() && View() == Control(old(View()), b)
    {
      hide Visible, Newline;
      if b == ESC {
        escape, sequence := 1, [ESC];
      } else if b == 0x9b {
        escape, sequence := 2, [ESC, BRACKET];
      } else if b == 0x9d {
        escape := 3;
      } else if b == 0x90 || b == 0x98 || b == 0x9e || b == 0x9f {
        escape := 5;
      } else if b == CARRIAGE {
        RecoverCursor();
        cursor := lineStart;
      } else if b == NEWLINE {
        AppendNewline();
      } else if b == 9 {
        WriteVisible(32);
      } else if b >= 32 {
        WriteVisible(b);
      }
    }

    /** `append_terminal_byte`. */
    method AppendTerminalByte(b: Byte)
      requires Valid()
      modifies this, output
      ensures Valid() && View() == AppendByte(old(View()), b)
    {
      AppendByteKeepsOk(View(), b);
      hide Ok, Scalar, Escaped, Control;
      if utf8 != [] {
        var consumed := ConsumeScalar(b);
        if consumed {
          return;
        }
      }
      if escape != 0 {
        ConsumeEscape(b);
        return;
      }
      var consumed := ConsumeScalar(b);
      if !consumed {
        ControlByte(b);
      }
    }

    /** `gsh_async_repl_append`: a read longer than the buffer is refused whole; the
        result tells whether anything was ever lost. */
    method AppendBytes(bytes: Text) returns (result: Appended)
      requires Valid()
      modifies this, output
      ensures Valid()
      ensures |bytes| > OUTPUT_CAP ==> result == Refused && View() == old(View())
      ensures |bytes| <= OUTPUT_CAP ==>
                View() == Append(old(View()), bytes) && result == (if View().screen.truncated then Truncated else Whole)
    {
      hide Ok, AppendByte;
      if |bytes| > OUTPUT_CAP {
        return Refused;
      }
      ghost var goal := Append(View(), bytes);
      assert bytes[0..] == bytes;
      for k := 0 to |bytes|
        invariant Valid() && Append(View(), bytes[k..]) == goal
      {
        assert bytes[k..][1..] == bytes[k + 1..];
        AppendTerminalByte(bytes[k]);
      }
      return if truncated then Truncated else Whole;
    }

    method CloseOutput()
      requires Valid()
      modifies this, output
      ensures Valid() && View() == Closed(old(View()))
    {
      ClosedKeepsOk(View());
      hide Ok, VisibleAll;
      if utf8 != [] {
        WriteVisibleAll(REPLACEMENT);
        utf8, expected := [], 0;
      }
    }
  }
}
