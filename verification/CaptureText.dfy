/** What captured output shows: the pieces a terminal stream is made of, and the text
    each of them leaves on the row. */
module CaptureText {
  import opened Bytes
  import opened Capture

  /** One byte, one UTF-8 scalar, a control sequence behind `ESC [` or its one-byte form,
      a string (title, device control) with its terminator, another two-byte escape, a
      newline, or a carriage return. */
  datatype Piece =
    | Single(b: Byte)
    | Encoded(bytes: Text)
    | Sequence(short: bool, params: Text, final: Byte)
    | Payload(title: bool, intro: Text, body: Text, end: Text)
    | Escape(b: Byte)
    | Break
    | Carriage

  const STRINGS: seq<Byte> := [80, 88, 94, 95]          // P X ^ _
  const SHORT_STRINGS: seq<Byte> := [0x90, 0x98, 0x9e, 0x9f]

  predicate Intro(title: bool, intro: Text) {
    if title then intro == [ESC, 93] || intro == [0x9d]
    else (|intro| == 2 && intro[0] == ESC && intro[1] in STRINGS) || (|intro| == 1 && intro[0] in SHORT_STRINGS)
  }

  /** A bell ends titles only. */
  predicate Terminator(title: bool, end: Text) {
    (title && end == [7]) || end == [0x9c] || end == [ESC, BACKSLASH]
  }

  predicate IsPiece(p: Piece) {
    match p
    case Single(b) => ExpectedLength(b) == 0 && b !in [ESC, NEWLINE, CARRIAGE, 0x9b, 0x9d] && b !in SHORT_STRINGS
    case Encoded(bytes) => WellFormed(bytes)
    case Sequence(_, params, final) =>
      (forall k :: 0 <= k < |params| ==> !(0x40 <= params[k] <= 0x7e)) && 0x40 <= final <= 0x7e
    case Payload(title, intro, body, end) =>
      && Intro(title, intro) && Terminator(title, end)
      && forall k :: 0 <= k < |body| ==> body[k] != ESC && body[k] != 0x9c && (title ==> body[k] != 7)
    case Escape(b) => b != BRACKET && b != 93 && b !in STRINGS
    case Break => true
    case Carriage => true
  }

  function Print(p: Piece): Text {
    match p
    case Single(b) => [b]
    case Encoded(bytes) => bytes
    case Sequence(short, params, final) => (if short then [0x9b] else [ESC, BRACKET]) + params + [final]
    case Payload(_, intro, body, end) => intro + body + end
    case Escape(b) => [ESC, b]
    case Break => [NEWLINE]
    case Carriage => [CARRIAGE]
  }

  /** A style: `ESC [`, digits and semicolons, `m`, 64 bytes at most. */
  predicate IsStyle(params: Text, final: Byte) {
    final == FINAL && |params| <= SEQUENCE_CAP - 3 && forall k :: 0 <= k < |params| ==> IsDigit(params[k]) || params[k] == 59
  }

  /** What stays of a piece: visible bytes, a blank for a tab, whole scalars but no encoded
      control, styles, and newlines. */
  function Kept(p: Piece): Text {
    match p
    case Single(b) => if b == 9 then [32] else if b >= 32 then [b] else []
    case Encoded(bytes) => if |bytes| >= 2 && bytes[0] == 0xc2 && bytes[1] <= 0x9f then [] else bytes
    case Sequence(_, params, final) => if IsStyle(params, final) then [ESC, BRACKET] + params + [final] else []
    case Break => [NEWLINE]
    case _ => []
  }

  predicate Fits(s: Screen, p: Piece) {
    (if p.Break? then |s.out| else s.cursor) + |Kept(p)| < OUTPUT_CAP
  }

  /** A newline goes behind the text and begins a row; a carriage return goes back to the
      row's start; anything else is written over the row at the cursor. */
  function Shown(s: Screen, p: Piece): Screen
    requires InBounds(s)
  {
    if p.Break? then s.(out := s.out + [NEWLINE], lineStart := |s.out| + 1, cursor := |s.out| + 1)
    else if p.Carriage? then s.(cursor := s.lineStart)
    else s.(out := Overwrite(s.out, s.cursor, Kept(p)), cursor := s.cursor + |Kept(p)|)
  }

  /** Between pieces. */
  predicate Ready(c: State) {
    c.escape == 0 && c.utf8 == [] && c.sequence == [] && c.expected == 0 && InBounds(c.screen)
  }

  // ----- each piece -----

  lemma One(c: State, b: Byte)
    ensures Append(c, [b]) == AppendByte(c, b)
  {
    assert [b][1..] == [];
    assert Append(AppendByte(c, b), []) == AppendByte(c, b);
  }

  lemma OverwriteNothing(out: Text, at: nat)
    requires at <= |out|
    ensures Overwrite(out, at, []) == out
  {
  }

  /** The parameters of a control sequence are gathered. */
  lemma {:induction false} Gathered(c: State, params: Text)
    requires c.escape == 2 && c.utf8 == [] && forall k :: 0 <= k < |params| ==> !(0x40 <= params[k] <= 0x7e)
    requires |c.sequence| <= SEQUENCE_CAP
    ensures var s := c.sequence + params;
      Append(c, params) == c.(sequence := if |s| <= SEQUENCE_CAP then s else s[..SEQUENCE_CAP])
    decreases |params|
  {
    if params == [] {
      assert c.sequence + params == c.sequence;
    } else {
      var next := AppendByte(c, params[0]);
      assert !(0x40 <= params[0] <= 0x7e);
      assert next == c.(sequence := CaptureByte(c.sequence, params[0]));
      forall k | 0 <= k < |params| - 1 ensures !(0x40 <= params[1..][k] <= 0x7e) {
        assert params[1..][k] == params[k + 1];
      }
      Gathered(next, params[1..]);
      assert c.sequence + params == c.sequence + [params[0]] + params[1..];
    }
  }

  lemma SequenceBegins(c: State, short: bool)
    requires Ready(c)
    ensures Append(c, if short then [0x9b] else [ESC, BRACKET]) == c.(escape := 2, sequence := [ESC, BRACKET])
  {
    if short {
      One(c, 0x9b);
    } else {
      var after := AppendByte(c, ESC);
      assert [ESC, BRACKET] == [ESC] + [BRACKET];
      AppendChunks(c, [ESC], [BRACKET]);
      One(c, ESC);
      One(after, BRACKET);
    }
  }

  lemma StyleIsRetained(params: Text, final: Byte)
    requires 0x40 <= final <= 0x7e && forall k :: 0 <= k < |params| ==> !(0x40 <= params[k] <= 0x7e)
    ensures var s := [ESC, BRACKET] + params;
      var gathered := CaptureByte(if |s| <= SEQUENCE_CAP then s else s[..SEQUENCE_CAP], final);
      && (final == FINAL && RetainedStyle(gathered) <==> IsStyle(params, final))
      && (IsStyle(params, final) ==> gathered == s + [final])
  {
    var s := [ESC, BRACKET] + params;
    var gathered := CaptureByte(if |s| <= SEQUENCE_CAP then s else s[..SEQUENCE_CAP], final);
    if |s| >= SEQUENCE_CAP {
      assert gathered == s[..SEQUENCE_CAP];
      assert gathered[SEQUENCE_CAP - 1] == params[SEQUENCE_CAP - 3];
    } else {
      assert gathered == s + [final];
      if RetainedStyle(gathered) {
        forall k | 0 <= k < |params| ensures StyleByte(params[k]) {
          assert gathered[k + 2] == params[k];
        }
      }
    }
  }

  lemma SequenceShown(c: State, p: Piece)
    requires Ready(c) && p.Sequence? && IsPiece(p) && Fits(c.screen, p)
    ensures Append(c, Print(p)) == c.(screen := Shown(c.screen, p))
  {
    hide AppendByte, RetainedStyle, Overwrite, IsStyle;
    var begin, end := if p.short then [0x9b] else [ESC, BRACKET], [p.final];
    AppendChunks(c, begin + p.params, end);
    AppendChunks(c, begin, p.params);
    SequenceBegins(c, p.short);
    var open := c.(escape := 2, sequence := [ESC, BRACKET]);
    Gathered(open, p.params);
    var last := Append(open, p.params);
    One(last, p.final);
    SequenceEnds(last, p.final);
    StyleIsRetained(p.params, p.final);
    OverwriteNothing(c.screen.out, c.screen.cursor);
  }

  lemma SequenceEnds(c: State, final: Byte)
    requires c.escape == 2 && c.utf8 == [] && c.expected == 0 && 0x40 <= final <= 0x7e
    ensures var gathered := CaptureByte(c.sequence, final);
      AppendByte(c, final) ==
        State(if final == FINAL && RetainedStyle(gathered) then Style(c.screen, gathered) else c.screen, 0, [], [], 0)
  {
  }

  /** Nothing of a string is shown, and the state inside it does not change. */
  lemma {:induction false} BodyIsHidden(c: State, title: bool, body: Text)
    requires c.utf8 == [] && c.escape == (if title then 3 else 5)
    requires forall k :: 0 <= k < |body| ==> body[k] != ESC && body[k] != 0x9c && (title ==> body[k] != 7)
    ensures Append(c, body) == c
    decreases |body|
  {
    if body != [] {
      assert AppendByte(c, body[0]) == c;
      BodyIsHidden(c, title, body[1..]);
    }
  }

  lemma IntroOpens(c: State, title: bool, intro: Text)
    requires Ready(c) && Intro(title, intro)
    ensures Append(c, intro) == c.(escape := if title then 3 else 5)
  {
    if |intro| == 1 {
      One(c, intro[0]);
    } else {
      var after := AppendByte(c, ESC);
      assert intro == [ESC] + [intro[1]];
      AppendChunks(c, [ESC], [intro[1]]);
      One(c, ESC);
      One(after, intro[1]);
    }
  }

  lemma TerminatorCloses(c: State, title: bool, end: Text)
    requires c.utf8 == [] && c.escape == (if title then 3 else 5) && Terminator(title, end)
    ensures Append(c, end) == c.(escape := 0)
  {
    if |end| == 1 {
      One(c, end[0]);
    } else {
      var after := AppendByte(c, ESC);
      assert end == [ESC] + [BACKSLASH];
      AppendChunks(c, [ESC], [BACKSLASH]);
      One(c, ESC);
      One(after, BACKSLASH);
    }
  }

  lemma PayloadShown(c: State, p: Piece)
    requires Ready(c) && p.Payload? && IsPiece(p)
    ensures Append(c, Print(p)) == c.(screen := Shown(c.screen, p))
  {
    hide AppendByte, Overwrite, Intro, Terminator, Append;
    AppendChunks(c, p.intro + p.body, p.end);
    AppendChunks(c, p.intro, p.body);
    IntroOpens(c, p.title, p.intro);
    var open := c.(escape := if p.title then 3 else 5);
    BodyIsHidden(open, p.title, p.body);
    TerminatorCloses(open, p.title, p.end);
    OverwriteNothing(c.screen.out, c.screen.cursor);
  }

  /** Bytes written one by one are one text over the row. */
  lemma {:induction false} VisibleAllOverwrites(s: Screen, bytes: Text)
    requires InBounds(s) && s.cursor + |bytes| < OUTPUT_CAP
    ensures VisibleAll(s, bytes) == s.(out := Overwrite(s.out, s.cursor, bytes), cursor := s.cursor + |bytes|)
    decreases |bytes|
  {
    if bytes == [] {
      OverwriteNothing(s.out, s.cursor);
    } else {
      VisibleIsOverwrite(s, bytes[0]);
      VisibleAllOverwrites(Visible(s, bytes[0]), bytes[1..]);
      OverwriteTwice(s.out, s.cursor, bytes);
    }
  }

  lemma SingleShown(c: State, p: Piece)
    requires Ready(c) && p.Single? && IsPiece(p) && Fits(c.screen, p)
    ensures Append(c, Print(p)) == c.(screen := Shown(c.screen, p))
  {
    One(c, p.b);
    OverwriteNothing(c.screen.out, c.screen.cursor);
    VisibleIsOverwrite(c.screen, if p.b == 9 then 32 else p.b);
    hide Append, Overwrite, Visible, Newline, Return;
  }

  lemma ScalarShown(c: State, p: Piece)
    requires Ready(c) && p.Encoded? && IsPiece(p) && Fits(c.screen, p)
    ensures Append(c, Print(p)) == c.(screen := Shown(c.screen, p))
  {
    ScalarIsAtomic(c, p.bytes);
    OverwriteNothing(c.screen.out, c.screen.cursor);
    hide Append, Overwrite, VisibleAll;
    if !HiddenControl(p.bytes) {
      VisibleAllOverwrites(c.screen, p.bytes);
    }
  }

  /** Between two pieces, a piece that fits is shown as said, and nothing else changes. */
  lemma PieceIsShown(c: State, p: Piece)
    requires Ready(c) && IsPiece(p) && Fits(c.screen, p)
    ensures Append(c, Print(p)) == c.(screen := Shown(c.screen, p)) && Ready(Append(c, Print(p)))
  {
    match p
    case Single(b) => SingleShown(c, p);
    case Encoded(bytes) => ScalarShown(c, p);
    case Sequence(_, _, _) => SequenceShown(c, p);
    case Payload(_, _, _, _) => PayloadShown(c, p);
    case Escape(b) =>
      assert [ESC, b] == [ESC] + [b];
      AppendChunks(c, [ESC], [b]);
      One(c, ESC);
      One(AppendByte(c, ESC), b);
      OverwriteNothing(c.screen.out, c.screen.cursor);
    case Break => One(c, NEWLINE);
    case Carriage => One(c, CARRIAGE);
  }

  /** A scalar broken off by any other byte shows one replacement character, and then that
      byte is taken by itself. */
  lemma BrokenScalarIsReplaced(c: State, bytes: Text, n: nat, b: Byte)
    requires Ready(c) && WellFormed(bytes) && 1 <= n < |bytes| && !Continuation(bytes[..n], b)
    ensures Append(c, bytes[..n] + [b]) == Append(c.(screen := VisibleAll(c.screen, [0xef, 0xbf, 0xbd])), [b])
  {
    ScalarGathers(c, bytes, n);
    AppendChunks(c, bytes[..n], [b]);
    One(Append(c, bytes[..n]), b);
    One(c.(screen := VisibleAll(c.screen, REPLACEMENT)), b);
    hide Append, VisibleAll, Control, Escaped;
  }

  /** A scalar that is unfinished when the output is closed shows one replacement
      character, and between pieces closing shows nothing. */
  lemma ClosedIsReplaced(c: State, bytes: Text, n: nat)
    requires Ready(c)
    ensures Closed(c) == c
    ensures WellFormed(bytes) && 1 <= n < |bytes| ==>
      Closed(Append(c, bytes[..n])) == c.(screen := VisibleAll(c.screen, [0xef, 0xbf, 0xbd]))
  {
    hide Append, VisibleAll;
    if WellFormed(bytes) && 1 <= n < |bytes| {
      ScalarGathers(c, bytes, n);
    }
  }

  // ----- whole streams -----

  ghost predicate ArePieces(ps: seq<Piece>) {
    forall i :: 0 <= i < |ps| ==> IsPiece(ps[i])
  }

  function PrintAll(ps: seq<Piece>): Text {
    if ps == [] then [] else Print(ps[0]) + PrintAll(ps[1..])
  }

  function KeptAll(ps: seq<Piece>): Text {
    if ps == [] then [] else Kept(ps[0]) + KeptAll(ps[1..])
  }

  predicate AllFit(s: Screen, ps: seq<Piece>)
    requires InBounds(s)
    decreases |ps|
  {
    ps == [] || (Fits(s, ps[0]) && AllFit(Shown(s, ps[0]), ps[1..]))
  }

  function ShownAll(s: Screen, ps: seq<Piece>): Screen
    requires InBounds(s) && AllFit(s, ps)
    decreases |ps|
  {
    if ps == [] then s else ShownAll(Shown(s, ps[0]), ps[1..])
  }

  /** Pieces that fit are shown one after the other. */
  lemma {:induction false} StreamIsShown(c: State, ps: seq<Piece>)
    requires Ready(c) && ArePieces(ps) && AllFit(c.screen, ps)
    ensures Append(c, PrintAll(ps)) == c.(screen := ShownAll(c.screen, ps))
    decreases |ps|
  {
    hide AppendByte, Shown, Fits, IsPiece, Print;
    if ps != [] {
      assert IsPiece(ps[0]);
      forall i | 0 <= i < |ps| - 1 ensures IsPiece(ps[1..][i]) {
        assert IsPiece(ps[i + 1]);
      }
      PieceIsShown(c, ps[0]);
      AppendChunks(c, Print(ps[0]), PrintAll(ps[1..]));
      StreamIsShown(Append(c, Print(ps[0])), ps[1..]);
    }
  }

  /** The cursor at the end of a text whose last row begins behind its last newline. */
  predicate AtEnd(s: Screen) {
    && s.lineStart <= s.cursor == |s.out| < OUTPUT_CAP && NEWLINE !in s.out[s.lineStart..]
    && (s.lineStart > 0 ==> s.out[s.lineStart - 1] == NEWLINE)
  }

  lemma PieceAtEnd(s: Screen, p: Piece)
    requires AtEnd(s) && IsPiece(p) && !p.Carriage? && |s.out| + |Kept(p)| < OUTPUT_CAP
    ensures Fits(s, p) && Shown(s, p).out == s.out + Kept(p) && Shown(s, p).truncated == s.truncated
    ensures AtEnd(Shown(s, p))
  {
    AppendToEnd(s.out, Kept(p));
    KeptWithinRow(p);
    hide Overwrite, Kept;
    var t := Shown(s, p);
    if p.Break? {
      assert t.out[t.lineStart..] == [];
    } else {
      assert t.out[t.lineStart..] == s.out[s.lineStart..] + Kept(p);
    }
  }

  lemma KeptWithinRow(p: Piece)
    requires IsPiece(p)
    ensures if p.Break? then Kept(p) == [NEWLINE] else NEWLINE !in Kept(p)
  {
    if p.Encoded? {
      forall k | 0 <= k < |p.bytes| ensures p.bytes[k] >= 0x80 {
        if k > 0 {
          assert Continuation(p.bytes[..k], p.bytes[k]);
        }
      }
    }
  }

  lemma {:induction false} AllAtEnd(s: Screen, ps: seq<Piece>)
    requires AtEnd(s) && ArePieces(ps) && Carriage !in ps && |s.out| + |KeptAll(ps)| < OUTPUT_CAP
    ensures InBounds(s) && AllFit(s, ps) && AtEnd(ShownAll(s, ps))
    ensures ShownAll(s, ps).out == s.out + KeptAll(ps) && ShownAll(s, ps).truncated == s.truncated
    decreases |ps|
  {
    hide Shown, Fits, IsPiece, Kept, AtEnd;
    EndInBounds(s);
    if ps != [] {
      assert IsPiece(ps[0]) && ps[0] in ps;
      forall i | 0 <= i < |ps| - 1 ensures IsPiece(ps[1..][i]) {
        assert IsPiece(ps[i + 1]);
      }
      PieceAtEnd(s, ps[0]);
      AllAtEnd(Shown(s, ps[0]), ps[1..]);
    }
  }

  lemma EndInBounds(s: Screen)
    requires AtEnd(s)
    ensures InBounds(s)
  {
  }

  /** Without carriage returns, and if it fits, a stream from the start is captured as what
      stays of its pieces, untruncated, with the cursor at its end and the row behind its
      last newline; so a text of visible bytes, scalars, styles and newlines is captured
      as it is. */
  lemma TextIsCaptured(ps: seq<Piece>)
    requires ArePieces(ps) && Carriage !in ps && |KeptAll(ps)| < OUTPUT_CAP
    ensures var c := Append(START, PrintAll(ps));
      && Ready(c) && AtEnd(c.screen) && c.screen.out == KeptAll(ps) && !c.screen.truncated
      && ((forall i :: 0 <= i < |ps| ==> Kept(ps[i]) == Print(ps[i])) ==> c.screen.out == PrintAll(ps))
  {
    hide Append, ShownAll, AllFit, Kept, Print;
    AllAtEnd(START.screen, ps);
    StreamIsShown(START, ps);
    assert START.screen.out + KeptAll(ps) == KeptAll(ps);
    if forall i :: 0 <= i < |ps| ==> Kept(ps[i]) == Print(ps[i]) {
      SameText(ps);
    }
  }

  lemma {:induction false} SameText(ps: seq<Piece>)
    requires forall i :: 0 <= i < |ps| ==> Kept(ps[i]) == Print(ps[i])
    ensures KeptAll(ps) == PrintAll(ps)
  {
    hide Kept, Print;
    if ps != [] {
      forall i | 0 <= i < |ps| - 1 ensures Kept(ps[1..][i]) == Print(ps[1..][i]) {
        assert Kept(ps[i + 1]) == Print(ps[i + 1]);
      }
      SameText(ps[1..]);
    }
  }

  // ----- what does not fit -----

  lemma {:induction false} VisibleAllOverflows(s: Screen, bytes: Text)
    requires InBounds(s) && (s.truncated || s.cursor + |bytes| >= OUTPUT_CAP)
    ensures VisibleAll(s, bytes).truncated && InBounds(VisibleAll(s, bytes))
    decreases |bytes|
  {
    if bytes != [] {
      VisibleIsOverwrite(s, bytes[0]);
      OverwriteAt(s.out, s.cursor, [bytes[0]]);
      VisibleAllOverflows(Visible(s, bytes[0]), bytes[1..]);
    }
  }

  /** A piece that does not fit sets the mark for lost output. */
  lemma OverflowIsNoted(c: State, p: Piece)
    requires Ready(c) && IsPiece(p) && !Fits(c.screen, p)
    ensures Append(c, Print(p)).screen.truncated
  {
    hide RetainedStyle, IsStyle, Overwrite;
    match p
    case Single(b) => One(c, b);
    case Encoded(bytes) =>
      ScalarIsAtomic(c, bytes);
      VisibleAllOverflows(c.screen, bytes);
    case Sequence(short, params, final) =>
      hide AppendByte;
      var begin := if short then [0x9b] else [ESC, BRACKET];
      AppendChunks(c, begin + params, [final]);
      AppendChunks(c, begin, params);
      SequenceBegins(c, short);
      var open := c.(escape := 2, sequence := [ESC, BRACKET]);
      Gathered(open, params);
      One(Append(open, params), final);
      SequenceEnds(Append(open, params), final);
      StyleIsRetained(params, final);
      StyleFits(params, final);
    case Break => One(c, NEWLINE);
    case _ =>
  }

  lemma StyleFits(params: Text, final: Byte)
    ensures IsStyle(params, final) ==> 3 <= |[ESC, BRACKET] + params + [final]| <= SEQUENCE_CAP
  {
  }

  lemma TruncatedScreen(s: Screen, b: Byte, sequence: Text)
    requires s.truncated
    ensures Visible(s, b).truncated && Newline(s).truncated && Return(s).truncated && Style(s, sequence).truncated
  {
    hide Overwrite;
  }

  lemma TruncatedScalar(c: State, b: Byte)
    requires c.screen.truncated
    ensures Scalar(c, b).0.screen.truncated
  {
    hide Continuation, ExpectedLength, VisibleAll;
    TruncatedAll(c.screen, REPLACEMENT);
    TruncatedAll(c.screen, c.utf8 + [b]);
  }

  lemma TruncatedControl(c: State, b: Byte)
    requires c.screen.truncated
    ensures Escaped(c, b).screen.truncated && Control(c, b).screen.truncated
  {
    hide Visible, Newline, Return, Style, RetainedStyle;
    TruncatedScreen(c.screen, b, CaptureByte(c.sequence, b));
    TruncatedScreen(c.screen, 32, []);
  }

  lemma TruncatedByte(c: State, b: Byte)
    requires c.screen.truncated
    ensures AppendByte(c, b).screen.truncated
  {
    hide Scalar, Escaped, Control;
    TruncatedScalar(c, b);
    var next := Scalar(c, b).0;
    TruncatedControl(c, b);
    TruncatedControl(next, b);
    TruncatedScalar(next, b);
    TruncatedControl(Scalar(next, b).0, b);
  }

  lemma {:induction false} TruncatedAll(s: Screen, bytes: Text)
    requires s.truncated
    ensures VisibleAll(s, bytes).truncated
    decreases |bytes|
  {
    if bytes != [] {
      TruncatedAll(Visible(s, bytes[0]), bytes[1..]);
    }
  }

  /** The mark for lost output stays. */
  lemma {:induction false} TruncatedStays(c: State, bytes: Text)
    requires c.screen.truncated
    ensures Append(c, bytes).screen.truncated
    decreases |bytes|
  {
    hide AppendByte;
    if bytes != [] {
      TruncatedByte(c, bytes[0]);
      TruncatedStays(AppendByte(c, bytes[0]), bytes[1..]);
    }
  }

  lemma {:induction false} LostIsNoted(c: State, ps: seq<Piece>)
    requires Ready(c) && AtEnd(c.screen) && ArePieces(ps) && Carriage !in ps
    requires |c.screen.out| + |KeptAll(ps)| >= OUTPUT_CAP
    ensures Append(c, PrintAll(ps)).screen.truncated
    decreases |ps|
  {
    hide Shown, Fits, IsPiece, Kept, AtEnd, Print, AppendByte, Ready;
    EndOfText(c);
    var p := ps[0];
    assert IsPiece(p) && p in ps;
    forall i | 0 <= i < |ps| - 1 ensures IsPiece(ps[1..][i]) {
      assert IsPiece(ps[i + 1]);
    }
    AppendChunks(c, Print(p), PrintAll(ps[1..]));
    if Fits(c.screen, p) {
      PieceIsShown(c, p);
      FitsAtEnd(c.screen, p);
      PieceAtEnd(c.screen, p);
      LostIsNoted(Append(c, Print(p)), ps[1..]);
    } else {
      OverflowIsNoted(c, p);
      TruncatedStays(Append(c, Print(p)), PrintAll(ps[1..]));
    }
  }

  lemma EndOfText(c: State)
    requires Ready(c)
    ensures InBounds(c.screen)
  {
  }

  lemma FitsAtEnd(s: Screen, p: Piece)
    requires AtEnd(s) && Fits(s, p)
    ensures |s.out| + |Kept(p)| < OUTPUT_CAP
  {
  }

  /** Without carriage returns, output counts as lost exactly when what stays of the
      stream does not fit 65535 bytes. */
  lemma TruncatedExactly(ps: seq<Piece>)
    requires ArePieces(ps) && Carriage !in ps
    ensures Append(START, PrintAll(ps)).screen.truncated <==> |KeptAll(ps)| >= OUTPUT_CAP
  {
    hide Append, KeptAll;
    if |KeptAll(ps)| < OUTPUT_CAP {
      TextIsCaptured(ps);
    } else {
      LostIsNoted(START, ps);
    }
  }
}
