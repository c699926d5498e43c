/** Whether an alias value asks for the word behind it to be looked at too: it does
    when it ends in a blank that is neither quoted nor escaped. */
module AliasBlank {
  import opened Bytes

  const SPACE: Byte := 32
  const TAB: Byte := 9
  const SINGLE: Byte := 39
  const DOUBLE: Byte := 34

  datatype Quote = Unquoted | InSingle | InDouble

  predicate EscapedInDouble(b: Byte) {
    b in [36, 96, 34, BACKSLASH, NEWLINE]
  }

  /** The loop of `ends_in_unquoted_blank`. */
  function FinalQuoted(value: Text, offset: nat, quote: Quote, final: bool): bool
    decreases |value| - offset
  {
    if offset >= |value| then final
    else
      var byte := value[offset];
      match quote
      case InSingle => FinalQuoted(value, offset + 1, if byte == SINGLE then Unquoted else InSingle, true)
      case InDouble =>
        if byte == DOUBLE then FinalQuoted(value, offset + 1, Unquoted, true)
        else if byte == BACKSLASH && offset + 1 < |value| && EscapedInDouble(value[offset + 1]) then
          FinalQuoted(value, offset + 2, InDouble, true)
        else FinalQuoted(value, offset + 1, InDouble, true)
      case Unquoted =>
        if byte == SINGLE then FinalQuoted(value, offset + 1, InSingle, false)
        else if byte == DOUBLE then FinalQuoted(value, offset + 1, InDouble, false)
        else if byte == BACKSLASH && offset + 1 < |value| then
          FinalQuoted(value, offset + 2, Unquoted, offset + 2 == |value|)
        else FinalQuoted(value, offset + 1, Unquoted, false)
  }

  predicate EndsInBlank(value: Text) {
    value != [] && (value[|value| - 1] == SPACE || value[|value| - 1] == TAB) && !FinalQuoted(value, 0, Unquoted, false)
  }

  // ----- values as segments -----

  /** One piece of the inside of double quotes; a backslash takes the next byte along,
      whether or not it escapes it. */
  datatype Inner = Bare(byte: Byte) | Pair(byte: Byte)

  datatype Segment =
    | Plain(byte: Byte)
    | Escaped(byte: Byte)
    | SingleQuoted(text: Text)
    | DoubleQuoted(inners: seq<Inner>)

  /** What a value may end in besides whole segments. */
  datatype Tail = Nothing | OpenSingle(text: Text) | OpenDouble(inners: seq<Inner>, slash: bool) | LoneSlash

  predicate IsInner(i: Inner) {
    i.Bare? ==> i.byte != DOUBLE && i.byte != BACKSLASH
  }

  predicate AreInners(inners: seq<Inner>) {
    forall k :: 0 <= k < |inners| ==> IsInner(inners[k])
  }

  predicate IsSegment(s: Segment) {
    match s
    case Plain(byte) => byte != SINGLE && byte != DOUBLE && byte != BACKSLASH
    case Escaped(_) => true
    case SingleQuoted(text) => SINGLE !in text
    case DoubleQuoted(inners) => AreInners(inners)
  }

  predicate AreSegments(segments: seq<Segment>) {
    forall k :: 0 <= k < |segments| ==> IsSegment(segments[k])
  }

  predicate IsTail(t: Tail) {
    match t
    case OpenSingle(text) => SINGLE !in text
    case OpenDouble(inners, _) => AreInners(inners)
    case _ => true
  }

  function PrintInner(i: Inner): (s: Text)
    ensures s != []
  {
    if i.Bare? then [i.byte] else [BACKSLASH, i.byte]
  }

  function PrintInners(inners: seq<Inner>): Text {
    if inners == [] then [] else PrintInner(inners[0]) + PrintInners(inners[1..])
  }

  function PrintSegment(s: Segment): (t: Text)
    ensures t != []
  {
    match s
    case Plain(byte) => [byte]
    case Escaped(byte) => [BACKSLASH, byte]
    case SingleQuoted(text) => [SINGLE] + text + [SINGLE]
    case DoubleQuoted(inners) => [DOUBLE] + PrintInners(inners) + [DOUBLE]
  }

  function PrintTail(t: Tail): Text {
    match t
    case Nothing => []
    case OpenSingle(text) => [SINGLE] + text
    case OpenDouble(inners, slash) => [DOUBLE] + PrintInners(inners) + (if slash then [BACKSLASH] else [])
    case LoneSlash => [BACKSLASH]
  }

  function PrintValue(segments: seq<Segment>, tail: Tail): Text {
    if segments == [] then PrintTail(tail) else PrintSegment(segments[0]) + PrintValue(segments[1..], tail)
  }

  // ----- the loop on segments -----

  predicate Rest(value: Text, offset: nat, text: Text) {
    offset <= |value| && value[offset..] == text
  }

  lemma RestBehind(value: Text, offset: nat, a: Text, b: Text)
    requires Rest(value, offset, a + b)
    ensures Rest(value, offset + |a|, b) && |value| == offset + |a| + |b|
    ensures forall k :: 0 <= k < |a| ==> value[offset + k] == a[k]
  {
    assert value[offset + |a|..] == value[offset..][|a|..];
    forall k | 0 <= k < |a| ensures value[offset + k] == a[k] {
      assert value[offset + k] == value[offset..][k];
    }
  }

  lemma {:induction false} InSingleQuotes(value: Text, offset: nat, text: Text, behind: Text, final: bool)
    requires SINGLE !in text && Rest(value, offset, text + behind)
    ensures FinalQuoted(value, offset, InSingle, final) ==
            FinalQuoted(value, offset + |text|, InSingle, final || text != [])
    decreases |text|
  {
    if text != [] {
      RestBehind(value, offset, text, behind);
      assert text + behind == [text[0]] + (text[1..] + behind);
      RestBehind(value, offset, [text[0]], text[1..] + behind);
      InSingleQuotes(value, offset + 1, text[1..], behind, true);
    }
  }

  lemma {:induction false} InDoubleQuotes(value: Text, offset: nat, inners: seq<Inner>, behind: Text, final: bool)
    requires AreInners(inners) && Rest(value, offset, PrintInners(inners) + behind)
    ensures FinalQuoted(value, offset, InDouble, final) ==
            FinalQuoted(value, offset + |PrintInners(inners)|, InDouble, final || inners != [])
    decreases |inners|
  {
    if inners != [] {
      var i, more := inners[0], PrintInners(inners[1..]);
      Regroup(PrintInner(i), more, behind);
      RestBehind(value, offset, PrintInner(i), more + behind);
      InnerStep(value, offset, i, final);
      InDoubleQuotes(value, offset + |PrintInner(i)|, inners[1..], behind, true);
    }
  }

  lemma InnerStep(value: Text, offset: nat, i: Inner, final: bool)
    requires IsInner(i) && offset + |PrintInner(i)| <= |value|
    requires forall k :: 0 <= k < |PrintInner(i)| ==> value[offset + k] == PrintInner(i)[k]
    ensures FinalQuoted(value, offset, InDouble, final) == FinalQuoted(value, offset + |PrintInner(i)|, InDouble, true)
  {
    assert value[offset] == PrintInner(i)[0];
    if i.Pair? {
      assert value[offset + 1] == PrintInner(i)[1];
    }
  }

  lemma SingleStep(value: Text, offset: nat, text: Text, behind: Text, final: bool)
    requires SINGLE !in text && Rest(value, offset, [SINGLE] + text + [SINGLE] + behind)
    ensures FinalQuoted(value, offset, Unquoted, final) == FinalQuoted(value, offset + |text| + 2, Unquoted, true)
  {
    hide Rest;
    assert [SINGLE] + text + [SINGLE] + behind == [SINGLE] + (text + ([SINGLE] + behind));
    RestBehind(value, offset, [SINGLE], text + ([SINGLE] + behind));
    InSingleQuotes(value, offset + 1, text, [SINGLE] + behind, false);
    RestBehind(value, offset + 1, text, [SINGLE] + behind);
    RestBehind(value, offset + 1 + |text|, [SINGLE], behind);
    assert value[offset + 0] == [SINGLE][0] && value[offset + 1 + |text| + 0] == [SINGLE][0];
  }

  lemma DoubleStep(value: Text, offset: nat, inners: seq<Inner>, behind: Text, final: bool)
    requires AreInners(inners) && Rest(value, offset, [DOUBLE] + PrintInners(inners) + [DOUBLE] + behind)
    ensures FinalQuoted(value, offset, Unquoted, final) ==
            FinalQuoted(value, offset + |PrintInners(inners)| + 2, Unquoted, true)
  {
    hide Rest, PrintInners;
    var text := PrintInners(inners);
    assert [DOUBLE] + text + [DOUBLE] + behind == [DOUBLE] + (text + ([DOUBLE] + behind));
    RestBehind(value, offset, [DOUBLE], text + ([DOUBLE] + behind));
    InDoubleQuotes(value, offset + 1, inners, [DOUBLE] + behind, false);
    RestBehind(value, offset + 1, text, [DOUBLE] + behind);
    RestBehind(value, offset + 1 + |text|, [DOUBLE], behind);
    assert value[offset + 0] == [DOUBLE][0] && value[offset + 1 + |text| + 0] == [DOUBLE][0];
  }

  /** Behind a segment the loop is unquoted again, and knows whether the last byte was. */
  lemma SegmentStep(value: Text, offset: nat, s: Segment, behind: Text, final: bool)
    requires IsSegment(s) && Rest(value, offset, PrintSegment(s) + behind)
    ensures Rest(value, offset + |PrintSegment(s)|, behind)
    ensures FinalQuoted(value, offset, Unquoted, final) ==
            FinalQuoted(value, offset + |PrintSegment(s)|, Unquoted, !s.Plain? && (s.Escaped? ==> behind == []))
  {
    RestBehind(value, offset, PrintSegment(s), behind);
    hide Rest;
    match s
    case Plain(_) =>
      assert value[offset + 0] == PrintSegment(s)[0];
    case Escaped(_) =>
      assert value[offset + 0] == PrintSegment(s)[0];
    case SingleQuoted(text) =>
      SingleStep(value, offset, text, behind, final);
    case DoubleQuoted(inners) =>
      DoubleStep(value, offset, inners, behind, final);
  }

  /** A last byte of an open quote is quoted; a bare quote or backslash is no blank. */
  lemma TailStep(value: Text, offset: nat, t: Tail, final: bool)
    requires IsTail(t) && Rest(value, offset, PrintTail(t))
    ensures t.Nothing? ==> FinalQuoted(value, offset, Unquoted, final) == final
    ensures !t.Nothing? ==> FinalQuoted(value, offset, Unquoted, final) ||
                            value[|value| - 1] in [SINGLE, DOUBLE, BACKSLASH]
  {
    match t
    case Nothing =>
    case LoneSlash =>
      RestBehind(value, offset, [BACKSLASH], []);
    case OpenSingle(text) =>
      assert PrintTail(t) == [SINGLE] + (text + []);
      RestBehind(value, offset, [SINGLE], text + []);
      InSingleQuotes(value, offset + 1, text, [], false);
    case OpenDouble(inners, slash) =>
      var text, last: Text := PrintInners(inners), if slash then [BACKSLASH] else [];
      assert PrintTail(t) == [DOUBLE] + (text + last);
      RestBehind(value, offset, [DOUBLE], text + last);
      InDoubleQuotes(value, offset + 1, inners, last, false);
      RestBehind(value, offset + 1, text, last);
      if slash {
        assert value[offset + 1 + |text|] == BACKSLASH;
      }
  }

  predicate EndsPlainly(segments: seq<Segment>, tail: Tail) {
    tail.Nothing? && segments != [] && segments[|segments| - 1] in [Plain(SPACE), Plain(TAB)]
  }

  lemma {:induction false} FinalOfSegments(value: Text, offset: nat, segments: seq<Segment>, tail: Tail, final: bool)
    requires AreSegments(segments) && IsTail(tail) && Rest(value, offset, PrintValue(segments, tail))
    ensures segments != [] && tail.Nothing? ==>
              FinalQuoted(value, offset, Unquoted, final) == !segments[|segments| - 1].Plain?
    ensures !tail.Nothing? ==> FinalQuoted(value, offset, Unquoted, final) ||
                               value[|value| - 1] in [SINGLE, DOUBLE, BACKSLASH]
    decreases |segments|
  {
    hide PrintSegment, PrintTail, FinalQuoted, IsSegment, IsTail;
    if segments == [] {
      TailStep(value, offset, tail, final);
    } else {
      var s, more := segments[0], PrintValue(segments[1..], tail);
      SegmentStep(value, offset, s, more, final);
      var known := !s.Plain? && (s.Escaped? ==> more == []);
      if segments[1..] == [] {
        TailStep(value, offset + |PrintSegment(s)|, tail, known);
        NothingPrinted(tail);
      } else {
        FinalOfSegments(value, offset + |PrintSegment(s)|, segments[1..], tail, known);
      }
    }
  }

  lemma NoSegments(t: Tail)
    ensures PrintValue([], t) == PrintTail(t)
  {
  }

  lemma NothingPrinted(t: Tail)
    ensures t.Nothing? ==> PrintTail(t) == []
  {
  }

  lemma {:induction false} LastByte(segments: seq<Segment>, tail: Tail)
    requires tail.Nothing? && segments != []
    ensures var v, last := PrintValue(segments, tail), PrintSegment(segments[|segments| - 1]);
      && v != [] && v[|v| - 1] == last[|last| - 1]
      && (segments[|segments| - 1].Plain? ==> v[|v| - 1] == segments[|segments| - 1].byte)
    decreases |segments|
  {
    if |segments| > 1 {
      hide PrintSegment;
      LastByte(segments[1..], tail);
    } else {
      assert PrintValue(segments[1..], tail) == [];
    }
  }

  /** A value asks for the next word exactly when its last segment is a plain blank:
      not when it is escaped, in single or double quotes, or in a quote left open. */
  lemma BlankAsksUnlessQuoted(segments: seq<Segment>, tail: Tail)
    requires AreSegments(segments) && IsTail(tail)
    ensures EndsInBlank(PrintValue(segments, tail)) <==> EndsPlainly(segments, tail)
  {
    var value := PrintValue(segments, tail);
    assert Rest(value, 0, value);
    hide FinalQuoted, PrintSegment, PrintValue, AreSegments, IsTail, Rest;
    FinalOfSegments(value, 0, segments, tail, false);
    if tail.Nothing? {
      if segments == [] {
        NothingPrinted(tail);
        NoSegments(tail);
      } else {
        LastByte(segments, tail);
      }
    }
  }

  // ----- every value is such a sequence -----

  /** The inside of double quotes, up to the closing one if there is one. */
  lemma {:induction false} ReadInners(text: Text) returns (inners: seq<Inner>, closed: bool, slash: bool, behind: Text)
    ensures AreInners(inners) && (closed ==> !slash)
    ensures text == PrintInners(inners) + (if closed then [DOUBLE] + behind else if slash then [BACKSLASH] else [])
    decreases |text|
  {
    if text == [] {
      inners, closed, slash, behind := [], false, false, [];
    } else if text[0] == DOUBLE {
      inners, closed, slash, behind := [], true, false, text[1..];
    } else if text == [BACKSLASH] {
      inners, closed, slash, behind := [], false, true, [];
    } else {
      var i := if text[0] == BACKSLASH then Pair(text[1]) else Bare(text[0]);
      var more;
      more, closed, slash, behind := ReadInners(text[|PrintInner(i)|..]);
      inners := [i] + more;
      assert inners[1..] == more;
      assert text == PrintInner(i) + text[|PrintInner(i)|..];
    }
  }

  lemma {:induction false} ReadSingle(text: Text) returns (inside: Text, closed: bool, behind: Text)
    ensures SINGLE !in inside && text == inside + (if closed then [SINGLE] + behind else [])
    decreases |text|
  {
    if text == [] {
      inside, closed, behind := [], false, [];
    } else if text[0] == SINGLE {
      inside, closed, behind := [], true, text[1..];
    } else {
      var more;
      more, closed, behind := ReadSingle(text[1..]);
      inside := [text[0]] + more;
    }
  }

  /** Every value is whole segments and at most one open end, so the characterisation
      above covers all of them. */
  lemma {:induction false} EveryValueIsRead(value: Text) returns (segments: seq<Segment>, tail: Tail)
    ensures AreSegments(segments) && IsTail(tail) && PrintValue(segments, tail) == value
    decreases |value|
  {
    segments := [];
    if value == [] {
      tail := Nothing;
    } else if value == [BACKSLASH] {
      tail := LoneSlash;
    } else {
      var first, behind := Plain(value[0]), value[1..];
      if value[0] == BACKSLASH {
        first, behind := Escaped(value[1]), value[2..];
      } else if value[0] == SINGLE {
        var inside, closed, more := ReadSingle(value[1..]);
        if !closed {
          tail := OpenSingle(inside);
          assert value == [SINGLE] + value[1..];
          return;
        }
        first, behind := SingleQuoted(inside), more;
      } else if value[0] == DOUBLE {
        var inners, closed, slash, more := ReadInners(value[1..]);
        if !closed {
          tail := OpenDouble(inners, slash);
          assert value == [DOUBLE] + value[1..];
          return;
        }
        first, behind := DoubleQuoted(inners), more;
      }
      assert value == [value[0]] + value[1..];
      assert value == PrintSegment(first) + behind;
      var more;
      more, tail := EveryValueIsRead(behind);
      segments := [first] + more;
      assert segments[1..] == more;
    }
  }
}
