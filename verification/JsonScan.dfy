/** The bracket scanner: from an opening bracket it stops just past the matching one,
    although it counts one kind of bracket only. */
module JsonScan {
  import opened Bytes
  import opened JsonString

  const OPEN_BRACE: Byte := 123
  const CLOSE_BRACE: Byte := 125
  const OPEN_BRACKET: Byte := 91
  const CLOSE_BRACKET: Byte := 93
  const COMMA: Byte := 44
  const COLON: Byte := 58

  function Opener(curly: bool): Byte {
    if curly then OPEN_BRACE else OPEN_BRACKET
  }

  function Closer(curly: bool): Byte {
    if curly then CLOSE_BRACE else CLOSE_BRACKET
  }

  // ----- the scanner -----

  /** The loop of `scan_composite`; `used` bytes have been scanned. */
  function Scan(s: Text, curly: bool, used: nat, depth: nat, inString: bool, escaped: bool): (end: Option<nat>)
    requires depth > 0 || (s != [] && s[0] == Opener(curly) && !inString)
    ensures end.Some? ==> used < end.value <= used + |s| && end.value <= SCAN_CAP
    decreases |s|
  {
    if s == [] || used >= SCAN_CAP then None
    else if inString then
      Scan(s[1..], curly, used + 1, depth, escaped || s[0] != QUOTE, !escaped && s[0] == BACKSLASH)
    else if s[0] == QUOTE then Scan(s[1..], curly, used + 1, depth, true, escaped)
    else if s[0] == Opener(curly) then Scan(s[1..], curly, used + 1, depth + 1, false, escaped)
    else if s[0] == Closer(curly) then
      if depth == 1 then Some(used + 1) else Scan(s[1..], curly, used + 1, depth - 1, false, escaped)
    else Scan(s[1..], curly, used + 1, depth, false, escaped)
  }

  /** `scan_composite`: the end of the value that starts at `begin`. */
  function ScanComposite(json: Text, begin: nat): Option<nat> {
    if begin >= |json| || (json[begin] != OPEN_BRACE && json[begin] != OPEN_BRACKET) then None
    else
      var length := Scan(json[begin..], json[begin] == OPEN_BRACE, 0, 0, false, false);
      if length.None? then None else Some(begin + length.value)
  }

  // ----- balanced text -----

  /** Any bytes between brackets: plain ones (blanks, commas, colons, numbers and
      words), strings in any legal spelling, and bracketed text of either kind. */
  datatype Body =
    | Done
    | Plain(byte: Byte, next: Body)
    | Quoted(units: seq<Unit>, next: Body)
    | Group(curly: bool, inside: Body, next: Body)

  predicate IsPlain(b: Byte) {
    b !in [QUOTE, OPEN_BRACE, CLOSE_BRACE, OPEN_BRACKET, CLOSE_BRACKET]
  }

  predicate WellFormed(b: Body) {
    match b
    case Done => true
    case Plain(byte, next) => IsPlain(byte) && WellFormed(next)
    case Quoted(units, next) => AllLegal(units) && WellFormed(next)
    case Group(_, inside, next) => WellFormed(inside) && WellFormed(next)
  }

  function PrintBody(b: Body): Text {
    match b
    case Done => []
    case Plain(byte, next) => [byte] + PrintBody(next)
    case Quoted(units, next) => [QUOTE] + Print(units) + [QUOTE] + PrintBody(next)
    case Group(curly, inside, next) => [Opener(curly)] + PrintBody(inside) + [Closer(curly)] + PrintBody(next)
  }

  // ----- inside strings -----

  lemma ScanByte(b: Byte, rest: Text, curly: bool, used: nat, depth: nat, inString: bool, escaped: bool)
    requires depth > 0
    ensures Scan([b] + rest, curly, used, depth, inString, escaped) ==
      if used >= SCAN_CAP then None
      else if inString then
        Scan(rest, curly, used + 1, depth, escaped || b != QUOTE, !escaped && b == BACKSLASH)
      else if b == QUOTE then Scan(rest, curly, used + 1, depth, true, escaped)
      else if b == Opener(curly) then Scan(rest, curly, used + 1, depth + 1, false, escaped)
      else if b == Closer(curly) then
        if depth == 1 then Some(used + 1) else Scan(rest, curly, used + 1, depth - 1, false, escaped)
      else Scan(rest, curly, used + 1, depth, false, escaped)
  {
    assert ([b] + rest)[1..] == rest;
  }

  lemma ScanPastCap(s: Text, curly: bool, used: nat, depth: nat, inString: bool, escaped: bool)
    requires depth > 0 && used >= SCAN_CAP
    ensures Scan(s, curly, used, depth, inString, escaped) == None
  {
  }

  predicate Inert(s: Text) {
    QUOTE !in s && BACKSLASH !in s
  }

  lemma {:induction false} ScanInert(s: Text, rest: Text, curly: bool, used: nat, depth: nat)
    requires depth > 0 && Inert(s)
    ensures Scan(s + rest, curly, used, depth, true, false) == Scan(rest, curly, used + |s|, depth, true, false)
    decreases |s|
  {
    hide Scan;
    if s == [] {
      assert s + rest == rest;
    } else {
      assert s + rest == [s[0]] + (s[1..] + rest);
      ScanByte(s[0], s[1..] + rest, curly, used, depth, true, false);
      ScanInert(s[1..], rest, curly, used + 1, depth);
      if used >= SCAN_CAP {
        ScanPastCap(rest, curly, used + |s|, depth, true, false);
      }
    }
  }

  /** A backslash and the byte behind it never end a string. */
  lemma ScanEscape(letter: Byte, s: Text, rest: Text, curly: bool, used: nat, depth: nat)
    requires depth > 0 && Inert(s)
    ensures Scan([BACKSLASH, letter] + s + rest, curly, used, depth, true, false) ==
            Scan(rest, curly, used + 2 + |s|, depth, true, false)
  {
    hide Scan;
    assert [BACKSLASH, letter] + s + rest == [BACKSLASH] + ([letter] + (s + rest));
    ScanByte(BACKSLASH, [letter] + (s + rest), curly, used, depth, true, false);
    ScanByte(letter, s + rest, curly, used + 1, depth, true, true);
    ScanInert(s, rest, curly, used + 2, depth);
    if used + 1 >= SCAN_CAP {
      ScanPastCap(rest, curly, used + 2 + |s|, depth, true, false);
      ScanPastCap(s + rest, curly, used + 2, depth, true, false);
    }
  }

  lemma QuadIsInert(digits: Text)
    requires IsQuad(digits)
    ensures Inert(digits)
  {
    assert HexValue(QUOTE) == -1 && HexValue(BACKSLASH) == -1;
    assert forall i :: 0 <= i < 4 ==> digits[i] != QUOTE && digits[i] != BACKSLASH;
  }

  lemma ScanUnit(u: Unit, rest: Text, curly: bool, used: nat, depth: nat)
    requires Legal(u) && depth > 0
    ensures Scan(PrintUnit(u) + rest, curly, used, depth, true, false) ==
            Scan(rest, curly, used + |PrintUnit(u)|, depth, true, false)
  {
    hide Scan, QuadValue, HexValue, IsQuad;
    if u.Raw? {
      ScanInert([u.byte], rest, curly, used, depth);
    } else if u.Short? {
      assert [BACKSLASH, u.letter] + [] + rest == PrintUnit(u) + rest;
      ScanEscape(u.letter, [], rest, curly, used, depth);
    } else if u.Point? {
      QuadIsInert(u.digits);
      ScanEscape(LETTER_U, u.digits, rest, curly, used, depth);
    } else {
      QuadIsInert(u.high);
      QuadIsInert(u.low);
      var low := [BACKSLASH, LETTER_U] + u.low;
      Regroup([BACKSLASH, LETTER_U] + u.high, low, rest);
      ScanEscape(LETTER_U, u.high, low + rest, curly, used, depth);
      ScanEscape(LETTER_U, u.low, rest, curly, used + 2 + |u.high|, depth);
    }
  }

  lemma {:induction false} ScanUnits(units: seq<Unit>, rest: Text, curly: bool, used: nat, depth: nat)
    requires AllLegal(units) && depth > 0
    ensures Scan(Print(units) + rest, curly, used, depth, true, false) ==
            Scan(rest, curly, used + |Print(units)|, depth, true, false)
  {
    hide Scan, PrintUnit, Legal;
    if units == [] {
      assert Print(units) + rest == rest;
    } else {
      Regroup(PrintUnit(units[0]), Print(units[1..]), rest);
      ScanUnit(units[0], Print(units[1..]) + rest, curly, used, depth);
      ScanUnits(units[1..], rest, curly, used + |PrintUnit(units[0])|, depth);
    }
  }

  lemma ScanQuoted(units: seq<Unit>, rest: Text, curly: bool, used: nat, depth: nat)
    requires AllLegal(units) && depth > 0
    ensures Scan([QUOTE] + Print(units) + [QUOTE] + rest, curly, used, depth, false, false) ==
            Scan(rest, curly, used + |Print(units)| + 2, depth, false, false)
  {
    hide Scan, Print, AllLegal;
    var text := Print(units);
    assert [QUOTE] + text + [QUOTE] + rest == [QUOTE] + (text + ([QUOTE] + rest));
    ScanByte(QUOTE, text + ([QUOTE] + rest), curly, used, depth, false, false);
    ScanUnits(units, [QUOTE] + rest, curly, used + 1, depth);
    ScanByte(QUOTE, rest, curly, used + 1 + |text|, depth, true, false);
    if used + 1 + |text| >= SCAN_CAP {
      ScanPastCap(rest, curly, used + |text| + 2, depth, false, false);
    }
  }

  // ----- balanced text keeps the depth -----

  /** Scanning balanced text leaves the depth as it was. */
  lemma {:induction false} ScanBody(b: Body, rest: Text, curly: bool, used: nat, depth: nat)
    requires WellFormed(b) && depth > 0
    ensures Scan(PrintBody(b) + rest, curly, used, depth, false, false) ==
            Scan(rest, curly, used + |PrintBody(b)|, depth, false, false)
    decreases b
  {
    hide Scan, Print;
    match b
    case Done =>
      assert [] + rest == rest;
    case Plain(byte, next) =>
      Regroup([byte], PrintBody(next), rest);
      ScanByte(byte, PrintBody(next) + rest, curly, used, depth, false, false);
      ScanBody(next, rest, curly, used + 1, depth);
      if used >= SCAN_CAP {
        ScanPastCap(rest, curly, used + 1 + |PrintBody(next)|, depth, false, false);
      }
    case Quoted(units, next) =>
      Regroup([QUOTE] + Print(units) + [QUOTE], PrintBody(next), rest);
      ScanQuoted(units, PrintBody(next) + rest, curly, used, depth);
      ScanBody(next, rest, curly, used + |Print(units)| + 2, depth);
    case Group(_, inside, next) =>
      ScanGroup(b, rest, curly, used, depth);
      ScanBody(next, rest, curly, used + |PrintBody(inside)| + 2, depth);
  }

  lemma ScanGroup(b: Body, rest: Text, curly: bool, used: nat, depth: nat)
    requires WellFormed(b) && b.Group? && depth > 0
    ensures Scan(PrintBody(b) + rest, curly, used, depth, false, false) ==
            Scan(PrintBody(b.next) + rest, curly, used + |PrintBody(b.inside)| + 2, depth, false, false)
    decreases b, 0
  {
    hide Scan, Print;
    var inside, behind := PrintBody(b.inside), PrintBody(b.next) + rest;
    var closed := [Closer(b.curly)] + behind;
    assert PrintBody(b) + rest == [Opener(b.curly)] + (inside + closed);
    var deeper := if b.curly == curly then depth + 1 else depth;
    ScanByte(Opener(b.curly), inside + closed, curly, used, depth, false, false);
    ScanBody(b.inside, closed, curly, used + 1, deeper);
    ScanByte(Closer(b.curly), behind, curly, used + 1 + |inside|, deeper, false, false);
    if used + 1 + |inside| >= SCAN_CAP {
      ScanPastCap(behind, curly, used + |inside| + 2, depth, false, false);
    }
  }

  /** From the opening bracket of balanced text the scanner stops just past its
      matching one, whatever follows, exactly when that lies within its 1 MiB. */
  lemma ScanStopsAtMatch(before: Text, group: Body, tail: Text)
    requires WellFormed(group) && group.Group? && group.next.Done?
    ensures var json := before + PrintBody(group) + tail;
      ScanComposite(json, |before|) ==
      if |PrintBody(group)| <= SCAN_CAP then Some(|before| + |PrintBody(group)|) else None
  {
    hide PrintBody, Scan;
    var json, text := before + PrintBody(group) + tail, PrintBody(group);
    GroupText(group);
    assert json[|before|..] == text + tail;
    ScanWhole(group, tail);
  }

  lemma GroupText(group: Body)
    requires group.Group? && group.next.Done?
    ensures PrintBody(group) == [Opener(group.curly)] + (PrintBody(group.inside) + [Closer(group.curly)])
  {
  }

  lemma ScanWhole(group: Body, tail: Text)
    requires WellFormed(group) && group.Group? && group.next.Done?
    ensures PrintBody(group)[0] == Opener(group.curly)
    ensures Scan(PrintBody(group) + tail, group.curly, 0, 0, false, false) ==
            if |PrintBody(group)| <= SCAN_CAP then Some(|PrintBody(group)|) else None
  {
    GroupText(group);
    hide PrintBody;
    var curly, inside := group.curly, PrintBody(group.inside);
    var closed := [Closer(curly)] + tail;
    var s := PrintBody(group) + tail;
    assert s == [Opener(curly)] + (inside + closed) && s[1..] == inside + closed;
    assert Scan(s, curly, 0, 0, false, false) == Scan(s[1..], curly, 1, 1, false, false);
    hide Scan;
    ScanBody(group.inside, closed, curly, 1, 1);
    ScanByte(Closer(curly), tail, curly, 1 + |inside|, 1, false, false);
  }

  // ----- JSON values -----

  /** A JSON value; `Item` is a member of an object or an element of an array, whose
      key is not printed. */
  datatype Tree = Word(text: Text) | Str(text: Text) | Composite(curly: bool, items: Items)
  datatype Items = End | Item(key: Text, value: Tree, rest: Items)

  predicate IsTree(t: Tree) {
    match t
    case Word(text) => forall i :: 0 <= i < |text| ==> IsPlain(text[i])
    case Str(_) => true
    case Composite(_, items) => AreItems(items)
  }

  predicate AreItems(items: Items) {
    items.Item? ==> IsTree(items.value) && AreItems(items.rest)
  }

  /** The value without blanks, strings as the writer escapes them. */
  function PrintTree(t: Tree): Text {
    match t
    case Word(text) => text
    case Str(text) => EncodeString(text)
    case Composite(curly, items) => [Opener(curly)] + PrintItems(items, curly) + [Closer(curly)]
  }

  function PrintItems(items: Items, curly: bool): Text {
    match items
    case End => []
    case Item(key, value, rest) =>
      (if curly then EncodeString(key) + [COLON] else []) + PrintTree(value) +
      (if rest.End? then [] else [COMMA] + PrintItems(rest, curly))
  }

  function WordBody(text: Text, next: Body): Body {
    if text == [] then next else Plain(text[0], WordBody(text[1..], next))
  }

  /** The value as balanced text in front of `next`. */
  function TreeBody(t: Tree, next: Body): Body
    decreases t
  {
    match t
    case Word(text) => WordBody(text, next)
    case Str(text) => Quoted(UnitsOf(text), next)
    case Composite(curly, items) => Group(curly, ItemsBody(items, curly, Done), next)
  }

  function ItemsBody(items: Items, curly: bool, next: Body): Body
    decreases items
  {
    match items
    case End => next
    case Item(key, value, rest) =>
      var behind := if rest.End? then next else Plain(COMMA, ItemsBody(rest, curly, next));
      var front := TreeBody(value, behind);
      if curly then Quoted(UnitsOf(key), Plain(COLON, front)) else front
  }

  lemma {:induction false} WordIsBalanced(text: Text, next: Body)
    requires forall i :: 0 <= i < |text| ==> IsPlain(text[i])
    requires WellFormed(next)
    ensures WellFormed(WordBody(text, next)) && PrintBody(WordBody(text, next)) == text + PrintBody(next)
  {
    if text != [] {
      WordIsBalanced(text[1..], next);
    }
  }

  lemma StringIsBalanced(text: Text, next: Body)
    requires WellFormed(next)
    ensures WellFormed(Quoted(UnitsOf(text), next))
    ensures PrintBody(Quoted(UnitsOf(text), next)) == EncodeString(text) + PrintBody(next)
  {
    hide AllLegal, Print, UnitsOf, EncodeBody;
    EncodingSpells(text);
  }

  lemma {:induction false} TreeIsBalanced(t: Tree, next: Body)
    requires IsTree(t) && WellFormed(next)
    ensures WellFormed(TreeBody(t, next)) && PrintBody(TreeBody(t, next)) == PrintTree(t) + PrintBody(next)
    decreases t
  {
    hide AllLegal, Print, UnitsOf, EncodeString;
    match t
    case Word(text) => WordIsBalanced(text, next);
    case Str(text) => StringIsBalanced(text, next);
    case Composite(curly, items) =>
      ItemsAreBalanced(items, curly, Done);
      assert PrintItems(items, curly) + PrintBody(Done) == PrintItems(items, curly);
  }

  lemma {:induction false} ItemsAreBalanced(items: Items, curly: bool, next: Body)
    requires AreItems(items) && WellFormed(next)
    ensures WellFormed(ItemsBody(items, curly, next))
    ensures PrintBody(ItemsBody(items, curly, next)) == PrintItems(items, curly) + PrintBody(next)
    decreases items
  {
    hide AllLegal, Print, UnitsOf, EncodeString;
    match items
    case End =>
      assert [] + PrintBody(next) == PrintBody(next);
    case Item(key, value, rest) =>
      var behind := next;
      var separated: Text := [];
      if rest.End? {
        assert [] + PrintBody(next) == PrintBody(next);
      } else {
        ItemsAreBalanced(rest, curly, next);
        behind := Plain(COMMA, ItemsBody(rest, curly, next));
        separated := [COMMA] + PrintItems(rest, curly);
        Regroup([COMMA], PrintItems(rest, curly), PrintBody(next));
      }
      assert PrintBody(behind) == separated + PrintBody(next);
      TreeIsBalanced(value, behind);
      var front := TreeBody(value, behind);
      Regroup(PrintTree(value), separated, PrintBody(next));
      if curly {
        StringIsBalanced(key, Plain(COLON, front));
        Regroup(EncodeString(key) + [COLON], PrintTree(value) + separated, PrintBody(next));
        Regroup(EncodeString(key) + [COLON], PrintTree(value), separated);
        Regroup(EncodeString(key), [COLON], PrintTree(value) + separated + PrintBody(next));
      } else {
        assert [] + PrintTree(value) == PrintTree(value);
      }
  }

  /** For every printed object or array, at any place and before any text, the
      scanner finds its end exactly when it has at most 1 MiB. */
  lemma ScanStopsAtTree(before: Text, t: Tree, tail: Text)
    requires IsTree(t) && t.Composite?
    ensures ScanComposite(before + PrintTree(t) + tail, |before|) ==
            if |PrintTree(t)| <= SCAN_CAP then Some(|before| + |PrintTree(t)|) else None
  {
    TreeIsBalanced(t, Done);
    hide PrintTree, ScanComposite;
    assert PrintTree(t) + PrintBody(Done) == PrintTree(t);
    ScanStopsAtMatch(before, TreeBody(t, Done), tail);
  }

  // ----- the imperative scanner -----

  lemma ScanStep(s: Text, k: nat, curly: bool, depth: nat, inString: bool, escaped: bool)
    requires k < |s| && k < SCAN_CAP && depth > 0
    ensures Scan(s[k..], curly, k, depth, inString, escaped) ==
      if inString then Scan(s[k + 1..], curly, k + 1, depth, escaped || s[k] != QUOTE, !escaped && s[k] == BACKSLASH)
      else if s[k] == QUOTE then Scan(s[k + 1..], curly, k + 1, depth, true, escaped)
      else if s[k] == Opener(curly) then Scan(s[k + 1..], curly, k + 1, depth + 1, false, escaped)
      else if s[k] == Closer(curly) then
        if depth == 1 then Some(k + 1) else Scan(s[k + 1..], curly, k + 1, depth - 1, false, escaped)
      else Scan(s[k + 1..], curly, k + 1, depth, false, escaped)
  {
    assert s[k..][1..] == s[k + 1..];
  }

  lemma ScanFirst(s: Text, curly: bool)
    requires s != [] && s[0] == Opener(curly)
    ensures Scan(s, curly, 0, 0, false, false) == Scan(s[1..], curly, 1, 1, false, false)
  {
  }

  lemma ScanNothing(used: nat, s: Text, curly: bool, depth: nat, inString: bool, escaped: bool)
    requires depth > 0 && (s == [] || used >= SCAN_CAP)
    ensures Scan(s, curly, used, depth, inString, escaped) == None
  {
  }

  /** `scan_composite`. */
  method FindEnd(json: Text, begin: nat) returns (end: Option<nat>)
    ensures end == ScanComposite(json, begin)
  {
    hide Scan;
    if begin >= |json| {
      return None;
    }
    var open := json[begin];
    var close := if open == OPEN_BRACE then CLOSE_BRACE else CLOSE_BRACKET;
    if open != OPEN_BRACE && open != OPEN_BRACKET {
      return None;
    }
    ghost var curly, s := open == OPEN_BRACE, json[begin..];
    ghost var whole := Scan(s, curly, 0, 0, false, false);
    var index, depth: nat, inString, escaped := begin, 0, false, false;
    assert s[0..] == s;
    while index < |json| && index - begin < SCAN_CAP
      invariant begin <= index <= |json| && index - begin <= SCAN_CAP
      invariant index == begin ==> depth == 0 && !inString && !escaped
      invariant index > begin ==> depth > 0
      invariant whole == Scan(s[index - begin..], curly, index - begin, depth, inString, escaped)
      decreases |json| - index
    {
      var byte := json[index];
      if index == begin {
        ScanFirst(s, curly);
      } else {
        ScanStep(s, index - begin, curly, depth, inString, escaped);
      }
      if inString {
        if !escaped && byte == QUOTE {
          inString := false;
        }
        escaped := !escaped && byte == BACKSLASH;
      } else if byte == QUOTE {
        inString := true;
      } else if byte == open {
        depth := depth + 1;
      } else if byte == close {
        depth := depth - 1;
        if depth == 0 {
          return Some(index + 1);
        }
      }
      index := index + 1;
    }
    ScanNothing(index - begin, s[index - begin..], curly, depth, inString, escaped);
    return None;
  }
}
