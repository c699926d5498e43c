/** Key lookup: where the value of a key begins, and the two readers that start there. */
module JsonLookup {
  import opened Bytes
  import opened JsonString
  import opened JsonCodec
  import opened JsonScan

  const SPACE: Byte := 32
  const TAB: Byte := 9

  predicate IsBlank(b: Byte) {
    b == SPACE || b == TAB || b == CARRIAGE || b == NEWLINE
  }

  /** The end of the string that begins at `p`: its closing quote, or the end of the text. */
  function StringEnd(json: Text, p: nat, escaped: bool): (end: nat)
    requires p <= |json|
    ensures p <= end <= |json|
    decreases |json| - p
  {
    if p < |json| && (escaped || json[p] != QUOTE) then
      StringEnd(json, p + 1, !escaped && json[p] == BACKSLASH)
    else p
  }

  function BlanksEnd(json: Text, p: nat): (end: nat)
    requires p <= |json|
    ensures p <= end <= |json| && (end < |json| ==> !IsBlank(json[end]))
    ensures forall k :: p <= k < end ==> IsBlank(json[k])
    decreases |json| - p
  {
    if p < |json| && IsBlank(json[p]) then BlanksEnd(json, p + 1) else p
  }

  /** The loop of `locate_value` from `p` on.  A string that is the key but has no colon
      behind it makes the search go on two bytes behind the byte found instead. */
  function Locate(json: Text, p: nat, key: Text): (value: Option<nat>)
    ensures value.Some? ==> value.value < |json|
    decreases |json| - p
  {
    if p >= |json| then None
    else if json[p] != QUOTE then Locate(json, p + 1, key)
    else
      var end := StringEnd(json, p + 1, false);
      if end >= |json| || json[p + 1..end] != key then Locate(json, end + 1, key)
      else
        var colon := BlanksEnd(json, end + 1);
        if colon >= |json| || json[colon] != COLON then Locate(json, colon + 2, key)
        else
          var value := BlanksEnd(json, colon + 1);
          if value < |json| then Some(value) else None
  }

  /** `locate_value`. */
  function LocateValue(json: Text, key: Text): Option<nat> {
    if |json| > SCAN_CAP then None else Locate(json, 0, key)
  }

  // ----- texts as strings and other bytes -----

  /** Any text of whole strings and bytes between them. */
  datatype Strand = Done | Other(byte: Byte, next: Strand) | Quoted(units: seq<Unit>, next: Strand)

  /** Legal strings, and no quote between them. */
  predicate IsStrand(s: Strand) {
    match s
    case Done => true
    case Other(byte, next) => byte != QUOTE && IsStrand(next)
    case Quoted(units, next) => AllLegal(units) && IsStrand(next)
  }

  function PrintStrand(s: Strand): Text {
    match s
    case Done => []
    case Other(byte, next) => [byte] + PrintStrand(next)
    case Quoted(units, next) => [QUOTE] + (Print(units) + ([QUOTE] + PrintStrand(next)))
  }

  predicate Rest(json: Text, p: nat, text: Text) {
    p <= |json| && json[p..] == text
  }

  lemma RestBehind(json: Text, p: nat, a: Text, b: Text)
    requires Rest(json, p, a + b)
    ensures Rest(json, p + |a|, b) && |json| == p + |a| + |b| && json[p..p + |a|] == a
    ensures a != [] ==> json[p] == a[0]
  {
    assert json[p + |a|..] == json[p..][|a|..];
    assert json[p..p + |a|] == json[p..][..|a|];
  }

  lemma UnitInString(json: Text, p: nat, u: Unit, rest: Text)
    requires Legal(u) && Rest(json, p, PrintUnit(u) + rest)
    ensures Rest(json, p + |PrintUnit(u)|, rest)
    ensures StringEnd(json, p, false) == StringEnd(json, p + |PrintUnit(u)|, false)
  {
    RestBehind(json, p, PrintUnit(u), rest);
    if u.Point? || u.Surrogates? {
      EscapeInString(json, p, PrintUnit(u));
    } else {
      forall k | 0 <= k < |PrintUnit(u)| ensures json[p + k] == PrintUnit(u)[k] {
        assert json[p + k] == json[p..p + |PrintUnit(u)|][k];
      }
    }
  }

  predicate Digits(text: Text) {
    forall k :: 0 <= k < |text| ==> text[k] != QUOTE && text[k] != BACKSLASH
  }

  lemma {:induction false} DigitsInString(json: Text, p: nat, n: nat)
    requires p + n <= |json| && Digits(json[p..p + n])
    ensures StringEnd(json, p, false) == StringEnd(json, p + n, false)
    decreases n
  {
    if n > 0 {
      assert json[p] == json[p..p + n][0];
      assert json[p + 1..p + n] == json[p..p + n][1..];
      DigitsInString(json, p + 1, n - 1);
    }
  }

  lemma QuadIsDigits(digits: Text)
    requires IsQuad(digits)
    ensures Digits(digits)
  {
    assert HexValue(QUOTE) == -1 && HexValue(BACKSLASH) == -1;
  }

  lemma SixInString(json: Text, p: nat, digits: Text)
    requires IsQuad(digits) && p + 6 <= |json| && json[p..p + 6] == [BACKSLASH, LETTER_U] + digits
    ensures StringEnd(json, p, false) == StringEnd(json, p + 6, false)
  {
    QuadIsDigits(digits);
    assert json[p] == json[p..p + 6][0] && json[p + 1] == json[p..p + 6][1];
    assert json[p + 2..p + 6] == json[p..p + 6][2..];
    DigitsInString(json, p + 2, 4);
  }

  lemma EscapeInString(json: Text, p: nat, text: Text)
    requires exists u :: Legal(u) && (u.Point? || u.Surrogates?) && PrintUnit(u) == text
    requires p + |text| <= |json| && json[p..p + |text|] == text
    ensures StringEnd(json, p, false) == StringEnd(json, p + |text|, false)
  {
    var u :| Legal(u) && (u.Point? || u.Surrogates?) && PrintUnit(u) == text;
    hide HexValue, QuadValue;
    if u.Point? {
      SixInString(json, p, u.digits);
    } else {
      assert json[p..p + 6] == text[..6] == [BACKSLASH, LETTER_U] + u.high;
      assert json[p + 6..p + 12] == text[6..] == [BACKSLASH, LETTER_U] + u.low;
      SixInString(json, p, u.high);
      SixInString(json, p + 6, u.low);
    }
  }

  /** A legal string ends at its closing quote. */
  lemma {:induction false} StringEndsAtQuote(json: Text, p: nat, units: seq<Unit>, behind: Text)
    requires AllLegal(units) && Rest(json, p, Print(units) + ([QUOTE] + behind))
    ensures StringEnd(json, p, false) == p + |Print(units)| < |json|
    ensures json[p..p + |Print(units)|] == Print(units) && Rest(json, p + |Print(units)| + 1, behind)
    decreases |units|
  {
    hide Legal, PrintUnit;
    RestBehind(json, p, Print(units), [QUOTE] + behind);
    RestBehind(json, p + |Print(units)|, [QUOTE], behind);
    if units != [] {
      var u, more := units[0], Print(units[1..]);
      Regroup(PrintUnit(u), more, [QUOTE] + behind);
      UnitInString(json, p, u, more + ([QUOTE] + behind));
      StringEndsAtQuote(json, p + |PrintUnit(u)|, units[1..], behind);
    }
  }

  lemma {:induction false} BlanksArePassed(json: Text, p: nat, blanks: Text, behind: Text)
    requires AreBlanks(blanks) && (behind != [] ==> !IsBlank(behind[0]))
    requires Rest(json, p, blanks + behind)
    ensures BlanksEnd(json, p) == p + |blanks| && Rest(json, p + |blanks|, behind)
    decreases |blanks|
  {
    RestBehind(json, p, blanks, behind);
    if blanks == [] {
      assert behind != [] ==> json[p] == json[p..][0];
    } else {
      assert blanks + behind == [blanks[0]] + (blanks[1..] + behind);
      RestBehind(json, p, [blanks[0]], blanks[1..] + behind);
      BlanksArePassed(json, p + 1, blanks[1..], behind);
    }
  }

  predicate AreBlanks(blanks: Text) {
    forall k :: 0 <= k < |blanks| ==> IsBlank(blanks[k])
  }

  lemma WholeIsRest(json: Text)
    ensures Rest(json, 0, json)
  {
  }

  lemma LocateFromStart(json: Text, key: Text)
    requires |json| <= SCAN_CAP
    ensures LocateValue(json, key) == Locate(json, 0, key)
  {
  }

  lemma NameIsFound(json: Text, p: nat, key: seq<Unit>, behind: Text) returns (end: nat)
    requires AllLegal(key) && Rest(json, p, [QUOTE] + (Print(key) + ([QUOTE] + behind)))
    ensures p < |json| && json[p] == QUOTE && end == p + 1 + |Print(key)| < |json|
    ensures StringEnd(json, p + 1, false) == end && json[p + 1..end] == Print(key)
    ensures Rest(json, end + 1, behind)
  {
    hide StringEnd, Print, AllLegal, Rest;
    RestBehind(json, p, [QUOTE], Print(key) + ([QUOTE] + behind));
    StringEndsAtQuote(json, p + 1, key, behind);
    end := p + 1 + |Print(key)|;
  }

  lemma ColonIsFound(json: Text, p: nat, first: Text, second: Text, value: Text)
    requires AreBlanks(first) && AreBlanks(second) && value != [] && !IsBlank(value[0])
    requires Rest(json, p, first + ([COLON] + (second + value)))
    ensures p <= |json| && BlanksEnd(json, p) == p + |first| < |json| && json[p + |first|] == COLON
    ensures BlanksEnd(json, p + |first| + 1) == p + |first| + 1 + |second| < |json|
  {
    hide BlanksEnd, AreBlanks, IsBlank, Rest;
    ColonIsNoBlank();
    RestBehind(json, p, first, [COLON] + (second + value));
    BlanksArePassed(json, p, first, [COLON] + (second + value));
    RestBehind(json, p + |first|, [COLON], second + value);
    BlanksArePassed(json, p + |first| + 1, second, value);
    RestBehind(json, p + |first| + 1, second, value);
  }

  lemma MemberIsFound(json: Text, p: nat, key: seq<Unit>, first: Text, second: Text, value: Text)
    requires AllLegal(key) && AreBlanks(first) && AreBlanks(second) && value != [] && !IsBlank(value[0])
    requires Rest(json, p, [QUOTE] + (Print(key) + ([QUOTE] + (first + ([COLON] + (second + value))))))
    ensures Locate(json, p, Print(key)) == Some(p + |Print(key)| + |first| + |second| + 3)
  {
    hide StringEnd, BlanksEnd, Print, AllLegal, Rest, Locate, IsBlank, AreBlanks;
    var end := NameIsFound(json, p, key, first + ([COLON] + (second + value)));
    ColonIsFound(json, end + 1, first, second, value);
    LocateStep(json, p, Print(key));
  }

  lemma ColonIsNoBlank()
    ensures !IsBlank(COLON)
  {
  }

  // ----- the imperative lookup -----

  /** The inner loop of `locate_value`. */
  method SkipString(json: Text, begin: nat) returns (index: nat)
    requires begin <= |json|
    ensures index == StringEnd(json, begin, false)
  {
    index := begin;
    var escaped := false;
    while index < |json| && (escaped || json[index] != QUOTE)
      invariant begin <= index <= |json| && StringEnd(json, begin, false) == StringEnd(json, index, escaped)
      decreases |json| - index
    {
      escaped := !escaped && json[index] == BACKSLASH;
      if json[index] != BACKSLASH {
        escaped := false;
      }
      index := index + 1;
    }
  }

  method SkipBlanks(json: Text, begin: nat) returns (index: nat)
    requires begin <= |json|
    ensures index == BlanksEnd(json, begin)
  {
    index := begin;
    while index < |json| && IsBlank(json[index])
      invariant begin <= index <= |json| && BlanksEnd(json, begin) == BlanksEnd(json, index)
      decreases |json| - index
    {
      index := index + 1;
    }
  }

  lemma LocateStep(json: Text, p: nat, key: Text)
    ensures Locate(json, p, key) ==
      if p >= |json| then None
      else if json[p] != QUOTE then Locate(json, p + 1, key)
      else
        var end := StringEnd(json, p + 1, false);
        if end >= |json| || json[p + 1..end] != key then Locate(json, end + 1, key)
        else
          var colon := BlanksEnd(json, end + 1);
          if colon >= |json| || json[colon] != COLON then Locate(json, colon + 2, key)
          else
            var value := BlanksEnd(json, colon + 1);
            if value < |json| then Some(value) else None
  {
    hide StringEnd, BlanksEnd;
  }

  /** `locate_value`. */
  method FindValue(json: Text, key: Text) returns (value: Option<nat>)
    ensures value == LocateValue(json, key)
  {
    hide Locate, StringEnd, BlanksEnd;
    if |json| > SCAN_CAP {
      return None;
    }
    var index := 0;
    while index < |json|
      invariant Locate(json, 0, key) == Locate(json, index, key)
      decreases |json| - index
    {
      LocateStep(json, index, key);
      if json[index] != QUOTE {
        index := index + 1;
        continue;
      }
      var begin := index + 1;
      var end := SkipString(json, begin);
      if end >= |json| || json[begin..end] != key {
        index := end + 1;
        continue;
      }
      var colon := SkipBlanks(json, end + 1);
      if colon >= |json| || json[colon] != COLON {
        LocateStep(json, colon + 1, key);
        index := colon + 2;
        continue;
      }
      var found := SkipBlanks(json, colon + 1);
      return if found < |json| then Some(found) else None;
    }
    LocateStep(json, index, key);
    return None;
  }

  /** `gsh_json_get_string`. */
  method GetString(json: Text, key: Text, output: array<Byte>) returns (ok: bool)
    modifies output
    ensures ok <==> output.Length > 0 && LocateValue(json, key).Some? && json[LocateValue(json, key).value] == QUOTE
                    && Read(json[LocateValue(json, key).value + 1..], 0, output.Length).Some?
    ensures ok ==> var s := Read(json[LocateValue(json, key).value + 1..], 0, output.Length).value;
                   |s| < output.Length && output[..|s| + 1] == s + [NUL]
  {
    hide LocateValue, Read;
    if output.Length == 0 {
      return false;
    }
    var value := FindValue(json, key);
    if value.None? {
      return false;
    }
    LocatedInside(json, key);
    ok := JsonCodec.DecodeString(json, value.value, output);
  }

  lemma LocatedInside(json: Text, key: Text)
    ensures LocateValue(json, key).Some? ==> LocateValue(json, key).value < |json|
  {
  }

  /** `gsh_json_get_object`: where the composite value of a key begins, and its length. */
  method GetObject(json: Text, key: Text) returns (part: Option<(nat, nat)>)
    ensures var begin := LocateValue(json, key);
      part == if begin.None? || ScanComposite(json, begin.value).None? then None
              else Some((begin.value, ScanComposite(json, begin.value).value - begin.value))
  {
    hide LocateValue, Scan;
    var begin := FindValue(json, key);
    if begin.None? {
      return None;
    }
    var end := FindEnd(json, begin.value);
    if end.None? {
      return None;
    }
    return Some((begin.value, end.value - begin.value));
  }
}
