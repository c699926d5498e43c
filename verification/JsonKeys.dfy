/** When key lookup finds a member: exactly when no string before it that is spelled like
    its key makes the search step over a single quote, or meets a colon. */
module JsonKeys {
  import opened Bytes
  import opened JsonString
  import opened JsonScan
  import opened JsonLookup

  /** A member of an object and everything behind it. */
  function Member(name: Text, first: Text, second: Text, value: Text): Text {
    [QUOTE] + (name + ([QUOTE] + (first + ([COLON] + (second + value)))))
  }

  /** Where in it the value begins. */
  function ValueAt(name: Text, first: Text, second: Text): nat {
    |name| + |first| + |second| + 3
  }

  ghost predicate IsMember(name: Text, first: Text, second: Text, value: Text) {
    && AreBlanks(first) && AreBlanks(second) && value != [] && !IsBlank(value[0])
    && exists key :: AllLegal(key) && Print(key) == name
  }

  // ----- the condition -----

  /** Behind a string that is spelled like the key, two bytes are stepped over from the
      first that is no blank on.  It is no colon, and the two hold no quote, or both quotes
      of an empty string that is not the key. */
  predicate Skippable(rest: Text, key: Text) {
    var at := BlanksEnd(rest, 0);
    && at + 1 < |rest| && rest[at] != COLON
    && (if rest[at] == QUOTE then rest[at + 1] == QUOTE && key != [] else rest[at + 1] != QUOTE)
  }

  /** No string of `before` that is spelled like the key throws the search off, with
      `tail` behind it. */
  predicate Clear(before: Strand, tail: Text, key: Text) {
    match before
    case Done => true
    case Other(_, next) => Clear(next, tail, key)
    case Quoted(units, next) =>
      (Print(units) == key ==> Skippable(PrintStrand(next) + tail, key)) && Clear(next, tail, key)
  }

  // ----- blanks in a strand -----

  /** The strand behind its leading blanks. */
  function AfterBlanks(s: Strand): (t: Strand)
    ensures |PrintStrand(t)| <= |PrintStrand(s)|
    ensures t.Other? ==> !IsBlank(t.byte)
  {
    if s.Other? && IsBlank(s.byte) then AfterBlanks(s.next) else s
  }

  lemma {:induction false} BlanksOfStrand(json: Text, p: nat, s: Strand, tail: Text)
    requires IsStrand(s) && tail != [] && tail[0] == QUOTE && Rest(json, p, PrintStrand(s) + tail)
    ensures var t := AfterBlanks(s);
      && IsStrand(t) && BlanksEnd(json, p) == p + |PrintStrand(s)| - |PrintStrand(t)| < |json|
      && Rest(json, BlanksEnd(json, p), PrintStrand(t) + tail)
    decreases s
  {
    hide Rest, Print, AllLegal;
    if s.Other? {
      Regroup([s.byte], PrintStrand(s.next), tail);
      RestBehind(json, p, [s.byte], PrintStrand(s.next) + tail);
      if IsBlank(s.byte) {
        BlanksOfStrand(json, p + 1, s.next, tail);
      }
    } else {
      StartsWithQuote(s, tail);
      RestBehind(json, p, PrintStrand(s) + tail, []);
    }
  }

  lemma StartsWithQuote(s: Strand, tail: Text)
    requires !s.Other? && tail != [] && tail[0] == QUOTE
    ensures (PrintStrand(s) + tail) != [] && (PrintStrand(s) + tail)[0] == QUOTE
    ensures PrintStrand(s) + tail + [] == PrintStrand(s) + tail
  {
  }

  lemma {:induction false} ClearAfterBlanks(s: Strand, tail: Text, key: Text)
    ensures Clear(s, tail, key) == Clear(AfterBlanks(s), tail, key)
    decreases s
  {
    if s.Other? {
      ClearAfterBlanks(s.next, tail, key);
    }
  }

  lemma {:induction false} UnremarkableAfterBlanks(s: Strand, key: Text)
    ensures Unremarkable(s, key) == Unremarkable(AfterBlanks(s), key)
    decreases s
  {
    if s.Other? {
      UnremarkableAfterBlanks(s.next, key);
    }
  }

  /** What may be stepped over: two bytes between strings, or an empty string. */
  predicate SkippableStrand(t: Strand, key: Text) {
    match t
    case Done => false
    case Other(byte, next) => byte != COLON && next.Other?
    case Quoted(units, _) => key != [] && units == []
  }

  /** No legal string begins with a bare quote. */
  lemma FirstOfUnits(units: seq<Unit>)
    requires AllLegal(units)
    ensures units == [] <==> Print(units) == []
    ensures units != [] ==> Print(units)[0] != QUOTE
  {
    if units != [] {
      assert Legal(units[0]);
    }
  }

  lemma SecondByte(t: Strand, name: Text, behind: Text)
    requires IsStrand(t) && (exists key :: AllLegal(key) && Print(key) == name)
    ensures var text := PrintStrand(t) + ([QUOTE] + (name + ([QUOTE] + behind)));
      && |text| >= 2
      && (t.Done? ==> text[0] == QUOTE && (text[1] == QUOTE <==> name == []))
      && (t.Other? ==> text[0] == t.byte && (text[1] == QUOTE <==> !t.next.Other?))
      && (t.Quoted? ==> text[0] == QUOTE && (text[1] == QUOTE <==> t.units == []))
  {
    var key :| AllLegal(key) && Print(key) == name;
    FirstOfUnits(key);
    if t.Quoted? {
      FirstOfUnits(t.units);
    }
    hide Print, AllLegal;
  }

  /** The condition on the text is the condition on the strand. */
  lemma SkippableIs(s: Strand, name: Text, behind: Text)
    requires IsStrand(s) && (exists key :: AllLegal(key) && Print(key) == name)
    ensures Skippable(PrintStrand(s) + ([QUOTE] + (name + ([QUOTE] + behind))), name) <==>
            SkippableStrand(AfterBlanks(s), name)
  {
    hide Print, AllLegal, BlanksEnd, IsBlank;
    var tail := [QUOTE] + (name + ([QUOTE] + behind));
    var rest, t := PrintStrand(s) + tail, AfterBlanks(s);
    assert Rest(rest, 0, rest);
    BlanksOfStrand(rest, 0, s, tail);
    SecondByte(t, name, behind);
    var at := BlanksEnd(rest, 0);
    var text := PrintStrand(t) + tail;
    assert rest[at..] == text;
    assert rest[at] == text[0] && rest[at + 1] == text[1];
  }

  // ----- where the value of the member can be found from -----

  /** What stands at the member. */
  predicate MemberAt(json: Text, b: nat, name: Text, first: Text, second: Text) {
    var colon := b + 2 + |name| + |first|;
    && colon + 1 + |second| < |json|
    && json[b + 1 + |name|] == QUOTE && json[colon] == COLON
    && (forall k :: b + 2 + |name| <= k < colon ==> IsBlank(json[k]))
    && (forall k :: colon < k <= colon + |second| ==> IsBlank(json[k]))
  }

  lemma BlanksStand(json: Text, p: nat, blanks: Text, behind: Text)
    requires AreBlanks(blanks) && Rest(json, p, blanks + behind)
    ensures Rest(json, p + |blanks|, behind) && p + |blanks| <= |json|
    ensures forall k :: p <= k < p + |blanks| ==> IsBlank(json[k])
  {
    hide IsBlank, Rest;
    RestBehind(json, p, blanks, behind);
    forall k | p <= k < p + |blanks| ensures IsBlank(json[k]) {
      assert json[k] == json[p..p + |blanks|][k - p];
    }
  }

  lemma MemberStands(json: Text, b: nat, name: Text, first: Text, second: Text, value: Text)
    requires IsMember(name, first, second, value) && Rest(json, b, Member(name, first, second, value))
    ensures MemberAt(json, b, name, first, second)
    ensures b < |json| && json[b] == QUOTE
  {
    hide Print, AllLegal, Rest, IsBlank, AreBlanks;
    var behind := [COLON] + (second + value);
    RestBehind(json, b, [QUOTE], name + ([QUOTE] + (first + behind)));
    RestBehind(json, b + 1, name, [QUOTE] + (first + behind));
    RestBehind(json, b + 1 + |name|, [QUOTE], first + behind);
    BlanksStand(json, b + 2 + |name|, first, behind);
    ColonStands(json, b + 2 + |name| + |first|, second, value);
  }

  lemma ColonStands(json: Text, p: nat, second: Text, value: Text)
    requires AreBlanks(second) && value != [] && Rest(json, p, [COLON] + (second + value))
    ensures p + 1 + |second| < |json| && json[p] == COLON
    ensures forall k :: p < k <= p + |second| ==> IsBlank(json[k])
  {
    hide Rest, IsBlank, AreBlanks;
    RestBehind(json, p, [COLON], second + value);
    BlanksStand(json, p + 1, second, value);
    RestBehind(json, p + 1, second, value);
  }

  lemma NoBlanks()
    ensures !IsBlank(QUOTE) && !IsBlank(COLON)
  {
  }

  /** A string that leads to the member's value is the member's own key. */
  lemma OnlyFromMember(json: Text, b: nat, name: Text, first: Text, second: Text, p: nat)
    requires MemberAt(json, b, name, first, second) && p < |json| && json[p] == QUOTE
    ensures var end := StringEnd(json, p + 1, false);
      && end < |json| && json[p + 1..end] == name && BlanksEnd(json, end + 1) < |json|
      && json[BlanksEnd(json, end + 1)] == COLON
      && BlanksEnd(json, BlanksEnd(json, end + 1) + 1) == b + ValueAt(name, first, second)
      ==> p == b
  {
    NoBlanks();
    hide StringEnd, IsBlank;
    var end := StringEnd(json, p + 1, false);
    if end < |json| && json[p + 1..end] == name && BlanksEnd(json, end + 1) < |json| {
      var colon := BlanksEnd(json, end + 1);
      var theirs, quote := b + 2 + |name| + |first|, b + 1 + |name|;
      if json[colon] == COLON && BlanksEnd(json, colon + 1) == b + ValueAt(name, first, second) {
        assert colon >= theirs by {
          assert !IsBlank(json[theirs]);
        }
        assert colon == theirs by {
          assert !IsBlank(json[colon]);
        }
        assert json[end] == QUOTE by {
          EndsAtQuote(json, p + 1, false);
        }
        assert end >= quote by {
          assert !IsBlank(json[quote]);
        }
        assert end == quote by {
          assert !IsBlank(json[end]);
        }
      }
    }
  }

  lemma {:induction false} EndsAtQuote(json: Text, p: nat, escaped: bool)
    requires p <= |json|
    ensures StringEnd(json, p, escaped) < |json| ==> json[StringEnd(json, p, escaped)] == QUOTE
    decreases |json| - p
  {
    if p < |json| && (escaped || json[p] != QUOTE) {
      EndsAtQuote(json, p + 1, !escaped && json[p] == BACKSLASH);
    }
  }

  /** Behind the member's first quote it is too late. */
  lemma {:induction false} PastMember(json: Text, b: nat, name: Text, first: Text, second: Text, p: nat)
    requires MemberAt(json, b, name, first, second) && b < p
    ensures Locate(json, p, name) != Some(b + ValueAt(name, first, second))
    decreases |json| - p
  {
    hide Locate, StringEnd, BlanksEnd, MemberAt, IsBlank;
    LocateStep(json, p, name);
    if p < |json| {
      if json[p] != QUOTE {
        PastMember(json, b, name, first, second, p + 1);
      } else {
        var end := StringEnd(json, p + 1, false);
        OnlyFromMember(json, b, name, first, second, p);
        if end >= |json| || json[p + 1..end] != name {
          PastMember(json, b, name, first, second, end + 1);
        } else {
          PastMember(json, b, name, first, second, BlanksEnd(json, end + 1) + 2);
        }
      }
    }
  }

  // ----- one element of a strand -----

  lemma OtherStep(json: Text, p: nat, s: Strand, tail: Text, key: Text)
    requires s.Other? && IsStrand(s) && Rest(json, p, PrintStrand(s) + tail)
    ensures p < |json| && json[p] == s.byte && Rest(json, p + 1, PrintStrand(s.next) + tail)
    ensures Locate(json, p, key) == Locate(json, p + 1, key)
  {
    hide Locate, Rest, StringEnd, BlanksEnd;
    Regroup([s.byte], PrintStrand(s.next), tail);
    RestBehind(json, p, [s.byte], PrintStrand(s.next) + tail);
    LocateStep(json, p, key);
  }

  lemma QuotedStep(json: Text, p: nat, s: Strand, tail: Text, key: Text) returns (end: nat)
    requires s.Quoted? && IsStrand(s) && Rest(json, p, PrintStrand(s) + tail)
    ensures end == p + 1 + |Print(s.units)| < |json| && json[p] == QUOTE
    ensures StringEnd(json, p + 1, false) == end && json[p + 1..end] == Print(s.units)
    ensures Rest(json, p + 1, Print(s.units) + ([QUOTE] + (PrintStrand(s.next) + tail)))
    ensures Rest(json, end + 1, PrintStrand(s.next) + tail)
    ensures Print(s.units) != key ==> Locate(json, p, key) == Locate(json, end + 1, key)
  {
    hide Locate, Rest, StringEnd, BlanksEnd, Print, AllLegal;
    var text, more := Print(s.units), PrintStrand(s.next) + tail;
    Regroup([QUOTE], text + ([QUOTE] + PrintStrand(s.next)), tail);
    Regroup(text, [QUOTE] + PrintStrand(s.next), tail);
    Regroup([QUOTE], PrintStrand(s.next), tail);
    RestBehind(json, p, [QUOTE], text + ([QUOTE] + more));
    StringEndsAtQuote(json, p + 1, s.units, more);
    end := p + 1 + |text|;
    LocateStep(json, p, key);
  }

  /** Stepping over what may be stepped over leads to the next element. */
  lemma StepOver(json: Text, p: nat, t: Strand, tail: Text, key: Text) returns (u: Strand)
    requires IsStrand(t) && SkippableStrand(t, key) && Rest(json, p, PrintStrand(t) + tail)
    ensures IsStrand(u) && Rest(json, p + 2, PrintStrand(u) + tail)
    ensures p < |json| && json[p] != COLON
    ensures |PrintStrand(u)| + 2 == |PrintStrand(t)|
    ensures forall behind :: Clear(t, behind, key) == Clear(u, behind, key)
    ensures Unremarkable(t, key) ==> Unremarkable(u, key)
  {
    hide Rest, Locate, StringEnd, Print, AllLegal, Skippable;
    if t.Other? {
      OtherStep(json, p, t, tail, key);
      OtherStep(json, p + 1, t.next, tail, key);
      assert Unremarkable(t, key) == Unremarkable(t.next, key);
      u := t.next.next;
    } else {
      var end := QuotedStep(json, p, t, tail, key);
      EmptyPrint();
      u := t.next;
    }
  }

  lemma EmptyPrint()
    ensures Print([]) == []
  {
  }

  // ----- found -----

  /** While the condition holds the search passes from string to string. */
  lemma {:induction false} ClearIsPassed(json: Text, p: nat, s: Strand, name: Text, first: Text, second: Text, value: Text)
    requires IsStrand(s) && IsMember(name, first, second, value)
    requires Rest(json, p, PrintStrand(s) + Member(name, first, second, value))
    requires Clear(s, Member(name, first, second, value), name)
    ensures Rest(json, p + |PrintStrand(s)|, Member(name, first, second, value))
    ensures Locate(json, p, name) == Locate(json, p + |PrintStrand(s)|, name)
    decreases |PrintStrand(s)|
  {
    hide Rest, Locate, StringEnd, BlanksEnd, Print, AllLegal, Skippable, Member;
    var tail := Member(name, first, second, value);
    match s
    case Done =>
      assert [] + tail == tail;
    case Other(_, next) =>
      OtherStep(json, p, s, tail, name);
      ClearIsPassed(json, p + 1, next, name, first, second, value);
    case Quoted(units, next) =>
      var end := QuotedStep(json, p, s, tail, name);
      if Print(units) != name {
        ClearIsPassed(json, end + 1, next, name, first, second, value);
      } else {
        var u := KeySteppedOver(json, p, end, s, name, first, second, value);
        ClearIsPassed(json, BlanksEnd(json, end + 1) + 2, u, name, first, second, value);
      }
  }

  /** A string spelled like the key whose two bytes may be stepped over. */
  lemma KeySteppedOver(json: Text, p: nat, end: nat, s: Strand, name: Text, first: Text, second: Text, value: Text)
    returns (u: Strand)
    requires s.Quoted? && IsStrand(s) && Print(s.units) == name && IsMember(name, first, second, value)
    requires Rest(json, end + 1, PrintStrand(s.next) + Member(name, first, second, value))
    requires p < end < |json| && json[p] == QUOTE && StringEnd(json, p + 1, false) == end && json[p + 1..end] == name
    requires Skippable(PrintStrand(s.next) + Member(name, first, second, value), name)
    ensures var at := BlanksEnd(json, end + 1);
      && at + 2 + |PrintStrand(u)| == end + 1 + |PrintStrand(s.next)| && IsStrand(u)
      && Rest(json, at + 2, PrintStrand(u) + Member(name, first, second, value))
      && Locate(json, p, name) == Locate(json, at + 2, name)
    ensures forall behind :: Clear(s.next, behind, name) == Clear(u, behind, name)
    ensures Unremarkable(s.next, name) ==> Unremarkable(u, name)
  {
    hide Rest, Locate, StringEnd, BlanksEnd, Print, AllLegal, Skippable, IsBlank, Clear, Unremarkable;
    var tail, t := Member(name, first, second, value), AfterBlanks(s.next);
    SkippableIs(s.next, name, first + ([COLON] + (second + value)));
    BlanksOfStrand(json, end + 1, s.next, tail);
    u := StepOver(json, BlanksEnd(json, end + 1), t, tail, name);
    UnremarkableAfterBlanks(s.next, name);
    forall behind ensures Clear(s.next, behind, name) == Clear(u, behind, name) {
      ClearAfterBlanks(s.next, behind, name);
    }
    LocateStep(json, p, name);
  }

  /** The member is found behind every text of legal strings and other bytes that is
      clear, whatever the blanks around its colon and whatever follows. */
  lemma ClearIsFound(before: Strand, name: Text, first: Text, second: Text, value: Text)
    requires IsStrand(before) && IsMember(name, first, second, value)
    ensures var tail := Member(name, first, second, value); var json := PrintStrand(before) + tail;
      |json| <= SCAN_CAP && Clear(before, tail, name) ==>
        LocateValue(json, name) == Some(|PrintStrand(before)| + ValueAt(name, first, second))
  {
    hide Rest, Locate, LocateValue, Print, AllLegal, Clear, PrintStrand;
    var tail := Member(name, first, second, value);
    var json := PrintStrand(before) + tail;
    if |json| <= SCAN_CAP && Clear(before, tail, name) {
      WholeIsRest(json);
      ClearIsPassed(json, 0, before, name, first, second, value);
      var key :| AllLegal(key) && Print(key) == name;
      MemberIsFound(json, |PrintStrand(before)|, key, first, second, value);
      LocateFromStart(json, name);
    }
  }

  // ----- missed -----

  /** The bytes up to the next string. */
  function Gap(s: Strand): Text {
    if s.Other? then [s.byte] + Gap(s.next) else []
  }

  function AfterGap(s: Strand): (t: Strand)
    ensures !t.Other?
  {
    if s.Other? then AfterGap(s.next) else s
  }

  /** No string holds an escaped quote, and the bytes between strings hold no backslash
      and are not spelled like the key. */
  predicate Unremarkable(s: Strand, key: Text) {
    match s
    case Done => true
    case Other(_, next) => Unremarkable(next, key)
    case Quoted(units, next) =>
      QUOTE !in Print(units) && BACKSLASH !in Gap(next) && Gap(next) != key && Unremarkable(next, key)
  }

  lemma {:induction false} GapParts(s: Strand, tail: Text, key: Text)
    requires IsStrand(s)
    ensures PrintStrand(s) + tail == Gap(s) + (PrintStrand(AfterGap(s)) + tail)
    ensures |PrintStrand(s)| == |Gap(s)| + |PrintStrand(AfterGap(s))|
    ensures QUOTE !in Gap(s) && IsStrand(AfterGap(s))
    ensures Unremarkable(s, key) == Unremarkable(AfterGap(s), key)
    decreases s
  {
    if s.Other? {
      GapParts(s.next, tail, key);
      Regroup([s.byte], PrintStrand(s.next), tail);
      Regroup([s.byte], Gap(s.next), PrintStrand(AfterGap(s)) + tail);
    } else {
      assert [] + (PrintStrand(s) + tail) == PrintStrand(s) + tail;
    }
  }

  lemma {:induction false} NoQuotesPassed(json: Text, p: nat, text: Text, behind: Text, key: Text)
    requires QUOTE !in text && Rest(json, p, text + behind)
    ensures Locate(json, p, key) == Locate(json, p + |text|, key) && Rest(json, p + |text|, behind)
    decreases |text|
  {
    hide Locate, StringEnd, BlanksEnd, Rest;
    RestBehind(json, p, text, behind);
    if text != [] {
      assert text + behind == [text[0]] + (text[1..] + behind);
      RestBehind(json, p, [text[0]], text[1..] + behind);
      LocateStep(json, p, key);
      NoQuotesPassed(json, p + 1, text[1..], behind, key);
    }
  }

  /** From inside a string the search takes the bytes between strings for strings and
      steps over the member's first quote. */
  lemma {:induction false} FlippedMisses(json: Text, p: nat, text: Text, s: Strand, b: nat,
                                         name: Text, first: Text, second: Text, value: Text)
    requires QUOTE !in text && IsStrand(s) && IsMember(name, first, second, value)
    requires Rest(json, p, text + ([QUOTE] + (PrintStrand(s) + Member(name, first, second, value))))
    requires b == p + |text| + 1 + |PrintStrand(s)|
    requires BACKSLASH !in Gap(s) && Gap(s) != name && Unremarkable(s, name)
    ensures Locate(json, p, name) != Some(b + ValueAt(name, first, second))
    decreases |PrintStrand(s)|
  {
    hide Rest, Locate, StringEnd, BlanksEnd, Print, AllLegal, Member, IsBlank, Gap, AfterGap, MemberAt;
    var tail := Member(name, first, second, value);
    NoQuotesPassed(json, p, text, [QUOTE] + (PrintStrand(s) + tail), name);
    var t := AfterGap(s);
    MemberQuote(t, tail, name, first, second, value);
    var end := GapPassed(json, p + |text|, s, tail, name);
    if t.Done? {
      AtMember(json, end, t, name, first, second, value);
      PastMember(json, end, name, first, second, end + 1);
    } else {
      var inside := QuotedStep(json, end, t, tail, name);
      FlippedMisses(json, end + 1, Print(t.units), t.next, b, name, first, second, value);
    }
  }

  /** From a closing quote the bytes up to the next quote are taken for a string. */
  lemma GapPassed(json: Text, q: nat, s: Strand, tail: Text, name: Text) returns (end: nat)
    requires IsStrand(s) && BACKSLASH !in Gap(s) && Gap(s) != name
    requires Rest(json, q, [QUOTE] + (PrintStrand(s) + tail))
    requires var text := PrintStrand(AfterGap(s)) + tail; text != [] && text[0] == QUOTE
    ensures Rest(json, end, PrintStrand(AfterGap(s)) + tail) && end + |PrintStrand(AfterGap(s))| == q + 1 + |PrintStrand(s)|
    ensures |PrintStrand(AfterGap(s))| <= |PrintStrand(s)| && IsStrand(AfterGap(s))
    ensures Unremarkable(s, name) ==> Unremarkable(AfterGap(s), name)
    ensures Locate(json, q, name) == Locate(json, end + 1, name)
  {
    hide Rest, Locate, StringEnd, BlanksEnd, Gap, AfterGap, PrintStrand, IsStrand, Unremarkable;
    RestBehind(json, q, [QUOTE], PrintStrand(s) + tail);
    GapParts(s, tail, name);
    end := q + 1 + |Gap(s)|;
    GapIsString(json, q + 1, Gap(s), PrintStrand(AfterGap(s)) + tail);
    LocateStep(json, q, name);
  }

  lemma MemberQuote(t: Strand, tail: Text, name: Text, first: Text, second: Text, value: Text)
    requires !t.Other? && tail == Member(name, first, second, value)
    ensures PrintStrand(t) + tail != [] && (PrintStrand(t) + tail)[0] == QUOTE
  {
  }

  lemma GapIsString(json: Text, p: nat, gap: Text, behind: Text)
    requires QUOTE !in gap && BACKSLASH !in gap && behind != [] && behind[0] == QUOTE
    requires Rest(json, p, gap + behind)
    ensures StringEnd(json, p, false) == p + |gap| < |json| && json[p..p + |gap|] == gap
    ensures json[p + |gap|] == QUOTE && Rest(json, p + |gap|, behind)
  {
    RestBehind(json, p, gap, behind);
    DigitsInString(json, p, |gap|);
    assert json[p + |gap|] == json[p + |gap|..][0];
  }

  /** The next string is entered behind its first quote, or behind one byte more. */
  lemma EnteredMisses(json: Text, p: nat, t: Strand, b: nat, name: Text, first: Text, second: Text, value: Text)
    requires t.Quoted? && IsStrand(t) && IsMember(name, first, second, value) && Unremarkable(t, name)
    requires Rest(json, p, PrintStrand(t) + Member(name, first, second, value)) && b == p + |PrintStrand(t)|
    ensures Locate(json, p + 1, name) != Some(b + ValueAt(name, first, second))
    ensures t.units != [] ==> Locate(json, p + 2, name) != Some(b + ValueAt(name, first, second))
  {
    hide Rest, Locate, StringEnd, BlanksEnd, Print, AllLegal, Member;
    var tail, text := Member(name, first, second, value), Print(t.units);
    var behind := [QUOTE] + (PrintStrand(t.next) + tail);
    var end := QuotedStep(json, p, t, tail, name);
    FlippedMisses(json, p + 1, text, t.next, b, name, first, second, value);
    FirstOfUnits(t.units);
    if t.units != [] {
      assert text + behind == text[..1] + (text[1..] + behind);
      RestBehind(json, p + 1, text[..1], text[1..] + behind);
      FlippedMisses(json, p + 2, text[1..], t.next, b, name, first, second, value);
    }
  }

  /** A string spelled like the key whose two bytes may not be stepped over. */
  lemma ThrownOff(json: Text, p: nat, end: nat, s: Strand, b: nat,
                  name: Text, first: Text, second: Text, value: Text)
    requires s.Quoted? && IsStrand(s) && Print(s.units) == name && IsMember(name, first, second, value) && name != []
    requires Unremarkable(s.next, name)
    requires Rest(json, end + 1, PrintStrand(s.next) + Member(name, first, second, value))
    requires p < end < |json| && json[p] == QUOTE && StringEnd(json, p + 1, false) == end && json[p + 1..end] == name
    requires b == end + 1 + |PrintStrand(s.next)|
    requires !Skippable(PrintStrand(s.next) + Member(name, first, second, value), name)
    ensures Locate(json, p, name) != Some(b + ValueAt(name, first, second))
  {
    hide Rest, Locate, StringEnd, BlanksEnd, Print, AllLegal, Skippable, IsBlank, Unremarkable, MemberAt, IsStrand;
    var tail, t := Member(name, first, second, value), AfterBlanks(s.next);
    UnremarkableAfterBlanks(s.next, name);
    NextIsStrand(s);
    SkippableIs(s.next, name, first + ([COLON] + (second + value)));
    BlanksOfStrand(json, end + 1, s.next, tail);
    var at := BlanksEnd(json, end + 1);
    AtMember(json, at, t, name, first, second, value);
    LocateStep(json, p, name);
    if json[at] == COLON {
      OnlyFromMember(json, b, name, first, second, p);
    } else {
      hide Member;
      StepsOffStrand(json, at, t, b, name, first, second, value);
    }
  }

  lemma NextIsStrand(s: Strand)
    requires IsStrand(s) && s.Quoted?
    ensures IsStrand(s.next)
  {
  }

  lemma AtMember(json: Text, p: nat, t: Strand, name: Text, first: Text, second: Text, value: Text)
    requires IsMember(name, first, second, value)
    requires Rest(json, p, PrintStrand(t) + Member(name, first, second, value))
    ensures MemberAt(json, p + |PrintStrand(t)|, name, first, second)
  {
    hide Member, PrintStrand, MemberAt;
    RestBehind(json, p, PrintStrand(t), Member(name, first, second, value));
    MemberStands(json, p + |PrintStrand(t)|, name, first, second, value);
  }

  lemma StepsOffStrand(json: Text, at: nat, t: Strand, b: nat, name: Text, first: Text, second: Text, value: Text)
    requires IsStrand(t) && Unremarkable(t, name) && !SkippableStrand(t, name) && name != []
    requires IsMember(name, first, second, value) && at < |json| && json[at] != COLON
    requires Rest(json, at, PrintStrand(t) + Member(name, first, second, value)) && b == at + |PrintStrand(t)|
    ensures Locate(json, at + 2, name) != Some(b + ValueAt(name, first, second))
  {
    hide Rest, Locate, StringEnd, BlanksEnd, Print, AllLegal, Member, IsBlank, MemberAt;
    AtMember(json, at, t, name, first, second, value);
    var tail := Member(name, first, second, value);
    if t.Done? {
      PastMember(json, b, name, first, second, at + 2);
    } else if t.Quoted? {
      EnteredMisses(json, at, t, b, name, first, second, value);
    } else {
      OtherStep(json, at, t, tail, name);
      if t.next.Done? {
        PastMember(json, b, name, first, second, at + 2);
      } else {
        EnteredMisses(json, at + 1, t.next, b, name, first, second, value);
      }
    }
  }

  /** Where the condition fails, the search loses its place for good. */
  lemma {:induction false} MissedUnlessClear(json: Text, p: nat, s: Strand, b: nat,
                                             name: Text, first: Text, second: Text, value: Text)
    requires IsStrand(s) && IsMember(name, first, second, value) && name != [] && Unremarkable(s, name)
    requires Rest(json, p, PrintStrand(s) + Member(name, first, second, value)) && b == p + |PrintStrand(s)|
    requires !Clear(s, Member(name, first, second, value), name)
    ensures Locate(json, p, name) != Some(b + ValueAt(name, first, second))
    decreases |PrintStrand(s)|
  {
    hide Rest, Locate, StringEnd, BlanksEnd, Print, AllLegal, Skippable, Member;
    var tail := Member(name, first, second, value);
    if s.Other? {
      OtherStep(json, p, s, tail, name);
      MissedUnlessClear(json, p + 1, s.next, b, name, first, second, value);
    } else {
      var end := QuotedStep(json, p, s, tail, name);
      if Print(s.units) != name {
        MissedUnlessClear(json, end + 1, s.next, b, name, first, second, value);
      } else if Skippable(PrintStrand(s.next) + tail, name) {
        var u := KeySteppedOver(json, p, end, s, name, first, second, value);
        MissedUnlessClear(json, BlanksEnd(json, end + 1) + 2, u, b, name, first, second, value);
      } else {
        ThrownOff(json, p, end, s, b, name, first, second, value);
      }
    }
  }

  /** With a non-empty key, strings without escaped quotes, and gaps between strings that
      hold no backslash and are not spelled like the key, the condition is exact. */
  lemma FoundExactlyWhenClear(before: Strand, name: Text, first: Text, second: Text, value: Text)
    requires IsStrand(before) && IsMember(name, first, second, value) && name != [] && Unremarkable(before, name)
    ensures var tail := Member(name, first, second, value); var json := PrintStrand(before) + tail;
      |json| <= SCAN_CAP ==>
        (LocateValue(json, name) == Some(|PrintStrand(before)| + ValueAt(name, first, second)) <==>
         Clear(before, tail, name))
  {
    hide Rest, Locate, LocateValue, Print, AllLegal, Clear, PrintStrand, Unremarkable;
    ClearIsFound(before, name, first, second, value);
    var tail := Member(name, first, second, value);
    var json := PrintStrand(before) + tail;
    if |json| <= SCAN_CAP && !Clear(before, tail, name) {
      WholeIsRest(json);
      MissedUnlessClear(json, 0, before, |PrintStrand(before)|, name, first, second, value);
      LocateFromStart(json, name);
    }
  }

  // ----- three texts -----

  lemma StringOfOne(json: Text, p: nat)
    requires p + 1 < |json| && json[p] != QUOTE && json[p] != BACKSLASH && json[p + 1] == QUOTE
    ensures StringEnd(json, p, false) == p + 1 && json[p..p + 1] == [json[p]]
  {
  }

  lemma NoBlankHere(json: Text, p: nat)
    requires p < |json| && !IsBlank(json[p])
    ensures BlanksEnd(json, p) == p
  {
  }

  const KEY: Text := [107]

  /** `{"a":"k","k":1}`. */
  const HIDING: Text := [123, 34, 97, 34, 58, 34, 107, 34, 44, 34, 107, 34, 58, 49, 125]

  lemma HidingStrings()
    ensures StringEnd(HIDING, 2, false) == 3 && HIDING[2..3] != KEY && StringEnd(HIDING, 6, false) == 7 && HIDING[6..7] == KEY
    ensures BlanksEnd(HIDING, 8) == 8 && StringEnd(HIDING, 12, false) == 15
  {
    StringOfOne(HIDING, 2);
    StringOfOne(HIDING, 6);
    NoBlankHere(HIDING, 8);
    assert HIDING[12..15] == [58, 49, 125];
    DigitsInString(HIDING, 12, 3);
    assert StringEnd(HIDING, 15, false) == 15;
  }

  /** The value "k" makes the search step over the quote that opens the key, and the
      member is not found. */
  lemma EqualValueHidesKey()
    ensures LocateValue(HIDING, KEY) == None
  {
    hide Locate, StringEnd, BlanksEnd;
    HidingStrings();
    LocateStep(HIDING, 0, KEY);
    LocateStep(HIDING, 1, KEY);
    LocateStep(HIDING, 4, KEY);
    LocateStep(HIDING, 5, KEY);
    LocateStep(HIDING, 10, KEY);
    LocateStep(HIDING, 11, KEY);
    LocateStep(HIDING, 16, KEY);
    LocateFromStart(HIDING, KEY);
  }

  /** `{"a":"k", "k":1}`. */
  const HARMLESS: Text := [123, 34, 97, 34, 58, 34, 107, 34, 44, 32, 34, 107, 34, 58, 49, 125]

  lemma HarmlessStrings()
    ensures StringEnd(HARMLESS, 2, false) == 3 && HARMLESS[2..3] != KEY
    ensures StringEnd(HARMLESS, 6, false) == 7 && HARMLESS[6..7] == KEY
    ensures StringEnd(HARMLESS, 11, false) == 12 && HARMLESS[11..12] == KEY
    ensures BlanksEnd(HARMLESS, 8) == 8 && BlanksEnd(HARMLESS, 13) == 13 && BlanksEnd(HARMLESS, 14) == 14
  {
    StringOfOne(HARMLESS, 2);
    StringOfOne(HARMLESS, 6);
    StringOfOne(HARMLESS, 11);
    NoBlankHere(HARMLESS, 8);
    NoBlankHere(HARMLESS, 13);
    NoBlankHere(HARMLESS, 14);
  }

  /** With a blank behind the comma the member is found. */
  lemma EqualValueIsHarmless()
    ensures LocateValue(HARMLESS, KEY) == Some(14)
  {
    hide Locate, StringEnd, BlanksEnd;
    HarmlessStrings();
    LocateStep(HARMLESS, 0, KEY);
    LocateStep(HARMLESS, 1, KEY);
    LocateStep(HARMLESS, 4, KEY);
    LocateStep(HARMLESS, 5, KEY);
    LocateStep(HARMLESS, 10, KEY);
    LocateFromStart(HARMLESS, KEY);
  }

  /** `"k","x\"y",` */
  const ESCAPING := Strand.Quoted([Raw(107)],
    Strand.Other(44, Strand.Quoted([Raw(120), Short(QUOTE), Raw(121)], Strand.Other(44, Strand.Done))))

  const ESCAPED: Text := [34, 107, 34, 44, 34, 120, 92, 34, 121, 34, 44, 34, 107, 34, 58, 49]

  lemma EscapedStrings()
    ensures StringEnd(ESCAPED, 1, false) == 2 && ESCAPED[1..2] == KEY
    ensures StringEnd(ESCAPED, 8, false) == 9 && ESCAPED[8..9] != KEY
    ensures StringEnd(ESCAPED, 12, false) == 13 && ESCAPED[12..13] == KEY
    ensures BlanksEnd(ESCAPED, 3) == 3 && BlanksEnd(ESCAPED, 14) == 14 && BlanksEnd(ESCAPED, 15) == 15
  {
    StringOfOne(ESCAPED, 1);
    StringOfOne(ESCAPED, 8);
    StringOfOne(ESCAPED, 12);
    NoBlankHere(ESCAPED, 3);
    NoBlankHere(ESCAPED, 14);
    NoBlankHere(ESCAPED, 15);
  }

  /** Why the converse needs strings without escaped quotes: `"k","x\"y","k":1` is not
      clear, but the escaped quote brings the search back into step. */
  lemma EscapedQuoteComesBack()
    ensures PrintStrand(ESCAPING) + Member(KEY, [], [], [49]) == ESCAPED
    ensures IsStrand(ESCAPING) && !Clear(ESCAPING, Member(KEY, [], [], [49]), KEY)
    ensures LocateValue(ESCAPED, KEY) == Some(15)
  {
    hide Locate, StringEnd, BlanksEnd, PrintStrand, IsStrand, Clear;
    EscapedText();
    EscapedIsNotClear();
    EscapedStrings();
    LocateStep(ESCAPED, 0, KEY);
    LocateStep(ESCAPED, 5, KEY);
    LocateStep(ESCAPED, 6, KEY);
    LocateStep(ESCAPED, 7, KEY);
    LocateStep(ESCAPED, 10, KEY);
    LocateStep(ESCAPED, 11, KEY);
    LocateFromStart(ESCAPED, KEY);
  }

  lemma OneUnit(u: Unit)
    ensures Print([u]) == PrintUnit(u)
  {
    hide PrintUnit;
    assert [u][1..] == [];
    assert Print([u]) == PrintUnit(u) + [];
  }

  lemma EscapedText()
    ensures PrintStrand(ESCAPING) + Member(KEY, [], [], [49]) == ESCAPED
    ensures Print([Raw(107)]) == KEY
  {
    OneUnit(Raw(107));
    OneUnit(Raw(121));
    var units := [Raw(120), Short(QUOTE), Raw(121)];
    assert units[1..] == [Short(QUOTE), Raw(121)] && units[1..][1..] == [Raw(121)];
    assert Print(units) == [120, BACKSLASH, QUOTE, 121];
    var last := Strand.Other(44, Strand.Done);
    assert PrintStrand(last) == [44];
    assert PrintStrand(Strand.Quoted(units, last)) == [34, 120, 92, 34, 121, 34, 44];
    assert Member(KEY, [], [], [49]) == [34, 107, 34, 58, 49];
  }

  lemma EscapedIsNotClear()
    ensures IsStrand(ESCAPING) && !Clear(ESCAPING, Member(KEY, [], [], [49]), KEY)
  {
    OneUnit(Raw(107));
    var next, tail := ESCAPING.next, Member(KEY, [], [], [49]);
    var rest := PrintStrand(next) + tail;
    assert PrintStrand(next) == [44] + PrintStrand(next.next) && PrintStrand(next.next)[0] == QUOTE;
    assert rest[0] == 44 && rest[1] == QUOTE;
    assert IsStrand(next.next.next);
    assert IsStrand(next);
    assert !Skippable(rest, KEY) by {
      NoBlankHere(rest, 0);
    }
  }
}
