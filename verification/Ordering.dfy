/** Comparison of byte strings and of directory records. */
module Ordering {
  import opened Bytes

  // ----- sign-valued lexicographic order -----

  /** The sign of `strcmp`, or of `memcmp` when both sides have one length. */
  function Lex(a: seq<int>, b: seq<int>): int {
    if a == [] then (if b == [] then 0 else -1)
    else if b == [] then 1
    else if a[0] < b[0] then -1
    else if a[0] > b[0] then 1
    else Lex(a[1..], b[1..])
  }

  lemma {:induction false} LexAntisymmetric(a: seq<int>, b: seq<int>)
    ensures Lex(a, b) == -Lex(b, a)
  {
    if a != [] && b != [] && a[0] == b[0] {
      LexAntisymmetric(a[1..], b[1..]);
    }
  }

  lemma {:induction false} LexZero(a: seq<int>, b: seq<int>)
    ensures Lex(a, b) == 0 <==> a == b
  {
    if a != [] && b != [] && a[0] == b[0] {
      LexZero(a[1..], b[1..]);
      assert a == [a[0]] + a[1..] && b == [b[0]] + b[1..];
    }
  }

  lemma {:induction false} LexTransitive(a: seq<int>, b: seq<int>, c: seq<int>)
    requires Lex(a, b) <= 0 && Lex(b, c) <= 0
    ensures Lex(a, c) <= 0
  {
    if a != [] && b != [] && c != [] && a[0] == b[0] == c[0] {
      LexTransitive(a[1..], b[1..], c[1..]);
    }
  }

  lemma {:induction false} LexAppend(p: seq<int>, q: seq<int>, a: seq<int>, b: seq<int>)
    requires |p| == |q|
    ensures Lex(p + a, q + b) == if Lex(p, q) != 0 then Lex(p, q) else Lex(a, b)
  {
    if p == [] {
      assert p + a == a && q + b == b;
    } else {
      assert (p + a)[1..] == p[1..] + a && (q + b)[1..] == q[1..] + b;
      LexAppend(p[1..], q[1..], a, b);
    }
  }

  // ----- natural names -----

  /** Length of the maximal digit run at the start of `s`. */
  function DigitRun(s: Text): (n: nat)
    ensures n <= |s|
    ensures forall k :: 0 <= k < n ==> IsDigit(s[k])
    ensures n < |s| ==> !IsDigit(s[n])
  {
    if s == [] || !IsDigit(s[0]) then 0 else 1 + DigitRun(s[1..])
  }

  /** Number of leading '0' bytes. */
  function ZeroRun(s: Text): (n: nat)
    ensures n <= |s|
    ensures forall k :: 0 <= k < n ==> s[k] == 48
    ensures n < |s| ==> s[n] != 48
  {
    if s == [] || s[0] != 48 then 0 else 1 + ZeroRun(s[1..])
  }

  /** The sort key of a name: each digit run becomes the digit mark 48, the
      number of significant digits, and those digits; other bytes stay. */
  function NaturalKey(s: Text): seq<int>
    decreases |s|
  {
    if s == [] then []
    else if IsDigit(s[0]) then
      var run := DigitRun(s);
      var digits := Significant(s);
      [48, |digits|] + digits + NaturalKey(s[run..])
    else [s[0]] + NaturalKey(s[1..])
  }

  /** The digits of the leading run without its leading zeros. */
  function Significant(s: Text): Text {
    var run := DigitRun(s);
    s[..run][ZeroRun(s[..run])..]
  }

  /** Natural order: keys first, then plain byte order between names whose keys
      agree (`a7` and `a07`). */
  function NaturalOrder(left: Text, right: Text): int {
    var value := Lex(NaturalKey(left), NaturalKey(right));
    if value != 0 then value else Lex(left, right)
  }

  lemma NumberKey(s: Text)
    requires s != [] && IsDigit(s[0])
    ensures NaturalKey(s) ==
            [48] + ([|Significant(s)|] + (Significant(s) + NaturalKey(s[DigitRun(s)..])))
  {
    hide DigitRun, Significant;
  }

  lemma {:induction false} NumberStep(l: Text, r: Text)
    requires l != [] && r != [] && IsDigit(l[0]) && IsDigit(r[0])
    ensures var dl, dr := Significant(l), Significant(r);
            Lex(NaturalKey(l), NaturalKey(r)) ==
            if |dl| < |dr| then -1 else if |dl| > |dr| then 1
            else if Lex(dl, dr) != 0 then Lex(dl, dr)
            else Lex(NaturalKey(l[DigitRun(l)..]), NaturalKey(r[DigitRun(r)..]))
  {
    var dl, dr := Significant(l), Significant(r);
    var kl, kr := NaturalKey(l[DigitRun(l)..]), NaturalKey(r[DigitRun(r)..]);
    NumberKey(l);
    NumberKey(r);
    hide NaturalKey, Significant, DigitRun;
    LexAppend([48], [48], [|dl|] + (dl + kl), [|dr|] + (dr + kr));
    LexAppend([|dl|], [|dr|], dl + kl, dr + kr);
    if |dl| == |dr| {
      LexAppend(dl, dr, kl, kr);
    }
  }

  lemma {:induction false} ByteStep(l: Text, r: Text)
    requires l != [] && r != [] && !(IsDigit(l[0]) && IsDigit(r[0]))
    ensures Lex(NaturalKey(l), NaturalKey(r)) ==
            if l[0] < r[0] then -1 else if l[0] > r[0] then 1
            else Lex(NaturalKey(l[1..]), NaturalKey(r[1..]))
  {
    var kl, kr := NaturalKey(l), NaturalKey(r);
    if l[0] == r[0] {
      assert kl[1..] == NaturalKey(l[1..]) && kr[1..] == NaturalKey(r[1..]);
    }
  }

  /** The byte-walking comparison: digit runs are compared by length once their
      leading zeros are skipped, then digit by digit; everything else by byte. */
  method NaturalCompare(left: Text, right: Text) returns (value: int)
    ensures value == NaturalOrder(left, right)
  {
    hide NaturalKey, Significant, DigitRun;
    var a, b := 0, 0;
    while a < |left| && b < |right|
      invariant 0 <= a <= |left| && 0 <= b <= |right|
      invariant Lex(NaturalKey(left), NaturalKey(right)) ==
                Lex(NaturalKey(left[a..]), NaturalKey(right[b..]))
      decreases |left| - a + |right| - b
    {
      ghost var l, r := left[a..], right[b..];
      if IsDigit(left[a]) && IsDigit(right[b]) {
        NumberStep(l, r);
        var az, ae := SkipNumber(left, a);
        var bz, be := SkipNumber(right, b);
        if ae - az != be - bz {
          return if ae - az < be - bz then -1 else 1;
        }
        if ae != az {
          value := Lex(left[az..ae], right[bz..be]);
          if value != 0 {
            return;
          }
        }
        assert left[ae..] == l[DigitRun(l)..] && right[be..] == r[DigitRun(r)..];
        a, b := ae, be;
      } else {
        ByteStep(l, r);
        if left[a] != right[b] {
          return if left[a] < right[b] then -1 else 1;
        }
        assert left[a + 1..] == l[1..] && right[b + 1..] == r[1..];
        a, b := a + 1, b + 1;
      }
    }
    KeyEmpty(left[a..]);
    KeyEmpty(right[b..]);
    if a == |left| && b == |right| {
      value := Lex(left, right);
    } else {
      value := if a == |left| then -1 else 1;
    }
  }

  lemma {:induction false} KeyEmpty(s: Text)
    ensures NaturalKey(s) == [] <==> s == []
  {
  }

  /** The two scans of one number: `zeros` is its first significant digit and
      `end` the first byte after its digits. */
  method SkipNumber(s: Text, begin: nat) returns (zeros: nat, end: nat)
    requires begin < |s| && IsDigit(s[begin])
    ensures begin <= zeros <= end <= |s| && begin < end
    ensures end == begin + DigitRun(s[begin..])
    ensures s[zeros..end] == Significant(s[begin..])
  {
    ghost var run := DigitRun(s[begin..]);
    ghost var digits := s[begin..][..run];
    zeros := begin;
    while zeros < |s| && s[zeros] == 48
      invariant begin <= zeros <= begin + run
      invariant ZeroRun(digits) == zeros - begin + ZeroRun(digits[zeros - begin..])
    {
      assert s[zeros] == s[begin..][zeros - begin];
      assert digits[zeros - begin..][1..] == digits[zeros + 1 - begin..];
      zeros := zeros + 1;
    }
    end := zeros;
    while end < |s| && IsDigit(s[end])
      invariant zeros <= end <= begin + run
    {
      assert s[end] == s[begin..][end - begin];
      end := end + 1;
    }
    assert s[zeros..end] == digits[zeros - begin..];
  }

  // ----- total preorders -----

  /** A three-way comparator whose sign is antisymmetric and transitive. */
  ghost predicate TotalPreorder<T(!new)>(cmp: (T, T) -> int) {
    && (forall a, b :: cmp(a, b) <= 0 <==> cmp(b, a) >= 0)
    && (forall a, b, c {:trigger cmp(a, b), cmp(b, c), cmp(a, c)} :: cmp(a, b) <= 0 && cmp(b, c) <= 0 ==> cmp(a, c) <= 0)
  }

  /** `natural_compare` is a strict total order on names: total, transitive, and
      zero for equal names only. */
  lemma NaturalOrderIsStrictTotal()
    ensures TotalPreorder(NaturalOrder)
    ensures forall a: Text, b: Text :: NaturalOrder(a, b) == 0 <==> a == b
  {
    forall a: Text, b: Text
      ensures NaturalOrder(a, b) == -NaturalOrder(b, a)
      ensures NaturalOrder(a, b) == 0 <==> a == b
    {
      LexAntisymmetric(NaturalKey(a), NaturalKey(b));
      LexAntisymmetric(a, b);
      LexZero(a, b);
      LexZero(NaturalKey(a), NaturalKey(b));
    }
    forall a: Text, b: Text, c: Text | NaturalOrder(a, b) <= 0 && NaturalOrder(b, c) <= 0
      ensures NaturalOrder(a, c) <= 0
    {
      NaturalTransitive(a, b, c);
    }
  }

  lemma {:induction false} NaturalTransitive(a: Text, b: Text, c: Text)
    requires NaturalOrder(a, b) <= 0 && NaturalOrder(b, c) <= 0
    ensures NaturalOrder(a, c) <= 0
  {
    var ka, kb, kc := NaturalKey(a), NaturalKey(b), NaturalKey(c);
    LexTransitive(ka, kb, kc);
    if Lex(ka, kc) == 0 {
      LexZero(ka, kc);
      LexAntisymmetric(ka, kb);
      LexTransitive(a, b, c);
    }
  }

  // ----- directory records -----

  datatype SortKey = SortName | SortSize | SortTime | SortNone | SortNatural

  /** Which of the three file times a listing shows. */
  datatype TimeField = Access | Change | Modification

  datatype Timestamp = Timestamp(seconds: int, nanoseconds: int)

  datatype Record = Record(
    name: Text, size: int, sequence: nat,
    access: Timestamp, change: Timestamp, modification: Timestamp)

  /** `collate` stands for the locale's `strcoll`. */
  datatype Options = Options(sort: SortKey, time: TimeField, reverse: bool, collate: (Text, Text) -> int)

  function RecordTime(record: Record, time: TimeField): Timestamp {
    match time
    case Access => record.access
    case Change => record.change
    case Modification => record.modification
  }

  function Sign(a: int, b: int): int {
    if a < b then -1 else if a > b then 1 else 0
  }

  /** What the sort option itself compares; zero leaves the decision to the name. */
  function PrimaryOrder(left: Record, right: Record, options: Options): int {
    match options.sort
    case SortNone => Sign(left.sequence, right.sequence)
    case SortSize => Sign(right.size, left.size)
    case SortTime =>
      var a, b := RecordTime(left, options.time), RecordTime(right, options.time);
      if a.seconds != b.seconds then Sign(b.seconds, a.seconds)
      else Sign(b.nanoseconds, a.nanoseconds)
    case _ => 0
  }

  function NameOrder(left: Text, right: Text, options: Options): int {
    var value := if options.sort == SortNatural then NaturalOrder(left, right)
                 else options.collate(left, right);
    if value == 0 then Lex(left, right) else value
  }

  /** `record_compare`. */
  function RecordOrder(left: Record, right: Record, options: Options): int {
    var primary := PrimaryOrder(left, right, options);
    var value := if primary != 0 then primary else NameOrder(left.name, right.name, options);
    if options.reverse then -value else value
  }

  /** `record_compare` under fixed options, as a comparator. */
  function Comparator(options: Options): (Record, Record) -> int {
    (left, right) => RecordOrder(left, right, options)
  }

  lemma NameOrderIsTotal(a: Text, b: Text, c: Text, options: Options)
    requires TotalPreorder(options.collate)
    ensures NameOrder(a, b, options) <= 0 <==> NameOrder(b, a, options) >= 0
    ensures NameOrder(a, b, options) <= 0 && NameOrder(b, c, options) <= 0 ==> NameOrder(a, c, options) <= 0
    ensures NameOrder(a, b, options) == 0 <==> a == b
  {
    NaturalOrderIsStrictTotal();
    LexAntisymmetric(a, b);
    LexZero(a, b);
    if options.sort != SortNatural && NameOrder(a, b, options) <= 0 && NameOrder(b, c, options) <= 0 {
      var f := options.collate;
      assert f(a, b) <= 0 && f(b, c) <= 0;
      assert f(a, c) <= 0;
      if f(a, c) == 0 {
        assert f(c, a) <= 0;
        assert f(b, a) <= 0 && f(c, b) <= 0;
        LexTransitive(a, b, c);
      }
    }
  }

  lemma ForwardTransitive(a: Record, b: Record, c: Record, options: Options)
    requires TotalPreorder(options.collate) && !options.reverse
    requires RecordOrder(a, b, options) <= 0 && RecordOrder(b, c, options) <= 0
    ensures RecordOrder(a, c, options) <= 0
  {
    NameOrderIsTotal(a.name, b.name, c.name, options);
    NameOrderIsTotal(b.name, c.name, a.name, options);
    NameOrderIsTotal(c.name, a.name, b.name, options);
  }

  /** Every sort mode, reversed or not, is a total preorder, and two records
      compare equal exactly when the option and the name cannot tell them apart. */
  lemma RecordOrderIsTotal(options: Options)
    requires TotalPreorder(options.collate)
    ensures TotalPreorder(Comparator(options))
    ensures forall l: Record, r: Record ::
      RecordOrder(l, r, options) == 0 <==> l.name == r.name && PrimaryOrder(l, r, options) == 0
  {
    forall a: Record, b: Record
      ensures RecordOrder(a, b, options) <= 0 <==> RecordOrder(b, a, options) >= 0
      ensures RecordOrder(a, b, options) == 0 <==> a.name == b.name && PrimaryOrder(a, b, options) == 0
    {
      NameOrderIsTotal(a.name, b.name, a.name, options);
      NameOrderIsTotal(b.name, a.name, b.name, options);
    }
    forall a: Record, b: Record, c: Record | RecordOrder(a, b, options) <= 0 && RecordOrder(b, c, options) <= 0
      ensures RecordOrder(a, c, options) <= 0
    {
      if options.reverse {
        ForwardTransitive(c, b, a, options.(reverse := false));
      } else {
        ForwardTransitive(a, b, c, options);
      }
    }
  }
}
