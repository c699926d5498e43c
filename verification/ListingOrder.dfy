/** Which of two neighbours in a listing comes first: larger files, newer files, earlier
    entries, smaller names, and numbers inside natural names by their value. */
module ListingOrder {
  import opened Bytes
  import opened Ordering
  import opened StableSort

  // ----- byte order -----

  /** At the first difference `a` has the smaller byte, or it has ended. */
  ghost predicate Precedes(a: seq<int>, b: seq<int>) {
    exists k :: 0 <= k <= |a| && k < |b| && a[..k] == b[..k] && (k == |a| || a[k] < b[k])
  }

  lemma {:induction false} LexIsFirstDifference(a: seq<int>, b: seq<int>)
    ensures Lex(a, b) < 0 <==> Precedes(a, b)
    ensures Lex(a, b) > 0 <==> Precedes(b, a)
  {
    LexAntisymmetric(a, b);
    LexIsBefore(a, b);
    LexIsBefore(b, a);
  }

  lemma {:induction false} LexIsBefore(a: seq<int>, b: seq<int>)
    ensures Lex(a, b) < 0 <==> Precedes(a, b)
  {
    if b == [] {
    } else if a == [] || a[0] < b[0] {
      assert a[..0] == b[..0];
    } else if a[0] == b[0] {
      LexIsBefore(a[1..], b[1..]);
      if Precedes(a[1..], b[1..]) {
        var k :| 0 <= k <= |a| - 1 && k < |b| - 1 && a[1..][..k] == b[1..][..k] && (k == |a| - 1 || a[1..][k] < b[1..][k]);
        assert a[..k + 1] == [a[0]] + a[1..][..k] && b[..k + 1] == [b[0]] + b[1..][..k];
      }
      if Precedes(a, b) {
        var k :| 0 <= k <= |a| && k < |b| && a[..k] == b[..k] && (k == |a| || a[k] < b[k]);
        assert k > 0;
        assert a[1..][..k - 1] == a[..k][1..] && b[1..][..k - 1] == b[..k][1..];
      }
    } else {
      forall k | 0 <= k <= |a| && k < |b| && a[..k] == b[..k] ensures k == 0 {
        if k > 0 {
          HeadsAgree(a, b, k);
        }
      }
    }
  }

  lemma HeadsAgree(a: seq<int>, b: seq<int>, k: nat)
    requires 0 < k <= |a| && k <= |b| && a[..k] == b[..k]
    ensures a[0] == b[0]
  {
    assert a[..k][0] == a[0] && b[..k][0] == b[0];
  }

  // ----- numbers in natural names -----

  predicate Digits(d: Text) {
    forall k :: 0 <= k < |d| ==> IsDigit(d[k])
  }

  /** The decimal value. */
  function Number(d: Text): nat
    requires Digits(d)
  {
    if d == [] then 0 else Number(d[..|d| - 1]) * 10 + (d[|d| - 1] - 48)
  }

  function PowerOfTen(n: nat): (p: nat)
    ensures p > 0
  {
    if n == 0 then 1 else 10 * PowerOfTen(n - 1)
  }

  /** The leading digit counts by its place, and the rest stays below it. */
  lemma {:induction false} NumberByPlace(d: Text)
    requires d != [] && Digits(d)
    ensures Number(d) == (d[0] - 48) * PowerOfTen(|d| - 1) + Number(d[1..])
    ensures Number(d) < PowerOfTen(|d|)
  {
    var front, tail := d[..|d| - 1], d[1..];
    if |d| == 1 {
      assert front == [] && tail == [];
    } else {
      NumberByPlace(front);
      assert front[1..] == tail[..|tail| - 1] && front[0] == d[0] && tail[|tail| - 1] == d[|d| - 1];
      Distribute(d[0] - 48, PowerOfTen(|front| - 1), Number(front[1..]), d[|d| - 1] - 48);
    }
  }

  lemma Distribute(lead: nat, p: nat, x: nat, y: nat)
    ensures (lead * p + x) * 10 + y == lead * (10 * p) + (x * 10 + y)
  {
  }

  lemma {:induction false} SameLengthByValue(a: Text, b: Text)
    requires |a| == |b| && Digits(a) && Digits(b)
    ensures Lex(a, b) == Sign(Number(a), Number(b))
  {
    if a != [] {
      NumberByPlace(a);
      NumberByPlace(b);
      var p := PowerOfTen(|a| - 1);
      RestBelow(a[1..]);
      RestBelow(b[1..]);
      if a[0] < b[0] {
        Scaled(a[0] - 48, b[0] - 48, p);
      } else if a[0] > b[0] {
        Scaled(b[0] - 48, a[0] - 48, p);
      } else {
        SameLengthByValue(a[1..], b[1..]);
      }
    }
  }

  lemma RestBelow(d: Text)
    requires Digits(d)
    ensures Number(d) < PowerOfTen(|d|)
  {
    if d != [] {
      NumberByPlace(d);
    }
  }

  lemma Scaled(x: nat, y: nat, p: nat)
    requires x < y
    ensures x * p + p <= y * p
  {
    assert (x + 1) * p <= y * p;
  }

  lemma {:induction false} PowersGrow(m: nat, n: nat)
    requires m <= n
    ensures PowerOfTen(m) <= PowerOfTen(n)
    decreases n - m
  {
    if m < n {
      PowersGrow(m, n - 1);
    }
  }

  /** Of two numbers without leading zeros the one with fewer digits is smaller. */
  lemma ShorterIsSmaller(a: Text, b: Text)
    requires Digits(a) && Digits(b) && |a| < |b| && b[0] != 48
    ensures Number(a) < Number(b)
  {
    RestBelow(a);
    NumberByPlace(b);
    PowersGrow(|a|, |b| - 1);
    Scaled(0, b[0] - 48, PowerOfTen(|b| - 1));
  }

  lemma {:induction false} LeadingZeros(d: Text)
    requires Digits(d)
    ensures ZeroRun(d) <= |d| && Digits(d[ZeroRun(d)..]) && Number(d[ZeroRun(d)..]) == Number(d)
    decreases |d|
  {
    if d == [] || d[0] != 48 {
      assert d[0..] == d;
    } else {
      LeadingZeros(d[1..]);
      NumberByPlace(d);
      assert d[1..][ZeroRun(d[1..])..] == d[ZeroRun(d)..];
    }
  }

  /** A digit run behind which no digit follows is the run the key is made of. */
  lemma {:induction false} WholeRun(d: Text, tail: Text)
    requires Digits(d) && (tail != [] ==> !IsDigit(tail[0]))
    ensures DigitRun(d + tail) == |d|
  {
    if d == [] {
      assert d + tail == tail;
    } else {
      assert (d + tail)[1..] == d[1..] + tail && (d + tail)[0] == d[0];
      WholeRun(d[1..], tail);
    }
  }

  lemma SignificantOf(d: Text, tail: Text)
    requires Digits(d) && (tail != [] ==> !IsDigit(tail[0]))
    ensures var s := Significant(d + tail); Digits(s) && Number(s) == Number(d) && (s != [] ==> s[0] != 48)
  {
    WholeRun(d, tail);
    assert (d + tail)[..|d|] == d;
    LeadingZeros(d);
  }

  /** Digit runs compare by their values, whatever their leading zeros, and what follows
      them decides between equal values. */
  lemma NumbersCompareByValue(d: Text, e: Text, s: Text, t: Text)
    requires Digits(d) && Digits(e) && d != [] && e != []
    requires (s != [] ==> !IsDigit(s[0])) && (t != [] ==> !IsDigit(t[0]))
    ensures Lex(NaturalKey(d + s), NaturalKey(e + t)) ==
      if Number(d) != Number(e) then Sign(Number(d), Number(e)) else Lex(NaturalKey(s), NaturalKey(t))
  {
    NumberStep(d + s, e + t);
    WholeRun(d, s);
    WholeRun(e, t);
    assert (d + s)[|d|..] == s && (e + t)[|e|..] == t;
    SignificantOf(d, s);
    SignificantOf(e, t);
    var x, y := Significant(d + s), Significant(e + t);
    hide NaturalKey, Significant, DigitRun, Lex, Number;
    if |x| < |y| {
      ShorterIsSmaller(x, y);
    } else if |x| > |y| {
      ShorterIsSmaller(y, x);
    } else {
      SameLengthByValue(x, y);
    }
  }

  /** A common beginning that does not end inside a number plays no part. */
  lemma {:induction false} CommonPrefix(p: Text, a: Text, b: Text)
    requires p == [] || !IsDigit(p[|p| - 1])
    ensures Lex(NaturalKey(p + a), NaturalKey(p + b)) == Lex(NaturalKey(a), NaturalKey(b))
    decreases |p|
  {
    if p == [] {
      assert p + a == a && p + b == b;
    } else if !IsDigit(p[0]) {
      assert (p + a)[1..] == p[1..] + a && (p + b)[1..] == p[1..] + b;
      ByteStep(p + a, p + b);
      CommonPrefix(p[1..], a, b);
    } else {
      var run := DigitRun(p);
      RunInside(p, a);
      RunInside(p, b);
      NumberStep(p + a, p + b);
      assert (p + a)[..run] == p[..run] == (p + b)[..run];
      assert (p + a)[run..] == p[run..] + a && (p + b)[run..] == p[run..] + b;
      LexZero(Significant(p + a), Significant(p + b));
      CommonPrefix(p[run..], a, b);
    }
  }

  lemma {:induction false} RunInside(p: Text, a: Text)
    requires p != [] && !IsDigit(p[|p| - 1])
    ensures DigitRun(p + a) == DigitRun(p) < |p|
  {
    assert (p + a)[0] == p[0];
    if IsDigit(p[0]) {
      assert (p + a)[1..] == p[1..] + a;
      RunInside(p[1..], a);
    }
  }

  /** Natural names that agree up to a number are in the order of its value. */
  lemma NaturalByValue(p: Text, d: Text, e: Text, s: Text, t: Text)
    requires p == [] || !IsDigit(p[|p| - 1])
    requires Digits(d) && Digits(e) && d != [] && e != [] && Number(d) != Number(e)
    requires (s != [] ==> !IsDigit(s[0])) && (t != [] ==> !IsDigit(t[0]))
    ensures NaturalOrder(p + d + s, p + e + t) == Sign(Number(d), Number(e))
  {
    hide Lex, NaturalKey, Number;
    Regroup(p, d, s);
    Regroup(p, e, t);
    CommonPrefix(p, d + s, e + t);
    NumbersCompareByValue(d, e, s, t);
  }

  // ----- the listing -----

  function ShownTime(r: Record, options: Options): Timestamp {
    if options.time.Access? then r.access else if options.time.Change? then r.change else r.modification
  }

  predicate Newer(a: Timestamp, b: Timestamp) {
    a.seconds > b.seconds || (a.seconds == b.seconds && a.nanoseconds > b.nanoseconds)
  }

  /** By name: in natural order or the locale's, names equal there by their bytes. */
  predicate NameUpTo(a: Text, b: Text, options: Options) {
    var value := if options.sort == SortNatural then NaturalOrder(a, b) else options.collate(a, b);
    value < 0 || (value == 0 && (a == b || Lex(a, b) < 0))
  }

  /** `a` may be listed before `b`: the larger, newer or earlier one goes first, and the
      name decides between equals. */
  predicate ListedUpTo(a: Record, b: Record, options: Options) {
    match options.sort
    case SortSize => a.size > b.size || (a.size == b.size && NameUpTo(a.name, b.name, options))
    case SortTime =>
      var s, t := ShownTime(a, options), ShownTime(b, options);
      Newer(s, t) || (s == t && NameUpTo(a.name, b.name, options))
    case SortNone => a.sequence < b.sequence || (a.sequence == b.sequence && NameUpTo(a.name, b.name, options))
    case _ => NameUpTo(a.name, b.name, options)
  }

  lemma RecordOrderIsListed(a: Record, b: Record, options: Options)
    requires TotalPreorder(options.collate)
    ensures RecordOrder(a, b, options) <= 0 <==>
      if options.reverse then ListedUpTo(b, a, options) else ListedUpTo(a, b, options)
  {
    LexZero(a.name, b.name);
    LexAntisymmetric(a.name, b.name);
    NaturalOrderIsStrictTotal();
    NameOrderIsTotal(a.name, b.name, a.name, options);
    hide Lex, NaturalOrder;
  }

  /** In the listing any earlier record may be listed before any later one, and with
      `reverse` it is the other way round. */
  lemma ListingIsOrdered(records: seq<Record>, options: Options)
    requires TotalPreorder(options.collate)
    ensures var s := InsertionSort(Comparator(options), records);
      forall i, j :: 0 <= i < j < |s| ==>
        if options.reverse then ListedUpTo(s[j], s[i], options) else ListedUpTo(s[i], s[j], options)
  {
    var cmp := Comparator(options);
    RecordOrderIsTotal(options);
    InsertionSortIsStable(cmp, records);
    var s := InsertionSort(cmp, records);
    hide RecordOrder, ListedUpTo, InsertionSort, Peers;
    forall i, j | 0 <= i < j < |s|
      ensures if options.reverse then ListedUpTo(s[j], s[i], options) else ListedUpTo(s[i], s[j], options)
    {
      assert cmp(s[i], s[j]) <= 0;
      RecordOrderIsListed(s[i], s[j], options);
    }
  }
}
