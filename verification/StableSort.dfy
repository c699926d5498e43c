/** What a stable sort is, and why there is only one answer.  The two sorting
    algorithms of a directory listing are both measured against it. */
module StableSort {
  import opened Bytes
  import opened Ordering

  ghost predicate Sorted<T>(cmp: (T, T) -> int, s: seq<T>) {
    forall i, j :: 0 <= i < j < |s| ==> cmp(s[i], s[j]) <= 0
  }

  /** The elements of `s` that compare equal to `g`, in their order in `s`. */
  function Peers<T>(cmp: (T, T) -> int, g: T, s: seq<T>): seq<T> {
    if s == [] then []
    else (if cmp(g, s[0]) == 0 then [s[0]] else []) + Peers(cmp, g, s[1..])
  }

  /** `output` is sorted and keeps equal elements in their `input` order. */
  ghost predicate IsStableSort<T(!new)>(cmp: (T, T) -> int, input: seq<T>, output: seq<T>) {
    Sorted(cmp, output) && forall g :: Peers(cmp, g, output) == Peers(cmp, g, input)
  }

  // ----- peers -----

  lemma PeersCons<T>(cmp: (T, T) -> int, g: T, x: T, s: seq<T>)
    ensures Peers(cmp, g, [x] + s) == (if cmp(g, x) == 0 then [x] else []) + Peers(cmp, g, s)
  {
    assert ([x] + s)[1..] == s;
  }

  lemma {:induction false} PeersConcat<T>(cmp: (T, T) -> int, g: T, a: seq<T>, b: seq<T>)
    ensures Peers(cmp, g, a + b) == Peers(cmp, g, a) + Peers(cmp, g, b)
  {
    if a == [] {
      assert a + b == b;
    } else {
      PeersConcat(cmp, g, a[1..], b);
      assert a + b == [a[0]] + (a[1..] + b);
      PeersCons(cmp, g, a[0], a[1..] + b);
    }
  }

  lemma {:induction false} NoPeers<T>(cmp: (T, T) -> int, g: T, s: seq<T>)
    requires forall x :: x in s ==> cmp(g, x) != 0
    ensures Peers(cmp, g, s) == []
  {
    if s != [] {
      NoPeers(cmp, g, s[1..]);
    }
  }

  lemma {:induction false} PeersAreMembers<T>(cmp: (T, T) -> int, g: T, s: seq<T>)
    ensures forall x :: x in Peers(cmp, g, s) ==> x in s && cmp(g, x) == 0
    ensures forall x :: x in s && cmp(g, x) == 0 ==> x in Peers(cmp, g, s)
  {
    if s != [] {
      PeersAreMembers(cmp, g, s[1..]);
    }
  }

  // ----- the answer is unique -----

  /** Two stable sorts of one input are one sequence. */
  lemma {:induction false} StableSortUnique<T(!new)>(cmp: (T, T) -> int, input: seq<T>, a: seq<T>, b: seq<T>)
    requires TotalPreorder(cmp)
    requires IsStableSort(cmp, input, a) && IsStableSort(cmp, input, b)
    ensures a == b
  {
    SamePeersSame(cmp, a, b);
  }

  lemma HeadIsPeer<T(!new)>(cmp: (T, T) -> int, s: seq<T>)
    requires TotalPreorder(cmp)
    ensures s != [] ==> Peers(cmp, s[0], s) != []
  {
    assert s != [] ==> cmp(s[0], s[0]) == 0;
  }

  lemma {:induction false} SamePeersSame<T(!new)>(cmp: (T, T) -> int, a: seq<T>, b: seq<T>)
    requires TotalPreorder(cmp)
    requires Sorted(cmp, a) && Sorted(cmp, b)
    requires forall g :: Peers(cmp, g, a) == Peers(cmp, g, b)
    ensures a == b
    decreases |a|
  {
    if a == [] || b == [] {
      HeadIsPeer(cmp, a);
      HeadIsPeer(cmp, b);
    } else {
      assert cmp(a[0], a[0]) == 0 && cmp(b[0], b[0]) == 0;
      HeadBelow(cmp, a, b);
      HeadBelow(cmp, b, a);
      assert Peers(cmp, a[0], a)[0] == a[0] && Peers(cmp, a[0], b)[0] == b[0];
      forall g ensures Peers(cmp, g, a[1..]) == Peers(cmp, g, b[1..]) {
        var head := if cmp(g, a[0]) == 0 then [a[0]] else [];
        assert Peers(cmp, g, a) == head + Peers(cmp, g, a[1..]);
        assert Peers(cmp, g, b) == head + Peers(cmp, g, b[1..]);
        assert Peers(cmp, g, a)[|head|..] == Peers(cmp, g, a[1..]);
        assert Peers(cmp, g, b)[|head|..] == Peers(cmp, g, b[1..]);
      }
      SamePeersSame(cmp, a[1..], b[1..]);
      assert a == [a[0]] + a[1..] && b == [b[0]] + b[1..];
    }
  }

  lemma HeadBelow<T(!new)>(cmp: (T, T) -> int, a: seq<T>, b: seq<T>)
    requires TotalPreorder(cmp) && Sorted(cmp, a)
    requires a != [] && b != []
    requires forall g :: Peers(cmp, g, a) == Peers(cmp, g, b)
    ensures cmp(a[0], b[0]) <= 0
  {
    assert cmp(b[0], b[0]) == 0;
    PeersAreMembers(cmp, b[0], b);
    PeersAreMembers(cmp, b[0], a);
    assert b[0] in Peers(cmp, b[0], a);
    var k :| 0 <= k < |a| && a[k] == b[0];
    assert cmp(a[0], a[0]) == 0;
  }

  /** A stable sort is a permutation of its input. */
  lemma StableSortPermutes<T(!new)>(cmp: (T, T) -> int, input: seq<T>, output: seq<T>)
    requires TotalPreorder(cmp)
    requires IsStableSort(cmp, input, output)
    ensures multiset(output) == multiset(input)
  {
    forall x ensures multiset(output)[x] == multiset(input)[x] {
      assert cmp(x, x) == 0;
      PeersCount(cmp, x, output);
      PeersCount(cmp, x, input);
      assert Peers(cmp, x, output) == Peers(cmp, x, input);
    }
  }

  lemma {:induction false} PeersCount<T>(cmp: (T, T) -> int, x: T, s: seq<T>)
    requires cmp(x, x) == 0
    ensures multiset(s)[x] == multiset(Peers(cmp, x, s))[x]
  {
    if s != [] {
      PeersCount(cmp, x, s[1..]);
      assert s == [s[0]] + s[1..];
    }
  }

  // ----- insertion sort -----

  /** Insert `x` into `s`, looking from the right for the first element that
      does not exceed it. */
  function Insert<T>(cmp: (T, T) -> int, s: seq<T>, x: T): (r: seq<T>)
    ensures |r| == |s| + 1
  {
    if s == [] || cmp(x, s[|s| - 1]) >= 0 then s + [x]
    else Insert(cmp, s[..|s| - 1], x) + [s[|s| - 1]]
  }

  function InsertionSort<T>(cmp: (T, T) -> int, s: seq<T>): (r: seq<T>)
    ensures |r| == |s|
  {
    if s == [] then []
    else Insert(cmp, InsertionSort(cmp, s[..|s| - 1]), s[|s| - 1])
  }

  lemma {:induction false} InsertKeepsSorted<T(!new)>(cmp: (T, T) -> int, s: seq<T>, x: T)
    requires TotalPreorder(cmp) && Sorted(cmp, s)
    ensures Sorted(cmp, Insert(cmp, s, x))
    ensures forall y :: y in Insert(cmp, s, x) <==> y in s || y == x
  {
    if s != [] && cmp(x, s[|s| - 1]) < 0 {
      var front, last := s[..|s| - 1], s[|s| - 1];
      InsertKeepsSorted(cmp, front, x);
      assert s == front + [last];
      assert forall y :: y in front ==> cmp(y, last) <= 0;
    } else if s != [] {
      assert cmp(s[|s| - 1], x) <= 0;
      assert cmp(s[|s| - 1], s[|s| - 1]) == 0;
    }
  }

  lemma {:induction false} InsertKeepsPeers<T(!new)>(cmp: (T, T) -> int, s: seq<T>, x: T, g: T)
    requires TotalPreorder(cmp) && Sorted(cmp, s)
    ensures Peers(cmp, g, Insert(cmp, s, x)) == Peers(cmp, g, s + [x])
  {
    if s != [] && cmp(x, s[|s| - 1]) < 0 {
      var front, last := s[..|s| - 1], s[|s| - 1];
      InsertKeepsPeers(cmp, front, x, g);
      PeersConcat(cmp, g, Insert(cmp, front, x), [last]);
      PeersConcat(cmp, g, front, [x]);
      assert s + [x] == front + [last] + [x];
      PeersConcat(cmp, g, front + [last], [x]);
      PeersConcat(cmp, g, front, [last]);
      assert cmp(g, x) == 0 ==> cmp(g, last) != 0;
    }
  }

  lemma {:induction false} InsertionSortIsStable<T(!new)>(cmp: (T, T) -> int, s: seq<T>)
    requires TotalPreorder(cmp)
    ensures IsStableSort(cmp, s, InsertionSort(cmp, s))
  {
    if s != [] {
      var front, last := s[..|s| - 1], s[|s| - 1];
      InsertionSortIsStable(cmp, front);
      InsertKeepsSorted(cmp, InsertionSort(cmp, front), last);
      forall g ensures Peers(cmp, g, InsertionSort(cmp, s)) == Peers(cmp, g, s) {
        InsertKeepsPeers(cmp, InsertionSort(cmp, front), last, g);
        PeersConcat(cmp, g, InsertionSort(cmp, front), [last]);
        PeersConcat(cmp, g, front, [last]);
        assert s == front + [last];
      }
    }
  }

  // ----- merging -----

  /** Merge two runs, the left one first among equals. */
  function Merge<T>(cmp: (T, T) -> int, l: seq<T>, r: seq<T>): (m: seq<T>)
    ensures |m| == |l| + |r|
  {
    if l == [] then r
    else if r == [] then l
    else if cmp(l[0], r[0]) <= 0 then [l[0]] + Merge(cmp, l[1..], r)
    else [r[0]] + Merge(cmp, l, r[1..])
  }

  lemma {:induction false} MergeMembers<T>(cmp: (T, T) -> int, l: seq<T>, r: seq<T>)
    ensures forall y :: y in Merge(cmp, l, r) <==> y in l || y in r
    decreases |l| + |r|
  {
    if l != [] && r != [] {
      if cmp(l[0], r[0]) <= 0 {
        MergeMembers(cmp, l[1..], r);
      } else {
        MergeMembers(cmp, l, r[1..]);
      }
    }
  }

  lemma {:induction false} MergeSorted<T(!new)>(cmp: (T, T) -> int, l: seq<T>, r: seq<T>)
    requires TotalPreorder(cmp) && Sorted(cmp, l) && Sorted(cmp, r)
    ensures Sorted(cmp, Merge(cmp, l, r))
    decreases |l| + |r|
  {
    if l != [] && r != [] {
      if cmp(l[0], r[0]) <= 0 {
        MergeMembers(cmp, l[1..], r);
        MergeSorted(cmp, l[1..], r);
        BelowAll(cmp, l[0], r);
        BelowAll(cmp, l[0], l[1..]);
        PrependSorted(cmp, l[0], Merge(cmp, l[1..], r));
      } else {
        MergeMembers(cmp, l, r[1..]);
        MergeSorted(cmp, l, r[1..]);
        BelowAll(cmp, r[0], l);
        BelowAll(cmp, r[0], r[1..]);
        PrependSorted(cmp, r[0], Merge(cmp, l, r[1..]));
      }
    }
  }

  lemma AboveIsNoPeer<T(!new)>(cmp: (T, T) -> int, g: T, low: T, above: T, x: T)
    requires TotalPreorder(cmp)
    requires cmp(g, low) == 0 && cmp(above, low) > 0 && (x == above || cmp(above, x) <= 0)
    ensures cmp(g, x) != 0
  {
    assert cmp(x, low) <= 0 ==> cmp(above, low) <= 0;
    assert cmp(x, g) <= 0 && cmp(g, low) <= 0 ==> cmp(x, low) <= 0;
  }

  lemma PrependSorted<T>(cmp: (T, T) -> int, x: T, s: seq<T>)
    requires Sorted(cmp, s)
    requires forall y :: y in s ==> cmp(x, y) <= 0
    ensures Sorted(cmp, [x] + s)
  {
  }

  lemma BelowAll<T(!new)>(cmp: (T, T) -> int, x: T, s: seq<T>)
    requires TotalPreorder(cmp) && Sorted(cmp, s)
    requires s != [] ==> cmp(x, s[0]) <= 0
    ensures forall y :: y in s ==> cmp(x, y) <= 0
  {
    forall k | 0 <= k < |s| ensures cmp(x, s[k]) <= 0 {
      assert k > 0 ==> cmp(s[0], s[k]) <= 0;
    }
  }

  lemma NoPeersAbove<T(!new)>(cmp: (T, T) -> int, g: T, low: T, s: seq<T>)
    requires TotalPreorder(cmp) && Sorted(cmp, s)
    requires s != [] && cmp(g, low) == 0 && cmp(s[0], low) > 0
    ensures Peers(cmp, g, s) == []
  {
    hide Ordering.TotalPreorder, Peers;
    forall x | x in s ensures cmp(g, x) != 0 {
      assert x == s[0] || cmp(s[0], x) <= 0;
      AboveIsNoPeer(cmp, g, low, s[0], x);
    }
    NoPeers(cmp, g, s);
  }

  lemma {:induction false} MergePeers<T(!new)>(cmp: (T, T) -> int, l: seq<T>, r: seq<T>, g: T)
    requires TotalPreorder(cmp) && Sorted(cmp, l)
    ensures Peers(cmp, g, Merge(cmp, l, r)) == Peers(cmp, g, l) + Peers(cmp, g, r)
    decreases |l| + |r|
  {
    hide Ordering.TotalPreorder, Peers;
    PeersConcat(cmp, g, l, r);
    if l != [] && r != [] {
      if cmp(l[0], r[0]) <= 0 {
        MergePeers(cmp, l[1..], r, g);
        assert l == [l[0]] + l[1..];
        PeersCons(cmp, g, l[0], l[1..]);
        PeersCons(cmp, g, l[0], Merge(cmp, l[1..], r));
      } else {
        MergePeers(cmp, l, r[1..], g);
        assert r == [r[0]] + r[1..];
        PeersCons(cmp, g, r[0], r[1..]);
        PeersCons(cmp, g, r[0], Merge(cmp, l, r[1..]));
        if cmp(g, r[0]) == 0 {
          NoPeersAbove(cmp, g, r[0], l);
        }
      }
    } else {
      assert Merge(cmp, l, r) == l + r;
    }
  }

  lemma MergeIsStable<T(!new)>(cmp: (T, T) -> int, a: seq<T>, b: seq<T>, l: seq<T>, r: seq<T>)
    requires TotalPreorder(cmp)
    requires IsStableSort(cmp, a, l) && IsStableSort(cmp, b, r)
    ensures IsStableSort(cmp, a + b, Merge(cmp, l, r))
  {
    MergeSorted(cmp, l, r);
    forall g ensures Peers(cmp, g, Merge(cmp, l, r)) == Peers(cmp, g, a + b) {
      MergePeers(cmp, l, r, g);
      PeersConcat(cmp, g, a, b);
    }
  }

  // ----- bottom-up passes -----

  /** One pass over runs of `width`: neighbouring runs are merged pairwise. */
  function MergePass<T>(cmp: (T, T) -> int, s: seq<T>, width: nat): (r: seq<T>)
    requires width > 0
    ensures |r| == |s|
    decreases |s|
  {
    if s == [] then []
    else
      var middle := Min(width, |s|);
      var end := Min(2 * width, |s|);
      Merge(cmp, s[..middle], s[middle..end]) + MergePass(cmp, s[end..], width)
  }

  /** Each run of `width` in `output` stably sorts the same run of `input`. */
  ghost predicate RunsSorted<T(!new)>(cmp: (T, T) -> int, input: seq<T>, output: seq<T>, width: nat)
    requires width > 0
    decreases |input|
  {
    |input| == |output| &&
    (input != [] ==>
      var end := Min(width, |input|);
      IsStableSort(cmp, input[..end], output[..end]) &&
      RunsSorted(cmp, input[end..], output[end..], width))
  }

  lemma {:induction false} SingleRuns<T(!new)>(cmp: (T, T) -> int, s: seq<T>)
    ensures RunsSorted(cmp, s, s, 1)
  {
    if s != [] {
      SingleRuns(cmp, s[1..]);
    }
  }

  lemma {:induction false} PassDoublesRuns<T(!new)>(cmp: (T, T) -> int, input: seq<T>, s: seq<T>, width: nat)
    requires TotalPreorder(cmp) && width > 0
    requires RunsSorted(cmp, input, s, width)
    ensures RunsSorted(cmp, input, MergePass(cmp, s, width), 2 * width)
    decreases |s|
  {
    if s != [] {
      var middle, end := Min(width, |s|), Min(2 * width, |s|);
      var merged := Merge(cmp, s[..middle], s[middle..end]);
      var rest, tail := s[middle..], input[middle..];
      if end > middle {
        assert rest[..end - middle] == s[middle..end] && tail[..end - middle] == input[middle..end];
        assert rest[end - middle..] == s[end..] && tail[end - middle..] == input[end..];
      } else {
        assert s[middle..end] == [] == input[middle..end];
        assert IsStableSort(cmp, input[middle..end], s[middle..end]);
      }
      assert RunsSorted(cmp, input[end..], s[end..], width);
      assert input[..middle] + input[middle..end] == input[..end];
      MergeIsStable(cmp, input[..middle], input[middle..end], s[..middle], s[middle..end]);
      PassDoublesRuns(cmp, input[end..], s[end..], width);
      var pass := MergePass(cmp, s, width);
      assert pass[..end] == merged && pass[end..] == MergePass(cmp, s[end..], width);
    }
  }

  lemma OneRunIsSorted<T(!new)>(cmp: (T, T) -> int, input: seq<T>, s: seq<T>, width: nat)
    requires width > 0 && RunsSorted(cmp, input, s, width) && |input| <= width
    ensures IsStableSort(cmp, input, s)
  {
    if input != [] {
      assert input[..|input|] == input && s[..|input|] == s;
    }
  }

  /** The end of a bottom-up sort is the insertion sort's answer. */
  lemma BottomUpAgrees<T(!new)>(cmp: (T, T) -> int, input: seq<T>, s: seq<T>, width: nat)
    requires TotalPreorder(cmp)
    requires width > 0 && RunsSorted(cmp, input, s, width) && |input| <= width
    ensures s == InsertionSort(cmp, input)
  {
    OneRunIsSorted(cmp, input, s, width);
    InsertionSortIsStable(cmp, input);
    StableSortUnique(cmp, input, s, InsertionSort(cmp, input));
  }
}
