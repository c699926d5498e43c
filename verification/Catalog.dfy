/** The catalogue behind a directory listing: records stay in memory up to a
    bound and are then spilled to one of two spool files.  The two spools are
    sequences of records; writing at the end of a file extends it. */
module Catalog {
  import opened Bytes
  import opened Ordering
  import opened StableSort

  const MEMORY_CAP: nat := 384
  const ENTRY_CAP: nat := 65536
  const SEARCH_CAP: nat := 32

  const BLANK := Record([], 0, 0, Timestamp(0, 0), Timestamp(0, 0), Timestamp(0, 0))

  class FileCatalog {
    var memory: array<Record>
    var count: nat
    var spool: (seq<Record>, seq<Record>)
    var spilled: bool

    ghost predicate Valid()
      reads this
    {
      && memory.Length == MEMORY_CAP
      && count <= ENTRY_CAP
      && (if spilled then |spool.0| == count else count <= MEMORY_CAP)
    }

    /** The records of the listing, wherever they are stored. */
    ghost function Records(): (s: seq<Record>)
      reads this, memory
      requires Valid()
      ensures |s| == count
    {
      if spilled then spool.0 else memory[..count]
    }

    constructor ()
      ensures Valid() && Records() == [] && !spilled && fresh(memory)
    {
      memory := new Record[MEMORY_CAP](_ => BLANK);
      count, spool, spilled := 0, ([], []), false;
    }

    /** Copy memory to the first spool. */
    method Spill()
      requires Valid()
      modifies this
      ensures Valid() && spilled && memory == old(memory)
      ensures Records() == old(Records())
    {
      if spilled {
        return;
      }
      var file: seq<Record> := [];
      for index := 0 to count
        invariant file == memory[..index]
        invariant memory == old(memory) && count == old(count) && !spilled
      {
        file := file + [memory[index]];
      }
      spool := (file, []);
      spilled := true;
    }

    method Add(record: Record) returns (ok: bool)
      requires Valid()
      modifies this, memory
      ensures Valid() && memory == old(memory)
      ensures ok <==> old(count) < ENTRY_CAP
      ensures Records() == if ok then old(Records()) + [record] else old(Records())
    {
      if count >= ENTRY_CAP {
        return false;
      }
      if !spilled && count < MEMORY_CAP {
        memory[count] := record;
        count := count + 1;
        assert memory[..count - 1] == old(memory[..count]);
        return true;
      }
      Spill();
      spool := (spool.0 + [record], spool.1);
      count := count + 1;
      return true;
    }

    /** The in-memory insertion sort. */
    method SortMemory(options: Options)
      requires Valid() && !spilled
      modifies memory
      ensures Records() == InsertionSort(Comparator(options), old(Records()))
    {
      hide StableSort.InsertionSort, StableSort.Insert;
      ghost var cmp := Comparator(options);
      ghost var input := memory[..count];
      SortShort(cmp, input);
      var index := 1;
      while index < count
        invariant 0 < index && (index <= count || count == 0)
        invariant index < count ==> memory[index..count] == input[index..]
        invariant index <= count ==> memory[..index] == InsertionSort(cmp, input[..index])
      {
        SortStep(cmp, input, index);
        assert memory[index] == memory[index..count][0] && input[index] == input[index..][0];
        assert memory[index + 1..count] == memory[index..count][1..];
        InsertAt(memory, index, options);
        assert memory[index + 1..count] == memory[index + 1..][..count - index - 1];
        index := index + 1;
      }
      assert input[..count] == input;
    }

    /** Bottom-up merge sort between the two spools. */
    method SortSpool(options: Options)
      requires Valid() && spilled
      requires TotalPreorder(options.collate)
      modifies this
      ensures Valid() && spilled && memory == old(memory)
      ensures Records() == InsertionSort(Comparator(options), old(Records()))
    {
      ghost var cmp := Comparator(options);
      RecordOrderIsTotal(options);
      ghost var input := spool.0;
      SingleRuns(cmp, input);
      var source, destination, width := spool.0, spool.1, 1;
      while width < count
        invariant width > 0 && |source| == count
        invariant RunsSorted(cmp, input, source, width)
        invariant count == old(count) && memory == old(memory) && spilled
        decreases count - width
      {
        PassDoublesRuns(cmp, input, source, width);
        destination := MergeRuns(source, width, options);
        source, destination := destination, source;
        width := width * 2;
      }
      BottomUpAgrees(cmp, input, source, width);
      spool := (source, destination);
    }

    /** Whichever sort runs, the listing is the same function of its records. */
    method Sort(options: Options)
      requires Valid()
      requires TotalPreorder(options.collate)
      modifies this, memory
      ensures Valid() && memory == old(memory) && spilled == old(spilled)
      ensures Records() == InsertionSort(Comparator(options), old(Records()))
    {
      if spilled {
        SortSpool(options);
      } else {
        SortMemory(options);
      }
    }

    method Get(index: nat) returns (record: Option<Record>)
      requires Valid()
      ensures record == if index < count then Some(Records()[index]) else None
    {
      if index >= count {
        return None;
      }
      record := Some(if spilled then spool.0[index] else memory[index]);
    }

    /** Binary search by name; `Overflow` is the search's own turn limit. */
    method FindName(name: Text, options: Options) returns (r: SearchResult)
      requires Valid()
      requires TotalPreorder(options.collate) && options.sort != SortNatural
      requires SortedByName(Records(), options)
      ensures r != Overflow
      ensures r.Found? ==> r.index < count && Records()[r.index].name == name
      ensures r == Missing <==> forall k :: 0 <= k < count ==> Records()[k].name != name
    {
      hide Power, Ordering.NameOrder, Ordering.TotalPreorder, SortedByName;
      ghost var records := Records();
      var lower, upper, turn := 0, count, 0;
      ghost var budget := ENTRY_CAP;
      PowerZero();
      while turn < SEARCH_CAP && lower < upper
        invariant 0 <= lower <= upper <= count && turn <= SEARCH_CAP
        invariant upper - lower <= budget && budget * Power(turn) <= ENTRY_CAP
        invariant Outside(records, lower, upper, name, options)
      {
        var middle := lower + (upper - lower) / 2;
        var record := Get(middle);
        var comparison := NameOrder(record.value.name, name, options);
        NameOrderIsTotal(record.value.name, name, name, options);
        if comparison == 0 {
          return Found(middle);
        }
        Narrow(records, lower, upper, middle, name, options);
        PowerHalf(budget, turn);
        if comparison < 0 {
          lower := middle + 1;
        } else {
          upper := middle;
        }
        budget, turn := budget / 2, turn + 1;
      }
      PowerLarge(turn, budget);
      NothingInside(records, upper, name, options);
      return if lower < upper then Overflow else Missing;
    }
  }

  datatype SearchResult = Found(index: nat) | Missing | Overflow

  /** Ascending by `strcoll` with the byte order as tie-break. */
  ghost predicate SortedByName(s: seq<Record>, options: Options) {
    forall i, j :: 0 <= i < j < |s| ==> NameOrder(s[i].name, s[j].name, options) <= 0
  }

  /** Names before `lower` precede the one looked for, names from `upper` follow it. */
  ghost predicate Outside(s: seq<Record>, lower: nat, upper: nat, name: Text, options: Options) {
    && (forall k :: 0 <= k < lower && k < |s| ==> NameOrder(s[k].name, name, options) < 0)
    && (forall k :: upper <= k < |s| ==> NameOrder(s[k].name, name, options) > 0)
  }

  lemma Narrow(s: seq<Record>, lower: nat, upper: nat, middle: nat, name: Text, options: Options)
    requires TotalPreorder(options.collate) && SortedByName(s, options)
    requires lower <= middle < upper <= |s| && Outside(s, lower, upper, name, options)
    ensures NameOrder(s[middle].name, name, options) < 0 ==> Outside(s, middle + 1, upper, name, options)
    ensures NameOrder(s[middle].name, name, options) > 0 ==> Outside(s, lower, middle, name, options)
  {
    hide Ordering.NameOrder, Ordering.TotalPreorder;
    forall k | 0 <= k < |s|
      ensures k <= middle && NameOrder(s[middle].name, name, options) < 0 ==> NameOrder(s[k].name, name, options) < 0
      ensures k >= middle && NameOrder(s[middle].name, name, options) > 0 ==> NameOrder(s[k].name, name, options) > 0
    {
      OrderedSides(s[k].name, s[middle].name, name, options);
    }
  }

  lemma OrderedSides(a: Text, m: Text, name: Text, options: Options)
    requires TotalPreorder(options.collate)
    ensures (a == m || NameOrder(a, m, options) <= 0) && NameOrder(m, name, options) < 0 ==> NameOrder(a, name, options) < 0
    ensures (a == m || NameOrder(m, a, options) <= 0) && NameOrder(m, name, options) > 0 ==> NameOrder(a, name, options) > 0
  {
    hide Ordering.NameOrder, Ordering.TotalPreorder;
    NameOrderIsTotal(a, m, name, options);
    NameOrderIsTotal(name, m, a, options);
    NameOrderIsTotal(m, name, a, options);
    NameOrderIsTotal(name, a, m, options);
    NameOrderIsTotal(m, a, name, options);
    NameOrderIsTotal(a, name, m, options);
  }

  lemma NothingInside(s: seq<Record>, upper: nat, name: Text, options: Options)
    requires TotalPreorder(options.collate) && upper <= |s|
    ensures Outside(s, upper, upper, name, options) ==> forall k :: 0 <= k < |s| ==> s[k].name != name
  {
    NameOrderIsTotal(name, name, name, options);
  }

  function Power(n: nat): nat {
    if n == 0 then 1 else 2 * Power(n - 1)
  }

  lemma PowerZero()
    ensures Power(0) == 1
  {
  }

  lemma PowerHalf(budget: nat, turn: nat)
    ensures (budget / 2) * Power(turn + 1) <= budget * Power(turn)
  {
    assert (budget / 2) * Power(turn + 1) == (2 * (budget / 2)) * Power(turn);
  }

  lemma {:induction false} PowerLarge(turn: nat, budget: nat)
    requires budget * Power(turn) <= ENTRY_CAP
    ensures turn >= 17 ==> budget == 0
  {
    if turn > 17 {
      PowerHalf(2 * budget, turn - 1);
      assert budget * Power(turn) == (2 * budget) * Power(turn - 1);
      PowerLarge(turn - 1, 2 * budget);
    } else if turn == 17 {
      assert Power(5) == 32 && Power(10) == 32 * Power(5) && Power(15) == 32 * Power(10);
      assert Power(17) == 131072;
    }
  }

  lemma SortShort<T>(cmp: (T, T) -> int, input: seq<T>)
    ensures InsertionSort(cmp, []) == []
    ensures |input| > 0 ==> InsertionSort(cmp, input[..1]) == input[..1]
  {
    if |input| > 0 {
      assert input[..1][..0] == [];
      assert input[..1] == [] + [input[0]];
    }
  }

  lemma SortStep<T>(cmp: (T, T) -> int, input: seq<T>, index: nat)
    requires index < |input|
    ensures InsertionSort(cmp, input[..index + 1]) == Insert(cmp, InsertionSort(cmp, input[..index]), input[index])
  {
    assert input[..index + 1][..index] == input[..index];
  }

  lemma InsertStop<T>(cmp: (T, T) -> int, run: seq<T>, item: T)
    requires run == [] || cmp(item, run[|run| - 1]) >= 0
    ensures Insert(cmp, run, item) == run + [item]
  {
  }

  lemma InsertStep<T>(cmp: (T, T) -> int, run: seq<T>, item: T, position: nat)
    requires 0 < position <= |run| && cmp(item, run[position - 1]) < 0
    ensures Insert(cmp, run[..position], item) + run[position..] ==
            Insert(cmp, run[..position - 1], item) + run[position - 1..]
  {
    assert run[..position][..position - 1] == run[..position - 1];
  }

  /** `s` with the records from `position` to `index` moved up by one. */
  ghost predicate Shifted<T>(s: seq<T>, before: seq<T>, position: nat, index: nat) {
    |s| == |before| && forall k :: 0 <= k < |s| ==> s[k] == before[if position < k <= index then k - 1 else k]
  }

  lemma ShiftStart<T>(before: seq<T>, index: nat)
    ensures Shifted(before, before, index, index)
  {
  }

  lemma ShiftOne<T>(s: seq<T>, before: seq<T>, position: nat, index: nat)
    requires 0 < position <= index < |before| && Shifted(s, before, position, index)
    ensures s[position - 1] == before[..index][position - 1]
    ensures Shifted(s[position := s[position - 1]], before, position - 1, index)
  {
  }

  lemma Assembled<T>(s: seq<T>, before: seq<T>, position: nat, index: nat, item: T)
    requires position <= index < |before| && Shifted(s, before, position, index)
    ensures position > 0 ==> s[position - 1] == before[..index][position - 1]
    ensures s[position := item][index + 1..] == before[index + 1..]
    ensures s[position := item][..index + 1] == before[..index][..position] + [item] + before[..index][position..]
  {
  }

  /** The inner loop of the insertion sort: shift larger records up by one. */
  method InsertAt(memory: array<Record>, index: nat, options: Options)
    requires index < memory.Length
    modifies memory
    ensures memory[..index + 1] == Insert(Comparator(options), old(memory[..index]), old(memory[index]))
    ensures memory[index + 1..] == old(memory[index + 1..])
  {
    hide StableSort.Insert, Ordering.RecordOrder, Shifted;
    ghost var cmp, before, run := Comparator(options), memory[..], memory[..index];
    var item := memory[index];
    var position := index;
    assert run[..index] == run && run + [] == run;
    ShiftStart(before, index);
    while position > 0 && RecordOrder(item, memory[position - 1], options) < 0
      invariant 0 <= position <= index
      invariant Shifted(memory[..], before, position, index)
      invariant Insert(cmp, run, item) == Insert(cmp, run[..position], item) + run[position..]
    {
      ShiftOne(memory[..], before, position, index);
      InsertStep(cmp, run, item, position);
      memory[position] := memory[position - 1];
      position := position - 1;
    }
    Assembled(memory[..], before, position, index, item);
    InsertStop(cmp, run[..position], item);
    memory[position] := item;
  }

  /** The records a merge has yet to write, by cursor position. */
  ghost function MergeFrom<T>(cmp: (T, T) -> int, s: seq<T>, a: nat, middle: nat, b: nat, end: nat): seq<T>
    requires a <= middle <= b <= end <= |s|
    decreases middle - a + end - b
  {
    if a < middle && (b == end || cmp(s[a], s[b]) <= 0) then [s[a]] + MergeFrom(cmp, s, a + 1, middle, b, end)
    else if b < end then [s[b]] + MergeFrom(cmp, s, a, middle, b + 1, end)
    else []
  }

  lemma {:induction false} MergeFromIsMerge<T>(cmp: (T, T) -> int, s: seq<T>, a: nat, middle: nat, b: nat, end: nat)
    requires a <= middle <= b <= end <= |s|
    ensures MergeFrom(cmp, s, a, middle, b, end) == Merge(cmp, s[a..middle], s[b..end])
    decreases middle - a + end - b
  {
    var l, r := s[a..middle], s[b..end];
    if a < middle && (b == end || cmp(s[a], s[b]) <= 0) {
      MergeFromIsMerge(cmp, s, a + 1, middle, b, end);
      assert l[1..] == s[a + 1..middle] && l == [s[a]] + l[1..];
    } else if b < end {
      MergeFromIsMerge(cmp, s, a, middle, b + 1, end);
      assert r[1..] == s[b + 1..end] && r == [s[b]] + r[1..];
    }
  }

  lemma MergeFromStep<T>(cmp: (T, T) -> int, s: seq<T>, a: nat, middle: nat, b: nat, end: nat)
    returns (head: T, rest: seq<T>)
    requires a <= middle <= b <= end <= |s| && (a < middle || b < end)
    ensures MergeFrom(cmp, s, a, middle, b, end) == [head] + rest
    ensures if a < middle && (b == end || cmp(s[a], s[b]) <= 0)
            then head == s[a] && rest == MergeFrom(cmp, s, a + 1, middle, b, end)
            else b < end && head == s[b] && rest == MergeFrom(cmp, s, a, middle, b + 1, end)
  {
    if a < middle && (b == end || cmp(s[a], s[b]) <= 0) {
      head, rest := s[a], MergeFrom(cmp, s, a + 1, middle, b, end);
    } else {
      head, rest := s[b], MergeFrom(cmp, s, a, middle, b + 1, end);
    }
  }

  lemma MergeFromEnd<T>(cmp: (T, T) -> int, s: seq<T>, middle: nat, end: nat)
    requires middle <= end <= |s|
    ensures MergeFrom(cmp, s, middle, middle, end, end) == []
  {
  }

  /** Read two neighbouring runs of `source` through one-record buffers and
      append their merge to `destination`. */
  method MergePair(source: seq<Record>, destination: seq<Record>, first: nat, middle: nat, end: nat, options: Options)
    returns (result: seq<Record>)
    requires first <= middle <= end <= |source| && |destination| == first
    ensures result == destination + Merge(Comparator(options), source[first..middle], source[middle..end])
  {
    hide StableSort.Merge, MergeFrom, Ordering.RecordOrder;
    ghost var cmp := Comparator(options);
    ghost var rest := MergeFrom(cmp, source, first, middle, middle, end);
    ghost var all := destination + rest;
    var a, b := first, middle;
    var left: Option<Record>, right: Option<Record> := None, None;
    result := destination;
    while |result| < end
      invariant first <= a <= middle <= b <= end && |result| == a + b - middle
      invariant left.Some? ==> a < middle && left.value == source[a]
      invariant right.Some? ==> b < end && right.value == source[b]
      invariant rest == MergeFrom(cmp, source, a, middle, b, end)
      invariant result + rest == all
    {
      if left.None? && a < middle {
        left := Some(source[a]);
      }
      if right.None? && b < end {
        right := Some(source[b]);
      }
      ghost var head, tail := MergeFromStep(cmp, source, a, middle, b, end);
      Regroup(result, [head], tail);
      rest := tail;
      if left.Some? && (right.None? || RecordOrder(left.value, right.value, options) <= 0) {
        result := result + [left.value];
        a, left := a + 1, None;
      } else {
        result := result + [right.value];
        b, right := b + 1, None;
      }
    }
    MergeFromEnd(cmp, source, middle, end);
    MergeFromIsMerge(cmp, source, first, middle, middle, end);
  }

  lemma PassStep<T>(cmp: (T, T) -> int, s: seq<T>, first: nat, width: nat) returns (next: seq<T>)
    requires width > 0 && first < |s|
    ensures next == MergePass(cmp, s[Min(first + 2 * width, |s|)..], width)
    ensures MergePass(cmp, s[first..], width) ==
      Merge(cmp, s[first..Min(first + width, |s|)], s[Min(first + width, |s|)..Min(first + 2 * width, |s|)]) + next
  {
    hide StableSort.Merge;
    var middle, end := Min(first + width, |s|), Min(first + 2 * width, |s|);
    var rest := s[first..];
    assert rest[..middle - first] == s[first..middle];
    assert rest[middle - first..end - first] == s[middle..end];
    assert rest[end - first..] == s[end..];
    next := MergePass(cmp, s[end..], width);
  }

  /** One pass over a spool into a truncated one. */
  method MergeRuns(source: seq<Record>, width: nat, options: Options) returns (destination: seq<Record>)
    requires width > 0
    ensures destination == MergePass(Comparator(options), source, width)
  {
    ghost var cmp := Comparator(options);
    hide StableSort.Merge, StableSort.MergePass;
    ghost var all := MergePass(cmp, source, width);
    ghost var rest := all;
    destination := [];
    var first := 0;
    assert source[0..] == source;
    while first < |source|
      invariant |destination| == Min(first, |source|)
      invariant rest == MergePass(cmp, source[Min(first, |source|)..], width)
      invariant destination + rest == all
      decreases |source| - first
    {
      var middle := if first + width < |source| then first + width else |source|;
      var end := if first + 2 * width < |source| then first + 2 * width else |source|;
      ghost var next := PassStep(cmp, source, first, width);
      ghost var merged := Merge(cmp, source[first..middle], source[middle..end]);
      Regroup(destination, merged, next);
      rest := next;
      destination := MergePair(source, destination, first, middle, end, options);
      first := first + 2 * width;
    }
  }

  /** A listing does not depend on whether its catalogue was spilled: equal
      records sort to equal listings, sorted, permuted and stable. */
  lemma SpillNeverShows(records: seq<Record>, options: Options, listing: seq<Record>)
    requires TotalPreorder(options.collate)
    ensures var cmp := Comparator(options);
            IsStableSort(cmp, records, listing) <==> listing == InsertionSort(cmp, records)
    ensures var cmp := Comparator(options);
            multiset(InsertionSort(cmp, records)) == multiset(records)
  {
    var cmp := Comparator(options);
    RecordOrderIsTotal(options);
    InsertionSortIsStable(cmp, records);
    StableSortPermutes(cmp, records, InsertionSort(cmp, records));
    if IsStableSort(cmp, records, listing) {
      StableSortUnique(cmp, records, listing, InsertionSort(cmp, records));
    }
  }
}
