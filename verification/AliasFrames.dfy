/** Alias rewriting: one token is replaced by a value and a blank, and recorded
    intervals remember which aliases every byte came from. */
module AliasFrames {
  import opened Bytes

  const EXPANSION_LIMIT: nat := 128
  const ALIAS_CAP: nat := 128
  const BLANK: Byte := 32

  /** The aliases the bytes of an interval came from. */
  datatype Frame = Frame(begin: nat, end: nat, ancestors: set<nat>)

  datatype Buffer = Buffer(text: Text, frames: seq<Frame>)

  /** Replace the token from `begin` to `end` by the value of an alias. */
  datatype Rewrite = Rewrite(begin: nat, end: nat, value: Text, alias: nat)

  predicate Overlaps(f: Frame, begin: nat, end: nat) {
    f.begin < end && begin < f.end
  }

  /** `token_ancestors`. */
  function TokenAncestors(frames: seq<Frame>, begin: nat, end: nat): set<nat> {
    if frames == [] then {}
    else
      var last := frames[|frames| - 1];
      TokenAncestors(frames[..|frames| - 1], begin, end) + (if Overlaps(last, begin, end) then last.ancestors else {})
  }

  /** The ancestors of one byte. */
  function AncestorsAt(frames: seq<Frame>, at: nat): set<nat> {
    TokenAncestors(frames, at, at + 1)
  }

  /** How a recorded interval follows a replacement; one that holds bytes inside and
      outside the token, but not all of it, is dropped. */
  function Adjust(f: Frame, begin: nat, end: nat, length: nat): Option<Frame>
    requires begin <= end
  {
    if f.end <= begin then Some(f)
    else if f.begin >= end then Some(Frame(f.begin - end + begin + length, ShiftedEnd(f, begin, end, length), f.ancestors))
    else if f.begin <= begin && f.end >= end then Some(f.(end := ShiftedEnd(f, begin, end, length)))
    else None
  }

  function ShiftedEnd(f: Frame, begin: nat, end: nat, length: nat): nat {
    if f.end + begin + length >= end then f.end + begin + length - end else 0
  }

  /** The compaction loop of `rewrite_alias`. */
  function Adjusted(frames: seq<Frame>, begin: nat, end: nat, length: nat): (adjusted: seq<Frame>)
    requires begin <= end
    ensures |adjusted| <= |frames|
  {
    if frames == [] then []
    else
      var front := Adjusted(frames[..|frames| - 1], begin, end, length);
      var last := Adjust(frames[|frames| - 1], begin, end, length);
      if last.Some? then front + [last.value] else front
  }

  /** The intervals that are not dropped, as they were. */
  function Whole(frames: seq<Frame>, begin: nat, end: nat): seq<Frame>
    requires begin <= end
  {
    if frames == [] then []
    else
      var front, last := Whole(frames[..|frames| - 1], begin, end), frames[|frames| - 1];
      if Adjust(last, begin, end, 0).Some? then front + [last] else front
  }

  /** The intervals around the whole token. */
  function Around(frames: seq<Frame>, begin: nat, end: nat): seq<Frame> {
    if frames == [] then []
    else
      var front, last := Around(frames[..|frames| - 1], begin, end), frames[|frames| - 1];
      if last.begin <= begin && last.end >= end && Overlaps(last, begin, end) then front + [last] else front
  }

  function ReplacedText(text: Text, r: Rewrite): Text
    requires r.begin <= r.end <= |text|
  {
    text[..r.begin] + r.value + [BLANK] + text[r.end..]
  }

  /** `rewrite_alias`; None when it refuses. */
  function Apply(b: Buffer, r: Rewrite, capacity: nat): (after: Option<Buffer>)
    requires |b.text| < capacity
    ensures after.Some? ==> |after.value.text| < capacity && |after.value.frames| <= EXPANSION_LIMIT
  {
    if |b.frames| >= EXPANSION_LIMIT || r.begin > r.end || r.end > |b.text|
       || |b.text| - (r.end - r.begin) + |r.value| + 1 >= capacity then None
    else
      var ancestors := TokenAncestors(b.frames, r.begin, r.end) + {r.alias};
      Some(Buffer(ReplacedText(b.text, r),
                  Adjusted(b.frames, r.begin, r.end, |r.value| + 1) +
                  [Frame(r.begin, r.begin + |r.value|, ancestors)]))
  }

  /** Exactly one token changes, and it becomes the value and a blank. */
  lemma OneTokenChanges(b: Buffer, r: Rewrite, capacity: nat)
    requires |b.text| < capacity && Apply(b, r, capacity).Some?
    ensures var t := Apply(b, r, capacity).value.text;
      && |t| == |b.text| - (r.end - r.begin) + |r.value| + 1
      && t[..r.begin] == b.text[..r.begin]
      && t[r.begin..r.begin + |r.value|] == r.value && t[r.begin + |r.value|] == BLANK
      && t[r.begin + |r.value| + 1..] == b.text[r.end..]
  {
    hide Adjusted, TokenAncestors;
    Middle(b.text[..r.begin], r.value, [BLANK] + b.text[r.end..]);
    Regroup(b.text[..r.begin] + r.value, [BLANK], b.text[r.end..]);
    Ends(b.text[..r.begin], r.value + [BLANK], b.text[r.end..]);
    Regroup(b.text[..r.begin], r.value, [BLANK]);
  }

  // ----- what the compaction keeps -----

  lemma {:induction false} KeptBefore(frames: seq<Frame>, begin: nat, end: nat, length: nat, at: nat)
    requires at < begin <= end && length > 0
    ensures AncestorsAt(Adjusted(frames, begin, end, length), at) == AncestorsAt(Whole(frames, begin, end), at)
  {
    if frames != [] {
      KeptBefore(frames[..|frames| - 1], begin, end, length, at);
      OnBoth(frames, begin, end, length);
    }
  }

  lemma {:induction false} KeptBehind(frames: seq<Frame>, begin: nat, end: nat, length: nat, at: nat)
    requires begin <= end <= at && length > 0
    ensures AncestorsAt(Adjusted(frames, begin, end, length), at - end + begin + length) ==
            AncestorsAt(Whole(frames, begin, end), at)
  {
    if frames != [] {
      KeptBehind(frames[..|frames| - 1], begin, end, length, at);
      OnBoth(frames, begin, end, length);
    }
  }

  /** Bytes of the replacement lie in the intervals that were around the token. */
  lemma {:induction false} KeptInside(frames: seq<Frame>, begin: nat, end: nat, length: nat, at: nat)
    requires begin < end && begin <= at < begin + length
    ensures AncestorsAt(Adjusted(frames, begin, end, length), at) == TokenAncestors(Around(frames, begin, end), begin, end)
  {
    if frames != [] {
      KeptInside(frames[..|frames| - 1], begin, end, length, at);
      OnBoth(frames, begin, end, length);
    }
  }

  /** One more interval, on both sides. */
  lemma OnBoth(frames: seq<Frame>, begin: nat, end: nat, length: nat)
    requires frames != [] && begin <= end
    ensures forall front: seq<Frame>, f: Frame, b: nat, e: nat ::
      TokenAncestors(front + [f], b, e) == TokenAncestors(front, b, e) + (if Overlaps(f, b, e) then f.ancestors else {})
  {
    forall front: seq<Frame>, f: Frame, b: nat, e: nat
      ensures TokenAncestors(front + [f], b, e) ==
              TokenAncestors(front, b, e) + (if Overlaps(f, b, e) then f.ancestors else {})
    {
      AncestorsNext(front, f, b, e);
    }
  }

  lemma AncestorsNext(front: seq<Frame>, f: Frame, begin: nat, end: nat)
    ensures TokenAncestors(front + [f], begin, end) ==
            TokenAncestors(front, begin, end) + (if Overlaps(f, begin, end) then f.ancestors else {})
  {
    assert (front + [f])[..|front|] == front;
  }

  lemma {:induction false} AroundIsPart(frames: seq<Frame>, begin: nat, end: nat)
    ensures TokenAncestors(Around(frames, begin, end), begin, end) <= TokenAncestors(frames, begin, end)
  {
    if frames != [] {
      AroundIsPart(frames[..|frames| - 1], begin, end);
      AncestorsNext(Around(frames[..|frames| - 1], begin, end), frames[|frames| - 1], begin, end);
    }
  }

  // ----- provenance -----

  function Moved(r: Rewrite, at: nat): nat
    requires r.begin <= r.end && (at < r.begin || r.end <= at)
  {
    if at < r.begin then at else at - r.end + r.begin + |r.value| + 1
  }

  predicate Survives(b: Buffer, r: Rewrite, at: nat) {
    at < |b.text| && (at < r.begin || r.end <= at)
  }

  /** Where every byte's ancestors come from after a rewrite: the value gains the alias
      and everything the token came from, the blank lies in what was around the token,
      and a surviving byte keeps what the intervals that are not dropped say. */
  lemma ProvenanceAfter(b: Buffer, r: Rewrite, capacity: nat, at: nat)
    requires |b.text| < capacity && Apply(b, r, capacity).Some? && r.begin < r.end
    ensures var after := Apply(b, r, capacity).value.frames;
      && (r.begin <= at < r.begin + |r.value| ==>
            AncestorsAt(after, at) == TokenAncestors(b.frames, r.begin, r.end) + {r.alias})
      && (at == r.begin + |r.value| ==>
            AncestorsAt(after, at) == TokenAncestors(Around(b.frames, r.begin, r.end), r.begin, r.end))
      && (Survives(b, r, at) ==>
            AncestorsAt(after, Moved(r, at)) == AncestorsAt(Whole(b.frames, r.begin, r.end), at))
  {
    hide Adjusted, Whole, Around, TokenAncestors;
    var length := |r.value| + 1;
    var kept := Adjusted(b.frames, r.begin, r.end, length);
    var f := Frame(r.begin, r.begin + |r.value|, TokenAncestors(b.frames, r.begin, r.end) + {r.alias});
    if Survives(b, r, at) {
      AncestorsNext(kept, f, Moved(r, at), Moved(r, at) + 1);
      if at < r.begin {
        KeptBefore(b.frames, r.begin, r.end, length, at);
      } else {
        KeptBehind(b.frames, r.begin, r.end, length, at);
      }
    }
    if r.begin <= at < r.begin + length {
      AncestorsNext(kept, f, at, at + 1);
      KeptInside(b.frames, r.begin, r.end, length, at);
      AroundIsPart(b.frames, r.begin, r.end);
    }
  }

  /** An interval apart from the token, around it, or inside it. */
  predicate Nests(f: Frame, begin: nat, end: nat) {
    f.end <= begin || f.begin >= end || (f.begin <= begin && f.end >= end) || (begin <= f.begin && f.end <= end)
  }

  predicate AllNest(frames: seq<Frame>, begin: nat, end: nat) {
    forall i :: 0 <= i < |frames| ==> Nests(frames[i], begin, end)
  }

  lemma {:induction false} NestedAreWhole(frames: seq<Frame>, begin: nat, end: nat, at: nat)
    requires begin < end && AllNest(frames, begin, end) && (at < begin || end <= at)
    ensures AncestorsAt(Whole(frames, begin, end), at) == AncestorsAt(frames, at)
  {
    if frames != [] {
      var front, last := frames[..|frames| - 1], frames[|frames| - 1];
      assert Nests(last, begin, end);
      forall i | 0 <= i < |front| ensures Nests(front[i], begin, end) {
        assert Nests(frames[i], begin, end);
      }
      NestedAreWhole(front, begin, end, at);
      AncestorsNext(Whole(front, begin, end), last, at, at + 1);
    }
  }

  /** With intervals that nest around the token or lie apart from it, every surviving
      byte keeps exactly its ancestors. */
  lemma SurvivorsKeepAncestors(b: Buffer, r: Rewrite, capacity: nat, at: nat)
    requires |b.text| < capacity && Apply(b, r, capacity).Some? && r.begin < r.end
    requires AllNest(b.frames, r.begin, r.end) && Survives(b, r, at)
    ensures AncestorsAt(Apply(b, r, capacity).value.frames, Moved(r, at)) == AncestorsAt(b.frames, at)
  {
    ProvenanceAfter(b, r, capacity, at);
    NestedAreWhole(b.frames, r.begin, r.end, at);
    hide Apply, Whole, TokenAncestors;
  }

  /** In general they keep them exactly when every ancestor a dropped interval gives a
      surviving byte is also given by one that is not dropped. */
  lemma KeepsExactlyWhen(b: Buffer, r: Rewrite, capacity: nat)
    requires |b.text| < capacity && Apply(b, r, capacity).Some? && r.begin < r.end
    ensures
      (forall at :: Survives(b, r, at) ==>
         AncestorsAt(Apply(b, r, capacity).value.frames, Moved(r, at)) == AncestorsAt(b.frames, at))
      <==>
      (forall at :: Survives(b, r, at) ==>
         AncestorsAt(Dropped(b.frames, r.begin, r.end), at) <= AncestorsAt(Whole(b.frames, r.begin, r.end), at))
  {
    forall at | Survives(b, r, at)
      ensures AncestorsAt(Apply(b, r, capacity).value.frames, Moved(r, at)) ==
              AncestorsAt(Whole(b.frames, r.begin, r.end), at)
      ensures AncestorsAt(b.frames, at) ==
              AncestorsAt(Whole(b.frames, r.begin, r.end), at) + AncestorsAt(Dropped(b.frames, r.begin, r.end), at)
    {
      ProvenanceAfter(b, r, capacity, at);
      WholeAndDropped(b.frames, r.begin, r.end, at);
    }
    hide Apply, Whole, Dropped, TokenAncestors;
  }

  /** The intervals a rewrite drops. */
  function Dropped(frames: seq<Frame>, begin: nat, end: nat): seq<Frame>
    requires begin <= end
  {
    if frames == [] then []
    else
      var front, last := Dropped(frames[..|frames| - 1], begin, end), frames[|frames| - 1];
      if Adjust(last, begin, end, 0).None? then front + [last] else front
  }

  lemma {:induction false} WholeAndDropped(frames: seq<Frame>, begin: nat, end: nat, at: nat)
    requires begin <= end
    ensures AncestorsAt(frames, at) ==
            AncestorsAt(Whole(frames, begin, end), at) + AncestorsAt(Dropped(frames, begin, end), at)
  {
    hide Adjust;
    if frames != [] {
      var front, last := frames[..|frames| - 1], frames[|frames| - 1];
      WholeAndDropped(front, begin, end, at);
      AncestorsNext(Whole(front, begin, end), last, at, at + 1);
      AncestorsNext(Dropped(front, begin, end), last, at, at + 1);
    }
  }

  // ----- names and the fences around intervals -----

  /** `alias_byte`. */
  predicate IsNameByte(b: Byte) {
    || 65 <= b <= 90 || 97 <= b <= 122 || 48 <= b <= 57
    || b in [33, 37, 44, 45, 64, 95]
  }

  predicate NameBytes(text: Text, begin: nat, end: nat) {
    begin < end <= |text| && forall k :: begin <= k < end ==> IsNameByte(text[k])
  }

  /** No name byte directly in front: where a token of names may begin. */
  predicate AtEdge(text: Text, p: nat) {
    p == 0 || (p <= |text| && !IsNameByte(text[p - 1]))
  }

  /** An interval begins where a token did, and the inserted blank follows it. */
  predicate Fence(text: Text, f: Frame) {
    f.begin <= f.end < |text| && text[f.end] == BLANK && AtEdge(text, f.begin)
  }

  predicate Fenced(b: Buffer) {
    forall i :: 0 <= i < |b.frames| ==> Fence(b.text, b.frames[i])
  }

  /** A name lies in front of an interval, behind its blank, or inside it. */
  lemma FenceApart(text: Text, f: Frame, begin: nat, end: nat)
    requires Fence(text, f) && NameBytes(text, begin, end)
    ensures f.end < begin || end < f.begin || (f.begin <= begin && end <= f.end)
  {
  }

  lemma FencesNest(b: Buffer, begin: nat, end: nat)
    requires Fenced(b) && NameBytes(b.text, begin, end)
    ensures AllNest(b.frames, begin, end)
  {
    hide Fence, NameBytes;
    forall i | 0 <= i < |b.frames| ensures Nests(b.frames[i], begin, end) {
      FenceApart(b.text, b.frames[i], begin, end);
    }
  }

  /** Inside a name every byte has the ancestors of the whole. */
  lemma {:induction false} NameIsUniform(text: Text, frames: seq<Frame>, begin: nat, end: nat, at: nat)
    requires Fenced(Buffer(text, frames)) && NameBytes(text, begin, end) && begin <= at < end
    ensures TokenAncestors(frames, begin, end) == AncestorsAt(frames, at)
  {
    if frames != [] {
      var front, last := frames[..|frames| - 1], frames[|frames| - 1];
      FencedFront(text, frames);
      NameIsUniform(text, front, begin, end, at);
      FenceApart(text, last, begin, end);
    }
  }

  lemma FencedFront(text: Text, frames: seq<Frame>)
    requires Fenced(Buffer(text, frames)) && frames != []
    ensures Fenced(Buffer(text, frames[..|frames| - 1])) && Fence(text, frames[|frames| - 1])
  {
    hide Fence;
    var b, front := Buffer(text, frames), frames[..|frames| - 1];
    assert Fence(b.text, b.frames[|frames| - 1]);
    forall i | 0 <= i < |front| ensures Fence(text, front[i]) {
      assert Fence(b.text, b.frames[i]);
    }
  }

  lemma FencedSnoc(text: Text, front: seq<Frame>, f: Frame)
    requires Fenced(Buffer(text, front)) && Fence(text, f)
    ensures Fenced(Buffer(text, front + [f]))
  {
    hide Fence;
    forall i | 0 <= i <= |front| ensures Fence(text, (front + [f])[i]) {
      if i < |front| {
        assert Fence(text, Buffer(text, front).frames[i]);
      }
    }
  }

  lemma FenceFollows(text: Text, f: Frame, r: Rewrite)
    requires Fence(text, f) && NameBytes(text, r.begin, r.end)
    ensures var moved := Adjust(f, r.begin, r.end, |r.value| + 1);
      moved.Some? && Fence(ReplacedText(text, r), moved.value)
  {
    FenceApart(text, f, r.begin, r.end);
  }

  lemma {:induction false} FencesFollow(text: Text, frames: seq<Frame>, r: Rewrite)
    requires Fenced(Buffer(text, frames)) && NameBytes(text, r.begin, r.end)
    ensures Fenced(Buffer(ReplacedText(text, r), Adjusted(frames, r.begin, r.end, |r.value| + 1)))
  {
    hide Fence, ReplacedText, Adjust, NameBytes;
    if frames != [] {
      var front, last := frames[..|frames| - 1], frames[|frames| - 1];
      FencedFront(text, frames);
      FencesFollow(text, front, r);
      FenceBounds(text, r);
      FenceFollows(text, last, r);
      FencedSnoc(ReplacedText(text, r), Adjusted(front, r.begin, r.end, |r.value| + 1),
                 Adjust(last, r.begin, r.end, |r.value| + 1).value);
    }
  }

  lemma FenceBounds(text: Text, r: Rewrite)
    requires NameBytes(text, r.begin, r.end)
    ensures r.begin < r.end <= |text|
  {
  }

  /** Rewriting a name that begins at an edge keeps every interval fenced. */
  lemma FencesStay(b: Buffer, r: Rewrite, capacity: nat)
    requires Fenced(b) && |b.text| < capacity && Apply(b, r, capacity).Some?
    requires NameBytes(b.text, r.begin, r.end) && AtEdge(b.text, r.begin)
    ensures Fenced(Apply(b, r, capacity).value)
  {
    hide TokenAncestors, Adjusted, Fenced;
    FencesFollow(b.text, b.frames, r);
    var now := ReplacedText(b.text, r);
    var f := Frame(r.begin, r.begin + |r.value|, TokenAncestors(b.frames, r.begin, r.end) + {r.alias});
    assert Fence(now, f);
    FencedSnoc(now, Adjusted(b.frames, r.begin, r.end, |r.value| + 1), f);
  }

  /** Rewriting a name therefore never makes a surviving byte forget an ancestor. */
  lemma NamesNeverForget(b: Buffer, r: Rewrite, capacity: nat, at: nat)
    requires Fenced(b) && |b.text| < capacity && Apply(b, r, capacity).Some?
    requires NameBytes(b.text, r.begin, r.end) && Survives(b, r, at)
    ensures AncestorsAt(Apply(b, r, capacity).value.frames, Moved(r, at)) == AncestorsAt(b.frames, at)
  {
    hide TokenAncestors, Apply, Fenced;
    FencesNest(b, r.begin, r.end);
    SurvivorsKeepAncestors(b, r, capacity, at);
  }
}
