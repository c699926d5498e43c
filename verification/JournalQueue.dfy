/** The bounded queue between the editor and the journal writer: frames enter
    whole, bytes leave in arbitrary pieces, and the writer reads the frames back. */
module JournalQueue {
  import opened Bytes
  import opened LittleEndian

  const PENDING_CAP: nat := 262144
  const HOME_CAP: nat := 4096
  const RECORD_CAP: nat := 65536
  const TURN_CAP: nat := 8192
  const FRAME_HEADER: nat := 12

  /** One request: the kind, the HOME it was made under, and the text. */
  datatype Item = Item(kind: nat, home: Text, text: Text)

  predicate Acceptable(i: Item) {
    && 1 <= i.kind <= 5 && |i.text| <= RECORD_CAP
    && 0 < |i.home| < HOME_CAP && i.home[0] == SLASH && NUL !in i.home
  }

  function Frame(i: Item): (f: Text)
    ensures |f| == FRAME_HEADER + |i.home| + 1 + |i.text|
  {
    Encode(i.kind, 4) + Encode(|i.home| + 1, 4) + Encode(|i.text|, 4) + (i.home + [NUL]) + i.text
  }

  function Frames(items: seq<Item>): Text {
    if items == [] then [] else Frames(items[..|items| - 1]) + Frame(items[|items| - 1])
  }

  // ----- the writer's side -----

  datatype Received = Closed | Invalid | Got(item: Item, rest: Text)

  /** One turn of `gsh_llm_journal_worker` on the bytes that arrived. */
  function Receive(stream: Text): (r: Received)
    ensures r.Got? ==> |r.rest| < |stream|
  {
    if stream == [] then Closed
    else if |stream| < FRAME_HEADER then Invalid
    else
      var home, length := Decode(stream[4..8]), Decode(stream[8..12]);
      var text := FRAME_HEADER + home;
      if home < 2 || home > HOME_CAP || length > RECORD_CAP || |stream| < text + length then Invalid
      else
        var name := stream[FRAME_HEADER..text - 1];
        if stream[text - 1] != NUL || name[0] != SLASH || NUL in name then Invalid
        else Got(Item(Decode(stream[..4]), name, stream[text..text + length]), stream[text + length..])
  }

  /** The items appended before the stream closes or turns invalid. */
  function Worker(stream: Text): seq<Item>
    decreases |stream|
  {
    if !Receive(stream).Got? then [] else [Receive(stream).item] + Worker(Receive(stream).rest)
  }

  lemma HeaderFields(i: Item, rest: Text)
    ensures var s := Frame(i) + rest; var text := FRAME_HEADER + |i.home| + 1;
      && |s| == text + |i.text| + |rest|
      && s[..4] == Encode(i.kind, 4) && s[4..8] == Encode(|i.home| + 1, 4) && s[8..12] == Encode(|i.text|, 4)
      && s[FRAME_HEADER..text - 1] == i.home && s[text - 1] == NUL
      && s[text..text + |i.text|] == i.text && s[text + |i.text|..] == rest
  {
    hide Encode;
    var k, n, m := Encode(i.kind, 4), Encode(|i.home| + 1, 4), Encode(|i.text|, 4);
    var s, head, text := Frame(i) + rest, k + n + m, FRAME_HEADER + |i.home| + 1;
    assert s == head + (i.home + [NUL]) + i.text + rest;
    assert s[..4] == k && s[4..8] == n && s[8..12] == m;
    assert s[FRAME_HEADER..text - 1] == i.home && s[text - 1] == NUL;
    Middle(head + (i.home + [NUL]), i.text, rest);
    Ends(head + (i.home + [NUL]), i.text, rest);
  }

  /** A frame at the front of the stream is received as its item. */
  lemma ReceiveFrame(i: Item, rest: Text)
    requires Acceptable(i)
    ensures Receive(Frame(i) + rest) == Got(i, rest)
  {
    HeaderFields(i, rest);
    Widths();
    DecodeEncode(i.kind, 4);
    DecodeEncode(|i.home| + 1, 4);
    DecodeEncode(|i.text|, 4);
    hide Encode, Decode, Power256, Frame;
  }

  lemma {:induction false} FramesFirst(items: seq<Item>)
    requires items != []
    ensures Frames(items) == Frame(items[0]) + Frames(items[1..])
  {
    hide Frame;
    var last := |items| - 1;
    if last == 0 {
      assert items[..0] == [] && items[1..] == [];
      assert Frames(items) == [] + Frame(items[0]);
    } else {
      FramesFirst(items[..last]);
      assert items[..last][1..] == items[1..][..last - 1];
      Regroup(Frame(items[0]), Frames(items[1..][..last - 1]), Frame(items[last]));
    }
  }

  /** The writer receives exactly the requests, in order, each under its own HOME. */
  lemma {:induction false} WorkerReceivesAll(items: seq<Item>)
    requires forall k :: 0 <= k < |items| ==> Acceptable(items[k])
    ensures Worker(Frames(items)) == items
    decreases |items|
  {
    hide Receive, Frame, Acceptable;
    if items == [] {
      StreamEnds();
    } else {
      FramesFirst(items);
      ReceiveFrame(items[0], Frames(items[1..]));
      WorkerReceivesAll(items[1..]);
      assert items == [items[0]] + items[1..];
    }
  }

  lemma StreamEnds()
    ensures Receive([]) == Closed
  {
  }

  // ----- the editor's side -----

  class Queue {
    const pending: array<Byte>
    var used: nat
    var sent: nat
    /** Every accepted request, and every byte already written out. */
    ghost var accepted: seq<Item>
    ghost var written: Text

    ghost predicate Shape()
      reads this
    {
      pending.Length == PENDING_CAP && sent <= used <= PENDING_CAP
    }

    ghost function Contents(): Text
      reads this, pending
      requires Shape()
    {
      pending[sent..used]
    }

    /** Nothing is lost, repeated or reordered between requests and pipe. */
    ghost predicate Valid()
      reads this, pending
    {
      && Shape()
      && (forall k :: 0 <= k < |accepted| ==> Acceptable(accepted[k]))
      && written + Contents() == Frames(accepted)
    }

    constructor ()
      ensures Valid() && accepted == [] && written == [] && fresh(pending)
    {
      pending := new Byte[PENDING_CAP](_ => NUL);
      used, sent, accepted, written := 0, 0, [], [];
      new;
      assert Frames([]) == [];
    }

    /** Copy bytes behind the used ones. */
    method Put(bytes: Text)
      requires Shape() && used + |bytes| <= PENDING_CAP
      modifies this`used, pending
      ensures Shape() && sent == old(sent) && used == old(used) + |bytes|
      ensures Contents() == old(Contents()) + bytes
    {
      ghost var before := pending[..];
      var at := used;
      for k := 0 to |bytes|
        invariant used == at && sent <= used
        invariant forall j :: 0 <= j < PENDING_CAP ==> pending[j] == if at <= j < at + k then bytes[j - at] else before[j]
      {
        pending[at + k] := bytes[k];
      }
      used := at + |bytes|;
      assert pending[sent..used] == before[sent..at] + bytes;
    }

    /** Move the unsent bytes to the front. */
    method Compact()
      requires Shape()
      modifies this`used, this`sent, pending
      ensures Shape() && sent == 0 && Contents() == old(Contents())
    {
      var n: nat, from: nat := used - sent, sent;
      ghost var before := pending[..];
      for k := 0 to n
        invariant sent == from && used == from + n
        invariant forall j :: k <= j < PENDING_CAP ==> pending[j] == before[j]
        invariant forall j :: 0 <= j < k ==> pending[j] == before[from + j]
      {
        pending[k] := pending[from + k];
      }
      used := n;
      sent := 0;
      assert pending[0..n] == before[from..from + n];
    }

    /** `gsh_llm_journal_enqueue`: a frame enters whole or not at all. */
    method Enqueue(i: Item) returns (ok: bool)
      requires Valid() && NUL !in i.home
      modifies this`used, this`sent, this`accepted, pending
      ensures Valid() && written == old(written)
      ensures ok <==>
        && 1 <= i.kind <= 5 && |i.text| <= RECORD_CAP && 0 < |i.home| < HOME_CAP && i.home[0] == SLASH
        && FRAME_HEADER + |i.home| + 1 + |i.text| <= PENDING_CAP - |old(Contents())|
      ensures ok ==> Acceptable(i)
      ensures accepted == if ok then old(accepted) + [i] else old(accepted)
      ensures Contents() == if ok then old(Contents()) + Frame(i) else old(Contents())
    {
      if i.kind < 1 || i.kind > 5 || |i.text| > RECORD_CAP || |i.home| == 0 || i.home[0] != SLASH || |i.home| >= HOME_CAP {
        return false;
      }
      var length := FRAME_HEADER + |i.home| + 1 + |i.text|;
      if length > PENDING_CAP - (used - sent) {
        return false;
      }
      hide Frames, Acceptable, Frame;
      FramesNext(accepted, i);
      if length > PENDING_CAP - used {
        Compact();
      }
      PutFrame(i);
      Regroup(written, old(Contents()), Frame(i));
      accepted := accepted + [i];
      return true;
    }

    /** The three copies that lay out one frame. */
    method PutFrame(i: Item)
      requires Shape() && used + |Frame(i)| <= PENDING_CAP
      modifies this`used, pending
      ensures Shape() && sent == old(sent) && Contents() == old(Contents()) + Frame(i)
    {
      hide Encode;
      ghost var before := Contents();
      var header := Encode(i.kind, 4) + Encode(|i.home| + 1, 4) + Encode(|i.text|, 4);
      Put(header);
      Put(i.home + [NUL]);
      Put(i.text);
      Regroup(before, header, i.home + [NUL]);
      Regroup(before, header + (i.home + [NUL]), i.text);
    }

    /** `gsh_llm_journal_flush`: at most 8 KiB are offered, and the pipe takes any
        number `taken` of them. */
    method Flush(taken: nat)
      requires Valid() && taken <= Min(TURN_CAP, |Contents()|)
      modifies this`used, this`sent, this`written
      ensures Valid() && accepted == old(accepted)
      ensures written == old(written) + old(Contents())[..taken]
      ensures Contents() == old(Contents())[taken..]
    {
      hide Frames, Acceptable;
      ghost var before := Contents();
      Regroup(written, before[..taken], before[taken..]);
      assert before == before[..taken] + before[taken..];
      written := written + before[..taken];
      sent := sent + taken;
      assert pending[sent..used] == before[taken..];
      if sent == used {
        sent, used := 0, 0;
      }
    }
  }

  lemma FramesNext(items: seq<Item>, i: Item)
    ensures Frames(items + [i]) == Frames(items) + Frame(i)
  {
    hide Frame;
    assert (items + [i])[..|items|] == items;
  }

  /** A stream cut inside its first frame yields nothing. */
  lemma ReceivePart(i: Item, n: nat)
    requires Acceptable(i) && n < |Frame(i)|
    ensures !Receive(Frame(i)[..n]).Got?
  {
    HeaderFields(i, []);
    Widths();
    DecodeEncode(|i.home| + 1, 4);
    DecodeEncode(|i.text|, 4);
    hide Encode, Decode, Power256, Frame;
    var whole, s := Frame(i) + [], Frame(i)[..n];
    assert whole == Frame(i);
    if n >= FRAME_HEADER {
      assert s[4..8] == whole[4..8] && s[8..12] == whole[8..12];
    }
  }

  lemma WorkerStep(stream: Text)
    ensures Worker(stream) ==
            if !Receive(stream).Got? then [] else [Receive(stream).item] + Worker(Receive(stream).rest)
  {
    hide Receive;
  }

  lemma CutInside(a: Text, b: Text, n: nat)
    requires n <= |a + b|
    ensures n < |a| ==> (a + b)[..n] == a[..n]
    ensures n >= |a| ==> (a + b)[..n] == a + b[..n - |a|]
  {
  }

  lemma MoreItems(items: seq<Item>, k: nat)
    requires items != [] && k < |items|
    ensures items[..k + 1] == [items[0]] + items[1..][..k] && items[..k + 1][1..] == items[1..][..k]
  {
  }

  /** From any part of the stream the writer receives the requests whose frames lie in
      it whole, and nothing else. */
  lemma {:induction false} WorkerReceivesPrefix(items: seq<Item>, n: nat) returns (k: nat)
    requires forall i :: 0 <= i < |items| ==> Acceptable(items[i])
    requires n <= |Frames(items)|
    ensures k <= |items| && |Frames(items[..k])| <= n
    ensures k < |items| ==> n < |Frames(items[..k + 1])|
    ensures Worker(Frames(items)[..n]) == items[..k]
    decreases |items|
  {
    hide Receive, Frame, Frames, Acceptable, Worker;
    WorkerStep(Frames(items)[..n]);
    NoFrames();
    k := 0;
    if items == [] {
      StreamEnds();
    } else {
      FramesFirst(items);
      var first, more := Frame(items[0]), Frames(items[1..]);
      CutInside(first, more, n);
      if n < |first| {
        ReceivePart(items[0], n);
        OneFrame(items[0]);
        assert items[..1] == [items[0]];
      } else {
        ReceiveFrame(items[0], more[..n - |first|]);
        var rest := WorkerReceivesPrefix(items[1..], n - |first|);
        k := rest + 1;
        MoreItems(items, rest);
        FramesFirst(items[..k]);
        if k < |items| {
          MoreItems(items, k);
          FramesFirst(items[..k + 1]);
        }
      }
    }
  }

  lemma NoFrames()
    ensures Frames([]) == []
  {
  }

  lemma OneFrame(i: Item)
    ensures Frames([i]) == Frame(i)
  {
    hide Frame;
    assert [i][..0] == [];
    assert Frames([i]) == [] + Frame(i);
  }

  /** At any time the writer has read back a prefix of the accepted requests: those
      whose frames have been written whole. */
  lemma WrittenIsReceived(q: Queue) returns (k: nat)
    requires q.Valid()
    ensures k <= |q.accepted| && Worker(q.written) == q.accepted[..k]
    ensures |Frames(q.accepted[..k])| <= |q.written|
    ensures k < |q.accepted| ==> |q.written| < |Frames(q.accepted[..k + 1])|
  {
    hide Frames, Acceptable, Worker;
    assert Frames(q.accepted)[..|q.written|] == q.written;
    k := WorkerReceivesPrefix(q.accepted, |q.written|);
  }

  /** Once everything is flushed, in whatever pieces, the writer has read back
      exactly the accepted requests. */
  lemma FlushedMeansReceived(q: Queue)
    requires q.Valid() && q.Contents() == []
    ensures Worker(q.written) == q.accepted
  {
    hide Frames, Acceptable, Worker;
    assert q.written + [] == q.written;
    WorkerReceivesAll(q.accepted);
  }
}
