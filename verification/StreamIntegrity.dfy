/**
 Pushes that are slices of one stream: the output is always a prefix of that
 stream and ends only when it is complete, except after two kinds of empty push.
 */
module StreamIntegrity {
  import opened Words
  import opened StreamReassemblers
  import opened ReassemblyProofs
  import opened ReassemblyRuns

  /**
   `data` at `index` is a slice of `stream` (shorter than 2^63 bytes), marked as its end only if it is.
   An empty substring without end mark says nothing about the stream and may come with any index.
   */
  predicate Slice(stream: seq<Byte>, data: seq<Byte>, index: nat, eof: bool) {
    && |stream| < 0x8000_0000_0000_0000
    && ((data == [] && !eof) ||
        (&& index + |data| <= |stream|
         && data == stream[index..index + |data|]
         && (eof ==> index + |data| == |stream|)))
  }

  /** Every accepted byte is the byte of `stream` at its index. */
  ghost predicate HoldsOnly(stream: seq<Byte>, r: Reassembler) {
    forall i, b :: Stored(r, i, b) ==> i < |stream| && stream[i] == b
  }

  /** The reassembler holds nothing but `stream`, and its end is known only once the last byte has arrived. */
  ghost predicate Faithful(stream: seq<Byte>, r: Reassembler) {
    && Inv(r)
    && HoldsOnly(stream, r)
    && (r.eof ==> |stream| == 0 || Accepted(r, |stream| - 1))
    && (r.output.ended ==> r.head == |stream|)
  }

  /** An empty substring that carries the end mark while the byte before it is missing. */
  predicate Premature(r: Reassembler, data: seq<Byte>, index: int, eof: bool) {
    eof && data == [] && r.head < index <= r.Limit() && !Accepted(r, index - 1)
  }

  /** What has been written out is a prefix of the stream; all of it once the input has ended. */
  lemma FaithfulOutput(stream: seq<Byte>, r: Reassembler)
    requires Faithful(stream, r)
    ensures r.head <= |stream| && r.output.bytes == stream[..r.head]
    ensures r.output.ended ==> r.output.bytes == stream
  {
    HeadWithin(stream, r);
  }

  /** With an empty pending set, every accepted index has been written out. */
  lemma AllWritten(r: Reassembler, i: int)
    requires Inv(r) && r.unassembled == 0 && Accepted(r, i)
    ensures i < r.head
  {
    NothingPending(r.cache);
  }

  lemma SliceKeepsBytes(stream: seq<Byte>, r: Reassembler, data: seq<Byte>, index: U64, eof: bool)
    requires Inv(r) && HoldsOnly(stream, r)
    requires Slice(stream, data, index, eof) && Small(r, data) && !Disturbs(r, data, index)
    ensures HoldsOnly(stream, Push(r, data, index, eof))
  {
    hide Push, Tidy, TotalLength, Covers, Disturbs, Accepted;
    PushHolds(r, data, index, eof);
    var r' := Push(r, data, index, eof);
    forall i, b | Stored(r', i, b)
      ensures i < |stream| && stream[i] == b
    {
      assert Stored(r'.(output := r'.output.(ended := r.output.ended)), i, b);
    }
  }

  lemma SliceKeepsEnd(stream: seq<Byte>, r: Reassembler, data: seq<Byte>, index: U64, eof: bool)
    requires Faithful(stream, r) && Slice(stream, data, index, eof) && Small(r, data) && !Disturbs(r, data, index)
    requires !Premature(r, data, index, eof)
    ensures var r' := Push(r, data, index, eof);
            && (r'.eof ==> |stream| == 0 || Accepted(r', |stream| - 1))
            && (r'.output.ended ==> r'.head == |stream|)
  {
    hide Push, Tidy, TotalLength, Covers, Disturbs, Has;
    FaithfulOutput(stream, r);
    PushHolds(r, data, index, eof);
    SliceKeepsBytes(stream, r, data, index, eof);
    var r' := Push(r, data, index, eof);
    var plain := r'.(output := r'.output.(ended := r.output.ended));
    assert forall i :: Accepted(plain, i) <==> Accepted(r', i);
    if r'.eof && |stream| > 0 && !r.output.ended {
      assert Accepted(r', |stream| - 1) by {
        if !r.eof {
          assert Low64(index + |data|) == index + |data| || index >= r.Limit();
          assert data != [] ==> InWindow(r, data, index, |stream| - 1);
        }
      }
    }
    if r'.output.ended && !r.output.ended {
      if |stream| > 0 {
        AllWritten(r', |stream| - 1);
      }
      HeadWithin(stream, r');
    }
  }

  lemma HeadWithin(stream: seq<Byte>, r: Reassembler)
    requires Inv(r) && HoldsOnly(stream, r)
    ensures r.head <= |stream| && r.output.bytes == stream[..r.head]
  {
    hide Tidy, TotalLength, Has;
    forall i | 0 <= i < r.head
      ensures i < |stream| && stream[i] == r.output.bytes[i]
    {
      assert Stored(r, i, r.output.bytes[i]);
    }
    if r.head > 0 {
      assert Stored(r, r.head - 1, r.output.bytes[r.head - 1]);
    }
  }

  /**
   Pushing a slice of the stream keeps the reassembler faithful to it exactly when the push is not an empty
   substring strictly inside a pending one, nor an end mark sent ahead of the last byte.
   */
  lemma SliceKeepsFaithful(stream: seq<Byte>, r: Reassembler, data: seq<Byte>, index: U64, eof: bool)
    requires Faithful(stream, r) && Slice(stream, data, index, eof) && Small(r, data)
    ensures Faithful(stream, Push(r, data, index, eof)) <==>
            !Disturbs(r, data, index) && !Premature(r, data, index, eof)
  {
    hide Push, Tidy, TotalLength, Covers, Disturbs, Has;
    PushKeepsInvariant(r, data, index, eof);
    if !Disturbs(r, data, index) {
      PushHolds(r, data, index, eof);
      if Premature(r, data, index, eof) {
        var r' := Push(r, data, index, eof);
        var plain := r'.(output := r'.output.(ended := r.output.ended));
        assert Accepted(plain, index - 1) <==> Accepted(r', index - 1);
        assert Low64(index + |data|) == index;
        assert !InWindow(r, data, index, index - 1);
      } else {
        SliceKeepsBytes(stream, r, data, index, eof);
        SliceKeepsEnd(stream, r, data, index, eof);
      }
    }
  }

  // ---------------------------------------------------------------- whole runs

  /** Event `e` pushes a slice of the stream that keeps the reassembler faithful, or reads. */
  predicate SliceEvent(stream: seq<Byte>, r: Reassembler, e: Event) {
    e.PushEvent? ==>
      && Slice(stream, e.data, e.index, e.eof) && Small(r, e.data)
      && !Disturbs(r, e.data, e.index) && !Premature(r, e.data, e.index, e.eof)
  }

  predicate SliceEvents(stream: seq<Byte>, r: Reassembler, events: seq<Event>)
    decreases |events|
  {
    events == [] || (SliceEvent(stream, r, events[0]) && SliceEvents(stream, Step(r, events[0]), events[1..]))
  }

  lemma ReadKeepsFaithful(stream: seq<Byte>, r: Reassembler, len: nat)
    requires Faithful(stream, r)
    ensures Faithful(stream, ReadOut(r, len))
  {
    hide Tidy, TotalLength, Covers;
    var r' := ReadOut(r, len);
    assert forall i :: Accepted(r', i) <==> Accepted(r, i);
    assert forall i, b :: Stored(r', i, b) <==> Stored(r, i, b);
  }

  lemma {:induction false} RunFrom(stream: seq<Byte>, r: Reassembler, events: seq<Event>)
    requires Faithful(stream, r) && SliceEvents(stream, r, events)
    ensures Faithful(stream, Run(r, events))
    decreases |events|
  {
    hide Faithful, Push, ReadOut, Slice, Disturbs, Premature, Small;
    if events != [] {
      match events[0] {
        case PushEvent(data, index, eof) => SliceKeepsFaithful(stream, r, data, index, eof);
        case ReadEvent(len) => ReadKeepsFaithful(stream, r, len);
      }
      RunFrom(stream, Step(r, events[0]), events[1..]);
    }
  }

  /** In every such run the output is a prefix of the stream, and the whole stream once the input has ended. */
  lemma {:induction false} RunDeliversStream(stream: seq<Byte>, capacity: nat, events: seq<Event>)
    requires SliceEvents(stream, New(capacity), events)
    ensures var r := Run(New(capacity), events);
            && r.head <= |stream| && r.output.bytes == stream[..r.head]
            && (r.output.ended ==> r.output.bytes == stream)
  {
    hide SliceEvents, Run;
    assert Faithful(stream, New(capacity));
    RunFrom(stream, New(capacity), events);
    FaithfulOutput(stream, Run(New(capacity), events));
  }

  // ---------------------------------------------------------------- what the two excluded pushes do

  /** One past the last pending index, or `floor` when nothing is pending. */
  function LastPending(cache: seq<Node>, floor: nat): (t: nat)
    ensures floor <= t
    ensures forall k :: 0 <= k < |cache| && cache[k].data != [] ==> cache[k].End() <= t
    ensures t > floor ==> exists k :: 0 <= k < |cache| && cache[k].data != [] && cache[k].End() == t
  {
    if cache == [] then floor
    else
      var t := LastPending(cache[1..], floor);
      assert forall k :: 0 < k < |cache| ==> cache[k] == cache[1..][k - 1];
      if cache[0].data != [] && cache[0].End() > t then cache[0].End() else t
  }

  /**
   An end mark sent ahead of the last byte: pushing the true bytes up to the last pending one then ends the
   input although the stream is not complete.
   */
  lemma PrematureTruncates(stream: seq<Byte>, r: Reassembler, index: U64)
    returns (stop: nat)
    requires Faithful(stream, r) && Slice(stream, [], index, true) && Small(r, [])
    requires Premature(r, [], index, true) && !Disturbs(r, [], index)
    ensures r.head <= stop < |stream|
    ensures Slice(stream, stream[r.head..stop], r.head, false)
    ensures var r' := Push(Push(r, [], index, true), stream[r.head..stop], r.head, false);
            r'.output.ended && r'.output.bytes == stream[..stop]
  {
    hide Push, Tidy, TotalLength, Has, Disturbs, LastPending;
    FaithfulOutput(stream, r);
    PendingWithin(stream, r);
    stop := LastPending(r.cache, r.head);
    var more := stream[r.head..stop];
    assert stop < |stream| by {
      assert stop == |stream| ==> Accepted(r, index - 1);
    }
    PushHolds(r, [], index, true);
    SliceKeepsBytes(stream, r, [], index, true);
    var r1 := Push(r, [], index, true);
    assert r1.eof by {
      assert Low64(index + 0) == index;
    }
    SameAccepted(r, r1);
    NotDisturbed(r1, more);
    PushHolds(r1, more, r.head, false);
    SliceKeepsBytes(stream, r1, more, r.head, false);
    var r2 := Push(r1, more, r.head, false);
    HeadWithin(stream, r2);
    if r1.output.ended {
      NothingPending(r1.cache);
      assert stop == r.head;
    } else {
      forall i
        ensures Accepted(r2, i) <==> 0 <= i < stop
      {
        assert Accepted(r2.(output := r2.output.(ended := false)), i) <==> Accepted(r2, i);
      }
      WrittenUpTo(r2, stop);
    }
  }

  lemma WrittenUpTo(r: Reassembler, stop: nat)
    requires Inv(r) && forall i :: Accepted(r, i) <==> 0 <= i < stop
    ensures r.head == stop && r.unassembled == 0
  {
    PendingIsAbove(r);
    NothingPending(r.cache);
    assert Accepted(r, r.head) <==> 0 <= r.head < stop;
    assert Accepted(r, stop) <==> 0 <= stop < stop;
    forall i
      ensures !Covers(r.cache, i)
    {
      assert Covers(r.cache, i) ==> Accepted(r, i);
    }
  }

  lemma NotDisturbed(r: Reassembler, data: seq<Byte>)
    requires Inv(r)
    ensures !Disturbs(r, data, r.head)
  {
  }

  lemma PendingWithin(stream: seq<Byte>, r: Reassembler)
    requires Inv(r) && HoldsOnly(stream, r)
    ensures var stop := LastPending(r.cache, r.head);
            && stop <= |stream| && stop <= r.Limit()
            && (forall i :: Covers(r.cache, i) ==> i < stop)
            && (stop > r.head ==> Covers(r.cache, stop - 1))
  {
    var stop := LastPending(r.cache, r.head);
    HeadWithin(stream, r);
    if stop > r.head {
      var k :| 0 <= k < |r.cache| && r.cache[k].data != [] && r.cache[k].End() == stop;
      assert NodeHas(r.cache[k], stop - 1, r.cache[k].data[|r.cache[k].data| - 1]);
      assert Stored(r, stop - 1, r.cache[k].data[|r.cache[k].data| - 1]);
    }
  }

  lemma SameAccepted(r: Reassembler, r': Reassembler)
    requires Inv(r) && Inv(r')
    requires forall i :: Accepted(r, i) <==> Accepted(r', i)
    ensures r.head == r'.head && forall i :: Covers(r.cache, i) <==> Covers(r'.cache, i)
  {
    hide Tidy, TotalLength;
    PendingIsAbove(r);
    PendingIsAbove(r');
    assert Accepted(r, r'.head) <==> Accepted(r', r'.head);
    assert Accepted(r, r.head) <==> Accepted(r', r.head);
    forall i
      ensures Covers(r.cache, i) <==> Covers(r'.cache, i)
    {
      assert Accepted(r, i) <==> Accepted(r', i);
    }
  }

  lemma {:induction false} AssembleKeepsEof(r: Reassembler)
    ensures Assemble(r).eof == r.eof
    decreases |r.cache|
  {
    if r.cache != [] && r.cache[0].start <= r.head {
      AssembleKeepsEof(WriteFirst(r));
    }
  }
}
