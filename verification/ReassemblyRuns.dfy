/**
 Whole runs of the reassembler against a reference machine that only remembers
 which indices arrived inside the window.
 */
module ReassemblyRuns {
  import opened Words
  import opened StreamReassemblers
  import opened ReassemblyProofs

  // ---------------------------------------------------------------- the simple machine

  /** The reference receiver: the set of indices received in the window, and nothing else. */
  datatype Reference = Reference(capacity: nat, received: set<int>, read: nat, eof: bool, ended: bool)

  function Range(lo: int, hi: int): (s: set<int>)
    ensures forall i :: i in s <==> lo <= i < hi
    ensures |s| == Max(0, hi - lo)
    decreases hi - lo
  {
    if lo >= hi then {} else {lo} + Range(lo + 1, hi)
  }

  /** The least index from `k` on that is missing. */
  function Frontier(received: set<int>, k: int): (h: int)
    ensures k <= h && h !in received && forall i :: k <= i < h ==> i in received
    decreases received
  {
    if k !in received then k
    else
      var h := Frontier(received - {k}, k + 1);
      h
  }

  datatype Event = PushEvent(data: seq<Byte>, index: U64, eof: bool) | ReadEvent(len: nat)

  function Step(r: Reassembler, e: Event): Reassembler {
    match e
    case PushEvent(data, index, eof) => Push(r, data, index, eof)
    case ReadEvent(len) => ReadOut(r, len)
  }

  function ReferenceStep(m: Reference, e: Event): Reference {
    var limit := m.capacity + m.read;
    match e
    case PushEvent(data, index, eof) =>
      if m.ended then m
      else
        var received := m.received + Range(index, Min(index + |data|, limit));
        var eof' := m.eof || (eof && Low64(index + |data|) <= limit);
        m.(received := received, eof := eof',
           ended := eof' && forall i :: i in received ==> i < Frontier(received, 0))
    case ReadEvent(len) =>
      m.(read := m.read + Min(len, Frontier(m.received, 0) - m.read))
  }

  predicate Allowed(r: Reassembler, e: Event) {
    e.PushEvent? ==> Small(r, e.data) && !Disturbs(r, e.data, e.index)
  }

  ghost predicate Refines(r: Reassembler, m: Reference) {
    && Inv(r)
    && r.output.capacity == m.capacity && r.output.read == m.read && r.output.ended == m.ended
    && r.head == Frontier(m.received, 0)
    && (!m.ended ==> r.eof == m.eof && forall i :: i in m.received <==> Accepted(r, i))
  }

  lemma {:induction false} NothingPending(cache: seq<Node>)
    ensures TotalLength(cache) == 0 <==> forall i :: !Covers(cache, i)
  {
    if cache != [] {
      NothingPending(cache[1..]);
      var rest := cache[1..];
      if TotalLength(cache) == 0 {
        forall i
          ensures !Covers(cache, i)
        {
          assert !Covers(rest, i);
          assert forall k :: 0 < k < |cache| ==> cache[k] == rest[k - 1];
        }
      } else if |cache[0].data| > 0 {
        assert NodeCovers(cache[0], cache[0].start);
        assert Covers(cache, cache[0].start);
      } else {
        var i :| Covers(rest, i);
        var k :| 0 <= k < |rest| && NodeCovers(rest[k], i);
        assert cache[k + 1] == rest[k];
        assert Covers(cache, i);
      }
    }
  }

  /** The head is the least index never accepted. */
  lemma HeadIsFrontier(r: Reassembler, received: set<int>)
    requires Inv(r) && forall i :: i in received <==> Accepted(r, i)
    ensures r.head == Frontier(received, 0)
  {
    hide Tidy, TotalLength;
    var h := Frontier(received, 0);
    assert h < r.head ==> Accepted(r, h);
    assert !Covers(r.cache, r.head);
    assert !Accepted(r, r.head);
  }

  lemma PushRefines(r: Reassembler, m: Reference, e: Event)
    requires Refines(r, m) && e.PushEvent? && Allowed(r, e)
    ensures Refines(Step(r, e), ReferenceStep(m, e))
  {
    hide Push, Tidy, TotalLength, Covers, Frontier, Disturbs, Low64;
    PushHolds(r, e.data, e.index, e.eof);
    var r', m' := Step(r, e), ReferenceStep(m, e);
    if !m.ended {
      forall i
        ensures i in m'.received <==> Accepted(r', i)
      {
        assert Accepted(r'.(output := r'.output.(ended := r.output.ended)), i) <==> Accepted(r', i);
      }
      HeadIsFrontier(r', m'.received);
      NothingPending(r'.cache);
      PendingIsAbove(r');
      if r'.unassembled != 0 {
        var i :| Covers(r'.cache, i);
        assert Accepted(r', i) && !(i < Frontier(m'.received, 0));
      }
    }
  }

  lemma PendingIsAbove(r: Reassembler)
    requires Inv(r)
    ensures forall i :: Covers(r.cache, i) ==> r.head < i
  {
    hide Tidy, TotalLength;
  }

  lemma ReadRefines(r: Reassembler, m: Reference, e: Event)
    requires Refines(r, m) && e.ReadEvent?
    ensures Refines(Step(r, e), ReferenceStep(m, e))
  {
    hide Tidy, TotalLength, Covers, Frontier;
    var r' := Step(r, e);
    assert forall i :: Accepted(r', i) <==> Accepted(r, i);
  }

  function Run(r: Reassembler, events: seq<Event>): Reassembler
    decreases |events|
  {
    if events == [] then r else Run(Step(r, events[0]), events[1..])
  }

  function ReferenceRun(m: Reference, events: seq<Event>): Reference
    decreases |events|
  {
    if events == [] then m else ReferenceRun(ReferenceStep(m, events[0]), events[1..])
  }

  /** Every push of the run is small and, when it happens, does not disturb the cache. */
  predicate AllAllowed(r: Reassembler, events: seq<Event>)
    decreases |events|
  {
    events == [] || (Allowed(r, events[0]) && AllAllowed(Step(r, events[0]), events[1..]))
  }

  lemma {:induction false} RunRefinesFrom(r: Reassembler, m: Reference, events: seq<Event>)
    requires Refines(r, m) && AllAllowed(r, events)
    ensures Refines(Run(r, events), ReferenceRun(m, events))
    decreases |events|
  {
    hide Refines, Step, ReferenceStep, Allowed;
    if events != [] {
      if events[0].PushEvent? {
        PushRefines(r, m, events[0]);
      } else {
        ReadRefines(r, m, events[0]);
      }
      RunRefinesFrom(Step(r, events[0]), ReferenceStep(m, events[0]), events[1..]);
    }
  }

  /** The number of distinct pending indices is the sum of the lengths. */
  lemma {:induction false} DistinctPending(cache: seq<Node>) returns (pending: set<int>)
    requires Tidy(cache)
    ensures forall i :: i in pending <==> Covers(cache, i)
    ensures |pending| == TotalLength(cache)
  {
    if cache == [] {
      pending := {};
    } else {
      var rest := cache[1..];
      assert Tidy(rest) by {
        assert forall k :: 0 <= k < |rest| ==> rest[k] == cache[k + 1];
      }
      var later := DistinctPending(rest);
      var first := Range(cache[0].start, cache[0].End());
      forall i
        ensures Covers(cache, i) <==> i in first || i in later
      {
        if i in later {
          var k :| 0 <= k < |rest| && NodeCovers(rest[k], i);
          assert NodeCovers(cache[k + 1], i);
        }
        if i in first {
          assert NodeCovers(cache[0], i);
        }
        if Covers(cache, i) && i !in first {
          var k :| 0 <= k < |cache| && NodeCovers(cache[k], i);
          assert NodeCovers(rest[k - 1], i);
        }
      }
      forall i | i in later
        ensures i !in first
      {
        var k :| 0 <= k < |rest| && NodeCovers(rest[k], i);
        assert Precedes(cache[0], cache[k + 1]);
      }
      assert first !! later;
      pending := first + later;
    }
  }

  /**
   Every run of pushes and reads from a new reassembler agrees with the reference machine: same end flag,
   the head is the least index never received, and until the end the pending count is the number of distinct
   indices received above the head.
   */
  lemma {:induction false} RunRefines(capacity: nat, events: seq<Event>)
    requires AllAllowed(New(capacity), events)
    ensures var r := Run(New(capacity), events);
            var m := ReferenceRun(Reference(capacity, {}, 0, false, false), events);
            && Refines(r, m)
            && (!m.ended ==> r.unassembled == |m.received| - Frontier(m.received, 0))
  {
    hide Allowed, Frontier;
    var r0, m0 := New(capacity), Reference(capacity, {}, 0, false, false);
    assert Refines(r0, m0) by {
      assert forall i :: !Accepted(r0, i);
      HeadIsFrontier(r0, m0.received);
    }
    RunRefinesFrom(r0, m0, events);
    var r, m := Run(r0, events), ReferenceRun(m0, events);
    if !m.ended {
      var pending := DistinctPending(r.cache);
      PendingIsAbove(r);
      var done := Range(0, r.head);
      assert done !! pending;
      assert m.received == done + pending;
    }
  }
}
