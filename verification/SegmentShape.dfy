/** What the segments of a sender look like: their header fields, and how the stream is divided among them. */
module SegmentShapes {
  import opened Words
  import opened WrappingIntegers
  import opened ByteStreams
  import opened TcpSegments
  import opened TcpSenders
  import opened SenderRuns

  // ---------------------------------------------------------------- header fields

  /** Besides its number, SYN and FIN, the header says nothing: no reset, no urgent or pushed data, no options. */
  predicate Pristine(seg: Segment) {
    var h := seg.header;
    && !h.rst && !h.urg && !h.psh && !h.ack && h.doff == 5
    && h.sport == h.dport == h.ackno == h.win == h.cksum == h.uptr == 0
  }

  predicate PristineSender(s: Sender) {
    && (forall k :: 0 <= k < |s.segmentsOut| ==> Pristine(s.segmentsOut[k]))
    && (forall k :: 0 <= k < |s.cache| ==> Pristine(s.cache[k].segment))
  }

  lemma TransmitPristine(s: Sender, syn: bool, payload: seq<Byte>, fin: bool)
    requires PristineSender(s)
    ensures PristineSender(Transmit(s, syn, payload, fin))
  {
    hide Wrap, Low64;
  }

  lemma {:induction false} FillLoopPristine(s: Sender)
    requires PristineSender(s)
    ensures PristineSender(FillLoop(s))
    decreases s.Unused()
  {
    hide PristineSender;
    if Pending(s) && s.Unused() > 0 {
      var (cut, isSyn, content, isFin) := Cut(s);
      if isSyn || content != [] || isFin {
        SameSegments(s, cut);
        TransmitPristine(cut, isSyn, content, isFin);
        FillLoopPristine(Transmit(cut, isSyn, content, isFin));
      }
    }
  }

  lemma SameSegments(s: Sender, s': Sender)
    requires PristineSender(s) && s'.segmentsOut == s.segmentsOut && s'.cache == s.cache
    ensures PristineSender(s')
  {
  }

  lemma FillPristine(s: Sender)
    requires PristineSender(s)
    ensures PristineSender(FillWindow(s))
  {
    hide PristineSender, FillLoop, Transmit;
    FillLoopPristine(s);
    var popped := s.(stream := Pop(s.stream, 1));
    SameSegments(s, popped);
    TransmitPristine(popped, false, Peek(s.stream, 1), false);
    SameSegments(s, s.(fin := true));
    TransmitPristine(s.(fin := true), false, [], true);
  }

  lemma {:induction false} RemovePristine(s: Sender)
    requires PristineSender(s)
    ensures PristineSender(RemoveAcked(s))
    decreases |s.cache|
  {
    hide FullyAcked;
    if s.cache != [] && FullyAcked(s, s.cache[0].segment) {
      RemovePristine(s.(cache := s.cache[1..]));
    }
  }

  lemma AckPristine(s: Sender, ackno: U32, win: U16)
    requires PristineSender(s)
    ensures PristineSender(AckReceived(s, ackno, win))
  {
    hide Unwrap, Low32, Low64, RemoveAcked;
    var s1 := WindowUpdate(s, ackno, win);
    RemovePristine(s1.(timeout := s.initialTimeout, retransmissions := 0, latestAckno := ackno));
  }

  lemma TickPristine(s: Sender, ms: nat)
    requires PristineSender(s)
    ensures PristineSender(Tick(s, ms))
  {
    hide RemoveAcked, Low32;
    RemovePristine(s.(now := s.now + ms));
  }

  /** Every event whatsoever keeps it. */
  lemma StepPristine(s: Sender, e: Event)
    requires PristineSender(s)
    ensures PristineSender(Step(s, e))
  {
    hide FillWindow, AckReceived, Tick, Wrap, Low64;
    match e
    case Fill => FillPristine(s);
    case Ack(ackno, win) => AckPristine(s, ackno, win);
    case Elapse(ms) => TickPristine(s, ms);
    case _ =>
  }

  /** Over every run, whatever is queued or outstanding has such a header. */
  lemma {:induction false} RunPristine(s: Sender, events: seq<Event>)
    requires PristineSender(s)
    ensures PristineSender(Run(s, events))
    decreases |events|
  {
    hide PristineSender, Step;
    if events != [] {
      StepPristine(s, events[0]);
      RunPristine(Step(s, events[0]), events[1..]);
    }
  }

  // ---------------------------------------------------------------- division into segments

  /**
   Segments as large as possible: all but the last carry 1000 bytes, and one without payload, unless it is SYN, is
   the only one; FIN travels with the last byte.
   */
  predicate Maximal(segs: seq<Segment>) {
    && (forall k :: 0 <= k < |segs| - 1 ==> |segs[k].payload| == 1000)
    && (forall k :: 0 <= k < |segs| && segs[k].payload == [] && !segs[k].header.syn ==> |segs| == 1)
    && (forall k :: 0 <= k < |segs| ==> |segs[k].payload| <= 1000)
  }

  /** The segments that filling the window adds to the queue. */
  function Added(s: Sender, s': Sender): seq<Segment>
    requires |s.segmentsOut| <= |s'.segmentsOut|
  {
    s'.segmentsOut[|s.segmentsOut|..]
  }

  /** After a turn that leaves something to do, the segment sent was full and more bytes are buffered. */
  lemma TurnIsFull(s: Sender)
    requires Pending(s) && s.Unused() > 0
    ensures var (cut, isSyn, content, isFin) := Cut(s);
            var next := Transmit(cut, isSyn, content, isFin);
            && isSyn == !s.syned && |content| <= 1000 && (content != [] <==> s.stream.Buffered() > 0)
            && (isFin ==> s.stream.ended && !s.fin)
            && (isSyn || content != [] || isFin ==> Sendable(next) ==> |content| == 1000 && next.stream.Buffered() > 0)
            && next.syned
  {
    hide Wrap, Low64;
  }

  /** There is room in the window and something to send. */
  predicate Sendable(s: Sender) {
    s.Unused() > 0 && (s.stream.Buffered() > 0 || (s.stream.Eof() && !s.fin))
  }

  lemma TurnAdds(s: Sender)
    ensures var (cut, isSyn, content, isFin) := Cut(s);
            var next := Transmit(cut, isSyn, content, isFin);
            && |next.segmentsOut| == |s.segmentsOut| + 1 && s.segmentsOut <= next.segmentsOut
            && var seg := next.segmentsOut[|s.segmentsOut|];
            seg.payload == content && seg.header.syn == isSyn
  {
    hide Wrap, Low64, PayloadSize;
  }

  lemma {:induction false} FillLoopMaximal(s: Sender)
    ensures s.segmentsOut <= FillLoop(s).segmentsOut && Maximal(Added(s, FillLoop(s)))
    ensures s.syned && Added(s, FillLoop(s)) != [] ==>
              Sendable(s) && (s.stream.Buffered() > 0 ==> Added(s, FillLoop(s))[0].payload != [])
    decreases s.Unused()
  {
    hide Cut, Transmit, Maximal;
    var s' := FillLoop(s);
    if Pending(s) && s.Unused() > 0 {
      var (cut, isSyn, content, isFin) := Cut(s);
      if isSyn || content != [] || isFin {
        var next := Transmit(cut, isSyn, content, isFin);
        TurnIsFull(s);
        TurnAdds(s);
        TurnShrinks(s);
        FillLoopMaximal(next);
        var seg := next.segmentsOut[|s.segmentsOut|];
        assert Added(s, s') == [seg] + Added(next, s');
        MaximalCons(seg, Added(next, s'));
      } else {
        assert Added(s, s') == [];
        NothingIsMaximal();
      }
    } else {
      assert Added(s, s') == [];
      NothingIsMaximal();
    }
  }

  lemma TurnShrinks(s: Sender)
    requires Pending(s) && s.Unused() > 0
    ensures var (cut, isSyn, content, isFin) := Cut(s);
            isSyn || content != [] || isFin ==> Transmit(cut, isSyn, content, isFin).Unused() < s.Unused()
  {
    hide Wrap, Low64, PayloadSize;
  }

  lemma NothingIsMaximal()
    ensures Maximal([])
  {
  }

  lemma MaximalCons(seg: Segment, rest: seq<Segment>)
    requires Maximal(rest) && |seg.payload| <= 1000
    requires rest != [] ==> |seg.payload| == 1000 && (rest[0].payload != [] || rest[0].header.syn)
    ensures Maximal([seg] + rest)
  {
    var segs := [seg] + rest;
    assert forall k :: 0 < k < |segs| ==> segs[k] == rest[k - 1];
  }

  /** However much is sent, it is sent in segments as large as possible. */
  lemma FillMaximal(s: Sender)
    ensures s.segmentsOut <= FillWindow(s).segmentsOut && Maximal(Added(s, FillWindow(s)))
  {
    hide Wrap, Low64, FillLoop;
    FillLoopMaximal(s);
  }

  /** An empty segment: one more in the queue, with the next number and nothing else. */
  lemma EmptySegmentIs(s: Sender)
    ensures var s' := SendEmpty(s);
            && s' == s.(segmentsOut := s'.segmentsOut) && |s'.segmentsOut| == |s.segmentsOut| + 1
            && s.segmentsOut <= s'.segmentsOut
            && var seg := s'.segmentsOut[|s.segmentsOut|];
            && Pristine(seg) && seg.Length() == 0 && seg.header.seqno == Low32(Low64(s.nextSeqno) + s.isn)
  {
    hide Wrap, Low64, Low32;
    WrapIsLow(Low64(s.nextSeqno), s.isn);
  }
}
