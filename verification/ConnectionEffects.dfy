/**
 What the events of a connection do to its parts: the sender is driven by a few
 sender events, the receiver by what arrives, and the queue is handed over, stamped.
 */
module ConnectionEffects {
  import opened Words
  import opened WrappingIntegers
  import opened ByteStreams
  import opened TcpSegments
  import opened TcpSenders
  import SR = SenderRuns
  import TR = TcpReceivers
  import opened TcpConnections
  import CP = ConnectionProofs

  /** Failing only sets the error flag of a stream. */
  function Healthy(s: Sender): Sender {
    s.(stream := s.stream.(error := false))
  }

  function HealthyReceiver(r: TR.Receiver): TR.Receiver {
    r.(reassembler := r.reassembler.(output := r.reassembler.output.(error := false)))
  }

  /** What an event does to the sender of the connection, before the queue is handed over. */
  function SenderEvents(c: Connection, e: CP.Event): seq<SR.Event> {
    match e
    case Arrives(seg) =>
      if seg.header.rst then []
      else
        (if seg.header.ack then [SR.Ack(seg.header.ackno, seg.header.win)] else []) +
        AnswerEvents(Absorbed(c.(lastReceived := c.now), seg), seg)
    case Writes(data) => [SR.AppWrite(data), SR.Fill]
    case Closes => [SR.AppClose, SR.Fill]
    case Opens => [SR.Fill]
    case Ticks(ms) => [SR.Elapse(ms)]
    case Reads(_) => []
  }

  /** The same for the answer to a segment that has been absorbed. */
  function AnswerEvents(c: Connection, seg: Segment): seq<SR.Event> {
    if (Finished(c) && !c.linger) || c.receiver.Ackno().None? then []
    else if FillWindow(c.sender).segmentsOut == [] && Owed(c, seg) then [SR.Fill, SR.Empty]
    else [SR.Fill]
  }

  predicate Owed(c: Connection, seg: Segment)
    requires c.receiver.Ackno().Some?
  {
    seg.Length() > 0 || seg.header.seqno == Low32(c.receiver.Ackno().value - 1)
  }

  /** The sender with the segments that the event is about to hand over. */
  function Loaded(c: Connection, e: CP.Event): Sender {
    SR.Run(c.sender, SenderEvents(c, e))
  }

  // ---------------------------------------------------------------- the sender

  lemma RunTwo(s: Sender, e: SR.Event, f: SR.Event)
    ensures SR.Run(s, []) == s && SR.Run(s, [e]) == SR.Step(s, e)
    ensures SR.Run(s, [e, f]) == SR.Step(SR.Step(s, e), f)
  {
    hide SR.Step;
    assert [e][1..] == [] && [e, f][1..] == [f] && [f][1..] == [];
    assert SR.Run(s, [e]) == SR.Run(SR.Step(s, e), []);
    assert SR.Run(s, [e, f]) == SR.Run(SR.Step(s, e), [f]);
    assert SR.Run(SR.Step(s, e), [f]) == SR.Run(SR.Step(SR.Step(s, e), f), []);
  }

  lemma {:induction false} RunCons(s: Sender, e: SR.Event, es: seq<SR.Event>)
    ensures SR.Run(s, [e] + es) == SR.Run(SR.Step(s, e), es)
  {
    hide SR.Step;
    assert ([e] + es)[1..] == es;
  }

  /** After an event the connection's sender is the loaded one with its queue handed over, apart from the error flag. */
  lemma SenderIs(c: Connection, e: CP.Event)
    requires c.sender.segmentsOut == []
    ensures Healthy(CP.Step(c, e).sender) == Healthy(Loaded(c, e)).(segmentsOut := [])
    ensures !CP.Failed(CP.Step(c, e)) ==> CP.Step(c, e).sender == Loaded(c, e).(segmentsOut := [])
  {
    hide FillWindow, Receive, TickConnection, SR.Run, StampAll, AnswerEvents, Absorbed;
    match e
    case Arrives(seg) =>
      ReceiveDrives(c, seg);
      ResetFails(c, seg);
    case Writes(data) => RunTwo(c.sender, SR.AppWrite(data), SR.Fill);
    case Closes => RunTwo(c.sender, SR.AppClose, SR.Fill);
    case Opens => RunTwo(c.sender, SR.Fill, SR.Fill);
    case Ticks(ms) =>
      RunTwo(c.sender, SR.Elapse(ms), SR.Fill);
      TickDrives(c, ms);
    case Reads(len) => RunTwo(c.sender, SR.Fill, SR.Fill);
  }

  lemma ResetFails(c: Connection, seg: Segment)
    ensures seg.header.rst ==> CP.Failed(Receive(c, seg))
  {
  }

  lemma TickDrives(c: Connection, ms: nat)
    ensures var c', s := TickConnection(c, ms), Tick(c.sender, ms);
            && Healthy(c'.sender) == Healthy(s).(segmentsOut := [])
            && (!CP.Failed(c') ==> c'.sender == s.(segmentsOut := []))
  {
    hide Tick, Finished, StampAll, RstSegment;
  }

  lemma ReceiveDrives(c: Connection, seg: Segment)
    requires c.sender.segmentsOut == []
    ensures var s := Loaded(c, CP.Arrives(seg));
            && Healthy(Receive(c, seg).sender) == Healthy(s).(segmentsOut := [])
            && (!seg.header.rst ==> Receive(c, seg).sender == s.(segmentsOut := []))
  {
    hide Absorbed, Answer, AnswerEvents, Finished, SR.Run;
    if seg.header.rst {
      RunTwo(c.sender, SR.Fill, SR.Fill);
    } else {
      var c2 := Absorbed(c.(lastReceived := c.now), seg);
      AckDrives(c, seg, AnswerEvents(c2, seg));
      AbsorbedSender(c, seg);
      AnswerHandsOver(c2, seg);
    }
  }

  lemma AbsorbedSender(c: Connection, seg: Segment)
    ensures var c2 := Absorbed(c.(lastReceived := c.now), seg);
            && c2.sender == CP.Acknowledged(c.sender, seg) && c2.sender.segmentsOut == c.sender.segmentsOut
            && c2.receiver == TR.SegmentReceived(c.receiver, seg)
  {
    hide AckReceived, TR.SegmentReceived;
    AckQueuesNothing(c.sender, seg);
  }

  lemma AckDrives(c: Connection, seg: Segment, es: seq<SR.Event>)
    ensures var acks := if seg.header.ack then [SR.Ack(seg.header.ackno, seg.header.win)] else [];
            SR.Run(c.sender, acks + es) == SR.Run(CP.Acknowledged(c.sender, seg), es)
  {
    hide SR.Run, AckReceived;
    if seg.header.ack {
      RunCons(c.sender, SR.Ack(seg.header.ackno, seg.header.win), es);
    } else {
      assert [] + es == es;
    }
  }

  lemma AckQueuesNothing(s: Sender, seg: Segment)
    ensures CP.Acknowledged(s, seg).segmentsOut == s.segmentsOut
  {
    hide Unwrap;
    if seg.header.ack {
      AckFrame(s, seg.header.ackno, seg.header.win);
    }
  }

  lemma AckFrame(s: Sender, ackno: U32, win: U16)
    ensures var s' := AckReceived(s, ackno, win);
            s'.segmentsOut == s.segmentsOut && s'.stream == s.stream && s'.syned == s.syned
  {
    hide Unwrap, Low32, Low64;
    RemoveFrame(WindowUpdate(s, ackno, win).(timeout := s.initialTimeout, retransmissions := 0, latestAckno := ackno));
  }

  lemma {:induction false} RemoveFrame(s: Sender)
    ensures RemoveAcked(s) == s.(cache := RemoveAcked(s).cache)
    decreases |s.cache|
  {
    hide FullyAcked;
    if s.cache != [] && FullyAcked(s, s.cache[0].segment) {
      RemoveFrame(s.(cache := s.cache[1..]));
    }
  }

  lemma {:induction false} FillLoopKeepsError(s: Sender)
    ensures FillLoop(s).stream.error == s.stream.error
    decreases s.Unused()
  {
    hide Wrap, Low64;
    if Pending(s) && s.Unused() > 0 {
      var (cut, isSyn, content, isFin) := Cut(s);
      if isSyn || content != [] || isFin {
        FillLoopKeepsError(Transmit(cut, isSyn, content, isFin));
      }
    }
  }

  lemma StepKeepsError(s: Sender, e: SR.Event)
    ensures SR.Step(s, e).stream.error == s.stream.error
  {
    hide FillLoop, AckReceived, RemoveAcked, Wrap, Low64, Low32;
    match e
    case Fill => FillLoopKeepsError(s);
    case Ack(ackno, win) => AckFrame(s, ackno, win);
    case Elapse(ms) => RemoveFrame(s.(now := s.now + ms));
    case _ =>
  }

  lemma {:induction false} RunKeepsError(s: Sender, es: seq<SR.Event>)
    ensures SR.Run(s, es).stream.error == s.stream.error
    decreases |es|
  {
    hide SR.Step;
    if es != [] {
      StepKeepsError(s, es[0]);
      RunKeepsError(SR.Step(s, es[0]), es[1..]);
    }
  }

  // ---------------------------------------------------------------- the segments handed over

  /** The segments a connection hands over are the loaded ones, stamped by its receiver. */
  lemma HandsOver(c: Connection, e: CP.Event)
    requires c.sender.segmentsOut == [] && !CP.Failed(CP.Step(c, e))
    ensures var c' := CP.Step(c, e);
            c'.segmentsOut == c.segmentsOut + StampAll(c'.receiver, Loaded(c, e).segmentsOut)
  {
    hide FillWindow, Receive, TickConnection, SR.Run, StampAll, AnswerEvents, Absorbed;
    NothingStamped(c.receiver);
    match e
    case Arrives(seg) =>
      ResetFails(c, seg);
      ReceiveHandsOver(c, seg);
    case Writes(data) => RunTwo(c.sender, SR.AppWrite(data), SR.Fill);
    case Closes => RunTwo(c.sender, SR.AppClose, SR.Fill);
    case Opens => RunTwo(c.sender, SR.Fill, SR.Fill);
    case Ticks(ms) =>
      RunTwo(c.sender, SR.Elapse(ms), SR.Fill);
      TickHandsOver(c, ms);
    case Reads(len) =>
      RunTwo(c.sender, SR.Fill, SR.Fill);
      NothingStamped(TR.ReadStream(c.receiver, len));
  }

  lemma NothingStamped(r: TR.Receiver)
    ensures StampAll(r, []) == []
  {
  }

  lemma TickHandsOver(c: Connection, ms: nat)
    requires !CP.Failed(TickConnection(c, ms))
    ensures TickConnection(c, ms).segmentsOut == c.segmentsOut + StampAll(c.receiver, Tick(c.sender, ms).segmentsOut)
    ensures TickConnection(c, ms).receiver == c.receiver
  {
    hide Tick, Finished, StampAll, RstSegment;
  }

  lemma ReceiveHandsOver(c: Connection, seg: Segment)
    requires c.sender.segmentsOut == [] && !seg.header.rst
    ensures var c' := Receive(c, seg);
            && c'.receiver == TR.SegmentReceived(c.receiver, seg)
            && c'.segmentsOut == c.segmentsOut + StampAll(c'.receiver, Loaded(c, CP.Arrives(seg)).segmentsOut)
  {
    hide Absorbed, Answer, AnswerEvents, Finished, SR.Run, StampAll, TR.SegmentReceived;
    var c2 := Absorbed(c.(lastReceived := c.now), seg);
    AckDrives(c, seg, AnswerEvents(c2, seg));
    AbsorbedSender(c, seg);
    AbsorbedFrame(c, seg);
    AnswerHandsOver(c2, seg);
    NothingStamped(c2.receiver);
  }

  lemma AbsorbedFrame(c: Connection, seg: Segment)
    ensures Absorbed(c.(lastReceived := c.now), seg).segmentsOut == c.segmentsOut
  {
    hide AckReceived, TR.SegmentReceived;
  }

  lemma AnswerHandsOver(c: Connection, seg: Segment)
    requires c.sender.segmentsOut == []
    ensures var s := SR.Run(c.sender, AnswerEvents(c, seg));
            if Finished(c) && !c.linger then s == c.sender
            else Flush(Answer(c, seg)) ==
                 c.(sender := s.(segmentsOut := []), segmentsOut := c.segmentsOut + StampAll(c.receiver, s.segmentsOut))
  {
    hide FillWindow, Finished, SR.Run, Low32, StampAll;
    RunTwo(c.sender, SR.Fill, SR.Empty);
  }

  lemma {:induction false} StampedAt(r: TR.Receiver, segs: seq<Segment>, k: nat)
    requires k < |segs|
    ensures StampAll(r, segs)[k] == Stamp(r, segs[k])
    decreases k
  {
    hide Stamp;
    if k > 0 {
      StampedAt(r, segs[1..], k - 1);
    }
  }

  // ---------------------------------------------------------------- the receiver

  /** What an event does to the receiver of the connection, apart from the error flag. */
  lemma ReceiverIs(c: Connection, e: CP.Event)
    ensures HealthyReceiver(CP.Step(c, e).receiver) ==
            HealthyReceiver(
              match e
              case Arrives(seg) => if seg.header.rst then c.receiver else TR.SegmentReceived(c.receiver, seg)
              case Reads(len) => TR.ReadStream(c.receiver, len)
              case _ => c.receiver)
  {
    hide FillWindow, AckReceived, Tick, TR.SegmentReceived, Finished, StampAll, SendEmpty;
  }

  lemma ReceivedHealthy(r: TR.Receiver, seg: Segment)
    requires !r.Output().error
    ensures HealthyReceiver(TR.SegmentReceived(r, seg)) == TR.SegmentReceived(r, seg)
  {
    hide TR.SegmentReceived;
    CP.ReceiverCarries(r, seg);
  }
}
