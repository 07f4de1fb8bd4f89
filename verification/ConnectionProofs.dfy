/** When a connection may become inactive, and what that says about both streams. */
module ConnectionProofs {
  import opened Words
  import opened WrappingIntegers
  import opened ByteStreams
  import opened TcpSegments
  import opened TcpSenders
  import opened TcpReceivers
  import opened TcpConnections
  import SP = SenderProofs
  import SR = SenderRuns

  datatype Event =
    | Arrives(seg: Segment)
    | Writes(data: seq<Byte>)
    | Closes
    | Opens
    | Ticks(ms: nat)
    | Reads(len: nat)

  function Step(c: Connection, e: Event): Connection {
    match e
    case Arrives(seg) => Receive(c, seg)
    case Writes(data) => WriteData(c, data)
    case Closes => EndInputStream(c)
    case Opens => Connect(c)
    case Ticks(ms) => TickConnection(c, ms)
    case Reads(len) => c.(receiver := ReadStream(c.receiver, len))
  }

  /** Room for another window in sequence space, whatever its size. */
  predicate Spacious(s: Sender) {
    s.BytesInFlight() + 0x1_0000 < 0x8000_0000 && s.nextSeqno + 0x2_0000 < 0x8000_0000_0000_0000
  }

  /** The sender after it has seen the acknowledgment of a segment, if any. */
  function Acknowledged(s: Sender, seg: Segment): Sender {
    if seg.header.ack then AckReceived(s, seg.header.ackno, seg.header.win) else s
  }

  /** The event fills the window while it is closed and SYN is not sent, with something to send. */
  predicate SkipsSyn(c: Connection, e: Event) {
    match e
    case Arrives(seg) =>
      !seg.header.rst && (c.receiver.synced || seg.header.syn) && SP.SkipsSyn(Acknowledged(c.sender, seg))
    case Writes(data) => SP.SkipsSyn(c.sender.(stream := Write(c.sender.stream, data)))
    case Closes => SP.SkipsSyn(c.sender.(stream := EndInput(c.sender.stream)))
    case Opens => SP.SkipsSyn(c.sender)
    case Ticks(_) => false
    case Reads(_) => false
  }

  /** What every event relies on: room in sequence space, and SYN not about to be skipped. */
  predicate Enabled(c: Connection, e: Event) {
    Spacious(c.sender) && !SkipsSyn(c, e)
  }

  predicate Failed(c: Connection) {
    c.sender.stream.error || c.receiver.Output().error
  }

  /** SYN, every written byte and FIN were sent, and the peer has acknowledged all of them. */
  predicate AllAcknowledged(s: Sender) {
    s.stream.ended && s.syned && s.fin && s.stream.read == |s.stream.bytes| &&
    s.Acked() == s.nextSeqno == |s.stream.bytes| + 2
  }

  predicate Clean(c: Connection) {
    c.receiver.synced && c.receiver.Output().ended && AllAcknowledged(c.sender)
  }

  predicate Inv(c: Connection) {
    && SP.Inv(c.sender) && c.sender.segmentsOut == []
    && (Failed(c) ==> !c.active)
    && (!Failed(c) ==> c.sender.retransmissions <= MAX_RETX_ATTEMPTS)
    && (!Failed(c) && !c.linger ==> c.receiver.Output().ended)
    && (!Failed(c) && !c.active ==> Clean(c))
  }

  // ---------------------------------------------------------------- the state summaries

  lemma NextIs(s: Sender)
    requires SP.Inv(s)
    ensures s.nextSeqno == (if s.syned then 1 else 0) + s.stream.read + (if s.fin then 1 else 0)
  {
    hide SP.Flat, SP.Numbered, Pow2, SP.AckSound, SP.Timed;
  }

  /** The summaries FIN_RECV and FIN_ACKED mean what they say. */
  lemma FinishedIsClean(c: Connection)
    requires SP.Inv(c.sender)
    ensures Finished(c) <==> !Failed(c) && Clean(c)
  {
    hide SP.Flat, SP.Numbered, Pow2, SP.Sent, SP.Timed, Unwrap, Wrap;
    NextIs(c.sender);
    InFlightIsSmall(c.sender);
  }

  lemma InFlightIsSmall(s: Sender)
    requires SP.Inv(s)
    ensures Low64(s.BytesInFlight()) == s.BytesInFlight()
  {
    hide SP.Flat, SP.Numbered, Pow2, SP.Sent, SP.Timed, Unwrap;
  }

  // ---------------------------------------------------------------- a closed connection stays clean

  lemma AcknowledgedFill(s: Sender)
    requires SP.Inv(s) && AllAcknowledged(s)
    ensures FillWindow(s) == s
  {
    SR.FillAfterFin(s);
  }

  lemma AcknowledgedAck(s: Sender, ackno: U32, win: U16)
    requires SP.Inv(s) && AllAcknowledged(s)
    ensures AllAcknowledged(AckReceived(s, ackno, win))
  {
    hide SP.Inv, Unwrap, AckReceived;
    SP.AckKeeps(s, ackno, win);
  }

  lemma AcknowledgedTick(s: Sender, ms: nat)
    requires SP.Inv(s) && AllAcknowledged(s)
    ensures Tick(s, ms) == s.(now := s.now + ms)
  {
    hide SP.Tiles, SP.Timed, Unwrap, Tick;
    NothingOutstanding(s);
    SR.TickKeeps(s, ms);
  }

  lemma NothingOutstanding(s: Sender)
    requires SP.Inv(s) && s.Acked() == s.nextSeqno
    ensures s.cache == []
  {
    hide SP.Numbered, SP.Sent, SP.Timed, Unwrap;
    if s.cache != [] {
      SP.FlatFirst(s.cache);
    }
  }

  // ---------------------------------------------------------------- the sender inside the connection

  /** What the connection needs to know about a change of its sender. */
  ghost predicate Carries(s: Sender, s': Sender) {
    && SP.Inv(s')
    && s'.stream.error == s.stream.error
    && s'.retransmissions <= s.retransmissions
    && s.Acked() <= s'.Acked() && s'.nextSeqno - s'.Acked() <= s'.nextSeqno - s.Acked()
    && (AllAcknowledged(s) ==> AllAcknowledged(s'))
  }

  /** Writing or closing, then filling the window, then handing the segments over. */
  lemma StreamThenFill(s: Sender, stream: Stream)
    requires SP.Inv(s) && s.segmentsOut == [] && Spacious(s) && !SP.SkipsSyn(s.(stream := stream))
    requires (exists data :: stream == Write(s.stream, data)) || stream == EndInput(s.stream)
    ensures var s' := FillWindow(s.(stream := stream)).(segmentsOut := []);
            Carries(s, s') && s'.stream.error == s.stream.error && s'.retransmissions == s.retransmissions
  {
    hide Unwrap, SP.Tiles, SP.AckSound, SP.Timed, FillWindow, SP.Sent, SP.Genuine;
    var s1 := s.(stream := stream);
    SR.AppKeeps(s, stream);
    assert s1.Acked() == s.Acked();
    SP.FillWindowKeeps(s1);
    SR.DrainKeeps(FillWindow(s1));
    if AllAcknowledged(s) {
      assert stream == s.stream;
      assert s1 == s;
      AcknowledgedFill(s);
    }
  }

  lemma AckCarries(s: Sender, ackno: U32, win: U16)
    requires SP.Inv(s)
    ensures var s' := AckReceived(s, ackno, win);
            Carries(s, s') && s'.segmentsOut == s.segmentsOut && s'.nextSeqno == s.nextSeqno && s'.stream == s.stream
  {
    hide Unwrap, SP.Inv, AckReceived;
    SP.AckKeeps(s, ackno, win);
    if AllAcknowledged(s) {
      AcknowledgedAck(s, ackno, win);
    }
  }

  lemma AnswerCarries(c: Connection, seg: Segment)
    requires SP.Inv(c.sender) && c.sender.segmentsOut == [] && Spacious(c.sender)
    requires c.receiver.synced ==> !SP.SkipsSyn(c.sender)
    ensures var c' := Flush(Answer(c, seg));
            && Carries(c.sender, c'.sender) && c'.sender.segmentsOut == []
            && c'.receiver == c.receiver && c'.active == c.active && c'.linger == c.linger
  {
    hide Unwrap, SP.Inv, FillWindow, SendEmpty, SP.Extends;
    if c.receiver.Ackno().Some? {
      assert Write(c.sender.stream, []) == c.sender.stream;
      assert c.sender.(stream := c.sender.stream) == c.sender;
      StreamThenFill(c.sender, c.sender.stream);
      var s := FillWindow(c.sender);
      EmptyThenDrain(s);
    } else {
      SR.DrainKeeps(c.sender);
      assert c.sender.(segmentsOut := []) == c.sender;
    }
  }

  lemma EmptyThenDrain(s: Sender)
    ensures SendEmpty(s).(segmentsOut := []) == s.(segmentsOut := [])
  {
  }

  /** Handing a segment over changes neither error flag, and an ended stream stays ended. */
  lemma ReceiverCarries(r: Receiver, seg: Segment)
    ensures var r' := SegmentReceived(r, seg);
            && r'.Output().error == r.Output().error
            && (r.Output().ended ==> r'.Output().ended) && r'.synced == (r.synced || seg.header.syn)
  {
    hide SegmentReceived;
    StepGrows(r, Arrive(seg));
    SyncedBySyn(r, seg);
  }

  lemma SyncedBySyn(r: Receiver, seg: Segment)
    ensures SegmentReceived(r, seg).synced == (r.synced || seg.header.syn)
  {
    hide Unwrap;
  }

  lemma AbsorbedKeeps(c: Connection, seg: Segment)
    requires Inv(c) && Spacious(c.sender) && !seg.header.rst
    ensures var c' := Absorbed(c, seg);
            && Inv(c') && Spacious(c'.sender)
            && c'.sender == Acknowledged(c.sender, seg)
            && c'.receiver.synced == (c.receiver.synced || seg.header.syn)
            && c'.active == c.active && (c'.linger ==> c.linger) && (Failed(c') <==> Failed(c))
            && c'.now == c.now && c'.lastReceived == c.lastReceived && c'.timeout == c.timeout
  {
    hide Unwrap, SP.Inv, SegmentReceived, AckReceived, Low64;
    ReceiverCarries(c.receiver, seg);
    if seg.header.ack {
      AckCarries(c.sender, seg.header.ackno, seg.header.win);
    }
  }

  /** `segment_received`: the invariant, and a connection closed here did not need to linger. */
  lemma ReceiveKeeps(c: Connection, seg: Segment)
    requires Inv(c) && Enabled(c, Arrives(seg))
    ensures var c' := Receive(c, seg);
            && Inv(c')
            && (c'.active ==> c.active) && (c'.linger ==> c.linger) && (Failed(c) ==> Failed(c'))
            && (c.active && !c'.active && !Failed(c') ==> !c'.linger)
  {
    hide Unwrap, SP.Inv, Absorbed, Answer, Flush, Low64, Spacious, Finished;
    var c1 := c.(lastReceived := c.now);
    if seg.header.rst {
      ResetKeeps(c1);
    } else {
      AbsorbedKeeps(c1, seg);
      var c2 := Absorbed(c1, seg);
      FinishedIsClean(c2);
      if !(Finished(c2) && !c2.linger) {
        AnswerCarries(c2, seg);
      }
    }
  }

  lemma ResetKeeps(c: Connection)
    requires SP.Inv(c.sender) && c.sender.segmentsOut == []
    ensures Inv(SetRst(c)) && Failed(SetRst(c)) && !SetRst(c).active && !SetRst(c).linger
  {
    hide SP.Inv, SP.Sent, Unwrap;
    SR.AppKeeps(c.sender, SetError(c.sender.stream));
  }

  /** `write`, `end_input_stream` and `connect`. */
  lemma FillKeeps(c: Connection, stream: Stream)
    requires Inv(c) && Spacious(c.sender) && !SP.SkipsSyn(c.sender.(stream := stream))
    requires (exists data :: stream == Write(c.sender.stream, data)) || stream == EndInput(c.sender.stream)
    ensures var c' := Flush(c.(sender := FillWindow(c.sender.(stream := stream))));
            Inv(c') && c'.active == c.active && c'.linger == c.linger && (Failed(c') <==> Failed(c))
  {
    hide Unwrap, SP.Inv, FillWindow, Spacious;
    StreamThenFill(c.sender, stream);
  }

  lemma AfterTickKeeps(c: Connection, ms: nat)
    requires Inv(c)
    ensures var c' := AfterTick(c, ms);
            && Inv(c')
            && (c'.active ==> c.active) && (c'.linger ==> c.linger) && (Failed(c) ==> Failed(c'))
            && (c.active && !c'.active ==> Failed(c'))
            && c'.timeout == c.timeout
  {
    hide Unwrap, SP.Inv, Tick, SP.Sent, RstSegment;
    SR.TickKeeps(c.sender, ms);
    SR.TickFrame(c.sender, ms);
    TickCount(c.sender, ms);
    var c1 := c.(now := c.now + ms, sender := Tick(c.sender, ms));
    var drained := c1.sender.(segmentsOut := []);
    SR.DrainKeeps(c1.sender);
    if AllAcknowledged(c.sender) {
      AcknowledgedTick(c.sender, ms);
    }
    if c1.sender.retransmissions > MAX_RETX_ATTEMPTS {
      ResetKeeps(c1.(sender := drained));
      FlushReset(c1, [RstSegment(c1.sender)]);
    } else {
      assert drained.Acked() == c1.sender.Acked();
    }
  }

  /** Whatever is queued when the connection is reset is handed over by the flush. */
  lemma FlushReset(c: Connection, segs: seq<Segment>)
    ensures var c' := Flush(SetRst(c.(sender := c.sender.(segmentsOut := segs))));
            c' == SetRst(c.(sender := c.sender.(segmentsOut := []))).(segmentsOut := c'.segmentsOut)
  {
  }

  lemma TickCount(s: Sender, ms: nat)
    requires SP.Inv(s)
    ensures Tick(s, ms).retransmissions <= s.retransmissions + 1
  {
    hide SP.Inv, Unwrap, Tick;
    SR.TickKeeps(s, ms);
  }

  /** `tick`: the invariant, and a connection closed here without failing had waited long enough. */
  lemma TickKeeps(c: Connection, ms: nat)
    requires Inv(c)
    ensures var c' := TickConnection(c, ms);
            && Inv(c')
            && (c'.active ==> c.active) && (c'.linger ==> c.linger) && (Failed(c) ==> Failed(c'))
            && (c.active && !c'.active && !Failed(c') ==> c'.now - c'.lastReceived >= 10 * c'.timeout)
  {
    hide SP.Inv, AfterTick, Finished, Unwrap;
    AfterTickKeeps(c, ms);
    FinishedIsClean(AfterTick(c, ms));
  }

  // ---------------------------------------------------------------- whole runs

  /**
   Every event keeps the invariant; `active` never comes back, failure and the decision not to linger are
   final; and a connection that closes without failing while it still lingers has heard nothing for ten timeouts.
   */
  lemma StepKeeps(c: Connection, e: Event)
    requires Inv(c) && Enabled(c, e)
    ensures var c' := Step(c, e);
            && Inv(c')
            && (c'.active ==> c.active) && (c'.linger ==> c.linger) && (Failed(c) ==> Failed(c'))
            && (c.active && !c'.active && !Failed(c') && c'.linger ==> c'.now - c'.lastReceived >= 10 * c'.timeout)
  {
    hide SP.Inv, Receive, TickConnection, FillWindow, Unwrap, Low64;
    match e
    case Arrives(seg) => ReceiveKeeps(c, seg);
    case Writes(data) => FillKeeps(c, Write(c.sender.stream, data));
    case Closes => FillKeeps(c, EndInput(c.sender.stream));
    case Opens =>
      assert Write(c.sender.stream, []) == c.sender.stream;
      assert c.sender.(stream := c.sender.stream) == c.sender;
      FillKeeps(c, c.sender.stream);
    case Ticks(ms) => TickKeeps(c, ms);
    case Reads(len) =>
  }

  /** Given room, an event keeps the invariant exactly when it does not skip SYN. */
  lemma StepExact(c: Connection, e: Event)
    requires Inv(c) && Spacious(c.sender)
    ensures Inv(Step(c, e)) <==> !SkipsSyn(c, e)
  {
    hide SP.Inv, Step, Spacious, FillWindow;
    if SkipsSyn(c, e) {
      var s := SkippedSyn(c, e);
      SynMissing(s, Step(c, e).sender);
    } else {
      StepKeeps(c, e);
    }
  }

  lemma SynMissing(s: Sender, s': Sender)
    requires SP.Inv(s) && SP.SkipsSyn(s) && s'.syned == FillWindow(s).syned && s'.nextSeqno == FillWindow(s).nextSeqno
    ensures !SP.Inv(s')
  {
    hide FillWindow, SP.Tiles, SP.AckSound, SP.Timed;
    SP.SkippedSyn(s);
  }

  /** The event that skips SYN does fill the window of the sender `s` described by the condition. */
  lemma SkippedSyn(c: Connection, e: Event) returns (s: Sender)
    requires Inv(c) && Spacious(c.sender) && SkipsSyn(c, e)
    ensures SP.Inv(s) && SP.SkipsSyn(s)
    ensures Step(c, e).sender.syned == FillWindow(s).syned && Step(c, e).sender.nextSeqno == FillWindow(s).nextSeqno
  {
    hide SP.Inv, FillWindow, Spacious, AckReceived, SegmentReceived, Finished, Unwrap, SP.Sent;
    match e
    case Arrives(seg) =>
      var c1 := c.(lastReceived := c.now);
      AbsorbedKeeps(c1, seg);
      FinishedIsClean(Absorbed(c1, seg));
      s := Acknowledged(c.sender, seg);
    case Writes(data) =>
      SR.AppKeeps(c.sender, Write(c.sender.stream, data));
      s := c.sender.(stream := Write(c.sender.stream, data));
    case Closes =>
      SR.AppKeeps(c.sender, EndInput(c.sender.stream));
      s := c.sender.(stream := EndInput(c.sender.stream));
    case Opens => s := c.sender;
  }

  function Run(c: Connection, events: seq<Event>): Connection
    decreases |events|
  {
    if events == [] then c else Run(Step(c, events[0]), events[1..])
  }

  predicate AllEnabled(c: Connection, events: seq<Event>)
    decreases |events|
  {
    events == [] || (Enabled(c, events[0]) && AllEnabled(Step(c, events[0]), events[1..]))
  }

  lemma {:induction false} RunKeeps(c: Connection, events: seq<Event>)
    requires Inv(c) && AllEnabled(c, events)
    ensures var c' := Run(c, events);
            Inv(c') && (c'.active ==> c.active) && (c'.linger ==> c.linger) && (Failed(c) ==> Failed(c'))
    decreases |events|
  {
    hide Inv, Failed, Step, Enabled;
    if events != [] {
      StepKeeps(c, events[0]);
      RunKeeps(Step(c, events[0]), events[1..]);
    }
  }

  /** Step `e` closed the connection while it lingered, after ten timeouts without a segment. */
  predicate ClosedByTimeout(c: Connection, e: Event) {
    var c' := Step(c, e);
    c.active && !c'.active && c'.now - c'.lastReceived >= 10 * c'.timeout
  }

  /** An active connection that ends up inactive, not failed and still lingering was closed by timeout at some step. */
  lemma {:induction false} LingerWaited(c: Connection, events: seq<Event>) returns (k: nat)
    requires Inv(c) && c.active && AllEnabled(c, events)
    requires var c' := Run(c, events); !c'.active && !Failed(c') && c'.linger
    ensures k < |events| && ClosedByTimeout(Run(c, events[..k]), events[k])
    decreases |events|
  {
    hide Inv, Failed, Step, Enabled;
    var next, rest := Step(c, events[0]), events[1..];
    StepKeeps(c, events[0]);
    RunKeeps(next, rest);
    if next.active {
      var j := LingerWaited(next, rest);
      k := j + 1;
      assert events[..k] == [events[0]] + rest[..j];
      assert Run(c, events[..k]) == Run(next, rest[..j]);
    } else {
      k := 0;
      assert Run(c, events[..0]) == c;
    }
  }

  /**
   In every run of a new connection: while it is active it has retransmitted at most eight times in a row and
   its timeout is exactly the initial one doubled that often; and whenever it is inactive without failure, the
   inbound stream has ended and the peer has acknowledged SYN, every byte written, and FIN.
   */
  lemma {:induction false} CleanClose(sendCapacity: nat, recvCapacity: nat, timeout: U16, isn: U32, events: seq<Event>)
    requires AllEnabled(NewConnection(sendCapacity, recvCapacity, timeout, isn), events)
    ensures var c := Run(NewConnection(sendCapacity, recvCapacity, timeout, isn), events);
            && (c.active ==>
                  && c.sender.retransmissions <= 8
                  && c.sender.timeout == c.sender.initialTimeout * Pow2(c.sender.retransmissions))
            && (!c.active && !Failed(c) ==> Clean(c))
  {
    hide Run, AllEnabled, SP.Inv, Unwrap, Pow2;
    var c0 := NewConnection(sendCapacity, recvCapacity, timeout, isn);
    SP.NewSenderInv(sendCapacity, timeout, isn);
    assert Inv(c0);
    RunKeeps(c0, events);
    var c := Run(c0, events);
    if c.active {
      SR.TimeoutExact(c.sender);
    }
  }
}
