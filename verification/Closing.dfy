/**
 When a connection fails, closes and lingers, as equivalences, and what it hands
 over when it answers, gives up, opens and writes.
 */
module Closings {
  import opened Words
  import opened WrappingIntegers
  import opened ByteStreams
  import opened TcpSegments
  import opened TcpSenders
  import SP = SenderProofs
  import SR = SenderRuns
  import SW = SendWindows
  import SS = SegmentShapes
  import TR = TcpReceivers
  import opened TcpConnections
  import opened ConnectionProofs
  import opened ConnectionEffects

  // ---------------------------------------------------------------- failing

  /** More than eight retransmissions in a row. */
  predicate GivesUp(c: Connection, e: Event) {
    e.Ticks? && Tick(c.sender, e.ms).retransmissions > 8
  }

  predicate IsReset(e: Event) {
    e.Arrives? && e.seg.header.rst
  }

  /** What an event leaves of a connection that does not fail in it. */
  lemma ErrorsStay(c: Connection, e: Event)
    requires c.sender.segmentsOut == [] && !IsReset(e) && !GivesUp(c, e)
    ensures var c' := Step(c, e);
            && c'.sender.stream.error == c.sender.stream.error
            && c'.receiver.Output().error == c.receiver.Output().error
  {
    hide FillWindow, AckReceived, Tick, TR.SegmentReceived, Finished, StampAll, Receive;
    match e
    case Arrives(seg) =>
      ReceiveDrives(c, seg);
      RunKeepsError(c.sender, SenderEvents(c, e));
      ReceiveHandsOver(c, seg);
      ReceiverCarries(c.receiver, seg);
    case Writes(data) => StepKeepsError(c.sender.(stream := Write(c.sender.stream, data)), SR.Fill);
    case Closes => StepKeepsError(c.sender.(stream := EndInput(c.sender.stream)), SR.Fill);
    case Opens => StepKeepsError(c.sender, SR.Fill);
    case Ticks(ms) => StepKeepsError(c.sender, SR.Elapse(ms));
    case Reads(len) =>
  }

  /** The two ways to fail are total: both streams are in error, the connection is inactive and does not linger. */
  lemma FailureIsTotal(c: Connection, e: Event)
    requires IsReset(e) || GivesUp(c, e)
    ensures var c' := Step(c, e);
            c'.sender.stream.error && c'.receiver.Output().error && !c'.active && !c'.linger
  {
    hide Tick, StampAll, Finished;
  }

  /** A connection fails exactly when it receives a reset or gives up. */
  lemma FailsExact(c: Connection, e: Event)
    requires c.sender.segmentsOut == []
    ensures Failed(Step(c, e)) <==> Failed(c) || IsReset(e) || GivesUp(c, e)
  {
    hide Step, GivesUp;
    if IsReset(e) || GivesUp(c, e) {
      FailureIsTotal(c, e);
    } else {
      ErrorsStay(c, e);
    }
  }

  /** Giving up hands over exactly one segment, and that one makes every connection fail that receives it. */
  lemma GivingUpResets(c: Connection, e: Event, peer: Connection)
    requires GivesUp(c, e)
    ensures var c' := Step(c, e);
            && |c'.segmentsOut| == |c.segmentsOut| + 1 && c.segmentsOut <= c'.segmentsOut
            && var rst := c'.segmentsOut[|c.segmentsOut|];
            && rst.header.rst && rst.payload == [] && !rst.header.syn && !rst.header.fin
            && var p' := Receive(peer, rst);
            && p'.sender.stream.error && p'.receiver.Output().error && !p'.active && p'.segmentsOut == peer.segmentsOut
  {
    hide Tick, Stamp, Finished, Wrap;
    var c1 := c.(now := c.now + e.ms, sender := Tick(c.sender, e.ms));
    var rst := RstSegment(c1.sender);
    StampOne(SetRst(c1).receiver, rst);
    StampKeeps(SetRst(c1).receiver, rst);
    TickSegments(c, e.ms);
  }

  lemma StampOne(r: TR.Receiver, seg: Segment)
    ensures StampAll(r, [seg]) == [Stamp(r, seg)]
  {
    hide Stamp;
    assert StampAll(r, [seg][1..]) == [];
  }

  /** Stamping touches only the acknowledgment and the window. */
  lemma StampKeeps(r: TR.Receiver, seg: Segment)
    ensures var h := Stamp(r, seg).header;
            && h == seg.header.(ack := h.ack, ackno := h.ackno, win := h.win)
            && Stamp(r, seg).payload == seg.payload
  {
  }

  lemma TickSegments(c: Connection, ms: nat)
    requires Tick(c.sender, ms).retransmissions > 8
    ensures var c1 := c.(now := c.now + ms, sender := Tick(c.sender, ms));
            TickConnection(c, ms).segmentsOut == c.segmentsOut + StampAll(SetRst(c1).receiver, [RstSegment(c1.sender)])
  {
    hide Tick, StampAll, Finished, RstSegment;
  }

  // ---------------------------------------------------------------- closing

  /** Nothing sent means nothing changed. */
  lemma FillUnacknowledged(s: Sender)
    requires SP.Inv(s) && SP.Roomy(s) && !SP.SkipsSyn(s) && AllAcknowledged(FillWindow(s))
    ensures FillWindow(s) == s
  {
    hide SP.Inv, FillWindow, Unwrap, SP.Extends;
    SP.FillWindowKeeps(s);
    var s' := FillWindow(s);
    InFlightOrdered(s, s');
    if s.syned {
      SW.NothingSent(s);
    } else {
      UnsyncedNext(s);
    }
  }

  lemma InFlightOrdered(s: Sender, s': Sender)
    requires SP.Inv(s) && SP.Extends(s, s')
    ensures s'.Acked() == s.Acked() <= s.nextSeqno
  {
    hide SP.Tiles, SP.Timed, SP.Phases, Unwrap, SP.Sent;
  }

  lemma UnsyncedNext(s: Sender)
    requires SP.Inv(s) && !s.syned
    ensures s.nextSeqno == 0
  {
    hide SP.Tiles, SP.Timed, SP.AckSound;
  }

  /** The connection has nothing left to do and need not linger. */
  predicate DoneAtOnce(c: Connection) {
    Clean(c) && !c.linger
  }

  /** The connection has nothing left to do and has lingered for ten timeouts. */
  predicate DoneLingering(c: Connection) {
    Clean(c) && c.linger && c.now - c.lastReceived >= 10 * c.timeout
  }

  /** After a segment, a connection is inactive exactly if it was, has failed, or is done without having to linger. */
  lemma ReceiveCloses(c: Connection, seg: Segment)
    requires Inv(c) && Enabled(c, Arrives(seg))
    ensures var c' := Receive(c, seg);
            c'.active <==> c.active && !Failed(c') && !DoneAtOnce(c')
  {
    hide SP.Inv, Absorbed, Answer, Flush, Finished, Spacious, FillWindow, AllAcknowledged;
    var c1 := c.(lastReceived := c.now);
    if !seg.header.rst {
      AbsorbedKeeps(c1, seg);
      var c2 := Absorbed(c1, seg);
      FinishedIsClean(c2);
      if !(Finished(c2) && !c2.linger) {
        AnswerNotDone(c2, seg);
      }
    }
  }

  /** An answer does not finish what was not finished. */
  lemma AnswerNotDone(c: Connection, seg: Segment)
    requires SP.Inv(c.sender) && c.sender.segmentsOut == [] && Spacious(c.sender)
    requires c.receiver.synced ==> !SP.SkipsSyn(c.sender)
    ensures var c' := Flush(Answer(c, seg));
            && c'.active == c.active && c'.linger == c.linger && (Clean(c') ==> Clean(c))
            && c'.receiver == c.receiver && c'.sender.stream.error == c.sender.stream.error
  {
    hide SP.Inv, FillWindow, Unwrap, SendEmpty, StampAll;
    if c.receiver.Ackno().Some? {
      var s := FillWindow(c.sender);
      EmptyThenDrain(s);
      StepKeepsError(c.sender, SR.Fill);
      SpaciousIsRoomy(c.sender);
      assert AllAcknowledged(s.(segmentsOut := [])) <==> AllAcknowledged(s);
      if AllAcknowledged(s) {
        FillUnacknowledged(c.sender);
      }
      EmptyKeepsStream(s);
    } else {
      assert c.sender.(segmentsOut := []) == c.sender;
    }
  }

  lemma EmptyKeepsStream(s: Sender)
    ensures SendEmpty(s).stream == s.stream
  {
  }

  lemma SpaciousIsRoomy(s: Sender)
    requires Spacious(s)
    ensures SP.Roomy(s)
  {
    hide Unwrap;
  }

  /** After a tick, exactly if it was, has failed, or is done and has lingered long enough. */
  lemma TickCloses(c: Connection, ms: nat)
    requires Inv(c)
    ensures var c' := TickConnection(c, ms);
            c'.active <==> c.active && !Failed(c') && !DoneLingering(c')
  {
    hide SP.Inv, AfterTick, Finished;
    AfterTickKeeps(c, ms);
    FinishedIsClean(AfterTick(c, ms));
    TickActive(c, ms);
  }

  lemma TickActive(c: Connection, ms: nat)
    ensures AfterTick(c, ms).active ==> c.active
    ensures c.active && !AfterTick(c, ms).active ==> Failed(AfterTick(c, ms))
  {
    hide Tick, StampAll;
  }

  /** No other event changes whether a connection is active. */
  lemma ActiveExact(c: Connection, e: Event)
    requires Inv(c) && Enabled(c, e)
    ensures var c' := Step(c, e);
            c'.active <==>
            c.active && !Failed(c') && !(e.Arrives? && DoneAtOnce(c')) && !(e.Ticks? && DoneLingering(c'))
  {
    hide SP.Inv, Receive, TickConnection, FillWindow, DoneAtOnce, DoneLingering, Spacious, SkipsSyn, StampAll;
    match e
    case Arrives(seg) => ReceiveCloses(c, seg);
    case Ticks(ms) => TickCloses(c, ms);
    case _ => StepKeeps(c, e);
  }

  // ---------------------------------------------------------------- lingering

  /** The peer has finished while this side has not: the peer will linger, so this side need not. */
  predicate PeerFinishesFirst(c: Connection, e: Event) {
    e.Arrives? && TR.SegmentReceived(c.receiver, e.seg).Output().ended && !c.sender.stream.Eof()
  }

  lemma StepLingers(c: Connection, e: Event)
    requires c.sender.segmentsOut == [] && !IsReset(e) && !GivesUp(c, e)
    ensures Step(c, e).linger <==> c.linger && !PeerFinishesFirst(c, e)
  {
    hide FillWindow, AckReceived, Tick, TR.SegmentReceived, Finished, StampAll, Answer;
    if e.Arrives? {
      if e.seg.header.ack {
        AckFrame(c.sender, e.seg.header.ackno, e.seg.header.win);
      }
      var c2 := Absorbed(c.(lastReceived := c.now), e.seg);
      AnswerLinger(c2, e.seg);
    }
  }

  lemma AnswerLinger(c: Connection, seg: Segment)
    ensures Answer(c, seg).linger == c.linger
  {
    hide FillWindow, SendEmpty;
  }

  /** At step `k` of the run the peer finished first. */
  predicate FinishedFirstAt(c: Connection, events: seq<Event>, k: nat)
    requires k < |events|
  {
    PeerFinishesFirst(Run(c, events[..k]), events[k])
  }

  /**
   Over every run without failure: a connection does not linger exactly if it did not before, or some segment left
   its inbound stream ended while its outbound stream was not at its end.
   */
  lemma {:induction false} LingersExact(c: Connection, events: seq<Event>)
    requires Inv(c) && AllEnabled(c, events) && !Failed(Run(c, events))
    ensures !Run(c, events).linger <==> !c.linger || exists k :: 0 <= k < |events| && FinishedFirstAt(c, events, k)
    decreases |events|
  {
    hide Inv, Step, Enabled, Failed, PeerFinishesFirst, GivesUp;
    if events != [] {
      var next, rest := Step(c, events[0]), events[1..];
      StepKeeps(c, events[0]);
      RunKeeps(next, rest);
      QueueIsEmpty(c);
      FailsExact(c, events[0]);
      StepLingers(c, events[0]);
      LingersExact(next, rest);
      assert events[..0] == [];
      assert FinishedFirstAt(c, events, 0) <==> PeerFinishesFirst(c, events[0]);
      forall k | 0 < k < |events|
        ensures FinishedFirstAt(c, events, k) <==> FinishedFirstAt(next, rest, k - 1)
      {
        assert events[..k] == [events[0]] + rest[..k - 1];
        assert Run(c, events[..k]) == Run(next, rest[..k - 1]);
      }
      LaterStep(c, next, events);
    }
  }

  lemma LaterStep(c: Connection, next: Connection, events: seq<Event>)
    requires events != []
    requires forall k :: 0 < k < |events| ==>
               (FinishedFirstAt(c, events, k) <==> FinishedFirstAt(next, events[1..], k - 1))
    ensures (exists k :: 0 <= k < |events| && FinishedFirstAt(c, events, k)) <==>
            FinishedFirstAt(c, events, 0) || exists k :: 0 <= k < |events| - 1 && FinishedFirstAt(next, events[1..], k)
  {
    hide FinishedFirstAt;
    if k :| 0 <= k < |events| - 1 && FinishedFirstAt(next, events[1..], k) {
      assert FinishedFirstAt(c, events, k + 1);
    }
  }

  lemma QueueIsEmpty(c: Connection)
    requires Inv(c)
    ensures c.sender.segmentsOut == []
  {
    hide SP.Inv;
  }

  // ---------------------------------------------------------------- time

  lemma StepClock(c: Connection, e: Event)
    ensures var c' := Step(c, e);
            && c'.now == c.now + (if e.Ticks? then e.ms else 0)
            && c'.lastReceived == (if e.Arrives? then c.now else c.lastReceived)
            && c'.timeout == c.timeout
  {
    hide FillWindow, AckReceived, Tick, TR.SegmentReceived, Finished, StampAll, SendEmpty;
  }

  /** How long ago the last segment arrived, read off the events alone. */
  function Silence(events: seq<Event>, before: int): int
    decreases |events|
  {
    if events == [] then before
    else
      Silence(events[1..], if events[0].Arrives? then 0 else if events[0].Ticks? then before + events[0].ms else before)
  }

  lemma {:induction false} RunClock(c: Connection, events: seq<Event>)
    ensures var c' := Run(c, events);
            c'.now - c'.lastReceived == Silence(events, c.now - c.lastReceived) && c'.timeout == c.timeout
    decreases |events|
  {
    hide Step;
    if events != [] {
      StepClock(c, events[0]);
      RunClock(Step(c, events[0]), events[1..]);
    }
  }

  lemma {:induction false} RunSnoc(c: Connection, events: seq<Event>, e: Event)
    ensures Run(c, events + [e]) == Step(Run(c, events), e)
    decreases |events|
  {
    hide Step;
    if events == [] {
      assert events + [e] == [e];
      assert Run(Step(c, e), [e][1..]) == Step(c, e);
    } else {
      RunSnoc(Step(c, events[0]), events[1..], e);
      assert (events + [e])[1..] == events[1..] + [e];
    }
  }

  /**
   A connection that closed while lingering did so at a step up to which no segment had arrived for ten timeouts,
   by the events alone.
   */
  lemma {:induction false} LingeredInSilence(c: Connection, events: seq<Event>) returns (k: nat)
    requires Inv(c) && c.active && AllEnabled(c, events)
    requires var c' := Run(c, events); !c'.active && !Failed(c') && c'.linger
    ensures k < |events| && Run(c, events[..k]).active && !Run(c, events[..k + 1]).active
    ensures Silence(events[..k + 1], c.now - c.lastReceived) >= 10 * c.timeout
  {
    hide Inv, Step, Enabled, Failed, Silence, Run, AllEnabled;
    k := LingerWaited(c, events);
    assert events[..k + 1] == events[..k] + [events[k]];
    RunSnoc(c, events[..k], events[k]);
    RunClock(c, events[..k + 1]);
  }

  // ---------------------------------------------------------------- answering

  /** The segments a connection hands over in a step. */
  function New(c: Connection, c': Connection): seq<Segment>
    requires |c.segmentsOut| <= |c'.segmentsOut|
  {
    c'.segmentsOut[|c.segmentsOut|..]
  }

  /** The segment carries the acknowledgment and the window of `r`. */
  predicate Acknowledges(r: TR.Receiver, seg: Segment) {
    && seg.header.ack == r.synced
    && (r.synced ==> seg.header.ackno == Low32(r.isn + r.Assembled()))
    && seg.header.win == (if r.WindowSize() > 65535 then 65535 else r.WindowSize())
  }

  lemma StampSays(r: TR.Receiver, seg: Segment)
    requires !r.Output().error && r.Assembled() < 0x1_0000_0000_0000_0000
    ensures Acknowledges(r, Stamp(r, seg)) && Stamp(r, seg).Length() == seg.Length()
  {
    hide Wrap;
    if r.synced {
      WrapIsLow(r.Assembled(), r.isn);
    }
  }

  /** A segment that occupies sequence numbers, or probes with the number before the one expected, is owed an answer. */
  predicate IsOwed(r: TR.Receiver, seg: Segment) {
    seg.Length() > 0 || seg.header.seqno == Low32(Low32(r.isn + r.Assembled()) - 1)
  }

  /** What the answer to an absorbed segment loads: new data if any, and an empty segment only if one is owed. */
  lemma AnswerLoads(c: Connection, seg: Segment)
    requires SP.Inv(c.sender) && c.sender.segmentsOut == [] && Spacious(c.sender) && !SP.SkipsSyn(c.sender)
    requires c.receiver.Ackno().Some? && !(Finished(c) && !c.linger)
    ensures var segs := SR.Run(c.sender, AnswerEvents(c, seg)).segmentsOut;
            && (Owed(c, seg) ==> segs != [])
            && (!Owed(c, seg) ==> forall k :: 0 <= k < |segs| ==> segs[k].Length() > 0)
  {
    hide SP.Inv, FillWindow, Finished, SR.Run, Low32, SP.Genuine, SP.Sent, Unwrap, Spacious;
    RunTwo(c.sender, SR.Fill, SR.Empty);
    SpaciousIsRoomy(c.sender);
    SP.FillWindowKeeps(c.sender);
    var segs := FillWindow(c.sender).segmentsOut;
    forall k | 0 <= k < |segs|
      ensures segs[k].Length() > 0
    {
      assert SP.NewIn(FillWindow(c.sender), segs[k], c.sender.nextSeqno);
    }
  }

  /**
   A connection that stays active answers exactly what is owed: whatever it hands over carries its acknowledgment and
   window, there is something if an answer is owed, and otherwise only new data. Before SYN it hands over nothing.
   */
  lemma AnswersExact(c: Connection, seg: Segment)
    requires Inv(c) && Enabled(c, Arrives(seg)) && Receive(c, seg).active
    requires Receive(c, seg).receiver.Assembled() < 0x1_0000_0000_0000_0000
    ensures var c' := Receive(c, seg);
            && c.segmentsOut <= c'.segmentsOut
            && var new', r := New(c, c'), c'.receiver;
            && (forall k :: 0 <= k < |new'| ==> Acknowledges(r, new'[k]))
            && (r.synced && IsOwed(r, seg) ==> new' != [])
            && (r.synced && !IsOwed(r, seg) ==> forall k :: 0 <= k < |new'| ==> new'[k].Length() > 0)
            && (!r.synced ==> new' == [])
  {
    hide SP.Inv, SR.Run, Absorbed, Receive, AnswerEvents, Finished, Spacious, FillWindow, Acknowledges, StampAll;
    hide AllAcknowledged;
    var c', c2 := Receive(c, seg), Absorbed(c.(lastReceived := c.now), seg);
    var loaded := Loaded(c, Arrives(seg)).segmentsOut;
    ReceiveFrame(c, seg);
    AbsorbedKeeps(c.(lastReceived := c.now), seg);
    AbsorbedSender(c, seg);
    AckDrives(c, seg, AnswerEvents(c2, seg));
    ReceiveHandsOver(c, seg);
    OwedIs(c2, seg);
    if c'.receiver.synced {
      AnswerLoads(c2, seg);
    } else {
      NothingLoaded(c2, seg);
    }
    forall k | 0 <= k < |loaded|
      ensures Acknowledges(c'.receiver, New(c, c')[k]) && New(c, c')[k].Length() == loaded[k].Length()
    {
      StampedAt(c'.receiver, loaded, k);
      StampSays(c'.receiver, loaded[k]);
    }
  }

  /** A connection that stays active was, did not fail, and was not finished. */
  lemma ReceiveFrame(c: Connection, seg: Segment)
    requires Receive(c, seg).active && Inv(c)
    ensures var c2 := Absorbed(c.(lastReceived := c.now), seg);
            && !seg.header.rst && c.active && !Failed(c) && !(Finished(c2) && !c2.linger)
            && Receive(c, seg).receiver == c2.receiver
  {
    hide SP.Inv, FillWindow, AckReceived, TR.SegmentReceived, Finished, StampAll, SendEmpty;
  }

  lemma OwedIs(c: Connection, seg: Segment)
    requires c.receiver.Assembled() < 0x1_0000_0000_0000_0000
    ensures c.receiver.Ackno().Some? <==> c.receiver.synced
    ensures c.receiver.synced ==> (Owed(c, seg) <==> IsOwed(c.receiver, seg))
  {
    hide Wrap, Low32;
    if c.receiver.synced {
      WrapIsLow(c.receiver.Assembled(), c.receiver.isn);
    }
  }

  lemma NothingLoaded(c: Connection, seg: Segment)
    requires c.receiver.Ackno().None? && c.sender.segmentsOut == []
    ensures SR.Run(c.sender, AnswerEvents(c, seg)).segmentsOut == []
  {
    hide SR.Run, Finished;
    RunTwo(c.sender, SR.Fill, SR.Fill);
  }

  // ---------------------------------------------------------------- opening, writing and ending

  /** The outbound stream after an application event. */
  function Fed(stream: Stream, e: Event): Stream {
    match e
    case Writes(data) => Write(stream, data)
    case Closes => EndInput(stream)
    case _ => stream
  }

  /** Writing, ending and opening feed the stream and then send all that the window is believed to allow. */
  lemma FillsWhatFits(c: Connection, e: Event)
    requires Inv(c) && Enabled(c, e) && (e.Writes? || e.Closes? || e.Opens?)
    ensures var c' := Step(c, e);
            && c'.sender.stream == Fed(c.sender.stream, e).(read := c'.sender.stream.read)
            && (c.sender.windowSize != 0 || c.sender.windowUsed != 0 ==> SP.Exhausted(c'.sender))
  {
    hide SP.Inv, FillWindow, Spacious, Fed, StampAll, SkipsSyn, SP.Exhausted;
    var s := c.sender.(stream := Fed(c.sender.stream, e));
    QueueIsEmpty(c);
    FedKeeps(c, e);
    FillAfter(s);
    SenderFilled(c, e);
  }

  lemma SenderFilled(c: Connection, e: Event)
    requires e.Writes? || e.Closes? || e.Opens?
    ensures Step(c, e).sender == FillWindow(c.sender.(stream := Fed(c.sender.stream, e))).(segmentsOut := [])
  {
    hide FillWindow, StampAll;
    assert c.sender.(stream := c.sender.stream) == c.sender;
  }

  lemma FedKeeps(c: Connection, e: Event)
    requires Inv(c) && Enabled(c, e) && (e.Writes? || e.Closes? || e.Opens?)
    ensures var s := c.sender.(stream := Fed(c.sender.stream, e));
            SP.Inv(s) && SP.Roomy(s) && !SP.SkipsSyn(s)
  {
    hide SP.Inv, SP.Sent, Unwrap, SP.Roomy, Spacious;
    var stream := Fed(c.sender.stream, e);
    QueueIsEmpty(c);
    SR.AppKeeps(c.sender, stream);
    FedRoomy(c.sender, stream);
    assert c.sender.(stream := c.sender.stream) == c.sender;
  }

  lemma FillAfter(s: Sender)
    requires SP.Inv(s) && SP.Roomy(s) && !SP.SkipsSyn(s)
    ensures var s' := FillWindow(s).(segmentsOut := []);
            && s'.stream == s.stream.(read := s'.stream.read)
            && (s.windowSize != 0 || s.windowUsed != 0 ==> SP.Exhausted(s'))
  {
    hide SP.Inv, FillWindow, Unwrap, SP.Extends, SP.Roomy, SP.SkipsSyn;
    SP.FillWindowKeeps(s);
    ExtendsStream(s, FillWindow(s));
  }

  lemma FedRoomy(s: Sender, stream: Stream)
    requires Spacious(s)
    ensures SP.Roomy(s.(stream := stream))
  {
    hide Unwrap;
    assert s.(stream := stream).Acked() == s.Acked();
  }

  lemma ExtendsStream(s: Sender, s': Sender)
    requires SP.Extends(s, s')
    ensures s'.stream == s.stream.(read := s'.stream.read) && s'.windowSize == s.windowSize
  {
    hide SP.Sent, Unwrap;
  }

  /** The first segment ever sent into an open window carries SYN and the initial sequence number. */
  lemma FirstIsSyn(s: Sender)
    requires !s.syned && s.nextSeqno == 0 && s.windowSize > s.windowUsed
    ensures var s' := FillWindow(s);
            && s'.syned && |s'.segmentsOut| > |s.segmentsOut|
            && var seg := s'.segmentsOut[|s.segmentsOut|];
            seg.header.syn && seg.header.seqno == s.isn
  {
    hide Wrap, FillLoop;
    var (cut, isSyn, content, isFin) := Cut(s);
    var next := Transmit(cut, isSyn, content, isFin);
    WrapIsLow(0, s.isn);
    LoopOnce(s);
    SS.FillLoopMaximal(next);
    StaysSyned(next);
  }

  lemma LoopOnce(s: Sender)
    requires !s.syned && s.windowSize > s.windowUsed
    ensures var (cut, isSyn, content, isFin) := Cut(s);
            FillLoop(s) == FillLoop(Transmit(cut, isSyn, content, isFin)) && isSyn
  {
  }

  lemma {:induction false} StaysSyned(s: Sender)
    requires s.syned
    ensures FillLoop(s).syned
    decreases s.Unused()
  {
    hide Wrap, Low64;
    if Pending(s) && s.Unused() > 0 {
      var (cut, isSyn, content, isFin) := Cut(s);
      if isSyn || content != [] || isFin {
        StaysSyned(Transmit(cut, isSyn, content, isFin));
      }
    }
  }

  /** Opening a new connection hands over SYN first, without an acknowledgment. */
  lemma OpensWithSyn(sendCapacity: nat, recvCapacity: nat, timeout: U16, isn: U32)
    ensures var c := NewConnection(sendCapacity, recvCapacity, timeout, isn);
            var c' := Connect(c);
            && c'.sender.syned && c'.segmentsOut != []
            && var first := c'.segmentsOut[0];
            && first.header.syn && first.header.seqno == isn && !first.header.ack && !first.header.rst
            && first.header.win == (if recvCapacity > 65535 then 65535 else recvCapacity)
  {
    hide FillWindow;
    var c := NewConnection(sendCapacity, recvCapacity, timeout, isn);
    FirstIsSyn(c.sender);
    SS.FillPristine(c.sender);
    StampedAt(c.receiver, FillWindow(c.sender).segmentsOut, 0);
  }
}
