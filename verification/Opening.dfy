/** How the concrete runs of the whole system begin: the steps they are made of, and the handshake. */
module Openings {
  import opened Words
  import opened WrappingIntegers
  import opened ByteStreams
  import opened StreamReassemblers
  import opened TcpSegments
  import opened TcpSenders
  import SP = SenderProofs
  import SR = SenderRuns
  import SC = SegmentCuts
  import TR = TcpReceivers
  import opened EndToEnd

  // ---------------------------------------------------------------- senders

  /** A sender with initial sequence number 0; the timer does not matter here. */
  function At(out: seq<Segment>, stream: Stream, next: nat, win: U16, used: nat, cache: seq<Outstanding>, ackno: U32,
              syned: bool, fin: bool): Sender {
    Sender(0, out, 1000, stream, next, win, used, 0, cache, 1000, ackno, syned, fin, 0)
  }

  /** A segment sent at time zero and still outstanding. */
  function Flying(seg: Segment): Outstanding {
    Outstanding(0, seg)
  }

  function Text(bytes: seq<Byte>, read: nat, ended: bool): Stream
    requires read <= |bytes| <= 8
  {
    Log(8, bytes, read, ended, false)
  }

  /** One turn of filling an open window. */
  lemma FillTurn(s: Sender, cut: Sender, isSyn: bool, content: seq<Byte>, isFin: bool)
    requires s.windowSize > 0 && Pending(s) && s.Unused() > 0
    requires Cut(s) == (cut, isSyn, content, isFin) && (isSyn || content != [] || isFin)
    ensures FillLoop(s) == FillLoop(Transmit(cut, isSyn, content, isFin))
  {
  }

  lemma NothingToFill(s: Sender)
    requires SP.Exhausted(s)
    ensures FillLoop(s) == s
  {
  }

  lemma SmallNumbers(n: nat, checkpoint: nat)
    requires n < 8 && checkpoint < 8
    ensures Wrap(Low64(n), 0) == n && Unwrap(n, 0, Low64(checkpoint)) == n
  {
    hide Wrap, Unwrap;
    SmallLow(n);
    SmallLow(checkpoint);
    UnwrapStable(n, 0, n, checkpoint);
  }

  lemma SmallLow(n: nat)
    requires n < 8
    ensures Low64(n) == n && Low32(n) == n
  {
  }

  lemma IsRoomy(s: Sender)
    requires s.isn == 0 && s.latestAckno < 8 && s.nextSeqno < 8 && s.windowSize <= 8
    ensures SP.Roomy(s)
  {
    hide Unwrap;
    SmallNumbers(s.latestAckno, s.nextSeqno);
  }

  /** A new acknowledgment of the only segment outstanding. */
  lemma AckOnly(s: Sender, seg: Segment, ackno: U32, win: U16)
    requires s == At([], s.stream, s.nextSeqno, s.windowSize, s.windowUsed, [Flying(seg)], s.latestAckno, true, false)
    requires s.latestAckno < ackno == s.nextSeqno < 8 && s.latestAckno + s.windowUsed == ackno
    requires seg.header.seqno == s.latestAckno && seg.Length() == s.windowUsed
    ensures AckReceived(s, ackno, win) == At([], s.stream, s.nextSeqno, win, 0, [], ackno, true, false)
  {
    hide Unwrap, Wrap;
    SmallNumbers(s.latestAckno, s.nextSeqno);
    SmallNumbers(ackno, s.nextSeqno);
    SmallLow(s.windowUsed);
    SmallLow(ackno);
    assert WindowUpdate(s, ackno, win) == s.(windowSize := win, windowUsed := 0);
    var s1 := s.(windowSize := win, windowUsed := 0, timeout := 1000, retransmissions := 0, latestAckno := ackno);
    assert FullyAcked(s1, seg);
    assert s1.cache[1..] == [];
    assert RemoveAcked(s1) == s1.(cache := []);
  }

  // ---------------------------------------------------------------- runs

  lemma Peel(y: System, a: Action, rest: seq<Action>)
    ensures Run(y, [a] + rest) == Run(Act(y, a), rest)
    ensures AllEnabled(y, [a] + rest) <==> Enabled(y, a) && AllEnabled(Act(y, a), rest)
  {
    hide Act, Enabled;
    assert ([a] + rest)[1..] == rest;
  }

  lemma PeelNothing(y: System)
    ensures Run(y, []) == y && AllEnabled(y, [])
  {
  }

  lemma {:induction false} RunConcat(y: System, a: seq<Action>, b: seq<Action>)
    ensures Run(y, a + b) == Run(Run(y, a), b)
    ensures AllEnabled(y, a + b) <==> AllEnabled(y, a) && AllEnabled(Run(y, a), b)
    decreases |a|
  {
    hide Act, Enabled;
    if a == [] {
      assert a + b == b;
    } else {
      RunConcat(Act(y, a[0]), a[1..], b);
      assert (a + b)[1..] == a[1..] + b;
    }
  }

  /** Filling the window when one new segment results. */
  lemma FillAct(y: System, s': Sender, seg: Segment)
    requires FillWindow(y.sender) == s' && s'.segmentsOut == y.sender.segmentsOut + [seg]
    requires y.sender.isn == 0 && y.sender.latestAckno < 8 && y.sender.nextSeqno < 8 && y.sender.windowSize <= 8
    ensures Enabled(y, Local(SR.Fill))
    ensures Act(y, Local(SR.Fill)) ==
            y.(sender := s', history := SC.History(y.history.queued + [y.sender.nextSeqno],
                                                   y.history.cuts + {y.sender.nextSeqno}))
  {
    hide FillWindow, SC.Starts, SP.Roomy;
    assert s'.segmentsOut[|y.sender.segmentsOut|..] == [seg];
    StartsOne(seg, y.sender.nextSeqno);
    assert (set p: nat | p in [y.sender.nextSeqno]) == {y.sender.nextSeqno};
    IsRoomy(y.sender);
  }

  lemma StartsOne(seg: Segment, from: nat)
    ensures SC.Starts([seg], from) == [from]
  {
    assert SC.Starts([seg][1..], from + seg.Length()) == [];
  }

  /** Putting the only queued segment on the wire. */
  lemma EmitOne(y: System, seg: Segment, a: nat)
    requires y.sender.segmentsOut == [seg] && y.history.queued == [a]
    ensures Enabled(y, Emit)
    ensures Act(y, Emit) ==
            y.(sender := y.sender.(segmentsOut := []), history := y.history.(queued := []),
               net := y.net + {Copy(seg, a)})
  {
    hide FillWindow;
    assert Queued(y) == {Copy(seg, a)} by {
      assert y.sender.segmentsOut[0] == seg && y.history.queued[0] == a;
    }
    assert y.history.cuts + (set p: nat | p in []) == y.history.cuts;
  }

  /** A synchronized receiver with a small window acknowledges. */
  lemma ReplyOne(y: System, n: U32, win: U16)
    requires y.receiver.synced && y.receiver.isn == 0 && y.receiver.Assembled() == n < 8
    requires y.receiver.WindowSize() == win
    ensures Enabled(y, EndToEnd.Reply)
    ensures Act(y, EndToEnd.Reply) == y.(acks := y.acks + {Acknowledgment(n, win, n)})
  {
    hide Wrap, Low64, Unwrap, AckReceived, FillWindow, TR.SegmentReceived;
    SmallNumbers(n, 0);
  }

  lemma DeliverAckOne(y: System, n: U32, win: U16)
    requires Acknowledgment(n, win, n) in y.acks && n < 8 && y.sender.nextSeqno < 8
    ensures Enabled(y, DeliverAck(Acknowledgment(n, win, n)))
    ensures Act(y, DeliverAck(Acknowledgment(n, win, n))) == y.(sender := AckReceived(y.sender, n, win))
  {
    hide AckReceived;
    SC.NoteNothing(y.history, y.sender, SR.Ack(n, win));
  }

  // ---------------------------------------------------------------- the handshake

  const SYN := Segment(BlankHeader().(syn := true), [])

  /** A receiver with room for `capacity` bytes is found by a SYN and answers it. */
  function Handshake(capacity: U16): seq<Action> {
    [Local(SR.Fill), Emit, Deliver(Copy(SYN, 0)), EndToEnd.Reply, DeliverAck(Acknowledgment(1, capacity, 1))]
  }

  function Synced(capacity: nat): TR.Receiver {
    TR.Receiver.Receiver(0, true, New(capacity))
  }

  function Opened(capacity: U16): System {
    System(At([], Text([], 0, false), 1, capacity, 0, [], 1, true, false), SC.History([], {0}), Synced(capacity),
           {Copy(SYN, 0)}, {Acknowledgment(1, capacity, 1)})
  }

  lemma SendsSyn()
    ensures FillWindow(NewSender(8, 1000, 0)) == At([SYN], Text([], 0, false), 1, 1, 1, [Flying(SYN)], 0, true, false)
  {
    hide FillLoop, Unwrap, Wrap, Cut;
    var s := NewSender(8, 1000, 0);
    SmallNumbers(0, 0);
    SynCut(s);
    FillTurn(s, s.(syned := true), true, [], false);
    var s' := Transmit(s.(syned := true), true, [], false);
    assert s' == At([SYN], Text([], 0, false), 1, 1, 1, [Flying(SYN)], 0, true, false);
    NothingToFill(s');
  }

  lemma SynCut(s: Sender)
    requires s == NewSender(8, 1000, 0)
    ensures Cut(s) == (s.(syned := true), true, [], false)
  {
    assert PayloadSize(1, true) == 1 && Peek(s.stream, 1) == [] && Pop(s.stream, 1) == s.stream;
  }

  lemma ReceivesSyn(y: System, capacity: nat)
    requires y.receiver == TR.NewReceiver(capacity) && capacity < 0x1_0000 && Copy(SYN, 0) in y.net
    ensures Enabled(y, Deliver(Copy(SYN, 0)))
    ensures Act(y, Deliver(Copy(SYN, 0))) == y.(receiver := Synced(capacity))
  {
    hide Unwrap;
    SmallNumbers(0, 0);
  }

  lemma ShakesHands(capacity: U16)
    requires capacity <= 8
    ensures var y := Initial(8, capacity, 1000, 0);
            Run(y, Handshake(capacity)) == Opened(capacity) && AllEnabled(y, Handshake(capacity))
  {
    hide Act, Enabled, Run, AllEnabled, FillWindow, AckReceived, Unwrap, Wrap, TR.SegmentReceived;
    var opening := At([SYN], Text([], 0, false), 1, 1, 1, [Flying(SYN)], 0, true, false);
    var ack := Acknowledgment(1, capacity, 1);
    var y0 := Initial(8, capacity, 1000, 0);
    var y1 := System(opening, SC.History([0], {0}), y0.receiver, {}, {});
    var y2 := System(opening.(segmentsOut := []), SC.History([], {0}), y0.receiver, {Copy(SYN, 0)}, {});
    var y3 := y2.(receiver := Synced(capacity));
    var y4 := y3.(acks := {ack});
    SendsSyn();
    FillAct(y0, opening, SYN);
    assert Act(y0, Local(SR.Fill)) == y1;
    EmitOne(y1, SYN, 0);
    assert Act(y1, Emit) == y2;
    ReceivesSyn(y2, capacity);
    ReplyOne(y3, 1, capacity);
    assert Act(y3, EndToEnd.Reply) == y4;
    AckOnly(y4.sender, SYN, 1, capacity);
    DeliverAckOne(y4, 1, capacity);
    var e4 := [DeliverAck(ack)] + [];
    var e3 := [EndToEnd.Reply] + e4;
    var e2 := [Deliver(Copy(SYN, 0))] + e3;
    var e1 := [Emit] + e2;
    assert Handshake(capacity) == [Local(SR.Fill)] + e1;
    Peel(y0, Local(SR.Fill), e1);
    Peel(y1, Emit, e2);
    Peel(y2, Deliver(Copy(SYN, 0)), e3);
    Peel(y3, EndToEnd.Reply, e4);
    Peel(y4, DeliverAck(ack), []);
    PeelNothing(Opened(capacity));
  }
}
