/**
 A run of the whole system, without loss or reordering, in which the sender goes
 beyond every window its peer has announced.
 */
module ClosedWindow {
  import opened Words
  import opened WrappingIntegers
  import opened ByteStreams
  import opened StreamReassemblers
  import opened TcpSegments
  import opened TcpSenders
  import SR = SenderRuns
  import SC = SegmentCuts
  import TR = TcpReceivers
  import opened EndToEnd
  import opened Openings

  const FIRST := Segment(BlankHeader().(seqno := 1), [10])
  const PROBE := Segment(BlankHeader().(seqno := 2), [11])
  const BEYOND := Segment(BlankHeader().(seqno := 3), [12])
  const FULL := Acknowledgment(2, 0, 2)

  /** Three bytes for a receiver with room for one: the first fills it, the second is the probe, and it is answered. */
  function Probing(): seq<Action> {
    [Local(SR.AppWrite([10, 11, 12])), Local(SR.Fill), Emit, Deliver(Copy(FIRST, 1)), EndToEnd.Reply, DeliverAck(FULL)]
  }

  function Answering(): seq<Action> {
    [Local(SR.Fill), Emit, Deliver(Copy(PROBE, 2)), EndToEnd.Reply, DeliverAck(FULL), Local(SR.Fill)]
  }

  function Flooding(): seq<Action> {
    Handshake(1) + Probing() + Answering()
  }

  function Written(read: nat): Stream
    requires read <= 3
  {
    Text([10, 11, 12], read, false)
  }

  const LOADED := At([], Written(0), 1, 1, 0, [], 1, true, false)
  const SENDING := At([FIRST], Written(1), 2, 1, 1, [Flying(FIRST)], 1, true, false)
  const CLOSED := At([], Written(1), 2, 0, 0, [], 2, true, false)
  const PROBED := At([PROBE], Written(2), 3, 0, 1, [Flying(PROBE)], 2, true, false)
  const RESET := At([], Written(2), 3, 0, 0, [Flying(PROBE)], 2, true, false)
  const BROKEN := At([BEYOND], Written(3), 4, 0, 1, [Flying(PROBE), Flying(BEYOND)], 2, true, false)

  /** One byte assembled and not read. */
  function Filled(): TR.Receiver {
    TR.Receiver.Receiver(0, true, Reassembler([], 0, 1, false, Log(1, [10], 0, false, false)))
  }

  function Full(): System {
    System(CLOSED, SC.History([], {0, 1}), Filled(), {Copy(SYN, 0), Copy(FIRST, 1)},
           {Acknowledgment(1, 1, 1), FULL})
  }

  function Flooded(): System {
    Full().(sender := BROKEN, history := SC.History([3], {0, 1, 2, 3}), net := Full().net + {Copy(PROBE, 2)})
  }

  // ---------------------------------------------------------------- the sender

  lemma SendsFirst()
    ensures FillWindow(LOADED) == SENDING
  {
    hide FillLoop, Unwrap, Wrap;
    SmallNumbers(1, 0);
    var s := LOADED;
    var cut := s.(stream := Written(1));
    assert PayloadSize(1, false) == 1 && Peek(s.stream, 1) == [10] && Pop(s.stream, 1) == cut.stream;
    FillTurn(s, cut, false, [10], false);
    var s' := Transmit(cut, false, [10], false);
    assert s' == SENDING;
    NothingToFill(s');
  }

  lemma SendsProbe()
    ensures FillWindow(CLOSED) == PROBED
  {
    hide FillLoop, Unwrap, Wrap;
    SmallNumbers(2, 0);
    assert Peek(CLOSED.stream, 1) == [11];
  }

  lemma SendsBeyond()
    ensures FillWindow(RESET) == BROKEN
  {
    hide FillLoop, Unwrap, Wrap;
    SmallNumbers(3, 0);
    assert Peek(RESET.stream, 1) == [12];
  }

  /** The answer to the probe resets the count of used space although the probe is still in flight. */
  lemma AnswerResets(s: Sender)
    requires s == PROBED.(segmentsOut := [])
    ensures AckReceived(s, 2, 0) == RESET
  {
    hide Unwrap, Wrap;
    SmallNumbers(2, 3);
    SmallNumbers(3, 3);
    SmallLow(1);
    SmallLow(3);
    assert WindowUpdate(s, 2, 0) == s.(windowSize := 0, windowUsed := 0);
  }

  // ---------------------------------------------------------------- the receiver

  lemma StoresFirst()
    ensures Store([], Node(0, [10]), 1, 0) == ([Node(0, [10])], 1)
  {
    assert Insert([], Node(0, [10])) == [Node(0, [10])];
  }

  lemma TakesFirst()
    ensures Push(New(1), [10], 0, false) == Filled().reassembler
  {
    hide Store, Low64;
    SmallLow(1);
    StoresFirst();
    assert Substr([10], 0, 1) == [10];
    var r := New(1).(cache := [Node(0, [10])], unassembled := 1);
    assert [10][..1] == [10] && [] + [10] == [10];
    assert r.cache[1..] == [];
    assert Assemble(r) == Filled().reassembler;
  }

  lemma ReceivesFirst(y: System)
    requires y.receiver == Synced(1) && Copy(FIRST, 1) in y.net
    ensures Enabled(y, Deliver(Copy(FIRST, 1)))
    ensures Act(y, Deliver(Copy(FIRST, 1))) == y.(receiver := Filled())
  {
    hide Unwrap, Push;
    SmallNumbers(1, 0);
    SmallLow(0);
    TakesFirst();
  }

  /** There is no room for the probe. */
  lemma RefusesProbe(y: System)
    requires y.receiver == Filled() && Copy(PROBE, 2) in y.net
    ensures Enabled(y, Deliver(Copy(PROBE, 2))) && Act(y, Deliver(Copy(PROBE, 2))) == y
  {
    hide Unwrap, Accept;
    SmallNumbers(2, 1);
    SmallLow(1);
    SmallLow(2);
  }

  // ---------------------------------------------------------------- the run

  lemma Loads(y: System)
    requires y == Opened(1)
    ensures Enabled(y, Local(SR.AppWrite([10, 11, 12])))
    ensures Act(y, Local(SR.AppWrite([10, 11, 12]))) == y.(sender := LOADED)
  {
    SC.NoteNothing(y.history, y.sender, SR.AppWrite([10, 11, 12]));
    assert [] + [10, 11, 12][..3] == [10, 11, 12];
  }

  lemma Probes()
    ensures Run(Opened(1), Probing()) == Full() && AllEnabled(Opened(1), Probing())
  {
    hide Act, Enabled, Run, AllEnabled, FillWindow, AckReceived, Unwrap, Wrap;
    var y0 := Opened(1);
    var y1 := y0.(sender := LOADED);
    var y2 := y0.(sender := SENDING, history := SC.History([1], {0, 1}));
    var y3 := y0.(sender := SENDING.(segmentsOut := []), history := SC.History([], {0, 1}),
                  net := {Copy(SYN, 0), Copy(FIRST, 1)});
    var y4 := y3.(receiver := Filled());
    var y5 := y4.(acks := {Acknowledgment(1, 1, 1), FULL});
    Loads(y0);
    SendsFirst();
    FillAct(y1, SENDING, FIRST);
    assert Act(y1, Local(SR.Fill)) == y2;
    EmitOne(y2, FIRST, 1);
    assert Act(y2, Emit) == y3;
    ReceivesFirst(y3);
    ReplyOne(y4, 2, 0);
    assert Act(y4, EndToEnd.Reply) == y5;
    AckOnly(y5.sender, FIRST, 2, 0);
    DeliverAckOne(y5, 2, 0);
    var e5 := [DeliverAck(FULL)] + [];
    var e4 := [EndToEnd.Reply] + e5;
    var e3 := [Deliver(Copy(FIRST, 1))] + e4;
    var e2 := [Emit] + e3;
    var e1 := [Local(SR.Fill)] + e2;
    assert Probing() == [Local(SR.AppWrite([10, 11, 12]))] + e1;
    Peel(y0, Local(SR.AppWrite([10, 11, 12])), e1);
    Peel(y1, Local(SR.Fill), e2);
    Peel(y2, Emit, e3);
    Peel(y3, Deliver(Copy(FIRST, 1)), e4);
    Peel(y4, EndToEnd.Reply, e5);
    Peel(y5, DeliverAck(FULL), []);
    PeelNothing(Full());
  }

  lemma Answers()
    ensures Run(Full(), Answering()) == Flooded() && AllEnabled(Full(), Answering())
  {
    hide Act, Enabled, Run, AllEnabled, FillWindow, AckReceived, Unwrap, Wrap;
    var y0 := Full();
    var y1 := y0.(sender := PROBED, history := SC.History([2], {0, 1, 2}));
    var y2 := y0.(sender := PROBED.(segmentsOut := []), history := SC.History([], {0, 1, 2}),
                  net := y0.net + {Copy(PROBE, 2)});
    var y3 := y2.(sender := RESET);
    SendsProbe();
    FillAct(y0, PROBED, PROBE);
    assert Act(y0, Local(SR.Fill)) == y1;
    EmitOne(y1, PROBE, 2);
    assert Act(y1, Emit) == y2;
    RefusesProbe(y2);
    ReplyOne(y2, 2, 0);
    assert Act(y2, EndToEnd.Reply) == y2;
    AnswerResets(y2.sender);
    DeliverAckOne(y2, 2, 0);
    SendsBeyond();
    FillAct(y3, BROKEN, BEYOND);
    assert Act(y3, Local(SR.Fill)) == Flooded();
    var e5 := [Local(SR.Fill)] + [];
    var e4 := [DeliverAck(FULL)] + e5;
    var e3 := [EndToEnd.Reply] + e4;
    var e2 := [Deliver(Copy(PROBE, 2))] + e3;
    var e1 := [Emit] + e2;
    assert Answering() == [Local(SR.Fill)] + e1;
    Peel(y0, Local(SR.Fill), e1);
    Peel(y1, Emit, e2);
    Peel(y2, Deliver(Copy(PROBE, 2)), e3);
    Peel(y2, EndToEnd.Reply, e4);
    Peel(y2, DeliverAck(FULL), e5);
    Peel(y3, Local(SR.Fill), []);
    PeelNothing(Flooded());
  }

  /**
   Every action is allowed and everything sent arrives at once and in order. The receiver has announced windows up
   to position 2, or 3 with the closed window counted as one; the sender has sent position 3, its fourth.
   */
  lemma ProbesGoBeyond()
    ensures var y0 := Initial(8, 1, 1000, 0);
            var y := Run(y0, Flooding());
            && AllEnabled(y0, Flooding())
            && y.sender.nextSeqno == 4
            && y.sender.segmentsOut == [BEYOND] && y.history.queued == [3]
            && (forall a :: a in y.acks ==> a.position + Max(1, a.win) <= 3)
  {
    hide Run, AllEnabled, Handshake, Probing, Answering;
    var y0 := Initial(8, 1, 1000, 0);
    ShakesHands(1);
    Probes();
    Answers();
    RunConcat(y0, Handshake(1), Probing());
    RunConcat(y0, Handshake(1) + Probing(), Answering());
  }
}
