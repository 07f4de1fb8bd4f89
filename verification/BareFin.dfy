/** A run of the whole system in which a FIN without payload overtakes a byte and the receiver ends too early. */
module BareFin {
  import opened Words
  import opened WrappingIntegers
  import opened ByteStreams
  import opened StreamReassemblers
  import RP = ReassemblyProofs
  import opened TcpSegments
  import opened TcpSenders
  import SR = SenderRuns
  import SC = SegmentCuts
  import TR = TcpReceivers
  import opened EndToEnd
  import opened Openings

  const BYTE := Segment(BlankHeader().(seqno := 1), [10])
  const FIN := Segment(BlankHeader().(seqno := 2, fin := true), [])

  /** The handshake, one byte written and sent, then the end of the stream, sent as a segment of its own. */
  function Prologue(): seq<Action> {
    Handshake(8) + Transfer()
  }

  function Transfer(): seq<Action> {
    [Local(SR.AppWrite([10])), Local(SR.Fill), Local(SR.AppClose), Local(SR.Fill), Emit]
  }

  const SENDING := At([BYTE], Text([10], 1, false), 2, 8, 1, [Flying(BYTE)], 1, true, false)
  const CLOSING := At([BYTE, FIN], Text([10], 1, true), 3, 8, 2, [Flying(BYTE), Flying(FIN)], 1, true, true)

  function Overtaking(): System {
    Opened(8).(sender := CLOSING.(segmentsOut := []), history := SC.History([], {0, 1, 2}),
               net := {Copy(SYN, 0), Copy(BYTE, 1), Copy(FIN, 2)})
  }

  lemma SendsByte(s: Sender)
    requires s == At([], Text([10], 0, false), 1, 8, 0, [], 1, true, false)
    ensures FillWindow(s) == SENDING
  {
    hide FillLoop, Unwrap, Wrap;
    SmallNumbers(1, 0);
    var cut := s.(stream := Text([10], 1, false));
    assert PayloadSize(8, false) == 8 && Peek(s.stream, 8) == [10] && Pop(s.stream, 8) == cut.stream;
    FillTurn(s, cut, false, [10], false);
    var s' := Transmit(cut, false, [10], false);
    assert s' == SENDING;
    NothingToFill(s');
  }

  lemma SendsFin(s: Sender)
    requires s == At([BYTE], Text([10], 1, true), 2, 8, 1, [Flying(BYTE)], 1, true, false)
    ensures FillWindow(s) == CLOSING
  {
    hide FillLoop, Unwrap, Wrap;
    SmallNumbers(2, 0);
    var cut := s.(fin := true);
    FillTurn(s, cut, false, [], true);
    var s' := Transmit(cut, false, [], true);
    assert s' == CLOSING;
    NothingToFill(s');
  }

  lemma Transfers()
    ensures Run(Opened(8), Transfer()) == Overtaking() && AllEnabled(Opened(8), Transfer())
  {
    hide Act, Enabled, Run, AllEnabled, FillWindow, Unwrap, Wrap;
    var y5 := Opened(8);
    var y6 := y5.(sender := At([], Text([10], 0, false), 1, 8, 0, [], 1, true, false));
    var y7 := y5.(sender := SENDING, history := SC.History([1], {0, 1}));
    var y8 := y7.(sender := At([BYTE], Text([10], 1, true), 2, 8, 1, [Flying(BYTE)], 1, true, false));
    var y9 := y5.(sender := CLOSING, history := SC.History([1, 2], {0, 1, 2}));
    Writes(y5, y6);
    SendsByte(y6.sender);
    FillAct(y6, SENDING, BYTE);
    assert Act(y6, Local(SR.Fill)) == y7;
    Closes(y7, y8);
    SendsFin(y8.sender);
    FillAct(y8, CLOSING, FIN);
    assert Act(y8, Local(SR.Fill)) == y9;
    EmitsBoth(y9);
    var e9 := [Emit] + [];
    var e8 := [Local(SR.Fill)] + e9;
    var e7 := [Local(SR.AppClose)] + e8;
    var e6 := [Local(SR.Fill)] + e7;
    assert Transfer() == [Local(SR.AppWrite([10]))] + e6;
    Peel(y5, Local(SR.AppWrite([10])), e6);
    Peel(y6, Local(SR.Fill), e7);
    Peel(y7, Local(SR.AppClose), e8);
    Peel(y8, Local(SR.Fill), e9);
    Peel(y9, Emit, []);
    PeelNothing(Overtaking());
  }

  lemma Writes(y5: System, y6: System)
    requires y5 == Opened(8)
    requires y6 == y5.(sender := At([], Text([10], 0, false), 1, 8, 0, [], 1, true, false))
    ensures Act(y5, Local(SR.AppWrite([10]))) == y6 && Enabled(y5, Local(SR.AppWrite([10])))
  {
    SC.NoteNothing(y5.history, y5.sender, SR.AppWrite([10]));
    assert [] + [10][..1] == [10];
  }

  lemma Closes(y7: System, y8: System)
    requires y7.sender == SENDING
    requires y8 == y7.(sender := At([BYTE], Text([10], 1, true), 2, 8, 1, [Flying(BYTE)], 1, true, false))
    ensures Act(y7, Local(SR.AppClose)) == y8 && Enabled(y7, Local(SR.AppClose))
  {
    SC.NoteNothing(y7.history, y7.sender, SR.AppClose);
  }

  lemma EmitsBoth(y9: System)
    requires y9 == Opened(8).(sender := CLOSING, history := SC.History([1, 2], {0, 1, 2}))
    ensures Act(y9, Emit) == Overtaking() && Enabled(y9, Emit)
  {
    assert Queued(y9) == {Copy(BYTE, 1), Copy(FIN, 2)} by {
      assert y9.sender.segmentsOut[0] == BYTE && y9.history.queued[0] == 1;
      assert y9.sender.segmentsOut[1] == FIN && y9.history.queued[1] == 2;
    }
  }

  // ---------------------------------------------------------------- the FIN arrives first

  lemma StoresGap(node: Node)
    ensures Store([], node, 0, 0) == ([node], 0)
  {
    assert Insert([], node) == [node];
  }

  lemma PushesGap()
    ensures Push(New(8), [], 1, true) == Reassembler([Node(1, [])], 0, 0, true, Log(8, [], 0, true, false))
  {
    hide Store, Low64;
    SmallLow(0);
    SmallLow(1);
    StoresGap(Node(1, []));
    assert Substr([], 0, 0) == [];
    var marked := New(8).(eof := true);
    assert Accept(marked, [], 1, 1) == marked.(cache := [Node(1, [])]);
  }

  /** The end mark at index 1 is taken although the byte at index 0 is missing, and nothing is pending. */
  lemma EndsEmpty()
    ensures var r := TR.SegmentReceived(Synced(8), FIN);
            r.Output().ended && r.Output().bytes == []
  {
    hide Unwrap, Push;
    SmallNumbers(2, 0);
    PushesGap();
  }

  /**
   After a run in which every action is allowed, the bare FIN is on the wire and arrives in time. It is not orderly,
   and delivering it before the byte ends the receiver's input with nothing, although the writer wrote one byte.
   */
  lemma BareFinTruncates()
    ensures var y0 := Initial(8, 8, 1000, 0);
            var y := Run(y0, Prologue());
            var y' := Act(y, Deliver(Copy(FIN, 2)));
            && AllEnabled(y0, Prologue())
            && Copy(FIN, 2) in y.net && Timely(y, Copy(FIN, 2)) && !Orderly(y, Copy(FIN, 2))
            && y'.sender.stream.bytes == [10] && y'.sender.stream.ended
            && y'.receiver.Output().ended && y'.receiver.Output().bytes == []
  {
    hide Run, AllEnabled, TR.SegmentReceived, Handshake, Transfer;
    ShakesHands(8);
    Transfers();
    RunConcat(Initial(8, 8, 1000, 0), Handshake(8), Transfer());
    EndsEmpty();
    assert !RP.Accepted(New(8), 0);
  }
}
