/**
 One endpoint of a TCP connection (tcp_connection.hh and .cc) with the state
 summaries of tcp_state.cc.
 */
module TcpConnections {
  import opened Words
  import opened WrappingIntegers
  import opened ByteStreams
  import opened TcpSegments
  import opened TcpSenders
  import opened TcpReceivers

  const MAX_RETX_ATTEMPTS := 8

  datatype ReceiverState = ReceiverError | Listen | SynRecv | FinRecv

  datatype SenderState = SenderError | Closed | SynSent | SynAcked | FinSent | FinAcked

  function ReceiverSummary(r: Receiver): ReceiverState {
    if r.Output().error then ReceiverError
    else if r.Ackno().None? then Listen
    else if r.Output().ended then FinRecv
    else SynRecv
  }

  function SenderSummary(s: Sender): SenderState {
    if s.stream.error then SenderError
    else if s.nextSeqno == 0 then Closed
    else if s.nextSeqno == Low64(s.BytesInFlight()) then SynSent
    else if !s.stream.Eof() then SynAcked
    else if s.nextSeqno < |s.stream.bytes| + 2 then SynAcked
    else if Low64(s.BytesInFlight()) != 0 then FinSent
    else FinAcked
  }

  datatype Connection = Connection(
    timeout: U16,
    sender: Sender,
    receiver: Receiver,
    segmentsOut: seq<Segment>,
    linger: bool,
    now: nat,
    lastReceived: nat,
    active: bool)

  function NewConnection(sendCapacity: nat, recvCapacity: nat, timeout: U16, isn: U32): Connection {
    Connection(timeout, NewSender(sendCapacity, timeout, isn), NewReceiver(recvCapacity), [], true, 0, 0, true)
  }

  /** Fill in the acknowledgment and the window, clamped to 16 bits. */
  function Stamp(r: Receiver, seg: Segment): Segment {
    seg.(header := seg.header.(
      ack := ReceiverSummary(r) != Listen,
      ackno := if r.Ackno().Some? then r.Ackno().value else 0,
      win := Min(r.WindowSize(), 0xffff)))
  }

  function StampAll(r: Receiver, segs: seq<Segment>): (out: seq<Segment>)
    ensures |out| == |segs|
  {
    if segs == [] then [] else [Stamp(r, segs[0])] + StampAll(r, segs[1..])
  }

  /** `send_with_ackno_and_win` */
  function Flush(c: Connection): Connection {
    c.(sender := c.sender.(segmentsOut := []),
       segmentsOut := c.segmentsOut + StampAll(c.receiver, c.sender.segmentsOut))
  }

  function SetRst(c: Connection): Connection {
    c.(active := false, linger := false,
       sender := c.sender.(stream := SetError(c.sender.stream)),
       receiver := c.receiver.(reassembler :=
         c.receiver.reassembler.(output := SetError(c.receiver.reassembler.output))))
  }

  /** Both streams have ended and everything sent was acknowledged. */
  predicate Finished(c: Connection) {
    ReceiverSummary(c.receiver) == FinRecv && SenderSummary(c.sender) == FinAcked
  }

  /** Hand the segment to the receiver and its acknowledgment to the sender; decide whether lingering is needed. */
  function Absorbed(c: Connection, seg: Segment): Connection {
    var receiver := SegmentReceived(c.receiver, seg);
    var sender := if seg.header.ack then AckReceived(c.sender, seg.header.ackno, seg.header.win) else c.sender;
    c.(receiver := receiver, sender := sender,
       linger := c.linger && !(receiver.Output().ended && !sender.stream.Eof()))
  }

  /** Send what the window allows, or at least an empty segment when one is owed. */
  function Answer(c: Connection, seg: Segment): Connection {
    if c.receiver.Ackno().None? then c
    else
      var s := FillWindow(c.sender);
      var owed := seg.Length() > 0 || seg.header.seqno == Low32(c.receiver.Ackno().value - 1);
      c.(sender := if s.segmentsOut == [] && owed then SendEmpty(s) else s)
  }

  function Receive(c: Connection, seg: Segment): Connection {
    var c1 := c.(lastReceived := c.now);
    if seg.header.rst then SetRst(c1)
    else
      var c2 := Absorbed(c1, seg);
      if Finished(c2) && !c2.linger then c2.(active := false)
      else Flush(Answer(c2, seg))
  }

  function WriteData(c: Connection, data: seq<Byte>): Connection {
    Flush(c.(sender := FillWindow(c.sender.(stream := Write(c.sender.stream, data)))))
  }

  function EndInputStream(c: Connection): Connection {
    Flush(c.(sender := FillWindow(c.sender.(stream := EndInput(c.sender.stream)))))
  }

  function Connect(c: Connection): Connection {
    Flush(c.(sender := FillWindow(c.sender)))
  }

  function RstSegment(s: Sender): Segment {
    Segment(BlankHeader().(seqno := Wrap(Low64(s.nextSeqno), s.isn), rst := true), [])
  }

  function AfterTick(c: Connection, ms: nat): Connection {
    var c1 := c.(now := c.now + ms, sender := Tick(c.sender, ms));
    Flush(if c1.sender.retransmissions > MAX_RETX_ATTEMPTS then
            SetRst(c1.(sender := c1.sender.(segmentsOut := [RstSegment(c1.sender)])))
          else c1)
  }

  function TickConnection(c: Connection, ms: nat): Connection {
    var c1 := AfterTick(c, ms);
    if Finished(c1) && c1.linger && c1.now - c1.lastReceived >= 10 * c1.timeout then c1.(active := false) else c1
  }

  // ---------------------------------------------------------------- the class

  class TcpConnection {
    const timeout: U16
    const sender: TcpSender
    const receiver: TcpReceiver
    var segmentsOut: seq<Segment>
    var linger: bool
    var now: nat
    var lastReceived: nat
    var active: bool

    /** Everything the connection owns. */
    ghost function Repr(): set<object> {
      {this, sender, sender.stream, sender.stream.buf, receiver, receiver.reassembler,
       receiver.reassembler.output, receiver.reassembler.output.buf}
    }

    ghost predicate Valid()
      reads Repr()
    {
      && sender.Valid() && receiver.Valid()
      && sender.stream != receiver.reassembler.output
      && sender.stream.buf != receiver.reassembler.output.buf
    }

    ghost function Abs(): Connection
      requires Valid()
      reads Repr()
    {
      Connection(timeout, sender.Abs(), receiver.Abs(), segmentsOut, linger, now, lastReceived, active)
    }

    constructor (sendCapacity: nat, recvCapacity: nat, timeout: U16, isn: U32)
      ensures Valid() && fresh(Repr())
      ensures Abs() == NewConnection(sendCapacity, recvCapacity, timeout, isn)
    {
      this.timeout := timeout;
      sender := new TcpSender(sendCapacity, timeout, isn);
      receiver := new TcpReceiver(recvCapacity);
      segmentsOut, linger, now, lastReceived, active := [], true, 0, 0, true;
    }

    method SendWithAcknoAndWin()
      requires Valid()
      modifies `segmentsOut, sender`segmentsOut
      ensures Valid() && Abs() == Flush(old(Abs()))
    {
      hide Stamp;
      ghost var r := receiver.Abs();
      while sender.segmentsOut != []
        invariant Valid()
        invariant segmentsOut + StampAll(r, sender.segmentsOut) ==
                  old(segmentsOut) + StampAll(r, old(sender.segmentsOut))
        decreases |sender.segmentsOut|
      {
        var seg := sender.segmentsOut[0];
        sender.segmentsOut := sender.segmentsOut[1..];
        var stamped := StampSegment(seg);
        segmentsOut := segmentsOut + [stamped];
      }
    }

    method StampSegment(seg: Segment) returns (stamped: Segment)
      requires Valid()
      ensures stamped == Stamp(Abs().receiver, seg)
    {
      var ackno := receiver.Acknowledgment();
      stamped := seg.(header := seg.header.(
        ack := receiver.reassembler.output.failed || ackno.Some?,
        ackno := if ackno.Some? then ackno.value else 0,
        win := if receiver.Window() > 0xffff then 0xffff else receiver.Window()));
    }

    method Reset()
      requires Valid()
      modifies this, sender.stream, receiver.reassembler.output
      ensures Valid() && Abs() == SetRst(old(Abs()))
    {
      active := false;
      linger := false;
      sender.stream.Fail();
      receiver.reassembler.output.Fail();
    }

    function IsFinished(): (b: bool)
      requires Valid()
      reads Repr()
      ensures b == Finished(Abs())
    {
      var flight := Low64(sender.nextSeqno - Unwrap(sender.latestAckno, sender.isn, Low64(sender.nextSeqno)));
      && !receiver.reassembler.output.failed && receiver.synced && receiver.reassembler.output.inputEnded
      && !sender.stream.failed && sender.nextSeqno != 0 && sender.nextSeqno != flight
      && sender.stream.inputEnded && sender.stream.curSize == 0
      && sender.nextSeqno >= sender.stream.writeCount + 2 && flight == 0
    }

    method Absorb(seg: Segment)
      requires Valid()
      modifies this, sender, receiver, receiver.reassembler
      modifies receiver.reassembler.output, receiver.reassembler.output.buf
      ensures Valid() && Abs() == Absorbed(old(Abs()), seg)
    {
      hide SegmentReceived, AckReceived;
      receiver.Receive(seg);
      if seg.header.ack {
        sender.Ack(seg.header.ackno, seg.header.win);
      }
      if receiver.reassembler.output.inputEnded && !(sender.stream.inputEnded && sender.stream.curSize == 0) {
        linger := false;
      }
    }

    method Respond(seg: Segment)
      requires Valid() && sender.stream.capacity > 0
      modifies sender, sender.stream
      ensures Valid() && Abs() == Answer(old(Abs()), seg)
    {
      hide FillWindow, Low32;
      var ackno := receiver.Acknowledgment();
      if ackno.Some? {
        sender.Fill();
        if sender.segmentsOut == [] {
          if seg.Length() > 0 {
            sender.SendEmptySegment();
          } else {
            var next: int := ackno.value;
            if seg.header.seqno == Low32(next - 1) {
              sender.SendEmptySegment();
            }
          }
        }
      }
    }

    method SegmentArrives(seg: Segment)
      requires Valid() && sender.stream.capacity > 0
      modifies Repr()
      ensures Valid() && Abs() == Receive(old(Abs()), seg)
    {
      hide SetRst, Absorbed, Finished, Answer, Flush;
      lastReceived := now;
      if seg.header.rst {
        Reset();
        return;
      }
      Absorb(seg);
      if IsFinished() && !linger {
        active := false;
        return;
      }
      Respond(seg);
      SendWithAcknoAndWin();
    }

    method WriteBytes(data: seq<Byte>) returns (n: nat)
      requires Valid() && sender.stream.capacity > 0
      modifies Repr()
      ensures Valid() && Abs() == WriteData(old(Abs()), data) && n == AcceptCount(old(Abs()).sender.stream, data)
    {
      hide FillWindow, Flush;
      n := sender.stream.WriteBytes(data);
      sender.Fill();
      SendWithAcknoAndWin();
    }

    method CloseInput()
      requires Valid() && sender.stream.capacity > 0
      modifies Repr()
      ensures Valid() && Abs() == EndInputStream(old(Abs()))
    {
      hide FillWindow, Flush;
      sender.stream.End();
      sender.Fill();
      SendWithAcknoAndWin();
    }

    method Open()
      requires Valid() && sender.stream.capacity > 0
      modifies Repr()
      ensures Valid() && Abs() == Connect(old(Abs()))
    {
      hide FillWindow, Flush;
      sender.Fill();
      SendWithAcknoAndWin();
    }

    method GiveUp()
      requires Valid()
      modifies this, sender, sender.stream, receiver.reassembler.output
      ensures Valid()
      ensures var c := old(Abs());
              Abs() == SetRst(c.(sender := c.sender.(segmentsOut := [RstSegment(c.sender)])))
    {
      while sender.segmentsOut != []
        invariant Valid() && Abs() == old(Abs()).(sender := old(Abs()).sender.(segmentsOut := sender.segmentsOut))
        decreases |sender.segmentsOut|
      {
        sender.segmentsOut := sender.segmentsOut[1..];
      }
      var rst := Segment(BlankHeader().(seqno := Wrap(Low64(sender.nextSeqno), sender.isn), rst := true), []);
      sender.segmentsOut := sender.segmentsOut + [rst];
      Reset();
    }

    method TickSender(ms: nat)
      requires Valid()
      modifies Repr()
      ensures Valid() && Abs() == AfterTick(old(Abs()), ms)
    {
      hide Tick, Flush, SetRst, RstSegment;
      now := now + ms;
      sender.Elapse(ms);
      if sender.retransmissions > MAX_RETX_ATTEMPTS {
        GiveUp();
      }
      SendWithAcknoAndWin();
    }

    method Elapse(ms: nat)
      requires Valid()
      modifies Repr()
      ensures Valid() && Abs() == TickConnection(old(Abs()), ms)
    {
      hide AfterTick, Finished;
      TickSender(ms);
      if IsFinished() && linger && now - lastReceived >= 10 * timeout {
        active := false;
      }
    }
  }
}
