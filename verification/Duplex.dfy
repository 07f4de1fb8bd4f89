/**
 Two connections that talk to each other over a network that may lose, duplicate,
 delay and reorder. Each direction is an instance of the one-way system, so what
 holds there holds for both streams at once.
 */
module Duplex {
  import opened Words
  import opened WrappingIntegers
  import opened ByteStreams
  import opened StreamReassemblers
  import RP = ReassemblyProofs
  import opened TcpSegments
  import opened TcpSenders
  import SP = SenderProofs
  import SR = SenderRuns
  import SC = SegmentCuts
  import TR = TcpReceivers
  import opened TcpConnections
  import CP = ConnectionProofs
  import opened ConnectionEffects
  import SS = SegmentShapes
  import CL = Closings
  import EE = EndToEnd

  /** A segment on the wire: as the sender queued it, and what the connection wrote into it when handing it over. */
  datatype Packet = Packet(copy: EE.Copy, ack: bool, stamp: EE.Acknowledgment)

  function Wire(p: Packet): Segment {
    p.copy.segment.(header := p.copy.segment.header.(ack := p.ack, ackno := p.stamp.ackno, win := p.stamp.win))
  }

  /** A connection, where its sender has cut the stream, and every packet it has ever put on the wire. */
  datatype Endpoint = Endpoint(conn: Connection, history: SC.History, wire: set<Packet>)

  datatype State = State(a: Endpoint, b: Endpoint)

  // ---------------------------------------------------------------- one direction

  function Copies(wire: set<Packet>): set<EE.Copy> {
    set p | p in wire :: p.copy
  }

  function Acks(wire: set<Packet>): set<EE.Acknowledgment> {
    set p | p in wire && p.ack :: p.stamp
  }

  /** The stream from `x` to `y`, acknowledged by what `y` sends. */
  function Direction(x: Endpoint, y: Endpoint): EE.System {
    EE.System(Healthy(x.conn.sender), x.history, HealthyReceiver(y.conn.receiver), Copies(x.wire), Acks(y.wire))
  }

  // ---------------------------------------------------------------- one endpoint moves

  function StampOf(r: TR.Receiver): EE.Acknowledgment {
    EE.Acknowledgment(if r.Ackno().Some? then r.Ackno().value else 0, Min(r.WindowSize(), 0xffff), r.Assembled())
  }

  function Packets(segs: seq<Segment>, positions: seq<nat>, r: TR.Receiver): set<Packet> {
    set k | 0 <= k < |segs| && k < |positions| :: Packet(EE.Copy(segs[k], positions[k]), r.synced, StampOf(r))
  }

  /** The connection takes its step; unless it fails, what it hands over goes on the wire. */
  function Stepped(x: Endpoint, e: CP.Event): Endpoint {
    var c, s := CP.Step(x.conn, e), Loaded(x.conn, e);
    var h := SC.NoteRun(x.history, x.conn.sender, SenderEvents(x.conn, e));
    Endpoint(c, SC.Note(h, s, SR.Drain),
             if CP.Failed(c) then x.wire else x.wire + Packets(s.segmentsOut, h.queued, c.receiver))
  }

  /** What can happen at an endpoint: the application or the clock, a packet of the peer, or a reset from anywhere. */
  datatype Input = App(e: CP.Event) | Hear(p: Packet) | HearReset(seg: Segment)

  function EventOf(i: Input): CP.Event {
    match i
    case App(e) => e
    case Hear(p) => CP.Arrives(Wire(p))
    case HearReset(seg) => CP.Arrives(seg)
  }

  /**
   An inactive connection is only read from. Packets were sent by the peer, arrive within half the 32-bit space, and a
   bare FIN does not overtake the last byte.
   */
  predicate Allowed(x: Endpoint, y: Endpoint, i: Input) {
    && CP.Spacious(x.conn.sender)
    && match i
       case App(e) => !e.Arrives? && (x.conn.active || e.Reads?)
       case Hear(p) =>
         && x.conn.active && p in y.wire
         && RP.Small(x.conn.receiver.reassembler, p.copy.segment.payload)
         && EE.Timely(Direction(y, x), p.copy) && EE.Orderly(Direction(y, x), p.copy)
         && (p.ack ==> EE.TimelyAck(Direction(x, y), p.stamp))
       case HearReset(seg) => x.conn.active && seg.header.rst
  }

  // ---------------------------------------------------------------- what goes on the wire is what is handed over

  lemma StampIsWire(r: TR.Receiver, seg: Segment, a: nat)
    requires !r.Output().error
    ensures Stamp(r, seg) == Wire(Packet(EE.Copy(seg, a), r.synced, StampOf(r)))
  {
    hide Wrap, Low64;
  }

  // ---------------------------------------------------------------- the direction it sends in

  /** The sender of a one-way system may take the step `e`. */
  ghost predicate Drives(y: EE.System, e: SR.Event) {
    if e.Ack? then exists a :: a in y.acks && a.ackno == e.ackno && a.win == e.win && EE.TimelyAck(y, a)
    else e.Fill? ==> SP.Roomy(y.sender)
  }

  ghost predicate Drivable(y: EE.System, es: seq<SR.Event>)
    decreases |es|
  {
    es == [] || (Drives(y, es[0]) && Drivable(EE.Advance(y, es[0]), es[1..]))
  }

  function Driven(y: EE.System, es: seq<SR.Event>): EE.System {
    y.(sender := SR.Run(y.sender, es), history := SC.NoteRun(y.history, y.sender, es))
  }

  lemma {:induction false} DrivenKeeps(y: EE.System, es: seq<SR.Event>)
    requires EE.Inv(y) && Drivable(y, es)
    ensures EE.Inv(Driven(y, es))
    decreases |es|
  {
    hide EE.Inv, SR.Step, SC.Note, SP.Roomy;
    if es == [] {
      assert Driven(y, es) == y;
    } else {
      var e := es[0];
      if e.Ack? {
        var a :| a in y.acks && a.ackno == e.ackno && a.win == e.win && EE.TimelyAck(y, a);
        EE.ActKeeps(y, EE.DeliverAck(a));
      } else {
        EE.ActKeeps(y, EE.Local(e));
      }
      DrivenKeeps(EE.Advance(y, e), es[1..]);
      assert Driven(EE.Advance(y, e), es[1..]) == Driven(y, es);
    }
  }

  lemma DrivableTwo(y: EE.System, e: SR.Event, f: SR.Event)
    ensures Drivable(y, [])
    ensures Drivable(y, [e]) <==> Drives(y, e)
    ensures Drivable(y, [e, f]) <==> Drives(y, e) && Drives(EE.Advance(y, e), f)
  {
    hide Drives, EE.Advance;
    assert [e][1..] == [] && [e, f][1..] == [f] && [f][1..] == [];
    var next := EE.Advance(y, e);
    assert Drivable(next, [f]) <==> Drives(next, f) && Drivable(EE.Advance(next, f), []);
  }

  lemma DrivableCons(y: EE.System, e: SR.Event, es: seq<SR.Event>)
    ensures Drivable(y, [e] + es) <==> Drives(y, e) && Drivable(EE.Advance(y, e), es)
  {
    hide Drives, EE.Advance;
    assert ([e] + es)[1..] == es;
  }

  lemma RoomyWhenSpacious(s: Sender, stream: Stream)
    requires CP.Spacious(s)
    ensures SP.Roomy(s) && SP.Roomy(s.(stream := stream))
  {
    hide Unwrap;
    assert s.(stream := stream).Acked() == s.Acked();
  }

  /** What a connection does to its sender is what the sender of its direction may do. */
  lemma EventsDrive(x: Endpoint, y: Endpoint, i: Input)
    requires CP.Inv(x.conn) && x.conn.active && Allowed(x, y, i)
    ensures Drivable(Direction(x, y), SenderEvents(x.conn, EventOf(i)))
  {
    hide SP.Inv, SR.Step, FillWindow, SC.Note, Drives, Drivable, AnswerEvents, Absorbed, CP.Spacious, SP.Roomy;
    var c, d, e := x.conn, Direction(x, y), EventOf(i);
    HealthyWhileActive(c);
    RoomyWhenSpacious(c.sender, c.sender.stream);
    match e
    case Arrives(seg) =>
      if seg.header.rst {
        DrivableTwo(d, SR.Fill, SR.Fill);
      } else {
        ArrivalDrives(x, y, i.p);
      }
    case Writes(data) => WriteDrives(d, SR.AppWrite(data));
    case Closes => WriteDrives(d, SR.AppClose);
    case Opens => FillDrives(d);
    case Ticks(ms) => TickDrivable(d, ms);
    case Reads(len) => DrivableTwo(d, SR.Fill, SR.Fill);
  }

  lemma WriteDrives(d: EE.System, e: SR.Event)
    requires CP.Spacious(d.sender) && (e.AppWrite? || e.AppClose?)
    ensures Drivable(d, [e, SR.Fill])
  {
    hide SC.Note, CP.Spacious, SP.Roomy;
    RoomyWhenSpacious(d.sender, SR.Step(d.sender, e).stream);
    DrivableTwo(d, e, SR.Fill);
  }

  lemma FillDrives(d: EE.System)
    requires CP.Spacious(d.sender)
    ensures Drivable(d, [SR.Fill])
  {
    hide SC.Note, CP.Spacious, SP.Roomy, Drivable;
    RoomyWhenSpacious(d.sender, d.sender.stream);
    DrivableTwo(d, SR.Fill, SR.Fill);
  }

  lemma TickDrivable(d: EE.System, ms: nat)
    ensures Drivable(d, [SR.Elapse(ms)])
  {
    hide Drivable;
    DrivableTwo(d, SR.Elapse(ms), SR.Fill);
  }

  lemma HealthyWhileActive(c: Connection)
    requires CP.Inv(c) && c.active
    ensures !CP.Failed(c) && Healthy(c.sender) == c.sender && HealthyReceiver(c.receiver) == c.receiver
  {
    hide SP.Inv;
  }

  lemma ArrivalDrives(x: Endpoint, y: Endpoint, p: Packet)
    requires CP.Inv(x.conn) && x.conn.active && Allowed(x, y, Hear(p)) && !Wire(p).header.rst
    ensures Drivable(Direction(x, y), SenderEvents(x.conn, CP.Arrives(Wire(p))))
  {
    hide SP.Inv, SR.Step, FillWindow, SC.Note, Drives, Drivable, AnswerEvents, Absorbed, CP.Spacious, SP.Roomy, CP.Inv;
    var c, seg, d := x.conn, Wire(p), Direction(x, y);
    HealthyWhileActive(c);
    var c1 := c.(lastReceived := c.now);
    SameInv(c, c1);
    CP.AbsorbedKeeps(c1, seg);
    var c2 := Absorbed(c1, seg);
    var es := AnswerEvents(c2, seg);
    if seg.header.ack {
      var e := SR.Ack(seg.header.ackno, seg.header.win);
      AckMayArrive(x, y, p);
      AnswerDrivable(EE.Advance(d, e), c2, seg);
      DrivableCons(d, e, es);
    } else {
      AnswerDrivable(d, c2, seg);
      assert [] + es == es;
    }
  }

  lemma SameInv(c: Connection, c1: Connection)
    requires CP.Inv(c) && c1 == c.(lastReceived := c1.lastReceived)
    ensures CP.Inv(c1) && c1.sender == c.sender
  {
    hide SP.Inv;
  }

  lemma AckMayArrive(x: Endpoint, y: Endpoint, p: Packet)
    requires p in y.wire && p.ack && EE.TimelyAck(Direction(x, y), p.stamp)
    ensures Drives(Direction(x, y), SR.Ack(Wire(p).header.ackno, Wire(p).header.win))
    ensures EE.Advance(Direction(x, y), SR.Ack(p.stamp.ackno, p.stamp.win)).sender ==
            AckReceived(Healthy(x.conn.sender), p.stamp.ackno, p.stamp.win)
  {
    hide AckReceived, SC.Note;
    assert p.stamp in Acks(y.wire);
  }

  lemma AnswerDrivable(d: EE.System, c: Connection, seg: Segment)
    requires d.sender == c.sender && CP.Spacious(c.sender)
    ensures Drivable(d, AnswerEvents(c, seg))
  {
    hide FillWindow, Finished, SC.Note, CP.Spacious, SP.Roomy, Drivable, Low32;
    RoomyWhenSpacious(c.sender, c.sender.stream);
    DrivableTwo(d, SR.Fill, SR.Empty);
  }

  lemma CopiesAdd(wire: set<Packet>, y: EE.System, r: TR.Receiver)
    ensures Copies(wire + Packets(y.sender.segmentsOut, y.history.queued, r)) == Copies(wire) + EE.Queued(y)
  {
    hide StampOf;
    var segs, positions := y.sender.segmentsOut, y.history.queued;
    var more := Packets(segs, positions, r);
    forall c | c in EE.Queued(y)
      ensures c in Copies(wire + more)
    {
      var k :| 0 <= k < |segs| && k < |positions| && EE.Copy(segs[k], positions[k]) == c;
      var p := Packet(EE.Copy(segs[k], positions[k]), r.synced, StampOf(r));
      assert p in more;
      assert p in wire + more && p.copy == c;
    }
    forall c | c in Copies(wire)
      ensures c in Copies(wire + more)
    {
      var p :| p in wire && p.copy == c;
      assert p in wire + more;
    }
  }

  /** The direction in which the moving endpoint sends. */
  lemma OutKeeps(x: Endpoint, y: Endpoint, i: Input)
    requires CP.Inv(x.conn) && x.conn.active && EE.Inv(Direction(x, y)) && Allowed(x, y, i)
    ensures EE.Inv(Direction(Stepped(x, EventOf(i)), y))
  {
    hide SP.Inv, EE.Inv, CP.Step, SenderEvents, Allowed, Drivable, SR.Run, SC.NoteRun, CP.Inv, Packets, CP.Failed;
    var e, d, x' := EventOf(i), Direction(x, y), Stepped(x, EventOf(i));
    HealthyWhileActive(x.conn);
    QueueEmpty(x.conn);
    EventsDrive(x, y, i);
    DrivenKeeps(d, SenderEvents(x.conn, e));
    var d1 := Driven(d, SenderEvents(x.conn, e));
    SenderIs(x.conn, e);
    RunKeepsError(x.conn.sender, SenderEvents(x.conn, e));
    if CP.Failed(x'.conn) {
      EE.ActKeeps(d1, EE.Local(SR.Drain));
      assert EE.Act(d1, EE.Local(SR.Drain)) == Direction(x', y);
    } else {
      EE.ActKeeps(d1, EE.Emit);
      CopiesAdd(x.wire, d1, x'.conn.receiver);
      assert EE.Act(d1, EE.Emit) == Direction(x', y);
    }
  }

  /** Every segment that an endpoint hands over is on its wire, unchanged. */
  lemma PacketsAreSegments(x: Endpoint, y: Endpoint, i: Input, k: nat)
    requires CP.Inv(x.conn) && x.conn.active && EE.Inv(Direction(x, y)) && Allowed(x, y, i)
    requires var c' := CP.Step(x.conn, EventOf(i));
             !CP.Failed(c') && |x.conn.segmentsOut| <= k < |c'.segmentsOut|
    ensures var x' := Stepped(x, EventOf(i));
            exists p :: p in x'.wire && Wire(p) == x'.conn.segmentsOut[k]
  {
    hide CP.Inv, EE.Inv, CP.Step, SenderEvents, Allowed, Drivable, SR.Run, SC.NoteRun, SC.Note, StampAll, Stamp;
    hide StampOf, Wire, EventOf;
    var e := EventOf(i);
    var c', s := CP.Step(x.conn, e), Loaded(x.conn, e);
    var h := SC.NoteRun(x.history, x.conn.sender, SenderEvents(x.conn, e));
    var j := k - |x.conn.segmentsOut|;
    HealthyWhileActive(x.conn);
    QueueEmpty(x.conn);
    EventsDrive(x, y, i);
    DrivenKeeps(Direction(x, y), SenderEvents(x.conn, e));
    PositionsKnown(Driven(Direction(x, y), SenderEvents(x.conn, e)));
    HandsOver(x.conn, e);
    StampedAt(c'.receiver, s.segmentsOut, j);
    StampIsWire(c'.receiver, s.segmentsOut[j], h.queued[j]);
    var p := Packet(EE.Copy(s.segmentsOut[j], h.queued[j]), c'.receiver.synced, StampOf(c'.receiver));
    assert p in Packets(s.segmentsOut, h.queued, c'.receiver);
  }

  lemma PositionsKnown(d: EE.System)
    requires EE.Inv(d)
    ensures |d.history.queued| == |d.sender.segmentsOut|
  {
    hide SP.Inv;
  }

  lemma QueueEmpty(c: Connection)
    requires CP.Inv(c)
    ensures c.sender.segmentsOut == []
  {
    hide SP.Inv;
  }

  // ---------------------------------------------------------------- the direction it receives in

  /** The receiver looks at nothing that the connection has stamped. */
  lemma StampUnseen(r: TR.Receiver, p: Packet)
    ensures TR.SegmentReceived(r, Wire(p)) == TR.SegmentReceived(r, p.copy.segment)
  {
    hide Unwrap, Low64, Push;
  }

  /** First half: the receiver takes what arrives, or is read from. */
  lemma ReceiverKeeps(x: Endpoint, y: Endpoint, i: Input)
    requires CP.Inv(x.conn) && EE.Inv(Direction(y, x)) && Allowed(x, y, i)
    ensures var r := HealthyReceiver(CP.Step(x.conn, EventOf(i)).receiver);
            EE.Inv(Direction(y, x).(receiver := r))
  {
    hide SP.Inv, EE.Inv, CP.Step, TR.SegmentReceived, CP.Inv, CP.Spacious, Wire;
    var c, d, e := x.conn, Direction(y, x), EventOf(i);
    ReceiverIs(c, e);
    match i
    case App(e') =>
      if e'.Reads? {
        EE.ActKeeps(d, EE.AppReads(e'.len));
      }
    case Hear(p) =>
      HealthyWhileActive(c);
      if !Wire(p).header.rst {
        StampUnseen(c.receiver, p);
        ReceivedHealthy(c.receiver, p.copy.segment);
        assert p.copy in Copies(y.wire);
        EE.ActKeeps(d, EE.Deliver(p.copy));
      }
    case HearReset(seg) =>
  }

  lemma AcksAdd(wire: set<Packet>, segs: seq<Segment>, positions: seq<nat>, r: TR.Receiver)
    ensures var acks := Acks(wire + Packets(segs, positions, r));
            acks == Acks(wire) || (r.synced && acks == Acks(wire) + {StampOf(r)})
  {
    hide StampOf;
    var more := Packets(segs, positions, r);
    assert forall p :: p in more ==> p.ack == r.synced && p.stamp == StampOf(r);
    forall a | a in Acks(wire)
      ensures a in Acks(wire + more)
    {
      var p :| p in wire && p.ack && p.stamp == a;
      assert p in wire + more;
    }
    if r.synced && |segs| > 0 && |positions| > 0 {
      var p := Packet(EE.Copy(segs[0], positions[0]), r.synced, StampOf(r));
      assert p in more;
      assert p in wire + more && p.stamp == StampOf(r);
    } else {
      assert forall p :: p in more ==> !p.ack;
    }
  }

  /** Second half: what it hands over acknowledges the other direction. */
  lemma InKeeps(x: Endpoint, y: Endpoint, i: Input)
    requires CP.Inv(x.conn) && EE.Inv(Direction(y, x)) && Allowed(x, y, i)
    ensures EE.Inv(Direction(y, Stepped(x, EventOf(i))))
  {
    hide SP.Inv, EE.Inv, CP.Step, SenderEvents, Loaded, Allowed, SC.NoteRun, SC.Note, CP.Inv, Packets, Acks, Wrap;
    var e, x' := EventOf(i), Stepped(x, EventOf(i));
    ReceiverKeeps(x, y, i);
    var d := Direction(y, x).(receiver := HealthyReceiver(x'.conn.receiver));
    if CP.Failed(x'.conn) {
      assert d == Direction(y, x');
    } else {
      var h := SC.NoteRun(x.history, x.conn.sender, SenderEvents(x.conn, e));
      AcksAdd(x.wire, Loaded(x.conn, e).segmentsOut, h.queued, x'.conn.receiver);
      assert HealthyReceiver(x'.conn.receiver) == x'.conn.receiver;
      if Acks(x'.wire) == Acks(x.wire) {
        assert d == Direction(y, x');
      } else {
        EE.ActKeeps(d, EE.Reply);
        assert EE.Act(d, EE.Reply) == Direction(y, x');
      }
    }
  }

  // ---------------------------------------------------------------- both together

  /** SYN is never skipped: acknowledgments exist only once SYN has arrived. */
  lemma NeverSkipsSyn(x: Endpoint, y: Endpoint, i: Input)
    requires CP.Inv(x.conn) && x.conn.active && EE.Inv(Direction(x, y)) && Allowed(x, y, i)
    ensures !CP.SkipsSyn(x.conn, EventOf(i))
  {
    hide SP.Inv, CP.Inv, SC.CutInv, EE.PendingUncut, EE.NetSound, AckReceived, Unwrap, Wrap, CP.Spacious;
    HealthyWhileActive(x.conn);
    match i
    case App(e) =>
    case Hear(p) =>
      if p.ack {
        assert p.stamp in Acks(y.wire);
        AckFrame(x.conn.sender, p.stamp.ackno, p.stamp.win);
      }
    case HearReset(seg) =>
  }

  /** Reading from a connection, active or not, changes nothing on the way out. */
  lemma ReadsOut(x: Endpoint, y: Endpoint, len: nat)
    requires CP.Inv(x.conn) && EE.Inv(Direction(x, y))
    ensures Direction(Stepped(x, CP.Reads(len)), y) == Direction(x, y)
  {
    hide SP.Inv, SC.CachePlaced, SC.Placed, EE.Matches, EE.NetSound, EE.AcksSound, EE.PlainSender, StampOf;
    hide EE.PendingUncut;
    var x' := Stepped(x, CP.Reads(len));
    RunTwo(x.conn.sender, SR.Fill, SR.Fill);
    assert Loaded(x.conn, CP.Reads(len)) == x.conn.sender;
    assert Packets([], x.history.queued, x'.conn.receiver) == {};
    assert x.wire + {} == x.wire;
    assert x.history.queued == [];
    assert x.history.cuts + (set p: nat | p in []) == x.history.cuts;
    assert SC.Note(x.history, x.conn.sender, SR.Drain) == x.history;
  }

  ghost predicate Inv(d: State) {
    && CP.Inv(d.a.conn) && CP.Inv(d.b.conn)
    && EE.Inv(Direction(d.a, d.b)) && EE.Inv(Direction(d.b, d.a))
  }

  /** One endpoint moves: both directions and its own connection stay sound. */
  lemma MoveKeeps(x: Endpoint, y: Endpoint, i: Input)
    requires CP.Inv(x.conn) && EE.Inv(Direction(x, y)) && EE.Inv(Direction(y, x)) && Allowed(x, y, i)
    ensures var x' := Stepped(x, EventOf(i));
            CP.Inv(x'.conn) && EE.Inv(Direction(x', y)) && EE.Inv(Direction(y, x'))
  {
    hide CP.Inv, EE.Inv, Direction, CP.Step, SenderEvents, Loaded, SC.NoteRun, SC.Note, CP.SkipsSyn, RP.Small;
    InKeeps(x, y, i);
    if x.conn.active {
      NeverSkipsSyn(x, y, i);
      CP.StepKeeps(x.conn, EventOf(i));
      OutKeeps(x, y, i);
    } else {
      ReadsOut(x, y, i.e.len);
      ReadIsEnabled(x.conn, i.e.len);
      CP.StepKeeps(x.conn, i.e);
    }
  }

  lemma ReadIsEnabled(c: Connection, len: nat)
    requires CP.Spacious(c.sender)
    ensures CP.Enabled(c, CP.Reads(len))
  {
    hide CP.Spacious;
  }

  /** `left` tells which of the two moves. */
  datatype Action = Action(left: bool, i: Input)

  function Act(d: State, act: Action): State {
    if act.left then d.(a := Stepped(d.a, EventOf(act.i))) else d.(b := Stepped(d.b, EventOf(act.i)))
  }

  predicate Enabled(d: State, act: Action) {
    if act.left then Allowed(d.a, d.b, act.i) else Allowed(d.b, d.a, act.i)
  }

  function Run(d: State, acts: seq<Action>): State
    decreases |acts|
  {
    if acts == [] then d else Run(Act(d, acts[0]), acts[1..])
  }

  predicate AllEnabled(d: State, acts: seq<Action>)
    decreases |acts|
  {
    acts == [] || (Enabled(d, acts[0]) && AllEnabled(Act(d, acts[0]), acts[1..]))
  }

  lemma {:induction false} RunKeeps(d: State, acts: seq<Action>)
    requires Inv(d) && AllEnabled(d, acts)
    ensures Inv(Run(d, acts))
    decreases |acts|
  {
    hide CP.Inv, EE.Inv, Direction, Stepped, Allowed;
    if acts != [] {
      if acts[0].left {
        MoveKeeps(d.a, d.b, acts[0].i);
      } else {
        MoveKeeps(d.b, d.a, acts[0].i);
      }
      RunKeeps(Act(d, acts[0]), acts[1..]);
    }
  }

  function NewEndpoint(sendCapacity: nat, recvCapacity: nat, timeout: U16, isn: U32): Endpoint {
    Endpoint(NewConnection(sendCapacity, recvCapacity, timeout, isn), SC.History([], {}), {})
  }

  /** `y` has received everything that was written at `x`, and knows that this is all. */
  predicate Complete(x: Endpoint, y: Endpoint) {
    && x.conn.sender.stream.ended && y.conn.receiver.Output().ended
    && y.conn.receiver.Output().bytes == x.conn.sender.stream.bytes
  }

  /** A connection that is inactive and did not fail has both streams complete. */
  lemma CloseIsComplete(x: Endpoint, y: Endpoint)
    requires CP.Inv(x.conn) && EE.Inv(Direction(x, y)) && EE.Inv(Direction(y, x))
    requires !x.conn.active && !CP.Failed(x.conn)
    ensures Complete(x, y) && Complete(y, x)
  {
    hide SP.Inv, EE.Inv, Unwrap;
    EE.Safe(Direction(x, y));
    EE.Safe(Direction(y, x));
    assert Healthy(x.conn.sender).Acked() == x.conn.sender.Acked();
  }

  lemma NewIsSound(x: Endpoint, y: Endpoint, sendCapacity: nat, recvCapacity: nat, timeout: U16, isn: U32)
    requires x == NewEndpoint(sendCapacity, recvCapacity, timeout, isn)
    requires y.conn.receiver == TR.NewReceiver(y.conn.receiver.Output().capacity) && y.wire == {}
    ensures CP.Inv(x.conn) && EE.Inv(Direction(x, y))
  {
    hide SP.Inv, Unwrap;
    SP.NewSenderInv(sendCapacity, timeout, isn);
    EE.InitialInv(sendCapacity, y.conn.receiver.Output().capacity, timeout, isn);
    assert Copies({}) == {} && Acks({}) == {};
    assert Direction(x, y) == EE.Initial(sendCapacity, y.conn.receiver.Output().capacity, timeout, isn);
  }

  /**
   In every run of two new connections: what either has received is a prefix of what was written at the other, and
   whenever one of them is inactive without having failed, both streams are complete at both ends.
   */
  lemma {:induction false} CleanCloseAtBothEnds(a: Endpoint, sendA: nat, recvA: nat, timeoutA: U16, isnA: U32,
                                                b: Endpoint, sendB: nat, recvB: nat, timeoutB: U16, isnB: U32,
                                                acts: seq<Action>)
    requires a == NewEndpoint(sendA, recvA, timeoutA, isnA) && b == NewEndpoint(sendB, recvB, timeoutB, isnB)
    requires AllEnabled(State(a, b), acts)
    ensures var d := Run(State(a, b), acts);
            && d.b.conn.receiver.Output().bytes <= d.a.conn.sender.stream.bytes
            && d.a.conn.receiver.Output().bytes <= d.b.conn.sender.stream.bytes
            && ((!d.a.conn.active && !CP.Failed(d.a.conn)) || (!d.b.conn.active && !CP.Failed(d.b.conn)) ==>
                  Complete(d.a, d.b) && Complete(d.b, d.a))
  {
    hide Run, AllEnabled, CP.Inv, EE.Inv, CP.Failed, Complete;
    NewIsSound(a, b, sendA, recvA, timeoutA, isnA);
    NewIsSound(b, a, sendB, recvB, timeoutB, isnB);
    RunKeeps(State(a, b), acts);
    var d := Run(State(a, b), acts);
    EE.Safe(Direction(d.a, d.b));
    EE.Safe(Direction(d.b, d.a));
    if !d.a.conn.active && !CP.Failed(d.a.conn) {
      CloseIsComplete(d.a, d.b);
    }
    if !d.b.conn.active && !CP.Failed(d.b.conn) {
      CloseIsComplete(d.b, d.a);
    }
  }

  // ---------------------------------------------------------------- neither fails by itself

  /** Nothing the endpoint sends or has sent carries a reset. */
  ghost predicate Pristine(x: Endpoint) {
    SS.PristineSender(x.conn.sender) && forall p :: p in x.wire ==> SS.Pristine(p.copy.segment)
  }

  lemma SteppedPristine(x: Endpoint, e: CP.Event)
    requires Pristine(x) && x.conn.sender.segmentsOut == []
    ensures Pristine(Stepped(x, e))
  {
    hide SS.Pristine, CP.Step, SenderEvents, SR.Run, SC.NoteRun, SC.Note, StampOf;
    SS.RunPristine(x.conn.sender, SenderEvents(x.conn, e));
    SenderIs(x.conn, e);
    var s := Loaded(x.conn, e);
    var s' := CP.Step(x.conn, e).sender;
    assert s'.cache == Healthy(s').cache == s.cache;
    assert s'.segmentsOut == Healthy(s').segmentsOut == [];
  }

  /** Not a reset from elsewhere, and not more than eight retransmissions in a row. */
  predicate Uneventful(x: Endpoint, i: Input) {
    !i.HearReset? && !CL.GivesUp(x.conn, EventOf(i))
  }

  predicate AllUneventful(d: State, acts: seq<Action>)
    decreases |acts|
  {
    acts == [] ||
    (Uneventful(if acts[0].left then d.a else d.b, acts[0].i) && AllUneventful(Act(d, acts[0]), acts[1..]))
  }

  lemma StaysUnfailed(x: Endpoint, y: Endpoint, i: Input)
    requires CP.Inv(x.conn) && Pristine(x) && Pristine(y) && Allowed(x, y, i) && Uneventful(x, i)
    requires !CP.Failed(x.conn)
    ensures Pristine(Stepped(x, EventOf(i))) && !CP.Failed(Stepped(x, EventOf(i)).conn)
  {
    hide CP.Inv, CP.Step, Loaded, SenderEvents, SS.PristineSender, CP.Spacious, CL.GivesUp, RP.Small;
    QueueEmpty(x.conn);
    SteppedPristine(x, EventOf(i));
    CL.FailsExact(x.conn, EventOf(i));
  }

  lemma {:induction false} RunStaysUnfailed(d: State, acts: seq<Action>)
    requires Inv(d) && AllEnabled(d, acts) && AllUneventful(d, acts)
    requires Pristine(d.a) && Pristine(d.b) && !CP.Failed(d.a.conn) && !CP.Failed(d.b.conn)
    ensures !CP.Failed(Run(d, acts).a.conn) && !CP.Failed(Run(d, acts).b.conn)
    decreases |acts|
  {
    hide CP.Inv, EE.Inv, Direction, Stepped, Allowed, Uneventful, Pristine, CP.Failed;
    if acts != [] {
      if acts[0].left {
        MoveKeeps(d.a, d.b, acts[0].i);
        StaysUnfailed(d.a, d.b, acts[0].i);
      } else {
        MoveKeeps(d.b, d.a, acts[0].i);
        StaysUnfailed(d.b, d.a, acts[0].i);
      }
      RunStaysUnfailed(Act(d, acts[0]), acts[1..]);
    }
  }

  /**
   Two connections do not make each other fail: in every run without a reset from elsewhere and without more than
   eight retransmissions in a row, neither ever fails.
   */
  lemma {:induction false} NeitherFails(a: Endpoint, sendA: nat, recvA: nat, timeoutA: U16, isnA: U32,
                                        b: Endpoint, sendB: nat, recvB: nat, timeoutB: U16, isnB: U32,
                                        acts: seq<Action>)
    requires a == NewEndpoint(sendA, recvA, timeoutA, isnA) && b == NewEndpoint(sendB, recvB, timeoutB, isnB)
    requires AllEnabled(State(a, b), acts) && AllUneventful(State(a, b), acts)
    ensures var d := Run(State(a, b), acts);
            !CP.Failed(d.a.conn) && !CP.Failed(d.b.conn)
  {
    hide Run, AllEnabled, AllUneventful, CP.Inv, EE.Inv;
    NewIsSound(a, b, sendA, recvA, timeoutA, isnA);
    NewIsSound(b, a, sendB, recvB, timeoutB, isnB);
    RunStaysUnfailed(State(a, b), acts);
  }
}
