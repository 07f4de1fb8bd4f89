/**
 One direction of a TCP connection: a sender, a receiver, and between them a
 network that may lose, duplicate, delay and reorder. The network is modelled by
 the sets of all segments and acknowledgments ever sent; any of them may arrive at
 any time, any number of times.
 */
module EndToEnd {
  import opened Words
  import opened WrappingIntegers
  import opened StreamReassemblers
  import opened StreamIntegrity
  import RP = ReassemblyProofs
  import opened TcpSegments
  import opened TcpSenders
  import SP = SenderProofs
  import SR = SenderRuns
  import SC = SegmentCuts
  import opened TcpReceivers

  /** A segment on the wire; the model also records the absolute `position` at which it was sent. */
  datatype Copy = Copy(segment: Segment, position: nat)

  /** An acknowledgment on the wire; the model also records the absolute `position` that was wrapped into it. */
  datatype Acknowledgment = Acknowledgment(ackno: U32, win: U16, position: nat)

  /** Both ends, what was ever put on the wire, and where the sender has cut the stream. */
  datatype System = System(sender: Sender, history: SC.History, receiver: Receiver, net: set<Copy>,
                           acks: set<Acknowledgment>)

  datatype Action =
    | Local(e: SR.Event)
    | Emit
    | Deliver(c: Copy)
    | Reply
    | DeliverAck(a: Acknowledgment)
    | AppReads(len: nat)

  /** The sender takes a step. */
  function Advance(y: System, e: SR.Event): System {
    y.(sender := SR.Step(y.sender, e), history := SC.Note(y.history, y.sender, e))
  }

  function Queued(y: System): set<Copy> {
    set k | 0 <= k < |y.sender.segmentsOut| && k < |y.history.queued| ::
      Copy(y.sender.segmentsOut[k], y.history.queued[k])
  }

  function Act(y: System, act: Action): System {
    match act
    case Local(e) => Advance(y, e)
    case Emit => Advance(y, SR.Drain).(net := y.net + Queued(y))
    case Deliver(c) => y.(receiver := SegmentReceived(y.receiver, c.segment))
    case Reply =>
      if y.receiver.synced then
        y.(acks := y.acks + {Acknowledgment(y.receiver.Ackno().value, Min(y.receiver.WindowSize(), 0xffff),
                                            y.receiver.Assembled())})
      else y
    case DeliverAck(a) => Advance(y, SR.Ack(a.ackno, a.win))
    case AppReads(len) => y.(receiver := ReadStream(y.receiver, len))
  }

  // ---------------------------------------------------------------- what the network may do

  /** A copy of what was sent within half the 32-bit space of what the receiver has assembled. */
  predicate Timely(y: System, c: Copy) {
    Distance(c.position, |y.receiver.Output().bytes|) < 0x8000_0000
  }

  /** A bare FIN does not overtake the last byte. */
  predicate Orderly(y: System, c: Copy) {
    y.receiver.synced ==> !Premature(y.receiver.reassembler, c.segment.payload, c.position - 1, c.segment.header.fin)
  }

  /** An acknowledgment of a position less than half the 32-bit space behind what was sent. */
  predicate TimelyAck(y: System, a: Acknowledgment) {
    Distance(a.position, y.sender.nextSeqno) < 0x8000_0000
  }

  predicate Enabled(y: System, act: Action) {
    match act
    case Local(e) => !e.Ack? && (e.Fill? ==> SP.Roomy(y.sender))
    case Emit => true
    case Deliver(c) =>
      c in y.net && RP.Small(y.receiver.reassembler, c.segment.payload) && Timely(y, c) && Orderly(y, c)
    case Reply => true
    case DeliverAck(a) => a in y.acks && TimelyAck(y, a)
    case AppReads(len) => true
  }

  // ---------------------------------------------------------------- the invariant

  /** The bytes that have been cut into segments. */
  function SentBytes(s: Sender): seq<Byte> {
    s.stream.bytes[..s.stream.read]
  }

  /** A SYN never carries FIN, because it is sent under the initial window of one. */
  predicate Plain(seg: Segment) {
    seg.header.syn ==> !seg.header.fin
  }

  predicate PlainSender(s: Sender) {
    && (!s.syned ==> s.windowSize == 1)
    && (forall k :: 0 <= k < |s.segmentsOut| ==> Plain(s.segmentsOut[k]))
    && (forall k :: 0 <= k < |s.cache| ==> Plain(s.cache[k].segment))
  }

  /** The receiver holds a part of what was sent, and knows its end only once FIN was sent. */
  ghost predicate Matches(s: Sender, r: Receiver) {
    if r.synced then
      && s.syned && r.isn == s.isn
      && Faithful(SentBytes(s), r.reassembler)
      && (r.reassembler.eof ==> s.fin)
    else
      r.reassembler == New(r.Output().capacity)
  }

  ghost predicate NetSound(y: System) {
    forall c :: c in y.net ==>
      SC.Placed(y.sender, c.segment, c.position, y.history.cuts) && Plain(c.segment)
  }

  ghost predicate AcksSound(y: System) {
    && (forall a :: a in y.acks ==>
          && y.receiver.synced
          && 1 <= a.position <= y.receiver.Assembled()
          && a.ackno == Wrap(Low64(a.position), y.sender.isn))
    && y.sender.Acked() <= y.receiver.Assembled()
  }

  /** No cut falls inside a pending substring: position `i + 1` carries the byte at index `i`. */
  ghost predicate PendingUncut(r: Reassembler, cuts: set<nat>) {
    forall i :: RP.StrictlyInside(r.cache, i) ==> i + 1 !in cuts
  }

  ghost predicate Inv(y: System) {
    && SP.Inv(y.sender) && SC.CutInv(y.sender, y.history) && PlainSender(y.sender)
    && Matches(y.sender, y.receiver)
    && PendingUncut(y.receiver.reassembler, y.history.cuts)
    && NetSound(y) && AcksSound(y)
  }

  function Initial(sendCapacity: nat, recvCapacity: nat, timeout: U16, isn: U32): System {
    System(NewSender(sendCapacity, timeout, isn), SC.History([], {}), NewReceiver(recvCapacity), {}, {})
  }

  // ---------------------------------------------------------------- what the invariant means

  /** The receiver's bytes are a prefix of the writer's, and the acknowledgments are ordered. */
  lemma Safe(y: System)
    requires Inv(y)
    ensures y.receiver.Output().bytes <= y.sender.stream.bytes
    ensures y.receiver.Output().ended ==> y.receiver.Output().bytes == y.sender.stream.bytes && y.sender.stream.ended
    ensures y.sender.Acked() <= y.receiver.Assembled() <= y.sender.nextSeqno
  {
    hide SP.Flat, SP.Numbered, Pow2, Unwrap, Wrap;
    if y.receiver.synced {
      FaithfulOutput(SentBytes(y.sender), y.receiver.reassembler);
    }
  }

  // ---------------------------------------------------------------- the sender moves

  /** What has been sent stays: SYN, every byte in place, and after FIN nothing more. */
  lemma SentGrows(s: Sender, s': Sender)
    requires SP.Sent(s) <= SP.Sent(s') && (s.fin ==> s.syned)
    ensures s.syned ==> s'.syned
    ensures s.syned ==> SentBytes(s) <= SentBytes(s')
    ensures s.fin ==> s'.fin && SentBytes(s') == SentBytes(s)
  {
    var a, b, m, n := SP.Sent(s), SP.Sent(s'), |SentBytes(s)|, |SentBytes(s')|;
    if s.syned {
      assert a[0] == b[0];
      SentAt(s', 0);
      forall k | 0 <= k < m
        ensures k < n && SentBytes(s')[k] == SentBytes(s)[k]
      {
        ByteInPlace(s, s', k);
      }
      if m > 0 {
        ByteInPlace(s, s', m - 1);
      }
      if s.fin {
        assert a[m + 1] == b[m + 1];
        SentAt(s', m + 1);
      }
    }
  }

  /** SYN occurs only at position 0, FIN only at the last, and byte k at k + 1. */
  lemma SentAt(s: Sender, k: nat)
    requires k < |SP.Sent(s)|
    ensures var sent := SP.Sent(s);
            && (sent[k] == SynMark <==> s.syned && k == 0)
            && (sent[k] == FinMark <==> s.fin && k == |sent| - 1)
            && (s.syned && 1 <= k <= |SentBytes(s)| ==> sent[k] == Data(SentBytes(s)[k - 1]))
  {
    var syn, data := if s.syned then [SynMark] else [], AsData(SentBytes(s));
    assert SP.Sent(s) == syn + data + (if s.fin then [FinMark] else []);
  }

  lemma ByteInPlace(s: Sender, s': Sender, k: nat)
    requires SP.Sent(s) <= SP.Sent(s') && s.syned && s'.syned && k < |SentBytes(s)|
    ensures k < |SentBytes(s')| && SentBytes(s')[k] == SentBytes(s)[k]
  {
    SentAt(s, k + 1);
    SentAt(s', k + 1);
  }

  lemma FaithfulGrows(stream: seq<Byte>, stream': seq<Byte>, r: Reassembler)
    requires Faithful(stream, r) && stream <= stream' && (r.eof ==> stream' == stream)
    ensures Faithful(stream', r)
  {
    hide RP.Tidy, RP.TotalLength, RP.Covers;
  }

  /** A pending substring holds bytes that were sent. */
  lemma PendingWasSent(stream: seq<Byte>, r: Reassembler, i: int)
    requires Faithful(stream, r) && RP.StrictlyInside(r.cache, i)
    ensures i < |stream|
  {
    hide RP.Tidy, RP.TotalLength;
    var k :| 0 <= k < |r.cache| && RP.Inside(r.cache[k], i);
    assert RP.NodeHas(r.cache[k], i, r.cache[k].data[i - r.cache[k].start]);
    assert RP.Stored(r, i, r.cache[k].data[i - r.cache[k].start]);
  }

  /** New cuts lie at the end of what was sent, beyond everything pending. */
  lemma PendingStaysUncut(y: System, cuts': set<nat>)
    requires Inv(y) && SC.Grown(y.history.cuts, cuts', y.sender.nextSeqno)
    ensures PendingUncut(y.receiver.reassembler, cuts')
  {
    hide SP.Inv, SC.CutInv, PlainSender, NetSound, AcksSound, Unwrap, Wrap, Faithful, RP.StrictlyInside;
    SentIs(y.sender);
    SC.SentLength(y.sender);
    forall i | RP.StrictlyInside(y.receiver.reassembler.cache, i)
      ensures i + 1 !in cuts'
    {
      if y.receiver.synced {
        PendingWasSent(SentBytes(y.sender), y.receiver.reassembler, i);
      } else {
        NothingInside(i);
      }
    }
  }

  lemma NothingInside(i: int)
    ensures !RP.StrictlyInside([], i)
  {
  }

  /** Any sender step that only adds to what was sent keeps the receiver's view and the network sound. */
  lemma SenderMoves(y: System, s': Sender, h': SC.History)
    requires Inv(y) && SP.Inv(s') && SC.CutInv(s', h') && PlainSender(s') && SR.Advances(y.sender, s')
    requires SC.Grown(y.history.cuts, h'.cuts, y.sender.nextSeqno)
    requires s'.Acked() <= y.receiver.Assembled()
    ensures Inv(y.(sender := s', history := h'))
  {
    hide SP.Sent, SP.Flat, SP.Numbered, Pow2, Unwrap, Wrap, Faithful, SP.Tiles, SP.AckSound, SP.Timed, SentBytes;
    hide SC.CutInv, SC.Placed, SC.Grown, PlainSender, PendingUncut;
    var s, r := y.sender, y.receiver;
    PendingStaysUncut(y, h'.cuts);
    SC.SentLength(s);
    if r.synced {
      FinAfterSyn(s);
      SentGrows(s, s');
      FaithfulGrows(SentBytes(s), SentBytes(s'), r.reassembler);
    }
    forall c | c in y.net
      ensures SC.Placed(s', c.segment, c.position, h'.cuts)
    {
      SC.PlacedStays(s, s', c.segment, c.position, y.history.cuts, h'.cuts);
    }
  }

  lemma FinAfterSyn(s: Sender)
    requires SP.Phases(s)
    ensures s.fin ==> s.syned
  {
  }

  // ---------------------------------------------------------------- SYN carries no FIN

  /** A segment sent after SYN does not carry SYN. */
  lemma SynOnlyFirst(s: Sender, seg: Segment, a: nat)
    requires SP.Genuine(s, seg, a) && seg.header.syn
    ensures a == 0
  {
    assert Symbols(seg)[0] == SynMark;
    assert SP.Sent(s)[a] == SynMark;
  }

  lemma FirstFill(s: Sender)
    requires SP.Inv(s) && !s.syned && s.windowSize == 1
    ensures var (cut, isSyn, content, isFin) := Cut(s);
            && FillWindow(s) == Transmit(cut, isSyn, content, isFin)
            && !isFin
  {
    hide SP.Sent, SP.Flat, SP.Numbered, Pow2, Unwrap, Wrap;
    assert s.windowUsed == 0;
    var (cut, isSyn, content, isFin) := Cut(s);
    var next := Transmit(cut, isSyn, content, isFin);
    assert next.Unused() == 0;
    assert FillLoop(next) == next;
  }

  lemma FillPlain(s: Sender)
    requires SP.Inv(s) && SP.Roomy(s) && PlainSender(s)
    ensures PlainSender(FillWindow(s))
  {
    hide SP.Sent, SP.Flat, SP.Numbered, Pow2, Unwrap, Wrap, SP.Tiles, SP.Timed, FillWindow, Symbols;
    NeverSkipsSyn(s);
    SP.FillWindowKeeps(s);
    var s' := FillWindow(s);
    forall k | |s.segmentsOut| <= k < |s'.segmentsOut|
      ensures Plain(s'.segmentsOut[k])
    {
      if s.syned {
        PlainAfterSyn(s, s', s'.segmentsOut[k]);
      } else {
        FirstFill(s);
      }
    }
    if !s'.syned {
      FirstFillSyned(s);
    }
  }

  lemma FirstFillSyned(s: Sender)
    requires SP.Inv(s) && SP.Roomy(s) && PlainSender(s)
    ensures FillWindow(s).syned
  {
    hide SP.Flat, SP.Numbered, Pow2, Unwrap, Wrap, FillWindow;
    if s.syned {
      NeverSkipsSyn(s);
      SP.FillWindowKeeps(s);
      FinAfterSyn(s);
      SentGrows(s, FillWindow(s));
    } else {
      FirstFill(s);
    }
  }

  lemma PlainAfterSyn(s: Sender, s': Sender, seg: Segment)
    requires s.syned && SP.Inv(s) && SP.NewIn(s', seg, s.nextSeqno)
    ensures Plain(seg)
  {
    hide SP.Flat, SP.Numbered, Pow2, Unwrap, Wrap, SP.Genuine;
    var a: nat :| s.nextSeqno <= a && SP.Genuine(s', seg, a);
    assert |SP.Sent(s)| > 0;
    if seg.header.syn {
      SynOnlyFirst(s', seg, a);
    }
  }

  lemma TickPlain(s: Sender, ms: nat)
    requires SP.Inv(s) && PlainSender(s)
    ensures PlainSender(Tick(s, ms))
  {
    hide SP.Inv, RemoveAcked, Unwrap;
    SR.NothingToRemove(s, s.now + ms);
  }

  lemma AckPlain(s: Sender, ackno: U32, win: U16)
    requires SP.Inv(s) && PlainSender(s) && s.syned
    ensures PlainSender(AckReceived(s, ackno, win))
  {
    hide SP.Inv, AckReceived, Unwrap;
    SP.AckKeeps(s, ackno, win);
  }

  /** The sender's own steps. */
  lemma LocalKeeps(y: System, e: SR.Event)
    requires Inv(y) && Enabled(y, Local(e))
    ensures Inv(Act(y, Local(e)))
  {
    hide SP.Inv, SC.CutInv, SR.Advances, Matches, NetSound, Unwrap, Tick, FillWindow, AckReceived, SendEmpty;
    hide SC.Note, SC.Grown, PendingUncut, AcksSound;
    var s' := SR.Step(y.sender, e);
    NeverSkipsSyn(y.sender);
    SC.CutInvIsHonest(y.sender, y.history);
    SR.StepKeeps(y.sender, e);
    SC.StepCuts(y.sender, y.history, e);
    LocalAcked(y.sender, e);
    AcksNotAhead(y);
    assert PlainSender(s') by {
      match e
      case AppWrite(data) =>
      case AppClose =>
      case Fill => FillPlain(y.sender);
      case Elapse(ms) => TickPlain(y.sender, ms);
      case Empty => EmptyPlain(y.sender);
      case Drain =>
    }
    SenderMoves(y, s', SC.Note(y.history, y.sender, e));
  }

  lemma AcksNotAhead(y: System)
    requires AcksSound(y)
    ensures y.sender.Acked() <= y.receiver.Assembled()
  {
  }

  /** Before SYN is sent the window is still the initial one. */
  lemma NeverSkipsSyn(s: Sender)
    requires PlainSender(s)
    ensures !SP.SkipsSyn(s)
  {
  }

  lemma EmptyPlain(s: Sender)
    requires PlainSender(s)
    ensures PlainSender(SendEmpty(s))
  {
  }

  lemma LocalAcked(s: Sender, e: SR.Event)
    requires SP.Inv(s) && !e.Ack? && SR.Enabled(s, e)
    ensures SR.Step(s, e).Acked() == s.Acked()
  {
    hide Unwrap, SP.Inv, Tick, FillWindow;
    match e
    case Fill => SP.FillWindowKeeps(s);
    case Elapse(ms) => SR.TickKeeps(s, ms);
    case _ =>
  }

  // ---------------------------------------------------------------- a segment arrives

  /** A segment sent after SYN is a slice of the bytes sent, marked as the end only if it is. */
  lemma SegmentIsSlice(s: Sender, seg: Segment, a: nat)
    requires SP.Inv(s) && SP.Genuine(s, seg, a) && 1 <= a
    ensures !seg.header.syn && (seg.header.fin ==> s.fin)
    ensures Slice(SentBytes(s), seg.payload, a - 1, seg.header.fin)
  {
    hide SP.Flat, SP.Numbered, Pow2, Unwrap, Wrap, SentBytes;
    if seg.header.syn {
      SynOnlyFirst(s, seg, a);
    }
    PayloadInPlace(s, seg, a, 0);
  }

  lemma PayloadInPlace(s: Sender, seg: Segment, a: nat, shift: nat)
    requires SP.Inv(s) && SP.Genuine(s, seg, a) && shift == (if seg.header.syn then 1 else 0) && 1 <= a + shift
    ensures seg.header.fin ==> s.fin && a + shift - 1 + |seg.payload| == |SentBytes(s)|
    ensures seg.payload != [] ==>
              && a + shift - 1 + |seg.payload| <= |SentBytes(s)|
              && seg.payload == SentBytes(s)[a + shift - 1..a + shift - 1 + |seg.payload|]
    ensures |SentBytes(s)| < 0x8000_0000_0000_0000
  {
    hide SP.Inv, Unwrap, Wrap, SP.Sent, Symbols;
    SentIs(s);
    var n := |seg.payload|;
    if seg.header.fin {
      SymbolsAt(seg, 0);
      assert SP.Sent(s)[a + shift + n] == FinMark;
      SentAt(s, a + shift + n);
    }
    if n > 0 {
      PayloadByte(s, seg, a, shift, n - 1);
      forall k | 0 <= k < n
        ensures a + shift - 1 + k < |SentBytes(s)| && seg.payload[k] == SentBytes(s)[a + shift - 1 + k]
      {
        PayloadByte(s, seg, a, shift, k);
      }
    }
  }

  lemma SymbolsAt(seg: Segment, k: nat)
    ensures var shift := if seg.header.syn then 1 else 0;
            && (k < |seg.payload| ==> Symbols(seg)[shift + k] == Data(seg.payload[k]))
            && (seg.header.fin ==> Symbols(seg)[shift + |seg.payload|] == FinMark)
  {
  }

  lemma SentIs(s: Sender)
    requires SP.Inv(s)
    ensures |SP.Sent(s)| == (if s.syned then 1 else 0) + |SentBytes(s)| + (if s.fin then 1 else 0)
    ensures |SP.Sent(s)| < 0x8000_0000_0000_0000
    ensures |SP.Sent(s)| > 0 ==> s.syned
  {
  }

  lemma PayloadByte(s: Sender, seg: Segment, a: nat, shift: nat, k: nat)
    requires SP.Inv(s) && SP.Genuine(s, seg, a) && shift == (if seg.header.syn then 1 else 0) && 1 <= a + shift
    requires k < |seg.payload|
    ensures a + shift - 1 + k < |SentBytes(s)| && seg.payload[k] == SentBytes(s)[a + shift - 1 + k]
  {
    hide SP.Inv, Unwrap, Wrap, SP.Sent, Symbols;
    SentIs(s);
    SymbolsAt(seg, k);
    assert SP.Sent(s)[a + shift + k] == Data(seg.payload[k]);
    SentAt(s, a + shift + k);
  }

  /** The stream index computed from a timely copy is the true one. */
  lemma IndexExact(y: System, c: Copy)
    requires Inv(y) && y.receiver.synced && c in y.net && Timely(y, c)
    ensures c.position < 0x8000_0000_0000_0000
    ensures Unwrap(c.segment.header.seqno, y.receiver.isn, Low64(|y.receiver.Output().bytes|)) == c.position
  {
    hide SP.Inv, Unwrap, Wrap, SP.Sent, Symbols, Faithful, SC.CutInv, SC.Uncut, PlainSender, SentBytes, AcksSound;
    hide PendingUncut;
    FaithfulOutput(SentBytes(y.sender), y.receiver.reassembler);
    SentIs(y.sender);
    GenuineUnwraps(y.sender, c.segment, c.position, |y.receiver.Output().bytes|);
  }

  lemma GenuineUnwraps(s: Sender, seg: Segment, a: nat, checkpoint: nat)
    requires SP.Genuine(s, seg, a) && |SP.Sent(s)| < 0x8000_0000_0000_0000
    requires checkpoint < 0x8000_0000_0000_0000 && Distance(a, checkpoint) < 0x8000_0000
    ensures Unwrap(seg.header.seqno, s.isn, Low64(checkpoint)) == a
  {
    hide Unwrap, Wrap, SP.Sent, Symbols;
    WrapNames(a, s.isn);
    UnwrapStable(seg.header.seqno, s.isn, a, checkpoint);
  }

  /** A repeated SYN maps to the top of the 64-bit index space and is turned away. */
  lemma TopIndexIgnored(stream: seq<Byte>, r: Reassembler, data: seq<Byte>)
    requires Faithful(stream, r) && RP.Small(r, data)
    ensures Faithful(stream, Push(r, data, 0xffff_ffff_ffff_ffff, false))
    ensures Push(r, data, 0xffff_ffff_ffff_ffff, false).eof == r.eof
  {
    hide RP.Tidy, RP.TotalLength, RP.Has, RP.Covers;
    var r' := Push(r, data, 0xffff_ffff_ffff_ffff, false);
    assert r.(eof := r.eof) == r;
    assert r' == EndIfDone(r);
    assert forall i :: RP.Accepted(r', i) <==> RP.Accepted(r, i);
    assert forall i, b :: RP.Stored(r', i, b) <==> RP.Stored(r, i, b);
    if r.eof && r.unassembled == 0 {
      if |stream| > 0 {
        AllWritten(r, |stream| - 1);
      }
      HeadWithin(stream, r);
    }
  }

  lemma ReceivedAs(y: System, c: Copy)
    requires Inv(y) && y.receiver.synced && c in y.net && Timely(y, c)
    ensures c.position < 0x8000_0000_0000_0000
    ensures SegmentReceived(y.receiver, c.segment) ==
            y.receiver.(reassembler := Push(y.receiver.reassembler, c.segment.payload,
                                            if c.position == 0 then 0xffff_ffff_ffff_ffff else c.position - 1,
                                            c.segment.header.fin))
  {
    hide Inv, Unwrap, Push;
    IndexExact(y, c);
  }

  /** No segment of this sender is empty inside a pending substring: its position is a cut. */
  lemma NeverDisturbs(y: System, c: Copy)
    requires Inv(y) && c in y.net
    ensures !RP.Disturbs(y.receiver.reassembler, c.segment.payload, c.position - 1)
  {
    hide SP.Inv, SC.CutInv, PlainSender, Matches, AcksSound, SP.Genuine, SC.Uncut, RP.StrictlyInside;
  }

  /** What arrives has no cut inside, so what is pending afterwards has none. */
  lemma ArrivalUncut(y: System, c: Copy, shift: nat, index: U64)
    requires Inv(y) && c in y.net && shift == (if c.segment.header.syn then 1 else 0)
    requires index + 1 == c.position + shift
    requires RP.Inv(y.receiver.reassembler) && RP.Small(y.receiver.reassembler, c.segment.payload)
    requires !RP.Disturbs(y.receiver.reassembler, c.segment.payload, index)
    ensures var r' := Push(y.receiver.reassembler, c.segment.payload, index, c.segment.header.fin);
            PendingUncut(r', y.history.cuts)
  {
    hide SP.Inv, SC.CutInv, PlainSender, Matches, AcksSound, SP.Genuine, RP.StrictlyInside, Push, RP.Inv, RP.Small;
    hide RP.Disturbs;
    var r := y.receiver.reassembler;
    var r' := Push(r, c.segment.payload, index, c.segment.header.fin);
    forall i | RP.StrictlyInside(r'.cache, i)
      ensures i + 1 !in y.history.cuts
    {
      RP.PushJoinsOverlaps(r, c.segment.payload, index, c.segment.header.fin, i);
      assert SC.Uncut(y.history.cuts, c.position, c.segment.Length());
    }
  }

  lemma LaterSegment(y: System, c: Copy)
    requires Inv(y) && y.receiver.synced && c in y.net && Timely(y, c) && Orderly(y, c)
    requires RP.Small(y.receiver.reassembler, c.segment.payload)
    ensures var r' := SegmentReceived(y.receiver, c.segment);
            Matches(y.sender, r') && PendingUncut(r'.reassembler, y.history.cuts)
  {
    hide SegmentReceived, SP.Inv, SP.Genuine, Push, Faithful, RP.Small, SentBytes, Premature, RP.Disturbs;
    hide SC.CutInv, SC.Uncut, PlainSender, AcksSound, Slice, PendingUncut;
    var s, r, seg := y.sender, y.receiver, c.segment;
    ReceivedAs(y, c);
    if c.position == 0 {
      SynAtZero(s, seg);
      TopIndexIgnored(SentBytes(s), r.reassembler, seg.payload);
      TopIndexUncut(r.reassembler, seg.payload, y.history.cuts);
    } else {
      SegmentIsSlice(s, seg, c.position);
      NeverDisturbs(y, c);
      SliceKeepsFaithful(SentBytes(s), r.reassembler, seg.payload, c.position - 1, seg.header.fin);
      PushEof(r.reassembler, seg.payload, c.position - 1, seg.header.fin);
      FaithfulIsTidy(SentBytes(s), r.reassembler);
      ArrivalUncut(y, c, 0, c.position - 1);
    }
  }

  lemma FaithfulIsTidy(stream: seq<Byte>, r: Reassembler)
    requires Faithful(stream, r)
    ensures RP.Inv(r)
  {
  }

  lemma TopIndexUncut(r: Reassembler, data: seq<Byte>, cuts: set<nat>)
    requires PendingUncut(r, cuts) && RP.Small(r, data)
    ensures PendingUncut(Push(r, data, 0xffff_ffff_ffff_ffff, false), cuts)
  {
    hide RP.StrictlyInside;
  }

  lemma PushEof(r: Reassembler, data: seq<Byte>, index: U64, eof: bool)
    ensures Push(r, data, index, eof).eof ==> r.eof || eof
  {
    hide Store, Low64, Assemble, Substr;
    var end := Low64(index + |data|);
    var marked := r.(eof := r.eof || (eof && end <= r.Limit()));
    var start := Max(index, r.head);
    var len := Low64(Min(r.Limit(), end) - start);
    if index < r.Limit() {
      var (cache, count) := Store(marked.cache, Node(start, Substr(data, start - index, len)), len, marked.unassembled);
      AssembleKeepsEof(marked.(cache := cache, unassembled := count));
    }
  }

  lemma SynAtZero(s: Sender, seg: Segment)
    requires SP.Inv(s) && SP.Genuine(s, seg, 0) && Plain(seg)
    ensures !seg.header.fin
  {
    hide SP.Flat, SP.Numbered, Pow2, Unwrap, Wrap, SP.Sent;
    if !seg.header.syn && seg.Length() > 0 {
      SentIs(s);
      SentAt(s, 0);
      assert Symbols(seg)[0] == SP.Sent(s)[0];
    }
  }

  lemma FirstSegment(y: System, c: Copy)
    requires Inv(y) && !y.receiver.synced && c.segment.header.syn && c in y.net
    requires RP.Small(y.receiver.reassembler, c.segment.payload)
    ensures var r' := SegmentReceived(y.receiver, c.segment);
            Matches(y.sender, r') && PendingUncut(r'.reassembler, y.history.cuts)
  {
    hide SP.Inv, SP.Genuine, Unwrap, Wrap, SP.Sent, Push, SentBytes, SC.CutInv, SC.Uncut, AcksSound, PlainSender;
    hide PendingUncut;
    var s, r, seg := y.sender, y.receiver, c.segment;
    SynOnlyFirst(s, seg, c.position);
    FirstReceived(s, r, seg);
    SentIs(s);
    SynWasSent(s, seg);
    PayloadInPlace(s, seg, 0, 1);
    assert Faithful(SentBytes(s), r.reassembler);
    SliceKeepsFaithful(SentBytes(s), r.reassembler, seg.payload, 0, false);
    PushEof(r.reassembler, seg.payload, 0, false);
    ArrivalUncut(y, c, 1, 0);
  }

  lemma SynWasSent(s: Sender, seg: Segment)
    requires SP.Genuine(s, seg, 0) && seg.header.syn
    ensures |SP.Sent(s)| > 0 && seg.header.seqno == s.isn
  {
    hide SP.Sent, Wrap;
    WrapIsLow(0, s.isn);
  }

  lemma FirstReceived(s: Sender, r: Receiver, seg: Segment)
    requires !r.synced && r.reassembler == New(r.Output().capacity) && seg.header.syn
    ensures SegmentReceived(r, seg) ==
            Receiver(seg.header.seqno, true, Push(r.reassembler, seg.payload, 0, seg.header.fin))
  {
    hide Unwrap, Wrap, Push;
    UnwrapStable(seg.header.seqno, seg.header.seqno, 0, 0);
  }

  lemma DeliverKeeps(y: System, c: Copy)
    requires Inv(y) && Enabled(y, Deliver(c))
    ensures Inv(Act(y, Deliver(c)))
  {
    hide SegmentReceived, SP.Inv, SC.CutInv, PlainSender, Matches, SP.Genuine, RP.Small, Premature, PendingUncut;
    ReceiverMoves(y, c.segment);
    if y.receiver.synced {
      LaterSegment(y, c);
    } else if c.segment.header.syn {
      FirstSegment(y, c);
    } else {
      UnsyncedIgnores(y.receiver, c.segment);
    }
  }

  /**
   The condition on the network is exact: a timely copy of a segment that was sent keeps the invariant if and
   only if it is orderly.
   */
  lemma DeliverExact(y: System, c: Copy)
    requires Inv(y) && c in y.net && RP.Small(y.receiver.reassembler, c.segment.payload) && Timely(y, c)
    ensures Inv(Act(y, Deliver(c))) <==> Orderly(y, c)
  {
    hide SegmentReceived, SP.Inv, SC.CutInv, PlainSender, SP.Genuine, RP.Small, SentBytes, Faithful;
    if Orderly(y, c) {
      DeliverKeeps(y, c);
    } else {
      DisorderBreaks(y, c);
    }
  }

  lemma DisorderBreaks(y: System, c: Copy)
    requires Inv(y) && RP.Small(y.receiver.reassembler, c.segment.payload)
    requires c in y.net && Timely(y, c) && !Orderly(y, c)
    ensures !Matches(y.sender, SegmentReceived(y.receiver, c.segment))
  {
    hide SegmentReceived, SP.Inv, SP.Genuine, Push, Faithful, RP.Small, SentBytes, Slice;
    hide SC.CutInv, SC.Uncut, PlainSender, AcksSound, PendingUncut;
    ReceivedAs(y, c);
    BeforeFirstByte(y.receiver.reassembler, c.segment);
    SegmentIsSlice(y.sender, c.segment, c.position);
    SliceKeepsFaithful(SentBytes(y.sender), y.receiver.reassembler, c.segment.payload, c.position - 1,
                       c.segment.header.fin);
  }

  lemma BeforeFirstByte(r: Reassembler, seg: Segment)
    ensures !Premature(r, seg.payload, -1, seg.header.fin)
  {
  }

  lemma UnsyncedIgnores(r: Receiver, seg: Segment)
    requires !r.synced && !seg.header.syn
    ensures SegmentReceived(r, seg) == r
  {
  }

  lemma ReceiverMoves(y: System, seg: Segment)
    ensures var r' := SegmentReceived(y.receiver, seg);
            y.receiver.Assembled() <= r'.Assembled() && (y.receiver.synced ==> r'.synced)
  {
    hide SegmentReceived;
    RightEdgeMonotone(y.receiver, Arrive(seg));
    StepGrows(y.receiver, Arrive(seg));
  }

  // ---------------------------------------------------------------- the other actions

  lemma DeliverAckKeeps(y: System, a: Acknowledgment)
    requires Inv(y) && Enabled(y, DeliverAck(a))
    ensures Inv(Act(y, DeliverAck(a)))
  {
    hide SP.Inv, SC.CutInv, SR.Advances, Faithful, NetSound, Unwrap, Wrap, AckReceived, SentBytes, PlainSender;
    hide SC.Grown, SC.Note, PendingUncut;
    var s, e := y.sender, SR.Ack(a.ackno, a.win);
    NextIsSmall(s);
    WrapNames(a.position, s.isn);
    UnwrapStable(a.ackno, s.isn, a.position, s.nextSeqno);
    assert s.syned;
    SP.AckKeeps(s, a.ackno, a.win);
    SC.CutInvIsHonest(s, y.history);
    SR.StepKeeps(s, e);
    SC.StepCuts(s, y.history, e);
    AckPlain(s, a.ackno, a.win);
    SenderMoves(y, AckReceived(s, a.ackno, a.win), SC.Note(y.history, s, e));
  }

  lemma NextIsSmall(s: Sender)
    requires SP.Inv(s)
    ensures s.nextSeqno < 0x8000_0000_0000_0000
  {
    hide SP.Flat, SP.Numbered, SP.AckSound, SP.Timed, SP.Phases;
  }

  lemma EmitKeeps(y: System)
    requires Inv(y)
    ensures Inv(Act(y, Emit))
  {
    hide SP.Inv, Matches, Unwrap, SP.Sent, SR.Advances, PendingUncut, AcksSound, SC.CachePlaced, SC.Note;
    var s', h' := y.sender.(segmentsOut := []), SC.Note(y.history, y.sender, SR.Drain);
    SR.DrainKeeps(y.sender);
    SC.StepCuts(y.sender, y.history, SR.Drain);
    DrainAcked(y.sender);
    AcksNotAhead(y);
    SenderMoves(y, s', h');
    forall c | c in Queued(y)
      ensures SC.Placed(s', c.segment, c.position, h'.cuts) && Plain(c.segment)
    {
      var k :| 0 <= k < |y.sender.segmentsOut| && k < |y.history.queued| &&
               Copy(y.sender.segmentsOut[k], y.history.queued[k]) == c;
      SC.SentLength(y.sender);
      SC.PlacedStays(y.sender, s', c.segment, c.position, y.history.cuts, h'.cuts);
    }
    AddToNet(Advance(y, SR.Drain), Queued(y));
  }

  lemma AddToNet(y: System, copies: set<Copy>)
    requires Inv(y)
    requires forall c :: c in copies ==> SC.Placed(y.sender, c.segment, c.position, y.history.cuts) && Plain(c.segment)
    ensures Inv(y.(net := y.net + copies))
  {
    hide SP.Inv, Matches, SC.CutInv, PlainSender, PendingUncut, SC.Placed, Unwrap, Wrap;
  }

  lemma DrainAcked(s: Sender)
    ensures s.(segmentsOut := []).Acked() == s.Acked()
    ensures SP.Sent(s.(segmentsOut := [])) == SP.Sent(s)
  {
  }

  lemma AppReadsKeeps(y: System, len: nat)
    requires Inv(y)
    ensures Inv(Act(y, AppReads(len)))
  {
    hide SP.Inv, SC.CutInv, PlainSender, Faithful, SC.Placed, Unwrap, RP.StrictlyInside;
    if y.receiver.synced {
      ReadKeepsFaithful(SentBytes(y.sender), y.receiver.reassembler, len);
    }
  }

  /** Every action of the system keeps the invariant. */
  lemma ActKeeps(y: System, act: Action)
    requires Inv(y) && Enabled(y, act)
    ensures Inv(Act(y, act))
  {
    match act
    case Local(e) => LocalKeeps(y, e);
    case Emit => EmitKeeps(y);
    case Deliver(c) => DeliverKeeps(y, c);
    case Reply => ReplyKeeps(y);
    case DeliverAck(a) => DeliverAckKeeps(y, a);
    case AppReads(len) => AppReadsKeeps(y, len);
  }

  lemma ReplyKeeps(y: System)
    requires Inv(y)
    ensures Inv(Act(y, Reply))
  {
    hide SP.Inv, SC.CutInv, PlainSender, Faithful, SC.Placed, PendingUncut, Unwrap, Wrap;
  }

  lemma InitialInv(sendCapacity: nat, recvCapacity: nat, timeout: U16, isn: U32)
    ensures Inv(Initial(sendCapacity, recvCapacity, timeout, isn))
  {
    hide Unwrap;
    SP.NewSenderInv(sendCapacity, timeout, isn);
  }

  function Run(y: System, acts: seq<Action>): System
    decreases |acts|
  {
    if acts == [] then y else Run(Act(y, acts[0]), acts[1..])
  }

  predicate AllEnabled(y: System, acts: seq<Action>)
    decreases |acts|
  {
    acts == [] || (Enabled(y, acts[0]) && AllEnabled(Act(y, acts[0]), acts[1..]))
  }

  lemma {:induction false} RunKeeps(y: System, acts: seq<Action>)
    requires Inv(y) && AllEnabled(y, acts)
    ensures Inv(Run(y, acts))
    decreases |acts|
  {
    hide Inv, Enabled, Act;
    if acts != [] {
      ActKeeps(y, acts[0]);
      RunKeeps(Act(y, acts[0]), acts[1..]);
    }
  }

  /**
   End to end, in every run from the initial state: what the receiver has written is a prefix of what the
   writer wrote, the input ends only when all of it has arrived and the writer has closed, and the sender's
   latest acknowledgment never passes what the receiver assembled, so no unassembled byte is ever discarded.
   */
  lemma {:induction false} EndToEndSafety(sendCapacity: nat, recvCapacity: nat, timeout: U16, isn: U32,
                                          acts: seq<Action>)
    requires AllEnabled(Initial(sendCapacity, recvCapacity, timeout, isn), acts)
    ensures var y := Run(Initial(sendCapacity, recvCapacity, timeout, isn), acts);
            && y.receiver.Output().bytes <= y.sender.stream.bytes
            && (y.receiver.Output().ended ==>
                  y.receiver.Output().bytes == y.sender.stream.bytes && y.sender.stream.ended)
            && y.sender.Acked() <= y.receiver.Assembled() <= y.sender.nextSeqno
  {
    hide Run, AllEnabled, Inv;
    var y := Initial(sendCapacity, recvCapacity, timeout, isn);
    InitialInv(sendCapacity, recvCapacity, timeout, isn);
    RunKeeps(y, acts);
    Safe(Run(y, acts));
  }
}
