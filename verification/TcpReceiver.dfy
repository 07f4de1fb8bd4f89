/**
 The TCP receiver (tcp_receiver.hh and .cc): finds the stream index of a segment
 and reports what to acknowledge and how much more it can take.
 */
module TcpReceivers {
  import opened Words
  import opened WrappingIntegers
  import opened ByteStreams
  import opened StreamReassemblers
  import opened ReassemblyProofs
  import opened TcpSegments

  datatype Receiver = Receiver(isn: U32, synced: bool, reassembler: Reassembler)
  {
    function Output(): Stream {
      reassembler.output
    }

    /** The absolute acknowledgment: SYN, the bytes written, and FIN once the input has ended. */
    function Assembled(): nat {
      (if synced then 1 else 0) + |Output().bytes| + (if Output().ended then 1 else 0)
    }

    function Ackno(): Option<U32> {
      if synced then Some(Wrap(Low64(Assembled()), isn)) else None
    }

    function WindowSize(): int {
      Output().capacity - Output().Buffered()
    }
  }

  function NewReceiver(capacity: nat): Receiver {
    Receiver(0, false, New(capacity))
  }

  /** `segment_received`: a number below the first data byte gives a stream index that wraps to the top of 64 bits. */
  function SegmentReceived(r: Receiver, seg: Segment): Receiver {
    if !r.synced && !seg.header.syn then r
    else
      var isn := if r.synced then r.isn else seg.header.seqno;
      var absolute := Unwrap(seg.header.seqno, isn, Low64(|r.Output().bytes|));
      var index := Low64(absolute - (if r.synced then 1 else 0));
      Receiver(isn, true, Push(r.reassembler, seg.payload, index, seg.header.fin))
  }

  function ReadStream(r: Receiver, len: nat): Receiver {
    r.(reassembler := ReadOut(r.reassembler, len))
  }

  class TcpReceiver {
    const reassembler: StreamReassembler
    const capacity: nat
    var isn: U32
    var synced: bool

    ghost predicate Valid()
      reads this, reassembler, reassembler.output, reassembler.output.buf
    {
      reassembler.Valid() && capacity == reassembler.output.capacity
    }

    ghost function Abs(): Receiver
      requires Valid()
      reads this, reassembler, reassembler.output, reassembler.output.buf
    {
      Receiver(isn, synced, reassembler.Abs())
    }

    constructor (capacity: nat)
      ensures Valid() && fresh(reassembler) && fresh(reassembler.output) && fresh(reassembler.output.buf)
      ensures Abs() == NewReceiver(capacity)
    {
      this.capacity := capacity;
      reassembler := new StreamReassembler(capacity);
      isn, synced := 0, false;
    }

    method Receive(seg: Segment)
      requires Valid()
      modifies this, reassembler, reassembler.output, reassembler.output.buf
      ensures Valid() && Abs() == SegmentReceived(old(Abs()), seg)
    {
      hide Unwrap, Push;
      if !synced && !seg.header.syn {
        return;
      }
      var bias := 1;
      if !synced {
        isn := seg.header.seqno;
        synced := seg.header.syn;
        bias := 0;
      }
      var absolute: int := Unwrap(seg.header.seqno, isn, Low64(reassembler.output.writeCount));
      reassembler.PushSubstring(seg.payload, Low64(absolute - bias), seg.header.fin);
    }

    function Acknowledgment(): (n: Option<U32>)
      requires Valid()
      reads this, reassembler, reassembler.output, reassembler.output.buf
      ensures n == Abs().Ackno()
    {
      if !synced then None
      else Some(Wrap(Low64(1 + reassembler.output.writeCount + (if reassembler.output.inputEnded then 1 else 0)), isn))
    }

    function Window(): (n: nat)
      requires Valid()
      reads this, reassembler, reassembler.output, reassembler.output.buf
      ensures n == Abs().WindowSize()
    {
      capacity - reassembler.output.curSize
    }
  }

  // ---------------------------------------------------------------- the advertised window

  /** `s'` is `s` with bytes added at the end and some more read: no byte, count or flag goes back. */
  ghost predicate Grows(s: Stream, s': Stream) {
    && s'.capacity == s.capacity && s'.error == s.error
    && s.bytes <= s'.bytes
    && s.read <= s'.read
    && (s.ended ==> s'.ended && s'.bytes == s.bytes)
  }

  lemma {:induction false} AssembleGrows(r: Reassembler)
    ensures Grows(r.output, Assemble(r).output)
    ensures Assemble(r).output == r.output.(bytes := Assemble(r).output.bytes)
    decreases |r.cache|
  {
    if r.cache != [] && r.cache[0].start <= r.head {
      AssembleGrows(WriteFirst(r));
    }
  }

  /** Every push whatsoever, in every state whatsoever, only adds to the output. */
  lemma PushGrows(r: Reassembler, data: seq<Byte>, index: U64, eof: bool)
    ensures var s' := Push(r, data, index, eof).output;
            Grows(r.output, s') && s'.read == r.output.read
  {
    hide Assemble, Store, Low64, Substr;
    var end := Low64(index + |data|);
    var marked := r.(eof := r.eof || (eof && end <= r.Limit()));
    if !(index >= r.Limit() || end <= r.head) {
      var start := Max(index, r.head);
      var len := Low64(Min(r.Limit(), end) - start);
      var (cache, count) := Store(marked.cache, Node(start, Substr(data, start - index, len)), len, marked.unassembled);
      AssembleGrows(marked.(cache := cache, unassembled := count));
    }
  }

  datatype Event = Arrive(seg: Segment) | AppRead(len: nat)

  function Step(r: Receiver, e: Event): Receiver {
    match e
    case Arrive(seg) => SegmentReceived(r, seg)
    case AppRead(len) => ReadStream(r, len)
  }

  /** The window field of an outgoing segment has 16 bits. */
  function Advertised(r: Receiver): int {
    Min(r.WindowSize(), 0xffff)
  }

  lemma StepGrows(r: Receiver, e: Event)
    ensures Grows(r.Output(), Step(r, e).Output()) && (r.synced ==> Step(r, e).synced)
  {
    hide Push, Unwrap;
    match e
    case Arrive(seg) =>
      if r.synced || seg.header.syn {
        var isn := if r.synced then r.isn else seg.header.seqno;
        var absolute: int := Unwrap(seg.header.seqno, isn, Low64(|r.Output().bytes|));
        PushGrows(r.reassembler, seg.payload, Low64(absolute - (if r.synced then 1 else 0)), seg.header.fin);
      }
    case AppRead(len) =>
  }

  /** For every segment and every read, in every state: the acknowledgment and both right edges never move left. */
  lemma RightEdgeMonotone(r: Receiver, e: Event)
    ensures var r' := Step(r, e);
            && r.Assembled() <= r'.Assembled()
            && r.Assembled() + r.WindowSize() <= r'.Assembled() + r'.WindowSize()
            && r.Assembled() + Advertised(r) <= r'.Assembled() + Advertised(r')
  {
    hide Step;
    StepGrows(r, e);
  }

  function Run(r: Receiver, events: seq<Event>): Receiver
    decreases |events|
  {
    if events == [] then r else Run(Step(r, events[0]), events[1..])
  }

  /** The same between any two states of any run. */
  lemma {:induction false} RunRightEdgeMonotone(r: Receiver, events: seq<Event>)
    ensures var r' := Run(r, events);
            && Grows(r.Output(), r'.Output())
            && r.Assembled() <= r'.Assembled()
            && r.Assembled() + r.WindowSize() <= r'.Assembled() + r'.WindowSize()
            && r.Assembled() + Advertised(r) <= r'.Assembled() + Advertised(r')
    decreases |events|
  {
    hide Step;
    if events != [] {
      StepGrows(r, events[0]);
      RightEdgeMonotone(r, events[0]);
      RunRightEdgeMonotone(Step(r, events[0]), events[1..]);
    }
  }

  /**
   The acknowledgment names what is needed next: until the input ends the first byte missing, with everything before
   it accepted; afterwards the position after FIN.
   */
  lemma AcknowledgesFirstMissing(r: Receiver, i: int)
    requires r.synced && Inv(r.reassembler)
    ensures r.Assembled() < 0x1_0000_0000_0000_0000 ==> r.Ackno() == Some(Low32(r.isn + r.Assembled()))
    ensures 0 <= i < r.reassembler.head ==> Accepted(r.reassembler, i)
    ensures !Accepted(r.reassembler, r.reassembler.head)
    ensures r.Assembled() == r.reassembler.head + (if r.Output().ended then 2 else 1)
  {
    hide Wrap, Tidy, TotalLength;
    if r.Assembled() < 0x1_0000_0000_0000_0000 {
      WrapIsLow(r.Assembled(), r.isn);
    }
  }

  /** Until the input ends, the window is exactly the distance from the head to the first index that is turned away. */
  lemma WindowIsExact(r: Receiver, b: Byte, i: U64)
    requires Inv(r.reassembler) && Small(r.reassembler, [b]) && !r.Output().ended && i >= r.reassembler.head
    ensures Accepted(Push(r.reassembler, [b], i, false), i) <==> i < r.reassembler.head + r.WindowSize()
  {
    hide Push, Tidy, TotalLength;
    PushHolds(r.reassembler, [b], i, false);
    var r' := Push(r.reassembler, [b], i, false);
    assert Accepted(r'.(output := r'.output.(ended := r.Output().ended)), i) <==> Accepted(r', i);
  }
}
