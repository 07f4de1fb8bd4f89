/**
 The TCP sender (tcp_sender.hh and .cc): cuts the outgoing stream into segments,
 keeps what is outstanding, follows the advertised window and retransmits.
 */
module TcpSenders {
  import opened Words
  import opened WrappingIntegers
  import opened ByteStreams
  import opened TcpSegments

  /** A segment not yet fully acknowledged and the time its timer started. */
  datatype Outstanding = Outstanding(sentAt: nat, segment: Segment)

  datatype Sender = Sender(
    isn: U32,
    segmentsOut: seq<Segment>,
    initialTimeout: U16,
    stream: Stream,
    nextSeqno: nat,
    windowSize: U16,
    windowUsed: nat,
    now: nat,
    cache: seq<Outstanding>,
    timeout: U32,
    latestAckno: U32,
    syned: bool,
    fin: bool,
    retransmissions: nat)
  {
    /** The latest acknowledgment as an absolute sequence number. */
    function Acked(): U64 {
      Unwrap(latestAckno, isn, Low64(nextSeqno))
    }

    function BytesInFlight(): int {
      nextSeqno - Acked()
    }

    function Unused(): nat {
      if windowSize > windowUsed then windowSize - windowUsed else 0
    }
  }

  const MAX_PAYLOAD_SIZE := 1000

  function NewSender(capacity: nat, timeout: U16, isn: U32): Sender {
    Sender(isn, [], timeout, Log(capacity, [], 0, false, false), 0, 1, 0, 0, [], timeout, isn, false, false, 0)
  }

  /** Number the segment, count it against the window, queue it and remember it. */
  function Transmit(s: Sender, syn: bool, payload: seq<Byte>, fin: bool): Sender {
    var seg := Segment(BlankHeader().(seqno := Wrap(Low64(s.nextSeqno), s.isn), syn := syn, fin := fin), payload);
    s.(nextSeqno := s.nextSeqno + seg.Length(),
       windowUsed := s.windowUsed + seg.Length(),
       segmentsOut := s.segmentsOut + [seg],
       cache := s.cache + [Outstanding(s.now, seg)])
  }

  /** One unit sent into a window of size zero. */
  function Probe(s: Sender): Sender {
    if s.stream.Buffered() > 0 then
      Transmit(s.(stream := Pop(s.stream, 1)), false, Peek(s.stream, 1), false)
    else if s.stream.Eof() && !s.fin then
      Transmit(s.(fin := true), false, [], true)
    else s
  }

  function PayloadSize(unused: nat, isSyn: bool): nat {
    Max(1, Min(unused - (if isSyn then 1 else 0), MAX_PAYLOAD_SIZE))
  }

  /** There may be something left to send. */
  predicate Pending(s: Sender) {
    s.stream.Buffered() > 0 || !s.syned || !s.fin
  }

  /** The state in which the next segment is sent, and its contents. */
  function Cut(s: Sender): (Sender, bool, seq<Byte>, bool) {
    var isSyn := !s.syned;
    var size := PayloadSize(s.Unused(), isSyn);
    var content, stream := Peek(s.stream, size), Pop(s.stream, size);
    var isFin := stream.Eof() && !s.fin && |content| + (if isSyn then 1 else 0) < s.Unused();
    (s.(stream := stream, syned := true, fin := s.fin || isFin), isSyn, content, isFin)
  }

  function FillLoop(s: Sender): Sender
    decreases s.Unused()
  {
    if !Pending(s) || s.Unused() == 0 then s
    else
      var (cut, isSyn, content, isFin) := Cut(s);
      if !isSyn && content == [] && !isFin then s
      else FillLoop(Transmit(cut, isSyn, content, isFin))
  }

  function FillWindow(s: Sender): Sender {
    if s.windowSize == 0 && s.windowUsed == 0 then Probe(s) else FillLoop(s)
  }

  /** The acknowledgment covers the whole segment, decided on 32-bit numbers. */
  predicate FullyAcked(s: Sender, seg: Segment) {
    s.Acked() >= Unwrap(Low32(seg.header.seqno + Low32(seg.Length())), s.isn, Low64(s.nextSeqno))
  }

  function RemoveAcked(s: Sender): Sender
    decreases |s.cache|
  {
    if s.cache != [] && FullyAcked(s, s.cache[0].segment) then RemoveAcked(s.(cache := s.cache[1..])) else s
  }

  /** Restart the timer of the oldest outstanding segment. */
  function Restart(s: Sender): Sender {
    if s.cache == [] then s else s.(cache := s.cache[0 := s.cache[0].(sentAt := s.now)])
  }

  predicate Acceptable(s: Sender, ackno: U32) {
    s.Acked() <= Unwrap(ackno, s.isn, Low64(s.nextSeqno)) <= s.nextSeqno
  }

  function WindowUpdate(s: Sender, ackno: U32, win: U16): Sender {
    var used := Unwrap(Low32(s.latestAckno + Low32(s.windowUsed)), s.isn, Low64(s.nextSeqno)) -
                Unwrap(ackno, s.isn, Low64(s.nextSeqno));
    s.(windowSize := win, windowUsed := Min(Max(used, 0), win))
  }

  function AckReceived(s: Sender, ackno: U32, win: U16): Sender {
    if !Acceptable(s, ackno) then s
    else
      var s1 := WindowUpdate(s, ackno, win);
      if ackno == s.latestAckno then s1
      else Restart(RemoveAcked(s1.(timeout := s.initialTimeout, retransmissions := 0, latestAckno := ackno)))
  }

  /** Resend the oldest outstanding segment and back off, unless the window is closed. */
  function Retransmit(s: Sender): Sender
    requires s.cache != []
  {
    var s1 := Restart(s).(segmentsOut := s.segmentsOut + [s.cache[0].segment]);
    if s.windowSize != 0 then s1.(retransmissions := s.retransmissions + 1, timeout := Low32(s.timeout * 2)) else s1
  }

  function Tick(s: Sender, ms: nat): Sender {
    var s1 := RemoveAcked(s.(now := s.now + ms));
    if s1.cache != [] && s1.now - s1.cache[0].sentAt >= s1.timeout then Retransmit(s1) else s1
  }

  function SendEmpty(s: Sender): Sender {
    s.(segmentsOut := s.segmentsOut + [Segment(BlankHeader().(seqno := Wrap(Low64(s.nextSeqno), s.isn)), [])])
  }

  // ---------------------------------------------------------------- the class

  class TcpSender {
    const isn: U32
    const initialTimeout: U16
    const stream: ByteStream
    var segmentsOut: seq<Segment>
    var nextSeqno: nat
    var windowSize: U16
    var windowUsed: nat
    var now: nat
    var cache: seq<Outstanding>
    var timeout: U32
    var latestAckno: U32
    var syned: bool
    var fin: bool
    var retransmissions: nat

    ghost predicate Valid()
      reads this, stream, stream.buf
    {
      stream.Valid()
    }

    ghost function Abs(): Sender
      requires Valid()
      reads this, stream, stream.buf
    {
      Sender(isn, segmentsOut, initialTimeout, stream.Abs(), nextSeqno, windowSize, windowUsed, now, cache,
             timeout, latestAckno, syned, fin, retransmissions)
    }

    constructor (capacity: nat, timeout: U16, isn: U32)
      ensures Valid() && fresh(stream) && fresh(stream.buf)
      ensures Abs() == NewSender(capacity, timeout, isn)
    {
      this.isn, this.initialTimeout := isn, timeout;
      stream := new ByteStream(capacity);
      segmentsOut, nextSeqno, windowSize, windowUsed, now, cache := [], 0, 1, 0, 0, [];
      this.timeout, latestAckno, syned, fin, retransmissions := timeout, isn, false, false, 0;
    }

    method Push(syn: bool, payload: seq<Byte>, isFin: bool)
      requires Valid()
      modifies `nextSeqno, `windowUsed, `segmentsOut, `cache
      ensures Valid() && Abs() == Transmit(old(Abs()), syn, payload, isFin)
    {
      var seg := Segment(BlankHeader().(seqno := Wrap(Low64(nextSeqno), isn), syn := syn, fin := isFin), payload);
      windowUsed := windowUsed + seg.Length();
      nextSeqno := nextSeqno + seg.Length();
      segmentsOut := segmentsOut + [seg];
      cache := cache + [Outstanding(now, seg)];
    }

    method SendProbe()
      requires Valid()
      modifies this, stream
      ensures Valid() && Abs() == Probe(old(Abs()))
    {
      if stream.curSize != 0 {
        var content := stream.Read(1);
        Push(false, content, false);
      } else if stream.inputEnded && stream.curSize == 0 && !fin {
        fin := true;
        Push(false, [], true);
      }
    }

    /** One turn of the loop; `sent` tells whether a segment went out. */
    method FillOnce() returns (sent: bool)
      requires Valid() && stream.capacity > 0 && Pending(Abs()) && Abs().Unused() > 0
      modifies this, stream
      ensures Valid()
      ensures var (cut, isSyn, content, isFin) := Cut(old(Abs()));
              && sent == (isSyn || content != [] || isFin)
              && Abs() == if sent then Transmit(cut, isSyn, content, isFin) else old(Abs())
    {
      hide Transmit, PayloadSize;
      var unused := windowSize - windowUsed;
      var isSyn := !syned;
      syned := true;
      var size := PayloadSize(unused, isSyn);
      var content := stream.Read(size);
      var isFin := false;
      if stream.inputEnded && stream.curSize == 0 && !fin && |content| + (if isSyn then 1 else 0) < unused {
        fin := true;
        isFin := true;
      }
      sent := isSyn || content != [] || isFin;
      if sent {
        Push(isSyn, content, isFin);
      }
    }

    /** Reading from a stream of capacity zero divides by it, so there the window cannot be filled. */
    method Fill()
      requires Valid() && stream.capacity > 0
      modifies this, stream
      ensures Valid() && Abs() == FillWindow(old(Abs()))
    {
      if windowSize == 0 && windowUsed == 0 {
        SendProbe();
        return;
      }
      while stream.curSize != 0 || !syned || !fin
        invariant Valid() && FillLoop(Abs()) == FillLoop(old(Abs()))
        decreases Abs().Unused()
      {
        if windowSize <= windowUsed {
          return;
        }
        var sent := FillOnce();
        if !sent {
          return;
        }
      }
    }

    method DropAcked()
      requires Valid()
      modifies `cache
      ensures Valid() && Abs() == RemoveAcked(old(Abs()))
    {
      hide Unwrap, Low32, Low64;
      while cache != []
        invariant Valid() && RemoveAcked(Abs()) == RemoveAcked(old(Abs()))
        decreases |cache|
      {
        var acked := Unwrap(latestAckno, isn, Low64(nextSeqno));
        var seg := cache[0].segment;
        var rightEnd := Unwrap(Low32(seg.header.seqno + Low32(seg.Length())), isn, Low64(nextSeqno));
        if acked >= rightEnd {
          cache := cache[1..];
        } else {
          break;
        }
      }
    }

    method UpdateWindow(ackno: U32, win: U16)
      requires Valid()
      modifies `windowSize, `windowUsed
      ensures Valid() && Abs() == WindowUpdate(old(Abs()), ackno, win)
    {
      hide Unwrap, Low32, Low64;
      windowSize := win;
      var a := Unwrap(Low32(latestAckno + Low32(windowUsed)), isn, Low64(nextSeqno));
      var b := Unwrap(ackno, isn, Low64(nextSeqno));
      windowUsed := if a > b then a - b else 0;
      windowUsed := if windowUsed > win then win else windowUsed;
    }

    method RestartTimer()
      requires Valid()
      modifies `cache
      ensures Valid() && Abs() == Restart(old(Abs()))
    {
      if cache != [] {
        cache := cache[0 := cache[0].(sentAt := now)];
      }
    }

    method Ack(ackno: U32, win: U16)
      requires Valid()
      modifies this
      ensures Valid() && Abs() == AckReceived(old(Abs()), ackno, win)
    {
      hide Unwrap, Low32, Low64, RemoveAcked, WindowUpdate, Restart;
      var b := Unwrap(ackno, isn, Low64(nextSeqno));
      if Unwrap(latestAckno, isn, Low64(nextSeqno)) > b || b > nextSeqno {
        return;
      }
      UpdateWindow(ackno, win);
      if ackno == latestAckno {
        return;
      }
      timeout := initialTimeout;
      retransmissions := 0;
      latestAckno := ackno;
      DropAcked();
      RestartTimer();
    }

    method Resend()
      requires Valid() && cache != []
      modifies `segmentsOut, `cache, `retransmissions, `timeout
      ensures Valid() && Abs() == Retransmit(old(Abs()))
    {
      hide Low32;
      segmentsOut := segmentsOut + [cache[0].segment];
      RestartTimer();
      if windowSize != 0 {
        retransmissions := retransmissions + 1;
        timeout := Low32(timeout * 2);
      }
    }

    method Elapse(ms: nat)
      requires Valid()
      modifies this
      ensures Valid() && Abs() == Tick(old(Abs()), ms)
    {
      hide Unwrap, Low32, Low64, RemoveAcked, Retransmit;
      now := now + ms;
      DropAcked();
      if cache == [] {
        return;
      }
      if now - cache[0].sentAt >= timeout {
        Resend();
      }
    }

    method SendEmptySegment()
      requires Valid()
      modifies `segmentsOut
      ensures Valid() && Abs() == SendEmpty(old(Abs()))
    {
      segmentsOut := segmentsOut + [Segment(BlankHeader().(seqno := Wrap(Low64(nextSeqno), isn)), [])];
    }
  }
}
