/**
 A network interface (network_interface.hh and .cc): datagrams wait until the
 Ethernet address of their next hop is known through ARP (RFC 826).
 */
module NetworkInterfaces {
  import opened Words
  import opened NetParsers
  import opened Ipv4Codec

  /** Six-byte Ethernet addresses. */
  type Mac = x: int | 0 <= x < 0x1_0000_0000_0000

  const BROADCAST: Mac := 0xffff_ffff_ffff
  const ARP_CACHE_TIMEOUT := 30000
  const ARP_REQUEST_LIMIT := 5000

  datatype Opcode = Request | Reply

  datatype ArpMessage = ArpMessage(opcode: Opcode, senderIp: U32, senderMac: Mac, targetIp: U32, targetMac: Mac)

  /**
   A frame: a datagram as the bytes it was serialized to, an ARP message as what its payload parses to;
   `OtherFrame` is any other type, or an ARP payload that does not parse.
   */
  datatype Frame =
    | IpFrame(dst: Mac, src: Mac, payload: seq<Byte>)
    | ArpFrame(dst: Mac, src: Mac, message: ArpMessage)
    | OtherFrame(dst: Mac, src: Mac)

  datatype Interface = Interface(
    mac: Mac,
    ip: U32,
    framesOut: seq<Frame>,
    now: nat,
    macOf: map<U32, Mac>,
    learnedAt: map<U32, nat>,
    requestedAt: map<U32, nat>,
    waiting: map<U32, seq<Datagram>>)
  {
    /** The mapping for `hop` was learned less than 30 seconds ago. */
    predicate Fresh(hop: U32) {
      hop in learnedAt && now - learnedAt[hop] < ARP_CACHE_TIMEOUT
    }

    /** No request for `hop` was made in the last 5 seconds. */
    predicate MayRequest(hop: U32) {
      hop !in requestedAt || now - requestedAt[hop] >= ARP_REQUEST_LIMIT
    }

    function Queue(hop: U32): seq<Datagram> {
      if hop in waiting then waiting[hop] else []
    }

    /** Reading a missing entry of the address map yields the zero address. */
    function MacOf(hop: U32): Mac {
      if hop in macOf then macOf[hop] else 0
    }
  }

  /** The state a call leaves behind, and whether it left by an exception. */
  datatype Outcome = Outcome(net: Interface, threw: bool)

  function NewInterface(mac: Mac, ip: U32): Interface {
    Interface(mac, ip, [], 0, map[], map[], map[], map[])
  }

  function RequestFrame(n: Interface, hop: U32): Frame {
    ArpFrame(BROADCAST, n.mac, ArpMessage(Request, n.ip, n.mac, hop, 0))
  }

  predicate Serializes(d: Datagram) {
    SerializeDatagram(d).Some?
  }

  predicate AllSerialize(ds: seq<Datagram>) {
    forall k :: 0 <= k < |ds| ==> Serializes(ds[k])
  }

  /** The bytes of the datagrams, up to the first that cannot be serialized. */
  function Serialized(ds: seq<Datagram>): (payloads: seq<seq<Byte>>)
    ensures |payloads| <= |ds|
  {
    if ds == [] || !Serializes(ds[0]) then [] else [SerializeDatagram(ds[0]).value] + Serialized(ds[1..])
  }

  /** What `send_datagram` pushes to the output queue. */
  function SendFrames(n: Interface, d: Datagram, hop: U32): seq<Frame> {
    if n.Fresh(hop) then
      match SerializeDatagram(d)
      case None => []
      case Some(payload) => [IpFrame(n.MacOf(hop), n.mac, payload)]
    else if n.MayRequest(hop) then [RequestFrame(n, hop)]
    else []
  }

  /** To a known address the datagram is serialized, which may throw; otherwise it waits. */
  function SendDatagram(n: Interface, d: Datagram, hop: U32): Outcome {
    var sent := n.(framesOut := n.framesOut + SendFrames(n, d, hop));
    if n.Fresh(hop) then Outcome(sent, !Serializes(d))
    else
      Outcome(sent.(requestedAt := if n.MayRequest(hop) then n.requestedAt[hop := n.now] else n.requestedAt,
                    waiting := n.waiting[hop := n.Queue(hop) + [d]]),
              false)
  }

  function Encapsulate(mac: Mac, src: Mac, payloads: seq<seq<Byte>>): (frames: seq<Frame>)
    ensures |frames| == |payloads| && forall k :: 0 <= k < |payloads| ==> frames[k] == IpFrame(mac, src, payloads[k])
  {
    seq(|payloads|, k requires 0 <= k < |payloads| => IpFrame(mac, src, payloads[k]))
  }

  function ReplyFrames(n: Interface, m: ArpMessage): seq<Frame> {
    if m.opcode == Request && m.targetIp == n.ip then
      [ArpFrame(m.senderMac, n.mac, ArpMessage(Reply, n.ip, n.mac, m.senderIp, m.senderMac))]
    else []
  }

  /** What `recv_frame` pushes for an ARP message: the queue as far as it serializes, then perhaps a reply. */
  function LearnFrames(n: Interface, m: ArpMessage): seq<Frame> {
    var queue := n.Queue(m.senderIp);
    Encapsulate(m.senderMac, n.mac, Serialized(queue)) + (if AllSerialize(queue) then ReplyFrames(n, m) else [])
  }

  /** An exception in the flush leaves the new mapping, the frames pushed so far and the whole queue. */
  function Learn(n: Interface, m: ArpMessage): Outcome {
    var stuck := !AllSerialize(n.Queue(m.senderIp));
    Outcome(n.(learnedAt := n.learnedAt[m.senderIp := n.now],
               macOf := n.macOf[m.senderIp := m.senderMac],
               framesOut := n.framesOut + LearnFrames(n, m),
               waiting := if stuck then n.waiting else n.waiting - {m.senderIp}),
            stuck)
  }

  /** Any ARP message that parses is learned from, whoever it is addressed to. */
  function RecvFrame(n: Interface, frame: Frame): (Outcome, Option<Datagram>) {
    match frame
    case IpFrame(dst, _, payload) =>
      var (d, result) := ParseDatagram(DefaultHeader(), payload);
      (Outcome(n, false), if result == NoError && dst == n.mac then Some(d) else None)
    case ArpFrame(_, _, m) => (Learn(n, m), None)
    case OtherFrame(_, _) => (Outcome(n, false), None)
  }

  function TickInterface(n: Interface, ms: nat): Interface {
    n.(now := n.now + ms)
  }

  // ---------------------------------------------------------------- the class

  class NetworkInterface {
    const mac: Mac
    const ip: U32
    var framesOut: seq<Frame>
    var now: nat
    var macOf: map<U32, Mac>
    var learnedAt: map<U32, nat>
    var requestedAt: map<U32, nat>
    var waiting: map<U32, seq<Datagram>>

    ghost function Abs(): Interface
      reads this
    {
      Interface(mac, ip, framesOut, now, macOf, learnedAt, requestedAt, waiting)
    }

    constructor (mac: Mac, ip: U32)
      ensures Abs() == NewInterface(mac, ip)
    {
      this.mac, this.ip := mac, ip;
      framesOut, now, macOf, learnedAt, requestedAt, waiting := [], 0, map[], map[], map[], map[];
    }

    method Send(d: Datagram, hop: U32) returns (threw: bool)
      modifies this
      ensures Outcome(Abs(), threw) == SendDatagram(old(Abs()), d, hop)
    {
      hide SerializeDatagram;
      if hop in learnedAt && now - learnedAt[hop] < ARP_CACHE_TIMEOUT {
        var payload := WriteDatagram(d);
        if payload.None? {
          return true;
        }
        framesOut := framesOut + [IpFrame(if hop in macOf then macOf[hop] else 0, mac, payload.value)];
        return false;
      }
      if hop !in requestedAt || now - requestedAt[hop] >= ARP_REQUEST_LIMIT {
        framesOut := framesOut + [ArpFrame(BROADCAST, mac, ArpMessage(Request, ip, mac, hop, 0))];
        requestedAt := requestedAt[hop := now];
      }
      waiting := waiting[hop := (if hop in waiting then waiting[hop] else []) + [d]];
      return false;
    }

    /** The loop over the datagrams waiting for `hop`; it stops where one cannot be serialized. */
    method Flush(hop: U32, dst: Mac) returns (threw: bool)
      modifies `framesOut
      ensures var queue := Abs().Queue(hop);
              && Abs() == old(Abs()).(framesOut := old(framesOut) + Encapsulate(dst, mac, Serialized(queue)))
              && threw == !AllSerialize(queue)
    {
      hide SerializeDatagram, Encapsulate, Serialized, AllSerialize, Flushed;
      var queue := if hop in waiting then waiting[hop] else [];
      var i := 0;
      ghost var done := [];
      FlushStart(queue, dst, mac);
      while i < |queue|
        invariant 0 <= i <= |queue|
        invariant Flushed(queue, i, done)
        invariant framesOut == old(framesOut) + Encapsulate(dst, mac, done)
      {
        FlushTurn(queue, i, done, dst, mac);
        var payload := WriteDatagram(queue[i]);
        if payload.None? {
          return true;
        }
        framesOut := framesOut + [IpFrame(dst, mac, payload.value)];
        done := done + [payload.value];
        i := i + 1;
      }
      FlushEnd(queue, done);
      return false;
    }

    method Receive(frame: Frame) returns (d: Option<Datagram>, threw: bool)
      modifies this
      ensures (Outcome(Abs(), threw), d) == RecvFrame(old(Abs()), frame)
    {
      hide SerializeDatagram, ParseDatagram, Serialized, AllSerialize, Encapsulate;
      match frame
      case IpFrame(dst, _, payload) =>
        var datagram, result := ReadDatagram(DefaultHeader(), payload);
        return if result == NoError && dst == mac then Some(datagram) else None, false;
      case ArpFrame(_, _, m) =>
        learnedAt := learnedAt[m.senderIp := now];
        macOf := macOf[m.senderIp := m.senderMac];
        var failed := Flush(m.senderIp, m.senderMac);
        assert Abs().Queue(m.senderIp) == old(Abs()).Queue(m.senderIp);
        if failed {
          assert framesOut == old(framesOut) + LearnFrames(old(Abs()), m);
          return None, true;
        }
        waiting := waiting - {m.senderIp};
        if m.opcode == Request && m.targetIp == ip {
          framesOut := framesOut +
            [ArpFrame(m.senderMac, mac, ArpMessage(Reply, ip, mac, m.senderIp, m.senderMac))];
        }
        assert framesOut == old(framesOut) + LearnFrames(old(Abs()), m);
        return None, false;
      case OtherFrame(_, _) =>
        return None, false;
    }

    method Elapse(ms: nat)
      modifies this
      ensures Abs() == TickInterface(old(Abs()), ms)
    {
      now := now + ms;
    }
  }

  /** The flush has dealt with the first `i` datagrams and `done` are their payloads. */
  ghost predicate Flushed(queue: seq<Datagram>, i: nat, done: seq<seq<Byte>>) {
    && i <= |queue|
    && Serialized(queue) == done + Serialized(queue[i..])
    && AllSerialize(queue) == AllSerialize(queue[i..])
  }

  lemma FlushStart(queue: seq<Datagram>, dst: Mac, src: Mac)
    ensures Flushed(queue, 0, []) && Encapsulate(dst, src, []) == []
  {
    hide SerializeDatagram, Serialized, AllSerialize;
    assert queue[0..] == queue;
  }

  lemma FlushTurn(queue: seq<Datagram>, i: nat, done: seq<seq<Byte>>, dst: Mac, src: Mac)
    requires i < |queue| && Flushed(queue, i, done)
    ensures match SerializeDatagram(queue[i])
            case None => Serialized(queue) == done && !AllSerialize(queue)
            case Some(payload) =>
              && Flushed(queue, i + 1, done + [payload])
              && Encapsulate(dst, src, done + [payload]) == Encapsulate(dst, src, done) + [IpFrame(dst, src, payload)]
  {
    hide SerializeDatagram, Serialized, AllSerialize;
    SerializeNext(queue[i..]);
    assert queue[i..][1..] == queue[i + 1..];
    assert done + [] == done;
  }

  lemma FlushEnd(queue: seq<Datagram>, done: seq<seq<Byte>>)
    requires Flushed(queue, |queue|, done)
    ensures Serialized(queue) == done && AllSerialize(queue)
  {
    hide SerializeDatagram, Serialized, AllSerialize;
    NothingSerializes();
    assert queue[|queue|..] == [];
    assert done + [] == done;
  }

  lemma SerializeNext(ds: seq<Datagram>)
    requires ds != []
    ensures Serialized(ds) ==
            if Serializes(ds[0]) then [SerializeDatagram(ds[0]).value] + Serialized(ds[1..]) else []
    ensures AllSerialize(ds) <==> Serializes(ds[0]) && AllSerialize(ds[1..])
  {
    hide SerializeDatagram;
    assert forall k :: 0 < k < |ds| ==> ds[k] == ds[1..][k - 1];
  }

  lemma {:induction false} SerializedAre(ds: seq<Datagram>)
    ensures |Serialized(ds)| == |ds| <==> AllSerialize(ds)
    ensures forall k :: 0 <= k < |Serialized(ds)| ==> SerializeDatagram(ds[k]) == Some(Serialized(ds)[k])
  {
    hide SerializeDatagram, Serialized, AllSerialize;
    if ds == [] {
      NothingSerializes();
    } else {
      SerializeNext(ds);
      SerializedAre(ds[1..]);
    }
  }

  // ---------------------------------------------------------------- runs

  datatype Event = Submit(d: Datagram, hop: U32) | Hear(frame: Frame) | Pass(ms: nat)

  function Step(n: Interface, e: Event): Outcome {
    match e
    case Submit(d, hop) => SendDatagram(n, d, hop)
    case Hear(frame) => RecvFrame(n, frame).0
    case Pass(ms) => Outcome(TickInterface(n, ms), false)
  }

  /** The frames an event adds to the output queue. */
  function Frames(n: Interface, e: Event): (frames: seq<Frame>)
    ensures Step(n, e).net.framesOut == n.framesOut + frames
  {
    match e
    case Submit(d, hop) => SendFrames(n, d, hop)
    case Hear(frame) => if frame.ArpFrame? then LearnFrames(n, frame.message) else []
    case Pass(ms) => []
  }

  /** The event is an ARP message from `hop`. */
  predicate HearsFrom(e: Event, hop: U32) {
    e.Hear? && e.frame.ArpFrame? && e.frame.message.senderIp == hop
  }

  predicate SubmitsTo(e: Event, hop: U32) {
    e.Submit? && e.hop == hop
  }

  /** The payloads of the datagram frames. */
  function Payloads(frames: seq<Frame>): seq<seq<Byte>> {
    if frames == [] then []
    else (if frames[0].IpFrame? then [frames[0].payload] else []) + Payloads(frames[1..])
  }

  /** What one event puts into datagram frames for `hop`. */
  function EmittedBy(n: Interface, e: Event, hop: U32): seq<seq<Byte>> {
    if SubmitsTo(e, hop) || HearsFrom(e, hop) then Payloads(Frames(n, e)) else []
  }

  /** What one event hands over for `hop`: the datagram submitted, unless the call threw. */
  function AcceptedBy(n: Interface, e: Event, hop: U32): seq<Datagram> {
    if SubmitsTo(e, hop) && !Step(n, e).threw then [e.d] else []
  }

  /** A caller that goes on after an exception. */
  function Run(n: Interface, events: seq<Event>): Interface
    decreases |events|
  {
    if events == [] then n else Run(Step(n, events[0]).net, events[1..])
  }

  function Accepted(n: Interface, events: seq<Event>, hop: U32): seq<Datagram>
    decreases |events|
  {
    if events == [] then []
    else AcceptedBy(n, events[0], hop) + Accepted(Step(n, events[0]).net, events[1..], hop)
  }

  function Emitted(n: Interface, events: seq<Event>, hop: U32): seq<seq<Byte>>
    decreases |events|
  {
    if events == [] then []
    else EmittedBy(n, events[0], hop) + Emitted(Step(n, events[0]).net, events[1..], hop)
  }

  /** Times recorded are in the past, and an address is known for every time it was learned. */
  ghost predicate Clocks(n: Interface) {
    && (forall hop :: hop in n.learnedAt ==> hop in n.macOf && n.learnedAt[hop] <= n.now)
    && (forall hop :: hop in n.requestedAt ==> n.requestedAt[hop] <= n.now)
  }

  /** A datagram never waits for a hop whose address is fresh. */
  ghost predicate Inv(n: Interface) {
    Clocks(n) && forall hop: U32 :: n.Fresh(hop) ==> n.Queue(hop) == []
  }

  lemma StepClocks(n: Interface, e: Event)
    requires Clocks(n)
    ensures Clocks(Step(n, e).net)
  {
    hide SerializeDatagram, ParseDatagram, LearnFrames, AllSerialize;
  }

  /** The event does not ask for the flush of a queue that cannot be flushed. */
  predicate Clean(n: Interface, e: Event) {
    e.Hear? && e.frame.ArpFrame? ==> AllSerialize(n.Queue(e.frame.message.senderIp))
  }

  /**
   Hearing from a hop keeps the invariant exactly when every datagram queued for it serializes; every other
   event keeps it, also a submission that throws.
   */
  lemma StepKeeps(n: Interface, e: Event)
    requires Inv(n)
    ensures Inv(Step(n, e).net) <==> Clean(n, e)
  {
    hide SerializeDatagram, ParseDatagram, LearnFrames, AllSerialize, Clocks;
    StepClocks(n, e);
    var n' := Step(n, e).net;
    if Clean(n, e) {
      forall hop: U32 | n'.Fresh(hop)
        ensures n'.Queue(hop) == []
      {
        assert !n.Fresh(hop) ==> e.Hear?;
      }
    } else {
      var hop := e.frame.message.senderIp;
      assert n'.Fresh(hop) && n'.Queue(hop) == n.Queue(hop);
      assert n.Queue(hop) != [] by {
        NothingSerializes();
      }
    }
  }

  lemma NothingSerializes()
    ensures AllSerialize([]) && Serialized([]) == []
  {
  }

  /** Exactly when a call throws: flushing as above, or sending at once what does not serialize. */
  lemma StepThrows(n: Interface, e: Event)
    ensures Step(n, e).threw <==> !Clean(n, e) || (e.Submit? && n.Fresh(e.hop) && !Serializes(e.d))
  {
    hide SerializeDatagram, ParseDatagram, LearnFrames, AllSerialize;
  }

  // ---------------------------------------------------------------- conservation

  lemma {:induction false} PayloadsOfFlush(mac: Mac, src: Mac, payloads: seq<seq<Byte>>, rest: seq<Frame>)
    requires forall k :: 0 <= k < |rest| ==> !rest[k].IpFrame?
    ensures Payloads(Encapsulate(mac, src, payloads) + rest) == payloads
    decreases |payloads|
  {
    var frames := Encapsulate(mac, src, payloads) + rest;
    if payloads == [] {
      assert frames == rest;
      NoPayloads(rest);
    } else {
      assert frames[1..] == Encapsulate(mac, src, payloads[1..]) + rest;
      PayloadsOfFlush(mac, src, payloads[1..], rest);
    }
  }

  lemma {:induction false} NoPayloads(frames: seq<Frame>)
    requires forall k :: 0 <= k < |frames| ==> !frames[k].IpFrame?
    ensures Payloads(frames) == []
  {
    if frames != [] {
      NoPayloads(frames[1..]);
    }
  }

  /** What one event emits for a hop: the datagram sent at once, or what the flush got through. */
  lemma EmittedIs(n: Interface, e: Event, hop: U32)
    ensures EmittedBy(n, e, hop) ==
            if SubmitsTo(e, hop) && n.Fresh(hop) && Serializes(e.d) then [SerializeDatagram(e.d).value]
            else if HearsFrom(e, hop) then Serialized(n.Queue(hop))
            else []
  {
    hide SerializeDatagram, ParseDatagram, Serialized, Encapsulate, AllSerialize;
    var frames := Frames(n, e);
    if HearsFrom(e, hop) {
      var m := e.frame.message;
      var reply := if AllSerialize(n.Queue(hop)) then ReplyFrames(n, m) else [];
      PayloadsOfFlush(m.senderMac, n.mac, Serialized(n.Queue(hop)), reply);
    } else if SubmitsTo(e, hop) {
      if n.Fresh(hop) && Serializes(e.d) {
        assert frames == [IpFrame(n.MacOf(hop), n.mac, SerializeDatagram(e.d).value)];
        assert Payloads(frames[1..]) == [];
      } else {
        NoPayloads(frames);
      }
    }
  }

  lemma QueueIs(n: Interface, e: Event, hop: U32)
    ensures Step(n, e).net.Queue(hop) ==
            if SubmitsTo(e, hop) && !n.Fresh(hop) then n.Queue(hop) + [e.d]
            else if HearsFrom(e, hop) && AllSerialize(n.Queue(hop)) then []
            else n.Queue(hop)
  {
    hide SerializeDatagram, ParseDatagram, LearnFrames, AllSerialize;
  }

  /** `payloads` are the serialized datagrams at the front of `all`, and `left` are the others, all in order. */
  ghost predicate Conserves(all: seq<Datagram>, payloads: seq<seq<Byte>>, left: seq<Datagram>) {
    && |payloads| <= |all|
    && (forall k :: 0 <= k < |payloads| ==> SerializeDatagram(all[k]) == Some(payloads[k]))
    && left == all[|payloads|..]
  }

  /** One event conserves the datagrams of one hop, in order. */
  lemma StepConserves(n: Interface, e: Event, hop: U32)
    requires Inv(n) && Clean(n, e)
    ensures Conserves(n.Queue(hop) + AcceptedBy(n, e, hop), EmittedBy(n, e, hop), Step(n, e).net.Queue(hop))
  {
    hide SerializeDatagram, Step, Clocks, AllSerialize;
    EmittedIs(n, e, hop);
    QueueIs(n, e, hop);
    StepThrows(n, e);
    SerializedAre(n.Queue(hop));
  }

  lemma ConservesTrans(before: seq<Datagram>, given: seq<Datagram>, out: seq<seq<Byte>>, mid: seq<Datagram>,
                       later: seq<Datagram>, sent: seq<seq<Byte>>, after: seq<Datagram>)
    requires Conserves(before + given, out, mid) && Conserves(mid + later, sent, after)
    ensures Conserves(before + (given + later), out + sent, after)
  {
    hide SerializeDatagram;
    var all := before + (given + later);
    assert all == (before + given) + later;
    assert all[|out|..] == mid + later;
    forall k | 0 <= k < |out + sent|
      ensures SerializeDatagram(all[k]) == Some((out + sent)[k])
    {
      if k < |out| {
        assert all[k] == (before + given)[k];
      } else {
        assert all[k] == (mid + later)[k - |out|];
      }
    }
    assert all[|out| + |sent|..] == (mid + later)[|sent|..];
  }

  predicate AllClean(n: Interface, events: seq<Event>)
    decreases |events|
  {
    events == [] || (Clean(n, events[0]) && AllClean(Step(n, events[0]).net, events[1..]))
  }

  /**
   Over every run whose flushes find only datagrams that serialize, and for every next hop: the payloads put into
   frames are the datagrams that were waiting or accepted, serialized, once each and in order, and the others wait.
   */
  lemma {:induction false} RunConserves(n: Interface, events: seq<Event>, hop: U32)
    requires Inv(n) && AllClean(n, events)
    ensures Inv(Run(n, events))
    ensures Conserves(n.Queue(hop) + Accepted(n, events, hop), Emitted(n, events, hop), Run(n, events).Queue(hop))
    decreases |events|
  {
    hide Step, Inv, Conserves, Clean, EmittedBy, AcceptedBy;
    if events == [] {
      NothingConserved(n.Queue(hop));
    } else {
      var e, next, rest := events[0], Step(n, events[0]).net, events[1..];
      StepKeeps(n, e);
      StepConserves(n, e, hop);
      RunConserves(next, rest, hop);
      ConservesTrans(n.Queue(hop), AcceptedBy(n, e, hop), EmittedBy(n, e, hop), next.Queue(hop),
                     Accepted(next, rest, hop), Emitted(next, rest, hop), Run(n, events).Queue(hop));
    }
  }

  lemma NothingConserved(queue: seq<Datagram>)
    ensures Conserves(queue + [], [], queue)
  {
  }

  /** The invariant holds after every event of the run. */
  ghost predicate AlwaysInv(n: Interface, events: seq<Event>)
    decreases |events|
  {
    Inv(n) && (events == [] || AlwaysInv(Step(n, events[0]).net, events[1..]))
  }

  /** The condition is exact: the invariant holds throughout a run if and only if no flush of the run gets stuck. */
  lemma {:induction false} RunExact(n: Interface, events: seq<Event>)
    requires Inv(n)
    ensures AlwaysInv(n, events) <==> AllClean(n, events)
    decreases |events|
  {
    hide Step, Inv, Clean;
    if events != [] {
      StepKeeps(n, events[0]);
      if Clean(n, events[0]) {
        RunExact(Step(n, events[0]).net, events[1..]);
      }
    }
  }

  ghost predicate QueuesSerialize(n: Interface) {
    forall hop: U32 :: AllSerialize(n.Queue(hop))
  }

  /** In particular for a caller that submits only datagrams that serialize: no flush gets stuck. */
  lemma {:induction false} SoundSubmissions(n: Interface, events: seq<Event>)
    requires QueuesSerialize(n)
    requires forall k :: 0 <= k < |events| && events[k].Submit? ==> Serializes(events[k].d)
    ensures AllClean(n, events)
    decreases |events|
  {
    hide Step, Serializes;
    if events != [] {
      var next := Step(n, events[0]).net;
      forall hop: U32
        ensures AllSerialize(next.Queue(hop))
      {
        QueueIs(n, events[0], hop);
        assert AllSerialize(n.Queue(hop));
        assert events[0].Submit? ==> Serializes(events[0].d);
      }
      SoundSubmissions(next, events[1..]);
    }
  }

  /** Nothing lost and nothing invented: `all` are the datagrams in `payloads` or `left`, and only those. */
  ghost predicate Accounts(all: seq<Datagram>, payloads: seq<seq<Byte>>, left: seq<Datagram>) {
    && (forall d :: d in left ==> d in all)
    && (forall d :: d in all ==> d in left || (Serializes(d) && SerializeDatagram(d).value in payloads))
    && (forall b :: b in payloads ==> exists d :: d in all && SerializeDatagram(d) == Some(b))
  }

  lemma SerializedAccounts(queue: seq<Datagram>, left: seq<Datagram>)
    requires left == if AllSerialize(queue) then [] else queue
    ensures Accounts(queue, Serialized(queue), left)
  {
    hide SerializeDatagram;
    var payloads := Serialized(queue);
    SerializedAre(queue);
    if AllSerialize(queue) {
      forall d | d in queue
        ensures Serializes(d) && SerializeDatagram(d).value in payloads
      {
        var k :| 0 <= k < |queue| && queue[k] == d;
        assert SerializeDatagram(queue[k]) == Some(payloads[k]);
      }
    }
    forall b | b in payloads
      ensures exists d :: d in queue && SerializeDatagram(d) == Some(b)
    {
      var k :| 0 <= k < |payloads| && payloads[k] == b;
      assert queue[k] in queue;
    }
  }

  lemma StepAccounts(n: Interface, e: Event, hop: U32)
    ensures Accounts(n.Queue(hop) + AcceptedBy(n, e, hop), EmittedBy(n, e, hop), Step(n, e).net.Queue(hop))
  {
    hide SerializeDatagram, Step, AllSerialize, Serialized;
    EmittedIs(n, e, hop);
    QueueIs(n, e, hop);
    StepThrows(n, e);
    if HearsFrom(e, hop) {
      SerializedAccounts(n.Queue(hop), Step(n, e).net.Queue(hop));
      assert n.Queue(hop) + [] == n.Queue(hop);
    } else if SubmitsTo(e, hop) && !Step(n, e).threw {
      var all := n.Queue(hop) + [e.d];
      assert e.d in all;
      assert forall d :: d in n.Queue(hop) ==> d in all;
    }
  }

  lemma AccountsTrans(before: seq<Datagram>, given: seq<Datagram>, out: seq<seq<Byte>>, mid: seq<Datagram>,
                      later: seq<Datagram>, sent: seq<seq<Byte>>, after: seq<Datagram>)
    requires Accounts(before + given, out, mid) && Accounts(mid + later, sent, after)
    ensures Accounts(before + (given + later), out + sent, after)
  {
    hide SerializeDatagram;
    var all := before + (given + later);
    assert all == (before + given) + later;
    assert forall d :: d in all <==> d in before + given || d in later;
    assert forall d :: d in mid + later <==> d in mid || d in later;
    assert forall b :: b in out + sent <==> b in out || b in sent;
  }

  /**
   Over every run whatsoever, also after exceptions: every datagram that was waiting or accepted still waits or
   was put into a frame, and every datagram frame carries one of them. Only order and number of copies can suffer.
   */
  lemma {:induction false} RunAccounts(n: Interface, events: seq<Event>, hop: U32)
    ensures Accounts(n.Queue(hop) + Accepted(n, events, hop), Emitted(n, events, hop), Run(n, events).Queue(hop))
    decreases |events|
  {
    hide Step, Accounts, EmittedBy, AcceptedBy;
    if events == [] {
      NothingAccounted(n.Queue(hop));
    } else {
      var e, next, rest := events[0], Step(n, events[0]).net, events[1..];
      StepAccounts(n, e, hop);
      RunAccounts(next, rest, hop);
      AccountsTrans(n.Queue(hop), AcceptedBy(n, e, hop), EmittedBy(n, e, hop), next.Queue(hop),
                    Accepted(next, rest, hop), Emitted(next, rest, hop), Run(n, events).Queue(hop));
    }
  }

  lemma NothingAccounted(queue: seq<Datagram>)
    ensures Accounts(queue + [], [], queue)
  {
    assert queue + [] == queue;
  }

  // ---------------------------------------------------------------- which address is used

  datatype Mapping = Unknown | Known(mac: Mac, at: nat)

  function MappingOf(n: Interface, hop: U32): Mapping {
    if hop in n.learnedAt then Known(n.MacOf(hop), n.learnedAt[hop]) else Unknown
  }

  /** The last ARP message from `hop` among the events, read off the events alone. */
  function LastHeard(events: seq<Event>, now: nat, hop: U32, before: Mapping): Mapping
    decreases |events|
  {
    if events == [] then before
    else
      match events[0]
      case Pass(ms) => LastHeard(events[1..], now + ms, hop, before)
      case Submit(_, _) => LastHeard(events[1..], now, hop, before)
      case Hear(frame) =>
        LastHeard(events[1..], now, hop,
                  if HearsFrom(events[0], hop) then Known(frame.message.senderMac, now) else before)
  }

  lemma {:induction false} MappingIsLastHeard(n: Interface, events: seq<Event>, hop: U32)
    ensures MappingOf(Run(n, events), hop) == LastHeard(events, n.now, hop, MappingOf(n, hop))
    decreases |events|
  {
    hide Step;
    if events != [] {
      MappingStep(n, events[0], hop);
      MappingIsLastHeard(Step(n, events[0]).net, events[1..], hop);
    }
  }

  lemma MappingStep(n: Interface, e: Event, hop: U32)
    ensures MappingOf(Step(n, e).net, hop) ==
            if HearsFrom(e, hop) then Known(e.frame.message.senderMac, n.now) else MappingOf(n, hop)
    ensures Step(n, e).net.now == if e.Pass? then n.now + e.ms else n.now
  {
    hide SerializeDatagram, ParseDatagram, LearnFrames, AllSerialize;
  }

  lemma {:induction false} RunSnoc(n: Interface, events: seq<Event>, e: Event)
    ensures Run(n, events + [e]) == Step(Run(n, events), e).net
    decreases |events|
  {
    hide Step;
    if events == [] {
      assert events + [e] == [e];
      assert Run(n, [e]) == Run(Step(n, e).net, []);
    } else {
      assert (events + [e])[1..] == events[1..] + [e];
      RunSnoc(Step(n, events[0]).net, events[1..], e);
    }
  }

  lemma {:induction false} RunClocks(n: Interface, events: seq<Event>)
    requires Clocks(n)
    ensures Clocks(Run(n, events))
    decreases |events|
  {
    hide Step, Clocks;
    if events != [] {
      StepClocks(n, events[0]);
      RunClocks(Step(n, events[0]).net, events[1..]);
    }
  }

  lemma FrameAddress(n: Interface, e: Event, hop: U32, k: nat)
    requires SubmitsTo(e, hop) || HearsFrom(e, hop)
    requires k < |Frames(n, e)| && Frames(n, e)[k].IpFrame?
    ensures if e.Hear? then Frames(n, e)[k].dst == e.frame.message.senderMac
            else n.Fresh(hop) && Frames(n, e)[k].dst == n.MacOf(hop)
  {
    hide SerializeDatagram, ParseDatagram, Serialized, AllSerialize;
  }

  /**
   Over every run, also after exceptions: every datagram frame goes to the address last heard from its next hop,
   heard less than 30 seconds before.
   */
  lemma {:induction false} FrameUsesLatest(n: Interface, events: seq<Event>, e: Event, hop: U32, k: nat)
    requires Clocks(n) && (SubmitsTo(e, hop) || HearsFrom(e, hop))
    requires k < |Frames(Run(n, events), e)| && Frames(Run(n, events), e)[k].IpFrame?
    ensures var heard := LastHeard(events + [e], n.now, hop, MappingOf(n, hop));
            && heard.Known? && heard.mac == Frames(Run(n, events), e)[k].dst
            && Run(n, events + [e]).now - heard.at < 30000
  {
    hide Run, LastHeard, Step, Frames;
    RunClocks(n, events);
    RunSnoc(n, events, e);
    MappingIsLastHeard(n, events + [e], hop);
    MappingStep(Run(n, events), e, hop);
    FrameAddress(Run(n, events), e, hop, k);
  }

  /** What is sent to a known address arrives: the interface with that address hands up the same datagram. */
  lemma FrameDelivers(n: Interface, d: Datagram, hop: U32, peer: Interface)
    requires n.Fresh(hop) && n.MacOf(hop) == peer.mac
    requires WellFormed(d.header) && d.header.len == 4 * d.header.hlen + |d.payload|
    ensures var frames := Frames(n, Submit(d, hop));
            && |frames| == 1
            && RecvFrame(peer, frames[0]) ==
               (Outcome(peer, false), Some(d.(header := d.header.(cksum := HeaderChecksum(d.header)))))
  {
    hide SerializeDatagram, ParseDatagram, HeaderChecksum;
    DatagramRoundTrip(d, DefaultHeader());
  }

  // ---------------------------------------------------------------- how often requests are sent

  predicate IsRequest(frame: Frame, hop: U32) {
    frame.ArpFrame? && frame.message.opcode == Request && frame.message.targetIp == hop
  }

  predicate Requests(frames: seq<Frame>, hop: U32) {
    exists k :: 0 <= k < |frames| && IsRequest(frames[k], hop)
  }

  /** The times at which ARP requests for `hop` are sent. */
  function RequestTimes(n: Interface, events: seq<Event>, hop: U32): seq<nat>
    decreases |events|
  {
    if events == [] then []
    else
      (if Requests(Frames(n, events[0]), hop) then [n.now] else []) +
      RequestTimes(Step(n, events[0]).net, events[1..], hop)
  }

  /** Earliest time of the next request for `hop`. */
  function NextRequest(n: Interface, hop: U32): nat {
    if hop in n.requestedAt then n.requestedAt[hop] + ARP_REQUEST_LIMIT else 0
  }

  lemma RequestStep(n: Interface, e: Event, hop: U32)
    ensures Requests(Frames(n, e), hop) ==>
              n.now >= NextRequest(n, hop) && NextRequest(Step(n, e).net, hop) == n.now + ARP_REQUEST_LIMIT
    ensures !Requests(Frames(n, e), hop) ==> NextRequest(Step(n, e).net, hop) == NextRequest(n, hop)
  {
    hide SerializeDatagram, ParseDatagram, Serialized, AllSerialize;
    var frames := Frames(n, e);
    if e.Submit? && e.hop == hop && !n.Fresh(hop) && n.MayRequest(hop) {
      assert IsRequest(frames[0], hop);
    }
  }

  /** All times are at `floor` or later and at least 5 seconds apart. */
  predicate Spaced(times: seq<nat>, floor: nat) {
    && (forall i :: 0 <= i < |times| ==> times[i] >= floor)
    && (forall i, j :: 0 <= i < j < |times| ==> times[i] + 5000 <= times[j])
  }

  lemma SpacedCons(t: nat, rest: seq<nat>, floor: nat)
    requires floor <= t && Spaced(rest, t + ARP_REQUEST_LIMIT)
    ensures Spaced([t] + rest, floor)
  {
  }

  /** Over every run, also after exceptions, two ARP requests for the same address are at least 5 seconds apart. */
  lemma {:induction false} RequestsSpaced(n: Interface, events: seq<Event>, hop: U32)
    ensures Spaced(RequestTimes(n, events, hop), NextRequest(n, hop))
    decreases |events|
  {
    hide Frames, Step, NextRequest, Requests, Spaced;
    if events == [] {
      NothingSpaced(NextRequest(n, hop));
    } else {
      var next := Step(n, events[0]).net;
      RequestStep(n, events[0], hop);
      RequestsSpaced(next, events[1..], hop);
      var rest := RequestTimes(next, events[1..], hop);
      if Requests(Frames(n, events[0]), hop) {
        SpacedCons(n.now, rest, NextRequest(n, hop));
      } else {
        assert [] + rest == rest;
      }
    }
  }

  lemma NothingSpaced(floor: nat)
    ensures Spaced([], floor)
  {
  }

  // ---------------------------------------------------------------- a queue that gets stuck

  function Heard(hop: U32, mac: Mac): Event {
    Hear(ArpFrame(BROADCAST, mac, ArpMessage(Reply, hop, mac, 0, 0)))
  }

  function StuckRun(first: Datagram, bad: Datagram, later: Datagram, hop: U32, mac: Mac): seq<Event> {
    [Submit(first, hop), Submit(bad, hop), Heard(hop, mac), Heard(hop, mac), Submit(later, hop)]
  }

  /**
   For any datagram that does not serialize: one sent before it goes out again with every ARP message heard from
   the hop, and one sent after it overtakes it.
   */
  lemma StuckQueue(own: Mac, ip: U32, first: Datagram, bad: Datagram, later: Datagram, hop: U32, mac: Mac)
    requires Serializes(first) && !Serializes(bad) && Serializes(later)
    ensures var n, events := NewInterface(own, ip), StuckRun(first, bad, later, hop, mac);
            var twice := SerializeDatagram(first).value;
            && Accepted(n, events, hop) == [first, bad, later]
            && Emitted(n, events, hop) == [twice, twice, SerializeDatagram(later).value]
            && Run(n, events).Queue(hop) == [first, bad]
  {
    hide SerializeDatagram, Step, EmittedBy, AcceptedBy, Emitted, Accepted, Run, Serialized, Serializes, Heard;
    var n, heard := NewInterface(own, ip), Heard(hop, mac);
    var e4 := [Submit(later, hop)] + [];
    var e3 := [heard] + e4;
    var e2 := [heard] + e3;
    var e1 := [Submit(bad, hop)] + e2;
    assert StuckRun(first, bad, later, hop, mac) == [Submit(first, hop)] + e1;
    var n1 := StuckSubmit(n, first, hop, []);
    Peel(n, Submit(first, hop), e1, hop);
    var n2 := StuckSubmit(n1, bad, hop, [first]);
    Peel(n1, Submit(bad, hop), e2, hop);
    assert n2.Queue(hop) == [first, bad];
    var n3 := StuckHear(n2, first, bad, hop, mac);
    Peel(n2, heard, e3, hop);
    var n4 := StuckHear(n3, first, bad, hop, mac);
    Peel(n3, heard, e4, hop);
    var n5 := StuckSubmit(n4, later, hop, [first, bad]);
    Peel(n4, Submit(later, hop), [], hop);
    PeelNothing(n5, hop);
  }

  lemma Peel(n: Interface, e: Event, rest: seq<Event>, hop: U32)
    ensures Run(n, [e] + rest) == Run(Step(n, e).net, rest)
    ensures Emitted(n, [e] + rest, hop) == EmittedBy(n, e, hop) + Emitted(Step(n, e).net, rest, hop)
    ensures Accepted(n, [e] + rest, hop) == AcceptedBy(n, e, hop) + Accepted(Step(n, e).net, rest, hop)
  {
    hide Step, EmittedBy, AcceptedBy;
    assert ([e] + rest)[1..] == rest;
  }

  lemma PeelNothing(n: Interface, hop: U32)
    ensures Run(n, []) == n && Emitted(n, [], hop) == [] && Accepted(n, [], hop) == []
  {
  }

  lemma StuckSubmit(n: Interface, d: Datagram, hop: U32, queue: seq<Datagram>) returns (n': Interface)
    requires n.Queue(hop) == queue && (n.Fresh(hop) ==> Serializes(d))
    ensures n' == Step(n, Submit(d, hop)).net && (n'.Fresh(hop) <==> n.Fresh(hop))
    ensures n'.Queue(hop) == if n.Fresh(hop) then queue else queue + [d]
    ensures EmittedBy(n, Submit(d, hop), hop) == if n.Fresh(hop) then [SerializeDatagram(d).value] else []
    ensures AcceptedBy(n, Submit(d, hop), hop) == [d]
  {
    hide SerializeDatagram, EmittedBy;
    var e := Submit(d, hop);
    n' := Step(n, e).net;
    EmittedIs(n, e, hop);
    QueueIs(n, e, hop);
    StepThrows(n, e);
  }

  lemma StuckHear(n: Interface, first: Datagram, bad: Datagram, hop: U32, mac: Mac) returns (n': Interface)
    requires n.Queue(hop) == [first, bad] && Serializes(first) && !Serializes(bad)
    ensures n' == Step(n, Heard(hop, mac)).net && n'.Fresh(hop) && n'.Queue(hop) == [first, bad]
    ensures EmittedBy(n, Heard(hop, mac), hop) == [SerializeDatagram(first).value]
    ensures AcceptedBy(n, Heard(hop, mac), hop) == []
  {
    hide SerializeDatagram, EmittedBy, Serialized;
    var e, queue := Heard(hop, mac), [first, bad];
    n' := Step(n, e).net;
    EmittedIs(n, e, hop);
    QueueIs(n, e, hop);
    assert queue[1] == bad;
    SerializeNext(queue);
    assert queue[1..] == [bad];
    SerializeNext([bad]);
  }

  /** A packet of version 5 is handed up by one interface and cannot be sent by another. */
  lemma WrongVersionIsStuck(n: Interface, src: Mac, h: Ipv4Header, payload: seq<Byte>)
    requires Encodable(h) && h.ver == 5 && h.hlen == 5 && h.len == 20 + |payload|
    ensures RecvFrame(n, IpFrame(n.mac, src, Fields(h, payload))).1 == Some(Datagram(h, payload))
    ensures !Serializes(Datagram(h, payload))
  {
    hide SerializeDatagram, ParseDatagram, Fields;
    ParsedNotSerialized(h, payload, DefaultHeader());
  }
}
