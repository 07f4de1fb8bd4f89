/** Asking for an Ethernet address and answering: when a question is asked, what it says, and what the answer does. */
module ArpExchange {
  import opened Words
  import opened NetParsers
  import opened Ipv4Codec
  import opened NetworkInterfaces

  /** The address of `hop` was heard less than 30 seconds ago. */
  predicate Knows(n: Interface, hop: U32) {
    var m := MappingOf(n, hop);
    m.Known? && n.now - m.at < 30000
  }

  /** A request for `hop` was sent less than 5 seconds ago. */
  predicate Asked(n: Interface, hop: U32) {
    hop in n.requestedAt && n.now - n.requestedAt[hop] < 5000
  }

  // ---------------------------------------------------------------- sending

  /** A datagram for a known address goes out at once, to that address, and asks nothing. */
  lemma SendsAtOnce(n: Interface, d: Datagram, hop: U32)
    requires Knows(n, hop)
    ensures var after := Step(n, Submit(d, hop));
            && Frames(n, Submit(d, hop)) == (if Serializes(d) then
                 [IpFrame(MappingOf(n, hop).mac, n.mac, SerializeDatagram(d).value)] else [])
            && after.threw == !Serializes(d) && after.net == n.(framesOut := after.net.framesOut)
  {
    hide SerializeDatagram;
  }

  /** For an unknown address it waits behind the others. */
  lemma Waits(n: Interface, d: Datagram, hop: U32, other: U32)
    requires !Knows(n, hop)
    ensures var after := Step(n, Submit(d, hop)).net;
            && after.Queue(hop) == n.Queue(hop) + [d]
            && (other != hop ==> after.Queue(other) == n.Queue(other))
            && after.now == n.now && MappingOf(after, other) == MappingOf(n, other)
  {
    hide SerializeDatagram;
  }

  /**
   A submission asks for the address exactly when it is not known and was not asked for in the last 5 seconds; the
   question goes to everyone and says who asks.
   */
  lemma RequestsExactly(n: Interface, d: Datagram, hop: U32)
    ensures var frames := Frames(n, Submit(d, hop));
            && (Requests(frames, hop) <==> !Knows(n, hop) && !Asked(n, hop))
            && (Requests(frames, hop) ==>
                  && |frames| == 1 && frames[0].ArpFrame?
                  && frames[0].dst == 0xffff_ffff_ffff && frames[0].src == n.mac
                  && frames[0].message.senderIp == n.ip && frames[0].message.senderMac == n.mac
                  && Asked(Step(n, Submit(d, hop)).net, hop))
  {
    hide SerializeDatagram;
    var frames := Frames(n, Submit(d, hop));
    if !Knows(n, hop) && !Asked(n, hop) {
      assert IsRequest(frames[0], hop);
    }
  }

  /** Nothing waits without having been asked for. */
  ghost predicate AllAsked(n: Interface) {
    forall hop: U32 :: n.Queue(hop) != [] ==> hop in n.requestedAt
  }

  lemma StepAsks(n: Interface, e: Event)
    requires AllAsked(n)
    ensures AllAsked(Step(n, e).net)
    ensures forall hop :: hop in n.requestedAt ==> hop in Step(n, e).net.requestedAt
    ensures forall hop :: hop in Step(n, e).net.requestedAt && hop !in n.requestedAt ==> Requests(Frames(n, e), hop)
  {
    hide SerializeDatagram, ParseDatagram, LearnFrames, AllSerialize, Serialized;
    var n' := Step(n, e).net;
    forall hop: U32 | n'.Queue(hop) != []
      ensures hop in n'.requestedAt
    {
      QueueIs(n, e, hop);
    }
    if e.Submit? {
      RequestsExactly(n, e.d, e.hop);
    }
  }

  /** Over every run from a new interface: whenever a datagram waits for a hop, a request for it has been sent. */
  lemma {:induction false} WaitingWasAsked(n: Interface, events: seq<Event>, hop: U32)
    requires AllAsked(n)
    ensures AllAsked(Run(n, events))
    ensures Run(n, events).Queue(hop) != [] && hop !in n.requestedAt ==> RequestTimes(n, events, hop) != []
    decreases |events|
  {
    hide Step, Frames, Requests;
    if events != [] {
      StepAsks(n, events[0]);
      WaitingWasAsked(Step(n, events[0]).net, events[1..], hop);
    }
  }

  // ---------------------------------------------------------------- answering

  predicate IsReply(frame: Frame) {
    frame.ArpFrame? && frame.message.opcode == Reply
  }

  /**
   A request for one's own address is answered to who asked, with one's own addresses, unless flushing the queue for
   who asked throws; nothing else is answered.
   */
  lemma RepliesExactly(n: Interface, dst: Mac, src: Mac, m: ArpMessage, k: nat)
    ensures var frames := Frames(n, Hear(ArpFrame(dst, src, m)));
            && ((exists j :: 0 <= j < |frames| && IsReply(frames[j])) <==>
                  m.opcode == Request && m.targetIp == n.ip && AllSerialize(n.Queue(m.senderIp)))
            && (k < |frames| && frames[k].ArpFrame? ==>
                  && k == |frames| - 1 && IsReply(frames[k])
                  && frames[k].dst == m.senderMac && frames[k].src == n.mac
                  && frames[k].message.senderIp == n.ip && frames[k].message.senderMac == n.mac
                  && frames[k].message.targetIp == m.senderIp && frames[k].message.targetMac == m.senderMac)
  {
    hide SerializeDatagram, ParseDatagram, AllSerialize, Serialized;
    var frames := Frames(n, Hear(ArpFrame(dst, src, m)));
    if m.opcode == Request && m.targetIp == n.ip && AllSerialize(n.Queue(m.senderIp)) {
      assert IsReply(frames[|frames| - 1]);
    }
  }

  /** A datagram is handed up exactly when it is addressed to this interface and parses; nothing changes. */
  lemma HandsUpExactly(n: Interface, dst: Mac, src: Mac, payload: seq<Byte>)
    ensures var (after, d) := RecvFrame(n, IpFrame(dst, src, payload));
            && after == Outcome(n, false)
            && (d.Some? <==> dst == n.mac && ParseDatagram(DefaultHeader(), payload).1 == NoError)
            && (d.Some? ==> ParseDatagram(DefaultHeader(), payload).0 == d.value)
  {
    hide ParseDatagram;
  }

  // ---------------------------------------------------------------- the exchange

  function Last(n: Interface): Frame
    requires n.framesOut != []
  {
    n.framesOut[|n.framesOut| - 1]
  }

  /**
   For any two interfaces with different addresses, one of which has a datagram for the other and may ask: the
   question reaches the other and its answer comes back. Then each knows the other, and everything that waited is
   sent to the address learned.
   */
  lemma ExchangeWorks(a: Interface, b: Interface, d: Datagram)
    requires a.ip != b.ip && !Knows(a, b.ip) && !Asked(a, b.ip)
    requires AllSerialize(a.Queue(b.ip)) && Serializes(d) && AllSerialize(b.Queue(a.ip))
    ensures var a1 := Step(a, Submit(d, b.ip)).net;
            && a1.framesOut != []
            && var b1 := Step(b, Hear(Last(a1))).net;
            && b1.framesOut != [] && Last(b1).dst == a.mac
            && var a2 := Step(a1, Hear(Last(b1))).net;
            && MappingOf(a2, b.ip) == Known(b.mac, a.now) && MappingOf(b1, a.ip) == Known(a.mac, b.now)
            && a2.Queue(b.ip) == []
            && var waited := a.Queue(b.ip) + [d];
            && |a2.framesOut| == |a1.framesOut| + |waited|
            && forall k :: 0 <= k < |waited| ==>
                 && Serializes(waited[k])
                 && a2.framesOut[|a1.framesOut| + k] == IpFrame(b.mac, a.mac, SerializeDatagram(waited[k]).value)
  {
    hide SerializeDatagram, ParseDatagram, Serialized, AllSerialize, Frames, Step;
    var ask, waited := Submit(d, b.ip), a.Queue(b.ip) + [d];
    RequestsExactly(a, d, b.ip);
    Waits(a, d, b.ip, b.ip);
    var a1 := Step(a, ask).net;
    var question := AskedWith(a, d, b.ip);
    assert Last(a1) == question;
    AnsweredWith(b, question);
    var b1 := Step(b, Hear(question)).net;
    var answer := Last(b1);
    AllSerializeSnoc(a.Queue(b.ip), d);
    FlushedBy(a1, answer, waited);
    SerializedAre(waited);
  }

  lemma AllSerializeSnoc(ds: seq<Datagram>, d: Datagram)
    requires AllSerialize(ds) && Serializes(d)
    ensures AllSerialize(ds + [d])
  {
    hide Serializes;
  }

  lemma AskedWith(a: Interface, d: Datagram, hop: U32) returns (question: Frame)
    requires !Knows(a, hop) && !Asked(a, hop)
    ensures question.ArpFrame? && question.message.opcode == Request && question.message.targetIp == hop
    ensures question.message.senderIp == a.ip && question.message.senderMac == a.mac
    ensures var a1 := Step(a, Submit(d, hop)).net;
            a1.framesOut != [] && Last(a1) == question && a1.mac == a.mac
  {
    hide SerializeDatagram, Requests, Frames, Step;
    RequestsExactly(a, d, hop);
    var frames := Frames(a, Submit(d, hop));
    question := frames[0];
    RequestNamed(a, d, hop);
    SameMac(a, Submit(d, hop));
  }

  lemma RequestNamed(a: Interface, d: Datagram, hop: U32)
    requires Requests(Frames(a, Submit(d, hop)), hop) && |Frames(a, Submit(d, hop))| == 1
    ensures IsRequest(Frames(a, Submit(d, hop))[0], hop)
  {
    hide Frames;
  }

  lemma SameMac(n: Interface, e: Event)
    ensures Step(n, e).net.mac == n.mac && Step(n, e).net.ip == n.ip
  {
    hide SerializeDatagram, ParseDatagram, LearnFrames, AllSerialize;
  }

  lemma AnsweredWith(b: Interface, question: Frame)
    requires question.ArpFrame? && question.message.opcode == Request && question.message.targetIp == b.ip
    requires AllSerialize(b.Queue(question.message.senderIp))
    ensures var b1, m := Step(b, Hear(question)).net, question.message;
            && b1.framesOut != [] && IsReply(Last(b1)) && Last(b1).dst == m.senderMac
            && Last(b1).message.senderIp == b.ip && Last(b1).message.senderMac == b.mac
            && MappingOf(b1, m.senderIp) == Known(m.senderMac, b.now)
  {
    hide SerializeDatagram, ParseDatagram, Serialized, AllSerialize, Step, Frames;
    var frames := Frames(b, Hear(question));
    RepliesExactly(b, question.dst, question.src, question.message, 0);
    assert question == ArpFrame(question.dst, question.src, question.message);
    var j :| 0 <= j < |frames| && IsReply(frames[j]);
    RepliesExactly(b, question.dst, question.src, question.message, j);
    MappingStep(b, Hear(question), question.message.senderIp);
  }

  /** Hearing from a hop sends everything that waits for it, to the address heard. */
  lemma FlushedBy(a: Interface, answer: Frame, waited: seq<Datagram>)
    requires answer.ArpFrame? && a.Queue(answer.message.senderIp) == waited && AllSerialize(waited)
    requires !(answer.message.opcode == Request && answer.message.targetIp == a.ip)
    ensures var a2, m := Step(a, Hear(answer)).net, answer.message;
            && a2.Queue(m.senderIp) == [] && MappingOf(a2, m.senderIp) == Known(m.senderMac, a.now)
            && a2.framesOut == a.framesOut + Encapsulate(m.senderMac, a.mac, Serialized(waited))
  {
    hide SerializeDatagram, ParseDatagram, Serialized, AllSerialize, Encapsulate;
    assert LearnFrames(a, answer.message) == Encapsulate(answer.message.senderMac, a.mac, Serialized(waited)) + [];
  }
}
