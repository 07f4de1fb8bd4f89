/** Whole runs of the TCP sender: its retransmission timer, its window and its output queue. */
module SenderRuns {
  import opened Words
  import opened WrappingIntegers
  import opened ByteStreams
  import opened TcpSegments
  import opened TcpSenders
  import opened SenderProofs

  /** Everything that can happen to a sender; `Drain` is the owner taking the queued segments. */
  datatype Event =
    | AppWrite(data: seq<Byte>)
    | AppClose
    | Fill
    | Ack(ackno: U32, win: U16)
    | Elapse(ms: nat)
    | Empty
    | Drain

  function Step(s: Sender, e: Event): Sender {
    match e
    case AppWrite(data) => s.(stream := Write(s.stream, data))
    case AppClose => s.(stream := EndInput(s.stream))
    case Fill => FillWindow(s)
    case Ack(ackno, win) => AckReceived(s, ackno, win)
    case Elapse(ms) => Tick(s, ms)
    case Empty => SendEmpty(s)
    case Drain => s.(segmentsOut := [])
  }

  /** What filling the window relies on: room in sequence space, and SYN not about to be skipped. */
  predicate Enabled(s: Sender, e: Event) {
    e.Fill? ==> Roomy(s) && !SkipsSyn(s)
  }

  // ---------------------------------------------------------------- the timer of section 5 of RFC 6298

  datatype Timer = Off | On(start: nat)

  datatype Retransmission = Retransmission(timer: Timer, backoffs: nat)

  function TimerOf(s: Sender): Retransmission {
    Retransmission(if s.cache == [] then Off else On(s.cache[0].sentAt), s.retransmissions)
  }

  /** Rule 5.1: sending starts the timer unless it runs. */
  function Rule1(t: Retransmission, now: nat): Retransmission {
    if t.timer.Off? then t.(timer := On(now)) else t
  }

  /** Rules 5.2 and 5.3: new data acknowledged stops the timer when nothing is left, and restarts it otherwise. */
  function Rules2And3(now: nat, allAcked: bool): Retransmission {
    Retransmission(if allAcked then Off else On(now), 0)
  }

  predicate Expired(t: Retransmission, now: nat, timeout: nat) {
    t.timer.On? && now - t.timer.start >= timeout
  }

  /** Rules 5.4 to 5.6: retransmit, back off unless the window is closed, restart the timer. */
  function Rules4To6(t: Retransmission, now: nat, open: bool): Retransmission {
    Retransmission(On(now), t.backoffs + (if open then 1 else 0))
  }

  lemma NothingToRemove(s: Sender, now: nat)
    requires Inv(s)
    ensures RemoveAcked(s.(now := now)) == s.(now := now)
  {
    hide Unwrap, Wrap, Low64, Sent, Flat, Numbered, FullyAcked;
    var s' := s.(now := now);
    TilesOnlyReads(s, s');
    if s.cache != [] {
      assert s'.Acked() == s.Acked();
      FullyAckedExact(s');
    }
  }

  lemma Backoff(s: Sender)
    requires Timed(s)
    ensures Low32(s.timeout * 2) == Low32(s.initialTimeout * Pow2(s.retransmissions + 1))
  {
    var full := s.initialTimeout * Pow2(s.retransmissions);
    assert s.initialTimeout * Pow2(s.retransmissions + 1) == full * 2;
    var q := full / 0x1_0000_0000;
    assert full * 2 == Low32(full) * 2 + 2 * q * 0x1_0000_0000;
    LowMultiple(full * 2, 2 * q);
  }

  lemma TickKeeps(s: Sender, ms: nat)
    requires Inv(s)
    ensures var s', now := Tick(s, ms), s.now + ms;
            && Inv(s') && s'.Acked() == s.Acked() && Sent(s') == Sent(s)
            && s'.now == now
            && (Expired(TimerOf(s), now, s.timeout) ==>
                  && TimerOf(s') == Rules4To6(TimerOf(s), now, s.windowSize != 0)
                  && s'.segmentsOut == s.segmentsOut + [s.cache[0].segment])
            && (!Expired(TimerOf(s), now, s.timeout) ==> s' == s.(now := now))
  {
    hide Unwrap, Low64, Low32, Sent, Flat, Numbered, RemoveAcked, Pow2, Tiles, Retransmit, Restart;
    var s1 := s.(now := s.now + ms);
    NothingToRemove(s, s.now + ms);
    TilesOnlyReads(s, s1);
    SentOnlyReads(s, s1);
    if Expired(TimerOf(s), s1.now, s.timeout) {
      RetransmitKeeps(s1);
    }
  }

  lemma RetransmitKeeps(s: Sender)
    requires Inv(s) && s.cache != []
    ensures var s' := Retransmit(s);
            && Inv(s') && s'.Acked() == s.Acked() && Sent(s') == Sent(s) && s'.now == s.now
            && TimerOf(s') == Rules4To6(TimerOf(s), s.now, s.windowSize != 0)
            && s'.segmentsOut == s.segmentsOut + [s.cache[0].segment]
  {
    hide Unwrap, Low64, Low32, Sent, Flat, Numbered, Pow2, Tiles;
    var s' := Retransmit(s);
    RestartTiles(s);
    Backoff(s);
    SentOnlyReads(s, s');
    TilesOnlyReads(Restart(s), s');
  }

  lemma SentOnlyReads(s: Sender, s': Sender)
    requires s'.stream == s.stream && s'.syned == s.syned && s'.fin == s.fin
    ensures Sent(s') == Sent(s)
  {
  }

  /** Sending follows rule 5.1. */
  lemma FillTimer(s: Sender)
    requires Inv(s) && Roomy(s) && !SkipsSyn(s)
    ensures var s' := FillWindow(s);
            TimerOf(s') == if s'.segmentsOut == s.segmentsOut then TimerOf(s) else Rule1(TimerOf(s), s.now)
  {
    hide Unwrap, Wrap, Low64, Sent, Flat, Numbered, Symbols, FillWindow, Genuine, Pow2;
    FillWindowKeeps(s);
  }

  /** New data acknowledged follows rules 5.2 and 5.3; a repeated or unacceptable number leaves the timer alone. */
  lemma AckTimer(s: Sender, ackno: U32, win: U16)
    requires Inv(s)
    ensures var s' := AckReceived(s, ackno, win);
            TimerOf(s') == if s'.Acked() > s.Acked() then Rules2And3(s.now, s'.Acked() == s.nextSeqno) else TimerOf(s)
  {
    hide Unwrap, Wrap, Low64, Sent, Flat, Numbered, Symbols, AckReceived, Pow2;
    AckKeeps(s, ackno, win);
    var s' := AckReceived(s, ackno, win);
    if s'.cache != [] {
      FlatFirst(s'.cache);
    }
  }

  /** Without overflow of the 32-bit timeout, which needs more than 16 backoffs, it is exactly doubled each time. */
  lemma TimeoutExact(s: Sender)
    requires Inv(s) && s.retransmissions <= 16
    ensures s.timeout == s.initialTimeout * Pow2(s.retransmissions)
  {
    hide Unwrap, Wrap, Low64, Sent, Flat, Numbered, Pow2;
    Pow2Bound(s.retransmissions, 16);
    Pow2Of16();
    MulBound(s.initialTimeout, Pow2(s.retransmissions), 0xffff, 0x1_0000);
  }

  lemma Pow2Of16()
    ensures Pow2(16) == 0x1_0000
  {
    assert Pow2(4) == 16;
    assert Pow2(8) == 256;
    assert Pow2(12) == 4096;
  }

  lemma MulBound(a: nat, b: nat, c: nat, d: nat)
    requires a <= c && b <= d
    ensures a * b <= c * d
  {
    assert a * b <= c * b <= c * d;
  }

  lemma {:induction false} Pow2Bound(m: nat, n: nat)
    requires m <= n
    ensures Pow2(m) <= Pow2(n)
    decreases n
  {
    if m < n {
      Pow2Bound(m, n - 1);
    }
  }

  // ---------------------------------------------------------------- special states

  /** Once FIN is sent, nothing is ever sent again except retransmissions. */
  lemma FillAfterFin(s: Sender)
    requires Inv(s) && s.fin
    ensures FillWindow(s) == s
  {
    hide Unwrap, Wrap, Flat, Numbered, Pow2, Sent;
  }

  /** Announcing a zero window before SYN is sent makes the sender send its first byte without SYN. */
  lemma EarlyZeroWindow(capacity: nat, timeout: U16, isn: U32, data: seq<Byte>)
    requires capacity > 0 && data != []
    ensures var s := NewSender(capacity, timeout, isn);
            var s' := FillWindow(AckReceived(s.(stream := Write(s.stream, data)), isn, 0));
            && s'.segmentsOut == [Segment(BlankHeader().(seqno := isn), data[..1])]
            && !s'.syned && s'.nextSeqno == 1 && !Inv(s')
  {
    hide Unwrap, Wrap, Pow2;
    var s := NewSender(capacity, timeout, isn);
    var w := s.(stream := Write(s.stream, data));
    UnwrapStable(isn, isn, 0, 0);
    WrapIsLow(0, isn);
    assert Low32(isn + Low32(0)) == isn;
    assert AckReceived(w, isn, 0) == w.(windowSize := 0);
    assert Peek(w.stream, 1) == data[..1];
  }

  // ---------------------------------------------------------------- whole runs

  ghost predicate SomewhereGenuine(s: Sender, seg: Segment) {
    exists a: nat :: Genuine(s, seg, a)
  }

  /** Every queued segment carries what was sent at some absolute position. */
  ghost predicate Honest(s: Sender) {
    forall k :: 0 <= k < |s.segmentsOut| ==> SomewhereGenuine(s, s.segmentsOut[k])
  }

  /** What never goes back from one state to a later one. */
  ghost predicate Advances(s: Sender, s': Sender) {
    && s'.isn == s.isn && s'.initialTimeout == s.initialTimeout
    && s.Acked() <= s'.Acked() <= s'.nextSeqno
    && Sent(s) <= Sent(s')
    && s.stream.bytes <= s'.stream.bytes && s.stream.read <= s'.stream.read
  }

  lemma AdvancesTrans(s: Sender, t: Sender, u: Sender)
    requires Advances(s, t) && Advances(t, u)
    ensures Advances(s, u)
  {
    hide Unwrap, Sent;
  }

  lemma HonestStays(s: Sender, s': Sender)
    requires Honest(s) && Sent(s) <= Sent(s') && s.isn == s'.isn
    ensures forall k :: 0 <= k < |s.segmentsOut| ==> SomewhereGenuine(s', s.segmentsOut[k])
  {
    hide Genuine, Sent;
    forall k | 0 <= k < |s.segmentsOut|
      ensures SomewhereGenuine(s', s.segmentsOut[k])
    {
      var a: nat :| Genuine(s, s.segmentsOut[k], a);
      GenuineStays(s, s', s.segmentsOut[k], a);
    }
  }

  /** Queuing one more genuine segment. */
  lemma HonestSnoc(s: Sender, s': Sender, seg: Segment, a: nat)
    requires Honest(s) && Sent(s) == Sent(s') && s.isn == s'.isn
    requires s'.segmentsOut == s.segmentsOut + [seg] && Genuine(s', seg, a)
    ensures Honest(s')
  {
    hide Genuine, Sent;
    HonestStays(s, s');
  }

  lemma {:induction false} OldestIsGenuine(s: Sender)
    requires Tiles(s) && s.cache != []
    ensures Genuine(s, s.cache[0].segment, Base(s))
  {
    hide Sent, Wrap, Low64;
    var seg := s.cache[0].segment;
    FlatFirst(s.cache);
    assert Symbols(seg) == Flat(s.cache)[..seg.Length()];
    PrefixOfSlice(Sent(s), Base(s), seg.Length());
  }

  lemma PrefixOfSlice(a: seq<Symbol>, k: nat, n: nat)
    requires k + n <= |a|
    ensures a[k..][..n] == a[k..k + n]
  {
  }

  lemma AppSent(s: Sender, stream: Stream)
    requires Inv(s) && s.stream.bytes <= stream.bytes && stream.read == s.stream.read
    ensures Sent(s.(stream := stream)) == Sent(s)
  {
    hide Unwrap, Wrap, Flat, Numbered, Pow2;
    assert stream.bytes[..stream.read] == s.stream.bytes[..s.stream.read];
  }

  lemma AppKeeps(s: Sender, stream: Stream)
    requires Inv(s) && Honest(s) && s.stream.bytes <= stream.bytes && stream.read == s.stream.read
    requires s.stream.ended ==> stream == s.stream.(error := stream.error)
    ensures var s' := s.(stream := stream);
            Inv(s') && Honest(s') && Advances(s, s')
  {
    hide Unwrap, Wrap, Low64, Flat, Numbered, Pow2, Sent, Symbols, SomewhereGenuine;
    AppSent(s, stream);
    HonestStays(s, s.(stream := stream));
  }

  lemma FillHonest(s: Sender)
    requires Inv(s) && Honest(s) && Roomy(s) && !SkipsSyn(s)
    ensures Honest(FillWindow(s)) && Advances(s, FillWindow(s)) && Inv(FillWindow(s))
  {
    hide Unwrap, Wrap, Low64, Sent, Flat, Numbered, Pow2, Symbols, FillWindow, Genuine, Tiles, Timed;
    FillWindowKeeps(s);
    var s' := FillWindow(s);
    HonestStays(s, s');
    forall k | 0 <= k < |s'.segmentsOut|
      ensures SomewhereGenuine(s', s'.segmentsOut[k])
    {
      if k < |s.segmentsOut| {
        assert s'.segmentsOut[k] == s.segmentsOut[k];
      } else {
        assert NewIn(s', s'.segmentsOut[k], s.nextSeqno);
        var a: nat :| s.nextSeqno <= a && Genuine(s', s'.segmentsOut[k], a);
      }
    }
  }

  lemma TickHonest(s: Sender, ms: nat)
    requires Inv(s) && Honest(s)
    ensures Honest(Tick(s, ms)) && Advances(s, Tick(s, ms)) && Inv(Tick(s, ms))
  {
    hide Unwrap, Wrap, Low64, Sent, Flat, Numbered, Pow2, Symbols, Tick, Genuine, Timed;
    TickKeeps(s, ms);
    TickFrame(s, ms);
    var s' := Tick(s, ms);
    if Expired(TimerOf(s), s.now + ms, s.timeout) {
      OldestIsGenuine(s);
      GenuineStays(s, s', s.cache[0].segment, Base(s));
      HonestSnoc(s, s', s.cache[0].segment, Base(s));
    } else {
      HonestStays(s, s');
    }
  }

  lemma TickFrame(s: Sender, ms: nat)
    requires Inv(s)
    ensures var s' := Tick(s, ms);
            s' == s.(now := s.now + ms, segmentsOut := s'.segmentsOut, cache := s'.cache, timeout := s'.timeout,
                     retransmissions := s'.retransmissions)
  {
    hide Unwrap, RemoveAcked, Inv;
    NothingToRemove(s, s.now + ms);
  }

  lemma AckHonest(s: Sender, ackno: U32, win: U16)
    requires Inv(s) && Honest(s)
    ensures var s' := AckReceived(s, ackno, win);
            Honest(s') && Advances(s, s') && Inv(s')
  {
    hide Unwrap, Wrap, Low64, Sent, Flat, Numbered, Pow2, Symbols, AckReceived, Genuine, Tiles, Timed;
    AckKeeps(s, ackno, win);
    var s' := AckReceived(s, ackno, win);
    SentOnlyReads(s, s');
    HonestStays(s, s');
  }

  lemma EmptyGenuine(s: Sender)
    requires |Sent(s)| == s.nextSeqno
    ensures Genuine(s, Segment(BlankHeader().(seqno := Wrap(Low64(s.nextSeqno), s.isn)), []), s.nextSeqno)
  {
    hide Sent, Wrap, Low64;
  }

  lemma EmptyHonest(s: Sender)
    requires Inv(s) && Honest(s)
    ensures Honest(SendEmpty(s)) && Advances(s, SendEmpty(s)) && Inv(SendEmpty(s))
  {
    hide Unwrap, Wrap, Low64, Flat, Numbered, Pow2, Sent, Genuine, Symbols;
    var s' := SendEmpty(s);
    SentOnlyReads(s, s');
    EmptyGenuine(s');
    HonestSnoc(s, s', s'.segmentsOut[|s.segmentsOut|], s.nextSeqno);
  }

  /** Every enabled step keeps the invariant and the honesty of the queue, and nothing goes back. */
  lemma StepKeeps(s: Sender, e: Event)
    requires Inv(s) && Honest(s) && Enabled(s, e)
    ensures Inv(Step(s, e)) && Honest(Step(s, e)) && Advances(s, Step(s, e))
  {
    hide Inv, Honest, Unwrap, Sent, Roomy, FillWindow, AckReceived, Tick, SendEmpty;
    match e
    case AppWrite(data) => AppKeeps(s, Write(s.stream, data));
    case AppClose => AppKeeps(s, EndInput(s.stream));
    case Fill => FillHonest(s);
    case Ack(ackno, win) => AckHonest(s, ackno, win);
    case Elapse(ms) => TickHonest(s, ms);
    case Empty => EmptyHonest(s);
    case Drain => DrainKeeps(s);
  }

  lemma DrainKeeps(s: Sender)
    requires Inv(s)
    ensures var s' := s.(segmentsOut := []);
            Inv(s') && Honest(s') && Advances(s, s')
  {
    hide Unwrap, Wrap, Flat, Numbered, Pow2;
    SentOnlyReads(s, s.(segmentsOut := []));
  }

  function Run(s: Sender, events: seq<Event>): Sender
    decreases |events|
  {
    if events == [] then s else Run(Step(s, events[0]), events[1..])
  }

  predicate AllEnabled(s: Sender, events: seq<Event>)
    decreases |events|
  {
    events == [] || (Enabled(s, events[0]) && AllEnabled(Step(s, events[0]), events[1..]))
  }

  /** Over every run from any good state: the invariant, honest segments, and monotone acknowledgments and contents. */
  lemma {:induction false} RunKeeps(s: Sender, events: seq<Event>)
    requires Inv(s) && Honest(s) && AllEnabled(s, events)
    ensures Inv(Run(s, events)) && Honest(Run(s, events)) && Advances(s, Run(s, events))
    decreases |events|
  {
    hide Inv, Honest, Step, Enabled, Sent, Unwrap;
    if events == [] {
      AdvancesRefl(s);
    } else {
      StepKeeps(s, events[0]);
      RunKeeps(Step(s, events[0]), events[1..]);
      AdvancesTrans(s, Step(s, events[0]), Run(s, events));
    }
  }

  lemma AdvancesRefl(s: Sender)
    requires Inv(s)
    ensures Advances(s, s)
  {
    hide Unwrap, Sent, Flat, Numbered;
  }

  /** Given room, a step keeps the invariant exactly when it does not skip SYN. */
  lemma StepExact(s: Sender, e: Event)
    requires Inv(s) && Honest(s) && (e.Fill? ==> Roomy(s))
    ensures Inv(Step(s, e)) <==> !(e.Fill? && SkipsSyn(s))
  {
    hide Inv, Honest, Step, Roomy, SkipsSyn;
    if e.Fill? && SkipsSyn(s) {
      FillIs(s);
      FillWindowExact(s);
    } else {
      StepKeeps(s, e);
    }
  }

  lemma FillIs(s: Sender)
    ensures Step(s, Fill) == FillWindow(s)
  {
  }

  // ---------------------------------------------------------------- the timer over whole runs

  /** What the timer of RFC 6298 gets to see of an event. */
  datatype Observation = Quiet | SentNew(at: nat) | AckedNew(at: nat, all: bool) | TimeIs(at: nat, open: bool)

  function Observed(s: Sender, e: Event): Observation {
    var s' := Step(s, e);
    match e
    case Fill => if s'.segmentsOut == s.segmentsOut then Quiet else SentNew(s.now)
    case Ack(_, _) => if s'.Acked() > s.Acked() then AckedNew(s.now, s'.Acked() == s.nextSeqno) else Quiet
    case Elapse(ms) => TimeIs(s.now + ms, s.windowSize != 0)
    case _ => Quiet
  }

  /** The single timer: it expires after the initial timeout, doubled for every backoff and computed in 32 bits. */
  function TimerStep(t: Retransmission, o: Observation, initial: U16): Retransmission {
    match o
    case Quiet => t
    case SentNew(at) => Rule1(t, at)
    case AckedNew(at, all) => Rules2And3(at, all)
    case TimeIs(at, open) =>
      if Expired(t, at, Low32(initial * Pow2(t.backoffs))) then Rules4To6(t, at, open) else t
  }

  function TimerRun(t: Retransmission, s: Sender, events: seq<Event>): Retransmission
    decreases |events|
  {
    if events == [] then t
    else TimerRun(TimerStep(t, Observed(s, events[0]), s.initialTimeout), Step(s, events[0]), events[1..])
  }

  lemma StepTimer(s: Sender, e: Event)
    requires Inv(s) && Enabled(s, e)
    ensures TimerOf(Step(s, e)) == TimerStep(TimerOf(s), Observed(s, e), s.initialTimeout)
  {
    hide Tiles, AckSound, Phases, Unwrap, Low32, Pow2, FillWindow, AckReceived, Tick, Rule1, Rules2And3, Rules4To6;
    match e
    case Fill => FillTimer(s);
    case Ack(ackno, win) => AckTimer(s, ackno, win);
    case Elapse(ms) => TickKeeps(s, ms);
    case _ =>
  }

  /** Over every run the timestamps kept with the segments are the one timer of section 5 of RFC 6298. */
  lemma {:induction false} RunTimer(s: Sender, events: seq<Event>)
    requires Inv(s) && Honest(s) && AllEnabled(s, events)
    ensures TimerOf(Run(s, events)) == TimerRun(TimerOf(s), s, events)
    decreases |events|
  {
    hide Inv, Honest, Step, Enabled, Observed, TimerStep, TimerOf;
    if events != [] {
      StepKeeps(s, events[0]);
      StepTimer(s, events[0]);
      RunTimer(Step(s, events[0]), events[1..]);
    }
  }
}
