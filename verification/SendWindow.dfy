/**
 How much the sender sends, and when it stays within the window its peer has
 announced. The count of used window space is clipped to every new window, so it
 can fall behind what is in flight; then the sender goes beyond the window.
 */
module SendWindows {
  import opened Words
  import opened WrappingIntegers
  import opened ByteStreams
  import opened TcpSegments
  import opened TcpSenders
  import opened SenderProofs
  import opened SenderRuns

  // ---------------------------------------------------------------- how much is sent

  /** What is there to send: buffered bytes, and FIN once it is due. */
  function Available(s: Sender): int {
    s.stream.Buffered() + (if s.stream.ended && !s.fin then 1 else 0)
  }

  /** As much as is there and the code believes to fit; one unit into a window that is closed and counted as unused. */
  function ToSend(s: Sender): int {
    Min(if s.windowSize == 0 && s.windowUsed == 0 then 1 else s.Unused(), Available(s))
  }

  /** One turn of the loop takes its part of what is to be sent. */
  lemma TurnSends(s: Sender)
    requires s.syned && s.Unused() > 0
    ensures var (cut, isSyn, content, isFin) := Cut(s);
            var next := Transmit(cut, isSyn, content, isFin);
            var n := |content| + (if isFin then 1 else 0);
            && !isSyn && next.syned && next.nextSeqno == s.nextSeqno + n
            && n <= s.Unused() && next.Unused() == s.Unused() - n && Available(next) == Available(s) - n
            && (n == 0 ==> Available(s) == 0)
  {
    hide Wrap, Low64;
  }

  lemma {:induction false} FillLoopSends(s: Sender)
    requires s.syned
    ensures FillLoop(s).nextSeqno == s.nextSeqno + Min(s.Unused(), Available(s))
    decreases s.Unused()
  {
    hide Cut, Transmit;
    if Pending(s) && s.Unused() > 0 {
      TurnSends(s);
      var (cut, isSyn, content, isFin) := Cut(s);
      if content != [] || isFin {
        FillLoopSends(Transmit(cut, isSyn, content, isFin));
      }
    }
  }

  /** After SYN, `fill_window` sends exactly this much. */
  lemma FillSends(s: Sender)
    requires s.syned
    ensures FillWindow(s).nextSeqno == s.nextSeqno + ToSend(s)
  {
    hide Wrap, Low64, FillLoop;
    FillLoopSends(s);
  }

  /** If nothing is sent, nothing changes. */
  lemma NothingSent(s: Sender)
    requires s.syned && FillWindow(s).nextSeqno == s.nextSeqno
    ensures FillWindow(s) == s
  {
    hide Wrap, Low64;
    FillSends(s);
    if s.Unused() > 0 {
      TurnSends(s);
    }
  }

  // ---------------------------------------------------------------- within the window

  /** How far the peer allows sending now; a closed window counts as one, and SYN comes on top. */
  function Edge(s: Sender): int {
    s.Acked() + Max(1, s.windowSize) + (if s.syned then 0 else 1)
  }

  /** More is to be sent than fits between what is in flight and the window. */
  predicate Oversends(s: Sender) {
    s.syned && ToSend(s) > Max(0, Max(1, s.windowSize) - s.BytesInFlight())
  }

  /** Filling the window stays within the edge if and only if no more is to be sent than fits. */
  lemma FillWithinEdge(s: Sender)
    requires Inv(s) && Roomy(s)
    ensures FillWindow(s).nextSeqno <= Max(s.nextSeqno, Edge(s)) <==> !Oversends(s)
  {
    hide Tiles, Timed, FillWindow, Unwrap, Low64, ToSend, Extends;
    if s.syned {
      FillSends(s);
    } else if SkipsSyn(s) {
      SkippedSyn(s);
    } else {
      FillWindowKeeps(s);
      NothingInFlight(s);
    }
  }

  lemma NothingInFlight(s: Sender)
    requires Inv(s) && !s.syned
    ensures s.windowUsed == s.BytesInFlight() == s.nextSeqno == s.Acked() == 0
  {
    hide Tiles, Timed, Unwrap, Low64;
  }

  /** The same for every event: only filling the window can go beyond the edge. */
  lemma StepWithinEdge(s: Sender, e: Event)
    requires Inv(s) && (e.Fill? ==> Roomy(s))
    ensures Step(s, e).nextSeqno <= Max(s.nextSeqno, Edge(s)) <==> !(e.Fill? && Oversends(s))
  {
    hide Inv, FillWindow, AckReceived, Tick, Unwrap, Low64, Oversends, Edge;
    match e
    case Fill => FillWithinEdge(s);
    case Ack(ackno, win) => AckKeeps(s, ackno, win);
    case Elapse(ms) => TickFrame(s, ms);
    case _ =>
  }

  // ---------------------------------------------------------------- over whole runs

  /** The furthest edge of all states of the run. */
  function FurthestEdge(s: Sender, events: seq<Event>): int
    decreases |events|
  {
    if events == [] then Edge(s) else Max(Edge(s), FurthestEdge(Step(s, events[0]), events[1..]))
  }

  /** In every state of the run, nothing was sent beyond `limit` and the furthest edge up to then. */
  predicate StaysWithin(s: Sender, events: seq<Event>, limit: int)
    decreases |events|
  {
    var limit' := Max(limit, Edge(s));
    s.nextSeqno <= limit' && (events == [] || StaysWithin(Step(s, events[0]), events[1..], limit'))
  }

  /** Whenever the run fills the window, what is to be sent fits below the furthest edge up to then. */
  predicate AllFit(s: Sender, events: seq<Event>, limit: int)
    decreases |events|
  {
    events == [] ||
    var limit' := Max(limit, Edge(s));
    && (events[0].Fill? && s.syned ==> ToSend(s) <= Max(0, limit' - s.nextSeqno))
    && AllFit(Step(s, events[0]), events[1..], limit')
  }

  /** One event, measured against any limit from the edge on. */
  lemma StepWithin(s: Sender, e: Event, limit: int)
    requires Inv(s) && (e.Fill? ==> Roomy(s)) && s.nextSeqno <= limit && Edge(s) <= limit
    ensures Step(s, e).nextSeqno <= limit <==> (e.Fill? && s.syned ==> ToSend(s) <= limit - s.nextSeqno)
  {
    hide Inv, FillWindow, AckReceived, Tick, Unwrap, Low64, ToSend, Edge;
    if e.Fill? && s.syned {
      FillSends(s);
    } else {
      StepWithinEdge(s, e);
    }
  }

  /** Over every run: nothing goes beyond the furthest edge the peer allowed if and only if every filling fits. */
  lemma {:induction false} RunWithinWindow(s: Sender, events: seq<Event>, limit: int)
    requires Inv(s) && Honest(s) && AllEnabled(s, events) && s.nextSeqno <= Max(limit, Edge(s))
    ensures StaysWithin(s, events, limit) <==> AllFit(s, events, limit)
    decreases |events|
  {
    hide Inv, Honest, Step, Edge, ToSend, Roomy, SkipsSyn;
    if events != [] {
      var e, next, limit' := events[0], Step(s, events[0]), Max(limit, Edge(s));
      StepKeeps(s, e);
      StepWithin(s, e, limit');
      if next.nextSeqno <= limit' {
        RunWithinWindow(next, events[1..], limit');
      } else {
        BeyondFurther(s, e, limit');
      }
    }
  }

  /** Going beyond the limit shows at once: filling the window does not move the edge outwards. */
  lemma BeyondFurther(s: Sender, e: Event, limit: int)
    requires Inv(s) && Honest(s) && Enabled(s, e) && s.nextSeqno <= limit && Edge(s) <= limit
    requires Step(s, e).nextSeqno > limit
    ensures Edge(Step(s, e)) <= limit
  {
    hide Tiles, Timed, FillWindow, AckReceived, Tick, Unwrap, Low64, Honest;
    match e
    case Fill => FillWindowKeeps(s);
    case Ack(ackno, win) => AckKeeps(s, ackno, win);
    case Elapse(ms) => TickFrame(s, ms);
    case _ =>
  }

  // ---------------------------------------------------------------- when the count is exact

  /** The space counted as used is the range in flight. */
  predicate Exact(s: Sender) {
    s.windowUsed == s.BytesInFlight()
  }

  /** Only a count that has fallen behind makes the sender go beyond the window. */
  lemma ExactFits(s: Sender)
    requires Inv(s) && Exact(s)
    ensures !Oversends(s)
  {
    hide Tiles, Timed, Phases, Unwrap, Low64;
  }

  /** An accepted acknowledgment keeps the count exact if and only if its window still covers what was sent. */
  lemma AckExact(s: Sender, ackno: U32, win: U16)
    requires Inv(s) && Exact(s) && Acceptable(s, ackno)
    ensures Exact(AckReceived(s, ackno, win)) <==>
            s.nextSeqno <= Unwrap(ackno, s.isn, Low64(s.nextSeqno)) + win
  {
    hide Unwrap, Wrap, Low64, Sent, Flat, Numbered, AckReceived, Pow2, Tiles;
    AckKeeps(s, ackno, win);
  }

  /** Accepted acknowledgments whose window covers everything sent. */
  predicate Covering(s: Sender, e: Event) {
    e.Ack? && Acceptable(s, e.ackno) ==> s.nextSeqno <= Unwrap(e.ackno, s.isn, Low64(s.nextSeqno)) + e.win
  }

  predicate AllCovering(s: Sender, events: seq<Event>)
    decreases |events|
  {
    events == [] || (Covering(s, events[0]) && AllCovering(Step(s, events[0]), events[1..]))
  }

  lemma StepExactCount(s: Sender, e: Event)
    requires Inv(s) && Exact(s) && Enabled(s, e) && Covering(s, e)
    ensures Exact(Step(s, e))
  {
    hide Inv, Unwrap, FillWindow, AckReceived, Tick, Low64;
    match e
    case Fill => FillWindowKeeps(s);
    case Ack(ackno, win) =>
      AckKeeps(s, ackno, win);
      if Acceptable(s, ackno) {
        AckExact(s, ackno, win);
      }
    case Elapse(ms) =>
      TickKeeps(s, ms);
      TickFrame(s, ms);
    case _ =>
  }

  /** With covering acknowledgments the count stays exact, and so every filling fits. */
  lemma {:induction false} CoveringFits(s: Sender, events: seq<Event>, limit: int)
    requires Inv(s) && Honest(s) && Exact(s) && AllEnabled(s, events) && AllCovering(s, events)
    ensures Exact(Run(s, events)) && AllFit(s, events, limit)
    decreases |events|
  {
    hide Inv, Honest, Step, Exact, ToSend, Covering, Roomy, SkipsSyn;
    if events != [] {
      StepKeeps(s, events[0]);
      StepExactCount(s, events[0]);
      ExactFits(s);
      EdgeRoom(s, limit);
      CoveringFits(Step(s, events[0]), events[1..], Max(limit, Edge(s)));
    }
  }

  lemma EdgeRoom(s: Sender, limit: int)
    requires Inv(s)
    ensures s.syned ==> Max(1, s.windowSize) - s.BytesInFlight() <= Max(limit, Edge(s)) - s.nextSeqno
  {
    hide Inv, Unwrap, Low64;
  }

  // ---------------------------------------------------------------- the two ways to fall behind

  /** The answer to a probe of a closed window, and what the sender then does, `n` times. */
  function Rounds(ackno: U32, n: nat): seq<Event> {
    if n == 0 then [] else [Ack(ackno, 0), Fill] + Rounds(ackno, n - 1)
  }

  /** One round: the answer resets the count, and one more new byte is sent into the closed window. */
  lemma OneRound(s: Sender)
    requires Inv(s) && s.syned && !s.fin && s.windowSize == 0 && s.BytesInFlight() > 0 && s.stream.Buffered() > 0
    requires s.BytesInFlight() + 2 < 0x8000_0000 && s.nextSeqno + 0x2_0000 < 0x8000_0000_0000_0000
    ensures var t := AckReceived(s, s.latestAckno, 0);
            var s' := FillWindow(t);
            && Inv(t) && Roomy(t) && !SkipsSyn(t) && Edge(t) == s.Acked() + 1
            && Inv(s') && s'.syned && !s'.fin && s'.windowSize == 0 && s'.latestAckno == s.latestAckno
            && s'.Acked() == s.Acked() && s'.nextSeqno == s.nextSeqno + 1
            && s'.stream.Buffered() == s.stream.Buffered() - 1
  {
    hide Inv, Unwrap, Low64, AckReceived, FillWindow;
    AckKeeps(s, s.latestAckno, 0);
    InflightOrdered(s);
    var t := AckReceived(s, s.latestAckno, 0);
    assert t == s.(windowUsed := 0, windowSize := 0) by {
      assert AckEffect(s, t, s.Acked(), 0);
      SameAckno(s, s.latestAckno);
      SameWindowAckno(s, 0);
    }
    FillWindowKeeps(t);
    FillSends(t);
    ProbeKeeps(t);
  }

  lemma InflightOrdered(s: Sender)
    requires Inv(s)
    ensures s.Acked() <= s.nextSeqno && 0 <= s.windowUsed
  {
    hide Tiles, Timed, Phases, Unwrap;
  }

  lemma ProbeKeeps(s: Sender)
    requires s.windowSize == 0 && s.windowUsed == 0 && s.stream.Buffered() > 0
    ensures var s' := FillWindow(s);
            && s'.fin == s.fin && s'.syned == s.syned && s'.latestAckno == s.latestAckno && s'.windowSize == 0
            && s'.stream == Pop(s.stream, 1)
  {
    hide Wrap, Low64;
  }

  /**
   A closed window does not hold the sender: from every state with SYN sent and something in flight into a closed
   window, each answer that repeats the acknowledgment and the zero window draws one more new byte, while the edge
   stays where it was.
   */
  lemma {:induction false} ClosedWindowFlood(s: Sender, n: nat)
    requires Inv(s) && s.syned && !s.fin && s.windowSize == 0 && s.BytesInFlight() > 0 && n <= s.stream.Buffered()
    requires s.BytesInFlight() + n + 1 < 0x8000_0000 && s.nextSeqno + n + 0x2_0000 < 0x8000_0000_0000_0000
    ensures var events := Rounds(s.latestAckno, n);
            && AllEnabled(s, events)
            && Run(s, events).nextSeqno == s.nextSeqno + n
            && FurthestEdge(s, events) == s.Acked() + 1
            && (n > 0 ==> !StaysWithin(s, events, s.nextSeqno))
    decreases n
  {
    hide Inv, Unwrap, AckReceived, FillWindow, Roomy, SkipsSyn, AllEnabled, Run, FurthestEdge, StaysWithin;
    if n == 0 {
      RoundsEnd(s);
    } else {
      OneRound(s);
      var t := AckReceived(s, s.latestAckno, 0);
      var s' := FillWindow(t);
      ClosedWindowFlood(s', n - 1);
      RoundsUnfold(s, n);
    }
  }

  lemma RoundsEnd(s: Sender)
    ensures AllEnabled(s, []) && Run(s, []) == s && FurthestEdge(s, []) == Edge(s)
  {
  }

  lemma RoundsUnfold(s: Sender, n: nat)
    requires n > 0
    ensures var t := AckReceived(s, s.latestAckno, 0);
            var s', events, rest := FillWindow(t), Rounds(s.latestAckno, n), Rounds(s.latestAckno, n - 1);
            && Run(s, events) == Run(s', rest)
            && (AllEnabled(s, events) <==> Roomy(t) && !SkipsSyn(t) && AllEnabled(s', rest))
            && FurthestEdge(s, events) == Max(Edge(s), Max(Edge(t), FurthestEdge(s', rest)))
            && (StaysWithin(s, events, s.nextSeqno) ==>
                  s'.nextSeqno <= Max(Max(Max(s.nextSeqno, Edge(s)), Edge(t)), Edge(s')))
  {
    hide Unwrap, AckReceived, FillWindow, Roomy, SkipsSyn, Edge;
    var events, rest := Rounds(s.latestAckno, n), Rounds(s.latestAckno, n - 1);
    assert events[1..] == [Fill] + rest;
    assert ([Fill] + rest)[1..] == rest;
    var t := AckReceived(s, s.latestAckno, 0);
    var first := Max(s.nextSeqno, Edge(s));
    assert StaysWithin(s, events, s.nextSeqno) ==> StaysWithin(t, [Fill] + rest, first);
    assert StaysWithin(t, [Fill] + rest, first) ==> StaysWithin(FillWindow(t), rest, Max(first, Edge(t)));
  }

  /**
   A window that is announced smaller and then as before, as when acknowledgments arrive out of order: from every
   state with a full window and more to send, the sender goes beyond it.
   */
  lemma ShrunkWindowOversends(s: Sender, win: U16)
    requires Inv(s) && s.syned && s.BytesInFlight() == s.windowUsed == s.windowSize > win && Available(s) > 0
    requires Roomy(s)
    ensures var t := AckReceived(AckReceived(s, s.latestAckno, win), s.latestAckno, s.windowSize);
            && Roomy(t) && t.Acked() == s.Acked() && t.nextSeqno == s.nextSeqno == Edge(s) == Edge(t)
            && FillWindow(t).nextSeqno > Edge(s)
  {
    hide Inv, Unwrap, Low64, AckReceived, FillWindow;
    var u := AckReceived(s, s.latestAckno, win);
    var t := AckReceived(u, s.latestAckno, s.windowSize);
    InflightOrdered(s);
    SameAckno(s, s.latestAckno);
    AckKeeps(s, s.latestAckno, win);
    SameWindowAckno(s, win);
    SameAckno(u, u.latestAckno);
    InflightOrdered(u);
    AckKeeps(u, s.latestAckno, s.windowSize);
    FillSends(t);
  }

  lemma SameWindowAckno(s: Sender, win: U16)
    ensures AckReceived(s, s.latestAckno, win).latestAckno == s.latestAckno
  {
    hide Unwrap, RemoveAcked;
  }
}
