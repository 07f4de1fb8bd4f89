/**
 What every step of the TCP sender keeps: the outstanding segments tile the end
 of the sequence space sent so far, and all decisions taken on 32-bit numbers
 agree with the absolute ones.
 */
module SenderProofs {
  import opened Words
  import opened WrappingIntegers
  import opened ByteStreams
  import opened TcpSegments
  import opened TcpSenders

  // ---------------------------------------------------------------- the invariant

  /** The sequence space sent so far: SYN at 0, byte k at k + 1, FIN last. */
  function Sent(s: Sender): seq<Symbol> {
    (if s.syned then [SynMark] else []) + AsData(s.stream.bytes[..s.stream.read]) + (if s.fin then [FinMark] else [])
  }

  /** The symbols of the outstanding segments, in order. */
  function Flat(cache: seq<Outstanding>): seq<Symbol> {
    if cache == [] then [] else Symbols(cache[0].segment) + Flat(cache[1..])
  }

  /** Consecutive non-empty segments numbered from absolute position `base`. */
  predicate Numbered(cache: seq<Outstanding>, isn: U32, base: nat) {
    cache == [] ||
    var seg := cache[0].segment;
    seg.header.seqno == Wrap(Low64(base), isn) && seg.Length() > 0 && Numbered(cache[1..], isn, base + seg.Length())
  }

  function Base(s: Sender): int {
    s.nextSeqno - |Flat(s.cache)|
  }

  /** The outstanding segments are exactly the last part of what was sent, split and numbered. */
  predicate Tiles(s: Sender) {
    && |Sent(s)| == s.nextSeqno < 0x8000_0000_0000_0000
    && 0 <= Base(s)
    && Flat(s.cache) == Sent(s)[Base(s)..]
    && Numbered(s.cache, s.isn, Base(s))
  }

  /** The latest acknowledgment lies in what was sent; the first outstanding segment is not fully acknowledged. */
  predicate AckSound(s: Sender) {
    && s.Acked() <= s.nextSeqno < s.Acked() + 0x8000_0000
    && s.windowUsed <= s.BytesInFlight()
    && (s.cache == [] ==> s.Acked() == s.nextSeqno)
    && (s.cache != [] ==> Base(s) <= s.Acked() < Base(s) + s.cache[0].segment.Length())
  }

  predicate Phases(s: Sender) {
    && (!s.syned ==> s.nextSeqno == 0 && !s.fin)
    && (s.fin ==> s.stream.Eof())
  }

  predicate Timed(s: Sender) {
    && s.timeout == Low32(s.initialTimeout * Pow2(s.retransmissions))
    && (forall k :: 0 <= k < |s.cache| ==> s.cache[k].sentAt <= s.now)
  }

  predicate Inv(s: Sender) {
    Tiles(s) && AckSound(s) && Phases(s) && Timed(s)
  }

  /** `seg` carries the symbols sent at absolute position `a` and is numbered accordingly. */
  predicate Genuine(s: Sender, seg: Segment, a: nat) {
    && a + seg.Length() <= |Sent(s)|
    && seg.header.seqno == Wrap(Low64(a), s.isn)
    && Symbols(seg) == Sent(s)[a..a + seg.Length()]
  }

  lemma NewSenderInv(capacity: nat, timeout: U16, isn: U32)
    ensures Inv(NewSender(capacity, timeout, isn))
    ensures NewSender(capacity, timeout, isn).Acked() == 0
  {
    hide Unwrap, Wrap;
    UnwrapStable(isn, isn, 0, 0);
    assert Pow2(0) == 1;
  }

  // ---------------------------------------------------------------- appending segments

  lemma {:induction false} FlatSnoc(cache: seq<Outstanding>, x: Outstanding)
    ensures Flat(cache + [x]) == Flat(cache) + Symbols(x.segment)
  {
    hide Symbols;
    if cache == [] {
      assert cache + [x] == [x];
      assert Flat([x]) == Symbols(x.segment) + Flat([]);
    } else {
      FlatSnoc(cache[1..], x);
      assert (cache + [x])[1..] == cache[1..] + [x];
    }
  }

  lemma {:induction false} NumberedSnoc(cache: seq<Outstanding>, isn: U32, base: nat, x: Outstanding)
    requires Numbered(cache, isn, base)
    requires x.segment.header.seqno == Wrap(Low64(base + |Flat(cache)|), isn) && x.segment.Length() > 0
    ensures Numbered(cache + [x], isn, base)
  {
    if cache == [] {
      assert cache + [x] == [x];
    } else {
      NumberedSnoc(cache[1..], isn, base + cache[0].segment.Length(), x);
      assert (cache + [x])[1..] == cache[1..] + [x];
    }
  }

  function Carried(syn: bool, payload: seq<Byte>, fin: bool): (s: seq<Symbol>)
    ensures |s| == |payload| + (if syn then 1 else 0) + (if fin then 1 else 0)
  {
    (if syn then [SynMark] else []) + AsData(payload) + (if fin then [FinMark] else [])
  }

  /** `cut` differs from `s` only in the stream and the two flags, and accounts for the symbols about to be sent. */
  ghost predicate ReadyToSend(s: Sender, cut: Sender, syn: bool, payload: seq<Byte>, fin: bool) {
    && cut == s.(stream := cut.stream, syned := cut.syned, fin := cut.fin)
    && cut.syned && (cut.fin ==> cut.stream.Eof())
    && Sent(cut) == Sent(s) + Carried(syn, payload, fin)
    && Carried(syn, payload, fin) != []
  }

  lemma AckedStable(s: Sender, s': Sender)
    requires s'.latestAckno == s.latestAckno && s'.isn == s.isn
    requires s.nextSeqno <= s'.nextSeqno < 0x8000_0000_0000_0000
    requires s.Acked() <= s.nextSeqno && s'.nextSeqno < s.Acked() + 0x8000_0000
    ensures s'.Acked() == s.Acked()
  {
    hide Unwrap;
    UnwrapNearest(s.latestAckno, s.isn, Low64(s.nextSeqno), 0);
    UnwrapStable(s.latestAckno, s.isn, s.Acked(), Low64(s'.nextSeqno));
  }

  lemma TransmitKeeps(s: Sender, cut: Sender, syn: bool, payload: seq<Byte>, fin: bool)
    requires Inv(s) && ReadyToSend(s, cut, syn, payload, fin)
    requires var n := |Carried(syn, payload, fin)|;
             s.BytesInFlight() + n < 0x8000_0000 && s.nextSeqno + n < 0x8000_0000_0000_0000
    ensures var s' := Transmit(cut, syn, payload, fin);
            && Inv(s') && s'.Acked() == s.Acked() && Sent(s') == Sent(cut) && Base(s') == Base(s)
            && s'.BytesInFlight() - s'.windowUsed == s.BytesInFlight() - s.windowUsed
            && Genuine(s', s'.segmentsOut[|s.segmentsOut|], s.nextSeqno)
  {
    hide Unwrap, Wrap, Flat, Numbered, Pow2, Sent, Symbols, Low64, Low32;
    var s' := Transmit(cut, syn, payload, fin);
    var x := s'.cache[|s.cache|];
    assert s'.cache == s.cache + [x];
    TransmitTiles(s, cut, syn, payload, fin);
    AckedStable(s, s');
    assert AckSound(s') by {
      FlatSnoc(s.cache, x);
      if s.cache == [] {
        FlatEmpty();
      }
    }
  }

  lemma TransmitTiles(s: Sender, cut: Sender, syn: bool, payload: seq<Byte>, fin: bool)
    requires Tiles(s) && ReadyToSend(s, cut, syn, payload, fin)
    requires s.nextSeqno + |Carried(syn, payload, fin)| < 0x8000_0000_0000_0000
    ensures var s' := Transmit(cut, syn, payload, fin);
            && Tiles(s') && Base(s') == Base(s) && Sent(s') == Sent(cut)
            && Genuine(s', s'.segmentsOut[|s.segmentsOut|], s.nextSeqno)
            && s'.cache[|s.cache|].segment.Length() == |Carried(syn, payload, fin)|
  {
    hide Unwrap, Wrap, Flat, Numbered, Low64;
    var s' := Transmit(cut, syn, payload, fin);
    var x := s'.cache[|s.cache|];
    assert Symbols(x.segment) == Carried(syn, payload, fin);
    assert Sent(s') == Sent(cut);
    FlatSnoc(s.cache, x);
    NumberedSnoc(s.cache, s.isn, Base(s), x);
    var sent, sym, base := Sent(s), Carried(syn, payload, fin), Base(s);
    SliceOfConcat(sent, sym, base);
  }

  lemma SliceOfConcat(a: seq<Symbol>, b: seq<Symbol>, k: nat)
    requires k <= |a|
    ensures (a + b)[k..] == a[k..] + b
    ensures (a + b)[|a|..|a| + |b|] == b
  {
  }

  lemma FlatEmpty()
    ensures Flat([]) == []
  {
  }

  // ---------------------------------------------------------------- filling the window

  lemma AsDataSplit(bytes: seq<Byte>, i: nat, j: nat)
    requires i <= j <= |bytes|
    ensures AsData(bytes[..j]) == AsData(bytes[..i]) + AsData(bytes[i..j])
  {
  }

  lemma CarriedAppend(bytes: seq<Byte>, i: nat, j: nat, fin: bool)
    requires i <= j <= |bytes|
    ensures Carried(true, bytes[..j], fin) == Carried(true, bytes[..i], false) + Carried(false, bytes[i..j], fin)
  {
    hide AsData;
    AsDataSplit(bytes, i, j);
  }

  lemma SentIsCarried(s: Sender)
    ensures Sent(s) == Carried(s.syned, s.stream.bytes[..s.stream.read], s.fin)
  {
  }

  lemma CutSent(s: Sender)
    requires Inv(s) && Pending(s)
    ensures var (cut, isSyn, content, isFin) := Cut(s);
            Sent(cut) == Sent(s) + Carried(isSyn, content, isFin)
  {
    hide Unwrap, Flat, Numbered, Pow2, Carried, PayloadSize, Sent, AckSound, Timed;
    var (cut, isSyn, content, isFin) := Cut(s);
    SentIsCarried(s);
    SentIsCarried(cut);
    if s.syned {
      CarriedAppend(s.stream.bytes, s.stream.read, cut.stream.read, isFin);
    } else {
      assert Sent(s) == [] && s.stream.read == 0;
      assert content == s.stream.bytes[..cut.stream.read];
    }
  }

  /** The segment cut next carries the symbols that follow what was sent, within the unused window. */
  lemma CutReady(s: Sender)
    requires Inv(s) && Pending(s) && s.Unused() > 0
    ensures var (cut, isSyn, content, isFin) := Cut(s);
            var n := |Carried(isSyn, content, isFin)|;
            && (n > 0 ==> ReadyToSend(s, cut, isSyn, content, isFin))
            && |content| <= MAX_PAYLOAD_SIZE
            && n <= s.Unused() + (if s.syned then 0 else 1)
            && (n == 0 ==> s.stream.Buffered() == 0 && s.syned && (s.fin || !s.stream.ended))
  {
    hide Tiles, AckSound, Timed, Sent, Carried;
    CutSent(s);
  }

  lemma ProbeReady(s: Sender)
    requires Inv(s) && s.syned
    ensures s.stream.Buffered() > 0 ==>
              && ReadyToSend(s, s.(stream := Pop(s.stream, 1)), false, Peek(s.stream, 1), false)
              && |Peek(s.stream, 1)| == 1
    ensures s.stream.Eof() && !s.fin ==> ReadyToSend(s, s.(fin := true), false, [], true)
  {
    hide Unwrap, Wrap, Flat, Numbered, Pow2, Carried, Sent, Timed, AckSound;
    SentIsCarried(s);
    SentIsCarried(s.(stream := Pop(s.stream, 1)));
    SentIsCarried(s.(fin := true));
    CarriedAppend(s.stream.bytes, s.stream.read, Pop(s.stream, 1).read, false);
    CarriedAppend(s.stream.bytes, s.stream.read, s.stream.read, true);
  }

  /** Segment `seg` is new in `s'` and carries what was sent after position `from`. */
  ghost predicate NewIn(s': Sender, seg: Segment, from: nat) {
    |seg.payload| <= MAX_PAYLOAD_SIZE && seg.Length() > 0 && exists a: nat :: from <= a && Genuine(s', seg, a)
  }

  /** `s'` is `s` after sending some more segments, each queued and remembered with the current time. */
  ghost predicate Extends(s: Sender, s': Sender) {
    && s' == s.(stream := s'.stream, syned := s'.syned, fin := s'.fin, nextSeqno := s'.nextSeqno,
                windowUsed := s'.windowUsed, segmentsOut := s'.segmentsOut, cache := s'.cache)
    && s'.stream == s.stream.(read := s'.stream.read) && s.stream.read <= s'.stream.read
    && Sent(s) <= Sent(s') && Base(s') == Base(s)
    && s.cache <= s'.cache && s.segmentsOut <= s'.segmentsOut
    && |s'.cache| - |s.cache| == |s'.segmentsOut| - |s.segmentsOut|
    && (forall k :: |s.cache| <= k < |s'.cache| ==>
          s'.cache[k] == Outstanding(s.now, s'.segmentsOut[k - |s.cache| + |s.segmentsOut|]))
    && (forall k :: |s.segmentsOut| <= k < |s'.segmentsOut| ==> NewIn(s', s'.segmentsOut[k], s.nextSeqno))
    && s'.Acked() == s.Acked()
    && s'.BytesInFlight() - s'.windowUsed == s.BytesInFlight() - s.windowUsed
  }

  lemma GenuineStays(s: Sender, s': Sender, seg: Segment, a: nat)
    requires Genuine(s, seg, a) && Sent(s) <= Sent(s') && s.isn == s'.isn
    ensures Genuine(s', seg, a)
  {
    hide Sent, Symbols, Wrap, Low64;
  }

  lemma ExtendsRefl(s: Sender)
    ensures Extends(s, s)
  {
    hide Sent, Unwrap;
  }

  lemma ExtendsTrans(s: Sender, t: Sender, u: Sender)
    requires Extends(s, t) && Extends(t, u) && s.nextSeqno <= t.nextSeqno
    ensures Extends(s, u)
  {
    hide Sent, Unwrap, Symbols, Genuine;
    forall k | |s.segmentsOut| <= k < |u.segmentsOut|
      ensures NewIn(u, u.segmentsOut[k], s.nextSeqno)
    {
      if k < |t.segmentsOut| {
        var seg := t.segmentsOut[k];
        assert u.segmentsOut[k] == seg;
        var a: nat :| s.nextSeqno <= a && Genuine(t, seg, a);
        GenuineStays(t, u, seg, a);
      } else {
        var a: nat :| t.nextSeqno <= a && Genuine(u, u.segmentsOut[k], a);
      }
    }
  }

  lemma TransmitExtends(s: Sender, cut: Sender, syn: bool, payload: seq<Byte>, fin: bool)
    requires Inv(s) && ReadyToSend(s, cut, syn, payload, fin)
    requires cut.stream == s.stream.(read := cut.stream.read) && s.stream.read <= cut.stream.read
    requires |payload| <= MAX_PAYLOAD_SIZE
    requires var n := |Carried(syn, payload, fin)|;
             s.BytesInFlight() + n < 0x8000_0000 && s.nextSeqno + n < 0x8000_0000_0000_0000
    ensures Inv(Transmit(cut, syn, payload, fin)) && Extends(s, Transmit(cut, syn, payload, fin))
  {
    hide Sent, Unwrap, Symbols, Inv, Wrap, Low64, Carried;
    TransmitKeeps(s, cut, syn, payload, fin);
    var s' := Transmit(cut, syn, payload, fin);
    assert NewIn(s', s'.segmentsOut[|s.segmentsOut|], s.nextSeqno) by {
      assert Genuine(s', s'.segmentsOut[|s.segmentsOut|], s.nextSeqno);
    }
  }

  /** The window may be filled without the outstanding range or the 64-bit counter growing out of reach. */
  predicate Roomy(s: Sender) {
    s.BytesInFlight() + s.windowSize + 1 < 0x8000_0000 && s.nextSeqno + 0x2_0000 < 0x8000_0000_0000_0000
  }

  /** The loop stopped because the window is full, or everything buffered is sent and FIN is sent or not due. */
  predicate Exhausted(s: Sender) {
    s.Unused() == 0 || (s.stream.Buffered() == 0 && s.syned && (s.fin || !s.stream.ended))
  }

  /** Each turn adds at most the unused window to the range in flight (one more for SYN). */
  lemma {:induction false} FillLoopKeeps(s: Sender)
    requires Inv(s)
    requires var room := s.Unused() + (if s.syned then 0 else 1);
             s.BytesInFlight() + room < 0x8000_0000 && s.nextSeqno + room < 0x8000_0000_0000_0000
    ensures var s' := FillLoop(s);
            && Inv(s') && Extends(s, s') && Exhausted(s')
            && s.nextSeqno <= s'.nextSeqno
            && s'.nextSeqno <= s.nextSeqno + s.Unused() + (if s.syned || s.Unused() == 0 then 0 else 1)
    decreases s.Unused()
  {
    hide Unwrap, Wrap, Low64, Sent, Flat, Numbered, Pow2, Symbols, Tiles, Extends, Timed, AsData;
    if !Pending(s) || s.Unused() == 0 {
      ExtendsRefl(s);
    } else {
      CutReady(s);
      var (cut, isSyn, content, isFin) := Cut(s);
      if !isSyn && content == [] && !isFin {
        ExtendsRefl(s);
      } else {
        var next := Transmit(cut, isSyn, content, isFin);
        TransmitExtends(s, cut, isSyn, content, isFin);
        TransmitKeeps(s, cut, isSyn, content, isFin);
        FillLoopKeeps(next);
        ExtendsTrans(s, next, FillLoop(next));
      }
    }
  }

  /** The window was closed before SYN was sent, and there is something to send: the branch that does not know SYN. */
  predicate SkipsSyn(s: Sender) {
    !s.syned && s.windowSize == 0 && s.windowUsed == 0 && (s.stream.Buffered() > 0 || s.stream.Eof())
  }

  /** `fill_window`: the invariant, the effect, why it stopped, and how far it may reach. */
  lemma FillWindowKeeps(s: Sender)
    requires Inv(s) && Roomy(s) && !SkipsSyn(s)
    ensures var s' := FillWindow(s);
            && Inv(s') && Extends(s, s') && s.nextSeqno <= s'.nextSeqno
            && (s.windowSize != 0 || s.windowUsed != 0 ==> Exhausted(s'))
            && (s.windowSize > 0 && s.windowUsed == s.BytesInFlight() ==>
                  s'.nextSeqno <= Max(s.nextSeqno, s.Acked() + s.windowSize + (if s.syned then 0 else 1)))
            && (s.windowSize == 0 ==> s'.nextSeqno <= s.nextSeqno + (if s.windowUsed == 0 then 1 else 0))
  {
    hide Unwrap, Wrap, Low64, Sent, Flat, Numbered, Pow2, Symbols, Tiles, Extends, Timed, AsData, FillLoop;
    if s.windowSize == 0 && s.windowUsed == 0 {
      ExtendsRefl(s);
      if s.syned {
        ProbeReady(s);
      }
      if s.stream.Buffered() > 0 {
        TransmitExtends(s, s.(stream := Pop(s.stream, 1)), false, Peek(s.stream, 1), false);
      } else if s.stream.Eof() && !s.fin {
        TransmitExtends(s, s.(fin := true), false, [], true);
      }
    } else {
      FillLoopKeeps(s);
    }
  }

  /** In that branch the first byte, or FIN, takes the sequence number of SYN, and SYN is still not sent. */
  lemma SkippedSyn(s: Sender)
    requires Inv(s) && SkipsSyn(s)
    ensures var s' := FillWindow(s);
            && !s'.syned && s'.nextSeqno == 1
            && s'.segmentsOut == s.segmentsOut +
               [Segment(BlankHeader().(seqno := s.isn, fin := s.stream.Buffered() == 0), Peek(s.stream, 1))]
  {
    hide Unwrap, Wrap, Flat, Numbered, Sent, Timed, AckSound;
    WrapIsLow(0, s.isn);
  }

  /** Filling the window keeps the invariant exactly when it is not in that branch. */
  lemma FillWindowExact(s: Sender)
    requires Inv(s) && Roomy(s)
    ensures Inv(FillWindow(s)) <==> !SkipsSyn(s)
  {
    hide FillWindow, Unwrap, Tiles, AckSound, Timed, Extends;
    if SkipsSyn(s) {
      SkippedSyn(s);
    } else {
      FillWindowKeeps(s);
    }
  }

  // ---------------------------------------------------------------- acknowledgments

  /** On 32-bit numbers or on absolute ones, the oldest segment is fully acknowledged or not. */
  lemma FullyAckedExact(s: Sender)
    requires Tiles(s) && s.cache != []
    requires s.nextSeqno < Base(s) + s.cache[0].segment.Length() + 0x8000_0000
    ensures FullyAcked(s, s.cache[0].segment) <==> Base(s) + s.cache[0].segment.Length() <= s.Acked()
  {
    hide Unwrap, Wrap, Low32, Sent, Flat;
    var seg := s.cache[0].segment;
    var end := Base(s) + seg.Length();
    FlatFirst(s.cache);
    WrapAdd(Base(s), seg.Length(), s.isn);
    WrapNames(end, s.isn);
    UnwrapStable(Wrap(end, s.isn), s.isn, end, s.nextSeqno);
  }

  lemma FlatFirst(cache: seq<Outstanding>)
    requires cache != []
    ensures |Flat(cache)| == cache[0].segment.Length() + |Flat(cache[1..])|
    ensures Flat(cache)[cache[0].segment.Length()..] == Flat(cache[1..])
  {
  }

  lemma DropTiles(s: Sender)
    requires Tiles(s) && s.cache != []
    ensures var s' := s.(cache := s.cache[1..]);
            Tiles(s') && Base(s') == Base(s) + s.cache[0].segment.Length()
  {
    hide Wrap, Low64;
    FlatFirst(s.cache);
    var s' := s.(cache := s.cache[1..]);
    assert Sent(s') == Sent(s);
    DropSlice(Sent(s), Base(s), s.cache[0].segment.Length());
  }

  lemma DropSlice(a: seq<Symbol>, k: nat, n: nat)
    requires k + n <= |a|
    ensures a[k..][n..] == a[k + n..]
  {
  }

  lemma BaseEmpty(s: Sender)
    requires s.cache == []
    ensures Base(s) == s.nextSeqno
  {
  }

  /** Exactly the fully acknowledged segments are dropped, from the front. */
  lemma {:induction false} RemoveAckedKeeps(s: Sender)
    requires Tiles(s) && Base(s) <= s.Acked() <= s.nextSeqno
    requires s.cache != [] ==> s.nextSeqno < Base(s) + s.cache[0].segment.Length() + 0x8000_0000
    ensures var s' := RemoveAcked(s);
            && s' == s.(cache := s'.cache)
            && |s'.cache| <= |s.cache| && s'.cache == s.cache[|s.cache| - |s'.cache|..]
            && Tiles(s') && Base(s') <= s.Acked()
            && (s'.cache != [] ==> s.Acked() < Base(s') + s'.cache[0].segment.Length())
            && (s'.cache == [] ==> s.Acked() == s.nextSeqno)
    decreases |s.cache|
  {
    hide Unwrap, Wrap, Low32, Low64, Sent, Flat, Base, Numbered, FullyAcked, Tiles;
    if s.cache == [] {
      BaseEmpty(s);
    } else {
      FullyAckedExact(s);
      if FullyAcked(s, s.cache[0].segment) {
        DropTiles(s);
        RemoveAckedKeeps(s.(cache := s.cache[1..]));
      }
    }
  }

  lemma RestartTiles(s: Sender)
    requires Tiles(s)
    ensures Tiles(Restart(s)) && Base(Restart(s)) == Base(s)
  {
    hide Wrap, Low64;
    if s.cache != [] {
      var s' := Restart(s);
      assert s'.cache[1..] == s.cache[1..];
      assert Sent(s') == Sent(s);
    }
  }

  lemma LatestIsWrapped(s: Sender)
    ensures s.latestAckno == Wrap(s.Acked(), s.isn)
  {
    hide Unwrap, Wrap;
    UnwrapNearest(s.latestAckno, s.isn, Low64(s.nextSeqno), 0);
    NamesWrap(s.Acked(), s.latestAckno, s.isn);
  }

  /** The window arithmetic done on 32-bit numbers is the absolute one. */
  lemma WindowUpdateExact(s: Sender, ackno: U32, win: U16)
    requires Tiles(s) && AckSound(s)
    ensures WindowUpdate(s, ackno, win).windowUsed ==
            Min(Max(s.Acked() + s.windowUsed - Unwrap(ackno, s.isn, Low64(s.nextSeqno)), 0), win)
  {
    hide Unwrap, Wrap, Low32, Flat;
    var end := s.Acked() + s.windowUsed;
    LatestIsWrapped(s);
    WrapAdd(s.Acked(), s.windowUsed, s.isn);
    WrapNames(end, s.isn);
    UnwrapStable(Wrap(end, s.isn), s.isn, end, s.nextSeqno);
  }

  /** What an acknowledgment may change. */
  ghost predicate AckEffect(s: Sender, s': Sender, acked: nat, win: U16) {
    && s' == s.(windowSize := win, windowUsed := s'.windowUsed, latestAckno := s'.latestAckno, cache := s'.cache,
                timeout := s'.timeout, retransmissions := s'.retransmissions)
    && s'.windowUsed == Min(Max(s.Acked() + s.windowUsed - acked, 0), win)
    && s'.Acked() == acked
    && |s'.cache| <= |s.cache|
    && (acked == s.Acked() ==>
          s'.cache == s.cache && s'.timeout == s.timeout && s'.retransmissions == s.retransmissions)
    && (acked > s.Acked() ==> s'.timeout == s.initialTimeout && s'.retransmissions == 0)
    && (forall k :: 0 <= k < |s'.cache| ==>
          s'.cache[k].segment == s.cache[|s.cache| - |s'.cache| + k].segment)
    && (acked > s.Acked() && s'.cache != [] ==> s'.cache[0].sentAt == s.now)
  }

  lemma SameAckno(s: Sender, ackno: U32)
    ensures ackno == s.latestAckno <==> Unwrap(ackno, s.isn, Low64(s.nextSeqno)) == s.Acked()
  {
    hide Unwrap, Wrap;
    UnwrapNearest(s.latestAckno, s.isn, Low64(s.nextSeqno), 0);
    UnwrapNearest(ackno, s.isn, Low64(s.nextSeqno), 0);
    if Unwrap(ackno, s.isn, Low64(s.nextSeqno)) == s.Acked() {
      NamesWrap(s.Acked(), s.latestAckno, s.isn);
      NamesWrap(s.Acked(), ackno, s.isn);
    }
  }

  /** A new acknowledgment: the part after the window update. */
  lemma NewAckKeeps(s: Sender, ackno: U32, win: U16)
    requires Inv(s) && Acceptable(s, ackno) && ackno != s.latestAckno
    ensures var s' := AckReceived(s, ackno, win);
            && AckEffect(s, s', Unwrap(ackno, s.isn, Low64(s.nextSeqno)), win)
            && Tiles(s') && AckSound(s') && Timed(s')
  {
    hide Unwrap, Wrap, Low32, Low64, Sent, Flat, Numbered, RemoveAcked, WindowUpdate, Tiles;
    var b := Unwrap(ackno, s.isn, Low64(s.nextSeqno));
    SameAckno(s, ackno);
    WindowUpdateExact(s, ackno, win);
    var s1 := WindowUpdate(s, ackno, win);
    WindowUpdateFrame(s, ackno, win);
    var s2 := s1.(timeout := s.initialTimeout, retransmissions := 0, latestAckno := ackno);
    TilesOnlyReads(s, s2);
    if s.cache == [] {
      FlatEmpty();
    }
    RemoveAckedKeeps(s2);
    RestartTiles(RemoveAcked(s2));
    TimeoutInitial(s.initialTimeout);
  }

  lemma TimeoutInitial(initial: U16)
    ensures initial == Low32(initial * Pow2(0))
  {
  }

  lemma WindowUpdateFrame(s: Sender, ackno: U32, win: U16)
    ensures var s1 := WindowUpdate(s, ackno, win);
            s1 == s.(windowSize := win, windowUsed := s1.windowUsed)
  {
  }

  lemma TilesOnlyReads(s: Sender, s': Sender)
    requires Tiles(s)
    requires s'.stream == s.stream && s'.syned == s.syned && s'.fin == s.fin
    requires s'.cache == s.cache && s'.isn == s.isn && s'.nextSeqno == s.nextSeqno
    ensures Tiles(s') && Base(s') == Base(s)
  {
  }

  /**
   `ack_received`, for every 32-bit number and window: the invariant survives; a number outside the range from the
   latest acknowledgment to what was sent changes nothing, and inside it becomes the latest acknowledgment.
   */
  lemma AckKeeps(s: Sender, ackno: U32, win: U16)
    requires Inv(s)
    ensures var b, s' := Unwrap(ackno, s.isn, Low64(s.nextSeqno)), AckReceived(s, ackno, win);
            && Inv(s')
            && (s.Acked() <= b <= s.nextSeqno ==> AckEffect(s, s', b, win))
            && (!(s.Acked() <= b <= s.nextSeqno) ==> s' == s)
  {
    hide Unwrap, Low64, AckReceived, Tiles, AckSound, Timed, AckEffect;
    AckReceivedCases(s, ackno, win);
    if Acceptable(s, ackno) {
      if ackno == s.latestAckno {
        RepeatAckKeeps(s, ackno, win);
      } else {
        NewAckKeeps(s, ackno, win);
      }
      AckPhases(s, AckReceived(s, ackno, win), Unwrap(ackno, s.isn, Low64(s.nextSeqno)), win);
    }
  }

  lemma AckPhases(s: Sender, s': Sender, acked: nat, win: U16)
    requires Phases(s) && AckEffect(s, s', acked, win)
    ensures Phases(s')
  {
  }

  /** A repeated acknowledgment only updates the window. */
  lemma RepeatAckKeeps(s: Sender, ackno: U32, win: U16)
    requires Inv(s) && Acceptable(s, ackno) && ackno == s.latestAckno
    ensures var s' := AckReceived(s, ackno, win);
            && AckEffect(s, s', Unwrap(ackno, s.isn, Low64(s.nextSeqno)), win)
            && Tiles(s') && AckSound(s') && Timed(s')
  {
    hide Unwrap, Low64, Flat, WindowUpdate, Tiles, AckReceived, Timed;
    AckReceivedCases(s, ackno, win);
    SameAckno(s, ackno);
    WindowUpdateExact(s, ackno, win);
    WindowUpdateFrame(s, ackno, win);
    TilesOnlyReads(s, WindowUpdate(s, ackno, win));
    TimedOnlyReads(s, WindowUpdate(s, ackno, win));
  }

  lemma AckReceivedCases(s: Sender, ackno: U32, win: U16)
    ensures !Acceptable(s, ackno) ==> AckReceived(s, ackno, win) == s
    ensures Acceptable(s, ackno) && ackno == s.latestAckno ==> AckReceived(s, ackno, win) == WindowUpdate(s, ackno, win)
  {
    hide Unwrap, WindowUpdate, RemoveAcked;
  }

  lemma TimedOnlyReads(s: Sender, s': Sender)
    requires Timed(s) && s'.cache == s.cache && s'.timeout == s.timeout && s'.now == s.now
    requires s'.initialTimeout == s.initialTimeout && s'.retransmissions == s.retransmissions
    ensures Timed(s')
  {
  }
}
