/**
 Where the sender cuts the sequence space. It never cuts anew what it has sent: a
 retransmission is the segment as it was, and an empty segment sits at the end.
 */
module SegmentCuts {
  import opened Words
  import opened WrappingIntegers
  import opened TcpSegments
  import opened TcpSenders
  import opened SenderProofs
  import opened SenderRuns

  /** The absolute positions of the segments now queued, and all positions at which a segment was ever queued. */
  datatype History = History(queued: seq<nat>, cuts: set<nat>)

  /** The positions of consecutive segments, the first of which is at `from`. */
  function Starts(segs: seq<Segment>, from: nat): (p: seq<nat>)
    ensures |p| == |segs|
  {
    if segs == [] then [] else [from] + Starts(segs[1..], from + segs[0].Length())
  }

  /** The positions of the segments that an event adds to the queue. */
  function Positions(s: Sender, e: Event): seq<nat> {
    match e
    case Fill =>
      var out := FillWindow(s).segmentsOut;
      if |s.segmentsOut| <= |out| then Starts(out[|s.segmentsOut|..], s.nextSeqno) else []
    case Elapse(ms) => if Expired(TimerOf(s), s.now + ms, s.timeout) then [Max(0, Base(s))] else []
    case Empty => [s.nextSeqno]
    case _ => []
  }

  function Note(h: History, s: Sender, e: Event): History {
    var added := Positions(s, e);
    History(if e.Drain? then [] else h.queued + added, h.cuts + (set p | p in added))
  }

  /** No cut strictly between the ends of a segment of length `len` at `a`. */
  predicate Uncut(cuts: set<nat>, a: int, len: nat) {
    forall c :: c in cuts ==> !(a < c < a + len)
  }

  /** `seg` was sent at `a`, which is one of the cuts, and there is no cut inside it. */
  ghost predicate Placed(s: Sender, seg: Segment, a: nat, cuts: set<nat>) {
    Genuine(s, seg, a) && a in cuts && Uncut(cuts, a, seg.Length())
  }

  /** The same of outstanding segments, which follow each other from `base` on. */
  predicate CachePlaced(cache: seq<Outstanding>, base: int, cuts: set<nat>) {
    cache == [] ||
    var len := cache[0].segment.Length();
    base in cuts && Uncut(cuts, base, len) && CachePlaced(cache[1..], base + len, cuts)
  }

  ghost predicate QueuePlaced(s: Sender, segs: seq<Segment>, positions: seq<nat>, cuts: set<nat>) {
    |positions| == |segs| && forall k :: 0 <= k < |segs| ==> Placed(s, segs[k], positions[k], cuts)
  }

  /** Every queued or outstanding segment lies between neighbouring cuts, and no cut beyond what was sent. */
  ghost predicate CutInv(s: Sender, h: History) {
    && QueuePlaced(s, s.segmentsOut, h.queued, h.cuts)
    && CachePlaced(s.cache, Base(s), h.cuts)
    && forall c :: c in h.cuts ==> c <= s.nextSeqno
  }

  /** `cuts'` adds to `cuts` only positions from `end` on. */
  predicate Grown(cuts: set<nat>, cuts': set<nat>, end: nat) {
    cuts <= cuts' && forall c :: c in cuts' ==> c in cuts || c >= end
  }

  // ---------------------------------------------------------------- what stays in place

  lemma PlacedStays(s: Sender, s': Sender, seg: Segment, a: nat, cuts: set<nat>, cuts': set<nat>)
    requires Placed(s, seg, a, cuts) && Grown(cuts, cuts', |Sent(s)|)
    requires Sent(s) <= Sent(s') && s.isn == s'.isn
    ensures Placed(s', seg, a, cuts')
  {
    hide Sent, Genuine;
    GenuineStays(s, s', seg, a);
    GenuineEnds(s, seg, a);
  }

  lemma GenuineEnds(s: Sender, seg: Segment, a: nat)
    requires Genuine(s, seg, a)
    ensures a + seg.Length() <= |Sent(s)|
  {
  }

  lemma QueueStays(s: Sender, s': Sender, segs: seq<Segment>, positions: seq<nat>, cuts: set<nat>, cuts': set<nat>)
    requires QueuePlaced(s, segs, positions, cuts) && Grown(cuts, cuts', |Sent(s)|)
    requires Sent(s) <= Sent(s') && s.isn == s'.isn
    ensures QueuePlaced(s', segs, positions, cuts')
  {
    hide Sent, Placed, Grown;
    forall k | 0 <= k < |segs|
      ensures Placed(s', segs[k], positions[k], cuts')
    {
      PlacedStays(s, s', segs[k], positions[k], cuts, cuts');
    }
  }

  lemma {:induction false} CacheStays(cache: seq<Outstanding>, base: int, cuts: set<nat>, cuts': set<nat>, end: nat)
    requires CachePlaced(cache, base, cuts) && Grown(cuts, cuts', end) && base + |Flat(cache)| <= end
    ensures CachePlaced(cache, base, cuts')
    decreases |cache|
  {
    if cache != [] {
      FlatFirst(cache);
      CacheStays(cache[1..], base + cache[0].segment.Length(), cuts, cuts', end);
    }
  }

  /** Only the segments matter, not their timers. */
  ghost predicate SameSegments(cache: seq<Outstanding>, cache': seq<Outstanding>) {
    |cache'| == |cache| && forall k :: 0 <= k < |cache| ==> cache'[k].segment == cache[k].segment
  }

  lemma {:induction false} SamePlaced(cache: seq<Outstanding>, cache': seq<Outstanding>, base: int, cuts: set<nat>)
    requires SameSegments(cache, cache') && CachePlaced(cache, base, cuts)
    ensures CachePlaced(cache', base, cuts) && |Flat(cache')| == |Flat(cache)|
    decreases |cache|
  {
    hide Uncut, Symbols;
    if cache != [] {
      SamePlaced(cache[1..], cache'[1..], base + cache[0].segment.Length(), cuts);
    }
  }

  lemma {:induction false} SuffixPlaced(cache: seq<Outstanding>, d: nat, base: int, cuts: set<nat>)
    requires d <= |cache| && CachePlaced(cache, base, cuts)
    ensures CachePlaced(cache[d..], base + |Flat(cache)| - |Flat(cache[d..])|, cuts)
    decreases d
  {
    hide Uncut, Flat, Symbols;
    if d == 0 {
      assert cache[0..] == cache;
    } else {
      FlatFirst(cache);
      SuffixPlaced(cache[1..], d - 1, base + cache[0].segment.Length(), cuts);
      assert cache[1..][d - 1..] == cache[d..];
    }
  }

  lemma {:induction false} ConcatPlaced(a: seq<Outstanding>, b: seq<Outstanding>, base: int, cuts: set<nat>)
    requires CachePlaced(a, base, cuts) && CachePlaced(b, base + |Flat(a)|, cuts)
    ensures CachePlaced(a + b, base, cuts) && |Flat(a + b)| == |Flat(a)| + |Flat(b)|
    decreases |a|
  {
    hide Uncut, Flat, Symbols;
    if a == [] {
      assert a + b == b;
      FlatEmpty();
    } else {
      FlatFirst(a);
      ConcatPlaced(a[1..], b, base + a[0].segment.Length(), cuts);
      assert (a + b)[1..] == a[1..] + b;
      FlatFirst(a + b);
    }
  }

  /** An outstanding segment is placed where the segments before it end. */
  lemma {:induction false} OutstandingPlaced(s: Sender, cuts: set<nat>, k: nat)
    requires Tiles(s) && CachePlaced(s.cache, Base(s), cuts) && k < |s.cache|
    ensures 0 <= Base(s) && Placed(s, s.cache[k].segment, Base(s) + |Flat(s.cache[..k])|, cuts)
    decreases k
  {
    hide Tiles, Uncut, Sent, Genuine, Symbols;
    BaseIsNatural(s);
    if k == 0 {
      OldestIsGenuine(s);
      assert s.cache[..0] == [];
      FlatEmpty();
    } else {
      var rest := s.(cache := s.cache[1..]);
      DropTiles(s);
      OutstandingPlaced(rest, cuts, k - 1);
      assert s.cache[..k][1..] == rest.cache[..k - 1];
      FlatFirst(s.cache[..k]);
      SentOnlyReads(s, rest);
      GenuineStays(rest, s, rest.cache[k - 1].segment, Base(rest) + |Flat(rest.cache[..k - 1])|);
    }
  }

  lemma BaseIsNatural(s: Sender)
    requires Tiles(s)
    ensures 0 <= Base(s)
  {
  }

  // ---------------------------------------------------------------- filling the window

  lemma {:induction false} StartsFrom(segs: seq<Segment>, from: nat)
    ensures forall p :: p in Starts(segs, from) ==> p >= from
    ensures segs != [] ==> from in Starts(segs, from)
  {
    if segs != [] {
      StartsFrom(segs[1..], from + segs[0].Length());
    }
  }

  /** Consecutive segments from `from` on have no cut inside if the cuts from there on are their own. */
  lemma {:induction false} NewPlaced(cache: seq<Outstanding>, segs: seq<Segment>, from: nat, cuts: set<nat>)
    requires |cache| == |segs| && forall k :: 0 <= k < |segs| ==> cache[k].segment == segs[k]
    requires forall p :: p in Starts(segs, from) ==> p in cuts
    requires forall c :: c in cuts ==> c <= from || c in Starts(segs, from)
    ensures CachePlaced(cache, from, cuts)
    decreases |segs|
  {
    if segs != [] {
      var next := from + segs[0].Length();
      StartsFrom(segs, from);
      StartsFrom(segs[1..], next);
      assert forall p :: p in Starts(segs, from) <==> p == from || p in Starts(segs[1..], next);
      NewPlaced(cache[1..], segs[1..], next, cuts);
    }
  }

  lemma {:induction false} StartsAre(cache: seq<Outstanding>, segs: seq<Segment>, from: nat, k: nat)
    requires |cache| == |segs| && forall j :: 0 <= j < |segs| ==> cache[j].segment == segs[j]
    requires k < |segs|
    ensures Starts(segs, from)[k] == from + |Flat(cache[..k])|
    decreases k
  {
    if k == 0 {
      assert cache[..0] == [];
    } else {
      StartsAre(cache[1..], segs[1..], from + segs[0].Length(), k - 1);
      assert cache[..k][1..] == cache[1..][..k - 1];
      FlatFirst(cache[..k]);
    }
  }

  lemma FlatPrefix(a: seq<Outstanding>, b: seq<Outstanding>, k: nat)
    requires k <= |b|
    ensures |Flat((a + b)[..|a| + k])| == |Flat(a)| + |Flat(b[..k])|
  {
    assert (a + b)[..|a| + k] == a + b[..k];
    FlatLength(a, b[..k]);
  }

  lemma {:induction false} FlatLength(a: seq<Outstanding>, b: seq<Outstanding>)
    ensures |Flat(a + b)| == |Flat(a)| + |Flat(b)|
    decreases |a|
  {
    hide Symbols;
    if a == [] {
      assert a + b == b;
    } else {
      assert (a + b)[1..] == a[1..] + b;
      FlatLength(a[1..], b);
    }
  }

  lemma QueueConcat(s: Sender, a: seq<Segment>, b: seq<Segment>, p: seq<nat>, q: seq<nat>, cuts: set<nat>)
    requires QueuePlaced(s, a, p, cuts) && QueuePlaced(s, b, q, cuts)
    ensures QueuePlaced(s, a + b, p + q, cuts)
  {
    hide Placed;
  }

  /** New segments sent from the end on, queued and remembered: their positions are the cuts added. */
  lemma NewQueued(s': Sender, later: seq<Outstanding>, segs: seq<Segment>, from: nat, m: nat, cuts: set<nat>)
    requires Tiles(s') && CachePlaced(s'.cache, Base(s'), cuts)
    requires m <= |s'.cache| && later == s'.cache[m..] && from == Base(s') + |Flat(s'.cache[..m])|
    requires |later| == |segs| && forall k :: 0 <= k < |segs| ==> later[k].segment == segs[k]
    ensures QueuePlaced(s', segs, Starts(segs, from), cuts)
    ensures forall p :: p in Starts(segs, from) ==> p <= s'.nextSeqno
  {
    hide Flat, Genuine, Starts, CachePlaced, Placed, Symbols, Base, Tiles;
    var ps := Starts(segs, from);
    forall k | 0 <= k < |segs|
      ensures Placed(s', segs[k], ps[k], cuts) && ps[k] <= s'.nextSeqno
    {
      StartsAre(later, segs, from, k);
      FlatPrefix(s'.cache[..m], later, k);
      assert s'.cache[..m] + later == s'.cache;
      OutstandingPlaced(s', cuts, m + k);
      assert s'.cache[m + k].segment == segs[k];
      PlacedWithin(s', segs[k], ps[k], cuts);
      TilesLength(s');
    }
  }

  lemma TilesLength(s: Sender)
    requires Tiles(s)
    ensures |Sent(s)| == s.nextSeqno
  {
  }

  /** The cache after new segments: the old part stays in place, the new part is cut where it starts. */
  lemma CacheExtended(cache: seq<Outstanding>, later: seq<Outstanding>, segs: seq<Segment>, base: int, from: nat,
                      cuts: set<nat>, cuts': set<nat>)
    requires CachePlaced(cache, base, cuts) && base + |Flat(cache)| == from
    requires forall c :: c in cuts ==> c <= from
    requires cuts' == cuts + (set p | p in Starts(segs, from))
    requires |later| == |segs| && forall k :: 0 <= k < |segs| ==> later[k].segment == segs[k]
    ensures CachePlaced(cache + later, base, cuts') && Grown(cuts, cuts', from)
  {
    hide CachePlaced, Flat, Starts;
    StartsFrom(segs, from);
    CacheStays(cache, base, cuts, cuts', from);
    NewPlaced(later, segs, from, cuts');
    ConcatPlaced(cache, later, base, cuts');
  }

  lemma FillCuts(s: Sender, h: History)
    requires Inv(s) && Enabled(s, Fill) && CutInv(s, h)
    ensures CutInv(FillWindow(s), Note(h, s, Fill)) && Grown(h.cuts, Note(h, s, Fill).cuts, s.nextSeqno)
  {
    hide Inv, FillWindow, Unwrap, Sent, Flat, Genuine, Uncut, Starts, CachePlaced, QueuePlaced, Roomy, SkipsSyn;
    hide Grown, NewIn;
    FillWindowKeeps(s);
    SentLength(s);
    var s', h' := FillWindow(s), Note(h, s, Fill);
    SentLength(s');
    var n, m := |s.segmentsOut|, |s.cache|;
    var segs, later := s'.segmentsOut[n..], s'.cache[m..];
    assert s'.segmentsOut == s.segmentsOut + segs && s'.cache == s.cache + later;
    assert s'.cache[..m] == s.cache;
    CacheExtended(s.cache, later, segs, Base(s), s.nextSeqno, h.cuts, h'.cuts);
    NewQueued(s', later, segs, s.nextSeqno, m, h'.cuts);
    QueueStays(s, s', s.segmentsOut, h.queued, h.cuts, h'.cuts);
    QueueConcat(s', s.segmentsOut, segs, h.queued, Starts(segs, s.nextSeqno), h'.cuts);
  }

  lemma PlacedWithin(s: Sender, seg: Segment, a: nat, cuts: set<nat>)
    requires Placed(s, seg, a, cuts)
    ensures a <= |Sent(s)|
  {
  }

  lemma SentLength(s: Sender)
    requires Inv(s)
    ensures |Sent(s)| == s.nextSeqno && Tiles(s)
  {
  }

  // ---------------------------------------------------------------- the other events

  /** A step that queues nothing and keeps the outstanding segments, or some last part of them. */
  lemma QuietCuts(s: Sender, s': Sender, h: History, d: nat)
    requires Inv(s) && CutInv(s, h) && Sent(s') == Sent(s) && s'.isn == s.isn && s'.nextSeqno == s.nextSeqno
    requires d <= |s.cache| && SameSegments(s.cache[d..], s'.cache) && s'.segmentsOut == s.segmentsOut
    ensures CutInv(s', h)
  {
    hide Inv, Sent, Flat, Genuine, Uncut, CachePlaced, Placed, Symbols;
    SentLength(s);
    QueueStays(s, s', s.segmentsOut, h.queued, h.cuts, h.cuts);
    SuffixPlaced(s.cache, d, Base(s), h.cuts);
    SamePlaced(s.cache[d..], s'.cache, s.nextSeqno - |Flat(s.cache[d..])|, h.cuts);
  }

  lemma AckCuts(s: Sender, h: History, ackno: U32, win: U16)
    requires Inv(s) && CutInv(s, h)
    ensures CutInv(AckReceived(s, ackno, win), h)
  {
    hide Inv, AckReceived, Unwrap, CutInv, Sent;
    AckKeeps(s, ackno, win);
    var s' := AckReceived(s, ackno, win);
    SentOnlyReads(s, s');
    if s' != s {
      QuietCuts(s, s', h, |s.cache| - |s'.cache|);
    }
  }

  lemma TickCuts(s: Sender, h: History, ms: nat)
    requires Inv(s) && CutInv(s, h)
    ensures CutInv(Tick(s, ms), Note(h, s, Elapse(ms))) && Note(h, s, Elapse(ms)).cuts == h.cuts
  {
    hide Inv, Tick, Unwrap, Sent, Flat, Genuine, Uncut, Symbols, TimerOf, QueuePlaced;
    TickKeeps(s, ms);
    TickFrame(s, ms);
    TickSegments(s, ms);
    SentLength(s);
    var s', h' := Tick(s, ms), Note(h, s, Elapse(ms));
    var plain := s'.(segmentsOut := s.segmentsOut);
    SentOnlyReads(s', plain);
    assert s.cache[0..] == s.cache;
    QuietCuts(s, plain, h, 0);
    QueueStays(s, s', s.segmentsOut, h.queued, h.cuts, h.cuts);
    if Expired(TimerOf(s), s.now + ms, s.timeout) {
      ResentPlaced(s, h.cuts);
      var seg := s.cache[0].segment;
      PlacedStays(s, s', seg, Base(s), h.cuts, h.cuts);
      OnePlaced(s', seg, Base(s), h.cuts);
      QueueConcat(s', s.segmentsOut, [seg], h.queued, [Base(s)], h.cuts);
      assert h.cuts + (set p | p in [Max(0, Base(s))]) == h.cuts;
    } else {
      assert h' == h;
    }
  }

  /** The oldest outstanding segment is placed where it was first sent. */
  lemma ResentPlaced(s: Sender, cuts: set<nat>)
    requires Tiles(s) && CachePlaced(s.cache, Base(s), cuts) && TimerOf(s).timer.On?
    ensures s.cache != [] && Base(s) >= 0 && Base(s) in cuts && Placed(s, s.cache[0].segment, Base(s), cuts)
  {
    hide Sent, Genuine, Symbols, Tiles, Uncut;
    BaseIsNatural(s);
    OutstandingPlaced(s, cuts, 0);
    assert s.cache[..0] == [];
    FlatEmpty();
  }

  lemma OnePlaced(s: Sender, seg: Segment, a: nat, cuts: set<nat>)
    requires Placed(s, seg, a, cuts)
    ensures QueuePlaced(s, [seg], [a], cuts)
  {
    hide Genuine;
  }

  lemma TickSegments(s: Sender, ms: nat)
    requires Inv(s)
    ensures SameSegments(s.cache, Tick(s, ms).cache)
  {
    hide Inv, RemoveAcked, Unwrap;
    NothingToRemove(s, s.now + ms);
  }

  lemma EmptyCuts(s: Sender, h: History)
    requires Inv(s) && CutInv(s, h)
    ensures CutInv(SendEmpty(s), Note(h, s, Empty)) && Grown(h.cuts, Note(h, s, Empty).cuts, s.nextSeqno)
  {
    hide Inv, Unwrap, Sent, Flat, Genuine, CachePlaced, Symbols, Wrap, Low64;
    SentLength(s);
    var s', h' := SendEmpty(s), Note(h, s, Empty);
    SentOnlyReads(s, s');
    QueueStays(s, s', s.segmentsOut, h.queued, h.cuts, h'.cuts);
    CacheStays(s.cache, Base(s), h.cuts, h'.cuts, s.nextSeqno);
    EmptyGenuine(s');
  }

  /** Every enabled step keeps the segments between the cuts, and cuts only at the end of what was sent. */
  lemma StepCuts(s: Sender, h: History, e: Event)
    requires Inv(s) && CutInv(s, h) && Enabled(s, e)
    ensures CutInv(Step(s, e), Note(h, s, e)) && Grown(h.cuts, Note(h, s, e).cuts, s.nextSeqno)
  {
    hide Inv, CutInv, Unwrap, Sent, FillWindow, AckReceived, Tick, SendEmpty, Starts;
    match e
    case AppWrite(data) =>
      AppCuts(s, h, s.(stream := Step(s, e).stream));
      NoteNothing(h, s, e);
    case AppClose =>
      AppCuts(s, h, s.(stream := Step(s, e).stream));
      NoteNothing(h, s, e);
    case Fill => FillCuts(s, h);
    case Ack(ackno, win) =>
      AckCuts(s, h, ackno, win);
      NoteNothing(h, s, e);
    case Elapse(ms) => TickCuts(s, h, ms);
    case Empty => EmptyCuts(s, h);
    case Drain => DrainCuts(s, h);
  }

  lemma NoteNothing(h: History, s: Sender, e: Event)
    requires e.AppWrite? || e.AppClose? || e.Ack?
    ensures Note(h, s, e) == h
  {
  }

  lemma AppCuts(s: Sender, h: History, s': Sender)
    requires Inv(s) && CutInv(s, h) && s' == s.(stream := s'.stream)
    requires s.stream.bytes <= s'.stream.bytes && s'.stream.read == s.stream.read
    ensures CutInv(s', h)
  {
    hide Inv, Sent, CutInv, Flat;
    AppSent(s, s'.stream);
    assert s.cache[0..] == s.cache;
    QuietCuts(s, s', h, 0);
  }

  lemma DrainCuts(s: Sender, h: History)
    requires Inv(s) && CutInv(s, h)
    ensures CutInv(s.(segmentsOut := []), Note(h, s, Drain)) && Note(h, s, Drain).cuts == h.cuts
  {
    hide Inv, Sent, Flat, CachePlaced;
  }

  /** Every queued segment is genuine. */
  lemma CutInvIsHonest(s: Sender, h: History)
    requires CutInv(s, h)
    ensures Honest(s)
  {
    hide Genuine, Uncut, CachePlaced;
    forall k | 0 <= k < |s.segmentsOut|
      ensures SomewhereGenuine(s, s.segmentsOut[k])
    {
      assert Placed(s, s.segmentsOut[k], h.queued[k], h.cuts);
    }
  }

  function NoteRun(h: History, s: Sender, events: seq<Event>): History
    decreases |events|
  {
    if events == [] then h else NoteRun(Note(h, s, events[0]), Step(s, events[0]), events[1..])
  }

  /** Over every run of a sender: whatever it queues lies between neighbouring cuts, also when it is sent again. */
  lemma {:induction false} RunCuts(s: Sender, h: History, events: seq<Event>)
    requires Inv(s) && CutInv(s, h) && AllEnabled(s, events)
    ensures Inv(Run(s, events)) && CutInv(Run(s, events), NoteRun(h, s, events))
    ensures Grown(h.cuts, NoteRun(h, s, events).cuts, s.nextSeqno)
    decreases |events|
  {
    hide Inv, CutInv, Step, Note, Enabled, Sent;
    if events != [] {
      CutInvIsHonest(s, h);
      StepKeeps(s, events[0]);
      StepCuts(s, h, events[0]);
      NextGrows(s, Step(s, events[0]));
      RunCuts(Step(s, events[0]), Note(h, s, events[0]), events[1..]);
    }
  }

  lemma NextGrows(s: Sender, s': Sender)
    requires Inv(s) && Inv(s') && Sent(s) <= Sent(s')
    ensures s.nextSeqno <= s'.nextSeqno
  {
  }
}
