/**
 What the reassembler keeps and computes: the pending substrings stay disjoint,
 sorted and inside the window, and the accepted indices are exactly the union of
 the in-window parts of every push.
 */
module ReassemblyProofs {
  import opened Words
  import opened ByteStreams
  import opened StreamReassemblers

  // ---------------------------------------------------------------- what a cache holds

  predicate NodeCovers(n: Node, i: int) {
    n.start <= i < n.End()
  }

  predicate NodeHas(n: Node, i: int, b: Byte) {
    NodeCovers(n, i) && n.data[i - n.start] == b
  }

  /** Index `i` is pending. */
  predicate Covers(cache: seq<Node>, i: int) {
    exists k :: 0 <= k < |cache| && NodeCovers(cache[k], i)
  }

  /** Index `i` is pending with byte `b`. */
  predicate Has(cache: seq<Node>, i: int, b: Byte) {
    exists k :: 0 <= k < |cache| && NodeHas(cache[k], i, b)
  }

  /** Ordered as a set of nodes whose byte ranges do not meet. Empty nodes may only sit between ranges. */
  predicate Tidy(cache: seq<Node>) {
    forall i, j :: 0 <= i < j < |cache| ==> Precedes(cache[i], cache[j])
  }

  predicate Precedes(a: Node, b: Node) {
    a.End() <= b.start && (a.start == b.start ==> b.data != [])
  }

  predicate Within(cache: seq<Node>, lo: int, hi: int) {
    forall k :: 0 <= k < |cache| ==> lo <= cache[k].start && cache[k].End() <= hi
  }

  /** A cut before index `i` would fall inside the node. */
  predicate Inside(n: Node, i: int) {
    n.start < i < n.End()
  }

  /** Index `i` lies strictly inside one pending substring. */
  predicate StrictlyInside(cache: seq<Node>, i: int) {
    exists k :: 0 <= k < |cache| && Inside(cache[k], i)
  }

  function TotalLength(cache: seq<Node>): nat {
    if cache == [] then 0 else |cache[0].data| + TotalLength(cache[1..])
  }

  lemma {:induction false} TotalLengthConcat(a: seq<Node>, b: seq<Node>)
    ensures TotalLength(a + b) == TotalLength(a) + TotalLength(b)
  {
    if a == [] {
      assert a + b == b;
    } else {
      assert (a + b)[1..] == a[1..] + b;
      TotalLengthConcat(a[1..], b);
    }
  }

  lemma {:induction false} TotalLengthSplit(cache: seq<Node>, lo: nat, hi: nat)
    requires lo <= hi <= |cache|
    ensures TotalLength(cache) == TotalLength(cache[..lo]) + TotalLength(cache[lo..hi]) + TotalLength(cache[hi..])
  {
    assert cache == cache[..lo] + (cache[lo..hi] + cache[hi..]);
    TotalLengthConcat(cache[..lo], cache[lo..hi] + cache[hi..]);
    TotalLengthConcat(cache[lo..hi], cache[hi..]);
  }

  lemma {:induction false} LowerBoundIs(cache: seq<Node>, node: Node, p: nat)
    requires p <= |cache|
    requires forall k :: 0 <= k < p ==> Less(cache[k], node)
    requires p < |cache| ==> !Less(cache[p], node)
    ensures LowerBound(cache, node) == p
  {
  }

  lemma {:induction false} LexLessExtend(a: seq<Byte>, b: seq<Byte>, c: seq<Byte>)
    requires LexLess(a, b)
    ensures LexLess(a, b + c)
  {
    if a != [] && a[0] == b[0] {
      LexLessExtend(a[1..], b[1..], c);
      assert (b + c)[1..] == b[1..] + c;
    }
  }

  // ---------------------------------------------------------------- the merge loop

  /** Nothing from position `p` on is less than `node`, whichever stretch has been erased there. */
  lemma {:induction false} LowerBoundFixed(cache: seq<Node>, node: Node, k: nat)
    requires Tidy(cache) && LowerBound(cache, node) <= k <= |cache|
    ensures LowerBound(cache[..LowerBound(cache, node)] + cache[k..], node) == LowerBound(cache, node)
    ensures k < |cache| ==> node.start <= cache[k].start
  {
    var p := LowerBound(cache, node);
    if p < k < |cache| {
      assert Precedes(cache[p], cache[k]);
    }
    LowerBoundIs(cache[..p] + cache[k..], node, p);
  }

  /** First position from `k` on whose node ends after `limit`. */
  function StopAt(cache: seq<Node>, limit: nat, k: nat): (q: nat)
    requires k <= |cache|
    ensures k <= q <= |cache|
    ensures forall j :: k <= j < q ==> cache[j].End() <= limit
    ensures q < |cache| ==> limit < cache[q].End()
    decreases |cache| - k
  {
    if k < |cache| && cache[k].End() <= limit then StopAt(cache, limit, k + 1) else k
  }

  lemma EraseAt(cache: seq<Node>, p: nat, k: nat)
    requires p <= k < |cache|
    ensures (cache[..p] + cache[k..])[p] == cache[k]
    ensures Erase(cache[..p] + cache[k..], p) == cache[..p] + cache[k + 1..]
  {
  }

  lemma TotalLengthSnoc(cache: seq<Node>, k: nat, q: nat)
    requires k <= q < |cache|
    ensures TotalLength(cache[k..q + 1]) == TotalLength(cache[k..q]) + |cache[q].data|
  {
    assert cache[k..q + 1] == cache[k..q] + [cache[q]];
    TotalLengthConcat(cache[k..q], [cache[q]]);
    assert TotalLength([cache[q]]) == |cache[q].data| + TotalLength([]);
  }

  /** One turn of the merge loop. */
  lemma AbsorbTurn(cache: seq<Node>, node: Node, p: nat, k: nat, count: int)
    requires Tidy(cache) && p == LowerBound(cache, node) && p <= k <= |cache|
    ensures Absorb(cache[..p] + cache[k..], node, node.End(), count) ==
            if k == |cache| then (cache[..p] + cache[k..], node, count)
            else if cache[k].End() <= node.End() then
              Absorb(cache[..p] + cache[k + 1..], node, node.End(), count - |cache[k].data|)
            else
              var (merged, overlap) := Merge(node, cache[k]);
              (if overlap != 0 then cache[..p] + cache[k + 1..] else cache[..p] + cache[k..], merged, count - overlap)
  {
    hide LowerBound, LexLess, Tidy;
    LowerBoundFixed(cache, node, k);
    if k < |cache| {
      EraseAt(cache, p, k);
    }
  }

  /** The merge loop erases, one by one, the nodes that end within the pushed bytes. */
  lemma {:induction false} AbsorbErases(cache: seq<Node>, node: Node, p: nat, q: nat, k: nat, count: int)
    requires Tidy(cache) && p == LowerBound(cache, node) && q == StopAt(cache, node.End(), p) && p <= k <= q
    ensures Absorb(cache, node, node.End(), count) ==
            Absorb(cache[..p] + cache[k..], node, node.End(), count - TotalLength(cache[p..k]))
    decreases k
  {
    hide Absorb, LowerBound, LexLess, Tidy, StopAt;
    if k == p {
      assert cache[..p] + cache[k..] == cache;
      assert cache[p..k] == [];
    } else {
      AbsorbErases(cache, node, p, q, k - 1, count);
      AbsorbTurn(cache, node, p, k - 1, count - TotalLength(cache[p..k - 1]));
      TotalLengthSnoc(cache, p, k - 1);
    }
  }

  /** The whole merge loop: erase up to the first node that ends later, and take that one too if it shares bytes. */
  lemma {:induction false} AbsorbShape(cache: seq<Node>, node: Node, p: nat, q: nat, count: int)
    requires Tidy(cache) && p == LowerBound(cache, node) && q == StopAt(cache, node.End(), p)
    ensures q < |cache| && cache[q].start < node.End() ==>
              var merged := Merge(node, cache[q]).0;
              Absorb(cache, node, node.End(), count) ==
              (cache[..p] + cache[q + 1..], merged,
               count + |merged.data| - |node.data| - TotalLength(cache[p..q + 1]))
    ensures q == |cache| || node.End() <= cache[q].start ==>
              Absorb(cache, node, node.End(), count) ==
              (cache[..p] + cache[q..], node, count - TotalLength(cache[p..q]))
  {
    hide Absorb, LowerBound, LexLess, Tidy, StopAt;
    AbsorbErases(cache, node, p, q, q, count);
    AbsorbTurn(cache, node, p, q, count - TotalLength(cache[p..q]));
    if q < |cache| {
      TotalLengthSnoc(cache, p, q);
    }
  }

  /** Merging keeps the first node's bytes and adds exactly the second's bytes beyond its end. */
  lemma MergeHolds(a: Node, b: Node)
    requires a.start <= b.start < a.End()
    ensures var m := Merge(a, b).0;
            && m.start == a.start && m.End() == Max(a.End(), b.End())
            && (forall i :: NodeCovers(m, i) <==> NodeCovers(a, i) || NodeCovers(b, i))
            && (forall i, c :: NodeHas(m, i, c) ==> NodeHas(a, i, c) || NodeHas(b, i, c))
            && (forall i, c :: NodeHas(a, i, c) ==> NodeHas(m, i, c))
            && (forall i, c :: NodeHas(b, i, c) && !NodeCovers(a, i) ==> NodeHas(m, i, c))
            && Merge(a, b).1 == |a.data| + |b.data| - |m.data|
  {
  }

  /** `m` stands for `node` together with the nodes `cache[lo..hi]` it replaces. */
  ghost predicate Replaces(cache: seq<Node>, node: Node, lo: nat, hi: nat, m: Node) {
    && lo <= hi <= |cache|
    && (forall i :: NodeCovers(m, i) <==> NodeCovers(node, i) || Covers(cache[lo..hi], i))
    && (forall i, b :: NodeHas(m, i, b) ==> NodeHas(node, i, b) || Has(cache[lo..hi], i, b))
    && (forall i :: Inside(m, i) ==> Inside(node, i) || StrictlyInside(cache[lo..hi], i))
    && (m.start == node.start || exists k :: lo <= k < hi && m.start == cache[k].start)
    && (m.End() == node.End() || exists k :: lo <= k < hi && m.End() == cache[k].End())
    && (hi < |cache| ==> Precedes(m, cache[hi]))
  }

  lemma ReplacesErased(cache: seq<Node>, node: Node, p: nat, q: nat)
    requires p <= q <= |cache|
    requires forall k :: p <= k < q ==> node.start <= cache[k].start && cache[k].End() <= node.End()
    requires q < |cache| ==> Precedes(node, cache[q])
    ensures Replaces(cache, node, p, q, node)
  {
  }

  lemma ReplacesMerged(cache: seq<Node>, node: Node, p: nat, q: nat)
    requires Tidy(cache) && p <= q < |cache|
    requires forall k :: p <= k <= q ==> node.start <= cache[k].start
    requires forall k :: p <= k < q ==> cache[k].End() <= node.End()
    requires cache[q].start < node.End() < cache[q].End()
    ensures Replaces(cache, node, p, q + 1, Merge(node, cache[q]).0)
  {
    var last, part, m := cache[q], cache[p..q + 1], Merge(node, cache[q]).0;
    MergeHolds(node, last);
    assert m.End() == cache[q].End();
    assert part[q - p] == last;
    forall i | Covers(part, i)
      ensures NodeCovers(node, i) || NodeCovers(last, i)
    {
      var k :| 0 <= k < |part| && NodeCovers(part[k], i);
      assert part[k] == cache[p + k];
    }
    forall i | Inside(m, i)
      ensures Inside(node, i) || StrictlyInside(part, i)
    {
      assert !Inside(node, i) ==> Inside(part[q - p], i);
    }
    if q + 1 < |cache| {
      assert Precedes(cache[q], cache[q + 1]);
    }
  }

  /** The merge loop replaces a stretch of followers. */
  lemma AbsorbReplaces(cache: seq<Node>, node: Node, count: int) returns (p: nat, hi: nat, m: Node)
    requires Tidy(cache)
    ensures p == LowerBound(cache, node) && Replaces(cache, node, p, hi, m)
    ensures m.start == node.start && node.data <= m.data
    ensures Absorb(cache, node, node.End(), count) ==
            (cache[..p] + cache[hi..], m, count + |m.data| - |node.data| - TotalLength(cache[p..hi]))
  {
    hide Absorb, LowerBound, LexLess, StopAt, Replaces, TotalLength;
    p := LowerBound(cache, node);
    var q := StopAt(cache, node.End(), p);
    AbsorbShape(cache, node, p, q, count);
    forall k | p <= k < |cache|
      ensures node.start <= cache[k].start
    {
      LowerBoundFixed(cache, node, k);
    }
    if q < |cache| && cache[q].start < node.End() {
      hi, m := q + 1, Merge(node, cache[q]).0;
      ReplacesMerged(cache, node, p, q);
    } else {
      hi, m := q, node;
      ReplacesErased(cache, node, p, q);
    }
  }

  /** `m` belongs between the first `lo` nodes and the nodes from `hi` on. */
  predicate FitsBetween(cache: seq<Node>, lo: nat, hi: nat, m: Node)
    requires lo <= hi <= |cache|
  {
    && (lo > 0 ==> Precedes(cache[lo - 1], m))
    && (hi < |cache| ==> Precedes(m, cache[hi]))
  }

  function Spliced(cache: seq<Node>, lo: nat, hi: nat, m: Node): seq<Node>
    requires lo <= hi <= |cache|
  {
    cache[..lo] + [m] + cache[hi..]
  }

  lemma {:induction false} InsertSplices(cache: seq<Node>, lo: nat, hi: nat, m: Node)
    requires lo <= hi <= |cache|
    requires forall k :: 0 <= k < lo ==> Less(cache[k], m)
    requires hi < |cache| ==> Precedes(m, cache[hi])
    ensures LowerBound(cache[..lo] + cache[hi..], m) == lo
    ensures Insert(cache[..lo] + cache[hi..], m) == Spliced(cache, lo, hi, m)
  {
    var rest := cache[..lo] + cache[hi..];
    LowerBoundIs(rest, m, lo);
    assert rest[..lo] + [m] + rest[lo..] == Spliced(cache, lo, hi, m);
  }

  lemma ExtendedStaysGreater(cache: seq<Node>, node: Node, m: Node, p: nat)
    requires p <= |cache| && m.start == node.start && node.data <= m.data
    requires forall k :: 0 <= k < p ==> Less(cache[k], node)
    ensures forall k :: 0 <= k < p ==> Less(cache[k], m)
  {
    forall k | 0 <= k < p
      ensures Less(cache[k], m)
    {
      if cache[k].start == node.start {
        LexLessExtend(cache[k].data, node.data, m.data[|node.data|..]);
        assert m.data == node.data + m.data[|node.data|..];
      }
    }
  }

  /** The predecessor shares bytes with `m`: both are replaced by their merge. */
  lemma JoinReplaces(cache: seq<Node>, node: Node, p: nat, hi: nat, m: Node)
    requires Tidy(cache) && 0 < p && Replaces(cache, node, p, hi, m)
    requires cache[p - 1].start <= m.start < cache[p - 1].End()
    ensures var joined := Merge(cache[p - 1], m).0;
            && Replaces(cache, node, p - 1, hi, joined)
            && FitsBetween(cache, p - 1, hi, joined)
            && forall k :: 0 <= k < p - 1 ==> Less(cache[k], joined)
  {
    var pre := cache[p - 1];
    MergeHolds(pre, m);
    assert Merge(pre, m).0.start == cache[p - 1].start;
    var part, wide := cache[p..hi], cache[p - 1..hi];
    assert wide == [pre] + part;
    forall i
      ensures Covers(wide, i) <==> NodeCovers(pre, i) || Covers(part, i)
    {
      if Covers(part, i) {
        var k :| 0 <= k < |part| && NodeCovers(part[k], i);
        assert wide[k + 1] == part[k];
      }
      assert wide[0] == pre;
    }
    forall i, b | Has(part, i, b) || NodeHas(pre, i, b)
      ensures Has(wide, i, b)
    {
      if Has(part, i, b) {
        var k :| 0 <= k < |part| && NodeHas(part[k], i, b);
        assert wide[k + 1] == part[k];
      } else {
        assert wide[0] == pre;
      }
    }
    forall i | Inside(Merge(pre, m).0, i)
      ensures Inside(node, i) || StrictlyInside(wide, i)
    {
      if i < pre.End() {
        assert Inside(wide[0], i);
      } else if !Inside(node, i) {
        assert Inside(m, i);
        var k :| 0 <= k < |part| && Inside(part[k], i);
        assert wide[k + 1] == part[k];
      }
    }
    forall k | 0 <= k < p - 1
      ensures Less(cache[k], Merge(pre, m).0)
    {
      assert Precedes(cache[k], pre);
    }
  }

  lemma SplicedLength(cache: seq<Node>, lo: nat, hi: nat, m: Node)
    requires lo <= hi <= |cache|
    ensures TotalLength(Spliced(cache, lo, hi, m)) ==
            TotalLength(cache) - TotalLength(cache[lo..hi]) + |m.data|
  {
    TotalLengthSplit(cache, lo, hi);
    TotalLengthConcat(cache[..lo] + [m], cache[hi..]);
    TotalLengthConcat(cache[..lo], [m]);
    assert TotalLength([m]) == |m.data| + TotalLength([]);
  }

  lemma TotalLengthFirst(cache: seq<Node>, lo: nat, hi: nat)
    requires lo < hi <= |cache|
    ensures TotalLength(cache[lo..hi]) == |cache[lo].data| + TotalLength(cache[lo + 1..hi])
  {
    assert cache[lo..hi][1..] == cache[lo + 1..hi];
  }

  lemma JoinAlone(cache: seq<Node>, p: nat, hi: nat, m: Node, added: nat, count: int)
    requires p <= hi <= |cache|
    requires forall k :: 0 <= k < p ==> Less(cache[k], m)
    requires hi < |cache| ==> Precedes(m, cache[hi])
    requires p > 0 ==> cache[p - 1].End() <= m.start || m.data == []
    ensures Join(cache[..p] + cache[hi..], m, added, count) == (Spliced(cache, p, hi, m), count + added)
  {
    hide LowerBound, Less;
    InsertSplices(cache, p, hi, m);
  }

  lemma JoinTogether(cache: seq<Node>, p: nat, hi: nat, m: Node, added: nat, count: int)
    requires 0 < p <= hi <= |cache|
    requires forall k :: 0 <= k < p ==> Less(cache[k], m)
    requires hi < |cache| ==> Precedes(m, cache[hi])
    requires m.start < cache[p - 1].End() && m.data != []
    requires var joined := Merge(cache[p - 1], m).0;
             && (forall k :: 0 <= k < p - 1 ==> Less(cache[k], joined))
             && (hi < |cache| ==> Precedes(joined, cache[hi]))
    ensures var (joined, overlap) := Merge(cache[p - 1], m);
            Join(cache[..p] + cache[hi..], m, added, count) ==
            (Spliced(cache, p - 1, hi, joined), count + added - overlap)
  {
    hide LowerBound, Less;
    var joined := Merge(cache[p - 1], m).0;
    InsertSplices(cache, p, hi, m);
    InsertSplices(cache, p - 1, hi, joined);
    var rest := cache[..p] + cache[hi..];
    assert rest[p - 1] == cache[p - 1];
    assert Erase(rest, p - 1) == cache[..p - 1] + cache[hi..];
  }

  /** Where a node is stored apart from its predecessor, it comes after it. */
  lemma FollowsPredecessor(pre: Node, node: Node, m: Node)
    requires Less(pre, node) && m.start == node.start && node.data <= m.data
    requires pre.End() <= m.start || (m.data == [] && !(pre.start < m.start < pre.End()))
    ensures Precedes(pre, m)
  {
  }

  /** Storing a node replaces a stretch of the cache by one node, and the counter follows. */
  lemma StoreReplaces(cache: seq<Node>, node: Node, count: int) returns (lo: nat, hi: nat, m: Node)
    requires Tidy(cache) && count == TotalLength(cache)
    requires node.data == [] ==> !StrictlyInside(cache, node.start)
    ensures Replaces(cache, node, lo, hi, m) && FitsBetween(cache, lo, hi, m)
    ensures Store(cache, node, |node.data|, count) ==
            (Spliced(cache, lo, hi, m), TotalLength(Spliced(cache, lo, hi, m)))
  {
    hide Absorb, Join, LowerBound, LexLess, TotalLength, Spliced, Covers, Has, Tidy, NodeCovers, NodeHas;
    var p;
    p, hi, m := AbsorbReplaces(cache, node, count);
    var count' := count + |m.data| - |node.data| - TotalLength(cache[p..hi]);
    ExtendedStaysGreater(cache, node, m, p);
    if p > 0 && m.start < cache[p - 1].End() && m.data != [] {
      lo := p - 1;
      var joined := Merge(cache[lo], m).0;
      JoinReplaces(cache, node, p, hi, m);
      JoinTogether(cache, p, hi, m, |node.data|, count');
      MergeHolds(cache[lo], m);
      SplicedLength(cache, lo, hi, joined);
      TotalLengthFirst(cache, lo, hi);
      m := joined;
    } else {
      lo := p;
      JoinAlone(cache, p, hi, m, |node.data|, count');
      SplicedLength(cache, lo, hi, m);
      if p > 0 {
        FollowsPredecessor(cache[p - 1], node, m);
      }
    }
  }

  /** Every subtraction from the byte counter in the merge loop stays at zero or above. */
  predicate AbsorbStaysNonNegative(cache: seq<Node>, node: Node, limit: nat, count: int)
    decreases |cache|
  {
    var p := LowerBound(cache, node);
    p == |cache| ||
    (if cache[p].End() <= limit then
       && count >= |cache[p].data|
       && AbsorbStaysNonNegative(Erase(cache, p), node, limit, count - |cache[p].data|)
     else count >= Merge(node, cache[p]).1)
  }

  /** No unsigned subtraction of the merge loop underflows while the counter covers the cache, tidy or not. */
  lemma {:induction false} AbsorbNeverUnderflows(cache: seq<Node>, node: Node, limit: nat, count: int)
    requires count >= TotalLength(cache)
    ensures AbsorbStaysNonNegative(cache, node, limit, count)
    decreases |cache|
  {
    hide LowerBound, LexLess;
    var p := LowerBound(cache, node);
    if p < |cache| {
      TotalLengthErase(cache, p);
      if cache[p].End() <= limit {
        AbsorbNeverUnderflows(Erase(cache, p), node, limit, count - |cache[p].data|);
      }
    }
  }

  lemma TotalLengthErase(cache: seq<Node>, p: nat)
    requires p < |cache|
    ensures TotalLength(cache) == TotalLength(Erase(cache, p)) + |cache[p].data|
  {
    TotalLengthSplit(cache, p, p + 1);
    assert cache[p..p + 1] == [cache[p]];
    assert TotalLength([cache[p]]) == |cache[p].data| + TotalLength([]);
    TotalLengthConcat(cache[..p], cache[p + 1..]);
  }

  // ---------------------------------------------------------------- the cache after a push

  lemma {:induction false} SplicedTidy(cache: seq<Node>, lo: nat, hi: nat, m: Node)
    requires Tidy(cache) && lo <= hi <= |cache| && FitsBetween(cache, lo, hi, m)
    ensures Tidy(Spliced(cache, lo, hi, m))
  {
    var c := Spliced(cache, lo, hi, m);
    forall i, j | 0 <= i < j < |c|
      ensures Precedes(c[i], c[j])
    {
      if i < lo - 1 && j == lo {
        assert Precedes(cache[i], cache[lo - 1]);
      } else if i == lo && j > lo + 1 {
        assert c[j] == cache[hi + (j - lo - 1)];
        assert Precedes(cache[hi], cache[hi + (j - lo - 1)]);
      } else if i > lo {
        assert c[i] == cache[hi + (i - lo - 1)] && c[j] == cache[hi + (j - lo - 1)];
      } else if i < lo && j > lo {
        assert c[j] == cache[hi + (j - lo - 1)];
      }
    }
  }

  lemma SplicedCovers(cache: seq<Node>, node: Node, lo: nat, hi: nat, m: Node, i: int)
    requires Replaces(cache, node, lo, hi, m)
    ensures Covers(Spliced(cache, lo, hi, m), i) <==> Covers(cache, i) || NodeCovers(node, i)
  {
    var c, part := Spliced(cache, lo, hi, m), cache[lo..hi];
    if Covers(cache, i) {
      var k :| 0 <= k < |cache| && NodeCovers(cache[k], i);
      if k < lo {
        assert c[k] == cache[k];
      } else if k < hi {
        assert part[k - lo] == cache[k];
        assert c[lo] == m;
      } else {
        assert c[k - hi + lo + 1] == cache[k];
      }
    } else if NodeCovers(node, i) {
      assert c[lo] == m;
    }
    if Covers(c, i) {
      var k :| 0 <= k < |c| && NodeCovers(c[k], i);
      if k == lo {
        if Covers(part, i) {
          var j :| 0 <= j < |part| && NodeCovers(part[j], i);
          assert part[j] == cache[lo + j];
        }
      } else {
        assert c[k] == cache[if k < lo then k else hi + (k - lo - 1)];
      }
    }
  }

  lemma SplicedHas(cache: seq<Node>, node: Node, lo: nat, hi: nat, m: Node, i: int, b: Byte)
    requires Replaces(cache, node, lo, hi, m)
    requires Has(Spliced(cache, lo, hi, m), i, b)
    ensures Has(cache, i, b) || NodeHas(node, i, b)
  {
    var c, part := Spliced(cache, lo, hi, m), cache[lo..hi];
    var k :| 0 <= k < |c| && NodeHas(c[k], i, b);
    if k == lo {
      if Has(part, i, b) {
        var j :| 0 <= j < |part| && NodeHas(part[j], i, b);
        assert part[j] == cache[lo + j];
      }
    } else {
      assert c[k] == cache[if k < lo then k else hi + (k - lo - 1)];
    }
  }

  /** Storing a node, unless it is empty and inside a pending substring, keeps the cache a set of ranges. */
  lemma StoreHolds(cache: seq<Node>, node: Node, a: int, z: int)
    requires Tidy(cache) && Within(cache, a, z) && a <= node.start && node.End() <= z
    requires node.data == [] ==> !StrictlyInside(cache, node.start)
    ensures var (c, count) := Store(cache, node, |node.data|, TotalLength(cache));
            && Tidy(c) && Within(c, a, z) && count == TotalLength(c)
            && (forall i :: Covers(c, i) <==> Covers(cache, i) || NodeCovers(node, i))
            && (forall i, b :: Has(c, i, b) ==> Has(cache, i, b) || NodeHas(node, i, b))
  {
    hide Store, TotalLength, Covers, Has;
    var lo, hi, m := StoreReplaces(cache, node, TotalLength(cache));
    var c := Spliced(cache, lo, hi, m);
    SplicedTidy(cache, lo, hi, m);
    forall i
      ensures Covers(c, i) <==> Covers(cache, i) || NodeCovers(node, i)
    {
      SplicedCovers(cache, node, lo, hi, m, i);
    }
    forall i, b | Has(c, i, b)
      ensures Has(cache, i, b) || NodeHas(node, i, b)
    {
      SplicedHas(cache, node, lo, hi, m, i, b);
    }
  }

  /** The merges never join substrings that only touch: no cut falls inside a node unless it did before. */
  lemma StoreJoinsOverlaps(cache: seq<Node>, node: Node, i: int)
    requires Tidy(cache) && (node.data == [] ==> !StrictlyInside(cache, node.start))
    requires StrictlyInside(Store(cache, node, |node.data|, TotalLength(cache)).0, i)
    ensures StrictlyInside(cache, i) || Inside(node, i)
  {
    hide Store, TotalLength, Covers, Has, Tidy;
    var lo, hi, m := StoreReplaces(cache, node, TotalLength(cache));
    var c, part := Spliced(cache, lo, hi, m), cache[lo..hi];
    var k :| 0 <= k < |c| && Inside(c[k], i);
    if k == lo {
      if StrictlyInside(part, i) {
        var j :| 0 <= j < |part| && Inside(part[j], i);
        assert part[j] == cache[lo + j];
      }
    } else {
      assert c[k] == cache[if k < lo then k else hi + (k - lo - 1)];
    }
  }

  // ---------------------------------------------------------------- the invariant

  /** Index `i` was accepted: written to the output or pending. */
  predicate Accepted(r: Reassembler, i: int) {
    0 <= i < r.head || Covers(r.cache, i)
  }

  /** Byte `b` is what was accepted for index `i`. */
  predicate Stored(r: Reassembler, i: int, b: Byte) {
    (0 <= i < r.head && i < |r.output.bytes| && r.output.bytes[i] == b) || Has(r.cache, i, b)
  }

  /** Between the merges and the write-out: pending substrings start at `lo` or later. */
  predicate Consistent(r: Reassembler, lo: int) {
    && Tidy(r.cache)
    && Within(r.cache, lo, r.Limit())
    && r.unassembled == TotalLength(r.cache)
    && r.head == |r.output.bytes|
  }

  /** Holds between operations: pending substrings lie strictly above the head and below the window's end. */
  predicate Inv(r: Reassembler) {
    Consistent(r, r.head + 1) && (r.output.ended ==> r.eof)
  }

  /** The write is never short while the input is open; after the end it accepts nothing. */
  lemma {:induction false} WriteFirstKeeps(r: Reassembler)
    requires Consistent(r, r.head) && r.cache != [] && r.cache[0].start <= r.head
    ensures !r.output.ended ==> AcceptCount(r.output, r.cache[0].data) == |r.cache[0].data|
    ensures r.unassembled >= |r.cache[0].data|
    ensures var r' := WriteFirst(r);
            && Consistent(r', r'.head)
            && r'.output == r.output.(bytes := r'.output.bytes)
            && r.output.bytes <= r'.output.bytes
            && (r.output.ended ==> r'.output == r.output)
  {
    var r' := WriteFirst(r);
    forall k | 0 <= k < |r'.cache|
      ensures r'.head <= r'.cache[k].start && r'.cache[k].End() <= r'.Limit()
    {
      assert r'.cache[k] == r.cache[k + 1];
      assert Precedes(r.cache[0], r.cache[k + 1]);
    }
  }

  lemma {:induction false} WriteFirstAccepts(r: Reassembler, i: int)
    requires Consistent(r, r.head) && r.cache != [] && r.cache[0].start <= r.head && !r.output.ended
    ensures Accepted(WriteFirst(r), i) <==> Accepted(r, i)
  {
    hide Tidy, TotalLength;
    WriteFirstKeeps(r);
    var r' := WriteFirst(r);
    if Covers(r.cache, i) {
      var k :| 0 <= k < |r.cache| && NodeCovers(r.cache[k], i);
      if k > 0 {
        assert r'.cache[k - 1] == r.cache[k];
      }
    }
    if Covers(r'.cache, i) {
      var k :| 0 <= k < |r'.cache| && NodeCovers(r'.cache[k], i);
      assert r.cache[k + 1] == r'.cache[k];
    }
    assert r.cache[0].start == r.head;
    assert r.head <= i < r'.head ==> NodeCovers(r.cache[0], i);
  }

  lemma {:induction false} WriteFirstStores(r: Reassembler, i: int, b: Byte)
    requires Consistent(r, r.head) && r.cache != [] && r.cache[0].start <= r.head
    requires Stored(WriteFirst(r), i, b)
    ensures Stored(r, i, b)
  {
    hide Tidy, TotalLength;
    WriteFirstKeeps(r);
    var r' := WriteFirst(r);
    if Has(r'.cache, i, b) {
      var k :| 0 <= k < |r'.cache| && NodeHas(r'.cache[k], i, b);
      assert r.cache[k + 1] == r'.cache[k];
    } else if i >= r.head {
      assert NodeHas(r.cache[0], i, b);
    }
  }

  /** Writing out moves bytes from the cache to the output and loses none while the input is open. */
  lemma {:induction false} AssembleHolds(r: Reassembler)
    requires Consistent(r, r.head)
    ensures var r' := Assemble(r);
            && Consistent(r', r'.head + 1)
            && r'.eof == r.eof
            && r'.output == r.output.(bytes := r'.output.bytes)
            && r.output.bytes <= r'.output.bytes
            && (r.output.ended ==> r'.output == r.output)
            && (!r.output.ended ==> forall i :: Accepted(r', i) <==> Accepted(r, i))
            && (forall i, b :: Stored(r', i, b) ==> Stored(r, i, b))
    decreases |r.cache|
  {
    hide Tidy, TotalLength, Covers, Has, Accepted, Stored;
    if r.cache == [] || r.cache[0].start > r.head {
      StartsAbove(r.cache, r.head, r.Limit());
    } else {
      var r1 := WriteFirst(r);
      WriteFirstKeeps(r);
      AssembleHolds(r1);
      forall i | !r.output.ended
        ensures Accepted(r1, i) <==> Accepted(r, i)
      {
        WriteFirstAccepts(r, i);
      }
      forall i, b | Stored(r1, i, b)
        ensures Stored(r, i, b)
      {
        WriteFirstStores(r, i, b);
      }
    }
  }

  lemma StartsAbove(cache: seq<Node>, head: int, hi: int)
    requires Tidy(cache) && Within(cache, head, hi)
    requires cache == [] || cache[0].start > head
    ensures Within(cache, head + 1, hi)
  {
    forall k | 0 < k < |cache|
      ensures cache[0].start <= cache[k].start
    {
      assert Precedes(cache[0], cache[k]);
    }
  }

  // ---------------------------------------------------------------- one push

  /** No 64-bit counter is near its end. */
  predicate Small(r: Reassembler, data: seq<Byte>) {
    r.Limit() < 0x8000_0000_0000_0000 && |data| < 0x8000_0000_0000_0000
  }

  /** The one kind of push that disturbs the cache: an empty substring strictly inside a pending one. */
  predicate Disturbs(r: Reassembler, data: seq<Byte>, index: int) {
    data == [] && StrictlyInside(r.cache, index)
  }

  /** The pushed bytes include index `i`, and it is below the end of the window. */
  predicate InWindow(r: Reassembler, data: seq<Byte>, index: int, i: int) {
    index <= i < index + |data| && i < r.Limit()
  }

  predicate Pushed(data: seq<Byte>, index: int, i: int, b: Byte) {
    index <= i < index + |data| && data[i - index] == b
  }

  /** What one push did: `r'` after, `r` before. */
  ghost predicate PushEffect(r: Reassembler, data: seq<Byte>, index: int, r': Reassembler) {
    && Consistent(r', r'.head + 1)
    && r'.output == r.output.(bytes := r'.output.bytes)
    && r.output.bytes <= r'.output.bytes
    && (r.output.ended ==> r'.output == r.output)
    && (!r.output.ended ==> forall i :: Accepted(r', i) <==> Accepted(r, i) || InWindow(r, data, index, i))
    && (forall i, b :: Stored(r', i, b) ==> Stored(r, i, b) || Pushed(data, index, i, b))
  }

  /** The in-window bytes of a push, as a node. */
  function Clipped(r: Reassembler, data: seq<Byte>, index: nat): (node: Node)
    requires index < r.Limit() && index + |data| > r.head
    ensures r.head <= node.start && node.End() <= r.Limit()
    ensures node.data == [] ==> node.start == r.head || (data == [] && node.start == index)
  {
    Cut(data, index, r.head, r.Limit())
  }

  /** The bytes of `data`, which starts at `index`, from `lo` on and below `hi`. */
  function Cut(data: seq<Byte>, index: nat, lo: nat, hi: nat): (node: Node)
    requires lo <= hi && index < hi && index + |data| > lo
    ensures lo <= node.start && node.End() <= hi
    ensures node.data == [] ==> node.start == lo || (data == [] && node.start == index)
  {
    var from := if index >= lo then 0 else lo - index;
    var to := if index + |data| <= hi then |data| else hi - index;
    Node(index + from, data[from..to])
  }

  lemma ClippedIsPushed(r: Reassembler, data: seq<Byte>, index: nat, i: int, b: Byte)
    requires index < r.Limit() && index + |data| > r.head
    ensures NodeCovers(Clipped(r, data, index), i) <==> InWindow(r, data, index, i) && i >= r.head
    ensures NodeHas(Clipped(r, data, index), i, b) ==> Pushed(data, index, i, b)
  {
  }

  /** Within 64 bits, the length computed by the code is that of the in-window bytes. */
  lemma ClippedNode(r: Reassembler, data: seq<Byte>, index: U64)
    requires Small(r, data) && index < r.Limit() && index + |data| > r.head
    ensures var start := Max(index, r.head);
            var len := Low64(Min(r.Limit(), index + |data|) - start);
            var node := Clipped(r, data, index);
            len == |node.data| && Node(start, Substr(data, start - index, len)) == node
  {
    hide Low64;
    var start, stop := Max(index, r.head), Min(r.Limit(), index + |data|);
    LowSmall(stop - start);
  }

  lemma LowSmall(x: nat)
    requires x < 0x8000_0000_0000_0000
    ensures Low64(x) == x
  {
  }

  lemma AcceptHolds(r: Reassembler, data: seq<Byte>, index: U64)
    requires Consistent(r, r.head + 1) && Small(r, data) && index < r.Limit() && index + |data| > r.head
    requires !Disturbs(r, data, index)
    ensures PushEffect(r, data, index, Accept(r, data, index, index + |data|))
    ensures Accept(r, data, index, index + |data|).eof == r.eof
  {
    hide Store, Assemble, Tidy, TotalLength, Covers, Has, Substr, Low64, InWindow, Pushed, Clipped, NodeCovers, NodeHas;
    ClippedNode(r, data, index);
    var node := Clipped(r, data, index);
    StoreHolds(r.cache, node, r.head, r.Limit());
    var (cache, count) := Store(r.cache, node, |node.data|, r.unassembled);
    AssembleHolds(r.(cache := cache, unassembled := count));
    forall i
      ensures NodeCovers(node, i) <==> InWindow(r, data, index, i) && i >= r.head
    {
      ClippedIsPushed(r, data, index, i, 0);
    }
    forall i, b | NodeHas(node, i, b)
      ensures Pushed(data, index, i, b)
    {
      ClippedIsPushed(r, data, index, i, b);
    }
    InWindowIsNatural(r, data, index);
  }

  lemma InWindowIsNatural(r: Reassembler, data: seq<Byte>, index: nat)
    ensures forall i :: InWindow(r, data, index, i) ==> 0 <= i
  {
  }

  /** A push with nothing in the window leaves everything but the end flags alone. */
  lemma SkipHolds(r: Reassembler, data: seq<Byte>, index: nat, eof: bool)
    requires Inv(r) && (index >= r.Limit() || index + |data| <= r.head)
    ensures PushEffect(r, data, index, r.(eof := eof))
  {
    hide Tidy, TotalLength, Covers, Has, Pushed;
    assert forall i :: InWindow(r, data, index, i) ==> 0 <= i < r.head;
  }

  /** `EndIfDone` changes only the end flag of the output. */
  lemma EndIfDoneHolds(r: Reassembler, data: seq<Byte>, index: int, r': Reassembler)
    requires PushEffect(r, data, index, r') && r'.output.ended == r.output.ended && (r.output.ended ==> r'.eof)
    ensures var e := EndIfDone(r');
            && Inv(e)
            && PushEffect(r, data, index, e.(output := e.output.(ended := r.output.ended)))
            && e.eof == r'.eof
            && e.output.ended == (r.output.ended || (e.eof && e.unassembled == 0))
  {
    hide Tidy, TotalLength, Covers, Has, Pushed, InWindow, Accepted, Stored;
    var e := EndIfDone(r');
    assert e.(output := e.output.(ended := r.output.ended)) == r';
  }

  /**
   One push, for any contents and any overlap: the accepted indices grow by exactly the in-window part,
   every stored byte was stored before or just pushed, and once the input has ended the output is frozen.
   */
  lemma PushHolds(r: Reassembler, data: seq<Byte>, index: U64, eof: bool)
    requires Inv(r) && Small(r, data) && !Disturbs(r, data, index)
    ensures var r' := Push(r, data, index, eof);
            && Inv(r')
            && PushEffect(r, data, index, r'.(output := r'.output.(ended := r.output.ended)))
            && r'.eof == (r.eof || (eof && Low64(index + |data|) <= r.Limit()))
            && r'.output.ended == (r.output.ended || (r'.eof && r'.unassembled == 0))
  {
    hide Accept, EndIfDone, Tidy, TotalLength, Covers, Has, Pushed, InWindow, Accepted, Stored, Disturbs;
    var end := Low64(index + |data|);
    assert index < r.Limit() ==> end == index + |data|;
    var marked := r.(eof := r.eof || (eof && end <= r.Limit()));
    if index >= r.Limit() || end <= r.head {
      SkipHolds(r, data, index, marked.eof);
      EndIfDoneHolds(r, data, index, marked);
    } else {
      SameDisturbance(r, marked, data, index);
      AcceptHolds(marked, data, index);
      EffectFromMarked(r, data, index, marked.eof, Accept(marked, data, index, end));
      EndIfDoneHolds(r, data, index, Accept(marked, data, index, end));
    }
  }

  lemma EffectFromMarked(r: Reassembler, data: seq<Byte>, index: int, eof: bool, r': Reassembler)
    requires PushEffect(r.(eof := eof), data, index, r')
    ensures PushEffect(r, data, index, r')
  {
    hide Tidy, TotalLength, Covers, Has, Pushed;
    var marked := r.(eof := eof);
    assert forall i :: Accepted(marked, i) <==> Accepted(r, i);
    assert forall i, b :: Stored(marked, i, b) <==> Stored(r, i, b);
    assert forall i :: InWindow(marked, data, index, i) <==> InWindow(r, data, index, i);
  }

  lemma SameDisturbance(r: Reassembler, s: Reassembler, data: seq<Byte>, index: int)
    requires r.cache == s.cache
    ensures Disturbs(r, data, index) <==> Disturbs(s, data, index)
  {
  }

  lemma {:induction false} StoreInside(cache: seq<Node>, index: nat, k: nat, count: int)
    requires Tidy(cache) && k < |cache| && cache[k].start < index < cache[k].End()
    ensures Store(cache, Node(index, []), 0, count) == (Spliced(cache, k + 1, k + 1, Node(index, [])), count)
  {
    hide LowerBound, TotalLength;
    var node := Node(index, []);
    forall j | 0 <= j <= k
      ensures Less(cache[j], node)
    {
      assert j < k ==> Precedes(cache[j], cache[k]);
    }
    assert k + 1 < |cache| ==> Precedes(cache[k], cache[k + 1]);
    LowerBoundIs(cache, node, k + 1);
    assert Absorb(cache, node, index, count) == (cache, node, count);
    assert Join(cache, node, 0, count) == (Insert(cache, node), count);
  }

  lemma {:induction false} PushInside(r: Reassembler, index: U64, eof: bool, k: nat)
    requires Inv(r) && Small(r, []) && k < |r.cache| && r.cache[k].start < index < r.cache[k].End()
    ensures var r', c := Push(r, [], index, eof), Spliced(r.cache, k + 1, k + 1, Node(index, []));
            r' == r.(cache := c, eof := r'.eof, output := r'.output) && r'.output == r.output.(ended := r'.output.ended)
  {
    hide Store, TotalLength, Tidy;
    var marked := r.(eof := r.eof || (eof && index <= r.Limit()));
    var node := Node(index, []);
    StoreInside(r.cache, index, k, r.unassembled);
    var c := Spliced(r.cache, k + 1, k + 1, node);
    assert c[0] == r.cache[0];
    assert Low64(index + 0) == index;
    assert Low64(Min(r.Limit(), index) - index) == 0;
    assert Substr([], index - index, 0) == [];
    assert Accept(marked, [], index, index) == marked.(cache := c);
  }

  /** Where no follower meets the node, the merge loop does nothing. */
  lemma AbsorbNothing(cache: seq<Node>, node: Node, p: nat, count: int)
    requires p == LowerBound(cache, node)
    requires p < |cache| ==> node.End() < cache[p].End() && node.End() <= cache[p].start
    ensures Absorb(cache, node, node.End(), count) == (cache, node, count)
  {
    hide LowerBound;
  }

  /** Behind an empty node inside a substring, a byte of that substring finds nothing to merge with. */
  lemma {:induction false} StoreBehindGap(cache: seq<Node>, k: nat, index: nat, b: Byte, count: int)
    requires Tidy(cache) && k < |cache| && Inside(cache[k], index)
    ensures var (c, count') := Store(Spliced(cache, k + 1, k + 1, Node(index, [])), Node(index, [b]), 1, count);
            count' == count + 1 && c != [] && c[0] == cache[0]
  {
    hide LowerBound, LexLess, TotalLength, Absorb, Join, Insert;
    var gap, node := Node(index, []), Node(index, [b]);
    var c := Spliced(cache, k + 1, k + 1, gap);
    var next := k + 2;
    BehindGap(cache, cache[k + 1..], k, gap, node);
    if k + 1 < |cache| && cache[k + 1].End() <= index + 1 {
      assert Precedes(cache[k], cache[k + 1]);
      var c' := Erase(c, next);
      assert c' == cache[..k + 1] + [gap] + cache[k + 2..];
      if k + 2 < |cache| {
        assert Precedes(cache[k + 1], cache[k + 2]);
      }
      BehindGap(cache, cache[k + 2..], k, gap, node);
      AbsorbEmpty(c, node, next, count);
      AbsorbNothing(c', node, next, count);
      JoinAtGap(c', gap, node, next, count);
    } else {
      if k + 1 < |cache| {
        assert Precedes(cache[k], cache[k + 1]);
      }
      AbsorbNothing(c, node, next, count);
      JoinAtGap(c, gap, node, next, count);
    }
  }

  /** An empty follower that ends within the node is erased and counts nothing. */
  lemma AbsorbEmpty(cache: seq<Node>, node: Node, p: nat, count: int)
    requires p == LowerBound(cache, node) && p < |cache| && cache[p].data == [] && cache[p].End() <= node.End()
    ensures Absorb(cache, node, node.End(), count) == Absorb(Erase(cache, p), node, node.End(), count)
  {
    hide LowerBound;
  }

  lemma JoinAtGap(cache: seq<Node>, gap: Node, node: Node, p: nat, count: int)
    requires 0 < p == LowerBound(cache, node) && cache[p - 1] == gap && gap.data == [] && node.start == gap.start
    ensures var (c, count') := Join(cache, node, 1, count);
            count' == count + 1 && c != [] && c[0] == cache[0]
  {
    hide LowerBound;
  }

  lemma {:induction false} BehindGap(cache: seq<Node>, rest: seq<Node>, k: nat, gap: Node, node: Node)
    requires Tidy(cache) && k < |cache| && Inside(cache[k], gap.start)
    requires gap.data == [] && node.start == gap.start && |node.data| == 1
    requires rest == cache[k + 1..] || (k + 1 < |cache| && rest == cache[k + 2..])
    ensures LowerBound(cache[..k + 1] + [gap] + rest, node) == k + 2
  {
    var c := cache[..k + 1] + [gap] + rest;
    forall j | 0 <= j <= k
      ensures Less(c[j], node)
    {
      assert j < k ==> Precedes(cache[j], cache[k]);
    }
    if rest != [] {
      var j := |cache| - |rest|;
      assert c[k + 2] == cache[j];
      assert Precedes(cache[k], cache[j]);
    }
    LowerBoundIs(c, node, k + 2);
  }

  /**
   What every such push leads to: pushing the byte at that index next, which was already pending, raises the count
   of pending bytes by one.
   */
  lemma DisturbedCountsTwice(r: Reassembler, index: U64, eof: bool, b: Byte)
    requires Inv(r) && Small(r, [b]) && Disturbs(r, [], index)
    ensures Covers(r.cache, index)
    ensures Push(Push(r, [], index, eof), [b], index, false).unassembled == r.unassembled + 1
  {
    hide TotalLength, LowerBound, Tidy, Store, Push, Accept;
    var k :| 0 <= k < |r.cache| && Inside(r.cache[k], index);
    assert NodeCovers(r.cache[k], index);
    PushInside(r, index, eof, k);
    var r' := Push(r, [], index, eof);
    StoreBehindGap(r.cache, k, index, b, r.unassembled);
    PushStored(r', index, b);
    var (c, count) := Store(r'.cache, Node(index, [b]), 1, r'.unassembled);
    assert c[0].start > r'.head;
  }

  /** A byte inside the window is stored as it is. */
  lemma PushStored(r: Reassembler, index: U64, b: Byte)
    requires r.head < index < r.Limit() && Small(r, [b])
    ensures var (c, count) := Store(r.cache, Node(index, [b]), 1, r.unassembled);
            c != [] && c[0].start > r.head ==> Push(r, [b], index, false).unassembled == count
  {
    hide Store, Substr;
    assert Low64(index + 1) == index + 1;
    assert Low64(Min(r.Limit(), index + 1) - index) == 1;
    SubstrAll(b);
  }

  lemma SubstrAll(b: Byte)
    ensures Substr([b], 0, 1) == [b]
  {
  }

  /** Exactly the pushes that disturb the cache break the invariant. */
  lemma {:induction false} PushKeepsInvariant(r: Reassembler, data: seq<Byte>, index: U64, eof: bool)
    requires Inv(r) && Small(r, data)
    ensures Inv(Push(r, data, index, eof)) <==> !Disturbs(r, data, index)
  {
    hide Push, TotalLength, LowerBound;
    if Disturbs(r, data, index) {
      var k :| 0 <= k < |r.cache| && Inside(r.cache[k], index);
      PushInside(r, index, eof, k);
      var c := Spliced(r.cache, k + 1, k + 1, Node(index, []));
      assert c[k] == r.cache[k] && c[k + 1] == Node(index, []);
      assert !Precedes(c[k], c[k + 1]);
    } else {
      PushHolds(r, data, index, eof);
    }
  }

  /** Writing out only takes nodes away. */
  lemma {:induction false} AssembleDrops(r: Reassembler, i: int)
    requires StrictlyInside(Assemble(r).cache, i)
    ensures StrictlyInside(r.cache, i)
    decreases |r.cache|
  {
    if r.cache != [] && r.cache[0].start <= r.head {
      AssembleDrops(WriteFirst(r), i);
      var k :| 0 <= k < |WriteFirst(r).cache| && Inside(WriteFirst(r).cache[k], i);
      assert r.cache[k + 1] == WriteFirst(r).cache[k];
    }
  }

  /** One push: an index strictly inside a pending substring was so before, or is strictly inside what was pushed. */
  lemma PushJoinsOverlaps(r: Reassembler, data: seq<Byte>, index: U64, eof: bool, i: int)
    requires Inv(r) && Small(r, data) && !Disturbs(r, data, index)
    requires StrictlyInside(Push(r, data, index, eof).cache, i)
    ensures StrictlyInside(r.cache, i) || index < i < index + |data|
  {
    hide Store, Assemble, Tidy, TotalLength, Substr, Low64, StrictlyInside;
    var end := Low64(index + |data|);
    if index < r.Limit() && end > r.head {
      EndFits(r, data, index);
      ClippedNode(r, data, index);
      var node := Clipped(r, data, index);
      var (cache, count) := Store(r.cache, node, |node.data|, r.unassembled);
      var marked := r.(eof := r.eof || (eof && end <= r.Limit()), cache := cache, unassembled := count);
      AssembleDrops(marked, i);
      ClippedInside(r, data, index);
      StoreJoinsOverlaps(r.cache, node, i);
    }
  }

  lemma EndFits(r: Reassembler, data: seq<Byte>, index: U64)
    requires Small(r, data) && index < r.Limit()
    ensures Low64(index + |data|) == index + |data|
  {
  }

  lemma ClippedInside(r: Reassembler, data: seq<Byte>, index: nat)
    requires Inv(r) && index < r.Limit() && index + |data| > r.head && !Disturbs(r, data, index)
    ensures Clipped(r, data, index).data == [] ==> !StrictlyInside(r.cache, Clipped(r, data, index).start)
    ensures forall i :: Inside(Clipped(r, data, index), i) ==> index < i < index + |data|
  {
    hide Tidy, TotalLength;
  }
}
