/** A run of four true slices, one of them empty, after which the output is not a prefix of the stream. */
module EmptySlice {
  import opened Words
  import opened ByteStreams
  import opened StreamReassemblers
  import opened ReassemblyProofs
  import opened ReassemblyRuns
  import opened StreamIntegrity

  /** The pushes of the counterexample: true slices of 10, 11, 12, 13, the second of them empty. */
  function CorruptingRun(): seq<Event> {
    [PushEvent([11, 12], 1, false), PushEvent([], 2, false), PushEvent([12], 2, false), PushEvent([10], 0, false)]
  }

  function Snapshot(cache: seq<Node>, unassembled: int, written: seq<Byte>): Reassembler
    requires |written| <= 8
  {
    Reassembler(cache, unassembled, |written|, false, Log(8, written, 0, false, false))
  }

  lemma {:induction false} AcceptSnapshot(cache: seq<Node>, count: int, data: seq<Byte>, index: U64)
    requires index < 8 && 0 < index + |data| <= 8
    ensures var (cache', count') := Store(cache, Node(index, data), |data|, count);
            Accept(Snapshot(cache, count, []), data, index, index + |data|) == Assemble(Snapshot(cache', count', []))
  {
    hide Store, Assemble, Low64, Substr;
    var r := Snapshot(cache, count, []);
    ClippedNode(r, data, index);
    assert Clipped(r, data, index) == Node(index, data);
  }

  lemma {:induction false} PushSnapshot(cache: seq<Node>, count: int, data: seq<Byte>, index: U64,
                                        cache': seq<Node>, count': nat)
    requires index < 8 && 0 < index + |data| <= 8
    requires Store(cache, Node(index, data), |data|, count) == (cache', count')
    ensures Push(Snapshot(cache, count, []), data, index, false) == Assemble(Snapshot(cache', count', []))
  {
    hide Store, Assemble, Accept;
    AcceptSnapshot(cache, count, data, index);
    AssembleKeepsEof(Snapshot(cache', count', []));
  }

  lemma {:induction false} AssembleSnapshot(n: Node, cache: seq<Node>, count: int, written: seq<Byte>)
    requires n.start <= |written| && |written| + |n.data| <= 8
    ensures Assemble(Snapshot([n] + cache, count, written)) ==
            Assemble(Snapshot(cache, count - |n.data|, written + n.data))
  {
    hide Assemble;
    var r := Snapshot([n] + cache, count, written);
    assert WriteFirst(r) == Snapshot(cache, count - |n.data|, written + n.data);
    AssembleTurn(r);
  }

  lemma AssembleTurn(r: Reassembler)
    requires r.cache != [] && r.cache[0].start <= r.head
    ensures Assemble(r) == Assemble(WriteFirst(r))
  {
  }

  lemma {:induction false} CorruptingWrites(first: Node, a: Node, gap: Node, again: Node)
    requires first == Node(0, [10]) && a == Node(1, [11, 12]) && gap == Node(2, []) && again == Node(2, [12])
    ensures Assemble(Snapshot([first, a, gap, again], 4, [])) == Snapshot([], 0, [10, 11, 12, 12])
  {
    hide Assemble, Snapshot;
    AssembleSnapshot(first, [a, gap, again], 4, []);
    assert [first] + [a, gap, again] == [first, a, gap, again] && [] + [10] == [10];
    AssembleSnapshot(a, [gap, again], 3, [10]);
    assert [a] + [gap, again] == [a, gap, again] && [10] + [11, 12] == [10, 11, 12];
    AssembleSnapshot(gap, [again], 1, [10, 11, 12]);
    assert [gap] + [again] == [gap, again] && [10, 11, 12] + [] == [10, 11, 12];
    AssembleSnapshot(again, [], 1, [10, 11, 12]);
    assert [again] + [] == [again] && [10, 11, 12] + [12] == [10, 11, 12, 12];
    AssembleEmpty(0, [10, 11, 12, 12]);
  }

  lemma AssembleEmpty(count: int, written: seq<Byte>)
    requires |written| <= 8
    ensures Assemble(Snapshot([], count, written)) == Snapshot([], count, written)
  {
  }

  lemma AssembleIdle(cache: seq<Node>, count: int)
    requires cache != [] && cache[0].start > 0
    ensures Assemble(Snapshot(cache, count, [])) == Snapshot(cache, count, [])
  {
  }

  lemma {:induction false} CorruptingPushes(a: Node, gap: Node, again: Node)
    requires a == Node(1, [11, 12]) && gap == Node(2, []) && again == Node(2, [12])
    ensures Push(Snapshot([], 0, []), [11, 12], 1, false) == Snapshot([a], 2, [])
    ensures Push(Snapshot([a], 2, []), [], 2, false) == Snapshot([a, gap], 2, [])
    ensures Push(Snapshot([a, gap], 2, []), [12], 2, false) == Snapshot([a, gap, again], 3, [])
  {
    hide Push, Store, Assemble, Snapshot;
    StoreAlone([], a, 0);
    assert [] + [a] == [a];
    PushSnapshot([], 0, [11, 12], 1, [a], 2);
    AssembleIdle([a], 2);
    StoreInside([a], 2, 0, 2);
    assert Spliced([a], 1, 1, gap) == [a, gap];
    PushSnapshot([a], 2, [], 2, [a, gap], 2);
    AssembleIdle([a, gap], 2);
    StoreAlone([a, gap], again, 2);
    assert [a, gap] + [again] == [a, gap, again];
    PushSnapshot([a, gap], 2, [12], 2, [a, gap, again], 3);
    AssembleIdle([a, gap, again], 3);
  }

  lemma {:induction false} CorruptingLast(first: Node, a: Node, gap: Node, again: Node)
    requires first == Node(0, [10]) && a == Node(1, [11, 12]) && gap == Node(2, []) && again == Node(2, [12])
    ensures Push(Snapshot([a, gap, again], 3, []), [10], 0, false) == Snapshot([], 0, [10, 11, 12, 12])
  {
    hide Push, Assemble, Snapshot, LexLess;
    assert Store([a, gap, again], first, 1, 3) == ([first, a, gap, again], 4) by {
      LowerBoundIs([a, gap, again], first, 0);
      assert Insert([a, gap, again], first) == [first, a, gap, again];
    }
    PushSnapshot([a, gap, again], 3, [10], 0, [first, a, gap, again], 4);
    CorruptingWrites(first, a, gap, again);
  }

  /** A node after all others, not reaching back into the last of them, is appended. */
  lemma {:induction false} StoreAlone(cache: seq<Node>, node: Node, count: int)
    requires forall k :: 0 <= k < |cache| ==>
               cache[k].start < node.start || (cache[k].start == node.start && cache[k].data == [])
    requires node.data != [] && (cache != [] ==> cache[|cache| - 1].End() <= node.start)
    ensures Store(cache, node, |node.data|, count) == (cache + [node], count + |node.data|)
  {
    LowerBoundIs(cache, node, |cache|);
    assert cache[..|cache|] + [node] + cache[|cache|..] == cache + [node];
  }

  /** An empty slice strictly inside a pending one hides it from the next merge, and a byte is delivered twice. */
  lemma {:induction false} EmptySliceCorrupts()
    ensures forall e :: e in CorruptingRun() ==> Slice([10, 11, 12, 13], e.data, e.index, e.eof)
    ensures Run(New(8), CorruptingRun()).output.bytes == [10, 11, 12, 12]
  {
    hide Push, Snapshot;
    var a, gap, again := Node(1, [11, 12]), Node(2, []), Node(2, [12]);
    CorruptingPushes(a, gap, again);
    CorruptingLast(Node(0, [10]), a, gap, again);
    SnapshotBytes([], 0, [10, 11, 12, 12]);
    var events := CorruptingRun();
    assert Run(New(8), events) == Run(Snapshot([a], 2, []), events[1..]);
    assert Run(Snapshot([a], 2, []), events[1..]) == Run(Snapshot([a, gap], 2, []), events[2..]);
    assert Run(Snapshot([a, gap], 2, []), events[2..]) == Run(Snapshot([a, gap, again], 3, []), events[3..]);
  }

  lemma SnapshotBytes(cache: seq<Node>, unassembled: int, written: seq<Byte>)
    requires |written| <= 8
    ensures Snapshot(cache, unassembled, written).output.bytes == written
    ensures Snapshot([], 0, []) == New(8)
  {
  }
}
