/**
 The stream reassembler (stream_reassembler.hh and .cc): substrings arrive in any
 order, overlap in any way, and are written to a byte stream as soon as they are
 contiguous. The ordered set of pending substrings is a sorted sequence of nodes.
 */
module StreamReassemblers {
  import opened Words
  import opened ByteStreams

  /** A pending substring and the stream index of its first byte. */
  datatype Node = Node(start: nat, data: seq<Byte>)
  {
    function End(): nat {
      start + |data|
    }
  }

  /** `std::string` order: lexicographic on unsigned bytes, a proper prefix is smaller. */
  predicate LexLess(a: seq<Byte>, b: seq<Byte>) {
    if b == [] then false
    else if a == [] then true
    else a[0] < b[0] || (a[0] == b[0] && LexLess(a[1..], b[1..]))
  }

  /** `std::pair` order, the order of the set. */
  predicate Less(a: Node, b: Node) {
    a.start < b.start || (a.start == b.start && LexLess(a.data, b.data))
  }

  /** `std::set::lower_bound`: position of the first element not less than `node`. */
  function LowerBound(cache: seq<Node>, node: Node): (p: nat)
    ensures p <= |cache|
    ensures forall k :: 0 <= k < p ==> Less(cache[k], node)
    ensures p < |cache| ==> !Less(cache[p], node)
  {
    if cache == [] || !Less(cache[0], node) then 0
    else 1 + LowerBound(cache[1..], node)
  }

  function Erase(cache: seq<Node>, p: nat): seq<Node>
    requires p < |cache|
  {
    cache[..p] + cache[p + 1..]
  }

  /** `std::set::insert`: an equal element is not inserted twice. */
  function Insert(cache: seq<Node>, node: Node): seq<Node> {
    var p := LowerBound(cache, node);
    if p < |cache| && cache[p] == node then cache else cache[..p] + [node] + cache[p..]
  }

  /** `pa` extended by the part of `pb` beyond it, and how many bytes of `pb` were already in `pa`. */
  function Merge(pa: Node, pb: Node): (Node, nat) {
    if pa.End() <= pb.start then (pa, 0)
    else if pa.End() >= pb.End() then (pa, |pb.data|)
    else
      var overlap := pa.End() - pb.start;
      (pa.(data := pa.data + pb.data[overlap..]), overlap)
  }

  /** The merge loop over the nodes after `node`; `limit` is where the pushed bytes end. */
  function Absorb(cache: seq<Node>, node: Node, limit: nat, count: int): (seq<Node>, Node, int)
    decreases |cache|
  {
    var p := LowerBound(cache, node);
    if p == |cache| then (cache, node, count)
    else if cache[p].End() <= limit then Absorb(Erase(cache, p), node, limit, count - |cache[p].data|)
    else
      var (merged, overlap) := Merge(node, cache[p]);
      (if overlap != 0 then Erase(cache, p) else cache, merged, count - overlap)
  }

  /** The merge with the node before `node`, `added` being the number of pushed bytes. */
  function Join(cache: seq<Node>, node: Node, added: nat, count: int): (seq<Node>, int) {
    var p := LowerBound(cache, node);
    if p > 0 then
      var (joined, overlap) := Merge(cache[p - 1], node);
      (if overlap == 0 then Insert(cache, node) else Insert(Erase(cache, p - 1), joined), count + added - overlap)
    else (Insert(cache, node), count + added)
  }

  /** Both merges: the cache with `len` pushed bytes `node` stored in it, and the new byte count. */
  function Store(cache: seq<Node>, node: Node, len: nat, count: int): (seq<Node>, int) {
    var (rest, merged, count') := Absorb(cache, node, node.start + len, count);
    Join(rest, merged, len, count')
  }

  datatype Reassembler = Reassembler(cache: seq<Node>, unassembled: int, head: nat, eof: bool, output: Stream)
  {
    /** First stream index beyond the window. */
    function Limit(): int {
      head + output.Remaining()
    }
  }

  function New(capacity: nat): Reassembler {
    Reassembler([], 0, 0, false, Log(capacity, [], 0, false, false))
  }

  /** One turn of the write-out loop. */
  function WriteFirst(r: Reassembler): Reassembler
    requires r.cache != []
  {
    var data := r.cache[0].data;
    r.(cache := r.cache[1..],
       unassembled := r.unassembled - |data|,
       head := r.head + AcceptCount(r.output, data),
       output := Write(r.output, data))
  }

  function Assemble(r: Reassembler): Reassembler
    decreases |r.cache|
  {
    if r.cache == [] || r.cache[0].start > r.head then r else Assemble(WriteFirst(r))
  }

  function EndIfDone(r: Reassembler): Reassembler {
    if r.eof && r.unassembled == 0 then r.(output := EndInput(r.output)) else r
  }

  /** `std::string::substr` with both ends clamped to the string. */
  function Substr(data: seq<Byte>, pos: nat, len: nat): seq<Byte> {
    if pos >= |data| then [] else data[pos..Min(pos + len, |data|)]
  }

  /** Clip the substring to the window, store it, and write out what became contiguous. */
  function Accept(r: Reassembler, data: seq<Byte>, index: U64, end: U64): Reassembler {
    var start := Max(index, r.head);
    var len := Low64(Min(r.Limit(), end) - start);
    var (cache, count) := Store(r.cache, Node(start, Substr(data, start - index, len)), len, r.unassembled);
    Assemble(r.(cache := cache, unassembled := count))
  }

  /** `push_substring`: the end of the substring is computed in 64 bits and may wrap. */
  function Push(r: Reassembler, data: seq<Byte>, index: U64, eof: bool): Reassembler {
    var end := Low64(index + |data|);
    var marked := r.(eof := r.eof || (eof && end <= r.Limit()));
    if index >= r.Limit() || end <= r.head then EndIfDone(marked)
    else EndIfDone(Accept(marked, data, index, end))
  }

  /** The reader consumes up to `len` bytes of the output. */
  function ReadOut(r: Reassembler, len: nat): Reassembler {
    r.(output := Pop(r.output, len))
  }

  // ---------------------------------------------------------------- the class

  class StreamReassembler {
    const output: ByteStream
    var unassembledBytes: int
    var headIndex: nat
    var cache: seq<Node>
    var eof: bool

    ghost predicate Valid()
      reads this, output, output.buf
    {
      output.Valid()
    }

    ghost function Abs(): Reassembler
      requires Valid()
      reads this, output, output.buf
    {
      Reassembler(cache, unassembledBytes, headIndex, eof, output.Abs())
    }

    constructor (capacity: nat)
      ensures Valid() && fresh(output) && fresh(output.buf)
      ensures Abs() == New(capacity)
    {
      output := new ByteStream(capacity);
      unassembledBytes, headIndex, cache, eof := 0, 0, [], false;
    }

    /** Extends the first argument in place in the source; here the extended node is returned. */
    static method MergeNodes(pa: Node, pb: Node) returns (extended: Node, overlap: nat)
      ensures (extended, overlap) == Merge(pa, pb)
    {
      if pa.End() <= pb.start {
        return pa, 0;
      }
      if pa.End() >= pb.End() {
        return pa, |pb.data|;
      }
      overlap := pa.End() - pb.start;
      extended := pa.(data := pa.data + pb.data[overlap..]);
    }

    method AssembleString()
      requires Valid()
      modifies this, output, output.buf
      ensures Valid() && Abs() == Assemble(old(Abs()))
    {
      hide Write, AcceptCount;
      while cache != []
        invariant Valid()
        invariant Assemble(Abs()) == Assemble(old(Abs()))
        decreases |cache|
      {
        if cache[0].start > headIndex {
          break;
        }
        var str := cache[0].data;
        var written := output.WriteBytes(str);
        cache := cache[1..];
        unassembledBytes := unassembledBytes - |str|;
        headIndex := headIndex + written;
      }
    }

    method AbsorbFollowers(pushed: Node, limit: nat) returns (node: Node)
      modifies `cache, `unassembledBytes
      ensures (cache, node, unassembledBytes) == Absorb(old(cache), pushed, limit, old(unassembledBytes))
    {
      hide LowerBound, LexLess, Merge;
      var p := LowerBound(cache, pushed);
      while p < |cache| && cache[p].End() <= limit
        invariant p == LowerBound(cache, pushed)
        invariant Absorb(cache, pushed, limit, unassembledBytes) ==
                  Absorb(old(cache), pushed, limit, old(unassembledBytes))
        decreases |cache|
      {
        unassembledBytes := unassembledBytes - |cache[p].data|;
        cache := Erase(cache, p);
        p := LowerBound(cache, pushed);
      }
      node := pushed;
      if p < |cache| {
        var overlap;
        node, overlap := MergeNodes(node, cache[p]);
        if overlap != 0 {
          cache := Erase(cache, p);
        }
        unassembledBytes := unassembledBytes - overlap;
      }
    }

    method JoinPredecessor(node: Node, len: nat)
      modifies `cache, `unassembledBytes
      ensures (cache, unassembledBytes) == Join(old(cache), node, len, old(unassembledBytes))
    {
      var p := LowerBound(cache, node);
      if p != 0 {
        var joined, overlap := MergeNodes(cache[p - 1], node);
        if overlap == 0 {
          cache := Insert(cache, node);
        } else {
          cache := Erase(cache, p - 1);
          cache := Insert(cache, joined);
        }
        unassembledBytes := unassembledBytes + len;
        unassembledBytes := unassembledBytes - overlap;
      } else {
        cache := Insert(cache, node);
        unassembledBytes := unassembledBytes + len;
      }
    }

    method StoreNode(pushed: Node, len: nat)
      modifies `cache, `unassembledBytes
      ensures (cache, unassembledBytes) == Store(old(cache), pushed, len, old(unassembledBytes))
    {
      hide Absorb, Join;
      var node := AbsorbFollowers(pushed, pushed.start + len);
      JoinPredecessor(node, len);
    }

    method PushInWindow(data: seq<Byte>, index: U64, end: U64)
      requires Valid()
      modifies this, output, output.buf
      ensures Valid() && Abs() == Accept(old(Abs()), data, index, end)
    {
      hide Store, Assemble, Low64, Substr;
      var start := Max(index, headIndex);
      var len := Low64(Min(headIndex + output.RemainingCapacity(), end) - start);
      StoreNode(Node(start, Substr(data, start - index, len)), len);
      AssembleString();
    }

    method PushSubstring(data: seq<Byte>, index: U64, isEof: bool)
      requires Valid()
      modifies this, output, output.buf
      ensures Valid() && Abs() == Push(old(Abs()), data, index, isEof)
    {
      var limit := headIndex + output.RemainingCapacity();
      var end := Low64(index + |data|);
      if end <= limit {
        eof := eof || isEof;
      }
      if !(index >= limit || end <= headIndex) {
        PushInWindow(data, index, end);
      }
      if unassembledBytes == 0 && eof {
        output.End();
      }
    }
  }
}
