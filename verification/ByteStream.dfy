/**
 The in-order byte stream (byte_stream.cc): a fixed ring buffer whose meaning is
 an unbounded log of every byte ever accepted, of which a prefix has been read.
 */
module ByteStreams {
  import opened Words

  /** The meaning of a byte stream: everything written, how much of it was read, and two flags. */
  datatype Log = Log(capacity: nat, bytes: seq<Byte>, read: nat, ended: bool, error: bool)
  {
    predicate Valid() {
      read <= |bytes| <= read + capacity
    }

    function Buffered(): int {
      |bytes| - read
    }

    function Remaining(): int {
      capacity - Buffered()
    }

    predicate Eof() {
      ended && Buffered() == 0
    }
  }

  type Stream = s: Log | s.Valid() witness Log(0, [], 0, false, false)

  /** How many bytes of `data` a write accepts. */
  function AcceptCount(s: Stream, data: seq<Byte>): (n: nat)
    ensures n <= |data|
  {
    if s.ended then 0 else Min(s.Remaining(), |data|)
  }

  function Write(s: Stream, data: seq<Byte>): Stream {
    s.(bytes := s.bytes + data[..AcceptCount(s, data)])
  }

  function Peek(s: Stream, len: nat): seq<Byte> {
    s.bytes[s.read..s.read + Min(s.Buffered(), len)]
  }

  function Pop(s: Stream, len: nat): Stream {
    s.(read := s.read + Min(s.Buffered(), len))
  }

  function EndInput(s: Stream): Stream {
    s.(ended := true)
  }

  function SetError(s: Stream): Stream {
    s.(error := true)
  }

  // ---------------------------------------------------------------- whole runs

  datatype Op = OpWrite(data: seq<Byte>) | OpRead(len: nat) | OpEnd

  function Apply(s: Stream, op: Op): Stream {
    match op
    case OpWrite(data) => Write(s, data)
    case OpRead(len) => Pop(s, len)
    case OpEnd => EndInput(s)
  }

  /** The stream after a run, what the run read, and what it had accepted, in order. */
  function RunOps(s: Stream, ops: seq<Op>): (Stream, seq<Byte>, seq<Byte>)
    decreases |ops|
  {
    if ops == [] then (s, [], [])
    else
      var (s', taken, given) := RunOps(Apply(s, ops[0]), ops[1..]);
      match ops[0]
      case OpWrite(data) => (s', taken, data[..AcceptCount(s, data)] + given)
      case OpRead(len) => (s', Peek(s, len) + taken, given)
      case OpEnd => (s', taken, given)
  }

  /**
   First in, first out over every run: the log grows by exactly what was accepted, what was read is
   the next stretch of that log, nothing is skipped or read twice, and nothing is accepted after the end.
   */
  lemma {:induction false} RunConserves(s: Stream, ops: seq<Op>)
    ensures var (s', taken, given) := RunOps(s, ops);
            && s'.bytes == s.bytes + given
            && s.read <= s'.read
            && taken == s'.bytes[s.read..s'.read]
            && (s.ended ==> s'.ended && given == [])
    decreases |ops|
  {
    hide Apply, Peek, AcceptCount;
    if ops != [] {
      var next := Apply(s, ops[0]);
      ApplyEffect(s, ops[0]);
      RunConserves(next, ops[1..]);
      var (s', taken, given) := RunOps(next, ops[1..]);
      match ops[0]
      case OpWrite(data) =>
        assert s'.bytes == s.bytes + (data[..AcceptCount(s, data)] + given);
      case OpRead(len) =>
        SplitSlice(s.bytes, s'.bytes, s.read, next.read, s'.read);
      case OpEnd =>
    }
  }

  lemma ApplyEffect(s: Stream, op: Op)
    ensures var next := Apply(s, op);
            && s.read <= next.read && (s.ended ==> next.ended)
            && (op.OpWrite? ==> next == Write(s, op.data) && next.read == s.read)
            && (op.OpWrite? ==> next.bytes == s.bytes + op.data[..AcceptCount(s, op.data)])
            && (op.OpRead? ==> next.bytes == s.bytes && Peek(s, op.len) == s.bytes[s.read..next.read])
            && (op.OpEnd? ==> next.bytes == s.bytes && next.read == s.read && next.ended)
            && (op.OpWrite? && s.ended ==> AcceptCount(s, op.data) == 0)
  {
  }

  /** An open stream takes all that is offered or is full afterwards; an ended one takes nothing. */
  lemma WriteFills(s: Stream, data: seq<Byte>)
    ensures var s' := Write(s, data);
            && s' == s.(bytes := s'.bytes)
            && (s.ended ==> s'.bytes == s.bytes)
            && (!s.ended ==> s'.bytes == s.bytes + data || (s'.Remaining() == 0 && s'.bytes < s.bytes + data))
  {
    var n := AcceptCount(s, data);
    assert s.bytes + data[..n] <= s.bytes + data;
  }

  /** A read takes as much as is asked for or empties the stream, from where the last read stopped. */
  lemma ReadTakes(s: Stream, len: nat)
    ensures var s', taken := Pop(s, len), Peek(s, len);
            && s' == s.(read := s.read + |taken|)
            && taken == s.bytes[s.read..s.read + |taken|]
            && |taken| <= len && (|taken| == len || s'.Buffered() == 0)
  {
  }

  /** The input of a run has ended exactly when it had before or some operation ended it. */
  lemma {:induction false} RunEnds(s: Stream, ops: seq<Op>)
    ensures RunOps(s, ops).0.ended <==> s.ended || exists k :: 0 <= k < |ops| && ops[k].OpEnd?
    decreases |ops|
  {
    if ops != [] {
      RunEnds(Apply(s, ops[0]), ops[1..]);
      assert forall k :: 0 < k < |ops| ==> ops[k] == ops[1..][k - 1];
    }
  }

  /** In every run, a byte offered is refused only when the buffer is full after the write or the input has ended. */
  lemma RunRefuses(s: Stream, ops: seq<Op>, data: seq<Byte>)
    requires !s.ended && forall k :: 0 <= k < |ops| ==> !ops[k].OpEnd?
    ensures var before, after := RunOps(s, ops).0, RunOps(s, ops + [OpWrite(data)]).0;
            after.bytes == before.bytes + data || after.Remaining() == 0
  {
    hide RunOps, Write, AcceptCount;
    RunEnds(s, ops);
    RunSnoc(s, ops, OpWrite(data));
    WriteFills(RunOps(s, ops).0, data);
  }

  lemma {:induction false} RunSnoc(s: Stream, ops: seq<Op>, op: Op)
    ensures RunOps(s, ops + [op]).0 == Apply(RunOps(s, ops).0, op)
    decreases |ops|
  {
    hide Apply;
    if ops == [] {
      assert ops + [op] == [op];
      assert RunOps(Apply(s, op), [op][1..]).0 == Apply(s, op);
    } else {
      RunSnoc(Apply(s, ops[0]), ops[1..], op);
      assert (ops + [op])[1..] == ops[1..] + [op];
    }
  }

  lemma SplitSlice(a: seq<Byte>, b: seq<Byte>, i: nat, j: nat, k: nat)
    requires i <= j <= |a| && a <= b && j <= k <= |b|
    ensures a[i..j] + b[j..k] == b[i..k]
  {
  }

  // ---------------------------------------------------------------- ring positions

  /** The ring slot of log position `i`. */
  function Slot(i: nat, capacity: nat): (k: nat)
    requires capacity > 0
    ensures k < capacity
  {
    i % capacity
  }

  lemma MultipleIsFar(d: int, capacity: nat)
    ensures d >= 1 ==> d * capacity >= capacity
    ensures d <= -1 ==> d * capacity <= 0 - capacity
  {
  }

  lemma SlotUnique(i: nat, q: int, r: nat, capacity: nat)
    requires r < capacity && i == q * capacity + r
    ensures Slot(i, capacity) == r
  {
    var d := i / capacity - q;
    MultipleIsFar(d, capacity);
    assert d * capacity == r - Slot(i, capacity);
  }

  lemma SlotAdd(i: nat, n: nat, capacity: nat)
    requires capacity > 0
    ensures Slot(Slot(i, capacity) + n, capacity) == Slot(i + n, capacity)
  {
    var q, q', r := i / capacity, (Slot(i, capacity) + n) / capacity, Slot(Slot(i, capacity) + n, capacity);
    assert i + n == (q + q') * capacity + r;
    SlotUnique(i + n, q + q', r, capacity);
  }

  /** Advancing by one is the wrap-around test the code uses. */
  lemma SlotNext(i: nat, capacity: nat)
    requires capacity > 0
    ensures Slot(i + 1, capacity) == if Slot(i, capacity) + 1 == capacity then 0 else Slot(i, capacity) + 1
  {
    var k := Slot(i, capacity);
    SlotAdd(i, 1, capacity);
    SlotUnique(k + 1, if k + 1 == capacity then 1 else 0, if k + 1 == capacity then 0 else k + 1, capacity);
  }

  /** Fewer than `capacity` positions apart means different slots. */
  lemma SlotDistinct(i: nat, j: nat, capacity: nat)
    requires i < j < i + capacity
    ensures Slot(i, capacity) != Slot(j, capacity)
  {
    var r, d := Slot(i, capacity), j - i;
    SlotAdd(i, d, capacity);
    if r + d >= capacity {
      SlotUnique(r + d, 1, r + d - capacity, capacity);
    } else {
      SlotUnique(r + d, 0, r + d, capacity);
    }
  }

  // ---------------------------------------------------------------- the ring buffer

  class ByteStream {
    const capacity: nat
    const buf: array<Byte>
    var front: nat
    var rear: nat
    var curSize: nat
    var readCount: nat
    var writeCount: nat
    var inputEnded: bool
    var failed: bool
    ghost var log: seq<Byte>

    ghost predicate Valid()
      reads this, buf
    {
      && buf.Length == capacity
      && writeCount == |log|
      && readCount + curSize == writeCount
      && curSize <= capacity
      && (capacity > 0 ==> front == Slot(writeCount, capacity) && rear == Slot(readCount, capacity))
      && (forall i :: readCount <= i < writeCount ==> buf[Slot(i, capacity)] == log[i])
    }

    ghost function Abs(): Stream
      requires Valid()
      reads this, buf
    {
      Log(capacity, log, readCount, inputEnded, failed)
    }

    constructor (capacity: nat)
      ensures Valid() && fresh(buf)
      ensures Abs() == Log(capacity, [], 0, false, false)
    {
      this.capacity := capacity;
      buf := new Byte[capacity](_ => 0x20);
      front, rear, curSize, readCount, writeCount := 0, 0, 0, 0, 0;
      inputEnded, failed := false, false;
      log := [];
    }

    method WriteBytes(data: seq<Byte>) returns (n: nat)
      requires Valid()
      modifies this, buf
      ensures Valid()
      ensures Abs() == Write(old(Abs()), data) && n == AcceptCount(old(Abs()), data)
    {
      hide Slot;
      if inputEnded {
        assert data[..0] == [];
        return 0;
      }
      n := Min(RemainingCapacity(), |data|);
      ghost var all := log + data[..n];
      var i := 0;
      while i < n
        invariant 0 <= i <= n
        invariant unchanged(`curSize, `readCount, `writeCount, `inputEnded, `failed, `log, `rear)
        invariant capacity > 0 ==> front == Slot(writeCount + i, capacity)
        invariant forall j :: readCount <= j < writeCount + i ==> buf[Slot(j, capacity)] == all[j]
      {
        forall j | readCount <= j < writeCount + i
          ensures Slot(j, capacity) != Slot(writeCount + i, capacity)
        {
          SlotDistinct(j, writeCount + i, capacity);
        }
        SlotNext(writeCount + i, capacity);
        buf[front] := data[i];
        front := if front + 1 == capacity then 0 else front + 1;
        i := i + 1;
      }
      curSize := curSize + n;
      writeCount := writeCount + n;
      log := all;
    }

    method PeekOutput(len: nat) returns (ret: seq<Byte>)
      requires Valid()
      ensures ret == Peek(Abs(), len)
    {
      var n := Min(curSize, len);
      ret := [];
      var i, start := 0, rear;
      while i < n
        invariant 0 <= i <= n
        invariant ret == log[readCount..readCount + i]
        invariant capacity > 0 ==> start == Slot(readCount + i, capacity)
      {
        SlotNext(readCount + i, capacity);
        ret := ret + [buf[start]];
        start := if start + 1 == capacity then 0 else start + 1;
        i := i + 1;
      }
    }

    /** The ring index is reduced modulo the capacity, so a stream of capacity zero cannot be popped. */
    method PopOutput(len: nat)
      requires Valid() && capacity > 0
      modifies this
      ensures Valid() && Abs() == Pop(old(Abs()), len)
    {
      var n := Min(curSize, len);
      SlotAdd(readCount, n, capacity);
      rear := (rear + n) % capacity;
      curSize := curSize - n;
      readCount := readCount + n;
    }

    method Read(len: nat) returns (ret: seq<Byte>)
      requires Valid() && capacity > 0
      modifies this
      ensures Valid() && Abs() == Pop(old(Abs()), len) && ret == Peek(old(Abs()), len)
    {
      ret := PeekOutput(len);
      PopOutput(len);
    }

    method End()
      requires Valid()
      modifies this
      ensures Valid() && Abs() == EndInput(old(Abs()))
    {
      inputEnded := true;
    }

    method Fail()
      requires Valid()
      modifies this
      ensures Valid() && Abs() == SetError(old(Abs()))
    {
      failed := true;
    }

    function RemainingCapacity(): (n: nat)
      requires Valid()
      reads this, buf
      ensures n == Abs().Remaining()
    {
      capacity - curSize
    }
  }
}
