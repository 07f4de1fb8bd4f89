/**
 32-bit sequence numbers relative to an initial sequence number (ISN), and
 their translation to and from absolute 64-bit sequence numbers
 (wrapping_integers.cc). Bit masks are written as remainders by powers of two.
 */
module WrappingIntegers {
  import opened Words

  /** The low 32 bits of `n + isn`, where the addition itself is 64 bits wide. */
  function Wrap(n: U64, isn: U32): U32 {
    Low32(Add64(n, isn))
  }

  function Distance(a: int, b: int): nat {
    if a > b then a - b else b - a
  }

  /** One comparison of `std::min_element`: the later candidate wins only when strictly nearer. */
  function Nearer(checkpoint: U64, best: U64, candidate: U64): U64 {
    if Distance(checkpoint, candidate) < Distance(checkpoint, best) then candidate else best
  }

  /** Three candidates with the right low half: in the checkpoint's block of 2^32, the next and the previous one. */
  function Unwrap(n: U32, isn: U32, checkpoint: U64): U64 {
    var diff := Sub32(n, isn);
    var block := checkpoint - checkpoint % 0x1_0000_0000;
    var same := block + diff;
    var above := Add64(block, 0x1_0000_0000) + diff;
    var below := Sub64(block, 0x1_0000_0000) + diff;
    Nearer(checkpoint, Nearer(checkpoint, same, above), below)
  }

  /** `x` and the wrapped number `n` name the same position of the sequence space. */
  predicate Names(x: int, n: U32, isn: U32) {
    Low32(x) == Sub32(n, isn)
  }

  lemma WrapNames(x: U64, isn: U32)
    ensures Names(x, Wrap(x, isn), isn)
  {
    hide Wrap;
    WrapIsLow(x, isn);
    LowMultiple(x, (x + isn) / 0x1_0000_0000);
  }

  lemma LowMultiple(x: int, k: int)
    ensures Low32(x - k * 0x1_0000_0000) == Low32(x)
  {
  }

  /** The 64-bit addition inside `Wrap` never shows in the low 32 bits. */
  lemma WrapIsLow(x: U64, isn: U32)
    ensures Wrap(x, isn) == Low32(x + isn)
  {
    assert Add64(x, isn) == x + isn || Add64(x, isn) == x + isn - 0x1_0000_0000_0000_0000;
  }

  /** Advancing a position by `k` advances its wrapped number by `k` modulo 2^32. */
  lemma WrapAdd(x: U64, k: nat, isn: U32)
    requires x + k < 0x1_0000_0000_0000_0000
    ensures Wrap(x + k, isn) == Low32(Wrap(x, isn) + Low32(k))
  {
    WrapIsLow(x, isn);
    WrapIsLow(x + k, isn);
    LowAdd(x + isn, k);
  }

  lemma LowAdd(a: int, b: int)
    ensures Low32(a + b) == Low32(Low32(a) + Low32(b))
  {
    var qa, qb := a / 0x1_0000_0000, b / 0x1_0000_0000;
    assert a + b == Low32(a) + Low32(b) + (qa + qb) * 0x1_0000_0000;
  }

  /** The choice between the three candidates, by the high half `q` and low half `r` of the checkpoint. */
  lemma Choice(n: U32, isn: U32, checkpoint: U64, q: int, r: int, diff: U32)
    requires q == checkpoint / 0x1_0000_0000 && r == checkpoint % 0x1_0000_0000 && diff == Sub32(n, isn)
    ensures Unwrap(n, isn, checkpoint) ==
            (if r > diff && r - diff > 0x8000_0000 && q < 0xffff_ffff then q + 1
             else if diff > r && diff - r > 0x8000_0000 && q > 0 then q - 1
             else q) * 0x1_0000_0000 + diff
  {
  }

  /** The result is the position named by `n` that is nearest to the checkpoint among ALL 64-bit positions. */
  lemma UnwrapNearest(n: U32, isn: U32, checkpoint: U64, y: U64)
    ensures Names(Unwrap(n, isn, checkpoint), n, isn)
    ensures Names(y, n, isn) ==> Distance(checkpoint, Unwrap(n, isn, checkpoint)) <= Distance(checkpoint, y)
  {
    hide Unwrap;
    var q, r, diff := checkpoint / 0x1_0000_0000, checkpoint % 0x1_0000_0000, Sub32(n, isn);
    Choice(n, isn, checkpoint, q, r, diff);
    if Names(y, n, isn) {
      ChoiceNearest(y, checkpoint, y / 0x1_0000_0000, diff, q, r);
    }
  }

  lemma ChoiceNearest(y: U64, checkpoint: U64, k: U32, diff: U32, q: U32, r: U32)
    requires y == k * 0x1_0000_0000 + diff && checkpoint == q * 0x1_0000_0000 + r
    ensures var chosen := if r > diff && r - diff > 0x8000_0000 && q < 0xffff_ffff then q + 1
                          else if diff > r && diff - r > 0x8000_0000 && q > 0 then q - 1
                          else q;
            Distance(checkpoint, chosen * 0x1_0000_0000 + diff) <= Distance(checkpoint, y)
  {
  }

  /** Exactly when translating a position to 32 bits and back returns it, for every position and checkpoint. */
  lemma UnwrapWrap(x: U64, isn: U32, checkpoint: U64)
    ensures Unwrap(Wrap(x, isn), isn, checkpoint) == x <==>
            || Distance(x, checkpoint) < 0x8000_0000
            || (Distance(x, checkpoint) == 0x8000_0000 && x / 0x1_0000_0000 == checkpoint / 0x1_0000_0000)
            || checkpoint <= x < 0x1_0000_0000
            || 0xffff_ffff_0000_0000 <= x <= checkpoint
  {
    hide Unwrap, Wrap;
    WrapNames(x, isn);
    var q, r, diff := checkpoint / 0x1_0000_0000, checkpoint % 0x1_0000_0000, Low32(x);
    Choice(Wrap(x, isn), isn, checkpoint, q, r, diff);
    ChoiceReturns(x, checkpoint, x / 0x1_0000_0000, diff, q, r);
  }

  lemma ChoiceReturns(x: U64, checkpoint: U64, k: U32, diff: U32, q: U32, r: U32)
    requires x == k * 0x1_0000_0000 + diff && checkpoint == q * 0x1_0000_0000 + r
    ensures k == (if r > diff && r - diff > 0x8000_0000 && q < 0xffff_ffff then q + 1
                  else if diff > r && diff - r > 0x8000_0000 && q > 0 then q - 1
                  else q) <==>
            || Distance(x, checkpoint) < 0x8000_0000
            || (Distance(x, checkpoint) == 0x8000_0000 && k == q)
            || checkpoint <= x < 0x1_0000_0000
            || 0xffff_ffff_0000_0000 <= x <= checkpoint
  {
  }

  /** A position recovered with one checkpoint is recovered with every checkpoint within 2^31 of it. */
  lemma UnwrapStable(n: U32, isn: U32, x: U64, checkpoint: U64)
    requires Names(x, n, isn)
    requires Distance(x, checkpoint) < 0x8000_0000
    ensures n == Wrap(x, isn)
    ensures Unwrap(n, isn, checkpoint) == x
  {
    NamesWrap(x, n, isn);
    UnwrapWrap(x, isn, checkpoint);
  }

  lemma NamesWrap(x: U64, n: U32, isn: U32)
    requires Names(x, n, isn)
    ensures n == Wrap(x, isn)
  {
    WrapNames(x, isn);
  }
}
