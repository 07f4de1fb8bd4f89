/**
 The Internet checksum (InternetChecksum in util.cc; section 1 of RFC 1071):
 a 32-bit sum of 16-bit words, folded to 16 bits and complemented.
 */
module Checksums {
  import opened Words

  /** What one byte adds: the high half of a word on even positions, the low half on odd ones. */
  function Contribution(b: Byte, parity: bool): nat {
    if parity then b else b * 0x100
  }

  /** `add`: the running sum wraps at 32 bits; `parity` remembers half a word between calls. */
  function Add(sum: U32, parity: bool, data: seq<Byte>): (U32, bool)
    decreases |data|
  {
    if data == [] then (sum, parity)
    else Add(Low32(sum + Contribution(data[0], parity)), !parity, data[1..])
  }

  /** The loop of `value`: add the high half to the low half until 16 bits remain. */
  function Fold(x: U32): (r: U32)
    ensures r <= 0xffff
    decreases x
  {
    if x > 0xffff then Fold(x / 0x1_0000 + x % 0x1_0000) else x
  }

  /** `value`: the complement of the folded sum. */
  function Value(sum: U32): U16 {
    0xffff - Fold(sum)
  }

  /** The sum that would be reached without any wrap-around. */
  function Total(data: seq<Byte>, parity: bool): nat {
    if data == [] then 0 else Contribution(data[0], parity) + Total(data[1..], !parity)
  }

  function Flip(parity: bool, n: nat): bool {
    if n % 2 == 0 then parity else !parity
  }

  // ---------------------------------------------------------------- adding

  /** Below 2^32 the wrapping sum is the true one, and the parity follows the length. */
  lemma {:induction false} AddIsTotal(sum: U32, parity: bool, data: seq<Byte>)
    requires sum + Total(data, parity) < 0x1_0000_0000
    ensures Add(sum, parity, data) == (sum + Total(data, parity), Flip(parity, |data|))
    decreases |data|
  {
    hide Contribution, Low32;
    if data != [] {
      LowSmall(sum + Contribution(data[0], parity));
      AddIsTotal(sum + Contribution(data[0], parity), !parity, data[1..]);
    }
  }

  lemma LowSmall(x: nat)
    requires x < 0x1_0000_0000
    ensures Low32(x) == x
  {
  }

  /** Splitting the data over several calls makes no difference, at odd positions either. */
  lemma {:induction false} AddSplit(sum: U32, parity: bool, a: seq<Byte>, b: seq<Byte>)
    ensures var (mid, odd) := Add(sum, parity, a);
            Add(mid, odd, b) == Add(sum, parity, a + b)
    decreases |a|
  {
    if a == [] {
      assert a + b == b;
    } else {
      AddSplit(Low32(sum + Contribution(a[0], parity)), !parity, a[1..], b);
      assert (a + b)[1..] == a[1..] + b;
    }
  }

  lemma {:induction false} TotalConcat(a: seq<Byte>, b: seq<Byte>, parity: bool)
    ensures Total(a + b, parity) == Total(a, parity) + Total(b, Flip(parity, |a|))
  {
    if a == [] {
      assert a + b == b;
    } else {
      TotalConcat(a[1..], b, !parity);
      assert (a + b)[1..] == a[1..] + b;
    }
  }

  /** Data of 16-bit length cannot overflow the 32-bit sum. */
  lemma {:induction false} TotalBound(data: seq<Byte>, parity: bool)
    ensures Total(data, parity) <= 0xff00 * |data|
  {
    if data != [] {
      TotalBound(data[1..], !parity);
    }
  }

  // ---------------------------------------------------------------- folding

  /** Folding keeps the sum modulo 65535, and reaches zero only from zero. */
  lemma {:induction false} FoldKeeps(x: U32)
    ensures (x - Fold(x)) % 0xffff == 0
    ensures Fold(x) == 0 <==> x == 0
    decreases x
  {
    if x > 0xffff {
      var y := x / 0x1_0000 + x % 0x1_0000;
      assert x - y == 0xffff * (x / 0x1_0000);
      FoldKeeps(y);
    }
  }

  /** A sum checks out if and only if it is a positive multiple of 65535. */
  lemma ValueZero(sum: U32)
    ensures Value(sum) == 0 <==> sum > 0 && sum % 0xffff == 0
  {
    FoldKeeps(sum);
  }

  /** Adding the checksum itself to the sum it was computed from makes it check out. */
  lemma ValueCompletes(sum: U32)
    ensures sum + Value(sum) > 0 && (sum + Value(sum)) % 0xffff == 0
  {
    FoldKeeps(sum);
  }

  /** The sum of the 16-bit words of section 1 of RFC 1071, the last one padded with a zero byte. */
  function WordSum(data: seq<Byte>): nat {
    if data == [] then 0
    else if |data| == 1 then data[0] * 0x100
    else data[0] * 0x100 + data[1] + WordSum(data[2..])
  }

  lemma {:induction false} TotalIsWordSum(data: seq<Byte>)
    ensures Total(data, false) == WordSum(data)
    decreases |data|
  {
    if |data| == 1 {
      assert data[1..] == [];
    } else if |data| > 1 {
      TotalIsWordSum(data[2..]);
      assert data[1..][1..] == data[2..];
      assert Total(data[1..], true) == data[1] + Total(data[2..], false);
    }
  }

  /** The checksum of any data, starting from any sum: the ones' complement of the sum of its words. */
  lemma ChecksumExact(initial: U32, data: seq<Byte>)
    requires initial + WordSum(data) < 0x1_0000_0000
    ensures var sum := initial + WordSum(data);
            Value(Add(initial, false, data).0) ==
            if sum == 0 then 0xffff else if sum % 0xffff == 0 then 0 else 0xffff - sum % 0xffff
  {
    hide Add, Fold, WordSum, Total;
    TotalIsWordSum(data);
    AddIsTotal(initial, false, data);
    FoldKeeps(initial + WordSum(data));
  }

  /** Data of 16-bit length cannot overflow the 32-bit sum. */
  lemma WordSumBound(data: seq<Byte>)
    ensures WordSum(data) <= 0xff00 * |data|
  {
    hide WordSum, Total;
    TotalIsWordSum(data);
    TotalBound(data, false);
  }

  // ---------------------------------------------------------------- error detection

  lemma {:induction false} TotalUpdate(data: seq<Byte>, i: nat, b: Byte, parity: bool)
    requires i < |data|
    ensures Total(data[i := b], parity) ==
            Total(data, parity) - Contribution(data[i], Flip(parity, i)) + Contribution(b, Flip(parity, i))
  {
    if i == 0 {
      assert data[i := b][1..] == data[1..];
    } else {
      assert data[i := b][1..] == data[1..][i - 1 := b];
      TotalUpdate(data[1..], i - 1, b, !parity);
    }
  }

  /** Changing any one byte of data that checks out is always detected. */
  lemma SingleByteDetected(sum: U32, data: seq<Byte>, i: nat, b: Byte)
    requires i < |data| && data[i] != b
    requires sum + 0xff00 * |data| < 0x1_0000_0000
    ensures Value(Add(sum, false, data).0) == 0 ==> Value(Add(sum, false, data[i := b]).0) != 0
  {
    hide Add, Total, Value;
    TotalBound(data, false);
    TotalBound(data[i := b], false);
    AddIsTotal(sum, false, data);
    AddIsTotal(sum, false, data[i := b]);
    TotalUpdate(data, i, b, false);
    ValueZero(sum + Total(data, false));
    ValueZero(sum + Total(data[i := b], false));
    if Value(Add(sum, false, data).0) == 0 {
      NearMultiples(sum + Total(data, false), sum + Total(data[i := b], false));
    }
  }

  lemma NearMultiples(x: nat, y: nat)
    requires x % 0xffff == 0 && x != y && x - y < 0xffff && y - x < 0xffff
    ensures y % 0xffff != 0
  {
  }

  // ---------------------------------------------------------------- the class

  class InternetChecksum {
    var sum: U32
    var parity: bool

    constructor (initial: U32)
      ensures sum == initial && !parity
    {
      sum, parity := initial, false;
    }

    method AddBytes(data: seq<Byte>)
      modifies this
      ensures (sum, parity) == Add(old(sum), old(parity), data)
    {
      var i := 0;
      assert data[0..] == data;
      while i < |data|
        invariant 0 <= i <= |data|
        invariant Add(sum, parity, data[i..]) == Add(old(sum), old(parity), data)
      {
        var val: int := data[i];
        if !parity {
          val := val * 0x100;
        }
        assert data[i..][1..] == data[i + 1..];
        sum := Low32(sum + val);
        parity := !parity;
        i := i + 1;
      }
    }

    method Checksum() returns (v: U16)
      ensures v == Value(sum)
    {
      var ret := sum;
      while ret > 0xffff
        invariant Fold(ret) == Fold(sum)
        decreases ret
      {
        ret := ret / 0x1_0000 + ret % 0x1_0000;
      }
      v := 0xffff - ret;
    }
  }
}
