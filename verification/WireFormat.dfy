/** What the TCP and IPv4 formats share: flag bits, padding, and 16-bit words in a checksum. */
module WireFormats {
  import opened Words
  import opened Checksums
  import opened NetParsers

  function Bit(b: bool): nat {
    if b then 1 else 0
  }

  /** Bit `weight` of a flag byte. */
  predicate Flag(byte: nat, weight: nat)
    requires weight > 0
  {
    byte / weight % 2 == 1
  }

  function Zeros(n: nat): (z: seq<Byte>)
    ensures |z| == n
  {
    if n == 0 then [] else [0] + Zeros(n - 1)
  }

  lemma ConcatAssoc(a: seq<Byte>, b: seq<Byte>, c: seq<Byte>)
    ensures a + (b + c) == (a + b) + c
  {
  }

  lemma TotalOfWord(v: U16)
    ensures Total(Unparse(v, 2), false) == v
  {
    assert Unparse(v, 2) == [v / 0x100 % 0x100, v % 0x100] by {
      assert Unparse(v / 0x100, 1) == [] + [v / 0x100 % 0x100];
    }
    assert Total([v % 0x100], true) == v % 0x100 + Total([], false);
  }

  /** Appending one by one gives the same bytes as nesting to the right. */
  lemma Regroup(a: seq<Byte>, b: seq<Byte>, c: seq<Byte>, d: seq<Byte>, e: seq<Byte>, f: seq<Byte>, g: seq<Byte>,
                h: seq<Byte>, i: seq<Byte>)
    ensures [] + a + b + c + d + e + f + g + h + i == a + (b + (c + (d + (e + (f + (g + (h + i)))))))
  {
    ConcatAssoc(g, h, i);
    ConcatAssoc(f, g + h, i);
    ConcatAssoc(e, f + (g + h), i);
    assert [] + a == a;
    assert a + b + c + d + e + f + g + h == a + b + c + d + (e + (f + (g + h)));
    assert a + (b + (c + (d + (e + (f + (g + (h + i))))))) == a + b + c + d + ((e + (f + (g + h))) + i);
  }
}
