/**
 Where every field lies on the wire, byte by byte: the header formats of section
 3.1 of RFC 793 and section 3.1 of RFC 791, for the writers and the parsers, and
 what their checksums sum to.
 */
module WireLayouts {
  import opened Words
  import opened Checksums
  import opened NetParsers
  import opened WireFormats
  import opened TcpSegments
  import TC = TcpCodec
  import IC = Ipv4Codec

  function Word16(b: seq<Byte>, i: nat): nat
    requires i + 2 <= |b|
  {
    b[i] as int * 0x100 + b[i + 1]
  }

  function Word32(b: seq<Byte>, i: nat): nat
    requires i + 4 <= |b|
  {
    b[i] as int * 0x100_0000 + b[i + 1] as int * 0x1_0000 + b[i + 2] as int * 0x100 + b[i + 3]
  }

  /** Bit `weight` of a byte is set. */
  predicate Set(b: Byte, weight: nat)
    requires weight > 0
  {
    b / weight % 2 == 1
  }

  // ---------------------------------------------------------------- reading integers

  lemma BigEndianIs(a: Byte, b: Byte, c: Byte, d: Byte)
    ensures BigEndian([a]) == a && BigEndian([a, b]) == a * 0x100 + b
    ensures BigEndian([a, b, c, d]) == a * 0x100_0000 + b * 0x1_0000 + c * 0x100 + d
  {
    assert BigEndian([]) == 0;
    assert [a][..0] == [];
    assert [a, b][..1] == [a];
    assert [a, b, c][..2] == [a, b];
    assert [a, b, c, d][..3] == [a, b, c];
  }

  lemma Read8(b: seq<Byte>, k: nat)
    requires k + 1 <= |b|
    ensures ParseInt(Parser(b[k..], NoError), 1) == (Parser(b[k + 1..], NoError), b[k])
  {
    hide BigEndian;
    assert b[k..][..1] == [b[k]];
    assert b[k..][1..] == b[k + 1..];
    BigEndianIs(b[k], 0, 0, 0);
  }

  lemma Read16(b: seq<Byte>, k: nat)
    requires k + 2 <= |b|
    ensures ParseInt(Parser(b[k..], NoError), 2) == (Parser(b[k + 2..], NoError), Word16(b, k))
  {
    hide BigEndian;
    assert b[k..][..2] == [b[k], b[k + 1]];
    assert b[k..][2..] == b[k + 2..];
    BigEndianIs(b[k], b[k + 1], 0, 0);
  }

  lemma Read32(b: seq<Byte>, k: nat)
    requires k + 4 <= |b|
    ensures ParseInt(Parser(b[k..], NoError), 4) == (Parser(b[k + 4..], NoError), Word32(b, k))
  {
    hide BigEndian;
    assert b[k..][..4] == [b[k], b[k + 1], b[k + 2], b[k + 3]];
    assert b[k..][4..] == b[k + 4..];
    BigEndianIs(b[k], b[k + 1], b[k + 2], b[k + 3]);
  }

  // ---------------------------------------------------------------- TCP

  /** Section 3.1 of RFC 793. */
  predicate TcpLayout(h: Header, b: seq<Byte>)
    requires |b| >= 20
  {
    && h.sport == Word16(b, 0) && h.dport == Word16(b, 2)
    && h.seqno == Word32(b, 4)
    && h.ackno == Word32(b, 8)
    && h.doff == b[12] / 16
    && (h.urg <==> Set(b[13], 32)) && (h.ack <==> Set(b[13], 16)) && (h.psh <==> Set(b[13], 8))
    && (h.rst <==> Set(b[13], 4)) && (h.syn <==> Set(b[13], 2)) && (h.fin <==> Set(b[13], 1))
    && h.win == Word16(b, 14)
    && h.cksum == Word16(b, 16) && h.uptr == Word16(b, 18)
  }

  /** Every buffer of at least 20 bytes is read as this layout says. */
  lemma TcpHeaderRead(b: seq<Byte>)
    requires |b| >= 20
    ensures TcpLayout(TC.ParseHeader(Parser(b, NoError)).0, b)
  {
    hide ParseInt, Word16, Word32, RemovePrefix, Pow256;
    assert b[0..] == b;
    Read16(b, 0);
    Read16(b, 2);
    Read32(b, 4);
    Read32(b, 8);
    Read8(b, 12);
    Read8(b, 13);
    Read16(b, 14);
    Read16(b, 16);
    Read16(b, 18);
  }

  /** Every header that can be serialized is written so, padded with zeros to the size it announces. */
  lemma TcpHeaderWritten(h: Header, k: nat)
    requires h.doff >= 5
    ensures TC.SerializeHeader(h).Some?
    ensures var b := TC.SerializeHeader(h).value;
            && |b| == 4 * h.doff && TcpLayout(h.(doff := h.doff % 16), b)
            && b[12] % 16 == 0 && b[13] < 64
            && (20 <= k < |b| ==> b[k] == 0)
  {
    hide TC.Fields, TC.ParseHeader, Zeros, TcpLayout, TC.FlagByte;
    var pad := Zeros(4 * h.doff - 20);
    TC.FieldsAppend(h, [], pad);
    assert [] + pad == pad;
    TC.FieldsRead(h, pad);
    TcpHeaderRead(TC.Fields(h, pad));
    TcpReserved(h, pad);
    if 20 <= k < 4 * h.doff {
      ZeroAt(4 * h.doff - 20, k - 20);
    }
  }

  /** The reserved bits are zero. */
  lemma TcpReserved(h: Header, rest: seq<Byte>)
    ensures var b := TC.Fields(h, rest);
            |b| >= 20 && b[12] % 16 == 0 && b[13] < 64
  {
    hide Unparse, TC.FlagByte;
    var tail := Unparse(h.win, 2) + (Unparse(h.cksum, 2) + (Unparse(h.uptr, 2) + rest));
    var at13 := Unparse(TC.FlagByte(h), 1) + tail;
    var at12 := Unparse(h.doff * 16 % 0x100, 1) + at13;
    var at8 := Unparse(h.ackno, 4) + at12;
    var at4 := Unparse(h.seqno, 4) + at8;
    var at2 := Unparse(h.dport, 2) + at4;
    var b := Unparse(h.sport, 2) + at2;
    assert b[12] == at2[10] == at4[8] == at8[4] == at12[0];
    assert b[13] == at2[11] == at4[9] == at8[5] == at12[1] == at13[0];
    UnparseOne(h.doff * 16 % 0x100);
    UnparseOne(TC.FlagByte(h));
    LowBits(h);
  }

  lemma LowBits(h: Header)
    ensures h.doff * 16 % 0x100 % 16 == 0 && TC.FlagByte(h) < 64
  {
  }

  lemma UnparseOne(v: Byte)
    ensures Unparse(v, 1) == [v]
  {
  }

  lemma {:induction false} ZeroAt(n: nat, k: nat)
    requires k < n
    ensures Zeros(n)[k] == 0
  {
    if k > 0 {
      ZeroAt(n - 1, k - 1);
    }
  }

  /** A segment on the wire: its header, its payload, and a sum with the pseudo-header that is a multiple of 65535. */
  lemma TcpSegmentWritten(seg: Segment, pseudo: U32)
    requires seg.header.doff >= 5
    requires pseudo + 0xff00 * (4 * seg.header.doff + |seg.payload|) < 0x1_0000_0000
    ensures TC.SerializeSegment(seg, pseudo).Some?
    ensures var b, n := TC.SerializeSegment(seg, pseudo).value, 4 * seg.header.doff;
            && |b| == n + |seg.payload| && b[n..] == seg.payload
            && TcpLayout(seg.header.(doff := seg.header.doff % 16, cksum := Word16(b, 16)), b)
            && pseudo + WordSum(b) > 0 && (pseudo + WordSum(b)) % 0xffff == 0
  {
    hide TC.SerializeHeader, TC.SegmentChecksum, WordSum, Add, Value, Word16, Word32;
    var h := seg.header.(cksum := TC.SegmentChecksum(seg, pseudo));
    TcpHeaderWritten(h, 0);
    var head := TC.SerializeHeader(h).value;
    var b := TC.SerializeSegment(seg, pseudo).value;
    assert b == head + seg.payload;
    SameLayout(h.(doff := h.doff % 16), head, b);
    TC.SerializedChecksOut(seg, pseudo);
    WordSumBound(b);
    ChecksumExact(pseudo, b);
  }

  lemma SameLayout(h: Header, a: seq<Byte>, b: seq<Byte>)
    requires |a| >= 20 && a <= b && TcpLayout(h, a)
    ensures TcpLayout(h, b) && h.cksum == Word16(b, 16)
  {
    hide Word16, Word32;
    SameWords(a, b);
  }

  lemma SameWords(a: seq<Byte>, b: seq<Byte>)
    requires |a| >= 20 && a <= b
    ensures a[12] == b[12] && a[13] == b[13]
    ensures Word16(a, 0) == Word16(b, 0) && Word16(a, 2) == Word16(b, 2)
    ensures Word32(a, 4) == Word32(b, 4) && Word32(a, 8) == Word32(b, 8)
    ensures Word16(a, 14) == Word16(b, 14) && Word16(a, 16) == Word16(b, 16) && Word16(a, 18) == Word16(b, 18)
  {
    assert forall k :: 0 <= k < 20 ==> a[k] == b[k];
  }

  /** A segment is rejected exactly when its sum with the pseudo-header is not a positive multiple of 65535. */
  lemma TcpSegmentRejected(b: seq<Byte>, pseudo: U32)
    requires pseudo + 0xff00 * |b| < 0x1_0000_0000
    ensures TC.ParseSegment(b, pseudo).Rejected? <==>
            !(pseudo + WordSum(b) > 0 && (pseudo + WordSum(b)) % 0xffff == 0)
  {
    hide WordSum, Add, Value, TC.ParseHeader;
    WordSumBound(b);
    ChecksumExact(pseudo, b);
  }

  /**
   What a buffer whose sum is right parses to. A whole header is followed by the payload; one that is too short or
   announces more than there is shows in the reported error, one that announces less than 20 bytes does not.
   */
  lemma TcpSegmentRead(b: seq<Byte>, pseudo: U32)
    requires !TC.ParseSegment(b, pseudo).Rejected?
    ensures var r := TC.ParseSegment(b, pseudo);
            && (|b| >= 20 ==> TcpLayout(r.segment.header, b))
            && (r.result == NoError <==> |b| >= 20 && 4 * r.segment.header.doff <= |b|)
            && (r.result == NoError ==>
                  r.segment.payload == b[if r.segment.header.doff < 5 then 20 else 4 * r.segment.header.doff..])
  {
    hide Value, Add, TC.ParseHeader, TcpLayout;
    TC.HeaderAccepts(b);
    if |b| >= 20 {
      TcpHeaderRead(b);
    }
  }

  // ---------------------------------------------------------------- IPv4

  /** Section 3.1 of RFC 791. */
  predicate Ipv4Layout(h: IC.Ipv4Header, b: seq<Byte>)
    requires |b| >= 20
  {
    && h.ver == b[0] / 16 && h.hlen == b[0] % 16 && h.tos == b[1]
    && h.len == Word16(b, 2)
    && h.id == Word16(b, 4)
    && (h.df <==> Set(b[6], 0x40)) && (h.mf <==> Set(b[6], 0x20)) && h.offset == Word16(b, 6) % 0x2000
    && h.ttl == b[8] && h.proto == b[9]
    && h.cksum == Word16(b, 10)
    && h.src == Word32(b, 12)
    && h.dst == Word32(b, 16)
  }

  lemma FragmentBits(hi: Byte, lo: Byte)
    ensures var w := hi * 0x100 + lo;
            && (Flag(w, 0x4000) <==> Set(hi, 0x40)) && (Flag(w, 0x2000) <==> Set(hi, 0x20))
  {
  }

  lemma Ipv4FieldsRead(b: seq<Byte>)
    requires |b| >= 20
    ensures Ipv4Layout(IC.ReadFields(Parser(b, NoError)).0, b)
    ensures IC.ReadFields(Parser(b, NoError)).1 == Parser(b[20..], NoError)
  {
    hide ParseInt, Word32, Pow256, Flag, Set;
    assert b[0..] == b;
    Read8(b, 0);
    Read8(b, 1);
    Read16(b, 2);
    Read16(b, 4);
    Read16(b, 6);
    Read8(b, 8);
    Read8(b, 9);
    Read16(b, 10);
    Read32(b, 12);
    Read32(b, 16);
    FragmentBits(b[6], b[7]);
  }

  /** What a buffer must be for the header parser to accept it. */
  predicate Ipv4Acceptable(b: seq<Byte>) {
    && |b| >= 20
    && b[0] / 16 == 4 && 5 <= b[0] % 16 && 4 * (b[0] % 16) <= |b| == Word16(b, 2)
    && var sum := WordSum(b[..4 * (b[0] % 16)]); sum > 0 && sum % 0xffff == 0
  }

  /**
   Every buffer of at least 20 bytes is read as the layout says; the header parser accepts it exactly if version,
   both lengths and the checksum are right, and then leaves the payload.
   */
  lemma Ipv4HeaderRead(b: seq<Byte>, previous: IC.Ipv4Header)
    ensures var (h, p, result) := IC.ParseHeader(previous, Parser(b, NoError));
            && (|b| >= 20 ==> Ipv4Layout(h, b))
            && (|b| < 20 ==> h == previous)
            && (result == NoError <==> Ipv4Acceptable(b))
            && (result == NoError ==> p == Parser(b[4 * h.hlen..], NoError))
  {
    hide IC.ReadFields, WordSum, Add, Value, Word16, Word32;
    if |b| >= 20 {
      Ipv4FieldsRead(b);
      var n := 4 * (b[0] % 16);
      if n <= |b| {
        WordSumBound(b[..n]);
        ChecksumExact(0, b[..n]);
      }
      if 20 <= n <= |b| {
        assert b[20..][n - 20..] == b[n..];
      }
    }
  }

  /** How much of the buffer the parser takes for the header: all of it only if version and lengths are right. */
  function Ipv4HeaderEnd(b: seq<Byte>): nat
    requires |b| >= 20
  {
    var n := 4 * (b[0] % 16);
    if b[0] / 16 == 4 && 20 <= n <= |b| == Word16(b, 2) then n else 20
  }

  /**
   Which buffers parse to a datagram: those of at least 20 bytes in which what is left after the header is as long as
   the header says, in 16 bits. The checksum and the version do not matter.
   */
  lemma DatagramRead(b: seq<Byte>)
    ensures |b| >= 20 ==> Ipv4HeaderEnd(b) <= |b|
    ensures var (d, result) := IC.ParseDatagram(IC.DefaultHeader(), b);
            && (result == NoError <==>
                  |b| >= 20 && |b| - Ipv4HeaderEnd(b) == Low16(Word16(b, 2) - 4 * (b[0] % 16)))
            && (|b| >= 20 ==> Ipv4Layout(d.header, b) && d.payload == b[Ipv4HeaderEnd(b)..])
  {
    hide IC.ParseHeader, Ipv4Layout, Ipv4HeaderEnd;
    if |b| >= 20 {
      HeaderEnds(b, IC.DefaultHeader());
      PayloadLengthIs(IC.ParseHeader(IC.DefaultHeader(), Parser(b, NoError)).0, b);
    } else {
      TooShortForHeader(b);
    }
  }

  lemma HeaderEnds(b: seq<Byte>, previous: IC.Ipv4Header)
    requires |b| >= 20
    ensures Ipv4HeaderEnd(b) <= |b|
    ensures var (h, p, _) := IC.ParseHeader(previous, Parser(b, NoError));
            Ipv4Layout(h, b) && p == Parser(b[Ipv4HeaderEnd(b)..], NoError)
  {
    hide IC.ReadFields, Add, Value, Word16, Word32;
    Ipv4FieldsRead(b);
    var n := Ipv4HeaderEnd(b);
    assert b[20..][n - 20..] == b[n..];
  }

  lemma PayloadLengthIs(h: IC.Ipv4Header, b: seq<Byte>)
    requires |b| >= 20 && Ipv4Layout(h, b)
    ensures h.PayloadLength() == Low16(Word16(b, 2) - 4 * (b[0] % 16))
  {
    hide Word16, Word32, Low16;
  }

  lemma TooShortForHeader(b: seq<Byte>)
    requires |b| < 20
    ensures IC.ParseHeader(IC.DefaultHeader(), Parser(b, NoError)) ==
            (IC.DefaultHeader(), Parser(b, NoError), PacketTooShort)
    ensures IC.DefaultHeader().PayloadLength() >= 20
  {
  }

  /** Four bits of version and header length and 13 of the offset are kept. */
  function Truncated(h: IC.Ipv4Header): IC.Ipv4Header {
    h.(ver := h.ver % 16, hlen := h.hlen % 16, offset := h.offset % 0x2000)
  }

  lemma TruncatedFields(h: IC.Ipv4Header, rest: seq<Byte>)
    ensures IC.Fields(Truncated(h), rest) == IC.Fields(h, rest)
  {
    hide Unparse, IC.FirstByte, IC.FragmentWord;
    TruncatedBits(h);
  }

  lemma TruncatedBits(h: IC.Ipv4Header)
    ensures IC.FirstByte(Truncated(h)) == IC.FirstByte(h)
    ensures IC.FragmentWord(Truncated(h)) == IC.FragmentWord(h)
  {
    assert h.ver % 16 * 16 % 0x100 == h.ver * 16 % 0x100;
  }

  /** Every header that can be serialized is written so, padded with zeros to the size it announces. */
  lemma Ipv4HeaderWritten(h: IC.Ipv4Header, k: nat)
    requires h.ver == 4 && h.hlen >= 5
    ensures IC.SerializeHeader(h).Some?
    ensures var b := IC.SerializeHeader(h).value;
            && |b| == 4 * h.hlen && Ipv4Layout(Truncated(h), b)
            && b[6] < 0x80
            && (20 <= k < |b| ==> b[k] == 0)
  {
    hide IC.Fields, IC.ReadFields, Zeros, Ipv4Layout, IC.FragmentWord;
    var pad := Zeros(4 * h.hlen - 20);
    IC.FieldsAppend(h, [], pad);
    assert [] + pad == pad;
    TruncatedFields(h, pad);
    IC.FieldsRoundTrip(Truncated(h), pad);
    Ipv4FieldsRead(IC.Fields(h, pad));
    Ipv4Reserved(h, pad);
    if 20 <= k < 4 * h.hlen {
      ZeroAt(4 * h.hlen - 20, k - 20);
    }
  }

  /** The reserved flag is zero. */
  lemma Ipv4Reserved(h: IC.Ipv4Header, rest: seq<Byte>)
    ensures var b := IC.Fields(h, rest);
            |b| >= 20 && b[6] < 0x80
  {
    hide Unparse, IC.FragmentWord, IC.FirstByte;
    var w := IC.FragmentWord(h);
    var tail := Unparse(h.cksum, 2) + (Unparse(h.src, 4) + (Unparse(h.dst, 4) + rest));
    var at6 := Unparse(w, 2) + (Unparse(h.ttl, 1) + (Unparse(h.proto, 1) + tail));
    var at4 := Unparse(h.id, 2) + at6;
    var at2 := Unparse(h.len, 2) + at4;
    var at1 := Unparse(h.tos, 1) + at2;
    var b := Unparse(IC.FirstByte(h), 1) + at1;
    assert b[6] == at1[5] == at2[4] == at4[2] == at6[0];
    UnparseTwo(w);
    FragmentSmall(h);
  }

  lemma FragmentSmall(h: IC.Ipv4Header)
    ensures IC.FragmentWord(h) < 0x8000
  {
  }

  lemma UnparseTwo(v: U16)
    ensures Unparse(v, 2)[0] == v / 0x100
  {
    assert Unparse(v / 0x100, 1) == [] + [v / 0x100 % 0x100];
  }

  /** A datagram on the wire: its header, whose words sum to a multiple of 65535, and its payload. */
  lemma DatagramWritten(d: IC.Datagram)
    requires IC.WellFormed(d.header) && |d.payload| == d.header.PayloadLength()
    ensures IC.SerializeDatagram(d).Some?
    ensures var b, n := IC.SerializeDatagram(d).value, 4 * d.header.hlen;
            && |b| == n + |d.payload| && b[n..] == d.payload
            && Ipv4Layout(d.header.(cksum := Word16(b, 10)), b)
            && WordSum(b[..n]) > 0 && WordSum(b[..n]) % 0xffff == 0
  {
    hide IC.SerializeHeader, IC.HeaderChecksum, WordSum, Add, Value, Word16, Word32;
    var h := d.header.(cksum := IC.HeaderChecksum(d.header));
    Ipv4HeaderWritten(h, 0);
    var head := IC.SerializeHeader(h).value;
    var b := IC.SerializeDatagram(d).value;
    assert b == head + d.payload;
    assert b[..4 * h.hlen] == head;
    assert Truncated(h) == h;
    SameIpv4Layout(h, head, b);
    IC.HeaderChecksOut(d.header);
    WordSumBound(head);
    ChecksumExact(0, head);
  }

  lemma SameIpv4Layout(h: IC.Ipv4Header, a: seq<Byte>, b: seq<Byte>)
    requires |a| >= 20 && a <= b && Ipv4Layout(h, a)
    ensures Ipv4Layout(h, b) && h.cksum == Word16(b, 10)
  {
    assert forall k :: 0 <= k < 20 ==> a[k] == b[k];
  }
}
