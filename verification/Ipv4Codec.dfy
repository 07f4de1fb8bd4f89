/** The wire format of IPv4 headers and datagrams (ipv4_header.cc, ipv4_datagram.cc). */
module Ipv4Codec {
  import opened Words
  import opened Checksums
  import opened NetParsers
  import opened WireFormats

  datatype Ipv4Header = Ipv4Header(
    ver: Byte, hlen: Byte, tos: Byte, len: U16, id: U16, df: bool, mf: bool, offset: U16,
    ttl: Byte, proto: Byte, cksum: U16, src: U32, dst: U32)
  {
    /** Computed in 16 bits. */
    function PayloadLength(): U16 {
      Low16(len - 4 * hlen)
    }

    /** The part of a TCP checksum that comes from this header, computed in 32 bits. */
    function PseudoChecksum(): U32 {
      Low32(src / 0x1_0000 + src % 0x1_0000 + dst / 0x1_0000 + dst % 0x1_0000 + proto + PayloadLength())
    }
  }

  datatype Datagram = Datagram(header: Ipv4Header, payload: seq<Byte>)

  /** The header of a datagram before anything is parsed into it. */
  function DefaultHeader(): Ipv4Header {
    Ipv4Header(4, 5, 0, 0, 0, true, false, 0, 128, 6, 0, 0, 0)
  }

  // ---------------------------------------------------------------- header

  /** Version and header length, four bits each. */
  function FirstByte(h: Ipv4Header): Byte {
    h.ver * 16 % 0x100 + h.hlen % 16
  }

  /** Both flags above a 13-bit offset. */
  function FragmentWord(h: Ipv4Header): U16 {
    0x4000 * Bit(h.df) + 0x2000 * Bit(h.mf) + h.offset % 0x2000
  }

  /** The first 10 bytes, before the checksum. */
  function Leading(h: Ipv4Header, rest: seq<Byte>): seq<Byte> {
    Unparse(FirstByte(h), 1) + (Unparse(h.tos, 1) + (Unparse(h.len, 2) + (Unparse(h.id, 2) +
    (Unparse(FragmentWord(h), 2) + (Unparse(h.ttl, 1) + (Unparse(h.proto, 1) + rest))))))
  }

  /** The 20 fixed bytes of the header, followed by `rest`. */
  function Fields(h: Ipv4Header, rest: seq<Byte>): seq<Byte> {
    Leading(h, Unparse(h.cksum, 2) + (Unparse(h.src, 4) + (Unparse(h.dst, 4) + rest)))
  }

  /** Throws (here: None) on a wrong version or a header shorter than the minimum. */
  function SerializeHeader(h: Ipv4Header): Option<seq<Byte>> {
    if h.ver != 4 || 4 * h.hlen < 20 then None else Some(Fields(h, Zeros(4 * h.hlen - 20)))
  }

  /** The thirteen fields; the header of a packet shorter than 20 bytes is not touched. */
  function ReadFields(p: Parser): (Ipv4Header, Parser) {
    ReadIsSmall(p, 1);
    var (p1, first) := ParseInt(p, 1);
    ReadIsSmall(p1, 1);
    var (p2, tos) := ParseInt(p1, 1);
    ReadIsSmall(p2, 2);
    var (p3, len) := ParseInt(p2, 2);
    ReadIsSmall(p3, 2);
    var (p4, id) := ParseInt(p3, 2);
    ReadIsSmall(p4, 2);
    var (p5, fragment) := ParseInt(p4, 2);
    ReadIsSmall(p5, 1);
    var (p6, ttl) := ParseInt(p5, 1);
    ReadIsSmall(p6, 1);
    var (p7, proto) := ParseInt(p6, 1);
    ReadIsSmall(p7, 2);
    var (p8, cksum) := ParseInt(p7, 2);
    ReadIsSmall(p8, 4);
    var (p9, src) := ParseInt(p8, 4);
    ReadIsSmall(p9, 4);
    var (p10, dst) := ParseInt(p9, 4);
    (Ipv4Header(first / 16, first % 16, tos, len, id, Flag(fragment, 0x4000), Flag(fragment, 0x2000),
                fragment % 0x2000, ttl, proto, cksum, src, dst), p10)
  }

  function CheckHeader(h: Ipv4Header, original: seq<Byte>, p: Parser): (Parser, ParseResult) {
    if |original| < 4 * h.hlen then (p, PacketTooShort)
    else if h.ver != 4 then (p, WrongIpVersion)
    else if h.hlen < 5 then (p, HeaderTooShort)
    else if |original| != h.len then (p, TruncatedPacket)
    else
      var p' := RemovePrefix(p, h.hlen * 4 - 20);
      if p'.error != NoError then (p', p'.error)
      else if Value(Add(0, false, original[..4 * h.hlen]).0) != 0 then (p', BadChecksum)
      else (p', NoError)
  }

  /** `previous` is the header that is overwritten. */
  function ParseHeader(previous: Ipv4Header, p: Parser): (Ipv4Header, Parser, ParseResult) {
    if |p.buffer| < 20 then (previous, p, PacketTooShort)
    else
      var (h, p') := ReadFields(p);
      var (p'', result) := CheckHeader(h, p.buffer, p');
      (h, p'', result)
  }

  predicate WellFormed(h: Ipv4Header) {
    h.ver == 4 && 5 <= h.hlen <= 15 && h.offset < 0x2000
  }

  /** Every field fits its place in the header, whatever it says. */
  predicate Encodable(h: Ipv4Header) {
    h.ver <= 15 && h.hlen <= 15 && h.offset < 0x2000
  }

  lemma FragmentRoundTrip(h: Ipv4Header)
    requires h.offset < 0x2000
    ensures var w := FragmentWord(h);
            Flag(w, 0x4000) == h.df && Flag(w, 0x2000) == h.mf && w % 0x2000 == h.offset
  {
  }

  lemma FirstByteRoundTrip(h: Ipv4Header)
    requires Encodable(h)
    ensures FirstByte(h) / 16 == h.ver && FirstByte(h) % 16 == h.hlen
  {
  }

  lemma FieldsRoundTrip(h: Ipv4Header, rest: seq<Byte>)
    requires Encodable(h)
    ensures ReadFields(Parser(Fields(h, rest), NoError)) == (h, Parser(rest, NoError))
  {
    hide FirstByte, FragmentWord, Flag, BigEndian, Unparse, ParseInt, Pow256;
    Pow256Small();
    var b10 := Unparse(h.dst, 4) + rest;
    var b9 := Unparse(h.src, 4) + b10;
    var b8 := Unparse(h.cksum, 2) + b9;
    var b7 := Unparse(h.proto, 1) + b8;
    var b6 := Unparse(h.ttl, 1) + b7;
    var b5 := Unparse(FragmentWord(h), 2) + b6;
    var b4 := Unparse(h.id, 2) + b5;
    var b3 := Unparse(h.len, 2) + b4;
    var b2 := Unparse(h.tos, 1) + b3;
    ParseUnparse(FirstByte(h), 1, b2);
    ParseUnparse(h.tos, 1, b3);
    ParseUnparse(h.len, 2, b4);
    ParseUnparse(h.id, 2, b5);
    ParseUnparse(FragmentWord(h), 2, b6);
    ParseUnparse(h.ttl, 1, b7);
    ParseUnparse(h.proto, 1, b8);
    ParseUnparse(h.cksum, 2, b9);
    ParseUnparse(h.src, 4, b10);
    ParseUnparse(h.dst, 4, rest);
    FirstByteRoundTrip(h);
    FragmentRoundTrip(h);
  }

  // ---------------------------------------------------------------- datagram

  function HeaderChecksum(h: Ipv4Header): U16
    requires h.ver == 4 && h.hlen >= 5
  {
    Value(Add(0, false, SerializeHeader(h.(cksum := 0)).value).0)
  }

  /** Throws (here: None) when the payload does not have the advertised length. */
  function SerializeDatagram(d: Datagram): Option<seq<Byte>> {
    if |d.payload| != d.header.PayloadLength() || d.header.ver != 4 || d.header.hlen < 5 then None
    else Some(SerializeHeader(d.header.(cksum := HeaderChecksum(d.header))).value + d.payload)
  }

  /** The header parser's verdict is not looked at; only the parser's own error and the length are. */
  function ParseDatagram(previous: Ipv4Header, buffer: seq<Byte>): (Datagram, ParseResult) {
    var (h, p, _) := ParseHeader(previous, Parser(buffer, NoError));
    (Datagram(h, p.buffer), if |p.buffer| != h.PayloadLength() then PacketTooShort else p.error)
  }

  lemma LeadingSplit(h: Ipv4Header, rest: seq<Byte>)
    ensures Leading(h, rest) == Leading(h, []) + rest && |Leading(h, [])| == 10
  {
    hide Unparse, FragmentWord;
    var a7 := Unparse(h.proto, 1) + [];
    var a6 := Unparse(h.ttl, 1) + a7;
    var a5 := Unparse(FragmentWord(h), 2) + a6;
    var a4 := Unparse(h.id, 2) + a5;
    var a3 := Unparse(h.len, 2) + a4;
    var a2 := Unparse(h.tos, 1) + a3;
    assert Unparse(h.proto, 1) + rest == a7 + rest;
    ConcatAssoc(Unparse(h.ttl, 1), a7, rest);
    ConcatAssoc(Unparse(FragmentWord(h), 2), a6, rest);
    ConcatAssoc(Unparse(h.id, 2), a5, rest);
    ConcatAssoc(Unparse(h.len, 2), a4, rest);
    ConcatAssoc(Unparse(h.tos, 1), a3, rest);
    ConcatAssoc(Unparse(FirstByte(h), 1), a2, rest);
  }

  lemma FieldsAppend(h: Ipv4Header, a: seq<Byte>, b: seq<Byte>)
    ensures Fields(h, a) + b == Fields(h, a + b) && |Fields(h, a)| == 20 + |a|
  {
    hide Leading, Unparse;
    var c, s, d := Unparse(h.cksum, 2), Unparse(h.src, 4), Unparse(h.dst, 4);
    LeadingSplit(h, c + (s + (d + a)));
    LeadingSplit(h, c + (s + (d + (a + b))));
    ConcatAssoc(d, a, b);
    ConcatAssoc(s, d + a, b);
    ConcatAssoc(c, s + (d + a), b);
    ConcatAssoc(Leading(h, []), c + (s + (d + a)), b);
  }

  lemma LeadingIgnoresChecksum(h: Ipv4Header, c: U16, rest: seq<Byte>)
    ensures Leading(h.(cksum := c), rest) == Leading(h, rest)
  {
    assert FragmentWord(h.(cksum := c)) == FragmentWord(h);
  }

  lemma ChecksumFieldAdds(h: Ipv4Header, c: U16, rest: seq<Byte>)
    ensures Total(Fields(h.(cksum := c), rest), false) == Total(Fields(h.(cksum := 0), rest), false) + c
  {
    hide Total, Leading, Unparse;
    var tail := Unparse(h.src, 4) + (Unparse(h.dst, 4) + rest);
    LeadingIgnoresChecksum(h, c, Unparse(c, 2) + tail);
    LeadingIgnoresChecksum(h, 0, Unparse(0, 2) + tail);
    LeadingSplit(h, Unparse(c, 2) + tail);
    LeadingSplit(h, Unparse(0, 2) + tail);
    TotalConcat(Leading(h, []), Unparse(c, 2) + tail, false);
    TotalConcat(Leading(h, []), Unparse(0, 2) + tail, false);
    TotalConcat(Unparse(c, 2), tail, false);
    TotalConcat(Unparse(0, 2), tail, false);
    TotalOfWord(c);
    TotalOfWord(0);
  }

  lemma HeaderChecksOut(h: Ipv4Header)
    requires WellFormed(h)
    ensures Value(Add(0, false, SerializeHeader(h.(cksum := HeaderChecksum(h))).value).0) == 0
  {
    hide Add, Value, Total, Fields, Zeros;
    var c, pad := HeaderChecksum(h), Zeros(4 * h.hlen - 20);
    var blank, bytes := Fields(h.(cksum := 0), pad), Fields(h.(cksum := c), pad);
    FieldsAppend(h.(cksum := 0), pad, []);
    FieldsAppend(h.(cksum := c), pad, []);
    TotalBound(blank, false);
    TotalBound(bytes, false);
    AddIsTotal(0, false, blank);
    AddIsTotal(0, false, bytes);
    ChecksumFieldAdds(h, c, pad);
    ValueCompletes(Total(blank, false));
    ValueZero(Total(bytes, false));
  }

  /** The header parser accepts a serialized header whose length field matches the packet. */
  lemma HeaderRoundTrip(d: Datagram, previous: Ipv4Header)
    requires WellFormed(d.header) && d.header.len == 4 * d.header.hlen + |d.payload|
    ensures var h := d.header.(cksum := HeaderChecksum(d.header));
            ParseHeader(previous, Parser(SerializeHeader(h).value + d.payload, NoError)) ==
            (h, Parser(d.payload, NoError), NoError)
  {
    hide Add, Value, Fields, HeaderChecksum, ReadFields, Zeros;
    var h := d.header.(cksum := HeaderChecksum(d.header));
    var pad := Zeros(4 * h.hlen - 20);
    FieldsAppend(h, pad, d.payload);
    FieldsRoundTrip(h, pad + d.payload);
    HeaderChecksOut(d.header);
    var bytes := SerializeHeader(h).value + d.payload;
    assert bytes[..4 * h.hlen] == SerializeHeader(h).value;
    assert (pad + d.payload)[4 * h.hlen - 20..] == d.payload;
  }

  /**
   For every well-formed header whose length field is the size of header and payload: the datagram
   serializes, and parsing the bytes succeeds and returns the same fields and payload, the checksum filled in.
   */
  lemma DatagramRoundTrip(d: Datagram, previous: Ipv4Header)
    requires WellFormed(d.header) && d.header.len == 4 * d.header.hlen + |d.payload|
    ensures SerializeDatagram(d).Some?
    ensures ParseDatagram(previous, SerializeDatagram(d).value) ==
            (d.(header := d.header.(cksum := HeaderChecksum(d.header))), NoError)
  {
    hide Add, Value, Fields, HeaderChecksum, ParseHeader;
    HeaderRoundTrip(d, previous);
  }

  /**
   The two directions do not match: a packet with a wrong version or a header length below the minimum parses
   without error when its length adds up, and what it parses to cannot be serialized.
   */
  lemma ParsedNotSerialized(h: Ipv4Header, payload: seq<Byte>, previous: Ipv4Header)
    requires Encodable(h) && (h.ver != 4 || h.hlen < 5) && 4 * h.hlen <= 20 && h.len == 4 * h.hlen + |payload|
    ensures ParseDatagram(previous, Fields(h, payload)) == (Datagram(h, payload), NoError)
    ensures SerializeDatagram(Datagram(h, payload)).None?
  {
    hide Add, Value, Fields, ReadFields;
    FieldsAppend(h, payload, []);
    FieldsRoundTrip(h, payload);
  }

  /** Any one header byte changed after the first, which holds the header length: the header parser objects. */
  lemma CorruptHeaderRejected(h: Ipv4Header, bytes: seq<Byte>, previous: Ipv4Header, i: nat, b: Byte)
    requires 1 <= i < 4 * h.hlen && i < |bytes| && bytes[i] != b
    requires ParseHeader(previous, Parser(bytes, NoError)).0 == h
    requires ParseHeader(previous, Parser(bytes, NoError)).2 == NoError
    ensures ParseHeader(previous, Parser(bytes[i := b], NoError)).2 != NoError
  {
    hide Add, Value, ReadFields;
    var changed := bytes[i := b];
    SameFirstByte(bytes, changed);
    var n := 4 * h.hlen;
    assert changed[..n] == bytes[..n][i := b];
    SingleByteDetected(0, bytes[..n], i, b);
  }

  lemma SameFirstByte(a: seq<Byte>, b: seq<Byte>)
    requires |a| == |b| && |a| >= 1 && a[0] == b[0]
    ensures ReadFields(Parser(a, NoError)).0.hlen == ReadFields(Parser(b, NoError)).0.hlen <= 15
  {
    assert a[..1] == b[..1];
    BigEndianBound(a[..1]);
    Pow256Small();
  }

  /** The pseudo-header sum never wraps, and leaves room for any TCP segment the datagram can carry. */
  lemma PseudoChecksumRoom(h: Ipv4Header)
    ensures h.PseudoChecksum() == h.src / 0x1_0000 + h.src % 0x1_0000 + h.dst / 0x1_0000 + h.dst % 0x1_0000 +
                                  h.proto + h.PayloadLength()
    ensures h.PseudoChecksum() + 0xff00 * h.PayloadLength() < 0x1_0000_0000
  {
  }

  // ---------------------------------------------------------------- the imperative forms

  method WriteHeader(h: Ipv4Header) returns (bytes: Option<seq<Byte>>)
    ensures bytes == SerializeHeader(h)
  {
    hide Unparse, FragmentWord, Zeros;
    if h.ver != 4 || 4 * h.hlen < 20 {
      return None;
    }
    var ret := [];
    ret := AppendInt(ret, FirstByte(h), 1);
    ret := AppendInt(ret, h.tos, 1);
    ret := AppendInt(ret, h.len, 2);
    ret := AppendInt(ret, h.id, 2);
    ret := AppendInt(ret, FragmentWord(h), 2);
    ret := AppendInt(ret, h.ttl, 1);
    ret := AppendInt(ret, h.proto, 1);
    ret := AppendInt(ret, h.cksum, 2);
    ghost var lead := ret;
    ret := AppendInt(ret, h.src, 4);
    ret := AppendInt(ret, h.dst, 4);
    var pad := Zeros(4 * h.hlen - |ret|);
    ConcatAssoc(lead + Unparse(h.src, 4), Unparse(h.dst, 4), pad);
    ConcatAssoc(lead, Unparse(h.src, 4), Unparse(h.dst, 4) + pad);
    Regroup(Unparse(FirstByte(h), 1), Unparse(h.tos, 1), Unparse(h.len, 2), Unparse(h.id, 2),
            Unparse(FragmentWord(h), 2), Unparse(h.ttl, 1), Unparse(h.proto, 1), Unparse(h.cksum, 2),
            Unparse(h.src, 4) + (Unparse(h.dst, 4) + pad));
    bytes := Some(ret + pad);
  }

  method ReadHeader(previous: Ipv4Header, p: NetParser) returns (h: Ipv4Header, result: ParseResult)
    modifies p
    ensures (h, p.Abs(), result) == ParseHeader(previous, old(p.Abs()))
  {
    hide ParseInt, RemovePrefix, Flag, Pow256, Add, Value;
    var original := p.buffer;
    if |original| < 20 {
      return previous, PacketTooShort;
    }
    var first := p.U8();
    var tos := p.U8();
    var len := p.U16();
    var id := p.U16();
    var fragment := p.U16();
    var ttl := p.U8();
    var proto := p.U8();
    var cksum := p.U16();
    var src := p.U32();
    var dst := p.U32();
    h := Ipv4Header(first / 16, first % 16, tos, len, id, Flag(fragment, 0x4000), Flag(fragment, 0x2000),
                    fragment % 0x2000, ttl, proto, cksum, src, dst);
    if |original| < 4 * h.hlen {
      return h, PacketTooShort;
    }
    if h.ver != 4 {
      return h, WrongIpVersion;
    }
    if h.hlen < 5 {
      return h, HeaderTooShort;
    }
    if |original| != h.len {
      return h, TruncatedPacket;
    }
    p.Skip(h.hlen * 4 - 20);
    if p.error != NoError {
      return h, p.error;
    }
    var check := new InternetChecksum(0);
    check.AddBytes(original[..4 * h.hlen]);
    var v := check.Checksum();
    result := if v != 0 then BadChecksum else NoError;
  }

  method WriteDatagram(d: Datagram) returns (bytes: Option<seq<Byte>>)
    ensures bytes == SerializeDatagram(d)
  {
    hide Add, Value, Fields;
    if |d.payload| != d.header.PayloadLength() {
      return None;
    }
    var blank := WriteHeader(d.header.(cksum := 0));
    if blank.None? {
      return None;
    }
    var check := new InternetChecksum(0);
    check.AddBytes(blank.value);
    var c := check.Checksum();
    var filled := WriteHeader(d.header.(cksum := c));
    bytes := Some(filled.value + d.payload);
  }

  method ReadDatagram(previous: Ipv4Header, buffer: seq<Byte>) returns (d: Datagram, result: ParseResult)
    ensures (d, result) == ParseDatagram(previous, buffer)
  {
    hide ParseHeader;
    var p := new NetParser(buffer);
    var h, _ := ReadHeader(previous, p);
    d := Datagram(h, p.buffer);
    result := if |p.buffer| != h.PayloadLength() then PacketTooShort else p.error;
  }
}
