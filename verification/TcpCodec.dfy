/** The wire format of TCP headers and segments (tcp_header.cc, tcp_segment.cc). */
module TcpCodec {
  import opened Words
  import opened Checksums
  import opened NetParsers
  import opened WireFormats
  import opened TcpSegments

  // ---------------------------------------------------------------- header

  function FlagByte(h: Header): Byte {
    32 * Bit(h.urg) + 16 * Bit(h.ack) + 8 * Bit(h.psh) + 4 * Bit(h.rst) + 2 * Bit(h.syn) + Bit(h.fin)
  }

  /** The first 16 bytes of the header, before the checksum; `doff << 4` keeps only 8 bits. */
  function Leading(h: Header, rest: seq<Byte>): seq<Byte> {
    Unparse(h.sport, 2) + (Unparse(h.dport, 2) + (Unparse(h.seqno, 4) + (Unparse(h.ackno, 4) +
    (Unparse(h.doff * 16 % 0x100, 1) + (Unparse(FlagByte(h), 1) + (Unparse(h.win, 2) + rest))))))
  }

  /** The 20 fixed bytes of the header, followed by `rest`. */
  function Fields(h: Header, rest: seq<Byte>): seq<Byte> {
    Leading(h, Unparse(h.cksum, 2) + (Unparse(h.uptr, 2) + rest))
  }

  /** Throws (here: None) when the data offset is too small; otherwise pads to the advertised size. */
  function SerializeHeader(h: Header): Option<seq<Byte>> {
    if h.doff < 5 then None else Some(Fields(h, Zeros(4 * h.doff - 20)))
  }

  /** Every field is assigned, zero once the input has run out. */
  function ParseHeader(p: Parser): (Header, Parser, ParseResult) {
    ReadIsSmall(p, 2);
    var (p1, sport) := ParseInt(p, 2);
    ReadIsSmall(p1, 2);
    var (p2, dport) := ParseInt(p1, 2);
    ReadIsSmall(p2, 4);
    var (p3, seqno) := ParseInt(p2, 4);
    ReadIsSmall(p3, 4);
    var (p4, ackno) := ParseInt(p3, 4);
    ReadIsSmall(p4, 1);
    var (p5, offset) := ParseInt(p4, 1);
    var (p6, flags) := ParseInt(p5, 1);
    ReadIsSmall(p6, 2);
    var (p7, win) := ParseInt(p6, 2);
    ReadIsSmall(p7, 2);
    var (p8, cksum) := ParseInt(p7, 2);
    ReadIsSmall(p8, 2);
    var (p9, uptr) := ParseInt(p8, 2);
    var h := Header(sport, dport, seqno, ackno, offset / 16,
                    Flag(flags, 32), Flag(flags, 16), Flag(flags, 8), Flag(flags, 4), Flag(flags, 2), Flag(flags, 1),
                    win, cksum, uptr);
    if h.doff < 5 then (h, p9, HeaderTooShort)
    else
      var p10 := RemovePrefix(p9, h.doff * 4 - 20);
      (h, p10, p10.error)
  }

  predicate WellFormed(h: Header) {
    5 <= h.doff <= 15
  }

  lemma FlagsRoundTrip(h: Header)
    ensures var f := FlagByte(h);
            && Flag(f, 32) == h.urg && Flag(f, 16) == h.ack && Flag(f, 8) == h.psh
            && Flag(f, 4) == h.rst && Flag(f, 2) == h.syn && Flag(f, 1) == h.fin
  {
  }

  /** Whatever the data offset, reading the fields of a header returns them; four bits of the offset are kept. */
  lemma FieldsRead(h: Header, tail: seq<Byte>)
    ensures var (h', p, result) := ParseHeader(Parser(Fields(h, tail), NoError));
            && h' == h.(doff := h.doff % 16)
            && (h'.doff < 5 ==> p == Parser(tail, NoError))
            && (h'.doff >= 5 ==> p == RemovePrefix(Parser(tail, NoError), h'.doff * 4 - 20) && result == p.error)
  {
    hide FlagByte, Flag, BigEndian, Unparse, ParseInt, Pow256, RemovePrefix;
    Pow256Small();
    var b9 := Unparse(h.uptr, 2) + tail;
    var b8 := Unparse(h.cksum, 2) + b9;
    var b7 := Unparse(h.win, 2) + b8;
    var b6 := Unparse(FlagByte(h), 1) + b7;
    var b5 := Unparse(h.doff * 16 % 0x100, 1) + b6;
    var b4 := Unparse(h.ackno, 4) + b5;
    var b3 := Unparse(h.seqno, 4) + b4;
    var b2 := Unparse(h.dport, 2) + b3;
    ParseUnparse(h.sport, 2, b2);
    ParseUnparse(h.dport, 2, b3);
    ParseUnparse(h.seqno, 4, b4);
    ParseUnparse(h.ackno, 4, b5);
    ParseUnparse(h.doff * 16 % 0x100, 1, b6);
    ParseUnparse(FlagByte(h), 1, b7);
    ParseUnparse(h.win, 2, b8);
    ParseUnparse(h.cksum, 2, b9);
    ParseUnparse(h.uptr, 2, tail);
    FlagsRoundTrip(h);
    assert h.doff * 16 % 0x100 / 16 == h.doff % 16;
  }

  /** Parsing the fields of a header returns exactly that header and leaves the padding. */
  lemma HeaderRoundTrip(h: Header, rest: seq<Byte>)
    requires WellFormed(h)
    ensures ParseHeader(Parser(Fields(h, Zeros(4 * h.doff - 20) + rest), NoError)) ==
            (h, Parser(rest, NoError), NoError)
  {
    hide ParseHeader, Fields, Zeros;
    var tail := Zeros(4 * h.doff - 20) + rest;
    FieldsRead(h, tail);
    assert tail[4 * h.doff - 20..] == rest;
  }

  // ---------------------------------------------------------------- segment

  datatype ParsedSegment = Rejected(why: ParseResult) | Parsed(segment: Segment, result: ParseResult)

  /** The checksum over the header with a zero checksum field, then the payload. */
  function SegmentChecksum(seg: Segment, pseudo: U32): U16
    requires seg.header.doff >= 5
  {
    var (mid, odd) := Add(pseudo, false, SerializeHeader(seg.header.(cksum := 0)).value);
    Value(Add(mid, odd, seg.payload).0)
  }

  function SerializeSegment(seg: Segment, pseudo: U32): Option<seq<Byte>> {
    if seg.header.doff < 5 then None
    else Some(SerializeHeader(seg.header.(cksum := SegmentChecksum(seg, pseudo))).value + seg.payload)
  }

  /** The result of the header parser is not looked at; only the parser's own error is reported. */
  function ParseSegment(buffer: seq<Byte>, pseudo: U32): ParsedSegment {
    if Value(Add(pseudo, false, buffer).0) != 0 then Rejected(BadChecksum)
    else
      var (h, p, _) := ParseHeader(Parser(buffer, NoError));
      Parsed(Segment(h, p.buffer), p.error)
  }

  lemma LeadingSplit(h: Header, rest: seq<Byte>)
    ensures Leading(h, rest) == Leading(h, []) + rest && |Leading(h, [])| == 16
  {
    hide Unparse, FlagByte;
    var a7 := Unparse(h.win, 2) + [];
    var a6 := Unparse(FlagByte(h), 1) + a7;
    var a5 := Unparse(h.doff * 16 % 0x100, 1) + a6;
    var a4 := Unparse(h.ackno, 4) + a5;
    var a3 := Unparse(h.seqno, 4) + a4;
    var a2 := Unparse(h.dport, 2) + a3;
    assert Unparse(h.win, 2) + rest == a7 + rest;
    ConcatAssoc(Unparse(FlagByte(h), 1), a7, rest);
    ConcatAssoc(Unparse(h.doff * 16 % 0x100, 1), a6, rest);
    ConcatAssoc(Unparse(h.ackno, 4), a5, rest);
    ConcatAssoc(Unparse(h.seqno, 4), a4, rest);
    ConcatAssoc(Unparse(h.dport, 2), a3, rest);
    ConcatAssoc(Unparse(h.sport, 2), a2, rest);
  }

  lemma FieldsAppend(h: Header, a: seq<Byte>, b: seq<Byte>)
    ensures Fields(h, a) + b == Fields(h, a + b) && |Fields(h, a)| == 20 + |a|
  {
    hide Leading, Unparse;
    var c, u := Unparse(h.cksum, 2), Unparse(h.uptr, 2);
    LeadingSplit(h, c + (u + a));
    LeadingSplit(h, c + (u + (a + b)));
    ConcatAssoc(u, a, b);
    ConcatAssoc(c, u + a, b);
    ConcatAssoc(Leading(h, []), c + (u + a), b);
  }

  /** Filling in the checksum field adds exactly the checksum to the sum. */
  lemma ChecksumFieldAdds(h: Header, c: U16, rest: seq<Byte>)
    ensures Total(Fields(h.(cksum := c), rest), false) == Total(Fields(h.(cksum := 0), rest), false) + c
  {
    hide Total, Leading, Unparse;
    var tail := Unparse(h.uptr, 2) + rest;
    assert Leading(h.(cksum := c), Unparse(c, 2) + tail) == Leading(h, Unparse(c, 2) + tail) by {
      LeadingIgnoresChecksum(h, c, Unparse(c, 2) + tail);
    }
    assert Leading(h.(cksum := 0), Unparse(0, 2) + tail) == Leading(h, Unparse(0, 2) + tail) by {
      LeadingIgnoresChecksum(h, 0, Unparse(0, 2) + tail);
    }
    LeadingSplit(h, Unparse(c, 2) + tail);
    LeadingSplit(h, Unparse(0, 2) + tail);
    TotalConcat(Leading(h, []), Unparse(c, 2) + tail, false);
    TotalConcat(Leading(h, []), Unparse(0, 2) + tail, false);
    TotalConcat(Unparse(c, 2), tail, false);
    TotalConcat(Unparse(0, 2), tail, false);
    TotalOfWord(c);
    TotalOfWord(0);
  }

  lemma LeadingIgnoresChecksum(h: Header, c: U16, rest: seq<Byte>)
    ensures Leading(h.(cksum := c), rest) == Leading(h, rest)
  {
    assert FlagByte(h.(cksum := c)) == FlagByte(h);
  }

  /** The bytes of a segment: its fixed fields, then padding and payload. */
  lemma SerializedIs(seg: Segment, c: U16)
    requires seg.header.doff >= 5
    ensures SerializeHeader(seg.header.(cksum := c)).value + seg.payload ==
            Fields(seg.header.(cksum := c), Zeros(4 * seg.header.doff - 20) + seg.payload)
    ensures |SerializeHeader(seg.header.(cksum := c)).value + seg.payload| == 4 * seg.header.doff + |seg.payload|
  {
    hide Fields, Zeros;
    FieldsAppend(seg.header.(cksum := c), Zeros(4 * seg.header.doff - 20), seg.payload);
  }

  /** The serialized segment sums, with the pseudo-header, to a positive multiple of 65535. */
  lemma SerializedChecksOut(seg: Segment, pseudo: U32)
    requires seg.header.doff >= 5
    requires pseudo + 0xff00 * (4 * seg.header.doff + |seg.payload|) < 0x1_0000_0000
    ensures Value(Add(pseudo, false, SerializeSegment(seg, pseudo).value).0) == 0
  {
    hide Add, Value, Total, Fields, SerializeHeader, Zeros, Unparse;
    var c := SegmentChecksum(seg, pseudo);
    var pad := Zeros(4 * seg.header.doff - 20) + seg.payload;
    var blank := Fields(seg.header.(cksum := 0), pad);
    var bytes := Fields(seg.header.(cksum := c), pad);
    SerializedIs(seg, 0);
    SerializedIs(seg, c);
    HeaderFails(seg.header, 0);
    AddSplit(pseudo, false, SerializeHeader(seg.header.(cksum := 0)).value, seg.payload);
    TotalBound(blank, false);
    TotalBound(bytes, false);
    AddIsTotal(pseudo, false, blank);
    AddIsTotal(pseudo, false, bytes);
    ChecksumFieldAdds(seg.header, c, pad);
    ValueCompletes(pseudo + Total(blank, false));
    ValueZero(pseudo + Total(bytes, false));
  }

  /**
   For every well-formed header, payload and pseudo-header sum (lengths of 16 bits never overflow the sum):
   parsing the serialized segment succeeds and returns the same fields and payload, the checksum filled in.
   */
  lemma SegmentRoundTrip(seg: Segment, pseudo: U32)
    requires WellFormed(seg.header)
    requires pseudo + 0xff00 * (4 * seg.header.doff + |seg.payload|) < 0x1_0000_0000
    ensures SerializeSegment(seg, pseudo).Some?
    ensures ParseSegment(SerializeSegment(seg, pseudo).value, pseudo) ==
            Parsed(seg.(header := seg.header.(cksum := SegmentChecksum(seg, pseudo))), NoError)
  {
    hide Add, Value, Fields, SerializeHeader, ParseHeader, SegmentChecksum, Zeros;
    var h := seg.header.(cksum := SegmentChecksum(seg, pseudo));
    SerializedChecksOut(seg, pseudo);
    SerializedIs(seg, h.cksum);
    HeaderRoundTrip(h, seg.payload);
  }

  /** Any one byte changed on the way: the segment is rejected. */
  lemma CorruptSegmentRejected(seg: Segment, pseudo: U32, i: nat, b: Byte)
    requires WellFormed(seg.header)
    requires pseudo + 0xff00 * (4 * seg.header.doff + |seg.payload|) < 0x1_0000_0000
    requires i < 4 * seg.header.doff + |seg.payload|
    ensures var bytes := SerializeSegment(seg, pseudo).value;
            i < |bytes| && (bytes[i] != b ==> ParseSegment(bytes[i := b], pseudo) == Rejected(BadChecksum))
  {
    hide Add, Value, SerializeHeader, ParseHeader, SegmentChecksum;
    SerializedIs(seg, SegmentChecksum(seg, pseudo));
    SerializedChecksOut(seg, pseudo);
    var bytes := SerializeSegment(seg, pseudo).value;
    if bytes[i] != b {
      SingleByteDetected(pseudo, bytes, i, b);
    }
  }

  /** The parser has consumed `k` bytes of `buffer`, or has failed because there were fewer. */
  predicate At(p: Parser, buffer: seq<Byte>, k: nat) {
    if k <= |buffer| then p == Parser(buffer[k..], NoError) else p.error != NoError
  }

  lemma Advance(p: Parser, buffer: seq<Byte>, k: nat, len: nat)
    requires At(p, buffer, k)
    ensures At(ParseInt(p, len).0, buffer, k + len)
  {
  }

  /**
   The header parser accepts exactly the inputs that hold a whole header of at least the minimum size. A data offset
   below the minimum does not set the error of the underlying parser.
   */
  lemma HeaderAccepts(buffer: seq<Byte>)
    ensures var (h, p, result) := ParseHeader(Parser(buffer, NoError));
            && (result == NoError <==> h.doff >= 5 && 20 <= |buffer| && 4 * h.doff <= |buffer|)
            && (result == NoError ==> p == Parser(buffer[4 * h.doff..], NoError))
            && (p.error == NoError <==> 20 <= |buffer| && 4 * h.doff <= |buffer|)
            && (p.error == NoError && h.doff < 5 ==> p.buffer == buffer[20..])
  {
    hide ParseInt, Flag, Pow256, BigEndian;
    var p := Parser(buffer, NoError);
    Advance(p, buffer, 0, 2);
    var p1 := ParseInt(p, 2).0;
    Advance(p1, buffer, 2, 2);
    var p2 := ParseInt(p1, 2).0;
    Advance(p2, buffer, 4, 4);
    var p3 := ParseInt(p2, 4).0;
    Advance(p3, buffer, 8, 4);
    var p4 := ParseInt(p3, 4).0;
    Advance(p4, buffer, 12, 1);
    var p5 := ParseInt(p4, 1).0;
    Advance(p5, buffer, 13, 1);
    var p6 := ParseInt(p5, 1).0;
    Advance(p6, buffer, 14, 2);
    var p7 := ParseInt(p6, 2).0;
    Advance(p7, buffer, 16, 2);
    var p8 := ParseInt(p7, 2).0;
    Advance(p8, buffer, 18, 2);
  }

  // ---------------------------------------------------------------- the imperative forms

  method WriteHeader(h: Header) returns (bytes: Option<seq<Byte>>)
    ensures bytes == SerializeHeader(h)
  {
    hide Unparse, FlagByte, Zeros;
    if h.doff < 5 {
      return None;
    }
    var ret := [];
    ret := AppendInt(ret, h.sport, 2);
    ret := AppendInt(ret, h.dport, 2);
    ret := AppendInt(ret, h.seqno, 4);
    ret := AppendInt(ret, h.ackno, 4);
    ret := AppendInt(ret, h.doff * 16 % 0x100, 1);
    ret := AppendInt(ret, FlagByte(h), 1);
    ret := AppendInt(ret, h.win, 2);
    ret := AppendInt(ret, h.cksum, 2);
    ghost var lead := ret;
    ret := AppendInt(ret, h.uptr, 2);
    var pad := Zeros(4 * h.doff - |ret|);
    Regroup(Unparse(h.sport, 2), Unparse(h.dport, 2), Unparse(h.seqno, 4), Unparse(h.ackno, 4),
            Unparse(h.doff * 16 % 0x100, 1), Unparse(FlagByte(h), 1), Unparse(h.win, 2), Unparse(h.cksum, 2),
            Unparse(h.uptr, 2) + pad);
    ConcatAssoc(lead, Unparse(h.uptr, 2), pad);
    bytes := Some(ret + pad);
  }

  method ReadHeader(p: NetParser) returns (h: Header, result: ParseResult)
    modifies p
    ensures (h, p.Abs(), result) == ParseHeader(old(p.Abs()))
  {
    hide ParseInt, RemovePrefix, Flag, Pow256;
    var sport := p.U16();
    var dport := p.U16();
    var seqno := p.U32();
    var ackno := p.U32();
    var offset := p.U8();
    var flags := p.U8();
    var win := p.U16();
    var cksum := p.U16();
    var uptr := p.U16();
    h := Header(sport, dport, seqno, ackno, offset / 16,
                Flag(flags, 32), Flag(flags, 16), Flag(flags, 8), Flag(flags, 4), Flag(flags, 2), Flag(flags, 1),
                win, cksum, uptr);
    if h.doff < 5 {
      return h, HeaderTooShort;
    }
    p.Skip(h.doff * 4 - 20);
    result := p.error;
  }

  method WriteSegment(seg: Segment, pseudo: U32) returns (bytes: Option<seq<Byte>>)
    ensures bytes == SerializeSegment(seg, pseudo)
  {
    hide SerializeHeader, Add, Value;
    var blank := WriteHeader(seg.header.(cksum := 0));
    if blank.None? {
      HeaderFails(seg.header, 0);
      return None;
    }
    HeaderFails(seg.header, 0);
    var check := new InternetChecksum(pseudo);
    check.AddBytes(blank.value);
    check.AddBytes(seg.payload);
    var c := check.Checksum();
    var filled := WriteHeader(seg.header.(cksum := c));
    HeaderFails(seg.header, c);
    bytes := Some(filled.value + seg.payload);
  }

  lemma HeaderFails(h: Header, c: U16)
    ensures SerializeHeader(h.(cksum := c)).None? <==> h.doff < 5
  {
  }

  method ReadSegment(buffer: seq<Byte>, pseudo: U32) returns (r: ParsedSegment)
    ensures r == ParseSegment(buffer, pseudo)
  {
    hide Add, Value, ParseHeader;
    var check := new InternetChecksum(pseudo);
    check.AddBytes(buffer);
    var v := check.Checksum();
    if v != 0 {
      return Rejected(BadChecksum);
    }
    var p := new NetParser(buffer);
    var h, _ := ReadHeader(p);
    r := Parsed(Segment(h, p.buffer), p.error);
  }
}
