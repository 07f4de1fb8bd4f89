/** A TCP segment carried in an IPv4 datagram, with the checksum over the pseudo-header. */
module TcpOverIp {
  import opened Words
  import opened NetParsers
  import opened TcpSegments
  import TcpCodec
  import opened Ipv4Codec

  /** The length field announces exactly the segment. */
  predicate Carries(h: Ipv4Header, seg: Segment) {
    WellFormed(h) && TcpCodec.WellFormed(seg.header) && h.len == 4 * h.hlen + 4 * seg.header.doff + |seg.payload|
  }

  /** Through both layers and back: the segment that arrives is the one that was sent. */
  lemma StackRoundTrip(h: Ipv4Header, seg: Segment, previous: Ipv4Header)
    requires Carries(h, seg)
    ensures var sent := TcpCodec.SerializeSegment(seg, h.PseudoChecksum());
            && sent.Some?
            && var packet := SerializeDatagram(Datagram(h, sent.value));
            && packet.Some?
            && var (d, result) := ParseDatagram(previous, packet.value);
            && result == NoError
            && TcpCodec.ParseSegment(d.payload, d.header.PseudoChecksum()) ==
               TcpCodec.Parsed(seg.(header := seg.header.(cksum :=
                 TcpCodec.SegmentChecksum(seg, h.PseudoChecksum()))), NoError)
  {
    hide TcpCodec.ParseSegment, TcpCodec.SegmentChecksum, ParseDatagram, SerializeDatagram, TcpCodec.SerializeHeader;
    var pseudo := h.PseudoChecksum();
    PseudoChecksumRoom(h);
    assert h.PayloadLength() == 4 * seg.header.doff + |seg.payload|;
    TcpCodec.SegmentRoundTrip(seg, pseudo);
    TcpCodec.SerializedIs(seg, TcpCodec.SegmentChecksum(seg, pseudo));
    var d := Datagram(h, TcpCodec.SerializeSegment(seg, pseudo).value);
    DatagramRoundTrip(d, previous);
    PseudoIgnoresChecksum(h, HeaderChecksum(h));
  }

  lemma PseudoIgnoresChecksum(h: Ipv4Header, c: U16)
    ensures h.(cksum := c).PseudoChecksum() == h.PseudoChecksum()
  {
  }
}
