/** TCP segments as values (tcp_header.hh, tcp_segment.hh) and the symbols they carry in sequence space. */
module TcpSegments {
  import opened Words

  datatype Header = Header(sport: U16, dport: U16, seqno: U32, ackno: U32, doff: Byte,
                           urg: bool, ack: bool, psh: bool, rst: bool, syn: bool, fin: bool,
                           win: U16, cksum: U16, uptr: U16)

  datatype Segment = Segment(header: Header, payload: seq<Byte>)
  {
    /** Payload length plus one for SYN and one for FIN. */
    function Length(): nat {
      |payload| + (if header.syn then 1 else 0) + (if header.fin then 1 else 0)
    }
  }

  function BlankHeader(): Header {
    Header(0, 0, 0, 0, 5, false, false, false, false, false, false, 0, 0, 0)
  }

  /** What occupies one sequence number. */
  datatype Symbol = SynMark | Data(b: Byte) | FinMark

  function AsData(bytes: seq<Byte>): (s: seq<Symbol>)
    ensures |s| == |bytes| && forall i :: 0 <= i < |bytes| ==> s[i] == Data(bytes[i])
  {
    seq(|bytes|, i requires 0 <= i < |bytes| => Data(bytes[i]))
  }

  function Symbols(seg: Segment): (s: seq<Symbol>)
    ensures |s| == seg.Length()
  {
    (if seg.header.syn then [SynMark] else []) + AsData(seg.payload) + (if seg.header.fin then [FinMark] else [])
  }
}
