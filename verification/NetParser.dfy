/** Reading and writing integers in network byte order (parser.hh and .cc). */
module NetParsers {
  import opened Words

  datatype ParseResult =
    | NoError
    | BadChecksum
    | PacketTooShort
    | WrongIpVersion
    | HeaderTooShort
    | TruncatedPacket
    | Unsupported

  datatype Parser = Parser(buffer: seq<Byte>, error: ParseResult)

  function Pow256(n: nat): (p: nat)
    ensures p > 0
  {
    if n == 0 then 1 else 0x100 * Pow256(n - 1)
  }

  function BigEndian(bytes: seq<Byte>): nat {
    if bytes == [] then 0 else BigEndian(bytes[..|bytes| - 1]) * 0x100 + bytes[|bytes| - 1]
  }

  /** The big-endian bytes of the low `len` bytes of `val`. */
  function Unparse(val: nat, len: nat): (bytes: seq<Byte>)
    ensures |bytes| == len
  {
    if len == 0 then [] else Unparse(val / 0x100, len - 1) + [val % 0x100]
  }

  /** Asking for more than is left sets the error, which sticks: nothing is consumed any more and zero is returned. */
  function ParseInt(p: Parser, len: nat): (Parser, nat) {
    if len > |p.buffer| then (p.(error := PacketTooShort), 0)
    else if p.error != NoError then (p, 0)
    else (Parser(p.buffer[len..], NoError), BigEndian(p.buffer[..len]))
  }

  function RemovePrefix(p: Parser, n: nat): Parser {
    if n > |p.buffer| then p.(error := PacketTooShort)
    else if p.error != NoError then p
    else p.(buffer := p.buffer[n..])
  }

  lemma {:induction false} BigEndianBound(bytes: seq<Byte>)
    ensures BigEndian(bytes) < Pow256(|bytes|)
  {
    if bytes != [] {
      BigEndianBound(bytes[..|bytes| - 1]);
    }
  }

  lemma {:induction false} BigEndianUnparse(val: nat, len: nat)
    requires val < Pow256(len)
    ensures BigEndian(Unparse(val, len)) == val
  {
    if len > 0 {
      BigEndianUnparse(val / 0x100, len - 1);
      var bytes := Unparse(val, len);
      assert bytes[..len - 1] == Unparse(val / 0x100, len - 1);
    }
  }

  /** Parsing what was written returns it and leaves the rest. */
  lemma ParseUnparse(val: nat, len: nat, rest: seq<Byte>)
    requires val < Pow256(len)
    ensures ParseInt(Parser(Unparse(val, len) + rest, NoError), len) == (Parser(rest, NoError), val)
  {
    var buffer := Unparse(val, len) + rest;
    assert buffer[..len] == Unparse(val, len) && buffer[len..] == rest;
    BigEndianUnparse(val, len);
  }

  /** Reading and skipping work while there is enough left and nothing failed before; else nothing is consumed. */
  lemma FailureSticks(p: Parser, len: nat)
    ensures var (p', value) := ParseInt(p, len);
            && (p'.error == NoError <==> p.error == NoError && len <= |p.buffer|)
            && p'.buffer == (if p'.error == NoError then p.buffer[len..] else p.buffer)
            && (p'.error != NoError ==> value == 0)
            && RemovePrefix(p, len) == p'
  {
  }

  lemma Pow256Small()
    ensures Pow256(1) == 0x100 && Pow256(2) == 0x1_0000 && Pow256(4) == 0x1_0000_0000
  {
    assert Pow256(3) == 0x100_0000;
  }

  /** `val >> (8 * n)` */
  function Shifted(val: nat, n: nat): nat {
    if n == 0 then val else Shifted(val, n - 1) / 0x100
  }

  // ---------------------------------------------------------------- the imperative forms

  class NetParser {
    var buffer: seq<Byte>
    var error: ParseResult

    ghost function Abs(): Parser
      reads this
    {
      Parser(buffer, error)
    }

    constructor (buffer: seq<Byte>)
      ensures Abs() == Parser(buffer, NoError)
    {
      this.buffer, error := buffer, NoError;
    }

    method CheckSize(size: nat)
      modifies `error
      ensures error == if size > |buffer| then PacketTooShort else old(error)
    {
      if size > |buffer| {
        error := PacketTooShort;
      }
    }

    method ReadInt(len: nat) returns (ret: nat)
      modifies this
      ensures (Abs(), ret) == ParseInt(old(Abs()), len)
    {
      CheckSize(len);
      if error != NoError {
        return 0;
      }
      ret := 0;
      var i := 0;
      while i < len
        invariant 0 <= i <= len
        invariant ret == BigEndian(buffer[..i])
      {
        assert buffer[..i + 1][..i] == buffer[..i];
        ret := ret * 0x100 + buffer[i];
        i := i + 1;
      }
      buffer := buffer[len..];
    }

    method Skip(n: nat)
      modifies this
      ensures Abs() == RemovePrefix(old(Abs()), n)
    {
      CheckSize(n);
      if error != NoError {
        return;
      }
      buffer := buffer[n..];
    }

    method U8() returns (b: Byte)
      modifies this
      ensures (Abs(), b) == ParseInt(old(Abs()), 1)
    {
      ReadIsSmall(Abs(), 1);
      b := ReadInt(1);
    }

    method U16() returns (w: U16)
      modifies this
      ensures (Abs(), w) == ParseInt(old(Abs()), 2)
    {
      ReadIsSmall(Abs(), 2);
      w := ReadInt(2);
    }

    method U32() returns (w: U32)
      modifies this
      ensures (Abs(), w) == ParseInt(old(Abs()), 4)
    {
      ReadIsSmall(Abs(), 4);
      w := ReadInt(4);
    }
  }

  lemma ReadIsSmall(p: Parser, len: nat)
    ensures ParseInt(p, len).1 < Pow256(len)
    ensures Pow256(1) == 0x100 && Pow256(2) == 0x1_0000 && Pow256(4) == 0x1_0000_0000
  {
    Pow256Small();
    if len <= |p.buffer| {
      BigEndianBound(p.buffer[..len]);
    }
  }

  /** Append the bytes of `val`, most significant first. */
  method AppendInt(s: seq<Byte>, val: nat, len: nat) returns (out: seq<Byte>)
    ensures out == s + Unparse(val, len)
  {
    out := s;
    var i := 0;
    while i < len
      invariant 0 <= i <= len
      invariant out == s + Unparse(Shifted(val, len - i), i)
    {
      out := out + [Shifted(val, len - i - 1) % 0x100];
      i := i + 1;
    }
  }
}
