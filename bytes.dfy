/** Byte-level vocabulary shared by the SOCKS5 session, the UDP relay, the
    access guard and the ACL matcher: octets, the JVM exceptions that the
    core lets escape, ports as two big-endian bytes, and the way
    `InetAddress.getByAddress` turns a raw byte array into an address. */
module Bytes {

  /** An octet on the wire. Kotlin reads it as a signed `Byte`; every place
      the core compares or widens one does so as if it were unsigned, so it
      is modelled by its unsigned value. */
  newtype Byte = x: int | 0 <= x < 256

  datatype Option<+T> = None | Some(value: T)

  /** The exceptions that the library calls of the core can raise. */
  datatype Fault =
    | NegativeArraySize   // ByteArray(n) with n == -1, after a read at end of stream
    | IllegalArgument     // readNBytes(-1)
    | UnknownHost         // InetAddress.getByAddress / getByName refuses its input
    | BufferUnderflow     // ByteBuffer.getShort on fewer than two bytes
    | IndexOutOfBounds    // an array or string index past the end
    | ConnectFailed       // the outbound connect threw
    | BindFailed          // the UDP relay could not be started

  /** A value, or the exception that escaped while computing it. */
  datatype Res<+T> = Ok(value: T) | Raised(fault: Fault)

  /** `x.toByte()`: the low eight bits of an integer. */
  function LowByte(x: int): (b: Byte)
    ensures b as int == x % 256
  {
    (x % 256) as Byte
  }

  /** `ByteBuffer.getShort().toInt() and 0xFFFF`: the unsigned big-endian
      value of two bytes. */
  function PortOf(hi: Byte, lo: Byte): (p: int)
    ensures 0 <= p < 65536
  {
    hi as int * 256 + lo as int
  }

  /** The two bytes that `ByteBuffer.putShort(port.toShort())` writes:
      the low sixteen bits of `port`, most significant byte first. */
  function PortBytes(port: int): (s: seq<Byte>)
    ensures |s| == 2
  {
    [LowByte(port / 256), LowByte(port)]
  }

  /** Writing a port and reading it back gives the port modulo 2^16: the
      `toShort()` truncation is the only loss. */
  lemma PortRoundTrip(port: int)
    ensures PortOf(PortBytes(port)[0], PortBytes(port)[1]) == port % 65536
  {
    var s := PortBytes(port);
    assert s[0] as int == (port / 256) % 256 && s[1] as int == port % 256;
    PortArithmetic(port);
  }

  lemma PortArithmetic(port: int)
    ensures ((port / 256) % 256) * 256 + port % 256 == port % 65536
  {
    var q := port / 256;
    var k := q / 256;
    var hi, lo := q % 256, port % 256;
    assert port == 256 * q + lo;
    assert q == 256 * k + hi;
    assert port == 65536 * k + (256 * hi + lo);
    assert 0 <= 256 * hi + lo < 65536;
  }

  /** Reading two bytes as a port and writing the port again gives the
      same two bytes. */
  lemma PortBytesOfPort(hi: Byte, lo: Byte)
    ensures PortBytes(PortOf(hi, lo)) == [hi, lo]
  {
    var h, l := hi as int, lo as int;
    var p := PortOf(hi, lo);
    assert p == h * 256 + l;
    assert p / 256 == h && p % 256 == l;
    var a, b := LowByte(p / 256), LowByte(p);
    assert 0 <= h < 256;
    SmallMod(h);
    assert a as int == (p / 256) % 256;
    assert a as int == h;
    assert b as int == l;
    SameValueSameByte(a, hi);
    SameValueSameByte(b, lo);
    assert PortBytes(p) == [a, b];
  }

  lemma SmallMod(x: int)
    requires 0 <= x < 256
    ensures x % 256 == x
  {
  }

  /** A value that fits in a byte survives `toByte()`. */
  lemma LowByteSmall(x: int)
    requires 0 <= x < 256
    ensures LowByte(x) as int == x
  {
    SmallMod(x);
  }

  lemma SameValueSameByte(a: Byte, b: Byte)
    requires a as int == b as int
    ensures a == b
  {
  }

  /** ::ffff:a.b.c.d, the IPv6 form of an IPv4 address. */
  predicate IsV4Mapped(raw: seq<Byte>)
  {
    && |raw| == 16
    && (forall i | 0 <= i < 10 :: raw[i] == 0)
    && raw[10] == 0xFF && raw[11] == 0xFF
  }

  /** `InetAddress.getByAddress(raw).address`: a four-byte or sixteen-byte
      array is an address and anything else raises; an IPv4-mapped IPv6
      address comes back as the four-byte IPv4 address it embeds. */
  function AddressOf(raw: seq<Byte>): (r: Res<seq<Byte>>)
    ensures r.Ok? <==> |raw| == 4 || |raw| == 16
    ensures r.Raised? ==> r.fault == UnknownHost
    ensures r.Ok? ==> |r.value| == 4 || |r.value| == 16
    ensures r.Ok? ==> (r.value == raw <==> !IsV4Mapped(raw))
  {
    if |raw| == 4 then Ok(raw)
    else if |raw| == 16 then (if IsV4Mapped(raw) then Ok(raw[12..]) else Ok(raw))
    else Raised(UnknownHost)
  }
}
