/** The sockaddr record exchanged with the native layer (getsockname, getpeername,
    recvfrom) and its decoding into a socket address (NativeSocket.makeAddress).

    The record is 25 bytes: byte 0 is the length of the meaningful part of the
    sockaddr that follows, and bytes 1..24 are a POSIX `sockaddr_in` or
    `sockaddr_in6` without its scope id: family (bytes 1-2), port in network
    byte order (bytes 3-4), then `sin_addr` (bytes 5-8) for IPv4, or
    `sin6_flowinfo` (bytes 5-8) and `sin6_addr` (bytes 9-24) for IPv6. */
module AddressCodec {
  import opened Wrappers
  import opened JavaLang

  /** One size byte plus 24 bytes, the largest sockaddr the record carries. */
  const SOCKADDR_SIZE: nat := 1 + 24

  /** Size tags: family + port + address of sockaddr_in (2 + 2 + 4) and of
      sockaddr_in6 up to sin6_addr (2 + 2 + 4 + 16). */
  const IPV4_TAG: int8 := 8
  const IPV6_TAG: int8 := 24

  const IPV4_ADDR_LEN: nat := 4
  const IPV6_ADDR_LEN: nat := 16

  type Record = s: seq<int8> | |s| == SOCKADDR_SIZE witness Zeros(SOCKADDR_SIZE)

  function Zeros(n: nat): (z: seq<int8>)
    ensures |z| == n && forall i :: 0 <= i < n ==> z[i] == 0
  {
    seq(n, _ => 0)
  }

  /** The array `new byte[SOCKADDR_SIZE]` before the native layer fills it. */
  const EmptyRecord: Record := Zeros(SOCKADDR_SIZE)

  /** java.net.InetAddress, known here by its raw address bytes (getAddress()). */
  datatype InetAddress = InetAddress(bytes: seq<int8>)

  /** java.net.InetSocketAddress built from a host and a port. */
  datatype InetSocketAddress = InetSocketAddress(host: InetAddress, port: int)

  /** What the record itself says: the raw address bytes and the port. */
  datatype RawAddress = RawAddress(addr: seq<int8>, port: int)

  /** An address that has a record: 4 or 16 address bytes and a 16-bit port. */
  predicate Encodable(a: RawAddress) {
    (|a.addr| == IPV4_ADDR_LEN || |a.addr| == IPV6_ADDR_LEN) && 0 <= a.port < 0x1_0000
  }

  /** `(hi & 0xff) << 8 | (lo & 0xff)`: the low eight bits of the shifted
      value are zero, so the `|` is an addition. */
  function PortOf(hi: int8, lo: int8): (p: int)
    ensures 0 <= p < 0x1_0000
  {
    Unsigned(hi) * 0x100 + Unsigned(lo)
  }

  /** The two network-order bytes a port occupies. */
  function PortBytes(port: int): (hl: (int8, int8))
    requires 0 <= port < 0x1_0000
  {
    (Signed(port / 0x100), Signed(port % 0x100))
  }

  /** Encoding a port into bytes 3-4 and decoding it gives the port back. */
  lemma PortRoundTrip(port: int)
    requires 0 <= port < 0x1_0000
    ensures PortOf(PortBytes(port).0, PortBytes(port).1) == port
  {
  }

  /** Any two bytes are the encoding of the port they decode to. */
  lemma PortBytesRoundTrip(hi: int8, lo: int8)
    ensures 0 <= PortOf(hi, lo) < 0x1_0000
    ensures PortBytes(PortOf(hi, lo)) == (hi, lo)
  {
    SignedUnsigned(hi);
    SignedUnsigned(lo);
  }

  /** The part of makeAddress before InetAddress.getByAddress: pick the
      address bytes by size tag, or give up on an unknown tag. */
  function Decode(b: Record): (r: Option<RawAddress>)
    ensures r.Some? <==> b[0] == IPV4_TAG || b[0] == IPV6_TAG
    ensures r.Some? ==> Encodable(r.value)
    ensures r.Some? ==> (|r.value.addr| == IPV4_ADDR_LEN <==> b[0] == IPV4_TAG)
  {
    if b[0] == IPV4_TAG then Some(RawAddress(b[5..9], PortOf(b[3], b[4])))
    else if b[0] == IPV6_TAG then Some(RawAddress(b[9..25], PortOf(b[3], b[4])))
    else None
  }

  /** Tag 8: the address is the four bytes of sin_addr. */
  lemma DecodeIPv4(b: Record)
    requires b[0] == IPV4_TAG
    ensures Decode(b) == Some(RawAddress(b[5..9], Unsigned(b[3]) * 0x100 + Unsigned(b[4])))
  {
  }

  /** Tag 24: the address is the sixteen bytes of sin6_addr, which end exactly
      at the end of the record. */
  lemma DecodeIPv6(b: Record)
    requires b[0] == IPV6_TAG
    ensures Decode(b) == Some(RawAddress(b[9..SOCKADDR_SIZE], Unsigned(b[3]) * 0x100 + Unsigned(b[4])))
  {
  }

  /** Decoding reads only the tag, the port and the address window: the family
      bytes, the IPv6 flow info and whatever follows an IPv4 address are ignored. */
  lemma DecodeReadsOnlyFields(b: Record, c: Record)
    requires b[0] == c[0] && b[3] == c[3] && b[4] == c[4]
    requires b[0] == IPV4_TAG ==> b[5..9] == c[5..9]
    requires b[0] == IPV6_TAG ==> b[9..] == c[9..]
    ensures Decode(b) == Decode(c)
  {
    assert b[9..] == b[9..SOCKADDR_SIZE] && c[9..] == c[9..SOCKADDR_SIZE];
  }

  /** The canonical record of an address: family, flow-info and padding bytes
      zero. A record from the kernel carries AF_INET/AF_INET6 in bytes 1-2 and
      may carry flow info, but Decode ignores those bytes (DecodeReadsOnlyFields),
      so it agrees with the canonical record on everything Decode reads
      (EncodeAgreesWithDecoded). */
  function Encode(a: RawAddress): (b: Record)
    requires Encodable(a)
  {
    var (hi, lo) := PortBytes(a.port);
    if |a.addr| == IPV4_ADDR_LEN then [IPV4_TAG, 0, 0, hi, lo] + a.addr + Zeros(16)
    else [IPV6_TAG, 0, 0, hi, lo] + Zeros(4) + a.addr
  }

  /** decode(encode(a)) == a for IPv4 and IPv6 alike. */
  lemma {:induction false} DecodeEncode(a: RawAddress)
    requires Encodable(a)
    ensures Decode(Encode(a)) == Some(a)
  {
    var b := Encode(a);
    PortRoundTrip(a.port);
    if |a.addr| == IPV4_ADDR_LEN {
      assert b[5..9] == a.addr;
    } else {
      assert b[9..25] == a.addr;
    }
  }

  /** A record as Encode writes it: known tag, zero family bytes, zero bytes
      outside the port and the address. Records from the kernel differ from
      canonical ones only in bytes that Decode never reads. */
  predicate Canonical(b: Record) {
    && (b[0] == IPV4_TAG || b[0] == IPV6_TAG)
    && b[1] == 0 && b[2] == 0
    && (b[0] == IPV4_TAG ==> forall i :: 9 <= i < SOCKADDR_SIZE ==> b[i] == 0)
    && (b[0] == IPV6_TAG ==> forall i :: 5 <= i < 9 ==> b[i] == 0)
  }

  /** Every encoded record is canonical, and every canonical record is the
      encoding of what it decodes to: the codec is a bijection between
      encodable addresses and canonical records. */
  lemma {:induction false} EncodeDecode(b: Record)
    requires Canonical(b)
    ensures Decode(b).Some? && Encode(Decode(b).value) == b
  {
    var a := Decode(b).value;
    PortBytesRoundTrip(b[3], b[4]);
    var e := Encode(a);
    forall i | 0 <= i < SOCKADDR_SIZE ensures e[i] == b[i] {
    }
  }

  /** Any decodable record, family and flow-info bytes included, agrees with the
      canonical encoding of what it decodes to on the tag, the port bytes and
      the address window, and so decodes exactly as that encoding does. */
  lemma EncodeAgreesWithDecoded(b: Record)
    requires Decode(b).Some?
    ensures var e := Encode(Decode(b).value);
      && e[0] == b[0] && e[3] == b[3] && e[4] == b[4]
      && (b[0] == IPV4_TAG ==> e[5..9] == b[5..9])
      && (b[0] == IPV6_TAG ==> e[9..] == b[9..])
      && Decode(e) == Decode(b)
  {
    var a := Decode(b).value;
    PortBytesRoundTrip(b[3], b[4]);
    DecodeEncode(a);
  }

  lemma EncodeCanonical(a: RawAddress)
    requires Encodable(a)
    ensures Canonical(Encode(a))
  {
  }

  /** 203.0.113.5:8443: tag 8, port bytes 0x20 0xFB, address bytes 203 0 113 5
      (as signed Java bytes), and back. */
  lemma ExampleIPv4()
    ensures Encode(RawAddress([-53, 0, 113, 5], 8443))
         == [8, 0, 0, 0x20, -5, -53, 0, 113, 5] + Zeros(16)
    ensures Decode([8, 0, 0, 0x20, -5, -53, 0, 113, 5] + Zeros(16))
         == Some(RawAddress([-53, 0, 113, 5], 8443))
  {
  }

  /** A freshly allocated, never filled record decodes to no address. */
  lemma EmptyRecordHasNoAddress()
    ensures Decode(EmptyRecord) == None
  {
  }

  /** makeAddress: decode the record, then hand the bytes to the address
      library (InetAddress.getByAddress), whose failure also yields null. */
  function MakeAddress(b: Record, getByAddress: seq<int8> -> Option<InetAddress>): (r: Option<InetSocketAddress>)
    ensures Decode(b).None? ==> r.None?
    ensures Decode(b).Some? ==>
      r == match getByAddress(Decode(b).value.addr)
           case None => None
           case Some(host) => Some(InetSocketAddress(host, Decode(b).value.port))
  {
    match Decode(b)
    case None => None
    case Some(raw) =>
      match getByAddress(raw.addr)
      case None => None
      case Some(host) => Some(InetSocketAddress(host, raw.port))
  }

  /** An address library that accepts the 4- and 16-byte forms and keeps the
      bytes it is given. */
  ghost predicate KeepsBytes(getByAddress: seq<int8> -> Option<InetAddress>) {
    forall bytes: seq<int8> :: |bytes| == IPV4_ADDR_LEN || |bytes| == IPV6_ADDR_LEN ==>
      getByAddress(bytes) == Some(InetAddress(bytes))
  }

  /** With such a library, null comes only from an unknown tag, and the
      socket address built from an encoded record is the one encoded. */
  lemma MakeAddressRoundTrip(a: RawAddress, getByAddress: seq<int8> -> Option<InetAddress>)
    requires Encodable(a) && KeepsBytes(getByAddress)
    ensures MakeAddress(Encode(a), getByAddress) == Some(InetSocketAddress(InetAddress(a.addr), a.port))
  {
    DecodeEncode(a);
  }

  lemma MakeAddressNullIffUnknownTag(b: Record, getByAddress: seq<int8> -> Option<InetAddress>)
    requires KeepsBytes(getByAddress)
    ensures MakeAddress(b, getByAddress).None? <==> b[0] != IPV4_TAG && b[0] != IPV6_TAG
  {
  }
}
