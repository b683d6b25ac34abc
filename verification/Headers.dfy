/**
 * The wire form of the protocol headers, on values: what each `write` puts in a
 * buffer, what each `read` takes from one, and the codec laws that tie the two.
 */
module Headers {
  import opened Bytes

  type Mac = s: seq<byte> | |s| == 6 witness [0, 0, 0, 0, 0, 0]
  type Ip4 = s: seq<byte> | |s| == 4 witness [0, 0, 0, 0]
  type Ip6 = s: seq<byte> | |s| == 16 witness Zeros(16)
  type OptionArea = s: seq<byte> | |s| == 40 witness Zeros(40)

  type uint20 = x: int | 0 <= x < 0x10_0000

  datatype Ethernet = Ethernet(dst: Mac, src: Mac, etherType: uint16)

  datatype Arp = Arp(hwType: uint16, pType: uint16, hwLen: byte, pLen: byte, operation: uint16,
                     hwSrc: Mac, pSrc: Ip4, hwDst: Mac, pDst: Ip4)

  datatype Ipv4 = Ipv4(version: nibble, hlen: nibble, tos: byte, totLen: uint16, id: uint16, fragOff: uint16,
                       ttl: byte, protocol: byte, check: uint16, src: Ip4, dst: Ip4, option: OptionArea)

  datatype Ipv6 = Ipv6(version: nibble, trafficClass: byte, flowLevel: uint20, payloadLen: uint16,
                       nextHeader: byte, hopLimit: byte, src: Ip6, dst: Ip6)

  datatype Udp = Udp(src: uint16, dst: uint16, len: uint16, check: uint16)

  /**
   * A header class of someone else's: its `length`, `write` and `read` as functions of the
   * object's fields, which are numbers here, and the invariant its fields have.
   */
  datatype Codec = Codec(valid: seq<int> -> bool, length: seq<int> -> nat, wire: seq<int> -> seq<byte>,
                         readable: seq<byte> -> bool, read: seq<byte> -> seq<int>)

  /** `write` writes `length()` bytes; what is read was there and is written back; what is written is read back. */
  ghost predicate Lawful(c: Codec) {
    && (forall s :: c.valid(s) ==> |c.wire(s)| == c.length(s))
    && (forall b :: c.readable(b) ==> ReadsWhatIsThere(c, b))
    && (forall s, rest :: c.valid(s) ==> ReadsBack(c, s, rest))
  }

  predicate ReadsWhatIsThere(c: Codec, b: seq<byte>)
    requires c.readable(b)
  {
    var s := c.read(b);
    c.valid(s) && c.length(s) <= |b| && c.wire(s) == b[..c.length(s)]
  }

  ghost predicate ReadsBack(c: Codec, s: seq<int>, rest: seq<byte>) {
    c.readable(c.wire(s) + rest) && c.read(c.wire(s) + rest) == s
  }

  /** The smallest one: no fields and no bytes. */
  const NOTHING := Codec(s => s == [], _ => 0, _ => [], _ => true, _ => [])

  type LawfulCodec = c: Codec | Lawful(c) witness NOTHING

  datatype Header =
    | EthernetHeader(eth: Ethernet)
    | ArpHeader(arp: Arp)
    | Ipv4Header(ip: Ipv4)
    | Ipv6Header(ip6: Ipv6)
    | UdpHeader(udp: Udp)
    | OtherHeader(codec: LawfulCodec, fields: seq<int>)

  const ETHERNET_LENGTH := 14
  const ARP_LENGTH := 28
  const IPV4_MIN_LENGTH := 20
  const IPV6_LENGTH := 40
  const UDP_LENGTH := 8

  // ----- write

  function EthernetWire(h: Ethernet): (s: seq<byte>)
    ensures |s| == ETHERNET_LENGTH
  {
    h.dst + h.src + Be16(h.etherType)
  }

  function ArpWire(h: Arp): (s: seq<byte>)
    ensures |s| == ARP_LENGTH
  {
    Be16(h.hwType) + Be16(h.pType) + [h.hwLen, h.pLen] + Be16(h.operation) + h.hwSrc + h.pSrc + h.hwDst + h.pDst
  }

  /** Two four-bit fields in a byte, the version in the high nibble. */
  function VersionAndLength(version: nibble, low: nibble): byte {
    0x10 * (version as int) + low
  }

  /** The twenty fixed bytes; the low nibble of the first is the header length in words. */
  function Ipv4Fixed(h: Ipv4): (s: seq<byte>)
    ensures |s| == IPV4_MIN_LENGTH
  {
    [VersionAndLength(h.version, h.hlen), h.tos] + Be16(h.totLen) + Be16(h.id) + Be16(h.fragOff)
    + [h.ttl, h.protocol] + Be16(h.check) + h.src + h.dst
  }

  /** Callers keep `hlen` at 5 or more; below that `length() - min_length` wraps in the source. */
  function Ipv4Wire(h: Ipv4): (s: seq<byte>)
    requires h.hlen >= 5
    ensures |s| == 4 * h.hlen
  {
    Ipv4Fixed(h) + h.option[..4 * h.hlen - IPV4_MIN_LENGTH]
  }

  /** The traffic class and the flow label are written as zero, whatever the fields hold. */
  function Ipv6Wire(h: Ipv6): (s: seq<byte>)
    ensures |s| == IPV6_LENGTH
  {
    [VersionAndLength(h.version, 0), 0, 0, 0] + Be16(h.payloadLen) + [h.nextHeader, h.hopLimit] + h.src + h.dst
  }

  function UdpWire(h: Udp): (s: seq<byte>)
    ensures |s| == UDP_LENGTH
  {
    Be16(h.src) + Be16(h.dst) + Be16(h.len) + Be16(h.check)
  }

  /** What `htons(iph.tot_len - iph.length())` is given: the difference in a `uint16_t`. */
  function DatagramLength(ip: Ipv4): uint16 {
    (ip.totLen - 4 * ip.hlen) % 0x1_0000
  }

  /** What a UDP checksum is summed over: the pseudo header of RFC 768, the header and the data. */
  function UdpSummed(u: Udp, ip: Ipv4, data: seq<byte>): (s: seq<byte>)
    ensures |s| == 20 + |data|
  {
    ip.src + ip.dst + [0, ip.protocol] + Be16(DatagramLength(ip)) + UdpWire(u) + data
  }

  predicate Writable(h: Header) {
    (h.Ipv4Header? ==> h.ip.hlen >= 5) && (h.OtherHeader? ==> h.codec.valid(h.fields))
  }

  function Length(h: Header): nat {
    match h
    case EthernetHeader(_) => ETHERNET_LENGTH
    case ArpHeader(_) => ARP_LENGTH
    case Ipv4Header(ip) => 4 * ip.hlen
    case Ipv6Header(_) => IPV6_LENGTH
    case UdpHeader(_) => UDP_LENGTH
    case OtherHeader(c, fields) => c.length(fields)
  }

  function Wire(h: Header): (s: seq<byte>)
    requires Writable(h)
    ensures |s| == Length(h)
  {
    match h
    case EthernetHeader(e) => EthernetWire(e)
    case ArpHeader(a) => ArpWire(a)
    case Ipv4Header(ip) => Ipv4Wire(ip)
    case Ipv6Header(ip6) => Ipv6Wire(ip6)
    case UdpHeader(u) => UdpWire(u)
    case OtherHeader(c, fields) => c.wire(fields)
  }

  // ----- read

  function EthernetRead(b: seq<byte>): Ethernet
    requires |b| >= ETHERNET_LENGTH
  {
    Ethernet(b[..6], b[6..12], Be16At(b, 12))
  }

  function ArpRead(b: seq<byte>): Arp
    requires |b| >= ARP_LENGTH
  {
    Arp(Be16At(b, 0), Be16At(b, 2), b[4], b[5], Be16At(b, 6), b[8..14], b[14..18], b[18..24], b[24..28])
  }

  /** Option bytes past the header's length keep what they were. */
  function OptionRead(option: OptionArea, b: seq<byte>): OptionArea
    requires |b| >= IPV4_MIN_LENGTH && Low4(b[0]) >= 5 && |b| >= 4 * Low4(b[0])
  {
    b[20..4 * Low4(b[0])] + option[4 * Low4(b[0]) - 20..]
  }

  /** Everything but the option bytes. */
  function Ipv4ReadFixed(into: Ipv4, b: seq<byte>): Ipv4
    requires |b| >= IPV4_MIN_LENGTH
  {
    Ipv4(High4(b[0]), Low4(b[0]), b[1], Be16At(b, 2), Be16At(b, 4), Be16At(b, 6), b[8], b[9], Be16At(b, 10),
         b[12..16], b[16..20], into.option)
  }

  function Ipv4Read(into: Ipv4, b: seq<byte>): Ipv4
    requires |b| >= IPV4_MIN_LENGTH && Low4(b[0]) >= 5 && |b| >= 4 * Low4(b[0])
  {
    Ipv4ReadFixed(into, b).(option := OptionRead(into.option, b))
  }

  function Ipv6Read(b: seq<byte>): Ipv6
    requires |b| >= IPV6_LENGTH
  {
    Ipv6(High4(b[0]), 0, 0, Be16At(b, 4), b[6], b[7], b[8..24], b[24..40])
  }

  function UdpRead(b: seq<byte>): Udp
    requires |b| >= UDP_LENGTH
  {
    Udp(Be16At(b, 0), Be16At(b, 2), Be16At(b, 4), Be16At(b, 6))
  }

  /** An IPv4 header in `b`, if there is one, claims at least the fixed twenty bytes. */
  predicate Sane(h: Header, b: seq<byte>) {
    h.Ipv4Header? && |b| >= IPV4_MIN_LENGTH ==> Low4(b[0]) >= 5
  }

  /** `read` into an object of h's class does not throw. */
  predicate Readable(h: Header, b: seq<byte>) {
    match h
    case EthernetHeader(_) => |b| >= ETHERNET_LENGTH
    case ArpHeader(_) => |b| >= ARP_LENGTH
    case Ipv4Header(_) => |b| >= IPV4_MIN_LENGTH && |b| >= 4 * Low4(b[0])
    case Ipv6Header(_) => |b| >= IPV6_LENGTH
    case UdpHeader(_) => |b| >= UDP_LENGTH
    case OtherHeader(c, _) => c.readable(b)
  }

  /** The header an object of value `h` holds after reading `b`. */
  function Read(h: Header, b: seq<byte>): (r: Header)
    requires Sane(h, b) && Readable(h, b)
    ensures SameKind(h, r) && Writable(r) && Length(r) <= |b|
  {
    match h
    case EthernetHeader(_) => EthernetHeader(EthernetRead(b))
    case ArpHeader(_) => ArpHeader(ArpRead(b))
    case Ipv4Header(ip) => Ipv4Header(Ipv4Read(ip, b))
    case Ipv6Header(_) => Ipv6Header(Ipv6Read(b))
    case UdpHeader(_) => UdpHeader(UdpRead(b))
    case OtherHeader(c, _) => assert ReadsWhatIsThere(c, b); OtherHeader(c, c.read(b))
  }

  /** Objects of the same class. */
  ghost predicate SameKind(h: Header, g: Header) {
    && h.EthernetHeader? == g.EthernetHeader?
    && h.ArpHeader? == g.ArpHeader?
    && h.Ipv4Header? == g.Ipv4Header?
    && h.Ipv6Header? == g.Ipv6Header?
    && h.UdpHeader? == g.UdpHeader?
    && h.OtherHeader? == g.OtherHeader?
    && (h.OtherHeader? && g.OtherHeader? ==> h.codec == g.codec)
  }

  // ----- the codec laws

  function ClearLow4(x: byte): byte {
    x - Low4(x)
  }

  /**
   * IPv6 forgets the traffic class and the flow label: the low nibble of its first
   * byte and the three bytes after it. Every other header forgets nothing.
   */
  function Normalised(h: Header, b: seq<byte>): (r: seq<byte>)
    requires h.Ipv6Header? ==> |b| >= IPV6_LENGTH
    ensures |r| == |b|
  {
    if h.Ipv6Header? then [ClearLow4(b[0]), 0, 0, 0] + b[4..] else b
  }

  lemma EthernetWriteAfterRead(b: seq<byte>)
    requires |b| >= ETHERNET_LENGTH
    ensures EthernetWire(EthernetRead(b)) == b[..ETHERNET_LENGTH]
  {
    Be16Stored(b, 12);
  }

  lemma ArpWriteAfterRead(b: seq<byte>)
    requires |b| >= ARP_LENGTH
    ensures ArpWire(ArpRead(b)) == b[..ARP_LENGTH]
  {
    Be16Stored(b, 0);
    Be16Stored(b, 2);
    Be16Stored(b, 6);
    assert b[..8] == b[0..2] + b[2..4] + [b[4], b[5]] + b[6..8];
    assert b[..ARP_LENGTH] == b[..8] + b[8..14] + b[14..18] + b[18..24] + b[24..28];
  }

  lemma Ipv4FixedAfterRead(into: Ipv4, b: seq<byte>)
    requires |b| >= IPV4_MIN_LENGTH
    ensures Ipv4Fixed(Ipv4ReadFixed(into, b)) == b[..IPV4_MIN_LENGTH]
  {
    Be16Stored(b, 2);
    Be16Stored(b, 4);
    Be16Stored(b, 6);
    Be16Stored(b, 10);
    assert b[..12] == [b[0], b[1]] + b[2..4] + b[4..6] + b[6..8] + [b[8], b[9]] + b[10..12];
    assert b[..IPV4_MIN_LENGTH] == b[..12] + b[12..16] + b[16..20];
  }

  lemma Ipv4WriteAfterRead(into: Ipv4, b: seq<byte>)
    requires |b| >= IPV4_MIN_LENGTH && Low4(b[0]) >= 5 && |b| >= 4 * Low4(b[0])
    ensures Ipv4Wire(Ipv4Read(into, b)) == b[..4 * Low4(b[0])]
  {
    hide Ipv4Fixed, Be16, Be16At;
    Ipv4FixedAfterRead(into, b);
    FixedIgnoresOption(Ipv4ReadFixed(into, b), OptionRead(into.option, b));
    assert OptionRead(into.option, b)[..4 * Low4(b[0]) - 20] == b[20..4 * Low4(b[0])];
  }

  lemma FixedIgnoresOption(h: Ipv4, option: OptionArea)
    ensures Ipv4Fixed(h.(option := option)) == Ipv4Fixed(h)
  {
  }

  lemma Ipv6WriteAfterRead(b: seq<byte>)
    requires |b| >= IPV6_LENGTH
    ensures Ipv6Wire(Ipv6Read(b)) == [ClearLow4(b[0]), 0, 0, 0] + b[4..IPV6_LENGTH]
  {
    Be16Stored(b, 4);
    assert b[4..IPV6_LENGTH] == b[4..6] + [b[6], b[7]] + b[8..24] + b[24..40];
  }

  lemma UdpWriteAfterRead(b: seq<byte>)
    requires |b| >= UDP_LENGTH
    ensures UdpWire(UdpRead(b)) == b[..UDP_LENGTH]
  {
    Be16Stored(b, 0);
    Be16Stored(b, 2);
    Be16Stored(b, 4);
    Be16Stored(b, 6);
  }

  /** Writing what was read gives back the bytes read, normalised. */
  lemma WriteAfterRead(h: Header, b: seq<byte>)
    requires Sane(h, b) && Readable(h, b)
    ensures Wire(Read(h, b)) + b[Length(Read(h, b))..] == Normalised(h, b)
  {
    WriteAfterReadPrefix(h, b);
  }

  lemma WriteAfterReadPrefix(h: Header, b: seq<byte>)
    requires Sane(h, b) && Readable(h, b)
    ensures Wire(Read(h, b)) == Normalised(h, b)[..Length(Read(h, b))]
    ensures Normalised(h, b)[Length(Read(h, b))..] == b[Length(Read(h, b))..]
  {
    hide EthernetWire, EthernetRead, ArpWire, ArpRead, Ipv4Wire, Ipv6Wire, Ipv6Read, UdpWire, UdpRead;
    match h
    case EthernetHeader(_) => EthernetWriteAfterRead(b);
    case ArpHeader(_) => ArpWriteAfterRead(b);
    case Ipv4Header(ip) => Ipv4WriteAfterRead(ip, b);
    case Ipv6Header(_) => Ipv6WriteAfterRead(b);
    case UdpHeader(_) => UdpWriteAfterRead(b);
    case OtherHeader(c, _) => assert ReadsWhatIsThere(c, b);
  }

  /**
   * What survives of `h` when its bytes are read into an object of value `into`:
   * everything but the IPv4 option bytes past the header's length, which stay those
   * of `into`, and the IPv6 traffic class and flow label.
   */
  function Recovered(into: Header, h: Header): Header
    requires SameKind(into, h) && Writable(h)
  {
    match h
    case Ipv4Header(ip) =>
      var n := 4 * ip.hlen - IPV4_MIN_LENGTH;
      Ipv4Header(ip.(option := ip.option[..n] + into.ip.option[n..]))
    case Ipv6Header(ip6) => Ipv6Header(ip6.(trafficClass := 0, flowLevel := 0))
    case _ => h
  }

  lemma EthernetReadAfterWrite(h: Ethernet, rest: seq<byte>)
    ensures EthernetRead(EthernetWire(h) + rest) == h
  {
    var b := EthernetWire(h) + rest;
    assert b[..6] == h.dst && b[6..12] == h.src;
    Be16Loaded(b, 12, h.etherType);
  }

  lemma ArpReadAfterWrite(h: Arp, rest: seq<byte>)
    ensures ArpRead(ArpWire(h) + rest) == h
  {
    var b := ArpWire(h) + rest;
    Be16Loaded(b, 0, h.hwType);
    Be16Loaded(b, 2, h.pType);
    Be16Loaded(b, 6, h.operation);
    assert b[8..14] == h.hwSrc && b[14..18] == h.pSrc && b[18..24] == h.hwDst && b[24..28] == h.pDst;
  }

  lemma Ipv4FixedReadBack(into: Ipv4, h: Ipv4, rest: seq<byte>)
    ensures Ipv4ReadFixed(into, Ipv4Fixed(h) + rest) == h.(option := into.option)
  {
    var b := Ipv4Fixed(h) + rest;
    assert b[0] == VersionAndLength(h.version, h.hlen) && b[1] == h.tos && b[8] == h.ttl && b[9] == h.protocol;
    Be16Loaded(b, 2, h.totLen);
    Be16Loaded(b, 4, h.id);
    Be16Loaded(b, 6, h.fragOff);
    Be16Loaded(b, 10, h.check);
    assert b[12..16] == h.src && b[16..20] == h.dst;
  }

  lemma Ipv4ReadAfterWrite(into: Ipv4, h: Ipv4, rest: seq<byte>)
    requires h.hlen >= 5
    ensures var b, n := Ipv4Wire(h) + rest, 4 * h.hlen - IPV4_MIN_LENGTH;
            && Low4(b[0]) == h.hlen
            && Ipv4Read(into, b) == h.(option := h.option[..n] + into.option[n..])
  {
    hide Ipv4Fixed, Be16, Be16At, Low4, High4;
    var b := Ipv4Wire(h) + rest;
    assert b == Ipv4Fixed(h) + (h.option[..4 * h.hlen - 20] + rest);
    Ipv4FixedReadBack(into, h, h.option[..4 * h.hlen - 20] + rest);
    assert Ipv4ReadFixed(into, b).hlen == h.hlen;
    assert b[20..4 * h.hlen] == h.option[..4 * h.hlen - 20];
  }

  lemma Ipv6ReadAfterWrite(h: Ipv6, rest: seq<byte>)
    ensures Ipv6Read(Ipv6Wire(h) + rest) == h.(trafficClass := 0, flowLevel := 0)
  {
    var b := Ipv6Wire(h) + rest;
    Be16Loaded(b, 4, h.payloadLen);
    assert b[8..24] == h.src && b[24..40] == h.dst;
  }

  lemma UdpReadAfterWrite(h: Udp, rest: seq<byte>)
    ensures UdpRead(UdpWire(h) + rest) == h
  {
    var b := UdpWire(h) + rest;
    Be16Loaded(b, 0, h.src);
    Be16Loaded(b, 2, h.dst);
    Be16Loaded(b, 4, h.len);
    Be16Loaded(b, 6, h.check);
  }

  /** Reading what was written, with anything after it, gives back the header. */
  lemma ReadAfterWrite(into: Header, h: Header, rest: seq<byte>)
    requires SameKind(into, h) && Writable(h)
    ensures Sane(into, Wire(h) + rest) && Readable(into, Wire(h) + rest)
    ensures Read(into, Wire(h) + rest) == Recovered(into, h)
    ensures Length(Recovered(into, h)) == Length(h)
  {
    match h
    case EthernetHeader(e) => EthernetReadAfterWrite(e, rest);
    case ArpHeader(a) => ArpReadAfterWrite(a, rest);
    case Ipv4Header(ip) => Ipv4ReadAfterWrite(into.ip, ip, rest);
    case Ipv6Header(ip6) => Ipv6ReadAfterWrite(ip6, rest);
    case UdpHeader(u) => UdpReadAfterWrite(u, rest);
    case OtherHeader(c, fields) => assert ReadsBack(c, fields, rest);
  }

  // ----- a header with a codec of its own: UDP once more, on the four numbers it holds

  predicate UdpFields(s: seq<int>) {
    |s| == 4 && forall k :: 0 <= k < 4 ==> 0 <= s[k] < 0x1_0000
  }

  function UdpOf(s: seq<int>): Udp
    requires UdpFields(s)
  {
    Udp(s[0], s[1], s[2], s[3])
  }

  function FieldsOf(u: Udp): (s: seq<int>)
    ensures UdpFields(s)
  {
    [u.src, u.dst, u.len, u.check]
  }

  const UDP_CODEC := Codec(s => UdpFields(s), _ => UDP_LENGTH,
                           s => if UdpFields(s) then UdpWire(UdpOf(s)) else [],
                           b => |b| >= UDP_LENGTH,
                           b => if |b| >= UDP_LENGTH then FieldsOf(UdpRead(b)) else [])

  /** A header that does what `udp_header` does meets the law, so it can stand in any stack as someone else's. */
  lemma UdpLawful()
    ensures Lawful(UDP_CODEC)
  {
    hide UdpWire, UdpRead;
    forall b | UDP_CODEC.readable(b) ensures ReadsWhatIsThere(UDP_CODEC, b) {
      UdpWriteAfterRead(b);
    }
    forall s, rest | UDP_CODEC.valid(s) ensures ReadsBack(UDP_CODEC, s, rest) {
      UdpReadAfterWrite(UdpOf(s), rest);
    }
  }
}
