/** Which byte of a buffer is which field of a protocol header, for what is written and for what is read. */
module HeaderLayouts {
  import opened Bytes
  import opened Headers

  // ----- the wire structs of pgen/core/protocol, member by member

  predicate EthernetAt(h: Ethernet, s: seq<byte>) {
    && |s| >= 14
    && s[0..6] == h.dst && s[6..12] == h.src
    && 0x100 * s[12] as int + s[13] as int == h.etherType
  }

  predicate ArpAt(h: Arp, s: seq<byte>) {
    && |s| >= 28
    && 0x100 * s[0] as int + s[1] as int == h.hwType
    && 0x100 * s[2] as int + s[3] as int == h.pType
    && s[4] == h.hwLen && s[5] == h.pLen
    && 0x100 * s[6] as int + s[7] as int == h.operation
    && s[8..14] == h.hwSrc && s[14..18] == h.pSrc
    && s[18..24] == h.hwDst && s[24..28] == h.pDst
  }

  predicate Ipv4FixedAt(h: Ipv4, s: seq<byte>) {
    && |s| >= 20
    && s[0] as int == 0x10 * h.version as int + h.hlen as int
    && s[1] == h.tos
    && 0x100 * s[2] as int + s[3] as int == h.totLen
    && 0x100 * s[4] as int + s[5] as int == h.id
    && 0x100 * s[6] as int + s[7] as int == h.fragOff
    && s[8] == h.ttl && s[9] == h.protocol
    && 0x100 * s[10] as int + s[11] as int == h.check
    && s[12..16] == h.src && s[16..20] == h.dst
  }

  /** The option bytes follow, as many as the header length has room for. */
  predicate Ipv4At(h: Ipv4, s: seq<byte>) {
    && Ipv4FixedAt(h, s)
    && 20 <= 4 * h.hlen <= |s|
    && s[20..4 * h.hlen] == h.option[..4 * h.hlen - 20]
  }

  predicate Ipv6At(h: Ipv6, s: seq<byte>) {
    && |s| >= 40
    && s[0] as int / 0x10 == h.version
    && 0x100 * s[4] as int + s[5] as int == h.payloadLen
    && s[6] == h.nextHeader && s[7] == h.hopLimit
    && s[8..24] == h.src && s[24..40] == h.dst
  }

  /** No traffic class and no flow label. */
  predicate Ipv6Cleared(s: seq<byte>)
    requires |s| >= 4
  {
    s[0] as int % 0x10 == 0 && s[1] == s[2] == s[3] == 0
  }

  predicate UdpAt(h: Udp, s: seq<byte>) {
    && |s| >= 8
    && 0x100 * s[0] as int + s[1] as int == h.src
    && 0x100 * s[2] as int + s[3] as int == h.dst
    && 0x100 * s[4] as int + s[5] as int == h.len
    && 0x100 * s[6] as int + s[7] as int == h.check
  }

  // ----- what is written

  lemma EthernetWritten(h: Ethernet, rest: seq<byte>)
    ensures EthernetAt(h, EthernetWire(h) + rest)
  {
  }

  lemma ArpWritten(h: Arp, rest: seq<byte>)
    ensures ArpAt(h, ArpWire(h) + rest)
  {
  }

  lemma Ipv4FixedWritten(h: Ipv4, rest: seq<byte>)
    ensures Ipv4FixedAt(h, Ipv4Fixed(h) + rest)
  {
  }

  lemma Ipv4Written(h: Ipv4, rest: seq<byte>)
    requires h.hlen >= 5
    ensures Ipv4At(h, Ipv4Wire(h) + rest)
  {
    hide Ipv4Fixed, Ipv4FixedAt;
    var options := h.option[..4 * h.hlen - 20];
    assert Ipv4Wire(h) + rest == Ipv4Fixed(h) + (options + rest);
    Ipv4FixedWritten(h, options + rest);
  }

  lemma Ipv6Written(h: Ipv6, rest: seq<byte>)
    ensures Ipv6At(h, Ipv6Wire(h) + rest) && Ipv6Cleared(Ipv6Wire(h) + rest)
  {
  }

  lemma UdpWritten(h: Udp, rest: seq<byte>)
    ensures UdpAt(h, UdpWire(h) + rest)
  {
  }

  // ----- what is read

  lemma EthernetFound(b: seq<byte>)
    requires |b| >= ETHERNET_LENGTH
    ensures EthernetAt(EthernetRead(b), b)
  {
  }

  lemma ArpFound(b: seq<byte>)
    requires |b| >= ARP_LENGTH
    ensures ArpAt(ArpRead(b), b)
  {
  }

  lemma Ipv4FixedFound(into: Ipv4, b: seq<byte>)
    requires |b| >= IPV4_MIN_LENGTH
    ensures Ipv4FixedAt(Ipv4ReadFixed(into, b), b) && Ipv4ReadFixed(into, b).option == into.option
  {
  }

  /** Option bytes past the header's length stay those of the object. */
  lemma Ipv4Found(into: Ipv4, b: seq<byte>)
    requires |b| >= IPV4_MIN_LENGTH && Low4(b[0]) >= 5 && |b| >= 4 * Low4(b[0])
    ensures var h := Ipv4Read(into, b); Ipv4At(h, b) && h.option[4 * h.hlen - 20..] == into.option[4 * h.hlen - 20..]
  {
    Ipv4FixedFound(into, b);
  }

  lemma Ipv6Found(b: seq<byte>)
    requires |b| >= IPV6_LENGTH
    ensures Ipv6At(Ipv6Read(b), b) && Ipv6Read(b).trafficClass == Ipv6Read(b).flowLevel == 0
  {
  }

  lemma UdpFound(b: seq<byte>)
    requires |b| >= UDP_LENGTH
    ensures UdpAt(UdpRead(b), b)
  {
  }

  // ----- what a UDP checksum is summed over

  /** The length of the datagram in the pseudo header is what the IP header's total length leaves, in 16 bits. */
  lemma UdpSummedLayout(u: Udp, ip: Ipv4, data: seq<byte>)
    ensures var s := UdpSummed(u, ip, data);
            && s[0..4] == ip.src && s[4..8] == ip.dst && s[8] == 0 && s[9] == ip.protocol
            && 0x100 * s[10] as int + s[11] as int
               == (if ip.totLen >= 4 * ip.hlen then ip.totLen - 4 * ip.hlen
                   else ip.totLen - 4 * ip.hlen + 0x1_0000)
            && UdpAt(u, s[12..]) && s[20..] == data
  {
    var s, pseudo := UdpSummed(u, ip, data), ip.src + ip.dst + [0, ip.protocol] + Be16(DatagramLength(ip));
    assert s == pseudo + (UdpWire(u) + data);
    assert s[12..] == UdpWire(u) + data;
    UdpWritten(u, data);
    assert s[20..] == data;
  }
}
