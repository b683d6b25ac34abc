/**
 * The header classes of pgen/core/protocol: objects whose `read` assigns every field
 * and whose `write` fills the caller's buffer in place. A multi-byte member of a wire
 * struct is stored little-endian, as the host does, after `htons`.
 */
module HeaderObjects {
  import opened Bytes
  import opened Exceptions
  import opened Checksum
  import H = Headers
  import L = HeaderLayouts

  class EthernetHeader {
    var dst: H.Mac
    var src: H.Mac
    var etherType: uint16

    function Value(): H.Ethernet
      reads this
    {
      H.Ethernet(dst, src, etherType)
    }

    constructor (v: H.Ethernet)
      ensures Value() == v
    {
      dst, src, etherType := v.dst, v.src, v.etherType;
    }

    method Write(buf: array<byte>, off: nat, len: nat) returns (o: Outcome)
      requires off + len <= buf.Length
      modifies buf
      ensures o.Pass? <==> len >= H.ETHERNET_LENGTH
      ensures buf[..] == if o.Pass? then Splice(old(buf[..]), off, H.EthernetWire(Value())) else old(buf[..])
      ensures o.Pass? ==> L.EthernetAt(Value(), buf[off..])
    {
      hide Hton16, Be16, L.EthernetAt;
      if len < H.ETHERNET_LENGTH {
        return Fail(BufferTooSmall);
      }
      ghost var before := buf[..];
      MemCopy(buf, off + 6, src);
      MemCopy(buf, off, dst);
      MemCopy(buf, off + 12, Hton16(etherType));
      SpliceFrom(before, off, H.EthernetWire(Value()));
      L.EthernetWritten(Value(), before[off + H.ETHERNET_LENGTH..]);
      return Pass;
    }

    method Read(b: seq<byte>) returns (o: Outcome)
      modifies this
      ensures o.Pass? <==> |b| >= H.ETHERNET_LENGTH
      ensures Value() == if o.Pass? then H.EthernetRead(b) else old(Value())
      ensures o.Pass? ==> L.EthernetAt(Value(), b)
    {
      hide Ntoh16, Be16At, Le16At, Swap16, L.EthernetAt;
      if |b| < H.ETHERNET_LENGTH {
        return Fail(BufferTooSmall);
      }
      src := b[6..12];
      dst := b[..6];
      etherType := Ntoh16(b, 12);
      L.EthernetFound(b);
      return Pass;
    }
  }

  class ArpHeader {
    var hwType: uint16
    var pType: uint16
    var hwLen: byte
    var pLen: byte
    var operation: uint16
    var hwSrc: H.Mac
    var pSrc: H.Ip4
    var hwDst: H.Mac
    var pDst: H.Ip4

    function Value(): H.Arp
      reads this
    {
      H.Arp(hwType, pType, hwLen, pLen, operation, hwSrc, pSrc, hwDst, pDst)
    }

    constructor (v: H.Arp)
      ensures Value() == v
    {
      hwType, pType, hwLen, pLen, operation := v.hwType, v.pType, v.hwLen, v.pLen, v.operation;
      hwSrc, pSrc, hwDst, pDst := v.hwSrc, v.pSrc, v.hwDst, v.pDst;
    }

    method Write(buf: array<byte>, off: nat, len: nat) returns (o: Outcome)
      requires off + len <= buf.Length
      modifies buf
      ensures o.Pass? <==> len >= H.ARP_LENGTH
      ensures buf[..] == if o.Pass? then Splice(old(buf[..]), off, H.ArpWire(Value())) else old(buf[..])
      ensures o.Pass? ==> L.ArpAt(Value(), buf[off..])
    {
      hide Hton16, Be16, Splice, L.ArpAt;
      if len < H.ARP_LENGTH {
        return Fail(BufferTooSmall);
      }
      ghost var before := buf[..];
      SpliceNothing(before, off);
      ghost var w := Emit(buf, off, Hton16(hwType), off, before, []);
      w := Emit(buf, off + 2, Hton16(pType), off, before, w);
      w := Emit(buf, off + 4, [hwLen, pLen], off, before, w);
      w := Emit(buf, off + 6, Hton16(operation), off, before, w);
      w := Emit(buf, off + 8, hwSrc, off, before, w);
      w := Emit(buf, off + 14, pSrc, off, before, w);
      w := Emit(buf, off + 18, hwDst, off, before, w);
      w := Emit(buf, off + 24, pDst, off, before, w);
      SpliceFrom(before, off, H.ArpWire(Value()));
      L.ArpWritten(Value(), before[off + H.ARP_LENGTH..]);
      return Pass;
    }

    method Read(b: seq<byte>) returns (o: Outcome)
      modifies this
      ensures o.Pass? <==> |b| >= H.ARP_LENGTH
      ensures Value() == if o.Pass? then H.ArpRead(b) else old(Value())
      ensures o.Pass? ==> L.ArpAt(Value(), b)
    {
      hide Ntoh16, Be16At, Le16At, Swap16, L.ArpAt;
      if |b| < H.ARP_LENGTH {
        return Fail(BufferTooSmall);
      }
      hwType := Ntoh16(b, 0);
      pType := Ntoh16(b, 2);
      hwLen := b[4];
      pLen := b[5];
      operation := Ntoh16(b, 6);
      hwSrc := b[8..14];
      pSrc := b[14..18];
      hwDst := b[18..24];
      pDst := b[24..28];
      L.ArpFound(b);
      return Pass;
    }
  }

  class Ipv4Header {
    var version: nibble
    var hlen: nibble
    var tos: byte
    var totLen: uint16
    var id: uint16
    var fragOff: uint16
    var ttl: byte
    var protocol: byte
    var check: uint16
    var src: H.Ip4
    var dst: H.Ip4
    var option: H.OptionArea

    function Value(): H.Ipv4
      reads this
    {
      H.Ipv4(version, hlen, tos, totLen, id, fragOff, ttl, protocol, check, src, dst, option)
    }

    constructor (v: H.Ipv4)
      ensures Value() == v
    {
      version, hlen, tos, totLen, id, fragOff := v.version, v.hlen, v.tos, v.totLen, v.id, v.fragOff;
      ttl, protocol, check, src, dst, option := v.ttl, v.protocol, v.check, v.src, v.dst, v.option;
    }

    method Write(buf: array<byte>, off: nat, len: nat) returns (o: Outcome)
      requires off + len <= buf.Length && hlen >= 5
      modifies buf
      ensures o.Pass? <==> len >= 4 * hlen
      ensures buf[..] == if o.Pass? then Splice(old(buf[..]), off, H.Ipv4Wire(Value())) else old(buf[..])
      ensures o.Pass? ==> L.Ipv4At(Value(), buf[off..])
    {
      hide H.Ipv4Fixed, Splice, L.Ipv4At;
      if len < 4 * hlen {
        return Fail(BufferTooSmall);
      }
      ghost var before := buf[..];
      ghost var w := WriteFixed(buf, off);
      w := Emit(buf, off + 20, option[..4 * hlen - H.IPV4_MIN_LENGTH], off, before, w);
      SpliceFrom(before, off, H.Ipv4Wire(Value()));
      L.Ipv4Written(Value(), before[off + 4 * hlen..]);
      return Pass;
    }

    /** The members of `struct ip`. */
    method WriteFixed(buf: array<byte>, off: nat) returns (ghost w: seq<byte>)
      requires off + H.IPV4_MIN_LENGTH <= buf.Length
      modifies buf
      ensures w == H.Ipv4Fixed(Value())
      ensures buf[..] == Splice(old(buf[..]), off, w)
    {
      hide Hton16, Be16, Splice, H.VersionAndLength;
      ghost var before := buf[..];
      SpliceNothing(before, off);
      w := Emit(buf, off, [H.VersionAndLength(version, hlen), tos], off, before, []);
      w := Emit(buf, off + 2, Hton16(totLen), off, before, w);
      w := Emit(buf, off + 4, Hton16(id), off, before, w);
      w := Emit(buf, off + 6, Hton16(fragOff), off, before, w);
      w := Emit(buf, off + 8, [ttl, protocol], off, before, w);
      w := Emit(buf, off + 10, Hton16(check), off, before, w);
      w := Emit(buf, off + 12, src, off, before, w);
      w := Emit(buf, off + 16, dst, off, before, w);
    }

    /** When the header length claims more bytes than there are, the fixed members are already assigned. */
    method Read(b: seq<byte>) returns (o: Outcome)
      requires |b| >= H.IPV4_MIN_LENGTH ==> Low4(b[0]) >= 5
      modifies this
      ensures o.Pass? <==> |b| >= H.IPV4_MIN_LENGTH && |b| >= 4 * Low4(b[0])
      ensures Value() ==
              if o.Pass? then H.Ipv4Read(old(Value()), b)
              else if |b| >= H.IPV4_MIN_LENGTH then H.Ipv4ReadFixed(old(Value()), b)
              else old(Value())
      ensures o.Pass? ==> L.Ipv4At(Value(), b)
    {
      hide L.Ipv4At;
      if |b| < H.IPV4_MIN_LENGTH {
        return Fail(BufferTooSmall);
      }
      ReadFixed(b);
      if |b| < 4 * hlen {
        return Fail(BufferTooSmall);
      }
      option := H.OptionRead(option, b);
      L.Ipv4Found(old(Value()), b);
      return Pass;
    }

    method ReadFixed(b: seq<byte>)
      requires |b| >= H.IPV4_MIN_LENGTH
      modifies this
      ensures Value() == H.Ipv4ReadFixed(old(Value()), b)
    {
      hide Ntoh16, Be16At, Le16At, Swap16, Low4, High4;
      version := High4(b[0]);
      hlen := Low4(b[0]);
      totLen := Ntoh16(b, 2);
      tos := b[1];
      id := Ntoh16(b, 4);
      fragOff := Ntoh16(b, 6);
      ttl := b[8];
      protocol := b[9];
      check := Ntoh16(b, 10);
      src := b[12..16];
      dst := b[16..20];
      assert version == High4(b[0]) && hlen == Low4(b[0]) && tos == b[1] && totLen == Ntoh16(b, 2) && id == Ntoh16(b, 4);
      assert fragOff == Ntoh16(b, 6) && ttl == b[8] && protocol == b[9] && check == Ntoh16(b, 10);
      assert src == b[12..16] && dst == b[16..20] && option == old(option);
    }

    method SetOption(b: seq<byte>) returns (o: Outcome)
      modifies this`option
      ensures o.Pass? <==> |b| <= 40
      ensures option == if o.Pass? then Splice(old(option), 0, b) else old(option)
    {
      if |b| > 40 {
        return Fail(BufferTooSmall);
      }
      option := b + option[|b|..];
      return Pass;
    }

    /** The sum of the header as it would be written, in host order. */
    method CalcChecksum() returns (c: uint16)
      requires hlen >= 5
      ensures c == Swap16(ChecksumOf(H.Ipv4Wire(Value())))
    {
      hide Splice, H.Ipv4Wire, ChecksumOf, Swap16;
      var buffer := new byte[4 * hlen](_ => 0);
      ghost var before := buffer[..];
      var o := Write(buffer, 0, buffer.Length);
      SpliceAll(before, H.Ipv4Wire(Value()));
      c := Checksum.Checksum(buffer[..]);
      c := Swap16(c);
    }
  }

  class Ipv6Header {
    var version: nibble
    var trafficClass: byte
    var flowLevel: H.uint20
    var payloadLen: uint16
    var nextHeader: byte
    var hopLimit: byte
    var src: H.Ip6
    var dst: H.Ip6

    function Value(): H.Ipv6
      reads this
    {
      H.Ipv6(version, trafficClass, flowLevel, payloadLen, nextHeader, hopLimit, src, dst)
    }

    constructor (v: H.Ipv6)
      ensures Value() == v
    {
      version, trafficClass, flowLevel, payloadLen := v.version, v.trafficClass, v.flowLevel, v.payloadLen;
      nextHeader, hopLimit, src, dst := v.nextHeader, v.hopLimit, v.src, v.dst;
    }

    method Write(buf: array<byte>, off: nat, len: nat) returns (o: Outcome)
      requires off + len <= buf.Length
      modifies buf
      ensures o.Pass? <==> len >= H.IPV6_LENGTH
      ensures buf[..] == if o.Pass? then Splice(old(buf[..]), off, H.Ipv6Wire(Value())) else old(buf[..])
      ensures o.Pass? ==> L.Ipv6At(Value(), buf[off..]) && L.Ipv6Cleared(buf[off..])
    {
      hide Hton16, Be16, Splice, L.Ipv6At, L.Ipv6Cleared;
      if len < H.IPV6_LENGTH {
        return Fail(BufferTooSmall);
      }
      ghost var before := buf[..];
      SpliceNothing(before, off);
      ghost var w := Emit(buf, off, [H.VersionAndLength(version, 0), 0, 0, 0], off, before, []);
      w := Emit(buf, off + 4, Hton16(payloadLen), off, before, w);
      w := Emit(buf, off + 6, [nextHeader, hopLimit], off, before, w);
      w := Emit(buf, off + 8, src, off, before, w);
      w := Emit(buf, off + 24, dst, off, before, w);
      SpliceFrom(before, off, H.Ipv6Wire(Value()));
      L.Ipv6Written(Value(), before[off + H.IPV6_LENGTH..]);
      return Pass;
    }

    method Read(b: seq<byte>) returns (o: Outcome)
      modifies this
      ensures o.Pass? <==> |b| >= H.IPV6_LENGTH
      ensures Value() == if o.Pass? then H.Ipv6Read(b) else old(Value())
      ensures o.Pass? ==> L.Ipv6At(Value(), b) && trafficClass == 0 && flowLevel == 0
    {
      hide Ntoh16, Be16At, Le16At, Swap16, L.Ipv6At;
      if |b| < H.IPV6_LENGTH {
        return Fail(BufferTooSmall);
      }
      version := High4(b[0]);
      trafficClass := 0;
      flowLevel := 0;
      payloadLen := Ntoh16(b, 4);
      nextHeader := b[6];
      hopLimit := b[7];
      src := b[8..24];
      dst := b[24..40];
      L.Ipv6Found(b);
      return Pass;
    }
  }

  class UdpHeader {
    var src: uint16
    var dst: uint16
    var len: uint16
    var check: uint16

    function Value(): H.Udp
      reads this
    {
      H.Udp(src, dst, len, check)
    }

    constructor (v: H.Udp)
      ensures Value() == v
    {
      src, dst, len, check := v.src, v.dst, v.len, v.check;
    }

    method Write(buf: array<byte>, off: nat, bufLen: nat) returns (o: Outcome)
      requires off + bufLen <= buf.Length
      modifies buf
      ensures o.Pass? <==> bufLen >= H.UDP_LENGTH
      ensures buf[..] == if o.Pass? then Splice(old(buf[..]), off, H.UdpWire(Value())) else old(buf[..])
      ensures o.Pass? ==> L.UdpAt(Value(), buf[off..])
    {
      hide Hton16, Be16, Splice, L.UdpAt;
      if bufLen < H.UDP_LENGTH {
        return Fail(BufferTooSmall);
      }
      ghost var before := buf[..];
      SpliceNothing(before, off);
      ghost var w := Emit(buf, off, Hton16(src), off, before, []);
      w := Emit(buf, off + 2, Hton16(dst), off, before, w);
      w := Emit(buf, off + 4, Hton16(len), off, before, w);
      w := Emit(buf, off + 6, Hton16(check), off, before, w);
      SpliceFrom(before, off, H.UdpWire(Value()));
      L.UdpWritten(Value(), before[off + H.UDP_LENGTH..]);
      return Pass;
    }

    method Read(b: seq<byte>) returns (o: Outcome)
      modifies this
      ensures o.Pass? <==> |b| >= H.UDP_LENGTH
      ensures Value() == if o.Pass? then H.UdpRead(b) else old(Value())
      ensures o.Pass? ==> L.UdpAt(Value(), b)
    {
      hide Ntoh16, Be16At, Le16At, Swap16, L.UdpAt;
      if |b| < H.UDP_LENGTH {
        return Fail(BufferTooSmall);
      }
      src := Ntoh16(b, 0);
      dst := Ntoh16(b, 2);
      len := Ntoh16(b, 4);
      check := Ntoh16(b, 6);
      L.UdpFound(b);
      return Pass;
    }

    /** The sum over the pseudo header of `iph`, this header and the datagram's data, in host order. */
    method CalcChecksum(iph: Ipv4Header, data: seq<byte>) returns (c: uint16)
      ensures c == Swap16(ChecksumOf(H.UdpSummed(Value(), iph.Value(), data)))
    {
      hide Splice, Hton16, Be16, H.UdpWire;
      var buffer := new byte[12 + H.UDP_LENGTH + |data|](_ => 0);
      ghost var before := buffer[..];
      SpliceNothing(before, 0);
      ghost var w := Emit(buffer, 0, iph.src, 0, before, []);
      w := Emit(buffer, 4, iph.dst, 0, before, w);
      w := Emit(buffer, 8, [0, iph.protocol], 0, before, w);
      w := Emit(buffer, 10, Hton16(H.DatagramLength(iph.Value())), 0, before, w);
      var o := Write(buffer, 12, buffer.Length - 12);
      SpliceNext(before, 0, w, H.UdpWire(Value()));
      w := w + H.UdpWire(Value());
      w := Emit(buffer, 20, data, 0, before, w);
      SpliceAll(before, w);
      if buffer.Length != 20 + |data| {
        assert false;
      }
      c := Checksum.Checksum(buffer[..]);
      c := Swap16(c);
    }
  }

  /** A header of a class derived from `pgen::header` elsewhere, whose code is its codec. */
  class OtherHeader {
    const codec: H.LawfulCodec
    var fields: seq<int>

    constructor (codec: H.LawfulCodec, fields: seq<int>)
      ensures this.codec == codec && this.fields == fields
    {
      this.codec, this.fields := codec, fields;
    }

    method Write(buf: array<byte>, off: nat, len: nat) returns (o: Outcome)
      requires codec.valid(fields) && off + len <= buf.Length
      modifies buf
      ensures |codec.wire(fields)| == codec.length(fields)
      ensures o.Pass? <==> len >= codec.length(fields)
      ensures buf[..] == if o.Pass? then Splice(old(buf[..]), off, codec.wire(fields)) else old(buf[..])
    {
      if len < codec.length(fields) {
        return Fail(BufferTooSmall);
      }
      MemCopy(buf, off, codec.wire(fields));
      return Pass;
    }

    method Read(b: seq<byte>) returns (o: Outcome)
      modifies this
      ensures o.Pass? <==> codec.readable(b)
      ensures fields == if o.Pass? then codec.read(b) else old(fields)
    {
      if !codec.readable(b) {
        return Fail(BufferTooSmall);
      }
      fields := codec.read(b);
      return Pass;
    }
  }
}
