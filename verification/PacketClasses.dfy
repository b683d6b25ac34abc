/** The packet classes of pgen/core/protocol: which headers each owns, their defaults and their copies. */
module PacketClasses {
  import opened Bytes
  import opened DataContainers
  import opened HeaderStack
  import opened Packets
  import H = Headers
  import O = HeaderObjects

  datatype Class = EthernetClass | ArpClass | Ipv4Class | Ipv6Class | UdpClass

  // ----- the values `clear` leaves behind

  function EthernetDefault(etherType: uint16): H.Ethernet {
    H.Ethernet(Zeros(6), Zeros(6), etherType)
  }

  const ARP_DEFAULT := H.Arp(1, 0x0800, 6, 4, 1, Zeros(6), Zeros(4), [0xff, 0xff, 0xff, 0xff, 0xff, 0xff], Zeros(4))
  const IPV4_DEFAULT := H.Ipv4(4, 5, 0, 20, 0, 0, 64, 0, 0, Zeros(4), Zeros(4), Zeros(40))
  const IPV6_DEFAULT := H.Ipv6(6, 0, 0, 0, 6, 64, Zeros(16), Zeros(16))
  const UDP_DEFAULT := H.Udp(53, 53, 8, 0)

  function Defaults(c: Class): seq<H.Header> {
    match c
    case EthernetClass => [H.EthernetHeader(EthernetDefault(0))]
    case ArpClass => [H.EthernetHeader(EthernetDefault(0x0806)), H.ArpHeader(ARP_DEFAULT)]
    case Ipv4Class => [H.EthernetHeader(EthernetDefault(0x0800)), H.Ipv4Header(IPV4_DEFAULT)]
    case Ipv6Class => [H.EthernetHeader(EthernetDefault(0x86dd)), H.Ipv6Header(IPV6_DEFAULT)]
    case UdpClass => [H.EthernetHeader(EthernetDefault(0x0800)),
                      H.Ipv4Header(IPV4_DEFAULT.(protocol := 17, totLen := 28)), H.UdpHeader(UDP_DEFAULT)]
  }

  /** The headers of a new packet of each class, as they go out. */
  lemma EthernetBytes()
    ensures WritableAll(Defaults(EthernetClass)) && WireAll(Defaults(EthernetClass)) == Zeros(14)
  {
  }

  lemma ArpDefaultWire()
    ensures H.ArpWire(ARP_DEFAULT)
         == [0, 1, 8, 0, 6, 4, 0, 1] + Zeros(10) + [0xff, 0xff, 0xff, 0xff, 0xff, 0xff] + Zeros(4)
  {
    var numbers: seq<byte>, target: seq<byte> := [0, 1, 8, 0, 6, 4, 0, 1], [0xff, 0xff, 0xff, 0xff, 0xff, 0xff];
    assert Be16(1) + Be16(0x0800) + [6, 4] + Be16(1) == numbers;
    assert Zeros(6) + Zeros(4) == Zeros(10);
    hide Be16;
    assert H.ArpWire(ARP_DEFAULT) == numbers + (Zeros(6) + Zeros(4)) + target + Zeros(4);
  }

  lemma ArpBytes()
    ensures WritableAll(Defaults(ArpClass))
    ensures WireAll(Defaults(ArpClass))
         == Zeros(12) + [8, 6] + [0, 1, 8, 0, 6, 4, 0, 1] + Zeros(10) + [0xff, 0xff, 0xff, 0xff, 0xff, 0xff] + Zeros(4)
  {
    WireOfTwo(Defaults(ArpClass)[0], Defaults(ArpClass)[1]);
    ArpDefaultWire();
    EthernetWireOf(0x0806);
    hide WireAll, H.ArpWire, H.EthernetWire;
  }

  lemma EthernetWireOf(etherType: uint16)
    ensures H.EthernetWire(EthernetDefault(etherType)) == Zeros(12) + Be16(etherType)
  {
  }

  lemma Ipv4DefaultWire(protocol: byte, totLen: byte)
    ensures H.Ipv4Wire(IPV4_DEFAULT.(protocol := protocol, totLen := totLen))
         == [0x45, 0, 0, totLen, 0, 0, 0, 0, 64, protocol] + Zeros(10)
  {
    assert H.VersionAndLength(4, 5) == 0x45 && Be16(totLen) == [0, totLen] && Be16(0) == [0, 0];
    hide H.VersionAndLength, Be16;
  }

  lemma Ipv6DefaultWire()
    ensures H.Ipv6Wire(IPV6_DEFAULT) == [0x60, 0, 0, 0, 0, 0, 6, 64] + Zeros(32)
  {
    assert H.VersionAndLength(6, 0) == 0x60 && Be16(0) == [0, 0];
    hide H.VersionAndLength, Be16;
  }

  lemma Ipv4Bytes()
    ensures WritableAll(Defaults(Ipv4Class))
    ensures WireAll(Defaults(Ipv4Class)) == Zeros(12) + [8, 0] + [0x45, 0, 0, 20, 0, 0, 0, 0, 64, 0] + Zeros(10)
  {
    WireOfTwo(Defaults(Ipv4Class)[0], Defaults(Ipv4Class)[1]);
    Ipv4DefaultWire(0, 20);
    EthernetWireOf(0x0800);
    hide WireAll, H.Ipv4Wire, H.EthernetWire;
  }

  lemma Ipv6Bytes()
    ensures WritableAll(Defaults(Ipv6Class))
    ensures WireAll(Defaults(Ipv6Class)) == Zeros(12) + [0x86, 0xdd] + [0x60, 0, 0, 0, 0, 0, 6, 64] + Zeros(32)
  {
    WireOfTwo(Defaults(Ipv6Class)[0], Defaults(Ipv6Class)[1]);
    Ipv6DefaultWire();
    EthernetWireOf(0x86dd);
    assert Be16(0x86dd) == [0x86, 0xdd];
    hide WireAll, H.Ipv6Wire, H.EthernetWire, Be16;
  }

  /** The total length 28 and the protocol 17 in the IP header; ports 53, length 8 and no checksum in the UDP header. */
  lemma UdpBytes()
    ensures WritableAll(Defaults(UdpClass))
    ensures WireAll(Defaults(UdpClass))
         == Zeros(12) + [8, 0] + [0x45, 0, 0, 28, 0, 0, 0, 0, 64, 17] + Zeros(10) + [0, 53, 0, 53, 0, 8, 0, 0]
  {
    var d := Defaults(UdpClass);
    assert d[1..] == [d[1], d[2]];
    WireOfTwo(d[1], d[2]);
    Ipv4DefaultWire(17, 28);
    assert H.UdpWire(UDP_DEFAULT) == [0, 53, 0, 53, 0, 8, 0, 0];
    EthernetWireOf(0x0800);
    hide H.EthernetWire, H.Ipv4Wire, H.UdpWire;
  }

  lemma WireOfTwo(g: H.Header, h: H.Header)
    requires H.Writable(g) && H.Writable(h)
    ensures WritableAll([g, h]) && WireAll([g, h]) == H.Wire(g) + H.Wire(h)
  {
    assert [g, h][1..] == [h] && [h][1..] == [];
  }

  /** The stack of an object of class `c`, whatever its fields hold. */
  ghost predicate StackOf(c: Class, vs: seq<H.Header>) {
    SameKinds(Defaults(c), vs)
  }

  method NewHeader(v: H.Header) returns (r: HeaderRef)
    ensures fresh(r.Obj()) && r.Value() == v
  {
    match v
    case EthernetHeader(e) => var o := new O.EthernetHeader(e); r := EthernetRef(o);
    case ArpHeader(a) => var o := new O.ArpHeader(a); r := ArpRef(o);
    case Ipv4Header(i) => var o := new O.Ipv4Header(i); r := Ipv4Ref(o);
    case Ipv6Header(i) => var o := new O.Ipv6Header(i); r := Ipv6Ref(o);
    case UdpHeader(u) => var o := new O.UdpHeader(u); r := UdpRef(o);
    case OtherHeader(c, fields) => var o := new O.OtherHeader(c, fields); r := OtherRef(o);
  }

  /** New header objects, one per value, none shared. */
  method NewHeaders(vs: seq<H.Header>) returns (hs: seq<HeaderRef>)
    ensures |hs| == |vs|
    ensures forall i :: 0 <= i < |hs| ==> fresh(hs[i].Obj()) && hs[i].Value() == vs[i]
    ensures forall i, j :: 0 <= i < j < |hs| ==> hs[i].Obj() != hs[j].Obj()
  {
    hs := [];
    for k := 0 to |vs|
      invariant |hs| == k
      invariant forall i :: 0 <= i < k ==> fresh(hs[i].Obj()) && allocated(hs[i].Obj()) && hs[i].Value() == vs[i]
      invariant forall i, j :: 0 <= i < j < k ==> hs[i].Obj() != hs[j].Obj()
    {
      var r := NewHeader(vs[k]);
      hs := hs + [r];
    }
  }

  /** A packet over new header objects with the given values. */
  method NewPacket(vs: seq<H.Header>) returns (p: Packet)
    ensures fresh(p) && p.Valid() && fresh(p.raw) && fresh(p.raw.vec) && fresh(Objs(p.headers))
    ensures p.raw !in Objs(p.headers)
    ensures p.Values() == vs && p.Contents() == []
  {
    var hs := NewHeaders(vs);
    p := new Packet(hs);
  }

  /** The default constructor of a packet class: `clear`, then `init_headers`. */
  method New(c: Class) returns (p: Packet)
    ensures fresh(p) && p.Valid() && fresh(p.raw) && fresh(p.raw.vec) && fresh(Objs(p.headers))
    ensures p.Values() == Defaults(c) && p.Contents() == []
  {
    p := NewPacket(Defaults(c));
  }

  /** Every header class by value, as its copy assignment does. */
  method HeaderValues(hs: seq<HeaderRef>) returns (vs: seq<H.Header>)
    ensures vs == ValuesOf(hs)
  {
    vs := [];
    for k := 0 to |hs|
      invariant vs == ValuesOf(hs)[..k]
    {
      vs := vs + [hs[k].Value()];
    }
  }

  /**
   * The copy constructor of `udp`, `ethernet`, `ipv4` and `ipv6`: the raw bytes and the
   * header values are copied, and the new header list points to the new objects.
   */
  method Copy(rhs: Packet) returns (p: Packet)
    requires rhs.Valid()
    ensures fresh(p) && p.Valid() && fresh(p.raw) && fresh(p.raw.vec) && fresh(Objs(p.headers))
    ensures p.Values() == rhs.Values() == old(rhs.Values())
    ensures p.raw.vec[..] == rhs.raw.vec[..] == old(rhs.raw.vec[..])
  {
    hide ValuesOf;
    var vs := HeaderValues(rhs.headers);
    p := NewPacket(vs);
    assert p.raw !in Objs(rhs.headers);
    p.raw.Assign(rhs.raw);
  }

  /**
   * The copy constructor of `arp` starts from the default constructor instead: the
   * contents are not copied, so the copy stands for the same bytes exactly when the
   * original had none.
   */
  method CopyArp(rhs: Packet) returns (p: Packet)
    requires rhs.Valid() && StackOf(ArpClass, rhs.Values())
    ensures fresh(p) && p.Valid() && fresh(p.raw) && fresh(p.raw.vec) && fresh(Objs(p.headers))
    ensures p.Values() == rhs.Values() == old(rhs.Values())
    ensures p.Contents() == [] && rhs.Contents() == old(rhs.Contents())
    ensures p.Contents() == rhs.Contents() <==> rhs.Contents() == []
  {
    var vs := HeaderValues(rhs.headers);
    p := NewPacket(vs);
  }

  // ----- the five classes within the head-room

  lemma LengthsAdd(vs: seq<H.Header>)
    ensures |vs| == 1 ==> LengthAll(vs) == H.Length(vs[0])
    ensures |vs| == 2 ==> LengthAll(vs) == H.Length(vs[0]) + H.Length(vs[1])
    ensures |vs| == 3 ==> LengthAll(vs) == H.Length(vs[0]) + H.Length(vs[1]) + H.Length(vs[2])
  {
    hide H.Length;
    if |vs| == 2 {
      assert LengthAll(vs[1..]) == H.Length(vs[1]) + LengthAll(vs[1..][1..]);
    } else if |vs| == 3 {
      assert LengthAll(vs[1..]) == H.Length(vs[1]) + LengthAll(vs[1..][1..]);
      assert LengthAll(vs[1..][1..]) == H.Length(vs[2]) + LengthAll(vs[1..][1..][1..]);
    }
  }

  /** No object of the five classes can outgrow the 128 bytes of head-room. */
  lemma HeadRoomSuffices(c: Class, vs: seq<H.Header>)
    requires StackOf(c, vs)
    ensures LengthAll(vs) <= 82 < MAX_HEADER_LEN
    ensures c != Ipv6Class ==> NoIpv6(vs)
  {
    LengthsAdd(vs);
  }
}
