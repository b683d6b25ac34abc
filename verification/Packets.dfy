/** pgen/core/packet.h: a packet is a byte vector with head-room and a list of headers. */
module Packets {
  import opened Bytes
  import opened Exceptions
  import opened DataContainers
  import opened HeaderStack
  import H = Headers
  import L = HeaderLayouts
  import O = HeaderObjects

  const MAX_HEADER_LEN := 128

  /** A `pgen::header*`: which object it points to decides what its virtual calls do. */
  datatype HeaderRef =
    | EthernetRef(eth: O.EthernetHeader)
    | ArpRef(arp: O.ArpHeader)
    | Ipv4Ref(ip: O.Ipv4Header)
    | Ipv6Ref(ip6: O.Ipv6Header)
    | UdpRef(udp: O.UdpHeader)
    | OtherRef(other: O.OtherHeader)
  {
    function Obj(): object {
      match this
      case EthernetRef(e) => e
      case ArpRef(a) => a
      case Ipv4Ref(i) => i
      case Ipv6Ref(i) => i
      case UdpRef(u) => u
      case OtherRef(h) => h
    }

    function Value(): H.Header
      reads Obj()
    {
      match this
      case EthernetRef(e) => H.EthernetHeader(e.Value())
      case ArpRef(a) => H.ArpHeader(a.Value())
      case Ipv4Ref(i) => H.Ipv4Header(i.Value())
      case Ipv6Ref(i) => H.Ipv6Header(i.Value())
      case UdpRef(u) => H.UdpHeader(u.Value())
      case OtherRef(h) => H.OtherHeader(h.codec, h.fields)
    }

    function Length(): (n: nat)
      reads Obj()
      ensures n == H.Length(Value())
    {
      match this
      case EthernetRef(_) => H.ETHERNET_LENGTH
      case ArpRef(_) => H.ARP_LENGTH
      case Ipv4Ref(i) => 4 * i.hlen
      case Ipv6Ref(_) => H.IPV6_LENGTH
      case UdpRef(_) => H.UDP_LENGTH
      case OtherRef(h) => h.codec.length(h.fields)
    }

    method Write(buf: array<byte>, off: nat, len: nat) returns (o: Outcome)
      requires H.Writable(Value()) && off + len <= buf.Length
      modifies buf
      ensures o.Pass? <==> len >= Length()
      ensures buf[..] == if o.Pass? then Splice(old(buf[..]), off, H.Wire(Value())) else old(buf[..])
    {
      hide L.EthernetAt, L.ArpAt, L.Ipv4At, L.Ipv6At, L.Ipv6Cleared, L.UdpAt;
      hide H.EthernetWire, H.ArpWire, H.Ipv4Wire, H.Ipv6Wire, H.UdpWire, Splice;
      match this
      case EthernetRef(e) => o := e.Write(buf, off, len);
      case ArpRef(a) => o := a.Write(buf, off, len);
      case Ipv4Ref(i) => o := i.Write(buf, off, len);
      case Ipv6Ref(i) => o := i.Write(buf, off, len);
      case UdpRef(u) => o := u.Write(buf, off, len);
      case OtherRef(h) => o := h.Write(buf, off, len);
    }

    method Read(b: seq<byte>) returns (o: Outcome)
      requires H.Sane(Value(), b)
      modifies Obj()
      ensures o.Pass? <==> H.Readable(old(Value()), b)
      ensures H.SameKind(old(Value()), Value())
      ensures o.Pass? ==> Value() == H.Read(old(Value()), b)
    {
      hide L.EthernetAt, L.ArpAt, L.Ipv4At, L.Ipv6At, L.UdpAt;
      match this
      case EthernetRef(e) => o := e.Read(b);
      case ArpRef(a) => o := a.Read(b);
      case Ipv4Ref(i) => o := i.Read(b);
      case Ipv6Ref(i) => o := i.Read(b);
      case UdpRef(u) => o := u.Read(b);
      case OtherRef(h) => o := h.Read(b);
    }
  }

  ghost function Objs(hs: seq<HeaderRef>): set<object> {
    set i | 0 <= i < |hs| :: hs[i].Obj()
  }

  ghost function ValuesOf(hs: seq<HeaderRef>): (vs: seq<H.Header>)
    reads Objs(hs)
    ensures |vs| == |hs|
  {
    seq(|hs|, i requires 0 <= i < |hs| reads Objs(hs) => hs[i].Value())
  }

  lemma ValueAt(hs: seq<HeaderRef>, i: nat)
    requires i < |hs|
    ensures ValuesOf(hs)[i] == hs[i].Value()
  {
  }

  lemma NoArray(hs: seq<HeaderRef>, a: array<byte>)
    ensures forall k :: 0 <= k < |hs| ==> hs[k].Obj() != a
  {
  }

  class Packet {
    const raw: DataContainer
    var headers: seq<HeaderRef>

    /** The headers are different objects, and the vector has its head-room. */
    ghost predicate Valid()
      reads this, raw
    {
      && raw.Valid() && raw.pivot == MAX_HEADER_LEN
      && forall i, j :: 0 <= i < j < |headers| ==> headers[i].Obj() != headers[j].Obj()
    }

    ghost function Values(): seq<H.Header>
      reads this, Objs(headers)
    {
      ValuesOf(headers)
    }

    function Contents(): seq<byte>
      requires raw.vec.Length >= MAX_HEADER_LEN
      reads this, raw, raw.vec
    {
      raw.vec[MAX_HEADER_LEN..]
    }

    constructor (headers: seq<HeaderRef>)
      requires forall i, j :: 0 <= i < j < |headers| ==> headers[i].Obj() != headers[j].Obj()
      ensures Valid() && fresh(raw) && fresh(raw.vec)
      ensures this.headers == headers && Contents() == [] && raw.vec.Length == 128
    {
      raw := new DataContainer(MAX_HEADER_LEN);
      this.headers := headers;
    }

    method SetContents(buf: seq<byte>)
      requires Valid()
      modifies raw
      ensures Valid() && fresh(raw.vec)
      ensures raw.vec[..] == old(raw.vec[..MAX_HEADER_LEN]) + buf && Contents() == buf
    {
      raw.SetContent(buf);
    }

    method HeaderLength() returns (n: nat)
      ensures n == LengthAll(Values()) && Values() == old(Values())
    {
      n := 0;
      for i := 0 to |headers|
        invariant n + LengthAll(Values()[i..]) == LengthAll(Values())
      {
        assert Values()[i..][1..] == Values()[i + 1..];
        n := n + headers[i].Length();
      }
    }

    /** The bytes from the pointer `raw()` to the end of the vector; `raw` asserts that the headers fit the head-room. */
    method Raw() returns (s: seq<byte>)
      requires Valid() && LengthAll(Values()) <= MAX_HEADER_LEN
      ensures Values() == old(Values())
      ensures s == raw.vec[MAX_HEADER_LEN - LengthAll(Values())..]
    {
      var n := HeaderLength();
      s := raw.vec[MAX_HEADER_LEN - n..];
    }

    method Length() returns (n: nat)
      requires Valid()
      ensures n == |Contents()| + LengthAll(Values()) && Values() == old(Values())
    {
      var h := HeaderLength();
      n := raw.vec.Length - MAX_HEADER_LEN + h;
    }

    /** One turn of `compile`: the header goes right below those already written. */
    method WriteHeader(i: nat, pointer: nat, ghost before: seq<byte>) returns (next: nat)
      requires Valid() && i < |headers| && WritableAll(Values()) && LengthAll(Values()) <= MAX_HEADER_LEN <= |before|
      requires pointer + LengthAll(Values()[i + 1..]) == MAX_HEADER_LEN
      requires raw.vec[..] == before[..pointer] + WireAll(Values()[i + 1..]) + before[MAX_HEADER_LEN..]
      modifies raw.vec
      ensures Values() == old(Values()) && next + LengthAll(Values()[i..]) == MAX_HEADER_LEN
      ensures raw.vec[..] == before[..next] + WireAll(Values()[i..]) + before[MAX_HEADER_LEN..]
    {
      hide H.Wire, H.Length, H.Writable, Splice, LengthAll, WireAll, Objs;
      hide HeaderRef.Value;
      ghost var vs := Values();
      StackStep(vs, i);
      ValueAt(headers, i);
      NoArray(headers, raw.vec);
      var n := headers[i].Length();
      WriteBelow(before, pointer, WireAll(vs[i + 1..]), H.Wire(vs[i]));
      var o := headers[i].Write(raw.vec, pointer - n, n);
      assert forall k :: 0 <= k < |headers| ==> headers[k].Value() == vs[k];
      next := pointer - n;
    }

    /** Writes each header just below the one after it, from the pivot down. */
    method Compile()
      requires Valid() && WritableAll(Values()) && LengthAll(Values()) <= MAX_HEADER_LEN
      modifies raw.vec
      ensures Values() == old(Values())
      ensures raw.vec[MAX_HEADER_LEN - LengthAll(Values())..] == WireAll(Values()) + old(Contents())
      ensures raw.vec[..MAX_HEADER_LEN - LengthAll(Values())] == old(raw.vec[..MAX_HEADER_LEN - LengthAll(Values())])
    {
      hide H.Wire, H.Length, H.Writable, Splice, LengthAll, WireAll, ValuesOf;
      ghost var vs := Values();
      ghost var before := raw.vec[..];
      EmptyStackWire(vs);
      var pointer := raw.pivot;
      var i := |headers|;
      while i > 0
        invariant 0 <= i <= |headers| && 0 <= pointer <= MAX_HEADER_LEN && Values() == vs
        invariant pointer + LengthAll(vs[i..]) == MAX_HEADER_LEN
        invariant raw.vec[..] == before[..pointer] + WireAll(vs[i..]) + before[MAX_HEADER_LEN..]
      {
        i := i - 1;
        pointer := WriteHeader(i, pointer, before);
      }
      assert vs[0..] == vs;
    }

    /** One turn of `analyze`: no other header changes. */
    method ReadHeader(i: nat, b: seq<byte>) returns (o: Outcome, n: nat)
      requires Valid() && i < |headers| && H.Sane(Values()[i], b)
      modifies headers[i].Obj()
      ensures o.Pass? <==> H.Readable(old(Values())[i], b)
      ensures Values() == old(Values())[i := Values()[i]]
      ensures o.Pass? ==> Values()[i] == H.Read(old(Values())[i], b) && n == H.Length(Values()[i])
    {
      hide H.Length, H.Read, H.Readable, H.Sane, H.SameKind;
      ghost var vs := Values();
      o := headers[i].Read(b);
      n := headers[i].Length();
      forall k | 0 <= k < |headers| && k != i
        ensures headers[k].Value() == vs[k]
      {
        assert headers[k].Obj() != headers[i].Obj();
      }
    }

    /** Reads each header where the one before it ends; what is left becomes the contents. */
    method Analyze(b: seq<byte>) returns (o: Outcome)
      requires Valid() && SaneAll(Values(), b)
      modifies raw, Objs(headers)
      ensures Valid() && headers == old(headers)
      ensures o.Pass? <==> ReadableAll(old(Values()), b)
      ensures o.Pass? ==> Values() == ReadAll(old(Values()), b)
      ensures o.Pass? ==> fresh(raw.vec) && raw.vec[..] == old(raw.vec[..MAX_HEADER_LEN]) + b[LengthAll(Values())..]
      ensures o.Fail? ==> raw.vec == old(raw.vec)
    {
      hide H.Length, H.Read, H.Readable, H.Sane, H.SameKind, LengthAll, ReadAll, ReadableAll, SaneAll, Halfway, ValuesOf;
      ghost var vs := Values();
      HalfwayStarts(vs, b);
      var pos := 0;
      var i := 0;
      while i < |headers|
        invariant 0 <= i <= |headers| == |vs| && 0 <= pos <= |b|
        invariant Valid() && headers == old(headers) && raw.vec == old(raw.vec)
        invariant Halfway(vs, b, Values(), i, pos)
      {
        ghost var was := Values();
        HalfwaySteps(vs, b, was, i, pos);
        var o, n := ReadHeader(i, b[pos..]);
        if o.Fail? {
          return o;
        }
        pos := pos + n;
        i := i + 1;
      }
      HalfwayEnds(vs, b, Values(), pos);
      SetContents(b[pos..]);
      return Pass;
    }
  }

  /** `analyze` has read the first `i` headers of a stack of values `vs`, up to `pos`. */
  ghost predicate Halfway(vs: seq<H.Header>, b: seq<byte>, now: seq<H.Header>, i: nat, pos: nat)
    requires SaneAll(vs, b)
  {
    && i <= |vs| == |now| && pos <= |b|
    && now[i..] == vs[i..]
    && SaneAll(vs[i..], b[pos..])
    && (ReadableAll(vs, b) <==> ReadableAll(vs[i..], b[pos..]))
    && (ReadableAll(vs, b) ==>
          && ReadAll(vs, b) == now[..i] + ReadAll(vs[i..], b[pos..])
          && LengthAll(ReadAll(vs, b)) == pos + LengthAll(ReadAll(vs[i..], b[pos..])))
  }

  lemma HalfwayStarts(vs: seq<H.Header>, b: seq<byte>)
    requires SaneAll(vs, b)
    ensures Halfway(vs, b, vs, 0, 0)
  {
    assert vs[0..] == vs && b[0..] == b;
  }

  lemma HalfwaySteps(vs: seq<H.Header>, b: seq<byte>, was: seq<H.Header>, i: nat, pos: nat)
    requires SaneAll(vs, b) && Halfway(vs, b, was, i, pos) && i < |vs|
    ensures was[i] == vs[i] && H.Sane(was[i], b[pos..])
    ensures ReadableAll(vs, b) ==> H.Readable(was[i], b[pos..])
    ensures H.Readable(was[i], b[pos..]) ==>
              var r := H.Read(was[i], b[pos..]);
              pos + H.Length(r) <= |b| && Halfway(vs, b, was[i := r], i + 1, pos + H.Length(r))
  {
    hide H.Length, H.Read, H.Readable, H.Sane, H.SameKind, LengthAll, ReadAll, ReadableAll, SaneAll;
    assert was[i] == was[i..][0] == vs[i..][0] == vs[i];
    ReadStep(vs, i, b[pos..]);
    if H.Readable(was[i], b[pos..]) {
      var r := H.Read(was[i], b[pos..]);
      var n := H.Length(r);
      assert b[pos..][n..] == b[pos + n..];
      OneReplaced(was, vs, i, r);
      if ReadableAll(vs, b) {
        AppendOne(was[..i], r, ReadAll(vs[i + 1..], b[pos + n..]));
      }
    }
  }

  lemma AppendOne(a: seq<H.Header>, r: H.Header, c: seq<H.Header>)
    ensures a + ([r] + c) == a + [r] + c
  {
  }

  lemma OneReplaced(was: seq<H.Header>, vs: seq<H.Header>, i: nat, r: H.Header)
    requires i < |was| == |vs| && was[i..] == vs[i..]
    ensures was[i] == vs[i] && was[i := r][i + 1..] == vs[i + 1..] && was[i := r][..i + 1] == was[..i] + [r]
  {
    assert was[i..][1..] == was[i + 1..] && vs[i..][1..] == vs[i + 1..];
    assert was[i..][0] == was[i] && vs[i..][0] == vs[i];
  }

  lemma HalfwayEnds(vs: seq<H.Header>, b: seq<byte>, now: seq<H.Header>, pos: nat)
    requires SaneAll(vs, b) && Halfway(vs, b, now, |vs|, pos)
    ensures ReadableAll(vs, b) && ReadAll(vs, b) == now && LengthAll(now) == pos
  {
    assert vs[|vs|..] == [] && now[..|vs|] == now;
  }

  lemma ReadStep(vs: seq<H.Header>, i: nat, b: seq<byte>)
    requires i < |vs| && SaneAll(vs[i..], b)
    ensures H.Sane(vs[i], b)
    ensures ReadableAll(vs[i..], b) ==> H.Readable(vs[i], b)
    ensures H.Readable(vs[i], b) ==>
              var r := H.Read(vs[i], b);
              var tail := b[H.Length(r)..];
              && SaneAll(vs[i + 1..], tail)
              && (ReadableAll(vs[i..], b) <==> ReadableAll(vs[i + 1..], tail))
              && (ReadableAll(vs[i..], b) ==>
                    && ReadAll(vs[i..], b) == [r] + ReadAll(vs[i + 1..], tail)
                    && LengthAll(ReadAll(vs[i..], b)) == H.Length(r) + LengthAll(ReadAll(vs[i + 1..], tail)))
  {
    hide H.Length, H.Read, H.Readable, H.Sane, H.SameKind;
    assert vs[i..][1..] == vs[i + 1..];
    if H.Readable(vs[i], b) && ReadableAll(vs[i..], b) {
      var r := H.Read(vs[i], b);
      var rs := ReadAll(vs[i + 1..], b[H.Length(r)..]);
      assert ([r] + rs)[1..] == rs;
    }
  }

  lemma EmptyStackWire(vs: seq<H.Header>)
    requires WritableAll(vs)
    ensures LengthAll(vs[|vs|..]) == 0 && WireAll(vs[|vs|..]) == []
  {
  }

  lemma StackStep(vs: seq<H.Header>, i: nat)
    requires i < |vs| && WritableAll(vs)
    ensures H.Writable(vs[i]) && LengthAll(vs[i..]) == H.Length(vs[i]) + LengthAll(vs[i + 1..]) <= LengthAll(vs)
    ensures WireAll(vs[i..]) == H.Wire(vs[i]) + WireAll(vs[i + 1..])
  {
    assert vs[i..][1..] == vs[i + 1..];
    TailShorter(vs, i);
  }

  /** A header written right below what is already written. */
  lemma WriteBelow(before: seq<byte>, pointer: nat, done: seq<byte>, w: seq<byte>)
    requires |w| <= pointer && pointer + |done| == MAX_HEADER_LEN <= |before|
    ensures Splice(before[..pointer] + done + before[MAX_HEADER_LEN..], pointer - |w|, w)
         == before[..pointer - |w|] + (w + done) + before[MAX_HEADER_LEN..]
  {
  }

  lemma {:induction false} TailShorter(vs: seq<H.Header>, i: nat)
    requires i <= |vs|
    ensures LengthAll(vs[i..]) <= LengthAll(vs)
  {
    if i > 0 {
      assert vs[1..][i - 1..] == vs[i..];
      TailShorter(vs[1..], i - 1);
    }
  }
}
