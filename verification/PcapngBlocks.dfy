/** The pcapng blocks of pgen/io/pcapng_stream.h, on values: their bytes, their fields, and how the two relate. */
module PcapngBlocks {
  import opened Bytes

  const SHB: uint32 := 0x0a0d_0d0a
  const IDB: uint32 := 1
  const SPB: uint32 := 3
  const EPB: uint32 := 6

  datatype Kind = Section | Interface | Packet

  /**
   * The members a block class adds to `pcapng_block`. `data` is what the packet data
   * pointer points at, up to the end of the buffer it points into.
   */
  datatype Body =
    | SectionBody(magic: uint32, versionMajor: uint16, versionMinor: uint16,
                  sectionLength0: uint32, sectionLength1: uint32)
    | InterfaceBody(linkType: uint16, reserved: uint16, snapLength: uint32)
    | PacketBody(interfaceId: uint32, timestampHigh: uint32, timestampLow: uint32,
                 captureLength: uint32, packetLength: uint32, data: seq<byte>)
  {
    function Kind(): Kind {
      match this
      case SectionBody(_, _, _, _, _) => Section
      case InterfaceBody(_, _, _) => Interface
      case PacketBody(_, _, _, _, _, _) => Packet
    }

    /** The captured bytes can be read through the pointer. */
    predicate PointerValid() {
      PacketBody? ==> captureLength <= |data|
    }
  }

  datatype Block = Block(blockType: uint32, totalLength: uint32, option: seq<byte>, body: Body)

  function TypeOf(k: Kind): uint32 {
    match k
    case Section => SHB
    case Interface => IDB
    case Packet => EPB
  }

  /** `n` rounded up to a multiple of four, as `body_length` does. */
  function PadTo4(n: nat): (m: nat)
    ensures n <= m < n + 4 && m % 4 == 0
  {
    var a := n % 4;
    if a != 0 then n + (4 - a) else n
  }

  function FixedLength(k: Kind): nat {
    match k
    case Section => 16
    case Interface => 8
    case Packet => 20
  }

  /** `body_length`. */
  function BodyLength(body: Body): nat {
    match body
    case PacketBody(_, _, _, captureLength, _, _) => PadTo4(20 + captureLength)
    case _ => FixedLength(body.Kind())
  }

  function PadLength(body: Body): nat {
    match body
    case PacketBody(_, _, _, captureLength, _, _) => PadTo4(20 + captureLength) - 20 - captureLength
    case _ => 0
  }

  function FixedBytes(body: Body): (s: seq<byte>)
    ensures |s| == FixedLength(body.Kind())
  {
    match body
    case SectionBody(magic, major, minor, l0, l1) => Le32(magic) + Le16(major) + Le16(minor) + Le32(l0) + Le32(l1)
    case InterfaceBody(link, reserved, snap) => Le16(link) + Le16(reserved) + Le32(snap)
    case PacketBody(id, high, low, capture, packet, _) => Le32(id) + Le32(high) + Le32(low) + Le32(capture) + Le32(packet)
  }

  function Payload(body: Body): (s: seq<byte>)
    requires body.PointerValid()
    ensures |s| == if body.PacketBody? then body.captureLength else 0
  {
    match body
    case PacketBody(_, _, _, capture, _, data) => data[..capture]
    case _ => []
  }

  /** A body's bytes; `write_body` leaves the padding of the buffer it writes into. */
  function BodyBytes(body: Body, pad: seq<byte>): (s: seq<byte>)
    requires body.PointerValid() && |pad| == PadLength(body)
    ensures |s| == BodyLength(body)
  {
    FixedBytes(body) + Payload(body) + pad
  }

  function Encode(v: Block, pad: seq<byte>): (s: seq<byte>)
    requires v.body.PointerValid() && |pad| == PadLength(v.body)
    ensures |s| == 12 + BodyLength(v.body) + |v.option|
  {
    Le32(v.blockType) + Le32(v.totalLength) + BodyBytes(v.body, pad) + v.option + Le32(v.totalLength)
  }

  /** The total length is what the parts add up to. */
  predicate Consistent(v: Block) {
    v.totalLength == 12 + BodyLength(v.body) + |v.option|
  }

  /** Where the fields of a body lie in its bytes. */
  lemma FieldsLaidOut(body: Body)
    ensures var s := FixedBytes(body);
            match body
            case SectionBody(magic, major, minor, l0, l1) =>
              && |s| == 16 && Le32At(s, 0) == magic && Le16At(s, 4) == major && Le16At(s, 6) == minor
              && Le32At(s, 8) == l0 && Le32At(s, 12) == l1
            case InterfaceBody(link, reserved, snap) =>
              |s| == 8 && Le16At(s, 0) == link && Le16At(s, 2) == reserved && Le32At(s, 4) == snap
            case PacketBody(id, high, low, capture, packet, _) =>
              && |s| == 20 && Le32At(s, 0) == id && Le32At(s, 4) == high && Le32At(s, 8) == low
              && Le32At(s, 12) == capture && Le32At(s, 16) == packet
  {
    assert FixedBytes(body) + [] == FixedBytes(body);
    FixedReadBack(body, []);
    hide FixedBytes, Le32At, Le16At;
  }

  // ----- reading

  function BodyAt(k: Kind, b: seq<byte>): Body
    requires |b| >= FixedLength(k)
  {
    match k
    case Section => SectionBody(Le32At(b, 0), Le16At(b, 4), Le16At(b, 6), Le32At(b, 8), Le32At(b, 12))
    case Interface => InterfaceBody(Le16At(b, 0), Le16At(b, 2), Le32At(b, 4))
    case Packet => PacketBody(Le32At(b, 0), Le32At(b, 4), Le32At(b, 8), Le32At(b, 12), Le32At(b, 16), b[20..])
  }

  /** `read` into a block of kind `k` does not throw. */
  predicate Readable(k: Kind, b: seq<byte>) {
    && |b| >= 8 + FixedLength(k)
    && Le32At(b, 0) == TypeOf(k)
    && var need := 12 + BodyLength(BodyAt(k, b[8..]));
       var total := Le32At(b, 4);
    && need <= total <= |b|
    && Le32At(b, total - 4) == total
  }

  /** The block a `read` of `b` leaves: the option is whatever is left between the body and the tail. */
  function Parsed(k: Kind, b: seq<byte>): (v: Block)
    requires Readable(k, b)
    ensures v.body.Kind() == k && v.body.PointerValid() && Consistent(v) && v.totalLength <= |b|
  {
    var body, total := BodyAt(k, b[8..]), Le32At(b, 4);
    Block(Le32At(b, 0), total, b[8 + BodyLength(body)..total - 4], body)
  }

  /** The bytes of `b` between the payload and the end of the body. */
  function PaddingIn(k: Kind, b: seq<byte>): (s: seq<byte>)
    requires Readable(k, b)
    ensures |s| == PadLength(Parsed(k, b).body)
  {
    var body := BodyAt(k, b[8..]);
    b[8 + BodyLength(body) - PadLength(body)..8 + BodyLength(body)]
  }

  /** Which block type each class reads, in numbers. */
  lemma ReadableType(k: Kind, b: seq<byte>)
    requires Readable(k, b)
    ensures Le32At(b, 0) == match k case Section => 0x0a0d_0d0a case Interface => 1 case Packet => 6
  {
  }

  // ----- the two invert each other

  lemma FixedAfterRead(k: Kind, b: seq<byte>)
    requires |b| >= FixedLength(k)
    ensures FixedBytes(BodyAt(k, b)) == b[..FixedLength(k)]
  {
    hide Le16, Le32, Le16At, Le32At;
    match k
    case Section =>
      Le32Stored(b, 0);
      Le16Stored(b, 4);
      Le16Stored(b, 6);
      Le32Stored(b, 8);
      Le32Stored(b, 12);
    case Interface =>
      Le16Stored(b, 0);
      Le16Stored(b, 2);
      Le32Stored(b, 4);
    case Packet =>
      Le32Stored(b, 0);
      Le32Stored(b, 4);
      Le32Stored(b, 8);
      Le32Stored(b, 12);
      Le32Stored(b, 16);
  }

  lemma FixedReadBack(body: Body, rest: seq<byte>)
    ensures BodyAt(body.Kind(), FixedBytes(body) + rest) == if body.PacketBody? then body.(data := rest) else body
  {
    hide Le16, Le32, Le16At, Le32At;
    var b := FixedBytes(body) + rest;
    match body
    case SectionBody(magic, major, minor, l0, l1) =>
      assert b[0..4] == Le32(magic) && b[4..6] == Le16(major) && b[6..8] == Le16(minor);
      assert b[8..12] == Le32(l0) && b[12..16] == Le32(l1);
      Le32Loaded(b, 0, magic);
      Le16Loaded(b, 4, major);
      Le16Loaded(b, 6, minor);
      Le32Loaded(b, 8, l0);
      Le32Loaded(b, 12, l1);
    case InterfaceBody(link, reserved, snap) =>
      assert b[0..2] == Le16(link) && b[2..4] == Le16(reserved) && b[4..8] == Le32(snap);
      Le16Loaded(b, 0, link);
      Le16Loaded(b, 2, reserved);
      Le32Loaded(b, 4, snap);
    case PacketBody(id, high, low, capture, packet, _) =>
      assert b[0..4] == Le32(id) && b[4..8] == Le32(high) && b[8..12] == Le32(low);
      assert b[12..16] == Le32(capture) && b[16..20] == Le32(packet);
      Le32Loaded(b, 0, id);
      Le32Loaded(b, 4, high);
      Le32Loaded(b, 8, low);
      Le32Loaded(b, 12, capture);
      Le32Loaded(b, 16, packet);
      assert b[20..] == rest;
  }

  /** A body without what its pointer points at. */
  function Members(body: Body): Body {
    if body.PacketBody? then body.(data := []) else body
  }

  /** The same fields, and the same captured bytes behind the pointer. */
  predicate SameBlock(v: Block, w: Block)
    requires v.body.PointerValid() && w.body.PointerValid()
  {
    && v.blockType == w.blockType && v.totalLength == w.totalLength && v.option == w.option
    && Members(v.body) == Members(w.body) && Payload(v.body) == Payload(w.body)
  }

  /** Where each part of a block lies. */
  lemma Layout(v: Block, pad: seq<byte>, rest: seq<byte>)
    requires v.body.PointerValid() && Consistent(v) && |pad| == PadLength(v.body)
    ensures var b, n, total := Encode(v, pad) + rest, BodyLength(v.body), v.totalLength;
            && b[0..4] == Le32(v.blockType) && b[4..8] == Le32(total) == b[total - 4..total]
            && b[8 + n - |pad|..8 + n] == pad
            && b[8 + n..total - 4] == v.option
  {
    hide Le32, FixedBytes, Payload, PadTo4;
    var lengths, tail := Le32(v.blockType) + Le32(v.totalLength), v.option + Le32(v.totalLength) + rest;
    assert Encode(v, pad) + rest == lengths + BodyBytes(v.body, pad) + tail;
  }

  lemma BodyLayout(v: Block, pad: seq<byte>, rest: seq<byte>)
    requires v.body.PointerValid() && |pad| == PadLength(v.body)
    ensures (Encode(v, pad) + rest)[8..]
         == FixedBytes(v.body) + (Payload(v.body) + (pad + v.option + Le32(v.totalLength) + rest))
  {
    hide Le32, FixedBytes, Payload, PadTo4;
  }

  lemma BodyReadBack(body: Body, tail: seq<byte>)
    requires body.PointerValid()
    ensures var r := BodyAt(body.Kind(), FixedBytes(body) + (Payload(body) + tail));
            && r.Kind() == body.Kind() && r.PointerValid() && BodyLength(r) == BodyLength(body)
            && Members(r) == Members(body) && Payload(r) == Payload(body)
  {
    FixedReadBack(body, Payload(body) + tail);
    hide Le16, Le32, BodyAt, PadTo4;
  }

  /** Writing, then reading, with any padding and anything after the block, restores the block. */
  lemma ReadAfterWrite(v: Block, pad: seq<byte>, rest: seq<byte>)
    requires v.body.PointerValid() && Consistent(v) && v.blockType == TypeOf(v.body.Kind())
    requires |pad| == PadLength(v.body)
    ensures Readable(v.body.Kind(), Encode(v, pad) + rest)
    ensures SameBlock(Parsed(v.body.Kind(), Encode(v, pad) + rest), v)
    ensures PaddingIn(v.body.Kind(), Encode(v, pad) + rest) == pad
  {
    hide Le32, Le32At, FixedBytes, BodyAt, Encode, PadTo4;
    var b, total := Encode(v, pad) + rest, v.totalLength;
    Layout(v, pad, rest);
    Le32Loaded(b, 0, v.blockType);
    Le32Loaded(b, 4, total);
    Le32Loaded(b, total - 4, total);
    var tail := pad + v.option + Le32(total) + rest;
    BodyLayout(v, pad, rest);
    BodyReadBack(v.body, tail);
  }

  lemma DataAt(k: Kind, b: seq<byte>)
    requires |b| >= FixedLength(k)
    ensures BodyAt(k, b).Kind() == k && (k == Packet ==> BodyAt(k, b).data == b[20..])
  {
  }

  lemma BodyAfterRead(k: Kind, b: seq<byte>, pad: seq<byte>)
    requires |b| >= FixedLength(k) && |b| >= BodyLength(BodyAt(k, b)) && |pad| == PadLength(BodyAt(k, b))
    ensures BodyAt(k, b).PointerValid()
    ensures BodyBytes(BodyAt(k, b), pad) == b[..BodyLength(BodyAt(k, b)) - |pad|] + pad
  {
    hide Le32, Le32At, FixedBytes, BodyAt;
    DataAt(k, b);
    FixedAfterRead(k, b);
    var body := BodyAt(k, b);
    assert b[..FixedLength(k)] + Payload(body) == b[..BodyLength(body) - |pad|];
  }

  /** Reading, then writing over the same padding, gives back the block's bytes. */
  lemma WriteAfterRead(k: Kind, b: seq<byte>)
    requires Readable(k, b)
    ensures Encode(Parsed(k, b), PaddingIn(k, b)) == b[..Le32At(b, 4)]
  {
    hide Le32, Le32At, BodyAt, BodyBytes, BodyLength, PadLength, FixedLength;
    var v, pad := Parsed(k, b), PaddingIn(k, b);
    var n, total := BodyLength(v.body), v.totalLength;
    Le32Stored(b, 0);
    Le32Stored(b, 4);
    Le32Stored(b, total - 4);
    PaddingShort(v.body);
    BodyAfterRead(k, b[8..], pad);
    BodySlice(b, n, |pad|);
    BlockSlices(b, n, total);
  }

  lemma PaddingShort(body: Body)
    ensures PadLength(body) <= BodyLength(body)
  {
  }

  lemma BodySlice(b: seq<byte>, n: nat, p: nat)
    requires p <= n && 8 + n <= |b|
    ensures b[8..][..n - p] + b[8 + n - p..8 + n] == b[8..8 + n]
  {
  }

  lemma BlockSlices(b: seq<byte>, n: nat, total: nat)
    requires 12 + n <= total <= |b|
    ensures b[0..4] + b[4..8] + b[8..8 + n] + b[8 + n..total - 4] + b[total - 4..total] == b[..total]
  {
  }

  /** Into a zeroed buffer the bytes come back exactly when the padding was zero; SHB and IDB have none. */
  lemma WriteAfterReadZeroed(k: Kind, b: seq<byte>)
    requires Readable(k, b)
    ensures var v := Parsed(k, b);
            Encode(v, Zeros(PadLength(v.body))) == b[..v.totalLength] <==> PaddingIn(k, b) == Zeros(PadLength(v.body))
    ensures k != Packet ==> PadLength(Parsed(k, b).body) == 0
  {
    hide Le32, Le32At, FixedBytes, BodyAt;
    var v, pad := Parsed(k, b), PaddingIn(k, b);
    WriteAfterRead(k, b);
    var zeros := Zeros(PadLength(v.body));
    PaddingDecides(v, pad, zeros);
  }

  lemma PaddingDecides(v: Block, p: seq<byte>, q: seq<byte>)
    requires v.body.PointerValid() && |p| == |q| == PadLength(v.body)
    ensures Encode(v, p) == Encode(v, q) <==> p == q
  {
    hide Le32, FixedBytes;
    var at, n := 8 + BodyLength(v.body) - |p|, |p|;
    assert Encode(v, p)[at..at + n] == p && Encode(v, q)[at..at + n] == q;
  }

  // ----- the lengths a block is built with

  /** An EPB of no captured bytes, as its constructor leaves it. */
  function EmptyPacket(): Block {
    Block(EPB, 32, [], PacketBody(0, 0, 0, 0, 0, []))
  }

  function EmptySection(): Block {
    Block(SHB, 28, [], SectionBody(0x1a2b_3c4d, 1, 0, 0xffff_ffff, 0xffff_ffff))
  }

  function EmptyInterface(): Block {
    Block(IDB, 20, [], InterfaceBody(1, 0, 0))
  }

  /** A section header block, byte by byte: its type and length, the byte-order magic, version 1.0, an unknown length. */
  const SECTION_BYTES: seq<byte> :=
    [0x0a, 0x0d, 0x0d, 0x0a] + [28, 0, 0, 0]
    + [0x4d, 0x3c, 0x2b, 0x1a, 1, 0, 0, 0, 0xff, 0xff, 0xff, 0xff, 0xff, 0xff, 0xff, 0xff] + [28, 0, 0, 0]

  /** An interface description block: its type and length, link type 1, no snap length. */
  const INTERFACE_BYTES: seq<byte> :=
    [1, 0, 0, 0] + [20, 0, 0, 0] + [1, 0, 0, 0, 0, 0, 0, 0] + [20, 0, 0, 0]

  lemma OpeningBytes()
    ensures Encode(EmptySection(), []) == SECTION_BYTES
    ensures Encode(EmptyInterface(), []) == INTERFACE_BYTES
  {
    OpeningWords();
    hide Le32, FixedBytes;
    assert Encode(EmptySection(), []) ==
           Le32(0x0a0d_0d0a) + Le32(28) + FixedBytes(EmptySection().body) + Le32(28);
    assert Encode(EmptyInterface(), []) == Le32(1) + Le32(20) + FixedBytes(EmptyInterface().body) + Le32(20);
  }

  lemma OpeningWords()
    ensures Le32(0x0a0d_0d0a) == [0x0a, 0x0d, 0x0d, 0x0a] && Le32(28) == [28, 0, 0, 0]
    ensures Le32(1) == [1, 0, 0, 0] && Le32(20) == [20, 0, 0, 0]
    ensures FixedBytes(EmptySection().body)
         == [0x4d, 0x3c, 0x2b, 0x1a, 1, 0, 0, 0, 0xff, 0xff, 0xff, 0xff, 0xff, 0xff, 0xff, 0xff]
    ensures FixedBytes(EmptyInterface().body) == [1, 0, 0, 0, 0, 0, 0, 0]
  {
  }

  /** `set_packet`, in the source's 32-bit members. */
  function WithPacket(v: Block, packet: seq<byte>): Block
    requires v.body.PacketBody?
  {
    var n := Wrap32(|packet|);
    v.(totalLength := Wrap32(v.totalLength + PadTo4(|packet|)),
       body := v.body.(captureLength := n, packetLength := n, data := packet))
  }

  /** A packet whose block has a total length of 32 bits. */
  predicate Sendable(packet: seq<byte>) {
    32 + PadTo4(Wrap32(|packet|)) < 0x1_0000_0000
  }

  /** An EPB carries the whole of its packet exactly when the packet's length fits 32 bits. */
  lemma CarriedWhole(packet: seq<byte>)
    ensures WithPacket(EmptyPacket(), packet).body.PointerValid()
    ensures Payload(WithPacket(EmptyPacket(), packet).body) == packet <==> |packet| < 0x1_0000_0000
    ensures |packet| >= 0x1_0000_0000 ==>
              Payload(WithPacket(EmptyPacket(), packet).body) == packet[..|packet| % 0x1_0000_0000]
  {
    hide PadTo4;
  }

  /** The padding of `set_packet` and that of `body_length` agree. */
  lemma PaddingsAgree(n: nat)
    ensures PadTo4(20 + n) == 20 + PadTo4(n)
    ensures Wrap32(PadTo4(n)) == Wrap32(PadTo4(Wrap32(n)))
  {
    assert (20 + n) % 4 == n % 4;
    PaddingWraps(n, n / 0x1_0000_0000);
  }

  lemma PaddingWraps(n: nat, q: nat)
    requires q == n / 0x1_0000_0000
    ensures Wrap32(PadTo4(n)) == Wrap32(PadTo4(Wrap32(n)))
  {
    var m := n - 0x1_0000_0000 * q;
    assert Wrap32(n) == m;
    PaddingPeriodic(m, q);
    hide PadTo4, Wrap32;
    WrapPeriodic(PadTo4(m), q);
  }

  lemma PaddingPeriodic(m: nat, q: nat)
    ensures PadTo4(0x1_0000_0000 * q + m) == 0x1_0000_0000 * q + PadTo4(m)
  {
    Multiple4(m, 0x4000_0000 * q);
  }

  lemma Multiple4(m: nat, k: nat)
    ensures (4 * k + m) % 4 == m % 4
  {
  }

  lemma WrapPeriodic(x: nat, q: nat)
    ensures Wrap32(0x1_0000_0000 * q + x) == Wrap32(x)
  {
  }

  /** A new block is consistent; a new EPB with one packet is, exactly when its total fits 32 bits. */
  lemma ConstructedConsistent(packet: seq<byte>)
    ensures Consistent(EmptySection()) && Consistent(EmptyInterface()) && Consistent(EmptyPacket())
    ensures Consistent(WithPacket(EmptyPacket(), packet)) <==> Sendable(packet)
  {
    hide PadTo4;
    PaddingsAgree(|packet|);
    PaddingsAgree(Wrap32(|packet|));
    assert PadTo4(20) == 20 + PadTo4(0) by { PaddingsAgree(0); }
    TotalFits(PadTo4(|packet|), PadTo4(Wrap32(|packet|)));
  }

  lemma TotalFits(p: nat, m: nat)
    requires p % 0x1_0000_0000 == m % 0x1_0000_0000 && m <= 0x1_0000_0000
    ensures (32 + p) % 0x1_0000_0000 == 32 + m <==> 32 + m < 0x1_0000_0000
  {
    var k, j := p / 0x1_0000_0000, m / 0x1_0000_0000;
    assert p == m + 0x1_0000_0000 * (k - j);
  }

  /** The second packet given to a block leaves it consistent only if the first took no room. */
  lemma SecondPacket(first: seq<byte>, second: seq<byte>)
    ensures Consistent(WithPacket(WithPacket(EmptyPacket(), first), second))
            <==> Wrap32(PadTo4(|first|)) == 0 && Sendable(second)
  {
    hide PadTo4;
    PaddingsAgree(|second|);
    PaddingsAgree(Wrap32(|second|));
    TwoTotals(PadTo4(|first|), PadTo4(|second|), PadTo4(Wrap32(|second|)));
  }

  lemma TwoTotals(p: nat, q: nat, m: nat)
    requires q % 0x1_0000_0000 == m % 0x1_0000_0000 && m <= 0x1_0000_0000
    ensures ((32 + p) % 0x1_0000_0000 + q) % 0x1_0000_0000 == 32 + m
            <==> p % 0x1_0000_0000 == 0 && 32 + m < 0x1_0000_0000
  {
    var low := p % 0x1_0000_0000;
    var a, k, j := (32 + p) / 0x1_0000_0000, q / 0x1_0000_0000, m / 0x1_0000_0000;
    var sum := (32 + p) % 0x1_0000_0000 + q;
    assert sum == 32 + low + m + 0x1_0000_0000 * (p / 0x1_0000_0000 - a + k - j);
  }
}
