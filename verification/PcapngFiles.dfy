/** A pcapng file as a sequence of blocks, and what one `recv` makes of the bytes left in it. */
module PcapngFiles {
  import opened Bytes
  import opened PcapngBlocks

  const SCRATCH := 1000

  // ----- one recv, on the bytes that are left

  /** A packet and what is left after it; no more bytes; or a block that cannot be delivered. */
  datatype Received = Got(data: seq<byte>, rest: seq<byte>) | AtEnd | Broken

  /** A whole block lies at the front of `b`: `read_block` returns it. An empty body cannot be read. */
  predicate BlockAhead(b: seq<byte>) {
    |b| >= 8 && 12 < Le32At(b, 4) <= |b|
  }

  function Least(m: nat, n: nat): nat {
    if m < n then m else n
  }

  /**
   * The scratch buffer holds every block up to the next packet, and what `recv` copies of
   * that packet lies in its block.
   */
  predicate Scannable(b: seq<byte>, cap: nat)
    decreases |b|
  {
    |b| >= 8 ==>
      && 12 <= Le32At(b, 4) <= SCRATCH
      && (BlockAhead(b) ==>
            var total := Le32At(b, 4);
            if Le32At(b, 0) == EPB then CopyInside(b[..total], cap)
            else Le32At(b, 0) == SPB || Scannable(b[total..], cap))
  }

  predicate CopyInside(b: seq<byte>, cap: nat) {
    Readable(Packet, b) ==>
      var body := Parsed(Packet, b).body;
      Least(cap, body.packetLength) <= |body.data|
  }

  /** What `recv` copies: as many bytes as the packet had originally, as far as the caller has room. */
  function Delivered(b: seq<byte>, cap: nat): seq<byte>
    requires Readable(Packet, b)
  {
    var body := Parsed(Packet, b).body;
    Truncated(body.data, Least(cap, body.packetLength))
  }

  /** These are the captured bytes exactly when the two lengths are equal, as far as the caller has room. */
  lemma DeliveredIff(b: seq<byte>, cap: nat)
    requires Readable(Packet, b) && CopyInside(b, cap)
    ensures var body := Parsed(Packet, b).body;
            Delivered(b, cap) == Truncated(Payload(body), cap)
            <==> Least(cap, body.packetLength) == Least(cap, body.captureLength)
  {
    hide Readable, Parsed;
  }

  /** What `recv` into `cap` bytes does: foreign blocks are skipped until a packet. */
  function NextPacket(b: seq<byte>, cap: nat): Received
    decreases |b|
  {
    if b == [] then AtEnd
    else if !BlockAhead(b) then Broken
    else
      var total := Le32At(b, 4);
      if Le32At(b, 0) == EPB then
        if Readable(Packet, b[..total]) then Got(Delivered(b[..total], cap), b[total..]) else Broken
      else if Le32At(b, 0) == SPB then Broken
      else NextPacket(b[total..], cap)
  }

  /** Which types of a whole block `recv` delivers (6), refuses (3) and skips (every other). */
  lemma NextByType(b: seq<byte>, cap: nat)
    requires |b| >= 8 && 12 < Le32At(b, 4) <= |b|
    ensures var t, total := Le32At(b, 0), Le32At(b, 4);
            && (t == 6 && Readable(Packet, b[..total]) ==>
                  NextPacket(b, cap) == Got(Delivered(b[..total], cap), b[total..]))
            && (t == 6 && !Readable(Packet, b[..total]) ==> NextPacket(b, cap) == Broken)
            && (t == 3 ==> NextPacket(b, cap) == Broken)
            && (t != 3 && t != 6 ==> NextPacket(b, cap) == NextPacket(b[total..], cap))
  {
    hide Readable, Delivered, Le32At;
  }

  // ----- files made of blocks

  /** A packet block, or a block of a type the reader does not know. */
  datatype Item = Foreign(blockType: uint32, content: seq<byte>) | Captured(v: Block, pad: seq<byte>)

  function Total(i: Item): nat {
    match i
    case Foreign(_, content) => 12 + |content|
    case Captured(v, _) => v.totalLength
  }

  /** The block's length fits 32 bits, and it is what the parts add up to. */
  predicate Framed(i: Item) {
    match i
    case Foreign(_, content) => Total(i) < 0x1_0000_0000
    case Captured(v, pad) =>
      && v.body.PacketBody? && v.blockType == EPB && v.body.PointerValid() && Consistent(v)
      && |pad| == PadLength(v.body)
  }

  predicate AllFramed(items: seq<Item>) {
    forall k :: 0 <= k < |items| ==> Framed(items[k])
  }

  /** The reader can hold the block, and skip it or deliver the packet that was captured. */
  predicate WellFormed(i: Item) {
    && Framed(i) && 16 <= Total(i) <= SCRATCH
    && match i
       case Foreign(t, _) => t != EPB && t != SPB
       case Captured(v, _) => v.body.captureLength == v.body.packetLength
  }

  predicate AllWellFormed(items: seq<Item>)
    ensures AllWellFormed(items) ==> AllFramed(items)
  {
    forall k :: 0 <= k < |items| ==> WellFormed(items[k])
  }

  function ItemBytes(i: Item): (s: seq<byte>)
    requires Framed(i)
    ensures |s| == Total(i)
  {
    match i
    case Foreign(t, content) => Le32(t) + Le32(12 + |content|) + content + Le32(12 + |content|)
    case Captured(v, pad) => Encode(v, pad)
  }

  function FileBytes(items: seq<Item>): seq<byte>
    requires AllFramed(items)
  {
    if |items| == 0 then [] else ItemBytes(items[0]) + FileBytes(items[1..])
  }

  /** The captured packets, in file order. */
  function Packets(items: seq<Item>): seq<seq<byte>>
    requires AllFramed(items)
  {
    if |items| == 0 then []
    else if items[0].Foreign? then Packets(items[1..])
    else [Payload(items[0].v.body)] + Packets(items[1..])
  }

  /** Head and tail of a block, wherever it stands in a file. */
  lemma ItemFramed(i: Item, rest: seq<byte>)
    requires Framed(i)
    ensures var b := ItemBytes(i) + rest;
            && |b| >= Total(i) >= 12 && Le32At(b, 4) == Total(i) == Le32At(b, Total(i) - 4)
            && Le32At(b, 0) == (if i.Foreign? then i.blockType else EPB)
            && b[..Total(i)] == ItemBytes(i) && b[Total(i)..] == rest
  {
    hide Le32, Le32At;
    var b := ItemBytes(i) + rest;
    match i
    case Foreign(t, content) =>
      assert b[0..4] == Le32(t) && b[4..8] == Le32(Total(i)) == b[Total(i) - 4..Total(i)];
      Le32Loaded(b, 0, t);
      Le32Loaded(b, 4, Total(i));
      Le32Loaded(b, Total(i) - 4, Total(i));
    case Captured(v, pad) =>
      Layout(v, pad, rest);
      Le32Loaded(b, 0, v.blockType);
      Le32Loaded(b, 4, Total(i));
      Le32Loaded(b, Total(i) - 4, Total(i));
  }

  lemma CapturedRead(i: Item, cap: nat)
    requires WellFormed(i) && i.Captured?
    ensures Readable(Packet, ItemBytes(i)) && CopyInside(ItemBytes(i), cap)
    ensures Delivered(ItemBytes(i), cap) == Truncated(Payload(i.v.body), cap)
  {
    hide Readable, Parsed, Encode;
    assert Encode(i.v, i.pad) + [] == Encode(i.v, i.pad);
    ReadAfterWrite(i.v, i.pad, []);
    DeliveredIff(ItemBytes(i), cap);
  }

  /** A foreign block is skipped; a packet block is delivered. */
  lemma NextOfItem(i: Item, rest: seq<byte>, cap: nat)
    requires WellFormed(i)
    ensures NextPacket(ItemBytes(i) + rest, cap) ==
            if i.Foreign? then NextPacket(rest, cap) else Got(Truncated(Payload(i.v.body), cap), rest)
    ensures Scannable(ItemBytes(i) + rest, cap) <==> i.Captured? || Scannable(rest, cap)
  {
    hide ItemBytes, Readable, Delivered, CopyInside, Le32At;
    ItemFramed(i, rest);
    if i.Captured? {
      CapturedRead(i, cap);
    }
  }

  lemma {:induction false} FilesScannable(items: seq<Item>, cap: nat)
    requires AllWellFormed(items)
    ensures Scannable(FileBytes(items), cap)
  {
    hide ItemBytes;
    if |items| > 0 {
      FilesScannable(items[1..], cap);
      NextOfItem(items[0], FileBytes(items[1..]), cap);
    }
  }

  // ----- what the writer writes

  function Sent(p: seq<byte>): Item {
    var v := WithPacket(EmptyPacket(), p);
    Captured(v, Zeros(PadLength(v.body)))
  }

  /** The two blocks every written file starts with. */
  function Preamble(): seq<Item> {
    [Foreign(SHB, FixedBytes(EmptySection().body)), Foreign(IDB, FixedBytes(EmptyInterface().body))]
  }

  function WrittenFile(ps: seq<seq<byte>>): seq<Item> {
    Preamble() + seq(|ps|, k requires 0 <= k < |ps| => Sent(ps[k]))
  }

  /** The largest packet whose block fits the reader's scratch buffer. */
  const MAX_PACKET := 968

  /** A packet that can be sent is framed. */
  lemma SentFramed(p: seq<byte>)
    requires Sendable(p)
    ensures Framed(Sent(p)) && Total(Sent(p)) % 4 == 0
    ensures ItemBytes(Sent(p)) == Encode(WithPacket(EmptyPacket(), p), Zeros(PadLength(Sent(p).v.body)))
  {
    hide Sendable, PadTo4, Wrap32, Payload;
    ConstructedConsistent(p);
    CarriedWhole(p);
  }

  /** A sent block, field by field: type 6, interface 0, no timestamp, the packet's length twice, its bytes, zero padding. */
  lemma SentLayout(p: seq<byte>)
    requires Sendable(p)
    ensures Framed(Sent(p))
    ensures var s, n := ItemBytes(Sent(p)), |p| % 0x1_0000_0000;
            && 32 + n <= |s| < 36 + n && |s| % 4 == 0
            && Le32At(s, 0) == 6 && Le32At(s, 4) == |s| == Le32At(s, |s| - 4)
            && Le32At(s, 8) == Le32At(s, 12) == Le32At(s, 16) == 0
            && Le32At(s, 20) == n && Le32At(s, 24) == n
            && s[28..28 + n] == p[..n] && s[28 + n..|s| - 4] == Zeros(|s| - 32 - n)
  {
    hide Sendable, PadTo4, Wrap32, FixedBytes, Le32At, Le32;
    SentFramed(p);
    var v := WithPacket(EmptyPacket(), p);
    var s, n := ItemBytes(Sent(p)), v.body.captureLength;
    assert n == |p| % 0x1_0000_0000 by { WrapOf(|p|); }
    assert s + [] == s;
    ItemFramed(Sent(p), []);
    FieldsLaidOut(v.body);
    PaddingsAgree(n);
    var pad := Zeros(PadLength(v.body));
    BodyLayout(v, pad, []);
    assert s[8..] == FixedBytes(v.body) + (p[..n] + (pad + Le32(v.totalLength)));
    assert forall k :: 0 <= k < 20 ==> s[8 + k] == FixedBytes(v.body)[k];
    Le32Moved(s, 8, FixedBytes(v.body), 0);
    Le32Moved(s, 8, FixedBytes(v.body), 4);
    Le32Moved(s, 8, FixedBytes(v.body), 8);
    Le32Moved(s, 8, FixedBytes(v.body), 12);
    Le32Moved(s, 8, FixedBytes(v.body), 16);
    assert s[28..] == s[8..][20..];
  }

  lemma WrapOf(n: nat)
    ensures Wrap32(n) == n % 0x1_0000_0000
  {
  }

  lemma Le32Moved(s: seq<byte>, at: nat, t: seq<byte>, off: nat)
    requires off + 4 <= |t| && at + |t| <= |s| && forall k :: 0 <= k < |t| ==> s[at + k] == t[k]
    ensures Le32At(s, at + off) == Le32At(t, off)
  {
  }

  /** One that the reader's scratch buffer can hold is well-formed, and carried whole. */
  lemma SentWellFormed(p: seq<byte>)
    requires |p| <= MAX_PACKET
    ensures Sendable(p) && WellFormed(Sent(p)) && Payload(Sent(p).v.body) == p
  {
    CarriedWhole(p);
    assert Wrap32(|p|) == |p|;
    SentFramed(p);
  }

  /** And only such a one. */
  lemma SentWellFormedIff(p: seq<byte>)
    ensures Sendable(p) && |p| < 0x1_0000_0000 ==> (WellFormed(Sent(p)) <==> |p| <= 968)
  {
    hide PadTo4, Sendable, Encode;
    if |p| <= 968 {
      SentWellFormed(p);
    } else if Sendable(p) && |p| < 0x1_0000_0000 {
      SentLayout(p);
    }
  }

  predicate AllSendable(ps: seq<seq<byte>>) {
    forall k :: 0 <= k < |ps| ==> Sendable(ps[k])
  }

  lemma {:induction false} FileBytesAppend(items: seq<Item>, last: Item)
    requires AllFramed(items) && Framed(last)
    ensures AllFramed(items + [last])
    ensures FileBytes(items + [last]) == FileBytes(items) + ItemBytes(last)
  {
    hide ItemBytes;
    if |items| == 0 {
      assert ([] + [last])[1..] == [];
    } else {
      assert (items + [last])[1..] == items[1..] + [last];
      FileBytesAppend(items[1..], last);
    }
  }

  lemma PreambleBytes()
    ensures AllWellFormed(Preamble())
    ensures FileBytes(Preamble()) == Encode(EmptySection(), []) + Encode(EmptyInterface(), [])
  {
    hide Le32, FixedBytes;
    FileBytesAppend([Preamble()[0]], Preamble()[1]);
    assert [Preamble()[0]] + [Preamble()[1]] == Preamble();
    FileBytesAppend([], Preamble()[0]);
    assert [] + [Preamble()[0]] == [Preamble()[0]];
    BlockAsItem(EmptySection());
    BlockAsItem(EmptyInterface());
  }

  /** A block without options or captured bytes is a foreign block to a reader of packets. */
  lemma BlockAsItem(v: Block)
    requires !v.body.PacketBody? && v.option == [] && Consistent(v) && v.blockType != EPB && v.blockType != SPB
    requires v.totalLength <= SCRATCH
    ensures var i := Foreign(v.blockType, FixedBytes(v.body)); WellFormed(i) && ItemBytes(i) == Encode(v, [])
  {
    hide Le32, FixedBytes;
  }

  lemma {:induction false} PacketsAppend(items: seq<Item>, last: Item)
    requires AllFramed(items) && Framed(last) && last.Captured?
    ensures AllFramed(items + [last]) && Packets(items + [last]) == Packets(items) + [Payload(last.v.body)]
  {
    hide Framed;
    if |items| == 0 {
      assert ([] + [last])[1..] == [];
    } else {
      assert (items + [last])[1..] == items[1..] + [last];
      PacketsAppend(items[1..], last);
    }
  }

  lemma WrittenFramed(ps: seq<seq<byte>>)
    requires AllSendable(ps)
    ensures AllFramed(WrittenFile(ps))
  {
    hide Sendable, Sent, Framed;
    PreambleBytes();
    forall k | 0 <= k < |WrittenFile(ps)| ensures Framed(WrittenFile(ps)[k]) {
      if k >= 2 {
        SentFramed(ps[k - 2]);
      } else {
        assert WrittenFile(ps)[k] == Preamble()[k];
      }
    }
  }

  /** What a reader finds in a written file: the packets sent, in order, empty ones included. */
  lemma {:induction false} WrittenPackets(ps: seq<seq<byte>>)
    requires forall k :: 0 <= k < |ps| ==> |ps[k]| <= MAX_PACKET
    ensures AllWellFormed(WrittenFile(ps)) && Packets(WrittenFile(ps)) == ps
  {
    hide WellFormed;
    if |ps| == 0 {
      PreambleBytes();
      assert WrittenFile(ps) == Preamble();
      assert Preamble()[1..][1..] == [];
    } else {
      var init, p := ps[..|ps| - 1], ps[|ps| - 1];
      WrittenPackets(init);
      SentWellFormed(p);
      WrittenAppend(init, p);
      assert init + [p] == ps;
      PacketsAppend(WrittenFile(init), Sent(p));
    }
  }

  lemma WrittenAppend(ps: seq<seq<byte>>, p: seq<byte>)
    ensures WrittenFile(ps + [p]) == WrittenFile(ps) + [Sent(p)]
  {
  }
}
