/** The block classes of pgen/io/pcapng_stream.h: `read` and `write` walk a buffer part by part. */
module PcapngObjects {
  import opened Bytes
  import opened Exceptions
  import opened PcapngBlocks

  class PcapngBlock {
    var blockType: uint32
    var totalLength: uint32
    var option: seq<byte>
    var body: Body

    function Value(): Block
      reads this
    {
      Block(blockType, totalLength, option, body)
    }

    constructor Shb()
      ensures Value() == EmptySection()
    {
      blockType, totalLength, option := SHB, 8 + 16 + 0 + 4, [];
      body := SectionBody(0x1a2b_3c4d, 1, 0, 0xffff_ffff, 0xffff_ffff);
    }

    constructor Idb()
      ensures Value() == EmptyInterface()
    {
      blockType, totalLength, option := IDB, 8 + 8 + 0 + 4, [];
      body := InterfaceBody(1, 0, 0);
    }

    constructor Epb()
      ensures Value() == EmptyPacket()
    {
      blockType, totalLength, option := EPB, 8 + 20 + 0 + 4, [];
      body := PacketBody(0, 0, 0, 0, 0, []);
    }

    method SetPacket(packet: seq<byte>)
      requires body.PacketBody?
      modifies this
      ensures Value() == WithPacket(old(Value()), packet)
    {
      hide Wrap32;
      var n := Wrap32(|packet|);
      body := body.(data := packet, captureLength := n, packetLength := n);
      ghost var t := totalLength;
      totalLength := Wrap32(totalLength + |packet|);
      var a := |packet| % 4;
      if a != 0 {
        WrapTwice(t + |packet|, 4 - a);
        totalLength := Wrap32(totalLength + (4 - a));
      }
    }

    // ----- write

    method WriteHead(buf: array<byte>, pos: nat) returns (o: Outcome)
      requires pos <= buf.Length
      modifies buf
      ensures o.Pass? <==> buf.Length - pos >= 8
      ensures o.Pass? ==> buf[..] == Splice(old(buf[..]), pos, Le32(blockType) + Le32(totalLength))
    {
      if buf.Length - pos < 8 {
        return Fail(BufferTooSmall);
      }
      MemCopy(buf, pos, Le32(blockType));
      MemCopy(buf, pos + 4, Le32(totalLength));
      return Pass;
    }

    /** The padding after the captured bytes is left as the buffer had it. */
    method WriteBody(buf: array<byte>, pos: nat) returns (o: Outcome)
      requires pos <= buf.Length && body.PointerValid()
      modifies buf
      ensures o.Pass? <==> buf.Length - pos >= BodyLength(body)
      ensures o.Pass? ==> buf[..] == BodyWritten(body, old(buf[..]), pos)
    {
      if buf.Length - pos < BodyLength(body) {
        return Fail(BufferTooSmall);
      }
      hide Splice, FixedBytes, Payload, BodyLength, FixedLength, BodyWritten;
      ghost var before := buf[..];
      BodyParts(body);
      SpliceNothing(before, pos);
      ghost var w := Emit(buf, pos, FixedBytes(body), pos, before, []);
      w := Emit(buf, pos + FixedLength(body.Kind()), Payload(body), pos, before, w);
      BodyWrittenInParts(body, before, pos);
      return Pass;
    }

    method WriteOption(buf: array<byte>, pos: nat) returns (o: Outcome)
      requires pos <= buf.Length
      modifies buf
      ensures o.Pass? <==> buf.Length - pos >= |option|
      ensures o.Pass? ==> buf[..] == Splice(old(buf[..]), pos, option)
    {
      if buf.Length - pos < |option| {
        return Fail(BufferTooSmall);
      }
      MemCopy(buf, pos, option);
      return Pass;
    }

    method WriteTail(buf: array<byte>, pos: nat) returns (o: Outcome)
      requires pos <= buf.Length
      modifies buf
      ensures o.Pass? <==> buf.Length - pos >= 4
      ensures o.Pass? ==> buf[..] == Splice(old(buf[..]), pos, Le32(totalLength))
    {
      if buf.Length - pos < 4 {
        return Fail(BufferTooSmall);
      }
      MemCopy(buf, pos, Le32(totalLength));
      return Pass;
    }

    /** Returns normally exactly when the block is consistent and fits; then the buffer starts with its bytes. */
    method Write(buf: array<byte>) returns (o: Outcome)
      requires body.PointerValid()
      modifies buf
      ensures o.Pass? <==> buf.Length >= totalLength && Consistent(Value())
      ensures o.Pass? ==>
                var end := 8 + BodyLength(body);
                buf[..] == Splice(old(buf[..]), 0, Encode(Value(), old(buf[..])[end - PadLength(body)..end]))
    {
      hide Splice, Le32, BodyBytes, BodyLength, PadLength;
      if buf.Length < totalLength {
        return Fail(BufferTooSmall);
      }
      ghost var before := buf[..];
      var pos := 0;
      o := WriteHead(buf, pos);
      if o.Fail? {
        return;
      }
      pos := pos + 8;
      ghost var w := Le32(blockType) + Le32(totalLength);
      ghost var end := 8 + BodyLength(body);
      o := WriteBody(buf, pos);
      if o.Fail? {
        return;
      }
      pos := pos + BodyLength(body);
      PaddingShort(body);
      PaddingKept(before, w, end, PadLength(body));
      ghost var pad := before[end - PadLength(body)..end];
      SpliceNext(before, 0, w, BodyBytes(body, pad));
      w := w + BodyBytes(body, pad);
      o := WriteOption(buf, pos);
      if o.Fail? {
        return;
      }
      pos := pos + |option|;
      SpliceNext(before, 0, w, option);
      w := w + option;
      o := WriteTail(buf, pos);
      if o.Fail? {
        return;
      }
      pos := pos + 4;
      SpliceNext(before, 0, w, Le32(totalLength));
      if pos != totalLength {
        return Fail(LengthError);
      }
    }

    // ----- read

    method ReadHead(b: seq<byte>) returns (o: Outcome)
      modifies this`blockType, this`totalLength
      ensures o != Fail(LengthError) && o != Fail(EndOfFile)
      ensures o.Pass? <==> |b| >= 8
      ensures o.Pass? ==> blockType == Le32At(b, 0) && totalLength == Le32At(b, 4)
    {
      if |b| < 8 {
        return Fail(BufferTooSmall);
      }
      blockType := Le32At(b, 0);
      totalLength := Le32At(b, 4);
      return Pass;
    }

    /** The fixed members are assigned before the captured length is checked against the buffer. */
    method ReadBody(b: seq<byte>) returns (o: Outcome)
      modifies this`body
      ensures body.Kind() == old(body.Kind()) && o != Fail(LengthError) && o != Fail(EndOfFile)
      ensures o.Pass? <==>
              && blockType == TypeOf(body.Kind()) && |b| >= FixedLength(body.Kind())
              && |b| >= BodyLength(BodyAt(body.Kind(), b))
      ensures o.Pass? ==> body == BodyAt(body.Kind(), b)
    {
      hide Le32At, Le16At, PadTo4;
      var k := body.Kind();
      if blockType != TypeOf(k) {
        return Fail(WrongBlockType);
      }
      if |b| < FixedLength(k) {
        return Fail(BufferTooSmall);
      }
      DataAt(k, b);
      body := BodyAt(k, b);
      if |b| < BodyLength(body) {
        return Fail(BufferTooSmall);
      }
      return Pass;
    }

    /** The option length is a difference of `size_t`s: when the total is too small for the body, it wraps. */
    method ReadOption(b: seq<byte>) returns (o: Outcome)
      requires |b| < 0x8000_0000_0000_0000
      modifies this`option
      ensures o != Fail(LengthError) && o != Fail(EndOfFile)
      ensures o.Pass? <==> 12 + BodyLength(body) <= totalLength <= 12 + BodyLength(body) + |b|
      ensures o.Pass? ==> option == b[..totalLength - 12 - BodyLength(body)]
    {
      var difference := totalLength - 8 - BodyLength(body) - 4;
      var n := if difference < 0 then difference + 0x1_0000_0000_0000_0000 else difference;
      if |b| < n {
        return Fail(BufferTooSmall);
      }
      option := b[..n];
      return Pass;
    }

    method ReadTail(b: seq<byte>) returns (o: Outcome)
      ensures o != Fail(LengthError) && o != Fail(EndOfFile)
      ensures o.Pass? <==> |b| >= 4 && Le32At(b, 0) == totalLength
    {
      if |b| < 4 {
        return Fail(BufferTooSmall);
      }
      if Le32At(b, 0) != totalLength {
        return Fail(LengthsDiffer);
      }
      return Pass;
    }

    /**
     * Either throws, or takes exactly the block's total length with equal head and tail.
     * The wrapped option length is always too large for the buffer, so the last check
     * never fires.
     */
    method Read(b: seq<byte>) returns (o: Outcome)
      requires |b| < 0x8000_0000_0000_0000
      modifies this
      ensures body.Kind() == old(body.Kind()) && o != Fail(LengthError) && o != Fail(EndOfFile)
      ensures o.Pass? <==> Readable(body.Kind(), b)
      ensures o.Pass? ==> Value() == Parsed(body.Kind(), b)
    {
      hide Le32At, BodyAt, BodyLength, FixedLength;
      ghost var k := body.Kind();
      FixedPartFirst(k, b);
      var pos := 0;
      o := ReadHead(b);
      if o.Fail? {
        return;
      }
      pos := pos + 8;
      o := ReadBody(b[pos..]);
      if o.Fail? {
        return;
      }
      pos := pos + BodyLength(body);
      o := ReadOption(b[pos..]);
      if o.Fail? {
        return;
      }
      assert option == b[pos..totalLength - 4];
      pos := pos + |option|;
      TailAt(b, pos);
      o := ReadTail(b[pos..]);
      if o.Fail? {
        return;
      }
      pos := pos + 4;
      if pos != totalLength {
        assert false;
      }
    }
  }

  lemma FixedPartFirst(k: Kind, b: seq<byte>)
    ensures |b| >= FixedLength(k) ==> BodyLength(BodyAt(k, b)) >= FixedLength(k)
    ensures |b| >= 8 + FixedLength(k) ==> BodyLength(BodyAt(k, b[8..])) >= FixedLength(k) >= 8
  {
    hide Le32At;
  }

  lemma TailAt(b: seq<byte>, pos: nat)
    requires pos <= |b|
    ensures |b| >= pos + 4 ==> Le32At(b[pos..], 0) == Le32At(b, pos)
  {
  }

  lemma WrapTwice(x: nat, y: nat)
    ensures Wrap32(Wrap32(x) + y) == Wrap32(x + y)
  {
    var q := x / 0x1_0000_0000;
    assert x + y == Wrap32(x) + y + 0x1_0000_0000 * q;
  }

  lemma BodyParts(body: Body)
    requires body.PointerValid()
    ensures |FixedBytes(body)| + |Payload(body)| + PadLength(body) == BodyLength(body) && |FixedBytes(body)| > 0
  {
    hide FixedBytes;
  }

  /** A buffer with a body written at `pos`, over the padding that is there. */
  function BodyWritten(body: Body, before: seq<byte>, pos: nat): seq<byte>
    requires body.PointerValid() && pos + BodyLength(body) <= |before|
  {
    var end := pos + BodyLength(body);
    PaddingShort(body);
    Splice(before, pos, BodyBytes(body, before[end - PadLength(body)..end]))
  }

  lemma BodyWrittenInParts(body: Body, before: seq<byte>, pos: nat)
    requires body.PointerValid() && pos + BodyLength(body) <= |before|
    ensures |FixedBytes(body)| + |Payload(body)| <= BodyLength(body)
    ensures BodyWritten(body, before, pos) == Splice(before, pos, FixedBytes(body) + Payload(body))
  {
    hide FixedBytes, Payload, BodyLength, PadLength;
    BodyParts(body);
  }

  lemma PaddingKept(before: seq<byte>, w: seq<byte>, end: nat, n: nat)
    requires |w| + n <= end <= |before|
    ensures Splice(before, 0, w)[end - n..end] == before[end - n..end]
  {
  }
}
