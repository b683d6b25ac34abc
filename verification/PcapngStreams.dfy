/** `pcapng_stream`: blocks go to a file and come back from it. */
module PcapngStreams {
  import opened Bytes
  import opened Exceptions
  import opened FileStreams
  import opened PcapngBlocks
  import opened PcapngFiles
  import opened PcapngObjects

  class PcapngStream {
    const io: FileStream

    constructor ()
      ensures fresh(io) && io.file == null
    {
      io := new FileStream();
    }

    /** `block.write(tmp_buffer, ..); write(tmp_buffer, block.total_length)`. */
    method WriteScratch(block: PcapngBlock, tmp: array<byte>)
      requires io.IsOpen() && io.Rest() == []
      requires !block.body.PacketBody? && Consistent(block.Value()) && block.totalLength <= tmp.Length
      modifies io, io.file, tmp
      ensures io.file == old(io.file) && io.IsOpen() && io.Rest() == []
      ensures io.file.bytes == old(io.file.bytes) + Encode(block.Value(), [])
    {
      hide Splice, Encode;
      ghost var before := tmp[..];
      ghost var end := 8 + BodyLength(block.body);
      assert before[end - PadLength(block.body)..end] == [];
      var o := block.Write(tmp);
      FrontSpliced(before, Encode(block.Value(), []));
      o := io.Write(tmp[..block.totalLength]);
    }

    /** A written file starts with a section header and one interface description. */
    method Open(f: File?, mode: Mode) returns (o: Outcome)
      modifies io, f
      ensures o.Pass? <==> f != null && (mode == PcapngRead || mode == PcapngWrite)
      ensures o.Pass? ==> io.file == f && io.IsOpen()
      ensures AllWellFormed(Preamble())
      ensures o.Pass? && mode == PcapngWrite ==> f.bytes == FileBytes(Preamble()) && io.Rest() == []
      ensures o.Pass? && mode == PcapngWrite ==> f.bytes == SECTION_BYTES + INTERFACE_BYTES
      ensures o.Pass? && mode == PcapngRead ==> f.bytes == old(f.bytes) && io.Rest() == f.bytes
    {
      hide Encode, FileBytes, SECTION_BYTES, INTERFACE_BYTES, AllWellFormed;
      PreambleBytes();
      OpeningBytes();
      if mode == PcapngWrite {
        o := io.Fopen(f, true);
        if o.Fail? {
          return;
        }
        var tmp := new byte[1000](_ => 0);
        ConstructedConsistent([]);
        var shb := new PcapngBlock.Shb();
        WriteScratch(shb, tmp);
        var idb := new PcapngBlock.Idb();
        WriteScratch(idb, tmp);
      } else if mode == PcapngRead {
        o := io.Fopen(f, false);
      } else {
        return Fail(UnknownMode);
      }
    }

    /** The block's bytes over zeroed padding, or an exception and nothing written. */
    method WriteBlock(block: PcapngBlock) returns (o: Outcome)
      requires io.IsOpen() && io.Rest() == [] && block.body.PointerValid()
      modifies io, io.file
      ensures io.file == old(io.file) && io.IsOpen() && io.Rest() == []
      ensures o.Pass? <==> Consistent(block.Value())
      ensures io.file.bytes == old(io.file.bytes)
                            + if o.Pass? then Encode(block.Value(), Zeros(PadLength(block.body))) else []
    {
      hide Splice, Encode, PadTo4;
      var raw := new byte[block.totalLength](_ => 0);
      ghost var before := raw[..];
      o := block.Write(raw);
      if o.Fail? {
        assert io.file.bytes == io.file.bytes + [];
        return;
      }
      PaddingShort(block.body);
      ghost var end := 8 + BodyLength(block.body);
      assert before[end - PadLength(block.body)..end] == Zeros(PadLength(block.body));
      SpliceAll(before, Encode(block.Value(), Zeros(PadLength(block.body))));
      o := io.Write(raw[..]);
    }

    /** One enhanced packet block; it fails, and writes nothing, exactly when the total length does not fit 32 bits. */
    method Send(packet: seq<byte>) returns (o: Outcome)
      requires io.IsOpen() && io.Rest() == []
      modifies io, io.file
      ensures io.file == old(io.file) && io.IsOpen() && io.Rest() == []
      ensures o.Pass? <==> Sendable(packet)
      ensures o.Pass? ==> Framed(Sent(packet)) && io.file.bytes == old(io.file.bytes) + ItemBytes(Sent(packet))
      ensures o.Fail? ==> io.file.bytes == old(io.file.bytes)
    {
      hide Encode, PadTo4, Sendable;
      var epb := new PcapngBlock.Epb();
      epb.SetPacket(packet);
      ConstructedConsistent(packet);
      CarriedWhole(packet);
      o := WriteBlock(epb);
      if o.Pass? {
        SentFramed(packet);
      }
    }

    /** Reads `n` bytes behind the `filled` bytes of `start` that the buffer holds already. */
    method Fill(buf: array<byte>, filled: nat, n: nat, ghost start: seq<byte>) returns (o: Outcome)
      requires io.IsOpen() && filled + n <= buf.Length && filled <= |start|
      requires buf[..filled] == start[..filled] && io.Rest() == start[filled..]
      modifies io`pos, buf
      ensures io.IsOpen()
      ensures o.Pass? <==> 0 < n && filled + n <= |start|
      ensures o.Fail? ==> o.error == FileError
      ensures o.Pass? ==> buf[..filled + n] == start[..filled + n] && io.Rest() == start[filled + n..]
    {
      ghost var before := buf[..];
      o := io.Read(buf, filled, n);
      if o.Pass? {
        assert buf[..] == before[..filled] + start[filled..][..n] + before[filled + n..];
        assert before[..filled] == start[..filled];
      }
    }

    /**
     * `read_block` into the scratch buffer. The comparison of the two lengths builds an
     * exception without throwing it, so a mismatch is not noticed here.
     */
    method ReadBlock(buf: array<byte>) returns (r: Result<nat>)
      requires io.IsOpen() && |io.Rest()| >= 8 ==> 12 <= Le32At(io.Rest(), 4) <= buf.Length
      requires io.IsOpen() && buf.Length >= 8
      modifies io`pos, buf
      ensures io.IsOpen()
      ensures r.Ok? <==> BlockAhead(old(io.Rest()))
      ensures r.Err? ==> r.error == FileError
      ensures r.Ok? ==>
                && r.value == Le32At(old(io.Rest()), 4) <= buf.Length
                && buf[..r.value] == old(io.Rest())[..r.value]
                && io.Rest() == old(io.Rest())[r.value..]
    {
      hide Le32At;
      ghost var rest := io.Rest();
      var o := Fill(buf, 0, 8, rest);
      if o.Fail? {
        return Err(o.error);
      }
      HeadAt(buf[..8], rest);
      HeadAt(buf[..8], buf[..]);
      var total := Le32At(buf[..], 4);
      var bodyLength := total - 8 - 4;
      o := Fill(buf, 8, bodyLength, rest);
      if o.Fail? {
        return Err(o.error);
      }
      o := Fill(buf, 8 + bodyLength, 4, rest);
      if o.Fail? {
        return Err(o.error);
      }
      return Ok(total);
    }

    /** `recv` on the bytes of a packet block. */
    method Deliver(buf: array<byte>, block: seq<byte>) returns (r: Result<nat>)
      requires |block| <= SCRATCH && CopyInside(block, buf.Length)
      modifies buf
      ensures r.Ok? <==> Readable(Packet, block)
      ensures r.Err? ==> r.error != EndOfFile && buf[..] == old(buf[..])
      ensures r.Ok? ==>
                var data := Delivered(block, buf.Length);
                r.value == |data| <= buf.Length && buf[..] == Splice(old(buf[..]), 0, data)
    {
      hide Readable, Parsed;
      var epb := new PcapngBlock.Epb();
      var o := epb.Read(block);
      if o.Fail? {
        return Err(o.error);
      }
      var n := epb.body.packetLength;
      if buf.Length < n {
        n := buf.Length;
      }
      MemCopy(buf, 0, epb.body.data[..n]);
      return Ok(n);
    }

    /**
     * Skips foreign blocks to the next packet and copies its original length, or as much
     * as the caller has room for, from where the captured bytes start. Terminates because
     * every block read shortens what is left.
     */
    method Recv(buf: array<byte>) returns (r: Result<nat>)
      requires io.IsOpen() && Scannable(io.Rest(), buf.Length)
      modifies io`pos, buf
      ensures io.IsOpen()
      ensures match NextPacket(old(io.Rest()), buf.Length)
              case Got(data, rest) =>
                && r == Ok(|data|) && |data| <= buf.Length
                && buf[..] == Splice(old(buf[..]), 0, data) && io.Rest() == rest
              case AtEnd => r == Err(EndOfFile) && io.Rest() == [] && buf[..] == old(buf[..])
              case Broken => r.Err? && r.error != EndOfFile && buf[..] == old(buf[..])
    {
      hide Le32At, Readable, Parsed, CopyInside, Delivered, Splice;
      ghost var start := io.Rest();
      while true
        invariant io.IsOpen() && Scannable(io.Rest(), buf.Length)
        invariant NextPacket(io.Rest(), buf.Length) == NextPacket(start, buf.Length)
        invariant buf[..] == old(buf[..])
        decreases |io.Rest()|
      {
        var end := io.Feof();
        if end {
          return Err(EndOfFile);
        }
        ghost var rest := io.Rest();
        var tmp := new byte[1000](_ => 0);
        var length := ReadBlock(tmp);
        if length.Err? {
          return Err(length.error);
        }
        var block := tmp[..length.value];
        HeadAt(block, rest);
        var blockType := Le32At(block, 0);
        if blockType == EPB {
          r := Deliver(buf, block);
          return;
        } else if blockType == SPB {
          return Err(NotImplemented);
        }
      }
    }
  }

  lemma HeadAt(a: seq<byte>, b: seq<byte>)
    requires |a| >= 8 && |b| >= 8 && a[..8] == b[..8]
    ensures Le32At(a, 4) == Le32At(b, 4) && Le32At(a, 0) == Le32At(b, 0)
  {
    assert a[..8][0] == a[0] && a[..8][1] == a[1] && a[..8][2] == a[2] && a[..8][3] == a[3];
    assert a[..8][4] == a[4] && a[..8][5] == a[5] && a[..8][6] == a[6] && a[..8][7] == a[7];
  }
}
