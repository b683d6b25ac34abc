/** pgen/io/pcap_stream.h: capture files as a header and a run of records. */
module PcapStreams {
  import opened Bytes
  import opened Exceptions
  import opened FileStreams

  const FILE_HEADER: seq<byte> :=
    Le32(0xa1b2_c3d4) + Le16(2) + Le16(4) + Le32(0) + Le32(0) + Le32(0xffff) + Le32(1)

  const RECORD_HEADER_LENGTH := 16

  /** The record header `send` writes: both lengths are `buflen` in a `uint32_t`. */
  function RecordHeader(n: nat): (s: seq<byte>)
    ensures |s| == RECORD_HEADER_LENGTH
  {
    Le32(0) + Le32(0) + Le32(Wrap32(n)) + Le32(Wrap32(n))
  }

  function Record(p: seq<byte>): seq<byte> {
    RecordHeader(|p|) + p
  }

  function Records(ps: seq<seq<byte>>): seq<byte> {
    if |ps| == 0 then [] else Record(ps[0]) + Records(ps[1..])
  }

  /** The 24 bytes a file starts with: magic, version 2.4, no time zone, a snap length of 65535, link type 1. */
  lemma FileHeaderBytes()
    ensures FILE_HEADER == [0xd4, 0xc3, 0xb2, 0xa1, 2, 0, 4, 0, 0, 0, 0, 0, 0, 0, 0, 0, 0xff, 0xff, 0, 0, 1, 0, 0, 0]
  {
  }

  /** A record: no timestamp, the length of the packet twice, in 32 bits, and the packet. */
  lemma RecordLayout(p: seq<byte>)
    ensures var r := Record(p);
            && |r| == 16 + |p|
            && Le32At(r, 0) == Le32At(r, 4) == 0
            && Le32At(r, 8) == Le32At(r, 12) == |p| % 0x1_0000_0000
            && r[16..] == p
  {
    hide Le32, Le32At;
    var r := Record(p);
    assert r[0..4] == r[4..8] == Le32(0) && r[8..12] == r[12..16] == Le32(Wrap32(|p|));
    Le32Loaded(r, 0, 0);
    Le32Loaded(r, 4, 0);
    Le32Loaded(r, 8, Wrap32(|p|));
    Le32Loaded(r, 12, Wrap32(|p|));
  }

  /** One `recv` on what is left of a file: the packet, or an exception, and what is left after it. */
  datatype Received = Got(data: seq<byte>, rest: seq<byte>) | Threw(rest: seq<byte>)

  function NextRecord(rest: seq<byte>, cap: nat): Received {
    if |rest| < RECORD_HEADER_LENGTH then Threw([])
    else
      var n, tail := Le32At(rest, 12), rest[RECORD_HEADER_LENGTH..];
      if cap < n || n == 0 then Threw(tail)
      else if |tail| < n then Threw([])
      else Got(tail[..n], tail[n..])
  }

  class PcapStream {
    const io: FileStream

    constructor ()
      ensures fresh(io) && io.file == null
    {
      io := new FileStream();
    }

    method Open(f: File?, mode: Mode) returns (o: Outcome)
      modifies io, f
      ensures o.Pass? ==> f != null && io.file == f
      ensures mode == PcapWrite && f != null ==> o.Pass? && f.bytes == FILE_HEADER
      ensures mode == PcapRead && f != null ==> f.bytes == old(f.bytes) && (o.Pass? <==> |f.bytes| >= |FILE_HEADER|)
      ensures mode == PcapRead && o.Pass? ==> io.IsOpen() && io.Rest() == io.file.bytes[|FILE_HEADER|..]
      ensures mode == PcapWrite && o.Pass? ==> io.IsOpen() && io.Rest() == []
      ensures f == null || (mode != PcapRead && mode != PcapWrite) ==> o.Fail?
    {
      match mode
      case PcapWrite =>
        o := io.Fopen(f, true);
        if o.Fail? {
          return o;
        }
        o := io.Write(FILE_HEADER);
        assert io.file.bytes == FILE_HEADER;
      case PcapRead =>
        o := io.Fopen(f, false);
        if o.Fail? {
          return o;
        }
        var header := new byte[24](_ => 0);
        o := io.Read(header, 0, header.Length);
      case _ =>
        return Fail(UnknownMode);
    }

    /** An empty packet throws, but only after its record header is in the file. */
    method Send(buf: seq<byte>) returns (o: Outcome)
      requires io.IsOpen() && io.Rest() == []
      modifies io, io.file
      ensures io.file == old(io.file) && io.IsOpen() && io.Rest() == []
      ensures o.Pass? <==> buf != []
      ensures io.file.bytes == old(io.file.bytes) + Record(buf)
    {
      o := io.Write(RecordHeader(|buf|));
      o := io.Write(buf);
      assert io.file.bytes == old(io.file.bytes) + Record(buf);
    }

    method Recv(buf: array<byte>) returns (r: Result<nat>)
      requires io.IsOpen()
      modifies io`pos, buf
      ensures io.IsOpen()
      ensures var next := NextRecord(old(io.Rest()), buf.Length);
              && io.Rest() == next.rest
              && (r.Ok? <==> next.Got?)
              && (r.Ok? ==> r.value == |next.data| <= buf.Length && buf[..] == Splice(old(buf[..]), 0, next.data))
    {
      ghost var rest := io.Rest();
      var head := new byte[16](_ => 0);
      var o := io.Read(head, 0, head.Length);
      if o.Fail? {
        return Err(o.error);
      }
      assert head[..] == rest[..16];
      var n := Le32At(head[..], 12);
      assert n == Le32At(rest, 12);
      assert io.Rest() == rest[16..];
      if buf.Length < n {
        return Err(BufferTooSmall);
      }
      o := io.Read(buf, 0, n);
      if o.Fail? {
        return Err(o.error);
      }
      return Ok(n);
    }
  }

  /** Of anyone's record header, only the last four bytes count: the original length, lowest byte first. */
  lemma AnyRecordReceived(header: seq<byte>, p: seq<byte>, rest: seq<byte>, cap: nat)
    requires |header| == 16 && 0 < |p| <= cap
    requires |p| == header[12] as int + 0x100 * header[13] as int + 0x1_0000 * header[14] as int + 0x100_0000 * header[15] as int
    ensures NextRecord(header + p + rest, cap) == Got(p, rest)
  {
    var b := header + p + rest;
    assert b[16..] == p + rest;
  }

  /**
   * A sent packet is received, and the rest of the file is left, exactly when it is not
   * empty, fits the buffer and has a length that fits 32 bits.
   */
  lemma RecordReceived(p: seq<byte>, rest: seq<byte>, cap: nat)
    ensures NextRecord(Record(p) + rest, cap) == Got(p, rest) <==> Receivable(p, cap)
    ensures !Receivable(p, cap) ==>
              var r := NextRecord(Record(p) + rest, cap); r.Threw? || r.data != p
  {
    var b := Record(p) + rest;
    var n := Wrap32(|p|);
    assert b[12..16] == Le32(n);
    Le32Loaded(b, 12, n);
    assert b[16..] == p + rest;
  }

  predicate Receivable(p: seq<byte>, cap: nat) {
    0 < |p| <= cap && |p| < 0x1_0000_0000
  }

  /** After a sent empty packet reading goes on behind its record header, but it is never received. */
  lemma EmptyRecordThrows(rest: seq<byte>, cap: nat)
    ensures NextRecord(Record([]) + rest, cap) == Threw(rest)
  {
    var b := Record([]) + rest;
    assert b[12..16] == Le32(0);
    Le32Loaded(b, 12, 0);
    assert b[16..] == rest;
  }
}
