/** The BPF branch of `net_stream::recv`: a batch buffer and a cursor over its records. */
module NetStreams {
  import opened Bytes

  /** A record of a batch; the header's own length says where its payload starts. */
  datatype Record = Record(timestamp: seq<byte>, dataLength: uint32, extra: seq<byte>, payload: seq<byte>)

  predicate WellFormed(r: Record) {
    |r.timestamp| == 8 && 18 + |r.extra| < 0x1_0000 && |r.payload| < 0x1_0000_0000
  }

  predicate AllWellFormed(rs: seq<Record>) {
    forall k :: 0 <= k < |rs| ==> WellFormed(rs[k])
  }

  function HeaderLength(r: Record): nat {
    18 + |r.extra|
  }

  /** `struct bpf_header`, the rest of the header, and the captured bytes, with no gap to the next record. */
  function RecordBytes(r: Record): (s: seq<byte>)
    requires WellFormed(r)
    ensures |s| == HeaderLength(r) + |r.payload|
  {
    r.timestamp + Le32(|r.payload|) + Le32(r.dataLength) + Le16(HeaderLength(r)) + r.extra + r.payload
  }

  function Batch(rs: seq<Record>): seq<byte>
    requires AllWellFormed(rs)
  {
    if |rs| == 0 then [] else RecordBytes(rs[0]) + Batch(rs[1..])
  }

  lemma RecordFields(r: Record, rest: seq<byte>)
    requires WellFormed(r)
    ensures var b := RecordBytes(r) + rest;
            && |b| >= 18 && Le32At(b, 8) == |r.payload| && Le16At(b, 16) == HeaderLength(r)
            && b[0..8] == r.timestamp && Le32At(b, 12) == r.dataLength
            && b[HeaderLength(r)..HeaderLength(r) + |r.payload|] == r.payload
            && b[HeaderLength(r) + |r.payload|..] == rest
  {
    hide Le32, Le32At;
    var b := RecordBytes(r) + rest;
    assert b[8..12] == Le32(|r.payload|);
    Le32Loaded(b, 8, |r.payload|);
    assert b[12..16] == Le32(r.dataLength);
    Le32Loaded(b, 12, r.dataLength);
    assert b[16] == Le16(HeaderLength(r))[0] && b[17] == Le16(HeaderLength(r))[1];
  }

  datatype Pointer = Null | At(pos: nat)

  class NetStream {
    const buffer: array<byte>
    var point: Pointer
    var sizeRead: nat
    /** The records read from the device and not yet delivered. */
    ghost var pending: seq<Record>

    /** The cursor is on the boundary before the first pending record, or null when there is none. */
    ghost predicate Valid()
      reads this, buffer
    {
      && AllWellFormed(pending)
      && (point == Null <==> pending == [])
      && (point.At? ==> point.pos <= sizeRead <= buffer.Length && buffer[point.pos..sizeRead] == Batch(pending))
    }

    constructor (size: nat)
      ensures Valid() && pending == [] && buffer.Length == size && fresh(buffer)
    {
      buffer := new byte[size](_ => 0);
      point, sizeRead, pending := Null, 0, [];
    }

    /**
     * Delivers the first pending record. Only when there is none is the device read:
     * `incoming` is what it gives, the bytes of `batch`.
     */
    method Recv(out: array<byte>, incoming: seq<byte>, ghost batch: seq<Record>) returns (n: nat)
      requires Valid() && out != buffer
      requires pending == [] ==>
                 && AllWellFormed(batch) && batch != []
                 && incoming == Batch(batch) && |incoming| <= buffer.Length
      modifies this, buffer, out
      ensures Valid()
      ensures var queue := if old(pending) == [] then batch else old(pending);
              && pending == queue[1..]
              && n == |Truncated(queue[0].payload, out.Length)|
              && out[..] == Splice(old(out[..]), 0, Truncated(queue[0].payload, out.Length))
      ensures old(pending) != [] ==> buffer[..] == old(buffer[..])
    {
      if point == Null {
        Refill(incoming, batch);
      }
      n := Deliver(out);
    }

    /** `_buffer_size_readed = read(..)`, and the cursor back to the start. */
    method Refill(incoming: seq<byte>, ghost batch: seq<Record>)
      requires AllWellFormed(batch) && batch != []
      requires incoming == Batch(batch) && |incoming| <= buffer.Length
      modifies this, buffer
      ensures Valid() && pending == batch
    {
      MemCopy(buffer, 0, incoming);
      sizeRead := |incoming|;
      point := At(0);
      pending := batch;
      assert buffer[0..sizeRead] == incoming;
    }

    /** Copies the payload under the cursor and moves the cursor past it. */
    method Deliver(out: array<byte>) returns (n: nat)
      requires Valid() && out != buffer && pending != []
      modifies this, out
      ensures Valid() && pending == old(pending)[1..] && sizeRead == old(sizeRead)
      ensures n == |Truncated(old(pending)[0].payload, out.Length)|
      ensures out[..] == Splice(old(out[..]), 0, Truncated(old(pending)[0].payload, out.Length))
    {
      hide Le32At, Le16At, RecordBytes, Splice, WellFormed;
      ghost var r, rest := pending[0], Batch(pending[1..]);
      var at := point.pos;
      RecordAt(buffer[..], at, sizeRead, r, rest);
      var captured := Le32At(buffer[..], at + 8);
      var header := Le16At(buffer[..], at + 16);
      var length := captured;
      if out.Length < captured {
        length := out.Length;
      }
      ghost var before := out[..];
      MemCopy(out, 0, buffer[at + header..][..length]);
      Copied(before, out[..], Truncated(r.payload, out.Length));
      at := at + header;
      at := at + captured;
      pending := pending[1..];
      RecordsNotEmpty(pending);
      if at >= sizeRead {
        point := Null;
      } else {
        point := At(at);
      }
      n := length;
    }

    /** A caller's loop over one batch: as many calls as the batch has records. */
    method RecvBatch(out: array<byte>, incoming: seq<byte>, ghost batch: seq<Record>, count: nat)
      returns (got: seq<seq<byte>>)
      requires Valid() && out != buffer && pending == [] && count == |batch|
      requires AllWellFormed(batch) && incoming == Batch(batch) && |incoming| <= buffer.Length
      modifies this, buffer, out
      ensures Valid() && pending == [] && point == Null
      ensures |got| == |batch|
      ensures forall k :: 0 <= k < |batch| ==> got[k] == Truncated(batch[k].payload, out.Length)
    {
      got := [];
      while |got| < count
        invariant Valid() && |got| <= count && pending == (if got == [] then [] else batch[|got|..])
        invariant forall k :: 0 <= k < |got| ==> got[k] == Truncated(batch[k].payload, out.Length)
        decreases count - |got|
      {
        ghost var before := out[..];
        var n := Recv(out, incoming, batch);
        FrontSpliced(before, Truncated(batch[|got|].payload, out.Length));
        got := got + [out[..n]];
      }
    }
  }

  /** The fields of a record at the cursor, as offsets into the whole buffer. */
  lemma RecordAt(b: seq<byte>, at: nat, end: nat, r: Record, rest: seq<byte>)
    requires at <= end <= |b| && WellFormed(r) && b[at..end] == RecordBytes(r) + rest
    ensures var body := at + HeaderLength(r);
            && at + 18 <= body && body + |r.payload| <= end
            && Le32At(b, at + 8) == |r.payload| && Le16At(b, at + 16) == HeaderLength(r)
            && b[body..][..|r.payload|] == r.payload && b[body + |r.payload|..end] == rest
  {
    hide RecordBytes;
    RecordFields(r, rest);
    var s := b[at..end];
    assert s[8] == b[at + 8] && s[9] == b[at + 9] && s[10] == b[at + 10] && s[11] == b[at + 11];
    assert s[16] == b[at + 16] && s[17] == b[at + 17];
    var i, j := HeaderLength(r), HeaderLength(r) + |r.payload|;
    assert s[i..j] == b[at + i..][..|r.payload|];
    assert s[j..] == b[at + j..end];
  }

  lemma Copied(before: seq<byte>, after: seq<byte>, s: seq<byte>)
    requires |s| <= |before| == |after|
    requires forall i :: 0 <= i < |after| ==> after[i] == if i < |s| then s[i] else before[i]
    ensures after == Splice(before, 0, s)
  {
  }

  lemma RecordsNotEmpty(rs: seq<Record>)
    requires AllWellFormed(rs)
    ensures Batch(rs) == [] <==> rs == []
  {
  }
}
