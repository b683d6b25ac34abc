/** Whole files: everything a reader gets out of one, what a writer then a reader give, and the framing of the bytes. */
module PcapngRuns {
  import opened Bytes
  import opened Exceptions
  import opened FileStreams
  import opened PcapngBlocks
  import opened PcapngFiles
  import opened PcapngStreams

  function TruncatedAll(ps: seq<seq<byte>>, cap: nat): (r: seq<seq<byte>>)
    ensures |r| == |ps|
  {
    seq(|ps|, k requires 0 <= k < |ps| => Truncated(ps[k], cap))
  }

  lemma TruncatedFirst(ps: seq<seq<byte>>, cap: nat)
    ensures ps != [] ==> TruncatedAll(ps, cap) == [Truncated(ps[0], cap)] + TruncatedAll(ps[1..], cap)
  {
  }

  /** The first packet of a block sequence, and the blocks after it. */
  lemma {:induction false} NextInFile(items: seq<Item>, cap: nat) returns (left: seq<Item>)
    requires AllWellFormed(items)
    ensures AllWellFormed(left)
    ensures Packets(items) == [] ==> NextPacket(FileBytes(items), cap) == AtEnd
    ensures Packets(items) != [] ==>
              && NextPacket(FileBytes(items), cap) == Got(Truncated(Packets(items)[0], cap), FileBytes(left))
              && Packets(left) == Packets(items)[1..] && |left| < |items|
  {
    hide ItemBytes, NextPacket, Scannable, WellFormed;
    if |items| == 0 {
      left := [];
      NothingNext(cap);
    } else {
      NextOfItem(items[0], FileBytes(items[1..]), cap);
      if items[0].Foreign? {
        left := NextInFile(items[1..], cap);
      } else {
        left := items[1..];
      }
    }
  }

  lemma NothingNext(cap: nat)
    ensures NextPacket([], cap) == AtEnd
  {
  }

  /**
   * Receive until an exception, as the switched-off half of example/pcapng_file/main.cc does. Over any
   * well-formed blocks it gives the captured packets in file order, each truncated to
   * the buffer, and the exception is the end of the file.
   */
  method ReceiveAll(s: PcapngStream, buf: array<byte>, ghost items: seq<Item>)
    returns (got: seq<seq<byte>>, last: Exception)
    requires AllWellFormed(items) && s.io.IsOpen() && s.io.Rest() == FileBytes(items)
    modifies s.io`pos, buf
    ensures s.io.IsOpen() && s.io.Rest() == []
    ensures got == TruncatedAll(Packets(items), buf.Length)
    ensures last == EndOfFile
  {
    hide NextPacket, Scannable, FileBytes, Packets, WellFormed, Truncated;
    got := [];
    ghost var left := items;
    while true
      invariant AllWellFormed(left) && s.io.IsOpen() && s.io.Rest() == FileBytes(left)
      invariant got + TruncatedAll(Packets(left), buf.Length) == TruncatedAll(Packets(items), buf.Length)
      decreases |left|
    {
      FilesScannable(left, buf.Length);
      ghost var next := NextInFile(left, buf.Length);
      TruncatedFirst(Packets(left), buf.Length);
      ghost var before := buf[..];
      var r := s.Recv(buf);
      if r.Err? {
        return got, r.error;
      }
      FrontSpliced(before, Truncated(Packets(left)[0], buf.Length));
      assert buf[..r.value] == Truncated(Packets(left)[0], buf.Length);
      got := got + [buf[..r.value]];
      left := next;
    }
  }

  lemma ShortEnough(ps: seq<seq<byte>>, cap: nat)
    ensures TruncatedAll(ps, cap) == ps <==> forall k :: 0 <= k < |ps| ==> |ps[k]| <= cap
  {
    if TruncatedAll(ps, cap) == ps {
      assert forall k :: 0 <= k < |ps| ==> ps[k] == TruncatedAll(ps, cap)[k];
    }
  }

  /**
   * Write-open and send each packet, until one throws: the file is the preamble and one
   * block per packet sent, and it can be walked from either end.
   */
  method WriteAll(f: File, ps: seq<seq<byte>>) returns (o: Outcome, sent: nat)
    modifies f
    ensures sent <= |ps| && AllSendable(ps[..sent])
    ensures o.Pass? <==> AllSendable(ps)
    ensures if o.Pass? then sent == |ps| else sent < |ps| && !Sendable(ps[sent])
    ensures AllFramed(WrittenFile(ps[..sent])) && f.bytes == FileBytes(WrittenFile(ps[..sent]))
    ensures |Forward(f.bytes, 0)| == sent + 2 && Backward(f.bytes, |f.bytes|) == Reversed(Forward(f.bytes, 0))
  {
    hide FileBytes, ItemBytes, Framed, Sent, Sendable, WrittenFile, Forward, Backward;
    var s := new PcapngStream();
    o := s.Open(f, PcapngWrite);
    NothingWritten();
    sent := 0;
    assert ps[..0] == [];
    while sent < |ps|
      invariant sent <= |ps| && o.Pass?
      invariant s.io.IsOpen() && s.io.file == f && s.io.Rest() == [] && fresh(s.io)
      invariant AllSendable(ps[..sent])
      invariant AllFramed(WrittenFile(ps[..sent])) && f.bytes == FileBytes(WrittenFile(ps[..sent]))
    {
      o := s.Send(ps[sent]);
      if o.Fail? {
        break;
      }
      WrittenAppend(ps[..sent], ps[sent]);
      assert ps[..sent] + [ps[sent]] == ps[..sent + 1];
      FileBytesAppend(WrittenFile(ps[..sent]), Sent(ps[sent]));
      sent := sent + 1;
    }
    assert sent == |ps| ==> ps[..sent] == ps;
    FramedBothWays(ps[..sent]);
  }

  lemma NothingWritten()
    ensures WrittenFile([]) == Preamble()
  {
  }

  /**
   * What was sent is received, empty packets included, in order, each truncated to the
   * buffer, and then the end of the file: the list comes back exactly when its packets
   * fit the buffer.
   */
  method WriteThenRead(f: File, ps: seq<seq<byte>>, buf: array<byte>) returns (got: seq<seq<byte>>, last: Exception)
    requires forall k :: 0 <= k < |ps| ==> |ps[k]| <= MAX_PACKET
    modifies f, buf
    ensures got == TruncatedAll(ps, buf.Length) && last == EndOfFile
    ensures got == ps <==> forall k :: 0 <= k < |ps| ==> |ps[k]| <= buf.Length
  {
    hide FileBytes, WellFormed, WrittenFile, Framed, TruncatedAll, Sendable, Forward, Backward;
    forall k | 0 <= k < |ps| ensures Sendable(ps[k]) {
      SentWellFormed(ps[k]);
    }
    var o, sent := WriteAll(f, ps);
    assert ps[..sent] == ps;
    WrittenPackets(ps);
    var s := new PcapngStream();
    o := s.Open(f, PcapngRead);
    got, last := ReceiveAll(s, buf, WrittenFile(ps));
    ShortEnough(ps, buf.Length);
  }

  // ----- framing (draft-ietf-opsawg-pcapng section 3.1)

  /** The block offsets met walking forward, by the length at the head of each block. */
  function Forward(b: seq<byte>, pos: nat): seq<nat>
    decreases |b| - pos
  {
    if pos + 12 > |b| then []
    else
      var total := Le32At(b, pos + 4);
      if total < 12 || pos + total > |b| then [] else [pos] + Forward(b, pos + total)
  }

  /** The block offsets met walking backward, by the length at the tail of each block. */
  function Backward(b: seq<byte>, end: nat): seq<nat>
    requires end <= |b|
  {
    if end < 12 then []
    else
      var total := Le32At(b, end - 4);
      if total < 12 || total > end then [] else [end - total] + Backward(b, end - total)
  }

  function Reversed(s: seq<nat>): seq<nat> {
    if |s| == 0 then [] else Reversed(s[1..]) + [s[0]]
  }

  /** Where the blocks start, if the first starts at `pos`. */
  function Offsets(items: seq<Item>, pos: nat): seq<nat> {
    if |items| == 0 then [] else [pos] + Offsets(items[1..], pos + Total(items[0]))
  }

  lemma Le32Shifted(a: seq<byte>, b: seq<byte>, off: nat)
    requires off + 4 <= |b|
    ensures Le32At(a + b, |a| + off) == Le32At(b, off)
  {
  }

  lemma {:induction false} ForwardVisits(before: seq<byte>, items: seq<Item>)
    requires AllFramed(items)
    ensures Forward(before + FileBytes(items), |before|) == Offsets(items, |before|)
    decreases |items|
  {
    hide ItemBytes, Le32At, Framed, Total;
    var b := before + FileBytes(items);
    if |items| > 0 {
      var tail := FileBytes(items[1..]);
      ItemFramed(items[0], tail);
      assert ItemBytes(items[0]) + tail == FileBytes(items);
      Le32Shifted(before, FileBytes(items), 4);
      ForwardVisits(before + ItemBytes(items[0]), items[1..]);
      assert before + ItemBytes(items[0]) + tail == b;
    }
  }

  lemma {:induction false} OffsetsAppend(items: seq<Item>, last: Item, pos: nat)
    ensures Offsets(items + [last], pos) == Offsets(items, pos) + [pos + TotalAll(items)]
  {
    hide Total;
    if |items| == 0 {
      assert [] + [last] == [last] && [last][1..] == [];
    } else {
      assert (items + [last])[1..] == items[1..] + [last];
      OffsetsAppend(items[1..], last, pos + Total(items[0]));
    }
  }

  lemma {:induction false} ReversedAppend(s: seq<nat>, x: nat)
    ensures Reversed(s + [x]) == [x] + Reversed(s)
  {
    if |s| > 0 {
      assert (s + [x])[1..] == s[1..] + [x];
      ReversedAppend(s[1..], x);
    }
  }

  lemma {:induction false} BackwardVisits(items: seq<Item>, after: seq<byte>)
    requires AllFramed(items)
    ensures Backward(FileBytes(items) + after, |FileBytes(items)|) == Reversed(Offsets(items, 0))
    decreases |items|
  {
    hide ItemBytes, Le32At, Framed, Total;
    if |items| > 0 {
      var init, last := items[..|items| - 1], items[|items| - 1];
      assert items == init + [last];
      FileBytesAppend(init, last);
      OffsetsAppend(init, last, 0);
      TotalsAddUp(init);
      ReversedAppend(Offsets(init, 0), |FileBytes(init)|);
      BackwardVisits(init, ItemBytes(last) + after);
      ItemFramed(last, after);
      var b := FileBytes(items) + after;
      assert b == FileBytes(init) + (ItemBytes(last) + after);
      Le32Shifted(FileBytes(init), ItemBytes(last) + after, |ItemBytes(last)| - 4);
    }
  }

  predicate Aligned(items: seq<Item>) {
    forall k :: 0 <= k < |items| ==> Total(items[k]) % 4 == 0
  }

  function TotalAll(items: seq<Item>): nat {
    if |items| == 0 then 0 else Total(items[0]) + TotalAll(items[1..])
  }

  lemma {:induction false} TotalsAddUp(items: seq<Item>)
    requires AllFramed(items)
    ensures |FileBytes(items)| == TotalAll(items)
  {
    if |items| > 0 {
      TotalsAddUp(items[1..]);
    }
  }

  /**
   * Over any blocks, the lengths add up to the file, walking forward by the heads visits
   * every block, and walking backward by the tails visits the same offsets, reversed.
   */
  lemma WalkedBothWays(items: seq<Item>)
    requires AllFramed(items)
    ensures var b := FileBytes(items);
            && |b| == TotalAll(items)
            && Forward(b, 0) == Offsets(items, 0)
            && |Forward(b, 0)| == |items|
            && Backward(b, |b|) == Reversed(Forward(b, 0))
  {
    hide FileBytes, Framed, Forward, Backward, Total;
    var b := FileBytes(items);
    TotalsAddUp(items);
    ForwardVisits([], items);
    assert [] + b == b;
    BackwardVisits(items, []);
    assert b + [] == b;
    OffsetsCount(items, 0);
  }

  /** After any run of write-open and sends the file can be walked so, and every block length is a multiple of four. */
  lemma FramedBothWays(ps: seq<seq<byte>>)
    requires AllSendable(ps)
    ensures AllFramed(WrittenFile(ps)) && Aligned(WrittenFile(ps))
    ensures var b := FileBytes(WrittenFile(ps));
            && |b| == TotalAll(WrittenFile(ps))
            && Forward(b, 0) == Offsets(WrittenFile(ps), 0)
            && |Forward(b, 0)| == |ps| + 2
            && Backward(b, |b|) == Reversed(Forward(b, 0))
  {
    hide FileBytes, Framed, WrittenFile, Forward, Backward, Total, Sendable;
    WrittenFramed(ps);
    WrittenAligned(ps);
    WalkedBothWays(WrittenFile(ps));
  }

  lemma WrittenAligned(ps: seq<seq<byte>>)
    requires AllSendable(ps)
    ensures |WrittenFile(ps)| == |ps| + 2 && Aligned(WrittenFile(ps))
  {
    hide Sent, Sendable;
    forall k | 0 <= k < |WrittenFile(ps)| ensures Total(WrittenFile(ps)[k]) % 4 == 0 {
      if k >= 2 {
        SentFramed(ps[k - 2]);
      }
    }
  }

  lemma {:induction false} OffsetsCount(items: seq<Item>, pos: nat)
    ensures |Offsets(items, pos)| == |items|
  {
    if |items| > 0 {
      OffsetsCount(items[1..], pos + Total(items[0]));
    }
  }
}
