/** Whole capture files: everything a reader gets out of one, and what a writer then a reader give. */
module PcapRuns {
  import opened Bytes
  import opened Exceptions
  import opened FileStreams
  import opened PcapStreams

  /** What receiving until the end of the file gives, and whether the end was reached without an exception. */
  datatype Capture = Capture(packets: seq<seq<byte>>, clean: bool)

  function CaptureIn(rest: seq<byte>, cap: nat): Capture
    decreases |rest|
  {
    if rest == [] then Capture([], true)
    else
      match NextRecord(rest, cap)
      case Threw(_) => Capture([], false)
      case Got(p, tail) => var c := CaptureIn(tail, cap); Capture([p] + c.packets, c.clean)
  }

  predicate AllReceivable(ps: seq<seq<byte>>, cap: nat) {
    forall k :: 0 <= k < |ps| ==> Receivable(ps[k], cap)
  }

  /** The packets sent come back, all and in order, exactly when each can be received. */
  lemma {:induction false} RecordsReceived(ps: seq<seq<byte>>, cap: nat)
    ensures CaptureIn(Records(ps), cap) == Capture(ps, true) <==> AllReceivable(ps, cap)
  {
    hide NextRecord, Record, Receivable;
    if |ps| > 0 {
      var p, tail := ps[0], ps[1..];
      assert ps == [p] + tail;
      RecordNotEmpty(p);
      RecordReceived(p, Records(tail), cap);
      RecordsReceived(tail, cap);
      var c := CaptureIn(Records(ps), cap);
      if Receivable(p, cap) {
        var t := CaptureIn(Records(tail), cap);
        assert c == Capture([p] + t.packets, t.clean);
        assert ([p] + t.packets)[1..] == t.packets;
      } else {
        assert c.packets == [] || c.packets[0] != p;
      }
    }
  }

  lemma RecordNotEmpty(p: seq<byte>)
    ensures Record(p) != []
  {
    assert |Record(p)| == RECORD_HEADER_LENGTH + |p|;
  }

  lemma {:induction false} RecordsAppend(ps: seq<seq<byte>>, p: seq<byte>)
    ensures Records(ps + [p]) == Records(ps) + Record(p)
  {
    hide Record;
    if |ps| == 0 {
      assert [] + [p] == [p] && [p][1..] == [];
    } else {
      assert (ps + [p])[1..] == ps[1..] + [p];
      RecordsAppend(ps[1..], p);
    }
  }

  lemma RecordsNone()
    ensures Records([]) == [] && FILE_HEADER + [] == FILE_HEADER
  {
  }

  /** Write-open and send each packet, until one throws: `sent` records are in the file then. */
  method WriteAll(f: File, ps: seq<seq<byte>>) returns (o: Outcome, sent: nat)
    modifies f
    ensures sent <= |ps| && f.bytes == FILE_HEADER + Records(ps[..sent])
    ensures o.Pass? <==> [] !in ps
    ensures if o.Pass? then sent == |ps| else sent > 0 && ps[sent - 1] == [] && [] !in ps[..sent - 1]
  {
    hide Record, Records;
    var s := new PcapStream();
    o := s.Open(f, PcapWrite);
    RecordsNone();
    sent := 0;
    while sent < |ps|
      invariant sent <= |ps| && o.Pass?
      invariant s.io.IsOpen() && s.io.file == f && s.io.Rest() == [] && fresh(s.io)
      invariant f.bytes == FILE_HEADER + Records(ps[..sent])
      invariant [] !in ps[..sent]
    {
      o := s.Send(ps[sent]);
      RecordsAppend(ps[..sent], ps[sent]);
      assert ps[..sent] + [ps[sent]] == ps[..sent + 1];
      sent := sent + 1;
      if o.Fail? {
        return;
      }
    }
    assert ps[..|ps|] == ps;
  }

  /** The loop of `module::check`, for the packets alone: receive until the end of the file. */
  method ReceiveAll(s: PcapStream, buf: array<byte>) returns (got: seq<seq<byte>>, o: Outcome)
    requires s.io.IsOpen()
    modifies s.io`pos, buf
    ensures s.io.IsOpen()
    ensures Capture(got, o.Pass?) == CaptureIn(old(s.io.Rest()), buf.Length)
  {
    hide NextRecord;
    ghost var start := s.io.Rest();
    got := [];
    while true
      invariant s.io.IsOpen()
      invariant var c := CaptureIn(s.io.Rest(), buf.Length);
                CaptureIn(start, buf.Length) == Capture(got + c.packets, c.clean)
      decreases |s.io.Rest()|
    {
      ghost var rest := s.io.Rest();
      var end := s.io.Feof();
      if end {
        return got, Pass;
      }
      ghost var before := buf[..];
      var n := s.Recv(buf);
      if n.Err? {
        return got, Fail(n.error);
      }
      ghost var next := NextRecord(rest, buf.Length);
      NextShorter(rest, buf.Length);
      FrontSpliced(before, next.data);
      got := got + [buf[..n.value]];
    }
  }

  lemma NextShorter(rest: seq<byte>, cap: nat)
    ensures NextRecord(rest, cap).Got? ==> |NextRecord(rest, cap).rest| < |rest|
  {
  }

  /** Whole-file round trip: it succeeds with the very list sent exactly when every packet can be received. */
  method WriteThenReceive(f: File, ps: seq<seq<byte>>, buf: array<byte>) returns (got: seq<seq<byte>>, o: Outcome)
    modifies f, buf
    ensures o.Pass? && got == ps <==> AllReceivable(ps, buf.Length)
  {
    hide CaptureIn, Records;
    var sent;
    o, sent := WriteAll(f, ps);
    if o.Fail? {
      assert !Receivable(ps[sent - 1], buf.Length);
      return [], o;
    }
    assert ps[..sent] == ps;
    var s := new PcapStream();
    o := s.Open(f, PcapRead);
    RecordsReceived(ps, buf.Length);
    got, o := ReceiveAll(s, buf);
  }
}
