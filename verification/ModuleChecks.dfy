/** `module::check` of pgen/module.h: every packet of a capture file is analyzed, compiled and compared. */
module ModuleChecks {
  import opened Bytes
  import opened Exceptions
  import opened FileStreams
  import opened HeaderStack
  import opened Packets
  import opened PacketClasses
  import opened PcapRuns
  import opened PcapStreams
  import H = Headers

  /** What `check` prints about a packet. */
  datatype Verdict = Succeeded | HasLengthError | HasBinaryError

  // ----- only the kinds of the headers decide what a stack reads

  lemma SameKindReads(h: H.Header, g: H.Header, b: seq<byte>)
    requires H.SameKind(h, g)
    ensures H.Sane(h, b) == H.Sane(g, b) && H.Readable(h, b) == H.Readable(g, b)
    ensures H.Sane(h, b) && H.Readable(h, b) ==>
              && H.Length(H.Read(h, b)) == H.Length(H.Read(g, b))
              && H.Normalised(h, b) == H.Normalised(g, b)
  {
  }

  lemma {:induction false} SameKindsRead(hs: seq<H.Header>, gs: seq<H.Header>, b: seq<byte>)
    requires SameKinds(hs, gs)
    ensures SaneAll(hs, b) == SaneAll(gs, b)
    ensures SaneAll(hs, b) ==> ReadableAll(hs, b) == ReadableAll(gs, b)
    ensures SaneAll(hs, b) && ReadableAll(hs, b) ==>
              && LengthAll(ReadAll(hs, b)) == LengthAll(ReadAll(gs, b))
              && NormalisedAll(hs, b) == NormalisedAll(gs, b)
  {
    hide H.Sane, H.Readable, H.Length, H.Read, H.Normalised, H.SameKind;
    if |hs| > 0 {
      SameKindReads(hs[0], gs[0], b);
      if H.Sane(hs[0], b) && H.Readable(hs[0], b) {
        var r, q := H.Read(hs[0], b), H.Read(gs[0], b);
        var tail := b[H.Length(r)..];
        SameKindsRead(hs[1..], gs[1..], tail);
        if SaneAll(hs, b) && ReadableAll(hs, b) {
          assert ([r] + ReadAll(hs[1..], tail))[1..] == ReadAll(hs[1..], tail);
          assert ([q] + ReadAll(gs[1..], tail))[1..] == ReadAll(gs[1..], tail);
        }
      }
    }
  }

  /** Reading `p` into the stack and writing it back both stay within defined behaviour. */
  predicate Checkable(vs: seq<H.Header>, p: seq<byte>) {
    && SaneAll(vs, p)
    && (ReadableAll(vs, p) ==> LengthAll(ReadAll(vs, p)) <= MAX_HEADER_LEN)
  }

  /** The verdict the packet deserves. */
  function Expected(vs: seq<H.Header>, p: seq<byte>): Verdict
    requires SaneAll(vs, p) && ReadableAll(vs, p)
  {
    if NormalisedAll(vs, p) == p then Succeeded else HasBinaryError
  }

  /**
   * In terms of the bytes that `compile` makes of what `analyze` read: they are as many as were
   * read, so there is never a length error, and the packet succeeds exactly when they are the same.
   */
  lemma ExpectedMeans(vs: seq<H.Header>, p: seq<byte>)
    requires SaneAll(vs, p) && ReadableAll(vs, p)
    ensures var rs := ReadAll(vs, p);
            var compiled := WireAll(rs) + p[LengthAll(rs)..];
            && |compiled| == |p|
            && (Expected(vs, p) == Succeeded <==> compiled == p)
            && (Expected(vs, p) == HasBinaryError <==> compiled != p)
  {
    hide LengthAll, ReadAll, ReadableAll, SaneAll, WireAll, NormalisedAll, H.SameKind;
    WriteAfterReadAll(vs, p);
    NormalisedLength(vs, p);
  }

  predicate AllCheckable(vs: seq<H.Header>, ps: seq<seq<byte>>) {
    forall k :: 0 <= k < |ps| ==> Checkable(vs, ps[k])
  }

  predicate AllReadable(vs: seq<H.Header>, ps: seq<seq<byte>>)
    requires AllCheckable(vs, ps)
  {
    forall k :: 0 <= k < |ps| ==> ReadableAll(vs, ps[k])
  }

  predicate AllExpected(vs: seq<H.Header>, ps: seq<seq<byte>>, log: seq<Verdict>)
    requires AllCheckable(vs, ps)
  {
    |log| <= |ps| && forall k :: 0 <= k < |log| ==> ReadableAll(vs, ps[k]) && log[k] == Expected(vs, ps[k])
  }

  /** One turn of the loop after `recv`. */
  method CheckOne(pack: Packet, data: seq<byte>) returns (r: Result<Verdict>)
    requires pack.Valid() && Checkable(pack.Values(), data)
    modifies pack.raw, Objs(pack.headers)
    ensures pack.Valid() && pack.headers == old(pack.headers)
    ensures r.Ok? <==> ReadableAll(old(pack.Values()), data)
    ensures r.Ok? ==> SameKinds(old(pack.Values()), pack.Values())
    ensures r.Ok? ==> r.value == Expected(old(pack.Values()), data)
  {
    hide LengthAll, ReadAll, ReadableAll, SaneAll, WireAll, NormalisedAll, H.SameKind;
    ghost var vs := pack.Values();
    var o := pack.Analyze(data);
    if o.Fail? {
      return Err(o.error);
    }
    ghost var rs := pack.Values();
    WriteAfterReadAll(vs, data);
    NormalisedLength(vs, data);
    pack.Compile();
    var length := pack.Length();
    var raw := pack.Raw();
    if |data| != length {
      return Ok(HasLengthError);
    } else if raw[..|data|] == data {
      return Ok(Succeeded);
    } else {
      return Ok(HasBinaryError);
    }
  }

  lemma {:induction false} NormalisedLength(vs: seq<H.Header>, b: seq<byte>)
    requires SaneAll(vs, b) && ReadableAll(vs, b)
    ensures |NormalisedAll(vs, b)| == |b|
  {
    hide H.Sane, H.Readable, H.Length, H.Read, H.Normalised, H.SameKind;
    if |vs| > 0 {
      NormalisedLength(vs[1..], b[H.Length(H.Read(vs[0], b))..]);
    }
  }

  /** The loop's buffer. */
  const DATA_LENGTH := 10000

  /** One turn of the loop, when the file has not ended: `recv`, and then the packet if there is one. */
  method Turn(pack: Packet, handle: PcapStream, ghost vs: seq<H.Header>, ghost next: Received)
    returns (v: Result<Verdict>)
    requires pack.Valid() && SameKinds(vs, pack.Values())
    requires handle.io.IsOpen() && next == NextRecord(handle.io.Rest(), DATA_LENGTH) && handle.io !in Objs(pack.headers)
    requires next.Got? ==> Checkable(vs, next.data)
    modifies pack.raw, Objs(pack.headers), handle.io`pos
    ensures pack.Valid() && pack.headers == old(pack.headers)
    ensures handle.io.IsOpen()
    ensures v.Ok? <==> next.Got? && ReadableAll(vs, next.data)
    ensures v.Ok? ==> v.value == Expected(vs, next.data)
    ensures v.Ok? ==> SameKinds(vs, pack.Values()) && handle.io.Rest() == next.rest
  {
    hide LengthAll, ReadAll, ReadableAll, SaneAll, WireAll, NormalisedAll, H.SameKind, NextRecord;
    hide Expected, SameKinds, Checkable, ValuesOf;
    ghost var now := pack.Values();
    var buffer := new byte[10000](_ => 0);
    ghost var zeros := buffer[..];
    var n := handle.Recv(buffer);
    if n.Err? {
      return Err(n.error);
    }
    FrontSpliced(zeros, next.data);
    var data := buffer[..n.value];
    assert data == next.data && pack.Values() == now;
    SameKindsExpect(vs, now, data);
    v := CheckOne(pack, data);
    if v.Ok? {
      SameKindsTransitive(vs, now, pack.Values());
    }
  }

  /** What the loop receives from a file: nothing if even its header is short. */
  function CaptureOf(b: seq<byte>): Capture {
    if |b| < |FILE_HEADER| then Capture([], false) else CaptureIn(b[|FILE_HEADER|..], DATA_LENGTH)
  }

  /**
   * The whole loop, on any file. It returns normally exactly when the file is a clean run
   * of records and the stack can read every packet; then it has counted them all, and each
   * is reported a success exactly when it was already normalised. Otherwise it throws at
   * the first packet that cannot be read, or else behind the last that can be received.
   */
  method Check(pack: Packet, f: File?, ghost vs: seq<H.Header>, ghost c: Capture)
    returns (r: Result<nat>, log: seq<Verdict>)
    requires pack.Valid() && vs == pack.Values()
    requires f != null ==> c == CaptureOf(f.bytes)
    requires AllCheckable(vs, c.packets)
    modifies pack.raw, Objs(pack.headers), f
    ensures pack.Valid() && pack.headers == old(pack.headers)
    ensures f != null ==> f.bytes == old(f.bytes)
    ensures r.Ok? <==> f != null && c.clean && AllReadable(vs, c.packets)
    ensures r.Ok? ==> r.value == |c.packets| == |log|
    ensures AllExpected(vs, c.packets, log)
    ensures f != null && r.Err? ==> StoppedRightly(vs, c, |log|)
  {
    hide LengthAll, ReadAll, ReadableAll, SaneAll, WireAll, NormalisedAll, H.SameKind, NextRecord, CaptureIn;
    hide Expected, SameKinds, Checkable, AllCheckable, AllReadable, AllExpected, ValuesOf, StoppedRightly, FILE_HEADER;
    SameKindsSelf(vs);
    log := [];
    NoneExpected(vs, c.packets);
    var handle := new PcapStream();
    HeadersOnly(pack.headers, handle.io, f);
    var o := handle.Open(f, PcapRead);
    if o.Fail? {
      if f != null {
        NothingCaptured(vs, c);
        StoppedMeansError(vs, c, 0);
      }
      return Err(o.error), log;
    }
    assert pack.Values() == vs;
    assert c.packets[0..] == c.packets;
    var count := 0;
    while true
      invariant 0 <= count == |log| <= |c.packets|
      invariant pack.Valid() && pack.headers == old(pack.headers) && SameKinds(vs, pack.Values())
      invariant f.bytes == old(f.bytes) && handle.io.file == f
      invariant fresh(handle.io) && handle.io !in Objs(pack.headers) && f !in Objs(pack.headers)
      invariant handle.io.IsOpen()
      invariant CaptureIn(handle.io.Rest(), DATA_LENGTH) == Capture(c.packets[count..], c.clean)
      invariant AllExpected(vs, c.packets, log)
      decreases |c.packets| - count
    {
      ghost var next := NextRecord(handle.io.Rest(), DATA_LENGTH);
      CaptureStep(vs, handle.io.Rest(), c, count);
      var end := handle.io.Feof();
      if end {
        break;
      }
      var v := Turn(pack, handle, vs, next);
      if v.Err? {
        StoppedMeansError(vs, c, count);
        return Err(v.error), log;
      }
      OneMoreExpected(vs, c.packets, log, v.value);
      log := log + [v.value];
      count := count + 1;
    }
    ExpectedWereReadable(vs, c.packets, log);
    return Ok(count), log;
  }

  /** A file `pcap_stream` wrote is received in full exactly when every packet has from 1 to 10000 bytes. */
  lemma CaptureOfWritten(ps: seq<seq<byte>>)
    ensures CaptureOf(FILE_HEADER + Records(ps)) == Capture(ps, true)
            <==> forall k :: 0 <= k < |ps| ==> 1 <= |ps[k]| <= 10000
  {
    hide CaptureIn, Records;
    assert (FILE_HEADER + Records(ps))[|FILE_HEADER|..] == Records(ps);
    RecordsReceived(ps, DATA_LENGTH);
  }

  /** Why `check` threw after `n` packets. */
  predicate StoppedRightly(vs: seq<H.Header>, c: Capture, n: nat)
    requires AllCheckable(vs, c.packets)
  {
    if n < |c.packets| then !ReadableAll(vs, c.packets[n]) else n == |c.packets| && !c.clean
  }

  /** One turn, as a step through what the file holds. */
  lemma CaptureStep(vs: seq<H.Header>, rest: seq<byte>, c: Capture, k: nat)
    requires AllCheckable(vs, c.packets)
    requires k <= |c.packets| && CaptureIn(rest, DATA_LENGTH) == Capture(c.packets[k..], c.clean)
    ensures rest == [] ==> k == |c.packets| && c.clean
    ensures var next := NextRecord(rest, DATA_LENGTH);
            && (rest != [] && next.Threw? ==> k == |c.packets| && StoppedRightly(vs, c, k))
            && (rest != [] && next.Got? ==>
                  && k < |c.packets| && next.data == c.packets[k] && Checkable(vs, next.data)
                  && CaptureIn(next.rest, DATA_LENGTH) == Capture(c.packets[k + 1..], c.clean)
                  && (!ReadableAll(vs, next.data) ==> StoppedRightly(vs, c, k)))
  {
    hide NextRecord, Checkable, ReadableAll, SaneAll, ReadAll;
    if rest != [] && NextRecord(rest, DATA_LENGTH).Got? {
      assert c.packets[k..][0] == c.packets[k] && c.packets[k..][1..] == c.packets[k + 1..];
    }
  }

  lemma NothingCaptured(vs: seq<H.Header>, c: Capture)
    requires AllCheckable(vs, c.packets) && c == Capture([], false)
    ensures StoppedRightly(vs, c, 0)
  {
  }

  /** What a packet's header pointers can point to. */
  lemma HeadersOnly(hs: seq<HeaderRef>, io: FileStream, f: File?)
    ensures io !in Objs(hs)
    ensures f != null ==> f !in Objs(hs)
  {
  }

  lemma SameKindsSelf(vs: seq<H.Header>)
    ensures SameKinds(vs, vs)
  {
  }

  lemma NoneExpected(vs: seq<H.Header>, ps: seq<seq<byte>>)
    requires AllCheckable(vs, ps)
    ensures AllExpected(vs, ps, [])
  {
  }

  lemma OneMoreExpected(vs: seq<H.Header>, ps: seq<seq<byte>>, log: seq<Verdict>, v: Verdict)
    requires AllCheckable(vs, ps) && AllExpected(vs, ps, log) && |log| < |ps|
    requires ReadableAll(vs, ps[|log|]) && v == Expected(vs, ps[|log|])
    ensures AllExpected(vs, ps, log + [v])
  {
    hide Expected, ReadableAll, Checkable;
  }

  lemma StoppedMeansError(vs: seq<H.Header>, c: Capture, n: nat)
    requires AllCheckable(vs, c.packets) && StoppedRightly(vs, c, n)
    ensures !c.clean || !AllReadable(vs, c.packets)
  {
  }

  lemma ExpectedWereReadable(vs: seq<H.Header>, ps: seq<seq<byte>>, log: seq<Verdict>)
    requires AllCheckable(vs, ps) && AllExpected(vs, ps, log) && |log| == |ps|
    ensures AllReadable(vs, ps)
  {
  }

  lemma SameKindsTransitive(us: seq<H.Header>, vs: seq<H.Header>, ws: seq<H.Header>)
    requires SameKinds(us, vs) && SameKinds(vs, ws)
    ensures SameKinds(us, ws)
  {
  }

  lemma SameKindsExpect(vs: seq<H.Header>, ws: seq<H.Header>, p: seq<byte>)
    requires SameKinds(vs, ws) && Checkable(vs, p)
    ensures Checkable(ws, p) && ReadableAll(vs, p) == ReadableAll(ws, p)
    ensures ReadableAll(vs, p) ==> Expected(vs, p) == Expected(ws, p)
  {
    SameKindsRead(vs, ws, p);
  }
}
