/** `module::check` on the five packet classes: which bytes each can read, and that every such packet succeeds. */
module ClassChecks {
  import opened Bytes
  import opened Exceptions
  import opened FileStreams
  import opened HeaderStack
  import opened ModuleChecks
  import opened PacketClasses
  import opened Packets
  import opened PcapRuns
  import opened PcapStreams
  import H = Headers

  /** The IPv4 header of the packet, if there is one, claims at least its fixed twenty bytes. */
  predicate SaneFor(c: Class, b: seq<byte>) {
    (c == Ipv4Class || c == UdpClass) && |b| >= 34 ==> Low4(b[14]) >= 5
  }

  /** The packet is long enough for the headers of the class. */
  predicate LongEnough(c: Class, b: seq<byte>) {
    match c
    case EthernetClass => |b| >= 14
    case ArpClass => |b| >= 42
    case Ipv4Class => |b| >= 34 && |b| >= 14 + 4 * Low4(b[14])
    case Ipv6Class => |b| >= 54
    case UdpClass => |b| >= 34 && |b| >= 22 + 4 * Low4(b[14])
  }

  /** The traffic class and the flow label of an IPv6 packet are zero. */
  predicate Unlabelled(c: Class, b: seq<byte>) {
    c == Ipv6Class && |b| >= 54 ==> Low4(b[14]) == 0 && b[15] == b[16] == b[17] == 0
  }

  lemma ReadsOneMore(h: H.Header, hs: seq<H.Header>, b: seq<byte>)
    ensures SaneAll([h] + hs, b)
            <==> H.Sane(h, b) && (H.Readable(h, b) ==> SaneAll(hs, b[H.Length(H.Read(h, b))..]))
    ensures SaneAll([h] + hs, b) ==>
              (ReadableAll([h] + hs, b) <==> H.Readable(h, b) && ReadableAll(hs, b[H.Length(H.Read(h, b))..]))
  {
    hide H.Sane, H.Readable, H.Read, H.Length;
    assert ([h] + hs)[1..] == hs;
  }

  lemma ReadsOne(h: H.Header, b: seq<byte>)
    ensures SaneAll([h], b) <==> H.Sane(h, b)
    ensures SaneAll([h], b) ==> (ReadableAll([h], b) <==> H.Readable(h, b))
  {
    hide H.Sane, H.Readable, H.Read, H.Length;
    assert [h][1..] == [];
  }

  /** The packets an object of the class can read, in closed form. */
  lemma ClassReads(c: Class, vs: seq<H.Header>, b: seq<byte>)
    requires StackOf(c, vs) && SaneFor(c, b)
    ensures SaneAll(vs, b) && (ReadableAll(vs, b) <==> LongEnough(c, b))
  {
    hide SaneAll, ReadableAll, ReadAll, LengthAll, WritableAll, WireAll;
    if c == EthernetClass {
      assert vs == [vs[0]];
      ReadsOne(vs[0], b);
    } else {
      var tail := vs[1..];
      assert vs == [vs[0]] + tail;
      ReadsOneMore(vs[0], tail, b);
      if |b| >= 14 {
        TailReads(c, tail, b[14..]);
        assert |b| >= 34 ==> b[14..][0] == b[14];
      }
    }
  }

  lemma TailReads(c: Class, vs: seq<H.Header>, b: seq<byte>)
    requires c != EthernetClass && SameKinds(Defaults(c)[1..], vs)
    requires (c == Ipv4Class || c == UdpClass) && |b| >= 20 ==> Low4(b[0]) >= 5
    ensures SaneAll(vs, b)
    ensures ReadableAll(vs, b) <==>
            if c == ArpClass then |b| >= 28
            else if c == Ipv4Class then |b| >= 20 && |b| >= 4 * Low4(b[0])
            else if c == Ipv6Class then |b| >= 40
            else |b| >= 20 && |b| >= 8 + 4 * Low4(b[0])
  {
    hide SaneAll, ReadableAll, ReadAll, LengthAll, WritableAll, WireAll;
    if c == UdpClass {
      assert vs == [vs[0]] + [vs[1]];
      ReadsOneMore(vs[0], [vs[1]], b);
      if |b| >= 20 && |b| >= 4 * Low4(b[0]) {
        ReadsOne(vs[1], b[4 * Low4(b[0])..]);
      }
    } else {
      assert vs == [vs[0]];
      ReadsOne(vs[0], b);
    }
  }

  /** A readable packet of a class other than IPv6 succeeds; one of IPv6, exactly when it is unlabelled. */
  lemma ClassExpected(c: Class, vs: seq<H.Header>, b: seq<byte>)
    requires StackOf(c, vs) && SaneFor(c, b) && LongEnough(c, b)
    ensures Checkable(vs, b) && ReadableAll(vs, b)
    ensures Expected(vs, b) == Succeeded <==> Unlabelled(c, b)
  {
    ClassReads(c, vs, b);
    hide SaneAll, ReadableAll, ReadAll, LengthAll, WritableAll, WireAll, NormalisedAll, SaneFor;
    var rs := ReadAll(vs, b);
    SameKindsTransitive(Defaults(c), vs, rs);
    HeadRoomSuffices(c, rs);
    if c == Ipv6Class {
      assert vs == [vs[0], vs[1]];
      Ipv6IdentityIff(vs[0], vs[1], b);
    } else {
      HeadRoomSuffices(c, vs);
      IdentityWithoutIpv6(vs, b);
    }
  }

  predicate AllSucceeded(log: seq<Verdict>) {
    forall k :: 0 <= k < |log| ==> log[k] == Succeeded
  }

  /**
   * End to end: packets the class can read are written to a capture file, and `check`
   * counts them all and reports each a success.
   */
  method WriteThenCheck(c: Class, f: File, ps: seq<seq<byte>>) returns (r: Result<nat>, log: seq<Verdict>)
    requires AllGood(c, ps)
    modifies f
    ensures r == Ok(|ps|) && |log| == |ps| && AllSucceeded(log)
  {
    hide SaneAll, ReadableAll, ReadAll, LengthAll, WireAll, NormalisedAll, SaneFor, LongEnough, Unlabelled;
    hide Records, Checkable, Expected, AllCheckable, AllReadable, AllExpected;
    var o, sent := WriteAll(f, ps);
    GoodReceived(c, ps);
    assert ps[..sent] == ps;
    var pack := New(c);
    ghost var vs := pack.Values();
    DefaultsStack(c);
    AllClassExpected(c, vs, ps);
    assert f.bytes[|FILE_HEADER|..] == Records(ps);
    r, log := Check(pack, f, vs, Capture(ps, true));
    ExpectedSucceeded(c, vs, ps, log);
  }

  /** The packets of a file that `check` reports as successes, whatever came before them. */
  predicate AllGood(c: Class, ps: seq<seq<byte>>) {
    forall k :: 0 <= k < |ps| ==>
      0 < |ps[k]| <= 10000 && SaneFor(c, ps[k]) && LongEnough(c, ps[k]) && Unlabelled(c, ps[k])
  }

  lemma GoodReceived(c: Class, ps: seq<seq<byte>>)
    requires AllGood(c, ps)
    ensures [] !in ps && CaptureIn(Records(ps), DATA_LENGTH) == Capture(ps, true)
  {
    hide SaneFor, LongEnough, Unlabelled, CaptureIn, Records;
    RecordsReceived(ps, DATA_LENGTH);
  }

  lemma AllClassExpected(c: Class, vs: seq<H.Header>, ps: seq<seq<byte>>)
    requires StackOf(c, vs) && AllGood(c, ps)
    ensures AllCheckable(vs, ps) && AllReadable(vs, ps)
  {
    hide SaneAll, ReadableAll, SaneFor, LongEnough, Unlabelled, StackOf;
    forall k | 0 <= k < |ps| ensures Checkable(vs, ps[k]) {
      ClassExpected(c, vs, ps[k]);
    }
    forall k | 0 <= k < |ps| ensures ReadableAll(vs, ps[k]) {
      ClassExpected(c, vs, ps[k]);
    }
  }

  lemma ExpectedSucceeded(c: Class, vs: seq<H.Header>, ps: seq<seq<byte>>, log: seq<Verdict>)
    requires StackOf(c, vs) && AllGood(c, ps) && AllCheckable(vs, ps) && AllExpected(vs, ps, log)
    ensures AllSucceeded(log)
  {
    hide Checkable, SaneAll, ReadableAll, SaneFor, LongEnough, Unlabelled, StackOf, Expected, AllCheckable;
    forall k | 0 <= k < |log| ensures log[k] == Succeeded {
      ClassExpected(c, vs, ps[k]);
    }
  }

  lemma DefaultsStack(c: Class)
    ensures StackOf(c, Defaults(c))
  {
  }

  /**
   * Compile, then analyze into a new packet of the same class: the contents come back,
   * and every header field, except that IPv4 option bytes past the header's length are
   * those of a new object and IPv6 labels are zero.
   */
  method CompileThenAnalyze(c: Class, p: Packet) returns (q: Packet)
    requires p.Valid() && StackOf(c, p.Values()) && WritableAll(p.Values())
    modifies p.raw.vec
    ensures fresh(q) && q.Valid()
    ensures p.Values() == old(p.Values()) && p.raw.vec == old(p.raw.vec) && p.Contents() == old(p.Contents())
    ensures SameKinds(Defaults(c), p.Values()) && WritableAll(p.Values())
    ensures q.Values() == RecoveredAll(Defaults(c), p.Values())
    ensures q.Contents() == p.Contents()
  {
    hide LengthAll, WireAll, ReadAll, ReadableAll, SaneAll, ValuesOf, Defaults, RecoveredAll, H.Writable, H.SameKind;
    hide WritableAll, SameKinds, RecoveredAll;
    ghost var vs, contents := p.Values(), p.Contents();
    HeadRoomSuffices(c, vs);
    var bytes := Compiled(p);
    ReadAfterWriteAll(Defaults(c), vs, contents);
    q := New(c);
    assert Objs(p.headers) !! Objs(q.headers) && q.raw !in Objs(p.headers);
    assert p.Values() == vs;
    var o := q.Analyze(bytes);
    assert p.Values() == vs && p.Contents() == contents;
  }

  /** `compile`, and then the `length()` bytes from `raw()`. */
  method Compiled(p: Packet) returns (bytes: seq<byte>)
    requires p.Valid() && WritableAll(p.Values()) && LengthAll(p.Values()) <= MAX_HEADER_LEN
    modifies p.raw.vec
    ensures p.Values() == old(p.Values()) && p.Contents() == old(p.Contents())
    ensures bytes == WireAll(p.Values()) + p.Contents()
  {
    hide LengthAll, WireAll, ValuesOf, H.Writable;
    ghost var vs, contents := p.Values(), p.Contents();
    p.Compile();
    AfterHeaders(p.raw.vec[..], WireAll(vs), contents);
    var length := p.Length();
    var raw := p.Raw();
    bytes := raw[..length];
  }

  lemma AfterHeaders(vec: seq<byte>, wire: seq<byte>, contents: seq<byte>)
    requires |wire| <= MAX_HEADER_LEN <= |vec| && vec[MAX_HEADER_LEN - |wire|..] == wire + contents
    ensures vec[MAX_HEADER_LEN..] == contents
  {
    assert vec[MAX_HEADER_LEN..] == vec[MAX_HEADER_LEN - |wire|..][|wire|..];
  }
}
