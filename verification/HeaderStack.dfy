/** Header stacks, on values: the codec laws carried from one header to any list of them. */
module HeaderStack {
  import opened Bytes
  import opened Headers

  function LengthAll(hs: seq<Header>): nat {
    if |hs| == 0 then 0 else Length(hs[0]) + LengthAll(hs[1..])
  }

  predicate WritableAll(hs: seq<Header>) {
    forall i :: 0 <= i < |hs| ==> Writable(hs[i])
  }

  function WireAll(hs: seq<Header>): (s: seq<byte>)
    requires WritableAll(hs)
    ensures |s| == LengthAll(hs)
  {
    if |hs| == 0 then [] else Wire(hs[0]) + WireAll(hs[1..])
  }

  predicate SaneAll(hs: seq<Header>, b: seq<byte>) {
    |hs| == 0 ||
    (Sane(hs[0], b) && (Readable(hs[0], b) ==> SaneAll(hs[1..], b[Length(Read(hs[0], b))..])))
  }

  /** No header of the stack throws; each is read where the one before it ends. */
  predicate ReadableAll(hs: seq<Header>, b: seq<byte>)
    requires SaneAll(hs, b)
  {
    |hs| == 0 ||
    (Readable(hs[0], b) && ReadableAll(hs[1..], b[Length(Read(hs[0], b))..]))
  }

  function ReadAll(hs: seq<Header>, b: seq<byte>): (rs: seq<Header>)
    requires SaneAll(hs, b) && ReadableAll(hs, b)
    ensures |rs| == |hs| && WritableAll(rs) && LengthAll(rs) <= |b|
    ensures forall i :: 0 <= i < |hs| ==> SameKind(hs[i], rs[i])
  {
    if |hs| == 0 then []
    else
      var r := Read(hs[0], b);
      var rs := ReadAll(hs[1..], b[Length(r)..]);
      assert ([r] + rs)[1..] == rs;
      [r] + rs
  }

  function NormalisedAll(hs: seq<Header>, b: seq<byte>): (r: seq<byte>)
    requires SaneAll(hs, b) && ReadableAll(hs, b)
  {
    if |hs| == 0 then b
    else
      var n := Length(Read(hs[0], b));
      Normalised(hs[0], b)[..n] + NormalisedAll(hs[1..], b[n..])
  }

  lemma EmptyStack(hs: seq<Header>, b: seq<byte>)
    requires |hs| == 0
    ensures SaneAll(hs, b) && ReadableAll(hs, b) && ReadAll(hs, b) == [] && NormalisedAll(hs, b) == b
    ensures WireAll(hs) == [] && LengthAll(hs) == 0 && WireAll(hs) + b == b && b[0..] == b
  {
  }

  /** What reading a stack makes of its first header, and what it leaves to the others. */
  lemma FirstRead(hs: seq<Header>, b: seq<byte>) returns (r: Header, rs: seq<Header>, tail: seq<byte>)
    requires |hs| > 0 && SaneAll(hs, b) && ReadableAll(hs, b)
    ensures Sane(hs[0], b) && Readable(hs[0], b) && r == Read(hs[0], b) && tail == b[Length(r)..]
    ensures SaneAll(hs[1..], tail) && ReadableAll(hs[1..], tail) && rs == ReadAll(hs[1..], tail)
    ensures ReadAll(hs, b) == [r] + rs && LengthAll(ReadAll(hs, b)) == Length(r) + LengthAll(rs)
    ensures WireAll(ReadAll(hs, b)) == Wire(r) + WireAll(rs)
    ensures b[LengthAll(ReadAll(hs, b))..] == tail[LengthAll(rs)..]
    ensures NormalisedAll(hs, b) == Normalised(hs[0], b)[..Length(r)] + NormalisedAll(hs[1..], tail)
  {
    hide Wire, Read, Readable, Sane, Length, Normalised, Writable, SameKind;
    r := Read(hs[0], b);
    tail := b[Length(r)..];
    rs := ReadAll(hs[1..], tail);
    assert ([r] + rs)[1..] == rs;
    AfterBoth(b, Length(r), LengthAll(rs));
  }

  lemma AfterBoth(b: seq<byte>, m: nat, n: nat)
    requires m + n <= |b|
    ensures b[m..][n..] == b[m + n..]
  {
  }

  /** Analyze, then compile: the bytes come back, normalised. */
  lemma {:induction false} WriteAfterReadAll(hs: seq<Header>, b: seq<byte>)
    requires SaneAll(hs, b) && ReadableAll(hs, b)
    ensures var rs := ReadAll(hs, b); WireAll(rs) + b[LengthAll(rs)..] == NormalisedAll(hs, b)
  {
    hide Wire, Read, Readable, Sane, Length, Normalised, Writable, SameKind;
    hide WireAll, ReadAll, ReadableAll, SaneAll, LengthAll, NormalisedAll;
    if |hs| == 0 {
      EmptyStack(hs, b);
    } else {
      var r, rs, tail := FirstRead(hs, b);
      WriteAfterReadPrefix(hs[0], b);
      WriteAfterReadAll(hs[1..], tail);
    }
  }

  predicate NoIpv6(hs: seq<Header>) {
    forall i :: 0 <= i < |hs| ==> !hs[i].Ipv6Header?
  }

  lemma OneLess(hs: seq<Header>, b: seq<byte>)
    requires NoIpv6(hs) && |hs| > 0
    ensures Normalised(hs[0], b) == b && NoIpv6(hs[1..])
  {
  }

  /** Without an IPv6 header, analyze then compile is the identity on bytes. */
  lemma {:induction false} IdentityWithoutIpv6(hs: seq<Header>, b: seq<byte>)
    requires NoIpv6(hs) && SaneAll(hs, b) && ReadableAll(hs, b)
    ensures NormalisedAll(hs, b) == b
  {
    hide Wire, Read, Readable, Sane, Length, Writable, SameKind, NoIpv6, Normalised;
    hide WireAll, ReadAll, ReadableAll, SaneAll, LengthAll, NormalisedAll;
    if |hs| == 0 {
      EmptyStack(hs, b);
    } else {
      OneLess(hs, b);
      var r, rs, tail := FirstRead(hs, b);
      IdentityWithoutIpv6(hs[1..], tail);
      assert b == b[..Length(r)] + tail;
    }
  }

  ghost predicate SameKinds(hs: seq<Header>, gs: seq<Header>) {
    |hs| == |gs| && forall i :: 0 <= i < |hs| ==> SameKind(hs[i], gs[i])
  }

  function RecoveredAll(into: seq<Header>, hs: seq<Header>): (rs: seq<Header>)
    requires SameKinds(into, hs) && WritableAll(hs)
    ensures |rs| == |hs|
  {
    seq(|hs|, i requires 0 <= i < |hs| => Recovered(into[i], hs[i]))
  }

  /** One header more on the left of a stack that can be read. */
  lemma ReadOneMore(hs: seq<Header>, b: seq<byte>)
    requires |hs| > 0 && Sane(hs[0], b) && Readable(hs[0], b)
    requires SaneAll(hs[1..], b[Length(Read(hs[0], b))..]) && ReadableAll(hs[1..], b[Length(Read(hs[0], b))..])
    ensures SaneAll(hs, b) && ReadableAll(hs, b)
  {
    hide Read, Readable, Sane, Length;
  }

  lemma FirstWritten(hs: seq<Header>, contents: seq<byte>) returns (tail: seq<byte>)
    requires |hs| > 0 && WritableAll(hs)
    ensures tail == WireAll(hs[1..]) + contents && WireAll(hs) + contents == Wire(hs[0]) + tail
    ensures (WireAll(hs) + contents)[Length(hs[0])..] == tail
  {
    hide Wire, Length, Writable;
    tail := WireAll(hs[1..]) + contents;
  }

  lemma RecoveredInParts(into: seq<Header>, hs: seq<Header>)
    requires SameKinds(into, hs) && WritableAll(hs)
    ensures |hs| == 0 ==> RecoveredAll(into, hs) == []
    ensures |hs| > 0 ==> RecoveredAll(into, hs) == [Recovered(into[0], hs[0])] + RecoveredAll(into[1..], hs[1..])
  {
    hide Recovered, Writable, SameKind;
  }

  /** Compile, then analyze into a stack of the same kinds: the headers come back, and so do the contents. */
  lemma {:induction false} ReadAfterWriteAll(into: seq<Header>, hs: seq<Header>, contents: seq<byte>)
    requires SameKinds(into, hs) && WritableAll(hs)
    ensures var b := WireAll(hs) + contents;
            && SaneAll(into, b) && ReadableAll(into, b)
            && ReadAll(into, b) == RecoveredAll(into, hs)
            && b[LengthAll(ReadAll(into, b))..] == contents
  {
    hide Wire, Read, Readable, Sane, Length, Writable, Recovered, SameKind, RecoveredAll;
    hide WireAll, ReadAll, ReadableAll, SaneAll, LengthAll, NormalisedAll;
    if |hs| == 0 {
      EmptyStack(hs, contents);
      EmptyStack(into, contents);
      assert [] + contents == contents;
    } else {
      var b := WireAll(hs) + contents;
      var tail := FirstWritten(hs, contents);
      ReadAfterWrite(into[0], hs[0], tail);
      ReadAfterWriteAll(into[1..], hs[1..], contents);
      ReadOneMore(into, b);
      var r, rs, t := FirstRead(into, b);
      assert t == tail;
    }
    RecoveredInParts(into, hs);
  }

  lemma WireRecovered(into: Header, h: Header)
    requires SameKind(into, h) && Writable(h)
    ensures Writable(Recovered(into, h)) && Wire(Recovered(into, h)) == Wire(h)
  {
    if h.Ipv4Header? {
      var n := 4 * h.ip.hlen - IPV4_MIN_LENGTH;
      assert (h.ip.option[..n] + into.ip.option[n..])[..n] == h.ip.option[..n];
    }
  }

  lemma {:induction false} WireAllRecovered(into: seq<Header>, hs: seq<Header>)
    requires SameKinds(into, hs) && WritableAll(hs)
    ensures WritableAll(RecoveredAll(into, hs)) && WireAll(RecoveredAll(into, hs)) == WireAll(hs)
  {
    forall i | 0 <= i < |hs| ensures Writable(RecoveredAll(into, hs)[i]) {
      WireRecovered(into[i], hs[i]);
    }
    if |hs| > 0 {
      WireRecovered(into[0], hs[0]);
      WireAllRecovered(into[1..], hs[1..]);
      assert RecoveredAll(into, hs)[1..] == RecoveredAll(into[1..], hs[1..]);
    }
  }

  /** Analyze then compile is idempotent: what it gives back, it gives back unchanged. */
  lemma NormalisedTwice(hs: seq<Header>, b: seq<byte>)
    requires SaneAll(hs, b) && ReadableAll(hs, b)
    ensures var n := NormalisedAll(hs, b);
            SaneAll(hs, n) && ReadableAll(hs, n) && NormalisedAll(hs, n) == n
  {
    var rs := ReadAll(hs, b);
    var rest := b[LengthAll(rs)..];
    WriteAfterReadAll(hs, b);
    ReadAfterWriteAll(hs, rs, rest);
    WriteAfterReadAll(hs, NormalisedAll(hs, b));
    WireAllRecovered(hs, rs);
  }

  /** The stack of pgen's `ipv6` class: which bytes analyze then compile clears. */
  lemma Ipv6Normalises(eth: Header, ip6: Header, b: seq<byte>)
    requires eth.EthernetHeader? && ip6.Ipv6Header? && |b| >= ETHERNET_LENGTH + IPV6_LENGTH
    ensures SaneAll([eth, ip6], b) && ReadableAll([eth, ip6], b)
    ensures NormalisedAll([eth, ip6], b) == b[..14] + [ClearLow4(b[14]), 0, 0, 0] + b[18..]
  {
    hide SaneAll, ReadableAll, NormalisedAll, ClearLow4;
    Ipv6NormalisesAlone(ip6, b[14..]);
    BehindEthernet(eth, ip6, b);
    AfterEthernet(b);
  }

  lemma BehindEthernet(eth: Header, ip6: Header, b: seq<byte>)
    requires eth.EthernetHeader? && |b| >= ETHERNET_LENGTH
    requires SaneAll([ip6], b[14..]) && ReadableAll([ip6], b[14..])
    ensures SaneAll([eth, ip6], b) && ReadableAll([eth, ip6], b)
    ensures NormalisedAll([eth, ip6], b) == b[..14] + NormalisedAll([ip6], b[14..])
  {
    hide SaneAll, ReadableAll, ReadAll, NormalisedAll, Normalised, Sane, Readable, Read, Length;
    EthernetTaken(eth, b);
    PushHeader(eth, [ip6], b, 14);
    assert [eth] + [ip6] == [eth, ip6];
  }

  lemma AfterEthernet(b: seq<byte>)
    requires |b| >= 18
    ensures var cleared: seq<byte> := [ClearLow4(b[14]), 0, 0, 0];
            b[..14] + (cleared + b[14..][4..]) == b[..14] + cleared + b[18..]
  {
  }

  /** It clears none exactly when those bits were zero. */
  lemma Ipv6IdentityIff(eth: Header, ip6: Header, b: seq<byte>)
    requires eth.EthernetHeader? && ip6.Ipv6Header? && |b| >= ETHERNET_LENGTH + IPV6_LENGTH
    ensures SaneAll([eth, ip6], b) && ReadableAll([eth, ip6], b)
    ensures NormalisedAll([eth, ip6], b) == b <==> Low4(b[14]) == 0 && b[15] == b[16] == b[17] == 0
  {
    hide SaneAll, ReadableAll, NormalisedAll, Normalised, WireAll, ClearLow4;
    Ipv6Normalises(eth, ip6, b);
    ClearsNothing(b);
  }

  lemma EthernetTaken(eth: Header, b: seq<byte>)
    requires eth.EthernetHeader? && |b| >= ETHERNET_LENGTH
    ensures Sane(eth, b) && Readable(eth, b) && Length(Read(eth, b)) == 14 && Normalised(eth, b) == b
  {
  }

  lemma Ipv6Taken(ip6: Header, b: seq<byte>)
    requires ip6.Ipv6Header? && |b| >= IPV6_LENGTH
    ensures Sane(ip6, b) && Readable(ip6, b) && Length(Read(ip6, b)) == 40
    ensures Normalised(ip6, b)[..40] + b[40..] == [ClearLow4(b[0]), 0, 0, 0] + b[4..]
  {
  }

  /** One header more on the left of a stack. */
  lemma PushHeader(h: Header, hs: seq<Header>, b: seq<byte>, n: nat)
    requires Sane(h, b) && Readable(h, b) && n == Length(Read(h, b))
    requires SaneAll(hs, b[n..]) && ReadableAll(hs, b[n..])
    ensures SaneAll([h] + hs, b) && ReadableAll([h] + hs, b)
    ensures NormalisedAll([h] + hs, b) == Normalised(h, b)[..n] + NormalisedAll(hs, b[n..])
  {
    hide Sane, Readable, Read, Length, Normalised;
    assert ([h] + hs)[1..] == hs;
  }

  lemma Ipv6NormalisesAlone(ip6: Header, b: seq<byte>)
    requires ip6.Ipv6Header? && |b| >= IPV6_LENGTH
    ensures SaneAll([ip6], b) && ReadableAll([ip6], b)
    ensures NormalisedAll([ip6], b) == [ClearLow4(b[0]), 0, 0, 0] + b[4..]
  {
    EmptyStack([], b[40..]);
    hide SaneAll, ReadableAll, NormalisedAll, Normalised, ClearLow4, Sane, Readable, Read, Length;
    Ipv6Taken(ip6, b);
    PushHeader(ip6, [], b, 40);
    assert [ip6] + [] == [ip6];
  }

  lemma ClearsNothing(b: seq<byte>)
    requires |b| >= 18
    ensures b[..14] + [ClearLow4(b[14]), 0, 0, 0] + b[18..] == b <==> Low4(b[14]) == 0 && b[15] == b[16] == b[17] == 0
  {
    var r := b[..14] + [ClearLow4(b[14]), 0, 0, 0] + b[18..];
    assert r[14] == ClearLow4(b[14]) && r[15] == r[16] == r[17] == 0;
    assert b == b[..14] + [b[14], b[15], b[16], b[17]] + b[18..];
  }

}
