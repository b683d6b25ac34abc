/** When a header that stores its own checksum verifies (RFC 791 section 3.1, RFC 768). */
module HeaderChecksums {
  import opened Bytes
  import opened Checksum
  import opened Headers

  /** What `ipv4_header::calc_checksum` returns. */
  function Ipv4Checksum(h: Ipv4): uint16
    requires h.hlen >= 5
  {
    Swap16(ChecksumOf(Ipv4Wire(h)))
  }

  /** What `udp_header::calc_checksum` returns. */
  function UdpChecksum(u: Udp, ip: Ipv4, data: seq<byte>): uint16 {
    Swap16(ChecksumOf(UdpSummed(u, ip, data)))
  }

  lemma StoredAsSummed(c: uint16)
    ensures Be16(Swap16(c)) == Le16(c)
    ensures Swap16(c) == 0 <==> c == 0
  {
  }

  lemma Ipv4WireWithCheck(h: Ipv4, c: uint16)
    requires h.hlen >= 5
    ensures Ipv4Wire(h.(check := c)) == Splice(Ipv4Wire(h), 10, Be16(c))
    ensures Ipv4Wire(h)[10..12] == Be16(h.check)
  {
    hide VersionAndLength, Be16;
  }

  /**
   * With the checksum field zero, storing the computed checksum makes the header sum
   * to zero exactly when the single fold of the first computation left no carry, and
   * exactly then the computed value is the one RFC 791 defines.
   */
  lemma Ipv4SelfVerifies(h: Ipv4)
    requires h.hlen >= 5 && h.check == 0
    ensures Ipv4Checksum(h.(check := Ipv4Checksum(h))) == 0 <==> NoCarry(WordSum(Ipv4Wire(h)))
    ensures Ipv4Checksum(h) == 0xffff - Fold(WordSumBe(Ipv4Wire(h))) <==> NoCarry(WordSum(Ipv4Wire(h)))
  {
    hide Ipv4Wire, WordSum, WordSumBe, Fold, NoCarry, ChecksumOf, Splice, Swap16;
    var w := Ipv4Wire(h);
    var c := ChecksumOf(w);
    Ipv4WireWithCheck(h, Swap16(c));
    assert w[10] == w[10..12][0] && w[11] == w[10..12][1];
    StoredAsSummed(c);
    RoomForOneMore(w);
    SelfVerifies(w, 10);
    StoredAsSummed(ChecksumOf(Splice(w, 10, Le16(c))));
    ChecksumMeaning(w);
  }

  lemma UdpSummedWithCheck(u: Udp, ip: Ipv4, data: seq<byte>, c: uint16)
    ensures UdpSummed(u.(check := c), ip, data) == Splice(UdpSummed(u, ip, data), 18, Be16(c))
    ensures UdpSummed(u, ip, data)[18..20] == Be16(u.check)
  {
    hide Be16, DatagramLength;
  }

  /** The same for UDP, with its pseudo header and data of any length a datagram can have. */
  lemma UdpSelfVerifies(u: Udp, ip: Ipv4, data: seq<byte>)
    requires u.check == 0 && |data| <= 0xffff
    ensures UdpChecksum(u.(check := UdpChecksum(u, ip, data)), ip, data) == 0 <==> NoCarry(WordSum(UdpSummed(u, ip, data)))
    ensures UdpChecksum(u, ip, data) == 0xffff - Fold(WordSumBe(UdpSummed(u, ip, data)))
            <==> NoCarry(WordSum(UdpSummed(u, ip, data)))
  {
    hide UdpSummed, WordSum, WordSumBe, Fold, NoCarry, ChecksumOf, Splice, Swap16;
    var w := UdpSummed(u, ip, data);
    var c := ChecksumOf(w);
    UdpSummedWithCheck(u, ip, data, Swap16(c));
    assert w[18] == w[18..20][0] && w[19] == w[18..20][1];
    StoredAsSummed(c);
    RoomForOneMore(w);
    SelfVerifies(w, 18);
    StoredAsSummed(ChecksumOf(Splice(w, 18, Le16(c))));
    ChecksumMeaning(w);
  }

  /** A header whose stored checksum does not verify: its words sum to 0x1ffff. */
  const CARRIES := Ipv4(4, 5, 0, 0, 0xffff, 0xbbff, 0, 0, 0, Zeros(4), Zeros(4), Zeros(40))

  lemma CarryExample()
    ensures Ipv4Checksum(CARRIES.(check := Ipv4Checksum(CARRIES))) != 0
  {
    hide Ipv4Checksum, Ipv4Wire, WordSum;
    CarriesSum();
    Ipv4SelfVerifies(CARRIES);
  }

  lemma CarriesSum()
    ensures WordSum(Ipv4Wire(CARRIES)) == 0x1_ffff
  {
    var w, first, second: seq<byte> := Ipv4Wire(CARRIES), [0x45, 0, 0, 0], [0xff, 0xff, 0xbb, 0xff];
    assert w == first + (second + Zeros(12)) by {
      hide WordSum;
    }
    hide Ipv4Wire;
    WordSumConcat(first, second + Zeros(12));
    WordSumConcat(second, Zeros(12));
    WordSumZeros(12);
    WordSums4(0x45, 0, 0, 0);
    WordSums4(0xff, 0xff, 0xbb, 0xff);
  }

  const EXAMPLE_UDP := Udp(53, 53, 8, 0)
  const EXAMPLE_IP := Ipv4(4, 5, 0, 28, 0, 0, 64, 17, 0, Zeros(4), Zeros(4), Zeros(40))

  /** Ports 53 and no data, under an IPv4 header of total length 28: the pseudo header holds the length 8. */
  lemma UdpExample()
    ensures UdpChecksum(EXAMPLE_UDP, EXAMPLE_IP, []) == 0xff74
  {
    hide UdpSummed, WordSum, ChecksumOf;
    var w := UdpSummed(EXAMPLE_UDP, EXAMPLE_IP, []);
    UdpExampleSum();
    ChecksumOfSum(w, 0x8b00);
    assert SingleFold(0x8b00) == 0x74ff && Swap16(0x74ff) == 0xff74;
  }

  lemma UdpExampleSum()
    ensures WordSum(UdpSummed(EXAMPLE_UDP, EXAMPLE_IP, [])) == 0x8b00
  {
    var w := UdpSummed(EXAMPLE_UDP, EXAMPLE_IP, []);
    var pseudo, ports, tail: seq<byte> := [0, 17, 0, 8], [0, 53, 0, 53], [0, 8, 0, 0];
    assert w == Zeros(8) + (pseudo + (ports + tail)) by {
      hide WordSum;
    }
    hide UdpSummed;
    WordSumConcat(Zeros(8), pseudo + (ports + tail));
    WordSumConcat(pseudo, ports + tail);
    WordSumConcat(ports, tail);
    WordSumZeros(8);
    WordSums4(0, 17, 0, 8);
    WordSums4(0, 53, 0, 53);
    WordSums4(0, 8, 0, 0);
    hide WordSum;
  }

  lemma {:induction false} WordSumZeros(n: nat)
    ensures WordSum(Zeros(n)) == 0
  {
    if n >= 2 {
      assert Zeros(n)[2..] == Zeros(n - 2);
      WordSumZeros(n - 2);
    }
  }
}
