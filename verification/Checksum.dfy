/** The Internet checksum of pgen/util.h, against section 2 of RFC 1071. */
module Checksum {
  import opened Bytes

  /** The sum of a byte string read as little-endian words; an odd last byte is a word by itself. */
  function WordSum(d: seq<byte>): nat {
    if |d| == 0 then 0
    else if |d| == 1 then d[0]
    else Le16At(d, 0) + WordSum(d[2..])
  }

  /** The same sum over big-endian words, an odd last byte padded with zero on the right. */
  function WordSumBe(d: seq<byte>): nat {
    if |d| == 0 then 0
    else if |d| == 1 then Be16At([d[0], 0], 0)
    else Be16At(d, 0) + WordSumBe(d[2..])
  }

  /** One's-complement reduction to 16 bits: carries are folded back until none is left. */
  function Fold(n: nat): uint16 {
    if n < 0x1_0000 then n else Fold(n % 0x1_0000 + n / 0x1_0000)
  }

  /** What the code does instead: one fold, truncated to 16 bits, complemented. */
  function SingleFold(n: uint32): uint16 {
    0xffff - (n % 0x1_0000 + n / 0x1_0000) % 0x1_0000
  }

  /** The value of pgen's `checksum`: the words are summed in a `uint32_t`. */
  function ChecksumOf(d: seq<byte>): uint16 {
    SingleFold(WordSum(d) % 0x1_0000_0000)
  }

  /** The one fold leaves no carry behind. */
  predicate NoCarry(n: nat) {
    n % 0x1_0000 + n / 0x1_0000 < 0x1_0000
  }

  /** Whatever the bytes of a string no longer than this, one word more does not take their sum past 32 bits. */
  const MAX_SUMMED := 131072

  // ----- one's-complement arithmetic is arithmetic modulo 65535 with two zeros

  lemma {:induction false} FoldCongruent(n: nat) returns (k: nat)
    ensures n == Fold(n) + 0xffff * k
    ensures Fold(n) == 0 <==> n == 0
  {
    if n < 0x1_0000 {
      k := 0;
    } else {
      var j := FoldCongruent(n % 0x1_0000 + n / 0x1_0000);
      k := j + n / 0x1_0000;
    }
  }

  lemma {:induction false} SumsCongruent(d: seq<byte>) returns (k: nat)
    ensures 0x100 * WordSum(d) == WordSumBe(d) + 0xffff * k
    ensures WordSum(d) == 0 <==> WordSumBe(d) == 0
  {
    if |d| < 2 {
      k := 0;
    } else {
      var j := SumsCongruent(d[2..]);
      k := j + d[1];
    }
  }

  /** RFC 1071 section 2(B): summing in the wrong byte order only swaps the result. */
  lemma ByteOrderIndependent(d: seq<byte>)
    ensures Swap16(Fold(WordSum(d))) == Fold(WordSumBe(d))
  {
    var a := FoldCongruent(WordSum(d));
    var b := FoldCongruent(WordSumBe(d));
    var k := SumsCongruent(d);
    SwapIsTimes256(Fold(WordSum(d)), Fold(WordSumBe(d)), a, b, k);
  }

  lemma SwapIsTimes256(le: uint16, be: uint16, a: int, b: int, k: int)
    requires 0x100 * (le + 0xffff * a) == be + 0xffff * b + 0xffff * k
    requires le == 0 <==> be == 0
    ensures Swap16(le) == be
  {
    var m := b + k - 0x100 * a - le / 0x100;
    assert 0x100 * (le as int) == 0xffff * (le / 0x100) + Swap16(le);
    assert Swap16(le) - be == 0xffff * m;
  }

  /** The single fold is the RFC's sum exactly when it leaves no carry; otherwise it is one too large. */
  lemma SingleFoldExact(n: uint32)
    ensures SingleFold(n) == 0xffff - Fold(n) <==> NoCarry(n)
    ensures !NoCarry(n) ==> SingleFold(n) == 0xffff - Fold(n) + 1
  {
    var once := n % 0x1_0000 + n / 0x1_0000;
    if once >= 0x1_0000 {
      assert Fold(n) == Fold(once) == once % 0x1_0000 + once / 0x1_0000;
    }
  }

  lemma {:induction false} WordSumBound(d: seq<byte>)
    ensures WordSum(d) <= 0xffff * ((|d| + 1) / 2)
  {
    if |d| >= 2 {
      WordSumBound(d[2..]);
    }
  }

  lemma {:induction false} WordSumConcat(a: seq<byte>, b: seq<byte>)
    requires |a| % 2 == 0
    ensures WordSum(a + b) == WordSum(a) + WordSum(b)
  {
    if |a| == 0 {
      assert a + b == b;
    } else {
      assert (a + b)[2..] == a[2..] + b;
      WordSumConcat(a[2..], b);
    }
  }

  /** Addition in a `uint32_t`. */
  function Add32(a: uint32, b: uint32): uint32 {
    if a + b < 0x1_0000_0000 then a + b else a + b - 0x1_0000_0000
  }

  ghost function Carry32(a: uint32, b: uint32): nat {
    if a + b < 0x1_0000_0000 then 0 else 1
  }

  lemma WordTaken(data: seq<byte>, p: nat)
    requires p + 2 <= |data|
    ensures WordSum(data[p..]) == Le16At(data, p) + WordSum(data[p + 2..])
  {
    assert data[p..][2..] == data[p + 2..];
  }

  lemma WordsEnd(data: seq<byte>, p: nat)
    requires p <= |data| <= p + 1
    ensures WordSum(data[p..]) == if p < |data| then data[p] else 0
  {
  }

  lemma WrappedOnly(n: nat, sum: uint32, wraps: nat)
    requires n == sum + 0x1_0000_0000 * wraps
    ensures n % 0x1_0000_0000 == sum
  {
  }

  /**
   * The loop of `checksum`. `sum` starts at zero; the C++ declares it without an
   * initialiser. It is a `uint32_t`, so it can wrap on very long strings.
   */
  method Checksum(data: seq<byte>) returns (r: uint16)
    ensures r == ChecksumOf(data)
  {
    hide WordSum, Le16At;
    var sum: uint32 := 0;
    ghost var wraps := 0;
    var len, p := |data|, 0;
    assert data[0..] == data;
    while len > 1
      invariant 0 <= len <= |data| && p == |data| - len
      invariant sum + 0x1_0000_0000 * wraps + WordSum(data[p..]) == WordSum(data)
    {
      var tmp := Le16At(data, p);
      WordTaken(data, p);
      wraps := wraps + Carry32(sum, tmp);
      sum := Add32(sum, tmp);
      len, p := len - 2, p + 2;
    }
    WordsEnd(data, p);
    if len == 1 {
      wraps := wraps + Carry32(sum, data[p]);
      sum := Add32(sum, data[p]);
    }
    WrappedOnly(WordSum(data), sum, wraps);
    var overflowed := sum / 0x1_0000;
    sum := sum % 0x1_0000;
    sum := sum + overflowed;
    r := 0xffff - sum % 0x1_0000;
  }

  /** When the sum does not wrap, what the single fold means in the RFC's terms, in either byte order. */
  lemma ChecksumMeaning(data: seq<byte>)
    requires WordSum(data) < 0x1_0000_0000
    ensures ChecksumOf(data) == 0xffff - Fold(WordSum(data)) <==> NoCarry(WordSum(data))
    ensures Swap16(ChecksumOf(data)) == 0xffff - Fold(WordSumBe(data)) <==> NoCarry(WordSum(data))
    ensures !NoCarry(WordSum(data)) ==> ChecksumOf(data) == 0xffff - Fold(WordSum(data)) + 1
  {
    Unwrapped(WordSum(data));
    ByteOrderIndependent(data);
    FoldMeaning(WordSum(data), Fold(WordSumBe(data)));
  }

  lemma FoldMeaning(n: uint32, be: uint16)
    requires Swap16(Fold(n)) == be
    ensures SingleFold(n) == 0xffff - Fold(n) <==> NoCarry(n)
    ensures Swap16(SingleFold(n)) == 0xffff - be <==> NoCarry(n)
    ensures !NoCarry(n) ==> SingleFold(n) == 0xffff - Fold(n) + 1
  {
    SingleFoldExact(n);
    SwapComplements(SingleFold(n), Fold(n));
  }

  lemma SwapComplements(r: uint16, f: uint16)
    ensures Swap16(0xffff - f) == 0xffff - Swap16(f)
    ensures Swap16(r) == Swap16(0xffff - f) <==> r == 0xffff - f
  {
    SwapTwice(r);
    SwapTwice(0xffff - f);
  }

  lemma WordSums4(a: byte, b: byte, c: byte, d: byte)
    ensures WordSum([a, b, c, d]) == a + c + 0x100 * (b as int + d)
    ensures WordSumBe([a, b, c, d]) == b + d + 0x100 * (a as int + c)
  {
    var s: seq<byte>, t: seq<byte> := [a, b, c, d], [c, d];
    assert s[2..] == t && t[2..] == [];
    assert WordSum(t) == c + 0x100 * (d as int) && WordSumBe(t) == d + 0x100 * (c as int);
  }

  lemma {:induction false} WordSumBeConcat(a: seq<byte>, b: seq<byte>)
    requires |a| % 2 == 0
    ensures WordSumBe(a + b) == WordSumBe(a) + WordSumBe(b)
  {
    if |a| == 0 {
      assert a + b == b;
    } else {
      assert (a + b)[2..] == a[2..] + b;
      WordSumBeConcat(a[2..], b);
    }
  }

  /** The numbers of RFC 1071 section 3: the words sum to 0x2ddf0 and the checksum is 0x220d. */
  lemma Rfc1071Example()
    ensures var d := [0x00, 0x01, 0xf2, 0x03, 0xf4, 0xf5, 0xf6, 0xf7];
            WordSumBe(d) == 0x2ddf0 && Swap16(ChecksumOf(d)) == 0x220d
  {
    hide WordSum, WordSumBe, ChecksumOf;
    var s: seq<byte>, t: seq<byte> := [0x00, 0x01, 0xf2, 0x03], [0xf4, 0xf5, 0xf6, 0xf7];
    var d: seq<byte> := [0x00, 0x01, 0xf2, 0x03, 0xf4, 0xf5, 0xf6, 0xf7];
    assert d == s + t;
    WordSumConcat(s, t);
    WordSumBeConcat(s, t);
    WordSums4(0x00, 0x01, 0xf2, 0x03);
    WordSums4(0xf4, 0xf5, 0xf6, 0xf7);
    ChecksumOfSum(d, 0x1f2dc);
    assert SingleFold(0x1f2dc) == 0x0d22;
  }

  // ----- storing a checksum in the string it was computed over

  /** Writing a word over a zero word at an even offset adds that word to the sum. */
  lemma WordStored(d: seq<byte>, off: nat, c: uint16)
    requires off % 2 == 0 && off + 2 <= |d| && d[off] == d[off + 1] == 0
    ensures WordSum(Splice(d, off, Le16(c))) == WordSum(d) + c
  {
    var stored := Splice(d, off, Le16(c));
    assert stored[..off] == d[..off] && stored[off + 2..] == d[off + 2..];
    assert Le16At(stored, off) == c;
    WordAt(d, off);
    WordAt(stored, off);
  }

  lemma WordAt(d: seq<byte>, off: nat)
    requires off % 2 == 0 && off + 2 <= |d|
    ensures WordSum(d) == WordSum(d[..off]) + Le16At(d, off) + WordSum(d[off + 2..])
  {
    assert d == d[..off] + d[off..];
    WordSumConcat(d[..off], d[off..]);
    assert d[off..][2..] == d[off + 2..];
  }

  /**
   * A string that carries its own checksum sums to zero exactly when the first fold had no
   * carry, for the code's own checksum and for a receiver that folds as RFC 1071 says.
   * One more word must not wrap the sum.
   */
  lemma SelfVerifies(d: seq<byte>, off: nat)
    requires off % 2 == 0 && off + 2 <= |d| && d[off] == d[off + 1] == 0
    requires WordSum(d) + 0xffff < 0x1_0000_0000
    ensures ChecksumOf(Splice(d, off, Le16(ChecksumOf(d)))) == 0 <==> NoCarry(WordSum(d))
    ensures Fold(WordSum(Splice(d, off, Le16(ChecksumOf(d))))) == 0xffff <==> NoCarry(WordSum(d))
  {
    var sum, c := WordSum(d), ChecksumOf(d);
    WordStored(d, off, c);
    ChecksumOfSum(d, sum);
    ChecksumOfSum(Splice(d, off, Le16(c)), sum + c);
    StoredFold(sum);
  }

  /** A string of at most 128 KiB leaves room for one more word. */
  lemma RoomForOneMore(d: seq<byte>)
    requires |d| <= MAX_SUMMED
    ensures WordSum(d) + 0xffff < 0x1_0000_0000
  {
    WordSumBound(d);
    assert (|d| + 1) / 2 <= 65536;
  }

  lemma ChecksumOfSum(d: seq<byte>, sum: uint32)
    requires WordSum(d) == sum
    ensures ChecksumOf(d) == SingleFold(sum)
  {
    Unwrapped(sum);
  }

  lemma Unwrapped(n: nat)
    requires n < 0x1_0000_0000
    ensures n % 0x1_0000_0000 == n
  {
  }

  /** The two halves of a sum after its single-fold checksum is added to it. */
  lemma StoredHalves(sum: uint32) returns (m: nat)
    requires sum + 0xffff < 0x1_0000_0000
    ensures m == sum + SingleFold(sum)
    ensures var high := if NoCarry(sum) then sum / 0x1_0000 else sum / 0x1_0000 + 1;
            && m / 0x1_0000 == high
            && m % 0x1_0000 == 0xffff - sum / 0x1_0000
  {
    var low, high := sum % 0x1_0000, sum / 0x1_0000;
    m := sum + SingleFold(sum);
    if low + high < 0x1_0000 {
      assert m == 0x1_0000 * high + (0xffff - high);
    } else {
      assert m == 0x1_0000 * (high + 1) + (0xffff - high);
    }
  }

  lemma StoredFold(sum: uint32)
    requires sum + 0xffff < 0x1_0000_0000
    ensures SingleFold(sum + SingleFold(sum)) == 0 <==> NoCarry(sum)
    ensures Fold(sum + SingleFold(sum)) == 0xffff <==> NoCarry(sum)
  {
    var m := StoredHalves(sum);
    FoldOnce(m);
    FoldOnce(0x1_0000);
  }

  lemma FoldOnce(n: nat)
    ensures Fold(n) == Fold(n % 0x1_0000 + n / 0x1_0000)
  {
  }
}
