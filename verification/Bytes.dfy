/** Bytes and fixed-width words, as a little-endian host lays them out in memory. */
module Bytes {
  type byte = x: int | 0 <= x < 0x100
  type nibble = x: int | 0 <= x < 0x10
  type uint16 = x: int | 0 <= x < 0x1_0000
  type uint32 = x: int | 0 <= x < 0x1_0000_0000

  /** Assignment to a `uint32_t`. */
  function Wrap32(n: nat): uint32 {
    n % 0x1_0000_0000
  }

  function Low4(x: byte): nibble {
    x % 0x10
  }

  function High4(x: byte): nibble {
    x / 0x10
  }

  /** What a little-endian host stores for a `uint16_t` or a `uint32_t`. */
  function Le16(x: uint16): (s: seq<byte>)
    ensures |s| == 2
  {
    [x % 0x100, x / 0x100]
  }

  function Le32(x: uint32): (s: seq<byte>)
    ensures |s| == 4
  {
    [x % 0x100, x / 0x100 % 0x100, x / 0x1_0000 % 0x100, x / 0x100_0000]
  }

  /** Network byte order. */
  function Be16(x: uint16): (s: seq<byte>)
    ensures |s| == 2
  {
    [x / 0x100, x % 0x100]
  }

  function Le16At(b: seq<byte>, off: nat): uint16
    requires off + 2 <= |b|
  {
    var lo: int, hi: int := b[off], b[off + 1];
    lo + 0x100 * hi
  }

  function Be16At(b: seq<byte>, off: nat): uint16
    requires off + 2 <= |b|
  {
    var hi: int, lo: int := b[off], b[off + 1];
    0x100 * hi + lo
  }

  function Le32At(b: seq<byte>, off: nat): uint32
    requires off + 4 <= |b|
  {
    var b0: int, b1: int, b2: int, b3: int := b[off], b[off + 1], b[off + 2], b[off + 3];
    b0 + 0x100 * b1 + 0x1_0000 * b2 + 0x100_0000 * b3
  }

  /** `htons` and `ntohs` on a little-endian host. */
  function Swap16(x: uint16): (r: uint16)
    ensures Le16(r) == Be16(x)
  {
    0x100 * (x % 0x100) + x / 0x100
  }

  /** A `uint16_t` member of a wire struct, assigned through `htons`. */
  function Hton16(x: uint16): (s: seq<byte>)
    ensures s == Be16(x)
  {
    Le16(Swap16(x))
  }

  /** The same member, loaded through `ntohs`. */
  function Ntoh16(b: seq<byte>, off: nat): (x: uint16)
    requires off + 2 <= |b|
    ensures x == Be16At(b, off)
  {
    Swap16(Le16At(b, off))
  }

  /** The byte orders, on numbers whose bytes differ. */
  lemma ByteOrders()
    ensures Be16(0x0102) == [1, 2] && Le16(0x0102) == [2, 1] && Le32(0x0102_0304) == [4, 3, 2, 1]
    ensures Be16At([9, 1, 2], 1) == 0x0102 && Le16At([9, 2, 1], 1) == 0x0102
    ensures Le32At([9, 4, 3, 2, 1], 1) == 0x0102_0304
    ensures Wrap32(0x5_0000_0007) == 7 && High4(0x45) == 4 && Low4(0x45) == 5
  {
  }

  lemma SwapTwice(x: uint16)
    ensures Swap16(Swap16(x)) == x
  {
  }

  lemma Le32Digits(x: uint32)
    ensures x % 0x100 + 0x100 * (x / 0x100 % 0x100) + 0x1_0000 * (x / 0x1_0000 % 0x100) + 0x100_0000 * (x / 0x100_0000) == x
  {
    var y := x / 0x100;
    var z := y / 0x100;
    assert y == x / 0x100 && z == x / 0x1_0000 && z / 0x100 == x / 0x100_0000;
  }

  /** A word stored anywhere in a buffer is the word loaded from there. */
  lemma Le32Loaded(b: seq<byte>, off: nat, x: uint32)
    requires off + 4 <= |b| && b[off..off + 4] == Le32(x)
    ensures Le32At(b, off) == x
  {
    var s := b[off..off + 4];
    assert b[off] == s[0] && b[off + 1] == s[1] && b[off + 2] == s[2] && b[off + 3] == s[3];
    Le32Digits(x);
  }

  lemma Le32Stored(b: seq<byte>, off: nat)
    requires off + 4 <= |b|
    ensures Le32(Le32At(b, off)) == b[off..off + 4]
  {
    var x := Le32At(b, off);
    var b1: int, b2: int, b3: int := b[off + 1], b[off + 2], b[off + 3];
    LowAndHigh(b[off], b1 + 0x100 * b2 + 0x1_0000 * b3);
    LowAndHigh(b[off + 1], b2 + 0x100 * b3);
    LowAndHigh(b[off + 2], b3);
    ByteByByte(x);
  }

  lemma LowAndHigh(low: byte, high: nat)
    ensures var x := low + 0x100 * high; x % 0x100 == low && x / 0x100 == high
  {
  }

  lemma ByteByByte(x: nat)
    ensures x / 0x1_0000 == x / 0x100 / 0x100 && x / 0x100_0000 == x / 0x100 / 0x100 / 0x100
  {
  }

  lemma Le16Stored(b: seq<byte>, off: nat)
    requires off + 2 <= |b|
    ensures Le16(Le16At(b, off)) == b[off..off + 2]
  {
  }

  lemma Le16Loaded(b: seq<byte>, off: nat, x: uint16)
    requires off + 2 <= |b| && b[off..off + 2] == Le16(x)
    ensures Le16At(b, off) == x
  {
    var s := b[off..off + 2];
    assert b[off] == s[0] && b[off + 1] == s[1];
  }

  lemma Be16Stored(b: seq<byte>, off: nat)
    requires off + 2 <= |b|
    ensures Be16(Be16At(b, off)) == b[off..off + 2]
  {
  }

  lemma Be16Loaded(b: seq<byte>, off: nat, x: uint16)
    requires off + 2 <= |b| && b[off..off + 2] == Be16(x)
    ensures Be16At(b, off) == x
  {
    var s := b[off..off + 2];
    assert b[off] == s[0] && b[off + 1] == s[1];
  }

  /** `a` with `s` written over it at `off`. */
  function Splice(a: seq<byte>, off: nat, s: seq<byte>): (r: seq<byte>)
    requires off + |s| <= |a|
    ensures |r| == |a|
  {
    a[..off] + s + a[off + |s|..]
  }

  lemma SpliceNothing(a: seq<byte>, off: nat)
    requires off <= |a|
    ensures Splice(a, off, []) == a
  {
  }

  lemma SpliceNext(a: seq<byte>, off: nat, s: seq<byte>, t: seq<byte>)
    requires off + |s| + |t| <= |a|
    ensures Splice(Splice(a, off, s), off + |s|, t) == Splice(a, off, s + t)
  {
    var r := Splice(a, off, s);
    assert r[..off + |s|] == a[..off] + s;
    assert r[off + |s|..] == a[off + |s|..];
  }

  lemma SpliceAll(a: seq<byte>, s: seq<byte>)
    requires |s| == |a|
    ensures Splice(a, 0, s) == s
  {
  }

  lemma FrontSpliced(a: seq<byte>, s: seq<byte>)
    requires |s| <= |a|
    ensures Splice(a, 0, s)[..|s|] == s
  {
  }

  lemma SpliceFrom(a: seq<byte>, off: nat, s: seq<byte>)
    requires off + |s| <= |a|
    ensures Splice(a, off, s)[off..] == s + a[off + |s|..]
  {
  }

  /** `memcpy` into a caller's buffer. */
  method MemCopy(buf: array<byte>, off: nat, s: seq<byte>)
    requires off + |s| <= buf.Length
    modifies buf
    ensures forall i :: 0 <= i < buf.Length ==> buf[i] == if off <= i < off + |s| then s[i - off] else old(buf[i])
  {
    for k := 0 to |s|
      invariant forall i :: 0 <= i < buf.Length ==> buf[i] == if off <= i < off + k then s[i - off] else old(buf[i])
    {
      buf[off + k] := s[k];
    }
  }

  /** Stores `s` at `at`, where the bytes `done`, stored since `before`, end. */
  method Emit(buf: array<byte>, at: nat, s: seq<byte>, ghost off: nat, ghost before: seq<byte>, ghost done: seq<byte>)
    returns (ghost now: seq<byte>)
    requires at == off + |done| && at + |s| <= buf.Length == |before|
    requires buf[..] == Splice(before, off, done)
    modifies buf
    ensures now == if done == [] then s else done + s
    ensures buf[..] == Splice(before, off, now)
  {
    MemCopy(buf, at, s);
    now := if done == [] then s else done + s;
  }

  function Zeros(n: nat): (s: seq<byte>)
    ensures |s| == n && forall i :: 0 <= i < n ==> s[i] == 0
  {
    seq(n, _ => 0)
  }

  /** As much of `p` as a buffer of `cap` bytes takes. */
  function Truncated(p: seq<byte>, cap: nat): (r: seq<byte>)
    ensures |r| <= cap && |r| <= |p| && (|r| == cap || |r| == |p|)
    ensures r == p[..|r|]
  {
    if |p| <= cap then p else p[..cap]
  }
}
