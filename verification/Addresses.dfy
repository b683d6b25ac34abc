/** The address classes of pgen/core: raw bytes and a cached name that must always be their printed form. */
module Addresses {
  import opened Bytes
  import opened Exceptions

  // ----- printing

  function HexDigit(n: nibble): char {
    if n < 10 then ('0' as int + n) as char else ('a' as int + n - 10) as char
  }

  /** `%02x`. */
  function Hex2(b: byte): (s: string)
    ensures |s| == 2
  {
    [HexDigit(High4(b)), HexDigit(Low4(b))]
  }

  /** `%04x`. */
  function Hex4(w: uint16): (s: string)
    ensures |s| == 4
  {
    Hex2(w / 0x100) + Hex2(w % 0x100)
  }

  function DecDigit(n: nat): char
    requires n < 10
  {
    ('0' as int + n) as char
  }

  /** `%d` of a byte. */
  function Dec(b: byte): (s: string)
    ensures 1 <= |s| <= 3
  {
    if b < 10 then [DecDigit(b)]
    else if b < 100 then [DecDigit(b / 10), DecDigit(b % 10)]
    else [DecDigit(b / 100), DecDigit(b / 10 % 10), DecDigit(b % 10)]
  }

  const MAC_STRLENGTH := 17
  const IPV4_STRLENGTH := 15
  const IPV6_STRLENGTH := 39

  function MacName(raw: seq<byte>): (s: string)
    requires |raw| == 6
    ensures |s| == MAC_STRLENGTH
  {
    Hex2(raw[0]) + ":" + Hex2(raw[1]) + ":" + Hex2(raw[2]) + ":" + Hex2(raw[3]) + ":" + Hex2(raw[4]) + ":" + Hex2(raw[5])
  }

  function Ipv4Name(raw: seq<byte>): (s: string)
    requires |raw| == 4
    ensures |s| <= IPV4_STRLENGTH
  {
    Dec(raw[0]) + "." + (Dec(raw[1]) + "." + (Dec(raw[2]) + "." + Dec(raw[3])))
  }

  /** Each section is printed through `ntohs`. */
  function Ipv6Name(raw: seq<uint16>): (s: string)
    requires |raw| == 8
    ensures |s| == IPV6_STRLENGTH
  {
    Hex4(Swap16(raw[0])) + ":" + Hex4(Swap16(raw[1])) + ":" + Hex4(Swap16(raw[2])) + ":" + Hex4(Swap16(raw[3])) + ":"
    + Hex4(Swap16(raw[4])) + ":" + Hex4(Swap16(raw[5])) + ":" + Hex4(Swap16(raw[6])) + ":" + Hex4(Swap16(raw[7]))
  }

  // ----- what a name looks like

  const HEX_DIGITS := "0123456789abcdef"

  /** Two lower-case digits, the high one first. */
  lemma Hex2Digits(b: byte)
    ensures Hex2(b) == [HEX_DIGITS[b as int / 16], HEX_DIGITS[b as int % 16]]
  {
  }

  /** A number's decimal: its digits and no more. */
  predicate Canonical(s: string, n: nat) {
    && |s| > 0 && (forall k :: 0 <= k < |s| ==> '0' <= s[k] <= '9')
    && (|s| > 1 ==> s[0] != '0')
    && DecValue(s) == n
  }

  lemma DecCanonical(b: byte)
    ensures Canonical(Dec(b), b)
  {
  }

  /** An IPv4 name reads as the four octets from the first to the last, with a dot between each two. */
  lemma Ipv4NameParts(raw: seq<byte>) returns (i: nat, j: nat, k: nat)
    requires |raw| == 4
    ensures var s := Ipv4Name(raw);
            && i < j < k < |s| && s[i] == s[j] == s[k] == '.'
            && Canonical(s[..i], raw[0]) && Canonical(s[i + 1..j], raw[1])
            && Canonical(s[j + 1..k], raw[2]) && Canonical(s[k + 1..], raw[3])
  {
    hide Dec, Canonical;
    DecCanonical(raw[0]);
    DecCanonical(raw[1]);
    DecCanonical(raw[2]);
    DecCanonical(raw[3]);
    i, j, k := FourPieces(Ipv4Name(raw), Dec(raw[0]), Dec(raw[1]), Dec(raw[2]), Dec(raw[3]));
  }

  lemma FourPieces(s: string, a: string, b: string, c: string, d: string) returns (i: nat, j: nat, k: nat)
    requires s == a + "." + (b + "." + (c + "." + d))
    ensures i < j < k < |s| && s[i] == s[j] == s[k] == '.'
    ensures s[..i] == a && s[i + 1..j] == b && s[j + 1..k] == c && s[k + 1..] == d
  {
    i, j, k := |a|, |a| + 1 + |b|, |a| + 1 + |b| + 1 + |c|;
    assert s[0..] == s;
    Piece(s, 0, a, b + "." + (c + "." + d));
    Piece(s, i + 1, b, c + "." + d);
    Piece(s, j + 1, c, d);
  }

  lemma Piece(s: string, at: nat, a: string, x: string)
    requires at <= |s| && s[at..] == a + "." + x
    ensures var end := at + |a|; end < |s| && s[at..end] == a && s[end] == '.' && s[end + 1..] == x
  {
    var t := s[at..];
    assert t[..|a|] == a && t[|a|] == '.' && t[|a| + 1..] == x;
  }

  /** An IPv6 name has eight groups of four digits with colons between; each group is a section's two bytes as in memory. */
  lemma Ipv6NameParts(raw: seq<uint16>, k: nat)
    requires |raw| == 8 && k < 8
    ensures Ipv6Name(raw)[5 * k..5 * k + 2] == Hex2(Le16(raw[k])[0])
    ensures Ipv6Name(raw)[5 * k + 2..5 * k + 4] == Hex2(Le16(raw[k])[1])
    ensures k < 7 ==> Ipv6Name(raw)[5 * k + 4] == ':'
  {
    hide Hex2, Ipv6Name;
    Ipv6NameAt(raw, k);
    var s, w := Ipv6Name(raw), Swap16(raw[k]);
    assert s[5 * k..5 * k + 4][..2] == s[5 * k..5 * k + 2] && s[5 * k..5 * k + 4][2..] == s[5 * k + 2..5 * k + 4];
    assert Hex4(w)[..2] == Hex2(w / 0x100) && Hex4(w)[2..] == Hex2(w % 0x100);
  }

  lemma MacNameExample()
    ensures MacName([0, 0x1b, 0x2c, 0xd4, 0xe5, 0xff]) == "00:1b:2c:d4:e5:ff"
  {
    assert Hex2(0) == "00" && Hex2(0x1b) == "1b" && Hex2(0x2c) == "2c";
    assert Hex2(0xd4) == "d4" && Hex2(0xe5) == "e5" && Hex2(0xff) == "ff";
    hide Hex2;
  }

  lemma Ipv4NameExample()
    ensures Ipv4Name([192, 168, 0, 1]) == "192.168.0.1"
  {
    assert Dec(192) == "192" && Dec(168) == "168" && Dec(0) == "0" && Dec(1) == "1";
    hide Dec;
  }

  // ----- printing is injective

  lemma Hex2Injective(a: byte, b: byte)
    ensures Hex2(a) == Hex2(b) <==> a == b
  {
    hide Hex2, HexValue, IsHex;
    HexReadBack(a);
    HexReadBack(b);
  }

  lemma Hex4Injective(v: uint16, w: uint16)
    ensures Hex4(v) == Hex4(w) <==> v == w
  {
    hide Hex2;
    if Hex4(v) == Hex4(w) {
      assert Hex4(v)[..2] == Hex2(v / 0x100) && Hex4(v)[2..] == Hex2(v % 0x100);
      assert Hex4(w)[..2] == Hex2(w / 0x100) && Hex4(w)[2..] == Hex2(w % 0x100);
      Hex2Injective(v / 0x100, w / 0x100);
      Hex2Injective(v % 0x100, w % 0x100);
    }
  }

  lemma MacNameAt(raw: seq<byte>, k: nat)
    requires |raw| == 6 && k < 6
    ensures MacName(raw)[3 * k..3 * k + 2] == Hex2(raw[k])
    ensures k < 5 ==> MacName(raw)[3 * k + 2] == ':'
  {
    hide Hex2;
  }

  lemma MacNameInjective(a: seq<byte>, b: seq<byte>)
    requires |a| == |b| == 6
    ensures MacName(a) == MacName(b) <==> a == b
  {
    hide MacName, Hex2;
    if MacName(a) == MacName(b) {
      forall k | 0 <= k < 6 ensures a[k] == b[k] {
        MacNameAt(a, k);
        MacNameAt(b, k);
        Hex2Injective(a[k], b[k]);
      }
    }
  }

  lemma Ipv6NameAt(raw: seq<uint16>, k: nat)
    requires |raw| == 8 && k < 8
    ensures Ipv6Name(raw)[5 * k..5 * k + 4] == Hex4(Swap16(raw[k]))
    ensures k < 7 ==> Ipv6Name(raw)[5 * k + 4] == ':'
  {
    hide Hex4, Swap16;
  }

  lemma Ipv6NameInjective(a: seq<uint16>, b: seq<uint16>)
    requires |a| == |b| == 8
    ensures Ipv6Name(a) == Ipv6Name(b) <==> a == b
  {
    hide Ipv6Name, Hex4, Swap16;
    if Ipv6Name(a) == Ipv6Name(b) {
      forall k | 0 <= k < 8 ensures a[k] == b[k] {
        Ipv6NameAt(a, k);
        Ipv6NameAt(b, k);
        Hex4Injective(Swap16(a[k]), Swap16(b[k]));
        SwapTwice(a[k]);
        SwapTwice(b[k]);
      }
    }
  }

  /** What a decimal stands for. */
  function DecValue(s: string): int {
    if |s| == 1 then s[0] as int - '0' as int
    else if |s| == 2 then 10 * (s[0] as int - '0' as int) + (s[1] as int - '0' as int)
    else if |s| == 3 then
      100 * (s[0] as int - '0' as int) + 10 * (s[1] as int - '0' as int) + (s[2] as int - '0' as int)
    else 0
  }

  lemma DecReadBack(b: byte)
    ensures DecValue(Dec(b)) == b && '.' !in Dec(b)
  {
  }

  lemma DecInjective(a: byte, b: byte)
    ensures Dec(a) == Dec(b) <==> a == b
    ensures '.' !in Dec(a) && '.' !in Dec(b)
  {
    hide Dec, DecValue;
    DecReadBack(a);
    DecReadBack(b);
  }

  lemma NotShorter(a: string, x: string, b: string, y: string)
    requires '.' !in b && a + "." + x == b + "." + y
    ensures |a| >= |b|
  {
    var s := a + "." + x;
    assert s[|a|] == '.';
    assert forall i :: 0 <= i < |b| ==> (b + "." + y)[i] == b[i] && s[i] != '.';
  }

  /** The decimals have different widths; the dots still say where each ends. */
  lemma FirstDot(a: string, x: string, b: string, y: string)
    requires '.' !in a && '.' !in b && a + "." + x == b + "." + y
    ensures a == b && x == y
  {
    NotShorter(a, x, b, y);
    NotShorter(b, y, a, x);
    var s, t := a + "." + x, b + "." + y;
    assert s[..|a|] == a && t[..|b|] == b;
    assert s[|a| + 1..] == x && t[|b| + 1..] == y;
  }

  lemma Ipv4NameInjective(a: seq<byte>, b: seq<byte>)
    requires |a| == |b| == 4
    ensures Ipv4Name(a) == Ipv4Name(b) <==> a == b
  {
    hide Dec;
    if Ipv4Name(a) == Ipv4Name(b) {
      forall k | 0 <= k < 4 ensures '.' !in Dec(a[k]) && '.' !in Dec(b[k]) && (Dec(a[k]) == Dec(b[k]) ==> a[k] == b[k]) {
        DecInjective(a[k], b[k]);
      }
      var a1, b1 := Dec(a[2]) + "." + Dec(a[3]), Dec(b[2]) + "." + Dec(b[3]);
      FirstDot(Dec(a[0]), Dec(a[1]) + "." + a1, Dec(b[0]), Dec(b[1]) + "." + b1);
      FirstDot(Dec(a[1]), a1, Dec(b[1]), b1);
      FirstDot(Dec(a[2]), Dec(a[3]), Dec(b[2]), Dec(b[3]));
      assert a == b;
    }
  }

  // ----- parsing a MAC address in its printed form, in either case

  predicate IsHex(c: char) {
    '0' <= c <= '9' || 'a' <= c <= 'f' || 'A' <= c <= 'F'
  }

  function HexValue(c: char): nibble
    requires IsHex(c)
  {
    if '0' <= c <= '9' then c as int - '0' as int
    else if 'a' <= c <= 'f' then c as int - 'a' as int + 10
    else c as int - 'A' as int + 10
  }

  predicate PrintedMac(s: string) {
    && |s| == MAC_STRLENGTH
    && (forall k :: 0 <= k < 6 ==> IsHex(s[3 * k]) && IsHex(s[3 * k + 1]))
    && (forall k :: 0 <= k < 5 ==> s[3 * k + 2] == ':')
  }

  function OctetAt(s: string, k: nat): byte
    requires PrintedMac(s) && k < 6
  {
    0x10 * (HexValue(s[3 * k]) as int) + HexValue(s[3 * k + 1])
  }

  function ParsedMac(s: string): (raw: seq<byte>)
    requires PrintedMac(s)
    ensures |raw| == 6
  {
    seq(6, k requires 0 <= k < 6 => OctetAt(s, k))
  }

  /**
   * What `sscanf` may convert, up to the first mismatch. The C library decides; a string in
   * printed form it converts as that form says.
   */
  predicate Scans(s: string, scanned: seq<uint32>) {
    |scanned| <= 6 && (PrintedMac(s) ==> scanned == ParsedMac(s))
  }

  /** The numbers, each cut to a byte. */
  function Octets(scanned: seq<uint32>): (raw: seq<byte>)
    ensures |raw| == |scanned|
  {
    seq(|scanned|, k requires 0 <= k < |scanned| => scanned[k] % 0x100)
  }

  lemma OctetOf(scanned: seq<uint32>, k: nat)
    requires k < |scanned|
    ensures Octets(scanned)[k] == scanned[k] % 0x100
  {
  }

  lemma PrintedScanned(s: string, scanned: seq<uint32>)
    requires Scans(s, scanned)
    ensures PrintedMac(s) ==> |s| == MAC_STRLENGTH && Octets(scanned) == ParsedMac(s)
  {
    hide OctetAt;
    if PrintedMac(s) {
      assert forall k :: 0 <= k < 6 ==> scanned[k] == ParsedMac(s)[k];
    }
  }

  lemma HexReadBack(b: byte)
    ensures var s := Hex2(b);
            && IsHex(s[0]) && IsHex(s[1]) && HexValue(s[0]) == High4(b) && HexValue(s[1]) == Low4(b)
  {
  }

  /** `set_str` undoes printing. */
  lemma ParseAfterPrint(raw: seq<byte>)
    requires |raw| == 6
    ensures PrintedMac(MacName(raw)) && ParsedMac(MacName(raw)) == raw
  {
    hide MacName, Hex2, IsHex, HexValue;
    var s := MacName(raw);
    forall k | 0 <= k < 6
      ensures IsHex(s[3 * k]) && IsHex(s[3 * k + 1])
      ensures HexValue(s[3 * k]) == High4(raw[k]) && HexValue(s[3 * k + 1]) == Low4(raw[k])
      ensures k < 5 ==> s[3 * k + 2] == ':'
    {
      MacNameAt(raw, k);
      HexReadBack(raw[k]);
      assert s[3 * k..3 * k + 2][0] == s[3 * k] && s[3 * k..3 * k + 2][1] == s[3 * k + 1];
    }
    assert PrintedMac(s);
    assert forall k :: 0 <= k < 6 ==> OctetAt(s, k) == raw[k];
  }

  /** The digits are read in either case, and nothing else is one. */
  lemma HexValues(c: char)
    ensures IsHex(c) <==> c in "0123456789abcdefABCDEF"
    ensures forall k :: 0 <= k < 16 ==> IsHex(HEX_DIGITS[k]) && HexValue(HEX_DIGITS[k]) == k
    ensures forall k :: 0 <= k < 6 ==> IsHex("ABCDEF"[k]) && HexValue("ABCDEF"[k]) == 10 + k
  {
    CharAt(c);
  }

  lemma CharAt(c: char)
    ensures c in "0123456789abcdefABCDEF" <==> '0' <= c <= '9' || 'a' <= c <= 'f' || 'A' <= c <= 'F'
  {
    var s := "0123456789abcdefABCDEF";
    if '0' <= c <= '9' {
      assert s[c as int - '0' as int] == c;
    } else if 'a' <= c <= 'f' {
      assert s[c as int - 'a' as int + 10] == c;
    } else if 'A' <= c <= 'F' {
      assert s[c as int - 'A' as int + 16] == c;
    }
  }

  // ----- the classes

  class MacAddress {
    const raw: array<byte>
    var name: string

    /** The cached name is the printed form of the raw bytes. */
    ghost predicate Valid()
      reads this, raw
    {
      raw.Length == 6 && name == MacName(raw[..])
    }

    constructor ()
      ensures Valid() && fresh(raw) && raw[..] == Zeros(6)
    {
      raw := new byte[6](_ => 0);
      name := MacName(Zeros(6));
      new;
      assert raw[..] == Zeros(6);
    }

    /** The members as the C++ leaves them before a constructor's body runs: no bytes set, an empty name. */
    constructor Unset()
      ensures fresh(raw) && raw.Length == 6
    {
      raw, name := new byte[6], "";
    }

    /** The copy constructor assigns to the unset object. */
    constructor Copy(rhs: MacAddress)
      requires rhs.Valid()
      ensures Valid() && fresh(raw) && raw[..] == rhs.raw[..] && name == rhs.name
    {
      raw, name := new byte[6], "";
      new;
      Assign(rhs);
    }

    method UpdateName()
      requires raw.Length == 6
      modifies this
      ensures Valid() && raw[..] == old(raw[..])
    {
      name := MacName(raw[..]);
    }

    method SetOctet(index: int, octet: byte) returns (o: Outcome)
      requires Valid()
      modifies this, raw
      ensures Valid()
      ensures o.Pass? <==> 1 <= index <= 6
      ensures raw[..] == if o.Pass? then old(raw[..])[index - 1 := octet] else old(raw[..])
    {
      if index < 1 || 6 < index {
        return Fail(BadIndex);
      }
      raw[index - 1] := octet;
      UpdateName();
      return Pass;
    }

    /** The octet that stands at its place in the name. */
    method GetOctet(index: int) returns (r: Result<byte>)
      requires Valid()
      ensures r.Ok? <==> 1 <= index <= 6
      ensures r.Err? ==> r.error == BadIndex
      ensures r.Ok? ==> PrintedMac(name) && r.value == ParsedMac(name)[index - 1]
      ensures r.Ok? ==> name[3 * index - 3..3 * index - 1] == Hex2(r.value)
    {
      hide MacName, Hex2, PrintedMac;
      ParseAfterPrint(raw[..]);
      if index < 1 || 6 < index {
        return Err(BadIndex);
      }
      MacNameAt(raw[..], index - 1);
      return Ok(raw[index - 1]);
    }

    method SetByArray(a: seq<byte>)
      requires raw.Length == 6 && |a| == 6
      modifies this, raw
      ensures Valid() && raw[..] == a
    {
      MemCopy(raw, 0, a);
      UpdateName();
      assert raw[..] == a;
    }

    /** `scanned` are the numbers `sscanf` converts; each is cut to a byte when it is stored. */
    method SetStr(s: string, scanned: seq<uint32>) returns (o: Outcome)
      requires raw.Length == 6 && Scans(s, scanned)
      modifies this, raw
      ensures o.Pass? || old(Valid()) ==> Valid()
      ensures o.Pass? <==> |s| == MAC_STRLENGTH && |scanned| == 6
      ensures o.Pass? ==> raw[..] == Octets(scanned)
      ensures PrintedMac(s) ==> o.Pass? && raw[..] == ParsedMac(s)
      ensures o.Fail? ==> raw[..] == old(raw[..]) && name == old(name)
    {
      hide PrintedMac, ParsedMac, Octets, Scans;
      PrintedScanned(s, scanned);
      if |s| != MAC_STRLENGTH {
        return Fail(FormatError);
      }
      var n := |scanned|;
      if n != 6 {
        return Fail(FormatError);
      }
      for i := 0 to 6
        invariant raw[..i] == Octets(scanned)[..i]
      {
        OctetOf(scanned, i);
        raw[i] := scanned[i] % 0x100;
      }
      UpdateName();
      assert raw[..] == Octets(scanned);
      return Pass;
    }

    /** The constructor from a string; when it throws there is no object. */
    static method FromStr(s: string, scanned: seq<uint32>) returns (r: Result<MacAddress>)
      requires Scans(s, scanned)
      ensures r.Ok? <==> |s| == MAC_STRLENGTH && |scanned| == 6
      ensures r.Ok? ==> fresh(r.value) && r.value.Valid() && r.value.raw[..] == Octets(scanned)
      ensures PrintedMac(s) ==> r.Ok? && r.value.raw[..] == ParsedMac(s)
    {
      var m := new MacAddress.Unset();
      var o := m.SetStr(s, scanned);
      if o.Fail? {
        return Err(o.error);
      }
      return Ok(m);
    }

    method Assign(rhs: MacAddress)
      requires raw.Length == 6 && rhs.Valid()
      modifies this, raw
      ensures Valid() && raw[..] == old(rhs.raw[..]) && name == old(rhs.name)
    {
      hide MacName, Ipv4Name;
      MemCopy(raw, 0, rhs.raw[..]);
      assert raw[..] == old(rhs.raw[..]);
      name := rhs.name;
    }

    /** `==` compares the raw bytes; the names agree with it. */
    method Equals(rhs: MacAddress) returns (b: bool)
      requires Valid() && rhs.Valid()
      ensures b <==> raw[..] == rhs.raw[..]
      ensures b <==> name == rhs.name
    {
      MacNameInjective(raw[..], rhs.raw[..]);
      b := raw[..] == rhs.raw[..];
    }
  }

  class Ipv4Address {
    const raw: array<byte>
    var name: string

    ghost predicate Valid()
      reads this, raw
    {
      raw.Length == 4 && name == Ipv4Name(raw[..])
    }

    constructor ()
      ensures Valid() && fresh(raw) && raw[..] == Zeros(4)
    {
      raw := new byte[4](_ => 0);
      name := Ipv4Name(Zeros(4));
      new;
      assert raw[..] == Zeros(4);
    }

    /** The members as the C++ leaves them before a constructor's body runs: no bytes set, an empty name. */
    constructor Unset()
      ensures fresh(raw) && raw.Length == 4
    {
      raw, name := new byte[4], "";
    }

    /** The copy constructor assigns to the unset object. */
    constructor Copy(rhs: Ipv4Address)
      requires rhs.Valid()
      ensures Valid() && fresh(raw) && raw[..] == rhs.raw[..] && name == rhs.name
    {
      raw, name := new byte[4], "";
      new;
      Assign(rhs);
    }

    method UpdateName()
      requires raw.Length == 4
      modifies this
      ensures Valid() && raw[..] == old(raw[..])
    {
      name := Ipv4Name(raw[..]);
    }

    method SetOctet(index: int, octet: byte) returns (o: Outcome)
      requires Valid()
      modifies this, raw
      ensures Valid()
      ensures o.Pass? <==> 1 <= index <= 4
      ensures raw[..] == if o.Pass? then old(raw[..])[index - 1 := octet] else old(raw[..])
    {
      if index < 1 || 4 < index {
        return Fail(BadIndex);
      }
      raw[index - 1] := octet;
      UpdateName();
      return Pass;
    }

    method SetByArray(a: seq<byte>)
      requires raw.Length == 4 && |a| == 4
      modifies this, raw
      ensures Valid() && raw[..] == a
    {
      MemCopy(raw, 0, a);
      UpdateName();
      assert raw[..] == a;
    }

    method Assign(rhs: Ipv4Address)
      requires raw.Length == 4 && rhs.Valid()
      modifies this, raw
      ensures Valid() && raw[..] == old(rhs.raw[..]) && name == old(rhs.name)
    {
      hide MacName, Ipv4Name;
      MemCopy(raw, 0, rhs.raw[..]);
      assert raw[..] == old(rhs.raw[..]);
      name := rhs.name;
    }

    method Equals(rhs: Ipv4Address) returns (b: bool)
      requires Valid() && rhs.Valid()
      ensures b <==> raw[..] == rhs.raw[..]
      ensures b <==> name == rhs.name
    {
      Ipv4NameInjective(raw[..], rhs.raw[..]);
      b := raw[..] == rhs.raw[..];
    }
  }

  class Ipv6Address {
    const raw: array<uint16>
    var name: string

    ghost predicate Valid()
      reads this, raw
    {
      raw.Length == 8 && name == Ipv6Name(raw[..])
    }

    constructor ()
      ensures Valid() && fresh(raw) && forall k :: 0 <= k < 8 ==> raw[k] == 0
    {
      raw := new uint16[8](_ => 0);
      name := "";
      new;
      UpdateName();
    }

    /** The members as the C++ leaves them before a constructor's body runs: no bytes set, an empty name. */
    constructor Unset()
      ensures fresh(raw) && raw.Length == 8
    {
      raw, name := new uint16[8], "";
    }

    /** The copy constructor assigns to the unset object. */
    constructor Copy(rhs: Ipv6Address)
      requires rhs.Valid()
      ensures Valid() && fresh(raw) && raw[..] == rhs.raw[..] && name == rhs.name
    {
      raw, name := new uint16[8], "";
      new;
      Assign(rhs);
    }

    method UpdateName()
      requires raw.Length == 8
      modifies this
      ensures Valid() && raw[..] == old(raw[..])
    {
      name := Ipv6Name(raw[..]);
    }

    /** The section is stored as given, without `htons`. */
    method SetSection(index: int, num: uint16) returns (o: Outcome)
      requires Valid()
      modifies this, raw
      ensures Valid()
      ensures o.Pass? <==> 1 <= index <= 8
      ensures raw[..] == if o.Pass? then old(raw[..])[index - 1 := num] else old(raw[..])
    {
      if index < 1 || 8 < index {
        return Fail(BadIndex);
      }
      raw[index - 1] := num;
      UpdateName();
      return Pass;
    }

    method SetByArray(a: seq<uint16>)
      requires raw.Length == 8 && |a| == 8
      modifies this, raw
      ensures Valid() && raw[..] == a
    {
      hide Ipv6Name;
      for i := 0 to 8
        invariant forall k :: 0 <= k < i ==> raw[k] == a[k]
      {
        raw[i] := a[i];
      }
      UpdateName();
      assert raw[..] == a;
    }

    method Assign(rhs: Ipv6Address)
      requires raw.Length == 8 && rhs.Valid()
      modifies this, raw
      ensures Valid() && raw[..] == old(rhs.raw[..]) && name == old(rhs.name)
    {
      hide Ipv6Name;
      name := rhs.name;
      for i := 0 to 8
        invariant name == old(rhs.name)
        invariant forall k :: 0 <= k < 8 ==> rhs.raw[k] == old(rhs.raw[k])
        invariant forall k :: 0 <= k < i ==> raw[k] == old(rhs.raw[k])
      {
        raw[i] := rhs.raw[i];
      }
      assert raw[..] == old(rhs.raw[..]);
    }

    method Equals(rhs: Ipv6Address) returns (b: bool)
      requires Valid() && rhs.Valid()
      ensures b <==> raw[..] == rhs.raw[..]
      ensures b <==> name == rhs.name
    {
      Ipv6NameInjective(raw[..], rhs.raw[..]);
      b := raw[..] == rhs.raw[..];
    }
  }
}
