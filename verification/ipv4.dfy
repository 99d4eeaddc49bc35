/**
 * The part of Python's `ipaddress` module the scanner relies on, for IPv4: dotted-quad
 * text to address and back (`IPv4Address`), the prefix or mask after the `/`
 * (`_make_netmask`, which accepts a prefix length, a netmask or a host mask), and
 * `ip_network(text, strict=False)`, which clears the host bits of the address (the network
 * address of RFC 4632, section 3.1) and prints as `address/prefix`.
 *
 * Octet texts follow Python 3.9.5 and later: at most three ASCII digits and no leading zero.
 */
module Ipv4 {
  import opened Wrappers
  import opened Strings

  type Octet = x: int | 0 <= x < 256
  type Prefix = p: int | 0 <= p <= 32

  /** An IPv4 address as its four octets, most significant first. */
  datatype Addr = Addr(o0: Octet, o1: Octet, o2: Octet, o3: Octet)

  function Pow2(n: nat): (r: nat)
    ensures r >= 1
  {
    if n == 0 then 1 else 2 * Pow2(n - 1)
  }

  const Space: nat := 0x1_0000_0000
  const AllOnes: nat := 0xFFFF_FFFF

  /** `int(address)`. */
  function ToInt(a: Addr): (v: nat)
    ensures v < Space
  {
    a.o0 * 0x100_0000 + a.o1 * 0x1_0000 + a.o2 * 0x100 + a.o3
  }

  /** `IPv4Address(v)` for an integer in range. */
  function FromInt(v: nat): Addr
    requires v < Space
  {
    var q1 := v / 0x100;
    var q2 := q1 / 0x100;
    Addr(q2 / 0x100, q2 % 0x100, q1 % 0x100, v % 0x100)
  }

  lemma IntRoundTrip(v: nat)
    requires v < Space
    ensures ToInt(FromInt(v)) == v
  {
    var q1 := v / 0x100;
    var q2 := q1 / 0x100;
    assert v == q1 * 0x100 + v % 0x100;
    assert q1 == q2 * 0x100 + q1 % 0x100;
    assert q2 == (q2 / 0x100) * 0x100 + q2 % 0x100;
  }

  lemma AddrRoundTrip(a: Addr)
    ensures FromInt(ToInt(a)) == a
  {
    var v := ToInt(a);
    var low := a.o1 * 0x1_0000 + a.o2 * 0x100 + a.o3;
    var q1 := a.o0 * 0x1_0000 + a.o1 * 0x100 + a.o2;
    var q2 := a.o0 * 0x100 + a.o1;
    assert v == q1 * 0x100 + a.o3;
    assert v / 0x100 == q1;
    assert q1 == q2 * 0x100 + a.o2;
    assert q1 / 0x100 == q2;
  }

  // ---------------------------------------------------------------------------------
  // Text

  /** `_parse_octet`. */
  function ParseOctet(s: string): (r: Option<Octet>)
    ensures r.Some? ==> s == NatToDecimal(r.value)
  {
    if s == [] || !AllDigits(s) || |s| > 3 || (s != "0" && s[0] == '0') then None
    else if DecimalValue(s) > 255 then None
    else
      CanonicalDecimal(s);
      Some(DecimalValue(s))
  }

  /** `_ip_int_from_string`: four dot-separated octets. */
  function ParseAddr(s: string): Option<Addr> {
    if s == [] then None
    else
      var parts := SplitOn(s, '.');
      if |parts| != 4 then None
      else
        match (ParseOctet(parts[0]), ParseOctet(parts[1]), ParseOctet(parts[2]), ParseOctet(parts[3]))
        case (Some(a), Some(b), Some(c), Some(d)) => Some(Addr(a, b, c, d))
        case _ => None
  }

  function OctetTexts(a: Addr): seq<string> {
    [NatToDecimal(a.o0), NatToDecimal(a.o1), NatToDecimal(a.o2), NatToDecimal(a.o3)]
  }

  /** `str(address)`: `'.'.join(map(str, octets))`. */
  function FormatAddr(a: Addr): string {
    Join(OctetTexts(a), ".")
  }

  lemma OctetRoundTrip(o: Octet)
    ensures ParseOctet(NatToDecimal(o)) == Some(o)
  {
    DecimalRoundTrip(o);
    DecimalLength(o);
  }

  lemma DecimalHasNo(n: nat, c: char)
    requires !IsDigit(c)
    ensures c !in NatToDecimal(n)
  {
    DecimalRoundTrip(n);
  }

  /** The printed form of an address reads back as that address. */
  lemma FormatParse(a: Addr)
    ensures ParseAddr(FormatAddr(a)) == Some(a)
  {
    var t := OctetTexts(a);
    forall k | 0 <= k < 4
      ensures '.' !in t[k]
    {
      DecimalHasNo([a.o0, a.o1, a.o2, a.o3][k], '.');
    }
    JoinSplit(t, '.');
    DecimalRoundTrip(a.o0);
    OctetRoundTrip(a.o0);
    OctetRoundTrip(a.o1);
    OctetRoundTrip(a.o2);
    OctetRoundTrip(a.o3);
  }

  /** An accepted text is the printed form of its address: there is one way to write each address. */
  lemma ParseFormat(s: string)
    requires ParseAddr(s).Some?
    ensures FormatAddr(ParseAddr(s).value) == s
  {
    var parts := SplitOn(s, '.');
    SplitJoin(s, '.');
    assert OctetTexts(ParseAddr(s).value) == parts;
  }

  /** The printed form of an address, written out. */
  lemma FormatShape(a: Addr)
    ensures FormatAddr(a) == NatToDecimal(a.o0) + "." + NatToDecimal(a.o1) + "." + NatToDecimal(a.o2) + "." + NatToDecimal(a.o3)
  {
    var t := OctetTexts(a);
    assert t[1..][1..] == t[2..] && t[2..][1..] == t[3..];
    JoinCons(t[2], t[3..], ".");
    JoinCons(t[1], t[2..], ".");
    JoinCons(t[0], t[1..], ".");
    assert [t[0]] + t[1..] == t;
  }

  lemma DecimalChars(n: nat)
    ensures forall c :: c in NatToDecimal(n) ==> IsDigit(c)
  {
    DecimalRoundTrip(n);
  }

  /** The printed form of an address consists of digits and dots. */
  lemma FormatChars(a: Addr)
    ensures forall c :: c in FormatAddr(a) ==> IsDigit(c) || c == '.'
    ensures '.' in FormatAddr(a)
  {
    FormatShape(a);
    DecimalChars(a.o0);
    DecimalChars(a.o1);
    DecimalChars(a.o2);
    DecimalChars(a.o3);
  }

  lemma Decimal127()
    ensures NatToDecimal(127) == "127"
  {
    assert NatToDecimal(1) == "1";
    assert NatToDecimal(12) == "12";
  }

  /** The printed form of an address whose first octet is 127 begins with `127.`. */
  lemma LoopbackFormat(a: Addr)
    requires a.o0 == 127
    ensures StartsWith(FormatAddr(a), "127.")
  {
    FormatShape(a);
    Decimal127();
    var rest := NatToDecimal(a.o1) + "." + NatToDecimal(a.o2) + "." + NatToDecimal(a.o3);
    assert FormatAddr(a) == "127" + "." + rest;
    assert FormatAddr(a)[..4] == "127.";
  }

  /** An accepted address text whose first octet is 127 begins with `127.`. */
  lemma LoopbackText(s: string)
    requires ParseAddr(s).Some? && ParseAddr(s).value.o0 == 127
    ensures StartsWith(s, "127.")
  {
    ParseFormat(s);
    LoopbackFormat(ParseAddr(s).value);
  }

  // ---------------------------------------------------------------------------------
  // Masks

  /** `_count_righthand_zero_bits(m, 32)` before the `min`. */
  function TrailingZeros(m: nat): nat
    decreases m
  {
    if m == 0 then 0 else if m % 2 == 1 then 0 else 1 + TrailingZeros(m / 2)
  }

  /** `m` with its trailing zero bits shifted out. */
  function OddPart(m: nat): nat
    decreases m
  {
    if m == 0 || m % 2 == 1 then m else OddPart(m / 2)
  }

  /** `_prefix_from_ip_int`: the prefix of a netmask given as an integer; `None` (`ValueError`) otherwise. */
  function PrefixFromInt(m: nat): Option<Prefix>
    requires m < Space
  {
    var tz := if m == 0 then 32 else Min(32, TrailingZeros(m));
    var prefixlen := 32 - tz;
    var leadingOnes := m / Pow2(tz);
    if leadingOnes != Pow2(prefixlen) - 1 then None else Some(prefixlen)
  }

  function Min(a: nat, b: nat): nat {
    if a <= b then a else b
  }

  /** The netmask of prefix `p`: `p` one bits followed by zeros. */
  function MaskInt(p: Prefix): (m: nat)
    ensures m < Space
  {
    Pow2Monotone(32 - p, 32);
    Pow2Is32();
    Pow2(32) - Pow2(32 - p)
  }

  lemma {:induction false} Pow2Add(a: nat, b: nat)
    ensures Pow2(a) * Pow2(b) == Pow2(a + b)
    decreases a
  {
    if a > 0 {
      Pow2Add(a - 1, b);
    }
  }

  lemma {:induction false} Pow2Monotone(a: nat, b: nat)
    requires a <= b
    ensures Pow2(a) <= Pow2(b)
    decreases b
  {
    if a < b {
      Pow2Monotone(a, b - 1);
    }
  }

  lemma Pow2Is32()
    ensures Pow2(32) == Space
  {
    assert Pow2(8) == 256;
    assert Pow2(16) == 256 * 256 by {
      Pow2Add(8, 8);
    }
    Pow2Add(16, 16);
  }

  /** A positive whole multiple of `d` is at least `d`. */
  lemma {:induction false} MulAtLeast(x: nat, d: nat)
    requires x >= 1
    ensures x * d >= d
    decreases x
  {
    if x > 1 {
      MulAtLeast(x - 1, d);
      assert x * d == (x - 1) * d + d;
    }
  }

  /** Division is determined by a quotient and a remainder in range. */
  lemma DivModUnique(v: int, d: nat, q: int, r: int)
    requires d >= 1 && 0 <= r < d && v == q * d + r
    ensures v / d == q && v % d == r
  {
    var q', r' := v / d, v % d;
    assert q * d + r == q' * d + r';
    if q > q' {
      MulAtLeast(q - q', d);
      MulSub(q, q', d);
    } else if q < q' {
      MulAtLeast(q' - q, d);
      MulSub(q', q, d);
    }
  }

  lemma MulSub(a: int, b: int, d: int)
    ensures (a - b) * d == a * d - b * d
  {
  }

  lemma DivOfMultiple(l: nat, p: nat)
    requires p >= 1
    ensures (l * p) / p == l
  {
    DivModUnique(l * p, p, l, 0);
  }

  lemma MulTwo(a: int, b: int)
    ensures a * (2 * b) == 2 * (a * b)
  {
  }

  /** A positive number is its odd part times two to the number of trailing zeros. */
  lemma {:induction false} OddPartSplit(m: nat)
    requires m > 0
    ensures OddPart(m) % 2 == 1
    ensures m == OddPart(m) * Pow2(TrailingZeros(m))
    decreases m
  {
    if m % 2 == 0 {
      var h := m / 2;
      OddPartSplit(h);
      var o := OddPart(h);
      var k := TrailingZeros(h);
      assert OddPart(m) == o && TrailingZeros(m) == k + 1;
      assert Pow2(k + 1) == 2 * Pow2(k);
      MulTwo(o, Pow2(k));
    }
  }

  /** An odd number times two to the `k` has `k` trailing zeros and is that odd number shifted. */
  lemma {:induction false} TrailingZerosOf(l: nat, k: nat)
    requires l % 2 == 1
    ensures TrailingZeros(l * Pow2(k)) == k
    ensures OddPart(l * Pow2(k)) == l
    decreases k
  {
    if k > 0 {
      TrailingZerosOf(l, k - 1);
      var x := l * Pow2(k - 1);
      assert Pow2(k) == 2 * Pow2(k - 1);
      MulTwo(l, Pow2(k - 1));
      var m := l * Pow2(k);
      assert m == 2 * x;
      MulAtLeast(l, Pow2(k - 1));
      assert m % 2 == 0 && m / 2 == x && m != 0;
    }
  }

  /** A positive 32-bit number has fewer than 32 trailing zeros. */
  lemma TrailingZerosBound(m: nat)
    requires 0 < m < Space
    ensures TrailingZeros(m) < 32
  {
    OddPartSplit(m);
    var tz := TrailingZeros(m);
    assert Pow2(tz) <= m by {
      assert OddPart(m) >= 1;
      assert OddPart(m) * Pow2(tz) >= Pow2(tz);
    }
    if tz >= 32 {
      Pow2Monotone(32, tz);
      Pow2Is32();
    }
  }

  /** The netmask of `p` is `p` one bits shifted left past `32 - p` zeros. */
  lemma MaskFactor(p: Prefix)
    ensures MaskInt(p) == (Pow2(p) - 1) * Pow2(32 - p)
  {
    Pow2Is32();
    Pow2Add(p, 32 - p);
    MulSub(Pow2(p), 1, Pow2(32 - p));
  }

  /** An odd number of leading ones shifted left by `k` is accepted with prefix `32 - k`. */
  lemma ShiftedOnesAccepted(l: nat, k: nat)
    requires k <= 32 && l % 2 == 1 && l == Pow2(32 - k) - 1
    requires l * Pow2(k) < Space
    ensures PrefixFromInt(l * Pow2(k)) == Some(32 - k)
  {
    var m := l * Pow2(k);
    MulAtLeast(l, Pow2(k));
    TrailingZerosOf(l, k);
    DivOfMultiple(l, Pow2(k));
    assert m != 0 && TrailingZeros(m) == k && m / Pow2(k) == l;
  }

  /** Every netmask is accepted, with its own prefix. */
  lemma MaskAccepted(p: Prefix)
    ensures PrefixFromInt(MaskInt(p)) == Some(p)
  {
    MaskFactor(p);
    if p == 0 {
      ZeroAccepted();
    } else {
      OnesOdd(p);
      ShiftedOnesAccepted(Pow2(p) - 1, 32 - p);
      assert 32 - (32 - p) == p;
    }
  }

  /** A positive number of one bits is odd. */
  lemma OnesOdd(n: nat)
    requires n >= 1
    ensures Pow2(n) >= 2 && (Pow2(n) - 1) % 2 == 1
  {
    assert Pow2(n) == 2 * Pow2(n - 1);
    OddBelowEven(Pow2(n - 1));
  }

  lemma OddBelowEven(x: int)
    ensures (2 * x - 1) % 2 == 1
  {
  }

  /** The all-zero mask is the netmask of /0. */
  lemma ZeroAccepted()
    ensures PrefixFromInt(0) == Some(0)
  {
    Pow2Is32();
  }

  /** Only netmasks are accepted. */
  lemma AcceptedIsMask(m: nat, p: Prefix)
    requires m < Space && PrefixFromInt(m) == Some(p)
    ensures m == MaskInt(p)
  {
    MaskFactor(p);
    if m > 0 {
      var tz := TrailingZeros(m);
      var o := OddPart(m);
      TrailingZerosBound(m);
      OddPartSplit(m);
      DivOfMultiple(o, Pow2(tz));
      assert m / Pow2(tz) == o && p == 32 - tz;
      assert o == Pow2(p) - 1;
    }
  }

  /** A mask is accepted exactly when it is the netmask of its prefix. */
  lemma PrefixFromIntSpec(m: nat, p: Prefix)
    requires m < Space
    ensures PrefixFromInt(m) == Some(p) <==> m == MaskInt(p)
  {
    if m == MaskInt(p) {
      MaskAccepted(p);
    }
    if PrefixFromInt(m) == Some(p) {
      AcceptedIsMask(m, p);
    }
  }

  /** `_make_netmask` for the text after the `/`: a prefix length, else a netmask or a host mask. */
  function ParsePrefix(s: string): Option<Prefix> {
    if s != [] && AllDigits(s) && DecimalValue(s) <= 32 then Some(DecimalValue(s))
    else
      match ParseAddr(s)
      case None => None
      case Some(a) =>
        var v := ToInt(a);
        match PrefixFromInt(v)
        case Some(p) => Some(p)
        case None => PrefixFromInt(AllOnes - v)
  }

  /** The printed prefix length reads back. */
  lemma PrefixTextRoundTrip(p: Prefix)
    ensures ParsePrefix(NatToDecimal(p)) == Some(p)
  {
    DecimalRoundTrip(p);
  }

  /** A printed address is not a bare number, so `ParsePrefix` reads it as a mask. */
  lemma AddrTextAsMask(a: Addr)
    ensures ParsePrefix(FormatAddr(a)) ==
      match PrefixFromInt(ToInt(a))
      case Some(p) => Some(p)
      case None => PrefixFromInt(AllOnes - ToInt(a))
  {
    FormatParse(a);
    FormatChars(a);
    assert !AllDigits(FormatAddr(a));
  }

  /** A netmask in dotted-quad form gives its prefix length. */
  lemma NetmaskText(p: Prefix)
    ensures ParsePrefix(FormatAddr(FromInt(MaskInt(p)))) == Some(p)
  {
    AddrTextAsMask(FromInt(MaskInt(p)));
    IntRoundTrip(MaskInt(p));
    MaskAccepted(p);
  }

  /**
   * A host mask in dotted-quad form gives the prefix it complements, except that the host
   * masks of /0 and /32 read as the netmasks of /32 and /0.
   */
  lemma HostmaskText(p: Prefix)
    requires 0 < p < 32
    ensures ParsePrefix(FormatAddr(FromInt(AllOnes - MaskInt(p)))) == Some(p)
  {
    var h := AllOnes - MaskInt(p);
    AddrTextAsMask(FromInt(h));
    IntRoundTrip(h);
    HostmaskRejected(p);
    MaskAccepted(p);
  }

  /** A host mask of a prefix strictly between 0 and 32 is not a netmask. */
  lemma HostmaskRejected(p: Prefix)
    requires 0 < p < 32
    ensures PrefixFromInt(AllOnes - MaskInt(p)) == None
  {
    var h := AllOnes - MaskInt(p);
    Pow2Is32();
    Pow2Monotone(1, 32 - p);
    Pow2Monotone(32 - p, 31);
    assert h == Pow2(32 - p) - 1;
    assert h % 2 == 1 by {
      assert Pow2(32 - p) == 2 * Pow2(31 - p);
    }
    assert Pow2(32) == 2 * Pow2(31);
  }

  // ---------------------------------------------------------------------------------
  // Networks

  datatype Network = Network(addr: Addr, prefix: Prefix)

  /** How many leading bits of octet `k` (0..3) lie inside a prefix of length `p`. */
  function Kept(p: Prefix, k: nat): (r: nat)
    ensures r <= 8
  {
    if p <= 8 * k then 0 else if p >= 8 * k + 8 then 8 else p - 8 * k
  }

  /** The number of values the host bits of an octet span when its `kept` leading bits are kept: 2^(8 - kept). */
  function Block(kept: nat): (d: nat)
    requires kept <= 8
    ensures d >= 1
  {
    match kept
    case 8 => 1
    case 7 => 2
    case 6 => 4
    case 5 => 8
    case 4 => 16
    case 3 => 32
    case 2 => 64
    case 1 => 128
    case _ => 256
  }

  /** `o & mask` for an octet whose mask keeps its `kept` leading bits. */
  function MaskOctet(o: Octet, kept: nat): (r: Octet)
    requires kept <= 8
  {
    MaskOctetFacts(o, kept);
    o - o % Block(kept)
  }

  /** The masked octet is the start of the block of host values that holds `o`. */
  lemma MaskOctetFacts(o: Octet, kept: nat)
    requires kept <= 8
    ensures var r := o - o % Block(kept);
      && 0 <= r <= o < r + Block(kept) <= 256
      && r % Block(kept) == 0
      && (kept < 8 ==> r % 2 == 0)
  {
    if kept == 0 {
    } else if kept == 1 {
    } else if kept == 2 {
    } else if kept == 3 {
    } else if kept == 4 {
    } else if kept == 5 {
    } else if kept == 6 {
    } else if kept == 7 {
    }
  }

  /** `address & netmask`, octet by octet: the host bits cleared. */
  function Normalize(a: Addr, p: Prefix): Addr {
    Addr(MaskOctet(a.o0, Kept(p, 0)), MaskOctet(a.o1, Kept(p, 1)),
         MaskOctet(a.o2, Kept(p, 2)), MaskOctet(a.o3, Kept(p, 3)))
  }

  /** The address of a network value is its own network address. */
  predicate IsNetwork(n: Network) {
    Normalize(n.addr, n.prefix) == n.addr
  }

  /** `ip_network(text, strict=False)`. */
  function ParseNetwork(text: string): (r: Option<Network>)
    ensures r.Some? ==> IsNetwork(r.value)
  {
    var parts := SplitOn(text, '/');
    if |parts| > 2 then None
    else
      var prefix := if |parts| == 2 then ParsePrefix(parts[1]) else Some(32);
      match (ParseAddr(parts[0]), prefix)
      case (Some(a), Some(p)) =>
        NormalizeIdempotent(a, p);
        Some(Network(Normalize(a, p), p))
      case _ => None
  }

  /** `str(network)`. */
  function FormatNetwork(n: Network): string {
    FormatAddr(n.addr) + "/" + NatToDecimal(n.prefix)
  }

  lemma MaskOctetIdempotent(o: Octet, kept: nat)
    requires kept <= 8
    ensures MaskOctet(MaskOctet(o, kept), kept) == MaskOctet(o, kept)
  {
    MaskOctetFacts(o, kept);
  }

  /** Clearing the host bits twice is clearing them once. */
  lemma NormalizeIdempotent(a: Addr, p: Prefix)
    ensures Normalize(Normalize(a, p), p) == Normalize(a, p)
  {
    MaskOctetIdempotent(a.o0, Kept(p, 0));
    MaskOctetIdempotent(a.o1, Kept(p, 1));
    MaskOctetIdempotent(a.o2, Kept(p, 2));
    MaskOctetIdempotent(a.o3, Kept(p, 3));
  }

  /** The octets inside the prefix are kept and the octets past it are zero. */
  lemma NormalizeOctets(a: Addr, p: Prefix)
    ensures p >= 8 ==> Normalize(a, p).o0 == a.o0
    ensures p >= 16 ==> Normalize(a, p).o1 == a.o1
    ensures p >= 24 ==> Normalize(a, p).o2 == a.o2
    ensures p == 32 ==> Normalize(a, p) == a
    ensures p == 0 ==> Normalize(a, p).o0 == 0
    ensures p <= 8 ==> Normalize(a, p).o1 == 0
    ensures p <= 16 ==> Normalize(a, p).o2 == 0
    ensures p <= 24 ==> Normalize(a, p).o3 == 0
  {
    MaskOctetEnds(a.o0);
    MaskOctetEnds(a.o1);
    MaskOctetEnds(a.o2);
    MaskOctetEnds(a.o3);
  }

  /** Keeping all eight bits keeps the octet; keeping none clears it. */
  lemma MaskOctetEnds(o: Octet)
    ensures MaskOctet(o, 8) == o && MaskOctet(o, 0) == 0
  {
  }

  /** Clearing host bits never turns a first octet other than 127 into 127. */
  lemma NormalizeNotLoopback(a: Addr, p: Prefix)
    requires a.o0 != 127
    ensures Normalize(a, p).o0 != 127
  {
    MaskOctetFacts(a.o0, Kept(p, 0));
  }

  /** The printed form of a network reads back as that network. */
  lemma NetworkRoundTrip(n: Network)
    requires IsNetwork(n)
    ensures ParseNetwork(FormatNetwork(n)) == Some(n)
  {
    var fa := FormatAddr(n.addr);
    var fp := NatToDecimal(n.prefix);
    FormatChars(n.addr);
    DecimalHasNo(n.prefix, '/');
    assert '/' !in fa;
    assert FormatNetwork(n) == Join([fa, fp], "/");
    JoinSplit([fa, fp], '/');
    FormatParse(n.addr);
    PrefixTextRoundTrip(n.prefix);
  }

  /** Printing a parsed network and parsing it again gives the same network: `str(ip_network(...))` is canonical. */
  lemma ParseNetworkCanonical(text: string)
    requires ParseNetwork(text).Some?
    ensures ParseNetwork(FormatNetwork(ParseNetwork(text).value)) == ParseNetwork(text)
  {
    NetworkRoundTrip(ParseNetwork(text).value);
  }

  // ---------------------------------------------------------------------------------
  // Hosts

  /** `o | hostmask` for an octet whose mask keeps its `kept` leading bits. */
  function OrOctet(o: Octet, kept: nat): (r: Octet)
    requires kept <= 8
  {
    MaskOctetFacts(o, kept);
    MaskOctet(o, kept) + Block(kept) - 1
  }

  /** `broadcast_address`: the network address with every host bit set. */
  function Broadcast(n: Network): Addr {
    var p := n.prefix;
    Addr(OrOctet(n.addr.o0, Kept(p, 0)), OrOctet(n.addr.o1, Kept(p, 1)),
         OrOctet(n.addr.o2, Kept(p, 2)), OrOctet(n.addr.o3, Kept(p, 3)))
  }

  /** The addresses from `lo` up to but excluding `hi`. */
  function Range(lo: nat, hi: nat): (r: seq<Addr>)
    requires hi <= Space
    ensures |r| == if lo < hi then hi - lo else 0
    ensures forall i :: 0 <= i < |r| ==> ToInt(r[i]) == lo + i
    decreases hi - lo
  {
    if lo >= hi then []
    else
      IntRoundTrip(lo);
      [FromInt(lo)] + Range(lo + 1, hi)
  }

  /**
   * `network.hosts()`: the addresses strictly between the network address and the broadcast
   * address; a /31 has both its addresses and a /32 its one.
   */
  function Hosts(n: Network): seq<Addr> {
    HostsBetween(n.addr, ToInt(n.addr), ToInt(Broadcast(n)), n.prefix)
  }

  /** `hosts()` of the network `addr`/`p` whose addresses run from `lo` to `hi`. */
  function HostsBetween(addr: Addr, lo: nat, hi: nat, p: Prefix): seq<Addr>
    requires hi < Space
  {
    if p == 32 then [addr]
    else if p == 31 then Range(lo, hi + 1)
    else Range(lo + 1, hi)
  }

  /** An address is in a range exactly when its integer lies in the range's bounds. */
  lemma RangeMember(lo: nat, hi: nat, a: Addr)
    requires hi <= Space
    ensures a in Range(lo, hi) <==> lo <= ToInt(a) < hi
  {
    var r := Range(lo, hi);
    if lo <= ToInt(a) < hi {
      var i := ToInt(a) - lo;
      ToIntInjective(a, r[i]);
    }
  }

  /** Distinct addresses have distinct integers. */
  lemma ToIntInjective(a: Addr, b: Addr)
    ensures ToInt(a) == ToInt(b) <==> a == b
  {
    AddrRoundTrip(a);
    AddrRoundTrip(b);
  }

  /** A /32 is its own broadcast address. */
  lemma BroadcastOf32(n: Network)
    requires n.prefix == 32
    ensures Broadcast(n) == n.addr
  {
  }

  /** The hosts are listed in increasing order. */
  lemma HostsIncreasing(n: Network)
    ensures var r := Hosts(n);
      forall i, j :: 0 <= i < j < |r| ==> ToInt(r[i]) < ToInt(r[j])
  {
  }

  /**
   * An address is a host of a network exactly when it lies strictly between the network and
   * broadcast addresses, or between them inclusively for a /31 or a /32.
   */
  lemma HostsSpan(n: Network, a: Addr)
    ensures var lo, hi := ToInt(n.addr), ToInt(Broadcast(n));
      a in Hosts(n) <==> if n.prefix >= 31 then lo <= ToInt(a) <= hi else lo < ToInt(a) < hi
  {
    var lo, hi := ToInt(n.addr), ToInt(Broadcast(n));
    if n.prefix == 32 {
      BroadcastOf32(n);
      HostsBetween32(n.addr, lo, hi, a);
    } else if n.prefix == 31 {
      HostsBetween31(n.addr, lo, hi, a);
    } else {
      HostsBetweenWide(n.addr, lo, hi, n.prefix, a);
    }
  }

  lemma HostsBetweenWide(addr: Addr, lo: nat, hi: nat, p: Prefix, a: Addr)
    requires hi < Space && p < 31
    ensures a in HostsBetween(addr, lo, hi, p) <==> lo < ToInt(a) < hi
  {
    RangeMember(lo + 1, hi, a);
  }

  lemma HostsBetween31(addr: Addr, lo: nat, hi: nat, a: Addr)
    requires hi < Space
    ensures a in HostsBetween(addr, lo, hi, 31) <==> lo <= ToInt(a) <= hi
  {
    RangeMember(lo, hi + 1, a);
  }

  lemma HostsBetween32(addr: Addr, lo: nat, hi: nat, a: Addr)
    requires hi < Space && lo == ToInt(addr) && hi == lo
    ensures a in HostsBetween(addr, lo, hi, 32) <==> lo <= ToInt(a) <= hi
  {
    ToIntInjective(a, addr);
  }
}
