/**
 * The LAN scanner's text parsers and scan strategy (`scanner.py`): the local subnets read
 * from `netifaces`, or failing that from the output of `ip -4 addr` or `ifconfig`; the MAC
 * address read from the ARP cache; the ARP scan, the ping sweep, and the method tag of a
 * subnet's scan.
 *
 * The operating system is an input: command output is a parameter (`None` where the
 * command raised), and the answers of scapy, `ping`, the resolver and the vendor database
 * are fields of an `Env`.
 */
module Scanner {
  import opened Wrappers
  import opened Strings
  import opened Ipv4
  import opened LanModels
  import opened ArpCache
  import ScanTasks

  /** `s` is `str(network)` of some network: its address with the host bits cleared, then `/` and the prefix. */
  ghost predicate PrintedNetwork(s: string) {
    exists n: Network :: IsNetwork(n) && FormatNetwork(n) == s
  }

  /** `s` is `str(network)` of a network outside 127.0.0.0/8. */
  ghost predicate PrintedNonLoopback(s: string) {
    exists n: Network :: IsNetwork(n) && n.addr.o0 != 127 && FormatNetwork(n) == s
  }

  /** Printed networks are canonical: `ip_network` reads them back, and printing that gives the same text. */
  lemma PrintedReadsBack(s: string)
    requires PrintedNetwork(s)
    ensures ParseNetwork(s).Some? && FormatNetwork(ParseNetwork(s).value) == s
  {
    var n :| IsNetwork(n) && FormatNetwork(n) == s;
    NetworkRoundTrip(n);
  }

  /** The text before the first `sep` is a prefix of the whole text. */
  lemma {:induction false} SplitHeadPrefix(s: string, sep: char, q: string)
    requires StartsWith(SplitOn(s, sep)[0], q)
    ensures StartsWith(s, q)
  {
    var h := SplitOn(s, sep)[0];
    assert |h| <= |s| && s[..|h|] == h by {
      match IndexOfChar(s, sep)
      case None =>
      case Some(i) =>
    }
    assert s[..|q|] == h[..|q|];
  }

  /** A network read from text that does not start with `127.` does not start with octet 127. */
  lemma ParsedNotLoopback(t: string)
    requires ParseNetwork(t).Some? && !StartsWith(t, "127.")
    ensures ParseNetwork(t).value.addr.o0 != 127
  {
    var head := SplitOn(t, '/')[0];
    var a := ParseAddr(head).value;
    if a.o0 == 127 {
      LoopbackText(head);
      SplitHeadPrefix(t, '/', "127.");
    }
    NormalizeNotLoopback(a, ParseNetwork(t).value.prefix);
  }

  // ---------------------------------------------------------------------------------
  // Reading a list of items into subnets

  /**
   * What reading one item does to a subnet parse (a match of `ip -4 addr`, a line of
   * `ifconfig`, a netifaces entry): nothing, raise, or give one more subnet.
   */
  datatype LineOutcome = Skip | Stop | Subnet(text: string)

  /** The subnets `read` gives for `xs`, in order, up to the first item whose reading raises. */
  function Upto<T>(xs: seq<T>, read: T -> LineOutcome): seq<string> {
    if xs == [] then []
    else
      match read(xs[0])
      case Skip => Upto(xs[1..], read)
      case Stop => []
      case Subnet(s) => [s] + Upto(xs[1..], read)
  }

  /** Reading some item of `xs` raises. */
  predicate Raises<T>(xs: seq<T>, read: T -> LineOutcome) {
    xs != [] && (read(xs[0]).Stop? || Raises(xs[1..], read))
  }

  /** Reading `a + b`: `b` is reached only when nothing in `a` raises. */
  lemma {:induction false} UptoAppend<T>(a: seq<T>, b: seq<T>, read: T -> LineOutcome)
    ensures !Raises(a, read) ==>
      Upto(a + b, read) == Upto(a, read) + Upto(b, read) && (Raises(a + b, read) <==> Raises(b, read))
    ensures Raises(a, read) ==> Upto(a + b, read) == Upto(a, read) && Raises(a + b, read)
  {
    if a == [] {
      assert a + b == b;
    } else {
      var ab := a + b;
      assert ab[0] == a[0] && ab[1..] == a[1..] + b;
      if !read(a[0]).Stop? {
        UptoAppend(a[1..], b, read);
      }
    }
  }

  /**
   * The loop over `xs`, each item read by `read`: the subnets read are appended to `found`,
   * and the loop ends early, reporting it, at the first item that raises.
   */
  method ReadItems<T>(found: seq<string>, xs: seq<T>, read: T -> LineOutcome) returns (subnets: seq<string>, raised: bool)
    ensures subnets == found + Upto(xs, read)
    ensures raised <==> Raises(xs, read)
  {
    subnets := found;
    var i := 0;
    assert xs[i..] == xs;
    while i < |xs|
      invariant 0 <= i <= |xs|
      invariant subnets + Upto(xs[i..], read) == found + Upto(xs, read)
      invariant Raises(xs[i..], read) <==> Raises(xs, read)
    {
      assert xs[i..][1..] == xs[i + 1..];
      match read(xs[i]) {
        case Skip =>
        case Stop =>
          assert subnets + [] == subnets;
          return subnets, true;
        case Subnet(s) =>
          subnets := subnets + [s];
      }
      i := i + 1;
    }
    assert subnets + [] == subnets;
    raised := false;
  }

  /** An item whose reading raises drops itself and every later item. */
  lemma {:induction false} UptoStop<T>(xs: seq<T>, k: nat, read: T -> LineOutcome)
    requires k < |xs| && read(xs[k]).Stop?
    ensures Upto(xs, read) == Upto(xs[..k], read)
  {
    assert xs == xs[..k] + xs[k..];
    UptoAppend(xs[..k], xs[k..], read);
    assert xs[k..][0] == xs[k];
    if !Raises(xs[..k], read) {
      assert Upto(xs[k..], read) == [];
      assert Upto(xs[..k], read) + [] == Upto(xs[..k], read);
    }
  }

  /** The items of the groups, group by group. */
  function Flatten<T>(groups: seq<seq<T>>): seq<T> {
    if groups == [] then [] else groups[0] + Flatten(groups[1..])
  }

  lemma {:induction false} FlattenAppend<T>(a: seq<seq<T>>, b: seq<seq<T>>)
    ensures Flatten(a + b) == Flatten(a) + Flatten(b)
  {
    if a == [] {
      assert a + b == b;
    } else {
      assert (a + b)[0] == a[0] && (a + b)[1..] == a[1..] + b;
      FlattenAppend(a[1..], b);
    }
  }

  /**
   * Two nested loops, over the groups and over the items of each: the subnets of all items
   * in order, ending early at the first item that raises.
   */
  method ReadGroups<T>(groups: seq<seq<T>>, read: T -> LineOutcome) returns (subnets: seq<string>, raised: bool)
    ensures subnets == Upto(Flatten(groups), read)
    ensures raised <==> Raises(Flatten(groups), read)
  {
    subnets, raised := [], false;
    var i := 0;
    assert groups[..i] == [];
    while i < |groups|
      invariant 0 <= i <= |groups|
      invariant !Raises(Flatten(groups[..i]), read)
      invariant subnets == Upto(Flatten(groups[..i]), read)
    {
      var done := Flatten(groups[..i]);
      subnets, raised := ReadItems(subnets, groups[i], read);
      assert Flatten(groups[..i + 1]) == done + groups[i] by {
        assert groups[..i + 1] == groups[..i] + [groups[i]];
        FlattenAppend(groups[..i], [groups[i]]);
        assert Flatten([groups[i]]) == groups[i] + [];
      }
      UptoAppend(done, groups[i], read);
      if raised {
        assert groups == groups[..i + 1] + groups[i + 1..];
        FlattenAppend(groups[..i + 1], groups[i + 1..]);
        UptoAppend(Flatten(groups[..i + 1]), Flatten(groups[i + 1..]), read);
        assert Flatten(groups) == Flatten(groups[..i + 1]) + Flatten(groups[i + 1..]);
        return;
      }
      i := i + 1;
    }
    assert groups[..i] == groups;
  }

  /** `parts.index(w)`: the first position of `w`. */
  function IndexOfWord(parts: seq<string>, w: string): (r: Option<nat>)
    ensures r.None? <==> w !in parts
    ensures r.Some? ==> r.value < |parts| && parts[r.value] == w && w !in parts[..r.value]
  {
    if parts == [] then None
    else if parts[0] == w then Some(0)
    else
      match IndexOfWord(parts[1..], w)
      case None => None
      case Some(i) =>
        assert parts[..i + 1] == [parts[0]] + parts[1..][..i];
        Some(i + 1)
  }

  /** The value of hex digits, ignoring underscores. */
  function HexValue(d: string): nat
    requires HexChars(d)
  {
    if d == [] then 0
    else
      var last := d[|d| - 1];
      if last == '_' then HexValue(d[..|d| - 1])
      else HexValue(d[..|d| - 1]) * 16 + HexDigitValue(last)
  }

  /** Hex digits and underscores. */
  predicate HexChars(d: string) {
    forall k :: 0 <= k < |d| ==> IsHexDigit(d[k]) || d[k] == '_'
  }

  /** Hex digits with single underscores between digits. */
  predicate HexGrouped(d: string) {
    && d != [] && HexChars(d) && IsHexDigit(d[0]) && IsHexDigit(d[|d| - 1])
    && forall k :: 0 < k < |d| - 1 && d[k] == '_' ==> IsHexDigit(d[k - 1]) && IsHexDigit(d[k + 1])
  }

  /**
   * Python `int(s, 16)` on a token: an optional sign, an optional `0x`/`0X` prefix (which
   * one underscore may follow), then hex digits with single underscores between them.
   */
  function ParseHexInt(s: string): Option<int> {
    var signed := s != [] && (s[0] == '-' || s[0] == '+');
    var body := if signed then s[1..] else s;
    var prefixed := |body| >= 2 && body[0] == '0' && (body[1] == 'x' || body[1] == 'X');
    var digits := if prefixed then body[2..] else body;
    var digits' := if prefixed && digits != [] && digits[0] == '_' then digits[1..] else digits;
    if !HexGrouped(digits') then None
    else if signed && s[0] == '-' then Some(-(HexValue(digits') as int))
    else Some(HexValue(digits'))
  }

  /** Lower-case hex numeral of `n`, without leading zeros. */
  function NatToHex(n: nat): (r: string)
    ensures |r| >= 1 && forall k :: 0 <= k < |r| ==> IsHexDigit(r[k])
  {
    if n < 16 then [HexChar(n)] else NatToHex(n / 16) + [HexChar(n % 16)]
  }

  function HexChar(d: nat): (c: char)
    requires d < 16
    ensures IsHexDigit(c) && HexDigitValue(c) == d
  {
    if d < 10 then ('0' as int + d) as char else ('a' as int + d - 10) as char
  }

  /** The hex numeral reads back. */
  lemma {:induction false} HexRoundTrip(n: nat)
    ensures HexValue(NatToHex(n)) == n
  {
    if n >= 16 {
      HexRoundTrip(n / 16);
      var s := NatToHex(n);
      assert s[..|s| - 1] == NatToHex(n / 16);
    }
  }

  /** Hex digits alone: no sign, no prefix, no underscores. */
  predicate PlainHex(d: string) {
    d != [] && forall k :: 0 <= k < |d| ==> IsHexDigit(d[k])
  }

  lemma PlainHexGrouped(d: string)
    requires PlainHex(d)
    ensures HexGrouped(d)
  {
  }

  /** Plain hex digits after `0x` read as their value. */
  lemma HexPrefixedParse(d: string)
    requires PlainHex(d)
    ensures ParseHexInt("0x" + d) == Some(HexValue(d))
  {
    var s := "0x" + d;
    assert s[0] == '0' && s[1] == 'x' && s[2..] == d;
    PlainHexGrouped(d);
  }

  /** Plain hex digits read as their value: a leading `0` is never taken for a prefix. */
  lemma HexPlainParse(d: string)
    requires PlainHex(d)
    ensures ParseHexInt(d) == Some(HexValue(d))
  {
    assert |d| >= 2 ==> d[1] != 'x' && d[1] != 'X';
    PlainHexGrouped(d);
  }

  /** `ifconfig` prints a netmask as `0x` and hex digits; the value read is the mask. */
  lemma IfconfigMaskParse(p: Prefix)
    ensures ParseHexInt("0x" + NatToHex(MaskInt(p))) == Some(MaskInt(p))
  {
    HexPrefixedParse(NatToHex(MaskInt(p)));
    HexRoundTrip(MaskInt(p));
  }

  /** A stripped line starting with `inet ` has at least two words, the first `inet`. */
  lemma InetLineWords(t: string)
    requires StartsWith(t, "inet ") && !IsSpace(t[|t| - 1])
    ensures |Words(t)| >= 2 && Words(t)[0] == "inet"
  {
    assert WordLength(t) == 4 by {
      assert t[..5] == "inet ";
      WordLengthAt(t, 4);
    }
    var rest := t[4..];
    assert rest[|rest| - 1] == t[|t| - 1];
    HasWord(rest);
  }

  /** The word length of text whose first space is at `n` is `n`. */
  lemma {:induction false} WordLengthAt(s: string, n: nat)
    requires n < |s| && IsSpace(s[n]) && forall k :: 0 <= k < n ==> !IsSpace(s[k])
    ensures WordLength(s) == n
    decreases n
  {
    if n > 0 {
      WordLengthAt(s[1..], n - 1);
    }
  }

  /** Text whose last character is not white space has a word. */
  lemma {:induction false} HasWord(s: string)
    requires s != [] && !IsSpace(s[|s| - 1])
    ensures |Words(s)| >= 1
    decreases |s|
  {
    if IsSpace(s[0]) {
      HasWord(s[1..]);
    }
  }

  // ---------------------------------------------------------------------------------
  // `ip -4 addr`: re.finditer(r"inet\s+(\d+\.\d+\.\d+\.\d+/\d+)", output)

  /** The length of the run of decimal digits at `i`. */
  function DigitRun(s: string, i: nat): (n: nat)
    requires i <= |s|
    ensures i + n <= |s|
    ensures forall k :: i <= k < i + n ==> IsDigit(s[k])
    ensures i + n == |s| || !IsDigit(s[i + n])
    decreases |s| - i
  {
    if i < |s| && IsDigit(s[i]) then 1 + DigitRun(s, i + 1) else 0
  }

  /** The length of the run of white space at `i`. */
  function SpaceRun(s: string, i: nat): (n: nat)
    requires i <= |s|
    ensures i + n <= |s|
    ensures forall k :: i <= k < i + n ==> IsSpace(s[k])
    ensures i + n == |s| || !IsSpace(s[i + n])
    decreases |s| - i
  {
    if i < |s| && IsSpace(s[i]) then 1 + SpaceRun(s, i + 1) else 0
  }

  /** The characters of a matched `\d+\.\d+\.\d+\.\d+/\d+`. */
  predicate CidrChars(c: string) {
    forall k :: 0 <= k < |c| ==> IsDigit(c[k]) || c[k] == '.' || c[k] == '/'
  }

  /** `CidrChars` of `s[i..j]`, stated on `s` itself. */
  predicate CidrRange(s: string, i: nat, j: nat)
    requires i <= j <= |s|
  {
    forall k :: i <= k < j ==> IsDigit(s[k]) || s[k] == '.' || s[k] == '/'
  }

  lemma CidrRangeJoin(s: string, i: nat, j: nat, k: nat)
    requires i <= j <= k <= |s| && CidrRange(s, i, j) && CidrRange(s, j, k)
    ensures CidrRange(s, i, k)
  {
  }

  lemma CidrRangeSlice(s: string, i: nat, j: nat)
    requires i <= j <= |s| && CidrRange(s, i, j)
    ensures CidrChars(s[i..j])
  {
    forall k | 0 <= k < j - i
      ensures IsDigit(s[i..j][k]) || s[i..j][k] == '.' || s[i..j][k] == '/'
    {
      assert s[i..j][k] == s[i + k];
    }
  }

  /** `\d+` then the character `c`, at `i`: the index just past `c`. */
  function DigitsThen(s: string, i: nat, c: char): (r: Option<nat>)
    requires i <= |s|
    ensures r.Some? ==> i + 2 <= r.value <= |s| && s[r.value - 1] == c
    ensures r.Some? ==> forall k :: i <= k < r.value - 1 ==> IsDigit(s[k])
  {
    var n := DigitRun(s, i);
    if n == 0 || i + n == |s| || s[i + n] != c then None else Some(i + n + 1)
  }

  /** `\d+` then `.` or `/`, as the dotted part of the pattern reads it. */
  lemma DigitsThenRange(s: string, i: nat, c: char)
    requires i <= |s| && DigitsThen(s, i, c).Some? && (c == '.' || c == '/')
    ensures CidrRange(s, i, DigitsThen(s, i, c).value)
  {
  }

  /** `k` groups of `\d+\.` at `i`: the index past the last dot. */
  function DotGroups(s: string, i: nat, k: nat): (r: Option<nat>)
    requires i <= |s|
    ensures r.Some? ==> i <= r.value <= |s| && CidrRange(s, i, r.value)
    decreases k
  {
    if k == 0 then Some(i)
    else
      match DigitsThen(s, i, '.')
      case None => None
      case Some(j) =>
        match DotGroups(s, j, k - 1)
        case None => None
        case Some(e) =>
          DigitsThenRange(s, i, '.');
          CidrRangeJoin(s, i, j, e);
          Some(e)
  }

  /** `\d+\.\d+\.\d+\.\d+/\d+` at `g`: the end of the match. */
  function CidrAt(s: string, g: nat): (e: Option<nat>)
    requires g <= |s|
    ensures e.Some? ==> g < e.value <= |s| && CidrRange(s, g, e.value) && IsDigit(s[e.value - 1])
    ensures e.Some? ==> e.value == |s| || !IsDigit(s[e.value])
  {
    match DotGroups(s, g, 3)
    case None => None
    case Some(i3) =>
      match DigitsThen(s, i3, '/')
      case None => None
      case Some(i4) =>
        var n := DigitRun(s, i4);
        if n == 0 then None
        else
          DigitsThenRange(s, i3, '/');
          CidrRangeJoin(s, g, i3, i4);
          CidrRangeJoin(s, g, i4, i4 + n);
          Some(i4 + n)
  }

  /**
   * A match of the pattern starting at `p`, as the bounds of its group. Each `+` is greedy
   * and is followed by a character it cannot match, so the first way to match is the only one.
   */
  function InetAt(s: string, p: nat): (r: Option<(nat, nat)>)
    requires p <= |s|
    ensures r.Some? ==> p + 5 <= r.value.0 < r.value.1 <= |s|
    ensures r.Some? ==> OccursAt(s, "inet", p)
    ensures r.Some? ==> forall k :: p + 4 <= k < r.value.0 ==> IsSpace(s[k])
    ensures r.Some? ==> CidrChars(s[r.value.0..r.value.1]) && IsDigit(s[r.value.1 - 1])
    ensures r.Some? ==> r.value.1 == |s| || !IsDigit(s[r.value.1])
  {
    if !OccursAt(s, "inet", p) then None
    else
      var g := p + 4 + SpaceRun(s, p + 4);
      if g == p + 4 then None
      else
        match CidrAt(s, g)
        case None => None
        case Some(e) =>
          CidrRangeSlice(s, g, e);
          Some((g, e))
  }

  /** The groups `re.finditer` yields from position `p` on, left to right; the scan resumes at each match's end. */
  function InetMatches(s: string, p: nat): (r: seq<string>)
    requires p <= |s|
    ensures forall k :: 0 <= k < |r| ==> |r[k]| >= 1 && CidrChars(r[k])
    decreases |s| - p
  {
    if p == |s| then []
    else
      match InetAt(s, p)
      case Some((g, e)) => [s[g..e]] + InetMatches(s, e)
      case None => InetMatches(s, p + 1)
  }

  /**
   * The subnets the Linux branch appends for its matches: loopback matches are skipped, and a
   * match `ip_network` rejects raises, which ends the parse with what was found so far.
   */
  function LinuxSubnets(cidrs: seq<string>): seq<string> {
    if cidrs == [] then []
    else if StartsWith(cidrs[0], "127.") then LinuxSubnets(cidrs[1..])
    else
      match ParseNetwork(cidrs[0])
      case None => []
      case Some(n) => [FormatNetwork(n)] + LinuxSubnets(cidrs[1..])
  }

  /** What reading one match does: skip a loopback match, raise from `ip_network`, or give its network. */
  function CidrOutcome(cidr: string): LineOutcome {
    if StartsWith(cidr, "127.") then Skip
    else
      match ParseNetwork(cidr)
      case None => Stop
      case Some(n) => Subnet(FormatNetwork(n))
  }

  /** The Linux subnets are those the generic reader gives with `CidrOutcome`. */
  lemma {:induction false} LinuxIsUpto(cidrs: seq<string>)
    ensures LinuxSubnets(cidrs) == Upto(cidrs, CidrOutcome)
  {
    if cidrs != [] {
      LinuxIsUpto(cidrs[1..]);
    }
  }

  /** The Linux branch of `_fallback_subnet_detection` over the output of `ip -4 addr`. */
  method ParseIpAddr(output: string) returns (subnets: seq<string>)
    ensures subnets == LinuxSubnets(InetMatches(output, 0))
  {
    var cidrs := InetMatches(output, 0);
    LinuxIsUpto(cidrs);
    var raised;
    subnets, raised := ReadItems([], cidrs, CidrOutcome);
    assert [] + Upto(cidrs, CidrOutcome) == Upto(cidrs, CidrOutcome);
  }

  /** Every subnet of the Linux branch is a printed network outside 127.0.0.0/8. */
  lemma {:induction false} LinuxSubnetsValid(cidrs: seq<string>)
    ensures forall s :: s in LinuxSubnets(cidrs) ==> PrintedNonLoopback(s)
  {
    if cidrs != [] {
      LinuxSubnetsValid(cidrs[1..]);
      if !StartsWith(cidrs[0], "127.") && ParseNetwork(cidrs[0]).Some? {
        ParsedNotLoopback(cidrs[0]);
        var n := ParseNetwork(cidrs[0]).value;
        assert PrintedNonLoopback(FormatNetwork(n));
      }
    }
  }

  /** A match that `ip_network` rejects drops itself and every later match. */
  lemma LinuxSubnetsStop(cidrs: seq<string>, k: nat)
    requires k < |cidrs| && !StartsWith(cidrs[k], "127.") && ParseNetwork(cidrs[k]).None?
    ensures LinuxSubnets(cidrs) == LinuxSubnets(cidrs[..k])
  {
    LinuxIsUpto(cidrs);
    LinuxIsUpto(cidrs[..k]);
    UptoStop(cidrs, k, CidrOutcome);
  }

  // ---------------------------------------------------------------------------------
  // `ifconfig`

  /**
   * One line of `ifconfig` output: a stripped line that starts with `inet `, does not contain
   * `127.0.0.1` and has a `netmask` token yields the network of its address under the mask
   * that follows the token. A missing mask token, a token `int(_, 16)` rejects, a value
   * `ip_address` does not read as an IPv4 address, or a network `ip_network` rejects raise.
   */
  function IfconfigLine(line: string): LineOutcome {
    var t := Strip(line);
    if !StartsWith(t, "inet ") || Contains(t, "127.0.0.1") then Skip
    else
      var parts := Words(t);
      InetLineWords(t);
      var ip := parts[1];
      match IndexOfWord(parts, "netmask")
      case None => Skip
      case Some(k) =>
        if k + 1 == |parts| then Stop
        else
          match ParseHexInt(parts[k + 1])
          case None => Stop
          case Some(v) =>
            if v < 0 || v >= Space then Stop
            else
              match ParseNetwork(ip + "/" + FormatAddr(FromInt(v)))
              case None => Stop
              case Some(n) => Subnet(FormatNetwork(n))
  }

  /** The subnets the Darwin branch appends for its lines, up to the first line that raises. */
  function DarwinSubnets(lines: seq<string>): seq<string> {
    if lines == [] then []
    else
      match IfconfigLine(lines[0])
      case Skip => DarwinSubnets(lines[1..])
      case Stop => []
      case Subnet(s) => [s] + DarwinSubnets(lines[1..])
  }

  /** The Darwin subnets are those the generic line reader gives with `IfconfigLine`. */
  lemma {:induction false} DarwinIsUpto(lines: seq<string>)
    ensures DarwinSubnets(lines) == Upto(lines, IfconfigLine)
  {
    if lines != [] {
      DarwinIsUpto(lines[1..]);
    }
  }

  /** The Darwin branch of `_fallback_subnet_detection` over the output of `ifconfig`. */
  method ParseIfconfig(output: string) returns (subnets: seq<string>)
    ensures subnets == DarwinSubnets(SplitOn(output, '\n'))
  {
    var lines := SplitOn(output, '\n');
    DarwinIsUpto(lines);
    var raised;
    subnets, raised := ReadItems([], lines, IfconfigLine);
    assert [] + Upto(lines, IfconfigLine) == Upto(lines, IfconfigLine);
  }

  /** A line that contributes a subnet contributes a printed network. */
  lemma IfconfigLineValid(line: string)
    requires IfconfigLine(line).Subnet?
    ensures PrintedNetwork(IfconfigLine(line).text)
  {
    var parts := Words(Strip(line));
    var k := IndexOfWord(parts, "netmask").value;
    var v := ParseHexInt(parts[k + 1]).value;
    var n := ParseNetwork(parts[1] + "/" + FormatAddr(FromInt(v))).value;
    assert IfconfigLine(line).text == FormatNetwork(n);
  }

  /** Every subnet of the Darwin branch is a printed network. */
  lemma {:induction false} DarwinSubnetsValid(lines: seq<string>)
    ensures forall s :: s in DarwinSubnets(lines) ==> PrintedNetwork(s)
  {
    if lines != [] {
      DarwinSubnetsValid(lines[1..]);
      if IfconfigLine(lines[0]).Subnet? {
        IfconfigLineValid(lines[0]);
      }
    }
  }

  /** Address text followed by `/` and a mask splits into the two. */
  lemma SplitAddrMask(ip: string, mask: string)
    requires '/' !in ip && '/' !in mask
    ensures SplitOn(ip + "/" + mask, '/') == [ip, mask]
  {
    assert Join([ip, mask], "/") == ip + "/" + mask by {
      JoinCons(ip, [mask], "/");
    }
    JoinSplit([ip, mask], '/');
  }

  /** Texts with the same address part and prefix parts that read alike read as the same network. */
  lemma SamePrefixSameNetwork(t1: string, t2: string, ip: string, m1: string, m2: string)
    requires SplitOn(t1, '/') == [ip, m1] && SplitOn(t2, '/') == [ip, m2]
    requires ParsePrefix(m1) == ParsePrefix(m2)
    ensures ParseNetwork(t1) == ParseNetwork(t2)
  {
  }

  lemma DottedHasNoSlash(a: Addr)
    ensures '/' !in FormatAddr(a)
  {
    FormatChars(a);
  }

  /** A netmask converted to dotted-quad text gives the same network as its prefix length. */
  lemma DottedMaskAgrees(ip: string, p: Prefix)
    requires '/' !in ip
    ensures ParseNetwork(ip + "/" + FormatAddr(FromInt(MaskInt(p)))) == ParseNetwork(ip + "/" + NatToDecimal(p))
  {
    var dotted := FormatAddr(FromInt(MaskInt(p)));
    var decimal := NatToDecimal(p);
    DottedHasNoSlash(FromInt(MaskInt(p)));
    DecimalHasNo(p, '/');
    SplitAddrMask(ip, dotted);
    SplitAddrMask(ip, decimal);
    NetmaskText(p);
    PrefixTextRoundTrip(p);
    SamePrefixSameNetwork(ip + "/" + dotted, ip + "/" + decimal, ip, dotted, decimal);
  }

  // ---------------------------------------------------------------------------------
  // Detecting the local subnets

  /** What `platform.system()` reports, as far as the parser cares. */
  datatype Platform = Darwin | OtherSystem

  const DefaultSubnet: string := "192.168.1.0/24"

  /** `subnets or ["192.168.1.0/24"]`. */
  function OrDefault(subnets: seq<string>): seq<string> {
    if subnets == [] then [DefaultSubnet] else subnets
  }

  /**
   * The subnets `_fallback_subnet_detection` found before the fallback default: `output` is
   * the output of `ifconfig` on Darwin and of `ip -4 addr` elsewhere, `None` when the
   * command raised.
   */
  function FallbackFound(platform: Platform, output: Option<string>): seq<string> {
    match output
    case None => []
    case Some(o) =>
      if platform == Darwin then DarwinSubnets(SplitOn(o, '\n')) else LinuxSubnets(InetMatches(o, 0))
  }

  /** `_fallback_subnet_detection`. */
  method FallbackSubnetDetection(platform: Platform, output: Option<string>) returns (subnets: seq<string>)
    ensures subnets == OrDefault(FallbackFound(platform, output))
  {
    subnets := [];
    if output.Some? {
      if platform == Darwin {
        subnets := ParseIfconfig(output.value);
      } else {
        subnets := ParseIpAddr(output.value);
      }
    }
    if subnets == [] {
      subnets := [DefaultSubnet];
    }
  }

  /** A two- or three-digit numeral is the numeral of its leading digits and its last digit. */
  lemma DecimalStep(n: nat, s: string)
    requires 10 <= n < 1000 && s == NatToDecimal(n / 10) + [DigitChar(n % 10)]
    ensures NatToDecimal(n) == s
  {
  }

  lemma DefaultAddrText(a: Addr)
    requires a == Addr(192, 168, 1, 0)
    ensures FormatAddr(a) == "192.168.1.0"
  {
    FormatShape(a);
    DecimalStep(19, "19");
    DecimalStep(192, "192");
    DecimalStep(16, "16");
    DecimalStep(168, "168");
  }

  lemma DefaultText(n: Network)
    requires n == Network(Addr(192, 168, 1, 0), 24)
    ensures FormatNetwork(n) == DefaultSubnet
  {
    DefaultAddrText(n.addr);
    DecimalStep(24, "24");
  }

  lemma DefaultIsNetwork(n: Network)
    requires n == Network(Addr(192, 168, 1, 0), 24)
    ensures IsNetwork(n)
  {
    NormalizeOctets(n.addr, 24);
  }

  /** The default subnet is the printed form of the network 192.168.1.0/24. */
  lemma DefaultSubnetPrinted(n: Network)
    requires n == Network(Addr(192, 168, 1, 0), 24)
    ensures PrintedNonLoopback(DefaultSubnet)
  {
    DefaultText(n);
    DefaultIsNetwork(n);
  }

  lemma NonLoopbackPrinted(s: string)
    requires PrintedNonLoopback(s)
    ensures PrintedNetwork(s)
  {
  }

  /** Every subnet the `ifconfig` or `ip` parse finds is a printed network. */
  lemma FoundValid(platform: Platform, output: Option<string>)
    ensures forall s :: s in FallbackFound(platform, output) ==> PrintedNetwork(s)
  {
    if output.Some? {
      if platform == Darwin {
        DarwinSubnetsValid(SplitOn(output.value, '\n'));
      } else {
        var found := LinuxSubnets(InetMatches(output.value, 0));
        LinuxSubnetsValid(InetMatches(output.value, 0));
        forall s | s in found
          ensures PrintedNetwork(s)
        {
          NonLoopbackPrinted(s);
        }
      }
    }
  }

  /** The fallback never returns an empty list, and every subnet it returns is a printed network. */
  lemma FallbackValid(platform: Platform, output: Option<string>)
    ensures OrDefault(FallbackFound(platform, output)) != []
    ensures forall s :: s in OrDefault(FallbackFound(platform, output)) ==> PrintedNetwork(s)
  {
    if FallbackFound(platform, output) == [] {
      DefaultSubnetPrinted(Network(Addr(192, 168, 1, 0), 24));
      NonLoopbackPrinted(DefaultSubnet);
    } else {
      FoundValid(platform, output);
    }
  }

  /** One address entry of `netifaces.ifaddresses(iface)[AF_INET]`. */
  datatype AddrInfo = AddrInfo(addr: Option<string>, netmask: Option<string>)

  /** An interface: its IPv4 entries, `None` when it has no `AF_INET` key. */
  datatype Interface = Interface(inet: Option<seq<AddrInfo>>)

  /** The IPv4 entries of the interfaces, interface by interface. */
  function Entries(ifaces: seq<Interface>): seq<AddrInfo> {
    if ifaces == [] then []
    else (if ifaces[0].inet.Some? then ifaces[0].inet.value else []) + Entries(ifaces[1..])
  }

  /** An entry that contributes a subnet: address and netmask both truthy, address not `127.`. */
  predicate Contributes(e: AddrInfo) {
    Truthy(e.addr) && Truthy(e.netmask) && !StartsWith(e.addr.value, "127.")
  }

  /** `subnet` in front of the subnets of a parse that returned, or the parse's error. */
  function Prepend(subnet: string, r: Result<seq<string>, string>): Result<seq<string>, string> {
    match r
    case Ok(rest) => Ok([subnet] + rest)
    case Err(e) => Err(e)
  }

  /** The subnets of the netifaces entries; `ip_network` rejecting an entry raises out of `detect_subnets`. */
  function NetifacesSubnets(entries: seq<AddrInfo>): Result<seq<string>, string> {
    if entries == [] then Ok([])
    else if !Contributes(entries[0]) then NetifacesSubnets(entries[1..])
    else
      match ParseNetwork(entries[0].addr.value + "/" + entries[0].netmask.value)
      case None => Err("ValueError")
      case Some(n) => Prepend(FormatNetwork(n), NetifacesSubnets(entries[1..]))
  }

  /**
   * What `detect_subnets()` returns or raises: `netifaces` is the interface list, `None` when
   * the module is not installed; `platform` and `output` feed the fallback.
   */
  function DetectedSubnets(netifaces: Option<seq<Interface>>, platform: Platform, output: Option<string>)
    : Result<seq<string>, string>
  {
    match netifaces
    case None => Ok(OrDefault(FallbackFound(platform, output)))
    case Some(ifaces) => NetifacesSubnets(Entries(ifaces))
  }

  /** What reading one netifaces entry does: skip it, raise from `ip_network`, or give its network. */
  function EntryOutcome(e: AddrInfo): LineOutcome {
    if !Contributes(e) then Skip
    else
      match ParseNetwork(e.addr.value + "/" + e.netmask.value)
      case None => Stop
      case Some(n) => Subnet(FormatNetwork(n))
  }

  /** The netifaces parse is the generic reader with `EntryOutcome`: an error exactly when an entry raises. */
  lemma {:induction false} NetifacesIsUpto(entries: seq<AddrInfo>)
    ensures NetifacesSubnets(entries) ==
      if Raises(entries, EntryOutcome) then Err("ValueError") else Ok(Upto(entries, EntryOutcome))
  {
    if entries != [] {
      NetifacesIsUpto(entries[1..]);
    }
  }

  /** The IPv4 entry lists of the interfaces, an interface without `AF_INET` giving none. */
  function InetLists(ifaces: seq<Interface>): (r: seq<seq<AddrInfo>>)
    ensures |r| == |ifaces|
    ensures forall i :: 0 <= i < |ifaces| ==> r[i] == (if ifaces[i].inet.Some? then ifaces[i].inet.value else [])
  {
    if ifaces == [] then []
    else [if ifaces[0].inet.Some? then ifaces[0].inet.value else []] + InetLists(ifaces[1..])
  }

  lemma {:induction false} EntriesFlatten(ifaces: seq<Interface>)
    ensures Entries(ifaces) == Flatten(InetLists(ifaces))
  {
    if ifaces != [] {
      EntriesFlatten(ifaces[1..]);
      var r := InetLists(ifaces);
      assert r[1..] == InetLists(ifaces[1..]);
    }
  }

  /** `_detect_local_subnets`. */
  method DetectLocalSubnets(netifaces: Option<seq<Interface>>, platform: Platform, output: Option<string>)
    returns (r: Result<seq<string>, string>)
    ensures r == DetectedSubnets(netifaces, platform, output)
  {
    if netifaces.None? {
      var subnets := FallbackSubnetDetection(platform, output);
      r := Ok(subnets);
    } else {
      r := ReadNetifaces(netifaces.value);
    }
  }

  /** The loop of `_detect_local_subnets` over the interfaces and their IPv4 entries. */
  method ReadNetifaces(ifaces: seq<Interface>) returns (r: Result<seq<string>, string>)
    ensures r == NetifacesSubnets(Entries(ifaces))
  {
    EntriesFlatten(ifaces);
    NetifacesIsUpto(Entries(ifaces));
    var subnets, raised := ReadGroups(InetLists(ifaces), EntryOutcome);
    if raised {
      r := Err("ValueError");
    } else {
      r := Ok(subnets);
    }
  }

  /** Every subnet read from netifaces is a printed network outside 127.0.0.0/8. */
  lemma {:induction false} NetifacesValid(entries: seq<AddrInfo>)
    ensures NetifacesSubnets(entries).Ok? ==>
      forall s :: s in NetifacesSubnets(entries).value ==> PrintedNonLoopback(s)
  {
    if entries != [] {
      NetifacesValid(entries[1..]);
      if Contributes(entries[0]) {
        EntryValid(entries[0]);
      }
    }
  }

  /** A contributing entry that `ip_network` accepts gives a printed network outside 127.0.0.0/8. */
  lemma EntryValid(e: AddrInfo)
    requires Contributes(e)
    ensures var t := e.addr.value + "/" + e.netmask.value;
      ParseNetwork(t).Some? ==> PrintedNonLoopback(FormatNetwork(ParseNetwork(t).value))
  {
    var t := e.addr.value + "/" + e.netmask.value;
    AppendedNotPrefixed(e.addr.value, e.netmask.value);
    if ParseNetwork(t).Some? {
      ParsedNotLoopback(t);
    }
  }

  lemma AppendedNotPrefixed(ip: string, mask: string)
    requires !StartsWith(ip, "127.")
    ensures !StartsWith(ip + "/" + mask, "127.")
  {
    var t := ip + "/" + mask;
    if |ip| >= 4 {
      assert t[..4] == ip[..4];
    } else {
      assert t[|ip|] == '/';
    }
  }

  /** With netifaces present and only loopback addresses, the result is empty: the fallback is not used. */
  lemma {:induction false} NetifacesOnlyLoopback(entries: seq<AddrInfo>)
    requires forall k :: 0 <= k < |entries| ==> !Contributes(entries[k])
    ensures NetifacesSubnets(entries) == Ok([])
  {
    if entries != [] {
      NetifacesOnlyLoopback(entries[1..]);
    }
  }

  /**
   * `detect_subnets` either raises (only when netifaces is present and rejects an entry) or
   * returns printed networks; without netifaces the list is never empty.
   */
  lemma DetectedValid(netifaces: Option<seq<Interface>>, platform: Platform, output: Option<string>)
    ensures DetectedSubnets(netifaces, platform, output).Err? ==> netifaces.Some?
    ensures netifaces.None? ==> DetectedSubnets(netifaces, platform, output).value != []
    ensures DetectedSubnets(netifaces, platform, output).Ok? ==>
      forall s :: s in DetectedSubnets(netifaces, platform, output).value ==> PrintedNetwork(s)
  {
    if netifaces.None? {
      FallbackValid(platform, output);
    } else {
      var r := NetifacesSubnets(Entries(netifaces.value));
      NetifacesValid(Entries(netifaces.value));
      if r.Ok? {
        forall s | s in r.value
          ensures PrintedNetwork(s)
        {
          var n :| IsNetwork(n) && n.addr.o0 != 127 && FormatNetwork(n) == s;
        }
      }
    }
  }

  // ---------------------------------------------------------------------------------
  // Scanning a subnet

  /** One answer scapy's `srp` received: the sender's IP and MAC text. */
  datatype Reply = Reply(psrc: string, hwsrc: string)

  /**
   * What the ARP scan of a subnet meets: scapy not installed, a `PermissionError`, another
   * exception, or the answered requests.
   */
  datatype ArpResult = ScapyMissing | PermissionDenied | ScanFailed | Answered(replies: seq<Reply>)

  /** The result of running `ping` on one address: its exit code, or an exception. */
  datatype PingResult = Exited(code: int) | CannotRun

  /**
   * The network as the scanner sees it, for one subnet: the ARP scan's result, `ping` for
   * each address, the output of `arp -n` for each address (`None` when it raised),
   * `_resolve_hostname` and `_lookup_vendor`.
   */
  datatype Env = Env(
    arp: ArpResult,
    ping: string -> PingResult,
    arpCache: string -> Option<string>,
    hostname: string -> Option<string>,
    vendor: string -> Option<string>)

  /** The row `_do_scan` builds for one answer; the MAC is upper-cased. */
  function ArpRow(r: Reply, env: Env): Found {
    var mac := Upper(r.hwsrc);
    Found(r.psrc, mac, env.hostname(r.psrc), env.vendor(mac))
  }

  /** The rows of the answers, in order. */
  function ArpDevices(replies: seq<Reply>, env: Env): (rows: seq<Found>)
    ensures |rows| == |replies|
    ensures forall k :: 0 <= k < |rows| ==> rows[k] == ArpRow(replies[k], env)
  {
    if replies == [] then []
    else ArpDevices(replies[..|replies| - 1], env) + [ArpRow(replies[|replies| - 1], env)]
  }

  /** The loop of `_do_scan` over the answered requests. */
  method CollectAnswers(replies: seq<Reply>, env: Env) returns (devices: seq<Found>)
    ensures devices == ArpDevices(replies, env)
  {
    devices := [];
    for i := 0 to |replies|
      invariant devices == ArpDevices(replies[..i], env)
    {
      assert replies[..i + 1][..i] == replies[..i];
      devices := devices + [ArpRow(replies[i], env)];
    }
    assert replies[..|replies|] == replies;
  }

  /** Every MAC of an ARP scan is upper case: no letter in it is lower case. */
  lemma ArpMacsUpper(replies: seq<Reply>, env: Env)
    ensures forall k :: 0 <= k < |ArpDevices(replies, env)| ==>
      var mac := ArpDevices(replies, env)[k].mac;
      |mac| == |replies[k].hwsrc| && forall x :: 0 <= x < |mac| ==> !('a' <= mac[x] <= 'z')
  {
  }

  /** The row `ping_host` returns for an address that answered. */
  function PingRow(ip: string, env: Env): Found {
    var mac := ArpCacheMac(env.arpCache(ip));
    Found(ip, if Truthy(mac) then mac.value else Unknown, env.hostname(ip),
          if Truthy(mac) then env.vendor(mac.value) else None)
  }

  /** The addresses that answered `ping`, in order. */
  function Responders(ips: seq<string>, env: Env): seq<string> {
    if ips == [] then []
    else if env.ping(ips[0]) == Exited(0) then [ips[0]] + Responders(ips[1..], env)
    else Responders(ips[1..], env)
  }

  /** The IP of every row. */
  function IpsOf(rows: seq<Found>): (r: seq<string>)
    ensures |r| == |rows| && forall k :: 0 <= k < |rows| ==> r[k] == rows[k].ip
  {
    if rows == [] then [] else [rows[0].ip] + IpsOf(rows[1..])
  }

  /**
   * `asyncio.gather` over `ping_host` for each address, then the rows that are not `None`;
   * an address `ping` could not be run on raises out of the gather.
   */
  function Sweep(ips: seq<string>, env: Env): Result<seq<Found>, string> {
    if ips == [] then Ok([])
    else if env.ping(ips[0]) == CannotRun then Err("OSError")
    else
      match Sweep(ips[1..], env)
      case Err(e) => Err(e)
      case Ok(rows) => Ok(if env.ping(ips[0]) == Exited(0) then [PingRow(ips[0], env)] + rows else rows)
  }

  /** `[str(ip) for ip in hosts]`. */
  function AddrTexts(hosts: seq<Addr>): (r: seq<string>)
    ensures |r| == |hosts| && forall k :: 0 <= k < |hosts| ==> r[k] == FormatAddr(hosts[k])
  {
    if hosts == [] then [] else [FormatAddr(hosts[0])] + AddrTexts(hosts[1..])
  }

  /** `ping_sweep`: every host of the subnet pinged; `ip_network` rejecting the subnet raises. */
  function PingSweep(subnet: string, env: Env): Result<seq<Found>, string> {
    match ParseNetwork(subnet)
    case None => Err("ValueError")
    case Some(n) => Sweep(AddrTexts(Hosts(n)), env)
  }

  /**
   * The sweep raises exactly when `ping` cannot be run on some address; otherwise its rows
   * are those of the addresses that answered, in address order, each built by `ping_host`.
   */
  lemma {:induction false} SweepSpec(ips: seq<string>, env: Env)
    ensures Sweep(ips, env).Err? <==> exists k :: 0 <= k < |ips| && env.ping(ips[k]) == CannotRun
    ensures Sweep(ips, env).Ok? ==>
      var rows := Sweep(ips, env).value;
      && IpsOf(rows) == Responders(ips, env)
      && forall k :: 0 <= k < |rows| ==> rows[k] == PingRow(rows[k].ip, env)
  {
    if ips != [] {
      SweepSpec(ips[1..], env);
      if exists k :: 0 <= k < |ips| - 1 && env.ping(ips[1..][k]) == CannotRun {
        var k :| 0 <= k < |ips| - 1 && env.ping(ips[1..][k]) == CannotRun;
        assert env.ping(ips[k + 1]) == CannotRun;
      }
      if Sweep(ips, env).Ok? && env.ping(ips[0]) == Exited(0) {
        var rows := Sweep(ips[1..], env).value;
        assert IpsOf([PingRow(ips[0], env)] + rows) == [ips[0]] + IpsOf(rows);
      }
    }
  }

  /** An address answered exactly when it is one of the responders. */
  lemma {:induction false} RespondersMember(ips: seq<string>, env: Env, ip: string)
    ensures ip in Responders(ips, env) <==> ip in ips && env.ping(ip) == Exited(0)
  {
    if ips != [] {
      RespondersMember(ips[1..], env, ip);
      assert ips == [ips[0]] + ips[1..];
    }
  }

  /**
   * A ping row reports `"unknown"` exactly when the ARP cache gave no MAC, and a vendor only
   * when it gave one.
   */
  lemma PingRowMac(ip: string, env: Env)
    ensures var row := PingRow(ip, env);
      var mac := ArpCacheMac(env.arpCache(ip));
      && (row.mac == Unknown <==> mac.None?)
      && (mac.None? ==> row.vendor.None?)
      && (mac.Some? ==> row.mac == mac.value && row.vendor == env.vendor(mac.value))
  {
    var mac := ArpCacheMac(env.arpCache(ip));
    if mac.Some? {
      ArpCacheMacNormal(env.arpCache(ip));
      assert mac.value[0] != 'u' by {
        assert NormalMacChar(mac.value[0]);
      }
    }
  }

  /** `arp_scan`: scapy's answers, or the ping sweep when scapy is missing or not permitted. */
  function ArpScan(subnet: string, env: Env): Result<seq<Found>, string> {
    match env.arp
    case ScapyMissing => PingSweep(subnet, env)
    case PermissionDenied => PingSweep(subnet, env)
    case ScanFailed => Err("scan failed")
    case Answered(replies) => Ok(ArpDevices(replies, env))
  }

  /**
   * `scan_network`: the ARP scan tagged `"arp"`, or when it raises the ping sweep tagged
   * `"ping"`. The retried sweep runs its subprocesses again, so it sees the network as
   * `retry` describes it, which may differ from what the ARP attempt saw in `env`.
   */
  function ScanNetwork(subnet: string, env: Env, retry: Env): Result<(seq<Found>, string), string> {
    match ArpScan(subnet, env)
    case Ok(devices) => Ok((devices, "arp"))
    case Err(_) =>
      match PingSweep(subnet, retry)
      case Ok(devices) => Ok((devices, "ping"))
      case Err(e) => Err(e)
  }

  /**
   * `arp_scan` raises exactly when scapy's scan failed, or when scapy is missing or not
   * permitted and the sweep it fell back to raised.
   */
  lemma ArpScanFails(subnet: string, env: Env)
    ensures ArpScan(subnet, env).Err? <==>
      env.arp == ScanFailed || (!env.arp.Answered? && PingSweep(subnet, env).Err?)
  {
  }

  /**
   * The tag is `"ping"` exactly when `arp_scan` raised, either from scapy or from its own
   * fallback sweep; when scapy is missing or not permitted and that sweep returns, its rows
   * come back tagged `"arp"`. `scan_network` raises exactly when `arp_scan` raised and the
   * retried sweep raised too.
   */
  lemma ScanNetworkTag(subnet: string, env: Env, retry: Env)
    ensures ScanNetwork(subnet, env, retry).Ok? ==>
      (ScanNetwork(subnet, env, retry).value.1 == "ping" <==> ArpScan(subnet, env).Err?)
    ensures ScanNetwork(subnet, env, retry).Ok? ==>
      ScanNetwork(subnet, env, retry).value.1 == "arp" || ScanNetwork(subnet, env, retry).value.1 == "ping"
    ensures ScanNetwork(subnet, env, retry).Err? <==> ArpScan(subnet, env).Err? && PingSweep(subnet, retry).Err?
    ensures env.arp.Answered? ==> ScanNetwork(subnet, env, retry) == Ok((ArpDevices(env.arp.replies, env), "arp"))
    ensures (env.arp == ScapyMissing || env.arp == PermissionDenied) && PingSweep(subnet, env).Ok? ==>
      ScanNetwork(subnet, env, retry) == Ok((PingSweep(subnet, env).value, "arp"))
    ensures env.arp == ScanFailed && PingSweep(subnet, retry).Ok? ==>
      ScanNetwork(subnet, env, retry) == Ok((PingSweep(subnet, retry).value, "ping"))
    ensures !env.arp.Answered? && PingSweep(subnet, env).Err? && PingSweep(subnet, retry).Ok? ==>
      ScanNetwork(subnet, env, retry) == Ok((PingSweep(subnet, retry).value, "ping"))
  {
  }

  /** What `run_scan` receives from `scan_network(subnet)`. */
  function SubnetOutcome(subnet: string, env: Env, retry: Env): ScanTasks.SubnetOutcome {
    match ScanNetwork(subnet, env, retry)
    case Ok((devices, tag)) => ScanTasks.Scanned(devices, tag)
    case Err(_) => ScanTasks.Raised
  }

  /**
   * `run_scan` records `"ping"` exactly when, for some subnet, `arp_scan` raised and the
   * retried sweep returned.
   */
  lemma {:induction false} RecordedMethod(subnets: seq<string>, envs: seq<Env>, retries: seq<Env>)
    requires |envs| == |subnets| && |retries| == |subnets|
    ensures var outcomes := seq(|subnets|, k requires 0 <= k < |subnets| => SubnetOutcome(subnets[k], envs[k], retries[k]));
      ScanTasks.MethodOf(outcomes) == "ping" <==>
        exists k :: 0 <= k < |subnets| && ArpScan(subnets[k], envs[k]).Err? && PingSweep(subnets[k], retries[k]).Ok?
  {
    var outcomes := seq(|subnets|, k requires 0 <= k < |subnets| => SubnetOutcome(subnets[k], envs[k], retries[k]));
    ScanTasks.MethodOfSpec(outcomes);
    forall k | 0 <= k < |subnets|
      ensures (outcomes[k].Scanned? && outcomes[k].tag == "ping") <==>
        (ArpScan(subnets[k], envs[k]).Err? && PingSweep(subnets[k], retries[k]).Ok?)
    {
      ScanNetworkTag(subnets[k], envs[k], retries[k]);
    }
  }
}
