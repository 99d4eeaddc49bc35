/**
 * Reading a MAC address out of the output of `arp -n <ip>`, as the ping sweep of the LAN
 * scanner does (`_get_mac_from_arp_cache` in `scanner.py`): the leftmost text of the shape
 * `([0-9a-fA-F]{1,2}[:-]){5}[0-9a-fA-F]{1,2}`, upper-cased, with `-` replaced by `:`.
 *
 * The search is modelled position by position: `MacAt` is the pattern anchored at one index
 * and `MacSearch` the leftmost index where it matches. Adjacent parts of the pattern use
 * disjoint character classes, so greedy matching is the regular expression's own outcome.
 */
module ArpCache {
  import opened Wrappers
  import opened Strings


  predicate IsMacSep(c: char) {
    c == ':' || c == '-'
  }

  /** `[\da-fA-F]{1,2}` at `i`, greedy: the number of hex digits taken, 0 when there is none. */
  function HexPair(s: string, i: nat): (n: nat)
    requires i <= |s|
    ensures n <= 2 && i + n <= |s|
    ensures forall k :: i <= k < i + n ==> IsHexDigit(s[k])
  {
    if i < |s| && IsHexDigit(s[i]) then
      if i + 1 < |s| && IsHexDigit(s[i + 1]) then 2 else 1
    else 0
  }

  /**
   * `[\da-fA-F]{1,2}[:-]` at `i`: the index just past the separator. Taking one hex digit
   * where two are present cannot help, since the second is not a separator.
   */
  function MacGroup(s: string, i: nat): (r: Option<nat>)
    requires i <= |s|
    ensures r.Some? ==> i + 2 <= r.value <= i + 3 && r.value <= |s| && IsMacSep(s[r.value - 1])
  {
    var n := HexPair(s, i);
    if n == 0 || i + n == |s| || !IsMacSep(s[i + n]) then None else Some(i + n + 1)
  }

  /** `k` consecutive groups from `i`: the index past the last. */
  function MacGroups(s: string, i: nat, k: nat): (r: Option<nat>)
    requires i <= |s|
    ensures r.Some? ==> i + 2 * k <= r.value <= i + 3 * k && r.value <= |s|
    decreases k
  {
    if k == 0 then Some(i)
    else
      match MacGroup(s, i)
      case None => None
      case Some(j) => MacGroups(s, j, k - 1)
  }

  /** The final `[\da-fA-F]{1,2}` after the groups that end at `g`: the end of the match. */
  function MacTail(s: string, g: Option<nat>): (r: Option<nat>)
    requires g.Some? ==> g.value <= |s|
    ensures r.Some? ==> g.Some? && g.value < r.value <= g.value + 2 && r.value <= |s|
  {
    match g
    case None => None
    case Some(i) =>
      var n := HexPair(s, i);
      if n == 0 then None else Some(i + n)
  }

  /** The end of a match of the MAC pattern that starts at `p`. */
  function MacAt(s: string, p: nat): (r: Option<nat>)
    requires p <= |s|
    ensures r.Some? ==> p + 11 <= r.value <= p + 17 && r.value <= |s|
  {
    MacTail(s, MacGroups(s, p, 5))
  }

  /** A match consists of hex digits and separators only. */
  predicate MacChars(s: string, i: nat, j: nat)
    requires i <= j <= |s|
  {
    forall x :: i <= x < j ==> IsHexDigit(s[x]) || IsMacSep(s[x])
  }

  lemma {:induction false} GroupsChars(s: string, i: nat, k: nat)
    requires i <= |s| && MacGroups(s, i, k).Some?
    ensures MacChars(s, i, MacGroups(s, i, k).value)
    decreases k
  {
    if k > 0 {
      var j := MacGroup(s, i).value;
      GroupsChars(s, j, k - 1);
      assert HexPair(s, i) == j - i - 1;
    }
  }

  lemma MacAtChars(s: string, p: nat)
    requires p <= |s| && MacAt(s, p).Some?
    ensures MacChars(s, p, MacAt(s, p).value)
  {
    var i := MacGroups(s, p, 5).value;
    GroupsChars(s, p, 5);
    assert HexPair(s, i) == MacAt(s, p).value - i;
  }

  /** The match starting at each position of `s`, the end position included. */
  function MacMatches(s: string): (r: seq<Option<nat>>)
    ensures |r| == |s| + 1 && forall x :: 0 <= x <= |s| ==> r[x] == MacAt(s, x)
  {
    seq(|s| + 1, x requires 0 <= x <= |s| => MacAt(s, x))
  }

  /** The first position from `p` on that starts a match, with the match's end. */
  function FirstMatch(m: seq<Option<nat>>, p: nat): (r: Option<(nat, nat)>)
    requires p <= |m|
    ensures r.Some? ==> p <= r.value.0 < |m| && m[r.value.0] == Some(r.value.1)
    decreases |m| - p
  {
    if p == |m| then None
    else
      match m[p]
      case Some(e) => Some((p, e))
      case None => FirstMatch(m, p + 1)
  }

  /** The first match is the leftmost one, and there is none only when no position starts one. */
  lemma {:induction false} FirstMatchLeftmost(m: seq<Option<nat>>, p: nat)
    requires p <= |m|
    ensures FirstMatch(m, p).Some? ==> forall x :: p <= x < FirstMatch(m, p).value.0 ==> m[x].None?
    ensures FirstMatch(m, p).None? ==> forall x :: p <= x < |m| ==> m[x].None?
    decreases |m| - p
  {
    if p < |m| && m[p].None? {
      FirstMatchLeftmost(m, p + 1);
    }
  }

  /** `re.search`: the bounds of the leftmost match. */
  function MacSearch(s: string): (r: Option<(nat, nat)>)
    ensures r.Some? ==> r.value.0 <= |s| && MacAt(s, r.value.0) == Some(r.value.1)
  {
    FirstMatch(MacMatches(s), 0)
  }

  /** No match starts anywhere in `[p, q)`. */
  predicate NoMacIn(s: string, p: nat, q: nat)
    requires q <= |s| + 1
  {
    forall x :: p <= x < q ==> MacAt(s, x).None?
  }

  /** The search finds the leftmost match, and finds none only when no position starts one. */
  lemma MacSearchLeftmost(s: string)
    ensures MacSearch(s).Some? ==> NoMacIn(s, 0, MacSearch(s).value.0)
    ensures MacSearch(s).None? ==> NoMacIn(s, 0, |s| + 1)
  {
    FirstMatchLeftmost(MacMatches(s), 0);
  }

  /** `m.upper().replace("-", ":")`. */
  function NormalizeMac(m: string): string {
    ReplaceChar(Upper(m), '-', ':')
  }

  /**
   * `_get_mac_from_arp_cache`: the first MAC-shaped text in the output of `arp -n ip`,
   * normalised; `None` when there is none or when running `arp` raised (`output` is `None`).
   */
  function ArpCacheMac(output: Option<string>): Option<string> {
    match output
    case None => None
    case Some(o) =>
      match MacSearch(o)
      case None => None
      case Some((b, e)) => Some(NormalizeMac(o[b..e]))
  }

  /** A character of a normalised MAC: a digit, an upper-case hex letter, or `:`. */
  predicate NormalMacChar(c: char) {
    IsDigit(c) || 'A' <= c <= 'F' || c == ':'
  }

  /** Every character of `m` is one a normalised MAC has. */
  predicate NormalMac(m: string) {
    forall x :: 0 <= x < |m| ==> NormalMacChar(m[x])
  }

  /** Normalising one character: upper case, and `-` becomes `:`. */
  function NormalizeMacChar(c: char): char {
    if UpperChar(c) == '-' then ':' else UpperChar(c)
  }

  lemma NormalizeMacIndex(u: string, x: nat)
    requires x < |u|
    ensures |NormalizeMac(u)| == |u| && NormalizeMac(u)[x] == NormalizeMacChar(u[x])
  {
  }

  /** A hex digit or separator, normalised, is a character a normalised MAC has. */
  lemma NormalizeMacCharKind(c: char)
    requires IsHexDigit(c) || IsMacSep(c)
    ensures NormalMacChar(NormalizeMacChar(c))
  {
  }

  lemma SliceChars(o: string, b: nat, e: nat)
    requires b <= e <= |o| && MacChars(o, b, e)
    ensures MacChars(o[b..e], 0, e - b)
  {
    forall x | 0 <= x < e - b
      ensures IsHexDigit(o[b..e][x]) || IsMacSep(o[b..e][x])
    {
      assert o[b..e][x] == o[b + x];
    }
  }

  /** A normalised MAC is its own normal form. */
  lemma NormalizeMacFixed(m: string)
    requires NormalMac(m)
    ensures NormalizeMac(m) == m
  {
  }

  /** A match, normalised, has 11 to 17 characters, all of them normal. */
  lemma NormalizedMatch(o: string, b: nat, e: nat)
    requires b <= |o| && MacAt(o, b) == Some(e)
    ensures var m := NormalizeMac(o[b..e]);
      11 <= |m| <= 17 && NormalMac(m)
  {
    var u := o[b..e];
    var m := NormalizeMac(u);
    MacAtChars(o, b);
    SliceChars(o, b, e);
    forall x | 0 <= x < |m|
      ensures NormalMacChar(m[x])
    {
      NormalizeMacIndex(u, x);
      NormalizeMacCharKind(u[x]);
    }
  }

  /**
   * A MAC read from the ARP cache is the leftmost MAC-shaped text of the output, normalised;
   * it has 11 to 17 characters, each a digit, an upper-case hex letter or `:`, and
   * normalising it again changes nothing.
   */
  lemma ArpCacheMacNormal(output: Option<string>)
    requires ArpCacheMac(output).Some?
    ensures output.Some? && MacSearch(output.value).Some?
    ensures var o := output.value;
      var (b, e) := MacSearch(o).value;
      var m := ArpCacheMac(output).value;
      && b < e <= |o| && MacAt(o, b) == Some(e) && NoMacIn(o, 0, b)
      && m == NormalizeMac(o[b..e])
      && 11 <= |m| <= 17 && NormalMac(m) && NormalizeMac(m) == m
  {
    var o := output.value;
    var (b, e) := MacSearch(o).value;
    MacSearchLeftmost(o);
    NormalizedMatch(o, b, e);
    NormalizeMacFixed(NormalizeMac(o[b..e]));
  }

  /** Text with no MAC-shaped part has no MAC, and neither has a failed `arp` command. */
  lemma ArpCacheMacNone(output: Option<string>)
    ensures ArpCacheMac(output).None? <==> output.None? || NoMacIn(output.value, 0, |output.value| + 1)
  {
    if output.Some? {
      MacSearchLeftmost(output.value);
    }
  }
}
