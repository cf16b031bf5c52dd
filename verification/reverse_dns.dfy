/**
 * Reverse-lookup names (dns.rs `reverse_dns_addr`): `d.c.b.a.in-addr.arpa`
 * names the IPv4 address a.b.c.d (section 3.5 of RFC 1035) and 32
 * single-nibble labels under `ip6.arpa`, least significant first, name an
 * IPv6 address (section 2.5 of RFC 3596).
 *
 * The name is split on dots and read from the right. After the `in-addr` or
 * `ip6` label every remaining label is consumed by the address parser
 * (`join` drains the iterator), so the source's final "labels left over"
 * test can never fire and has no counterpart here.
 */
module ReverseDns {

  import opened Wrappers
  import opened Text
  import opened Ip

  const ArpaLabel := "arpa"
  const InAddrLabel := "in-addr"
  const Ip6Label := "ip6"

  function Reverse<T>(s: seq<T>): (r: seq<T>)
    ensures |r| == |s|
    ensures forall i :: 0 <= i < |s| ==> r[i] == s[|s| - 1 - i]
  {
    if s == [] then [] else Reverse(s[1..]) + [s[0]]
  }

  /** Itertools' `chunks(n)`: consecutive groups of `n`, the last one possibly shorter. */
  function Chunks(xs: seq<string>, n: nat): (cs: seq<seq<string>>)
    requires n > 0
    ensures forall i :: 0 <= i < |cs| ==> 1 <= |cs[i]| <= n
    decreases |xs|
  {
    if xs == [] then []
    else if |xs| <= n then [xs]
    else [xs[..n]] + Chunks(xs[n..], n)
  }

  lemma {:induction false} ChunksCount(xs: seq<string>)
    ensures |Chunks(xs, 4)| == (|xs| + 3) / 4
    decreases |xs|
  {
    if |xs| > 4 {
      ChunksCount(xs[4..]);
    }
  }

  /** Chunk `g` is the four labels from `4 * g` on, or the remainder for the last chunk. */
  lemma {:induction false} ChunkAt(xs: seq<string>, g: nat)
    requires 4 * g < |xs|
    ensures |Chunks(xs, 4)| > g
    ensures 4 * g + 4 <= |xs| ==> Chunks(xs, 4)[g] == xs[4 * g .. 4 * g + 4]
    ensures 4 * g + 4 > |xs| ==> Chunks(xs, 4)[g] == xs[4 * g ..]
    decreases g
  {
    if g > 0 {
      ChunkAt(xs[4..], g - 1);
      assert xs[4..][4 * (g - 1) ..] == xs[4 * g ..];
      if 4 * g + 4 <= |xs| {
        assert xs[4..][4 * (g - 1) .. 4 * (g - 1) + 4] == xs[4 * g .. 4 * g + 4];
      }
    }
  }

  lemma ChunksOfFour(xs: seq<string>, g: nat)
    requires |xs| % 4 == 0 && g < |xs| / 4
    ensures |Chunks(xs, 4)| == |xs| / 4
    ensures Chunks(xs, 4)[g] == xs[4 * g .. 4 * g + 4]
  {
    ChunksCount(xs);
    ChunkAt(xs, g);
  }

  /** Each chunk's labels run together (`s.join("")`). */
  function ChunkTexts(cs: seq<seq<string>>): (ts: seq<string>)
    ensures |ts| == |cs|
    ensures forall i :: 0 <= i < |cs| ==> ts[i] == Concat(cs[i])
  {
    seq(|cs|, i requires 0 <= i < |cs| => Concat(cs[i]))
  }

  lemma ConcatFour(c: seq<string>)
    requires |c| == 4
    ensures Concat(c) == c[0] + c[1] + c[2] + c[3]
  {
    assert c[1..][1..][1..][1..] == [];
    assert Concat(c[1..][1..][1..]) == c[3];
    assert Concat(c[1..][1..]) == c[2] + c[3];
  }

  lemma {:induction false} ConcatNoSeparator(parts: seq<string>, sep: char)
    requires NoSeparator(parts, sep)
    ensures sep !in Concat(parts)
  {
    if parts != [] {
      ConcatNoSeparator(parts[1..], sep);
    }
  }

  /** `reverse_dns_addr_v4`: the labels after `in-addr`, joined by dots, as a dotted quad. */
  function ReverseDnsAddrV4(labels: seq<string>): Option<Ipv4Addr>
  {
    ParseIpv4(Join(labels, '.'))
  }

  /** `reverse_dns_addr_v6` as written: the labels in groups of four, each run together, joined by colons. */
  function ReverseDnsAddrV6AsWritten(labels: seq<string>): Option<Ipv6Addr>
  {
    ParseIpv6(Join(ChunkTexts(Chunks(labels, 4)), ':'))
  }

  /** `reverse_dns_addr_v6` restricted to what section 2.5 of RFC 3596 allows: exactly 32 one-nibble labels. */
  function ReverseDnsAddrV6(labels: seq<string>): (r: Option<Ipv6Addr>)
    ensures r.Some? ==> |labels| == 32 && forall i :: 0 <= i < 32 ==> |labels[i]| == 1
  {
    if |labels| == 32 && forall i :: 0 <= i < 32 ==> |labels[i]| == 1 then ReverseDnsAddrV6AsWritten(labels)
    else None
  }

  /** The decision on the labels read right to left (`parts[0]` is the last label of the name). */
  function FromReversedParts(parts: seq<string>): Option<IpAddr>
  {
    if parts == [] || parts[0] != ArpaLabel || |parts| < 2 then None
    else if parts[1] == InAddrLabel then
      match ReverseDnsAddrV4(parts[2..])
      case Some(a) => Some(V4(a))
      case None => None
    else if parts[1] == Ip6Label then
      match ReverseDnsAddrV6(parts[2..])
      case Some(a) => Some(V6(a))
      case None => None
    else None
  }

  /** As `FromReversedParts`, with the IPv6 labels read as the source does. */
  function FromReversedPartsAsWritten(parts: seq<string>): Option<IpAddr>
  {
    if parts == [] || parts[0] != ArpaLabel || |parts| < 2 then None
    else if parts[1] == InAddrLabel then
      match ReverseDnsAddrV4(parts[2..])
      case Some(a) => Some(V4(a))
      case None => None
    else if parts[1] == Ip6Label then
      match ReverseDnsAddrV6AsWritten(parts[2..])
      case Some(a) => Some(V6(a))
      case None => None
    else None
  }

  /** `reverse_dns_addr`, with the IPv6 form held to exactly 32 nibbles. */
  function ReverseDnsAddr(name: string): Option<IpAddr>
  {
    FromReversedParts(Reverse(Split(name, '.')))
  }

  /** `reverse_dns_addr` as written. */
  function ReverseDnsAddrAsWritten(name: string): Option<IpAddr>
  {
    FromReversedPartsAsWritten(Reverse(Split(name, '.')))
  }

  /**
   * The names on which the two readings cannot part: a name under
   * `ip6.arpa` carries there exactly 32 one-character labels.
   */
  predicate NibbleFormUnderIp6(name: string)
  {
    var parts := Reverse(Split(name, '.'));
    |parts| >= 2 && parts[0] == ArpaLabel && parts[1] == Ip6Label ==>
      |parts| == 34 && forall i :: 2 <= i < 34 ==> |parts[i]| == 1
  }

  /**
   * The code as written reads every name the corrected reading accepts the
   * same way, and reads every name in nibble form the same way.
   */
  lemma ReverseDnsAddrAsWrittenAgrees(name: string)
    ensures ReverseDnsAddr(name).Some? ==> ReverseDnsAddrAsWritten(name) == ReverseDnsAddr(name)
    ensures NibbleFormUnderIp6(name) ==> ReverseDnsAddrAsWritten(name) == ReverseDnsAddr(name)
  {
  }

  // ---------------------------------------------------- reverse names

  /** The reverse-lookup labels of an address: the octets or nibbles least significant first, then the zone. */
  function PtrLabels(ip: IpAddr): (ls: seq<string>)
    ensures |ls| >= 2
  {
    match ip
    case V4(a) => [OctetText(a[3]), OctetText(a[2]), OctetText(a[1]), OctetText(a[0]), InAddrLabel, ArpaLabel]
    case V6(a) => ReversedNibbleLabels(a) + [Ip6Label, ArpaLabel]
  }

  /** The 32 one-nibble labels of an IPv6 address, least significant first. */
  function ReversedNibbleLabels(a: Ipv6Addr): (ls: seq<string>)
    ensures |ls| == 32
    ensures forall i :: 0 <= i < 32 ==> ls[i] == [HexDigit(Nibbles(a)[31 - i])]
  {
    Reverse(NibbleLabels(a))
  }

  /** The reverse-lookup name of an address, as text. */
  function PtrName(ip: IpAddr): string
  {
    Join(PtrLabels(ip), '.')
  }

  /** Reading a name given by its labels is reading those labels right to left. */
  lemma ReverseDnsAddrOfLabels(ls: seq<string>)
    requires |ls| >= 1 && NoSeparator(ls, '.')
    ensures ReverseDnsAddr(Join(ls, '.')) == FromReversedParts(Reverse(ls))
    ensures ReverseDnsAddrAsWritten(Join(ls, '.')) == FromReversedPartsAsWritten(Reverse(ls))
  {
    SplitJoin(ls, '.');
  }

  lemma PtrLabelsNoDots(ip: IpAddr)
    ensures NoSeparator(PtrLabels(ip), '.')
  {
    match ip
    case V4(a) =>
      OctetRoundTrip(a[0]); OctetRoundTrip(a[1]); OctetRoundTrip(a[2]); OctetRoundTrip(a[3]);
    case V6(a) =>
      var ls := PtrLabels(ip);
      forall i | 0 <= i < |ls| ensures '.' !in ls[i] {
        if i < 32 {
          assert ls[i] == [HexDigit(Nibbles(a)[31 - i])];
        }
      }
  }

  lemma ReverseV4RoundTrip(a: Ipv4Addr)
    ensures ReverseDnsAddrV4([OctetText(a[0]), OctetText(a[1]), OctetText(a[2]), OctetText(a[3])]) == Some(a)
  {
    var parts := [OctetText(a[0]), OctetText(a[1]), OctetText(a[2]), OctetText(a[3])];
    OctetRoundTrip(a[0]); OctetRoundTrip(a[1]); OctetRoundTrip(a[2]); OctetRoundTrip(a[3]);
    SplitJoin(parts, '.');
    var r := ParseIpv4Parts(parts);
    assert r.Some?;
    assert r.value == a;
  }

  /** The 32 one-nibble labels of an IPv6 address, most significant first. */
  function NibbleLabels(a: Ipv6Addr): (ls: seq<string>)
    ensures |ls| == 32
    ensures forall i :: 0 <= i < 32 ==> ls[i] == [HexDigit(Nibbles(a)[i])]
  {
    seq(32, i requires 0 <= i < 32 => [HexDigit(Nibbles(a)[i])])
  }

  lemma NibbleGroup(a: Ipv6Addr, g: nat)
    requires g < 8
    ensures |Chunks(NibbleLabels(a), 4)| == 8
    ensures Concat(Chunks(NibbleLabels(a), 4)[g]) == GroupText(a, g)
  {
    var labels := NibbleLabels(a);
    ChunksOfFour(labels, g);
    var c := labels[4 * g .. 4 * g + 4];
    ConcatFour(c);
    NibbleAt(a, g, 0);
    NibbleAt(a, g, 1);
    NibbleAt(a, g, 2);
    NibbleAt(a, g, 3);
    assert c[0] == labels[4 * g] && c[1] == labels[4 * g + 1] && c[2] == labels[4 * g + 2] && c[3] == labels[4 * g + 3];
  }

  /** Nibble `k` of group `g` is nibble `4 * g + k` of the address. */
  lemma NibbleAt(a: Ipv6Addr, g: nat, k: nat)
    requires g < 8 && k < 4
    ensures Nibbles(a)[4 * g + k] == SegmentNibble(a[g], k)
  {
    assert (4 * g + k) / 4 == g && (4 * g + k) % 4 == k;
  }

  lemma ReverseV6RoundTrip(a: Ipv6Addr)
    ensures ReverseDnsAddrV6(NibbleLabels(a)) == Some(a)
  {
    var labels := NibbleLabels(a);
    NibbleGroup(a, 0);
    var groups := ChunkTexts(Chunks(labels, 4));
    forall g | 0 <= g < 8 ensures groups[g] == GroupText(a, g) && ParseGroup(groups[g]) == Some(a[g]) && ':' !in groups[g] {
      NibbleGroup(a, g);
      GroupRoundTrip(a, g);
    }
    SplitJoin(groups, ':');
    var r := ParseIpv6Groups(groups);
    assert r.Some?;
    assert r.value == a;
  }

  /** Every address is read back from its reverse-lookup name. */
  lemma ReverseDnsAddrRoundTrip(ip: IpAddr)
    ensures ReverseDnsAddr(PtrName(ip)) == Some(ip)
  {
    PtrLabelsNoDots(ip);
    ReverseDnsAddrOfLabels(PtrLabels(ip));
    match ip
    case V4(a) =>
      ReversedV4Labels(a);
      ReverseV4RoundTrip(a);
    case V6(a) =>
      ReversedV6Labels(a);
      ReverseV6RoundTrip(a);
  }

  lemma ReversedV4Labels(a: Ipv4Addr)
    ensures Reverse(PtrLabels(V4(a))) == [ArpaLabel, InAddrLabel] + [OctetText(a[0]), OctetText(a[1]), OctetText(a[2]), OctetText(a[3])]
  {
  }

  lemma ReversedV6Labels(a: Ipv6Addr)
    ensures Reverse(PtrLabels(V6(a))) == [ArpaLabel, Ip6Label] + NibbleLabels(a)
  {
    var parts := Reverse(PtrLabels(V6(a)));
    var rest := parts[2..];
    forall i | 0 <= i < 32 ensures rest[i] == NibbleLabels(a)[i] {
      assert rest[i] == parts[i + 2] == PtrLabels(V6(a))[31 - i];
    }
    assert parts == parts[..2] + rest;
  }

  // -------------------------------------------------- names that are refused

  /** A name whose last label is not `arpa`, or whose next label is neither `in-addr` nor `ip6`, names no address. */
  lemma ReverseDnsAddrWrongZone(ls: seq<string>)
    requires |ls| >= 1 && NoSeparator(ls, '.')
    requires ls[|ls| - 1] != ArpaLabel || |ls| < 2 || (ls[|ls| - 2] != InAddrLabel && ls[|ls| - 2] != Ip6Label)
    ensures ReverseDnsAddr(Join(ls, '.')) == None
  {
    ReverseDnsAddrOfLabels(ls);
  }

  /** Under `in-addr`, anything but exactly four labels (an extra leading octet, 32 nibbles) names no address. */
  lemma ReverseDnsAddrV4WrongCount(labels: seq<string>)
    requires NoSeparator(labels, '.') && |labels| != 4
    ensures ReverseDnsAddrV4(labels) == None
  {
    if labels == [] {
      assert Split("", '.') == [""];
    } else {
      SplitJoin(labels, '.');
    }
  }

  /** Under `ip6`, anything but exactly 32 labels (four octets, an extra leading nibble) names no address. */
  lemma ReverseDnsAddrV6WrongCount(labels: seq<string>)
    requires |labels| != 32
    ensures ReverseDnsAddrV6(labels) == None
  {
  }

  /** The code as written refuses, under `ip6`, fewer than 29 and more than 32 labels free of colons. */
  lemma ReverseDnsAddrV6AsWrittenCount(labels: seq<string>)
    requires |labels| < 29 || |labels| > 32
    requires NoSeparator(labels, ':')
    ensures ReverseDnsAddrV6AsWritten(labels) == None
  {
    var cs := Chunks(labels, 4);
    var groups := ChunkTexts(cs);
    ChunksCount(labels);
    assert |groups| != 8;
    forall g | 0 <= g < |groups| ensures ':' !in groups[g] {
      forall j | 0 <= j < |cs[g]| ensures ':' !in cs[g][j] {
        ChunkAt(labels, g);
        if 4 * g + 4 <= |labels| {
          assert cs[g][j] == labels[4 * g + j];
        } else {
          assert cs[g][j] == labels[4 * g + j];
        }
      }
      ConcatNoSeparator(cs[g], ':');
    }
    if groups == [] {
      assert Split("", ':') == [""];
    } else {
      JoinSplitCount(groups);
    }
  }

  /** Joining `k >= 1` pieces by colons and splitting again gives at least `k` pieces. */
  lemma {:induction false} JoinSplitCount(groups: seq<string>)
    requires |groups| >= 1
    ensures |Split(Join(groups, ':'), ':')| >= |groups|
    ensures |groups| > 8 ==> |Split(Join(groups, ':'), ':')| != 8
    ensures |groups| < 8 && NoSeparator(groups, ':') ==> |Split(Join(groups, ':'), ':')| != 8
  {
    SplitCountAtLeast(groups);
    if NoSeparator(groups, ':') {
      SplitJoin(groups, ':');
    }
  }

  lemma {:induction false} SplitCountAtLeast(groups: seq<string>)
    requires |groups| >= 1
    ensures |Split(Join(groups, ':'), ':')| >= |groups|
  {
    if |groups| > 1 {
      SplitCountAtLeast(groups[1..]);
      SplitCountAfter(groups[0], Join(groups[1..], ':'));
    }
  }

  lemma {:induction false} SplitCountAfter(p: string, rest: string)
    ensures |Split(p + [':'] + rest, ':')| >= |Split(rest, ':')| + 1
    decreases |p|
  {
    if p == [] {
      assert p + [':'] + rest == [':'] + rest;
      assert ([':'] + rest)[1..] == rest;
    } else {
      SplitCountAfter(p[1..], rest);
      assert (p + [':'] + rest)[1..] == p[1..] + [':'] + rest;
    }
  }

  // ------------------------------------------------------------- finding

  /**
   * The code as written accepts 29 zero labels under `ip6.arpa`: the last
   * chunk holds a single label, which Rust's parser reads as a one-digit
   * group. Section 2.5 of RFC 3596 requires 32 nibbles, and the corrected
   * reading refuses the name.
   */
  lemma ReverseDnsAddrShortV6Accepted()
    ensures var ls := seq(29, _ => "0") + [Ip6Label, ArpaLabel];
            && ReverseDnsAddrAsWritten(Join(ls, '.')) == Some(V6([0, 0, 0, 0, 0, 0, 0, 0]))
            && ReverseDnsAddr(Join(ls, '.')) == None
  {
    var ls := seq(29, _ => "0") + [Ip6Label, ArpaLabel];
    ReverseDnsAddrOfLabels(ls);
    var parts := Reverse(ls);
    assert parts[0] == ArpaLabel && parts[1] == Ip6Label;
    assert parts[2..] == seq(29, _ => "0");
    ShortZeroLabelsParse();
  }

  /** The 29 zero labels make seven groups "0000" and a last group "0". */
  lemma ShortZeroGroups()
    ensures ChunkTexts(Chunks(seq(29, _ => "0"), 4)) == seq(7, _ => "0000") + ["0"]
  {
    var labels: seq<string> := seq(29, _ => "0");
    var cs := Chunks(labels, 4);
    ChunksCount(labels);
    var groups := ChunkTexts(cs);
    forall g | 0 <= g < 7 ensures groups[g] == "0000" {
      ChunkAt(labels, g);
      var c := cs[g];
      assert c == ["0", "0", "0", "0"];
      ConcatFour(c);
    }
    ChunkAt(labels, 7);
    assert cs[7] == ["0"];
    assert Concat(["0"]) == "0" by {
      assert ["0"][1..] == [];
    }
  }

  lemma ShortZeroLabelsParse()
    ensures ReverseDnsAddrV6AsWritten(seq(29, _ => "0")) == Some([0, 0, 0, 0, 0, 0, 0, 0])
  {
    var groups := seq(7, _ => "0000") + ["0"];
    ShortZeroGroups();
    assert forall g :: 0 <= g < 8 ==> ':' !in groups[g];
    SplitJoin(groups, ':');
    assert ParseGroup("0000") == Some(0) by {
      assert "0000"[..3][..2][..1][..0] == [];
    }
    assert ParseGroup("0") == Some(0) by {
      assert "0"[..0] == [];
    }
    var r := ParseIpv6Groups(groups);
    assert r.Some?;
    assert r.value == [0, 0, 0, 0, 0, 0, 0, 0];
  }

  // ---------------------------------------------------- the unit-test vectors

  /** `reverse_dns_addr_works_v4`: `1.2.3.4.in-addr.arpa` names 4.3.2.1. */
  lemma ReverseDnsAddrV4Works(ls: seq<string>)
    requires ls == ["1", "2", "3", "4", "in-addr", "arpa"]
    ensures ReverseDnsAddr(Join(ls, '.')) == Some(V4([4, 3, 2, 1]))
  {
    var ip := V4([4, 3, 2, 1]);
    ReverseDnsAddrRoundTrip(ip);
    assert OctetText(1) == "1" && OctetText(2) == "2" && OctetText(3) == "3" && OctetText(4) == "4";
    assert PtrLabels(ip) == ls;
  }

  /** `reverse_dns_v4_addr_extra_number`: `0.1.2.3.4.in-addr.arpa` names no address. */
  lemma ReverseDnsAddrV4ExtraNumber(ls: seq<string>)
    requires ls == ["0", "1", "2", "3", "4", "in-addr", "arpa"]
    ensures ReverseDnsAddr(Join(ls, '.')) == None
  {
    assert NoSeparator(ls, '.');
    ReverseDnsAddrOfLabels(ls);
    assert Reverse(ls)[2..] == ["4", "3", "2", "1", "0"];
    ReverseDnsAddrV4WrongCount(["4", "3", "2", "1", "0"]);
  }

  /** `reverse_dns_addr_wrong_ending` and `reverse_dns_v4_addr_with_ip6_ending`: `1.2.3.4.in-addr.carpa` and `1.2.3.4.ip6.arpa` name no address. */
  lemma ReverseDnsAddrWrongEndings(carpa: seq<string>, ip6: seq<string>)
    requires carpa == ["1", "2", "3", "4", "in-addr", "carpa"]
    requires ip6 == ["1", "2", "3", "4", "ip6", "arpa"]
    ensures ReverseDnsAddr(Join(carpa, '.')) == None
    ensures ReverseDnsAddr(Join(ip6, '.')) == None
  {
    assert NoSeparator(carpa, '.');
    ReverseDnsAddrWrongZone(carpa);
    assert NoSeparator(ip6, '.');
    ReverseDnsAddrOfLabels(ip6);
    assert Reverse(ip6)[2..] == ["4", "3", "2", "1"];
  }

  /** `reverse_dns_addr_v6_extra_number`: 33 labels under `ip6.arpa` name no address, as written or corrected. */
  lemma ReverseDnsAddrV6ExtraNumber(nibbles: seq<string>)
    requires |nibbles| == 33 && NoSeparator(nibbles, '.') && NoSeparator(nibbles, ':')
    ensures ReverseDnsAddr(Join(nibbles + [Ip6Label, ArpaLabel], '.')) == None
    ensures ReverseDnsAddrAsWritten(Join(nibbles + [Ip6Label, ArpaLabel], '.')) == None
  {
    var ls := nibbles + [Ip6Label, ArpaLabel];
    assert NoSeparator(ls, '.');
    ReverseDnsAddrOfLabels(ls);
    assert Reverse(ls)[2..] == Reverse(nibbles);
    ReverseDnsAddrV6AsWrittenCount(Reverse(nibbles));
  }

  /** `reverse_dns_addr_v6_ipv4_ending`: 32 labels under `in-addr.arpa` name no address. */
  lemma ReverseDnsAddrV6Ipv4Ending(nibbles: seq<string>)
    requires |nibbles| == 32 && NoSeparator(nibbles, '.')
    ensures ReverseDnsAddr(Join(nibbles + [InAddrLabel, ArpaLabel], '.')) == None
  {
    var ls := nibbles + [InAddrLabel, ArpaLabel];
    assert NoSeparator(ls, '.');
    ReverseDnsAddrOfLabels(ls);
    assert Reverse(ls)[2..] == Reverse(nibbles);
    ReverseDnsAddrV4WrongCount(Reverse(nibbles));
  }
}
