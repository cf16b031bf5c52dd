/**
 * IP addresses as the source uses them (`std::net::IpAddr`): an IPv4
 * address is four octets, an IPv6 address eight 16-bit segments, most
 * significant first. The textual parsers are the simplified forms of Rust's
 * `Ipv4Addr`/`Ipv6Addr` parsers that the reverse-lookup code needs.
 */
module Ip {

  import opened Wrappers
  import opened Text

  type Octet = x: int | 0 <= x < 0x100
  type Segment = x: int | 0 <= x < 0x1_0000
  type Port = x: int | 0 <= x < 0x1_0000

  type Ipv4Addr = s: seq<Octet> | |s| == 4 witness [0, 0, 0, 0]
  type Ipv6Addr = s: seq<Segment> | |s| == 8 witness [0, 0, 0, 0, 0, 0, 0, 0]

  datatype IpAddr = V4(v4: Ipv4Addr) | V6(v6: Ipv6Addr)

  /** `SocketAddr`: an address and a port. */
  datatype SocketAddr = SocketAddr(ip: IpAddr, port: Port)

  /** `get_v4`: the IPv4 address, if it is one. */
  function GetV4(ip: IpAddr): (r: Option<Ipv4Addr>)
    ensures r.Some? <==> ip.V4?
    ensures r.Some? ==> ip == V4(r.value)
  {
    match ip
    case V4(a) => Some(a)
    case V6(_) => None
  }

  /** `get_v6`: the IPv6 address, if it is one. */
  function GetV6(ip: IpAddr): (r: Option<Ipv6Addr>)
    ensures r.Some? <==> ip.V6?
    ensures r.Some? ==> ip == V6(r.value)
  {
    match ip
    case V4(_) => None
    case V6(a) => Some(a)
  }

  /** The IPv4 members of a set of addresses (`filter_map(get_v4)`). */
  function V4Addresses(ips: set<IpAddr>): (r: set<Ipv4Addr>)
    ensures forall a :: a in r <==> V4(a) in ips
  {
    set ip | ip in ips && GetV4(ip).Some? :: GetV4(ip).value
  }

  /** The IPv6 members of a set of addresses (`filter_map(get_v6)`). */
  function V6Addresses(ips: set<IpAddr>): (r: set<Ipv6Addr>)
    ensures forall a :: a in r <==> V6(a) in ips
  {
    set ip | ip in ips && GetV6(ip).Some? :: GetV6(ip).value
  }

  // ------------------------------------------------------ sentinel ranges

  /** 100.100.111.0/24, the IPv4 range of sentinel DNS addresses. */
  const SentinelV4Prefix: seq<Octet> := [100, 100, 111]

  /** The first 112 bits of fd00:2021:1111:8000:100:100:111:0/120. */
  const SentinelV6Prefix: seq<Segment> := [0xfd00, 0x2021, 0x1111, 0x8000, 0x0100, 0x0100, 0x0111]

  /** `IpNetwork::contains` for 100.100.111.0/24 (an IPv6 address is never inside). */
  predicate InSentinelV4(ip: IpAddr)
  {
    ip.V4? && ip.v4[..3] == SentinelV4Prefix
  }

  /** `IpNetwork::contains` for the /120 IPv6 sentinel range: the last 8 bits are free. */
  predicate InSentinelV6(ip: IpAddr)
  {
    ip.V6? && ip.v6[..7] == SentinelV6Prefix && ip.v6[7] < 0x100
  }

  predicate InSentinelRange(ip: IpAddr)
  {
    InSentinelV4(ip) || InSentinelV6(ip)
  }

  /** The address at offset `k` of the sentinel range of the family of `ip`. */
  function SentinelAddress(v4: bool, k: nat): (r: IpAddr)
    requires k < 0x100
    ensures InSentinelRange(r) && r.V4? == v4
  {
    if v4 then V4(SentinelV4Prefix + [k]) else V6(SentinelV6Prefix + [k])
  }

  // ----------------------------------------------------- textual parsing

  /** The value of a string of decimal digits. */
  function DecimalValue(p: string): nat
    requires forall i :: 0 <= i < |p| ==> IsDecimalDigit(p[i])
  {
    if p == [] then 0 else DecimalValue(p[..|p| - 1]) * 10 + DecimalDigitValue(p[|p| - 1])
  }

  /**
   * One part of a dotted quad, as Rust's `Ipv4Addr` parser reads it: one to
   * three decimal digits, no leading zero, at most 255.
   */
  function ParseOctet(p: string): (r: Option<Octet>)
    ensures r.Some? ==> 1 <= |p| <= 3
  {
    if 1 <= |p| <= 3 && (forall i :: 0 <= i < |p| ==> IsDecimalDigit(p[i]))
       && (|p| > 1 ==> p[0] != '0') && DecimalValue(p) < 0x100
    then Some(DecimalValue(p))
    else None
  }

  /** Dotted quad text of an octet, without leading zeros. */
  function OctetText(n: Octet): (t: string)
    ensures 1 <= |t| <= 3
  {
    if n < 10 then [DecimalDigit(n)]
    else if n < 100 then [DecimalDigit(n / 10), DecimalDigit(n % 10)]
    else [DecimalDigit(n / 100), DecimalDigit(n / 10 % 10), DecimalDigit(n % 10)]
  }

  lemma OctetRoundTrip(n: Octet)
    ensures ParseOctet(OctetText(n)) == Some(n)
    ensures '.' !in OctetText(n)
  {
    var t := OctetText(n);
    if n < 10 {
    } else if n < 100 {
      assert t[..1] == [DecimalDigit(n / 10)];
      assert t[..1][..0] == [];
      assert DecimalValue(t[..1]) == n / 10;
      assert DecimalValue(t) == (n / 10) * 10 + n % 10;
    } else {
      assert t[..2][..1] == [DecimalDigit(n / 100)];
      assert t[..2][..1][..0] == [];
      assert t[..2] == [DecimalDigit(n / 100), DecimalDigit(n / 10 % 10)];
      assert DecimalValue(t[..2][..1]) == n / 100;
      assert DecimalValue(t[..2]) == (n / 100) * 10 + n / 10 % 10;
      assert DecimalValue(t) == ((n / 100) * 10 + n / 10 % 10) * 10 + n % 10;
    }
  }

  /** A dotted quad: exactly four parts, each a valid octet. */
  function ParseIpv4Parts(parts: seq<string>): (r: Option<Ipv4Addr>)
    ensures r.Some? <==> |parts| == 4 && forall i :: 0 <= i < 4 ==> ParseOctet(parts[i]).Some?
    ensures r.Some? ==> forall i :: 0 <= i < 4 ==> ParseOctet(parts[i]) == Some(r.value[i])
  {
    if |parts| == 4 && forall i :: 0 <= i < 4 ==> ParseOctet(parts[i]).Some? then
      Some([ParseOctet(parts[0]).value, ParseOctet(parts[1]).value,
            ParseOctet(parts[2]).value, ParseOctet(parts[3]).value])
    else None
  }

  /** `str::parse::<Ipv4Addr>` for the dotted-quad form. */
  function ParseIpv4(s: string): Option<Ipv4Addr>
  {
    ParseIpv4Parts(Split(s, '.'))
  }

  /** The value of a string of hexadecimal digits. */
  function HexValue(p: string): nat
    requires forall i :: 0 <= i < |p| ==> HexDigitValue(p[i]).Some?
  {
    if p == [] then 0 else HexValue(p[..|p| - 1]) * 16 + HexDigitValue(p[|p| - 1]).value
  }

  lemma HexValueBound(p: string)
    requires forall i :: 0 <= i < |p| ==> HexDigitValue(p[i]).Some?
    ensures |p| <= 4 ==> HexValue(p) < 0x1_0000
  {
    if |p| > 0 {
      HexValueBound(p[..|p| - 1]);
      assert |p| <= 4 ==> HexValue(p[..|p| - 1]) < 0x1000 by {
        if |p| <= 4 {
          HexValueSmall(p[..|p| - 1]);
        }
      }
    }
  }

  lemma HexValueSmall(p: string)
    requires forall i :: 0 <= i < |p| ==> HexDigitValue(p[i]).Some?
    requires |p| <= 3
    ensures HexValue(p) < 0x1000
  {
    if |p| > 0 {
      var q := p[..|p| - 1];
      assert HexValue(q) < 0x100 by {
        if |q| > 0 {
          var q2 := q[..|q| - 1];
          assert HexValue(q2) < 0x10 by {
            if |q2| > 0 {
              assert q2[..|q2| - 1] == [];
            }
          }
        }
      }
    }
  }

  /** One group of the eight-group IPv6 form: one to four hexadecimal digits. */
  function ParseGroup(p: string): (r: Option<Segment>)
    ensures r.Some? ==> 1 <= |p| <= 4
  {
    if 1 <= |p| <= 4 && forall i :: 0 <= i < |p| ==> HexDigitValue(p[i]).Some? then
      HexValueBound(p);
      Some(HexValue(p))
    else None
  }

  /** Eight colon-separated groups. */
  function ParseIpv6Groups(groups: seq<string>): (r: Option<Ipv6Addr>)
    ensures r.Some? <==> |groups| == 8 && forall i :: 0 <= i < 8 ==> ParseGroup(groups[i]).Some?
    ensures r.Some? ==> forall i :: 0 <= i < 8 ==> ParseGroup(groups[i]) == Some(r.value[i])
  {
    if |groups| == 8 && forall i :: 0 <= i < 8 ==> ParseGroup(groups[i]).Some? then
      Some(seq(8, i requires 0 <= i < 8 => ParseGroup(groups[i]).value))
    else None
  }

  /** `str::parse::<Ipv6Addr>` for the uncompressed eight-group form. */
  function ParseIpv6(s: string): Option<Ipv6Addr>
  {
    ParseIpv6Groups(Split(s, ':'))
  }

  // ------------------------------------------------------------- nibbles

  /** Nibble `k` (0 = most significant) of a segment. */
  function SegmentNibble(s: Segment, k: nat): (n: nat)
    requires k < 4
    ensures n < 16
  {
    if k == 0 then s / 16 / 16 / 16 else if k == 1 then s / 16 / 16 % 16 else if k == 2 then s / 16 % 16 else s % 16
  }

  /** The four nibbles of a segment, most significant first, give the segment back. */
  lemma SegmentFromNibbles(s: Segment)
    ensures ((SegmentNibble(s, 0) * 16 + SegmentNibble(s, 1)) * 16 + SegmentNibble(s, 2)) * 16 + SegmentNibble(s, 3) == s
  {
    var a := s / 16;
    var b := a / 16;
    assert s == a * 16 + s % 16;
    assert a == b * 16 + a % 16;
    assert b == b / 16 * 16 + b % 16;
  }

  /** The 32 nibbles of an IPv6 address, most significant first. */
  function Nibbles(a: Ipv6Addr): (ns: seq<nat>)
    ensures |ns| == 32
    ensures forall i :: 0 <= i < 32 ==> ns[i] < 16
  {
    seq(32, i requires 0 <= i < 32 => SegmentNibble(a[i / 4], i % 4))
  }

  /** The four hexadecimal digits of segment `g`. */
  function GroupText(a: Ipv6Addr, g: nat): (t: string)
    requires g < 8
    ensures |t| == 4
  {
    [HexDigit(SegmentNibble(a[g], 0)), HexDigit(SegmentNibble(a[g], 1)),
     HexDigit(SegmentNibble(a[g], 2)), HexDigit(SegmentNibble(a[g], 3))]
  }

  lemma GroupRoundTrip(a: Ipv6Addr, g: nat)
    requires g < 8
    ensures ParseGroup(GroupText(a, g)) == Some(a[g])
    ensures ':' !in GroupText(a, g)
  {
    var t := GroupText(a, g);
    var s := a[g];
    var n0, n1, n2, n3 := SegmentNibble(s, 0), SegmentNibble(s, 1), SegmentNibble(s, 2), SegmentNibble(s, 3);
    assert t[..3][..2][..1] == [HexDigit(n0)];
    assert t[..3][..2][..1][..0] == [];
    assert t[..3][..2] == [HexDigit(n0), HexDigit(n1)];
    assert t[..3] == [HexDigit(n0), HexDigit(n1), HexDigit(n2)];
    assert HexValue(t[..3][..2][..1]) == n0;
    assert HexValue(t[..3][..2]) == n0 * 16 + n1;
    assert HexValue(t[..3]) == (n0 * 16 + n1) * 16 + n2;
    assert HexValue(t) == ((n0 * 16 + n1) * 16 + n2) * 16 + n3;
    SegmentFromNibbles(s);
  }
}
