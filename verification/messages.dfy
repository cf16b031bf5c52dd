/**
 * Portal message types the core works with (connlib_shared::messages):
 * resource and gateway identifiers (UUIDs), DNS resource descriptions and
 * DNS servers.
 */
module Messages {

  import opened Wrappers
  import opened Text
  import opened Ip

  type Uuid = s: seq<Octet> | |s| == 16 witness [0, 0, 0, 0, 0, 0, 0, 0, 0, 0, 0, 0, 0, 0, 0, 0]

  datatype ResourceId = ResourceId(uuid: Uuid)
  datatype GatewayId = GatewayId(uuid: Uuid)

  /** A DNS resource as the portal describes it: `address` is the pattern text (`*.foo.com`, `?.foo.com`, `foo.com`). */
  datatype ResourceDescriptionDns = ResourceDescriptionDns(id: ResourceId, address: string, name: string)

  /** A resource the portal sends to the client: a DNS resource or an address range. */
  datatype ResourceDescription =
    | Dns(dns: ResourceDescriptionDns)
    | Cidr(id: ResourceId, network: IpAddr, prefix: nat, name: string)

  /** `DnsServer::IpPort`: an upstream resolver address with its port. */
  datatype DnsServer = IpPort(address: SocketAddr)
  {
    function Ip(): IpAddr { address.ip }
  }

  // ------------------------------------------------------------- UUID text

  /** Positions of the four hyphens in the hyphenated UUID form. */
  predicate IsHyphenPosition(i: int) { i == 8 || i == 13 || i == 18 || i == 23 }

  /** The 32 hexadecimal digits of the hyphenated form, hyphens removed. */
  function UuidDigits(s: string): (h: string)
    requires |s| == 36
    ensures |h| == 32
  {
    s[..8] + s[9..13] + s[14..18] + s[19..23] + s[24..]
  }

  /**
   * `str::parse::<Uuid>` for the hyphenated form: 36 characters, hyphens at
   * positions 8, 13, 18 and 23, hexadecimal digits of either case elsewhere.
   */
  function ParseUuid(s: string): (r: Option<Uuid>)
    ensures r.Some? ==> |s| == 36 && forall i :: 0 <= i < 36 && IsHyphenPosition(i) ==> s[i] == '-'
  {
    if |s| == 36 && (forall i :: 0 <= i < 36 && IsHyphenPosition(i) ==> s[i] == '-')
       && (forall i :: 0 <= i < 32 ==> HexDigitValue(UuidDigits(s)[i]).Some?)
    then
      var h := UuidDigits(s);
      Some(seq(16, i requires 0 <= i < 16 =>
        HexDigitValue(h[2 * i]).value * 16 + HexDigitValue(h[2 * i + 1]).value))
    else None
  }

  /** The 32 lower-case hexadecimal digits of a UUID, two per octet, high nibble first. */
  function UuidHex(u: Uuid): (h: string)
    ensures |h| == 32
    ensures forall i :: 0 <= i < 32 ==> HexDigitValue(h[i]) == Some(if i % 2 == 0 then u[i / 2] / 16 else u[i / 2] % 16)
  {
    seq(32, i requires 0 <= i < 32 => HexDigit(if i % 2 == 0 then u[i / 2] / 16 else u[i / 2] % 16))
  }

  /** The lower-case hyphenated text of a UUID, as `Uuid`'s `Display` writes it. */
  function UuidText(u: Uuid): (s: string)
    ensures |s| == 36
  {
    var h := UuidHex(u);
    h[..8] + "-" + h[8..12] + "-" + h[12..16] + "-" + h[16..20] + "-" + h[20..]
  }

  /** The hyphenated text has its hyphens where the parser wants them, and the digits in between. */
  lemma UuidTextShape(u: Uuid)
    ensures UuidDigits(UuidText(u)) == UuidHex(u)
    ensures forall i :: 0 <= i < 36 && IsHyphenPosition(i) ==> UuidText(u)[i] == '-'
  {
    var h := UuidHex(u);
    var s := UuidText(u);
    assert s[..8] == h[..8];
    assert s[9..13] == h[8..12];
    assert s[14..18] == h[12..16];
    assert s[19..23] == h[16..20];
    assert s[24..] == h[20..];
    assert h == h[..8] + h[8..12] + h[12..16] + h[16..20] + h[20..];
  }

  /** Octet `i` is read back from its two digits. */
  lemma UuidHexPair(u: Uuid, i: nat)
    requires i < 16
    ensures HexDigitValue(UuidHex(u)[2 * i]).Some? && HexDigitValue(UuidHex(u)[2 * i + 1]).Some?
    ensures HexDigitValue(UuidHex(u)[2 * i]).value * 16 + HexDigitValue(UuidHex(u)[2 * i + 1]).value == u[i]
  {
    assert (2 * i) % 2 == 0 && (2 * i) / 2 == i;
    assert (2 * i + 1) % 2 == 1 && (2 * i + 1) / 2 == i;
  }

  lemma UuidRoundTrip(u: Uuid)
    ensures ParseUuid(UuidText(u)) == Some(u)
  {
    UuidTextShape(u);
    var h := UuidHex(u);
    var s := UuidText(u);
    assert UuidDigits(s) == h;
    assert forall i :: 0 <= i < 32 ==> HexDigitValue(h[i]).Some?;
    var v := seq(16, i requires 0 <= i < 16 => HexDigitValue(h[2 * i]).value * 16 + HexDigitValue(h[2 * i + 1]).value);
    assert ParseUuid(s) == Some(v);
    forall i | 0 <= i < 16 ensures v[i] == u[i] {
      UuidHexPair(u, i);
    }
    assert v == u;
  }

  /** `reference.parse::<ResourceId>()`. */
  function ParseResourceId(s: string): (r: Option<ResourceId>)
    ensures r.Some? <==> ParseUuid(s).Some?
  {
    match ParseUuid(s)
    case Some(u) => Some(ResourceId(u))
    case None => None
  }
}
