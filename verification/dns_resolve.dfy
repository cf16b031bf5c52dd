/**
 * How the sentinel resolver decides to answer one DNS question (dns.rs
 * `resource_from_question`): from the table of DNS resource patterns and
 * the addresses already allocated to resolved resources it either answers
 * locally, defers until the resource's addresses are known, forwards the
 * question upstream, or refuses it (NXDOMAIN, the `None` result).
 */
module DnsResolve {

  import opened Wrappers
  import opened Ip
  import opened DomainName
  import opened Messages
  import opened DnsMatch
  import opened ReverseDns

  /** The numeric code of a query type other than A (1), PTR (12) and AAAA (28). */
  type OtherCode = c: nat | c != 1 && c != 12 && c != 28

  /** The query types the decision distinguishes; every other type keeps its numeric code. */
  datatype RecordType = A | Aaaa | Ptr | Other(code: OtherCode)

  /** A DNS resource once a query name has matched it: the resource's id and the name that was asked for. */
  datatype DnsResource = DnsResource(id: ResourceId, address: Name)

  /** `DnsResource::from_description`. */
  function FromDescription(d: ResourceDescriptionDns, address: Name): DnsResource
  {
    DnsResource(d.id, address)
  }

  /** The data of a local answer: A records, AAAA records, or one PTR record. */
  datatype RecordData =
    | ARecords(v4s: set<Ipv4Addr>)
    | AaaaRecords(v6s: set<Ipv6Addr>)
    | PtrRecord(target: Name)

  datatype ResolveStrategy =
    | LocalResponse(data: RecordData)
    | ForwardQuery(name: string, qtype: RecordType)
    | DeferredResponse(resource: DnsResource)

  /**
   * `dns_resources_internal_ips`: the addresses allocated to each resolved
   * resource, in the map's iteration order.
   */
  type IpTable = seq<(DnsResource, set<IpAddr>)>

  /** `dns_resources_internal_ips.get(&r)`: the addresses of the first entry for `r`. */
  function LookupIps(t: IpTable, r: DnsResource): (ips: Option<set<IpAddr>>)
    ensures ips.None? <==> forall i :: 0 <= i < |t| ==> t[i].0 != r
    ensures ips.Some? ==>
      exists i :: 0 <= i < |t| && t[i] == (r, ips.value) && forall j :: 0 <= j < i ==> t[j].0 != r
  {
    if t == [] then None
    else if t[0].0 == r then Some(t[0].1)
    else
      LookupIps(t[1..], r)
  }

  /** `find_map(|(r, ips)| ips.contains(&ip).then_some(r))`: the first resource holding `ip`. */
  function Owner(t: IpTable, ip: IpAddr): (o: Option<DnsResource>)
    ensures o.None? <==> forall i :: 0 <= i < |t| ==> ip !in t[i].1
    ensures o.Some? ==>
      exists i :: 0 <= i < |t| && t[i].0 == o.value && ip in t[i].1 && forall j :: 0 <= j < i ==> ip !in t[j].1
  {
    if t == [] then None
    else if ip in t[0].1 then Some(t[0].0)
    else
      Owner(t[1..], ip)
  }

  /** `ResolveStrategy::forward`: hand the question, by name, to the upstream resolver. */
  function Forward(qname: Name, qtype: RecordType): ResolveStrategy
  {
    ForwardQuery(ToText(qname), qtype)
  }

  /**
   * The decision of `resource_from_question`, given what the pattern lookup
   * (`get_description`) and the reverse reading (`reverse_dns_addr`) give for
   * the question's name.
   */
  function ResolveWith(found: Option<ResourceDescriptionDns>, reverse: Option<IpAddr>, ips: IpTable, qname: Name, qtype: RecordType): Option<ResolveStrategy>
  {
    match qtype
    case A | Aaaa =>
      (match found
       case None => Some(Forward(qname, qtype))
       case Some(d) =>
         var resource := FromDescription(d, qname);
         match LookupIps(ips, resource)
         case None => Some(DeferredResponse(resource))
         case Some(s) =>
           if qtype.A? then Some(LocalResponse(ARecords(V4Addresses(s))))
           else Some(LocalResponse(AaaaRecords(V6Addresses(s)))))
    case Ptr =>
      (match reverse
       case None => Some(Forward(qname, qtype))
       case Some(ip) =>
         match Owner(ips, ip)
         case None => Some(Forward(qname, qtype))
         case Some(r) => Some(LocalResponse(PtrRecord(r.address))))
    case Other(_) =>
      if found.Some? then None else Some(Forward(qname, qtype))
  }

  /**
   * `resource_from_question` over the corrected lookup and reverse reading
   * (`GetDescription`, `ReverseDnsAddr`); the rest of the model uses this one.
   */
  function ResourceFromQuestion(table: ResourceTable, ips: IpTable, qname: Name, qtype: RecordType): Option<ResolveStrategy>
  {
    ResolveWith(GetDescription(qname, table), ReverseDnsAddr(ToText(qname)), ips, qname, qtype)
  }

  /** `resource_from_question` as written, over `GetDescriptionAsWritten` and `ReverseDnsAddrAsWritten`. */
  function ResourceFromQuestionAsWritten(table: ResourceTable, ips: IpTable, qname: Name, qtype: RecordType): Option<ResolveStrategy>
  {
    ResolveWith(GetDescriptionAsWritten(qname, table), ReverseDnsAddrAsWritten(ToText(qname)), ips, qname, qtype)
  }

  /**
   * The two decisions part only where the lookups do: an A, AAAA or other
   * question is decided alike for every name of at most 253 octets, and a
   * PTR question for every name whose `ip6.arpa` labels, if any, are 32
   * single nibbles.
   */
  lemma ResourceFromQuestionAsWrittenAgrees(table: ResourceTable, ips: IpTable, qname: Name, qtype: RecordType)
    ensures !qtype.Ptr? && Chains(qname) ==>
      ResourceFromQuestionAsWritten(table, ips, qname, qtype) == ResourceFromQuestion(table, ips, qname, qtype)
    ensures qtype.Ptr? && NibbleFormUnderIp6(ToText(qname)) ==>
      ResourceFromQuestionAsWritten(table, ips, qname, qtype) == ResourceFromQuestion(table, ips, qname, qtype)
  {
    if Chains(qname) {
      GetDescriptionAsWrittenShort(qname, table);
    }
    ReverseDnsAddrAsWrittenAgrees(ToText(qname));
  }

  /**
   * The 254-octet name under `*.foo.com` that the lookup as written misses is
   * forwarded as written, while the corrected decision keeps it local.
   */
  lemma ResolveLongNameAsWritten(d: ResourceDescriptionDns, ips: IpTable)
    ensures var name := [seq(52, _ => 'a'), seq(63, _ => 'b'), seq(63, _ => 'c'), seq(63, _ => 'd'), "foo", "com"];
            var table := map[WildcardKey(["foo", "com"]) := d];
            && ResourceFromQuestionAsWritten(table, ips, name, A) == Some(Forward(name, A))
            && ResourceFromQuestion(table, ips, name, A) != Some(Forward(name, A))
  {
    GetDescriptionLongNameMissed(d);
  }

  // --------------------------------------------------------- the decision table

  /** For every type but PTR, the question is forwarded exactly when no pattern in the table matches the name. */
  lemma ResolveForwardsUnknownNames(table: ResourceTable, ips: IpTable, qname: Name, qtype: RecordType)
    requires !qtype.Ptr?
    ensures ResourceFromQuestion(table, ips, qname, qtype) == Some(Forward(qname, qtype))
            <==> forall p :: p in table ==> !Matches(qname, p)
  {
    GetDescriptionAgreesWithMatches(qname, table);
  }

  /** For a type other than A, AAAA and PTR, a name some pattern matches is refused (NXDOMAIN). */
  lemma ResolveRefusesOtherTypes(table: ResourceTable, ips: IpTable, qname: Name, code: OtherCode)
    ensures ResourceFromQuestion(table, ips, qname, Other(code)).None?
            <==> exists p :: p in table && Matches(qname, p)
  {
    GetDescriptionAgreesWithMatches(qname, table);
  }

  /**
   * An A or AAAA question whose name matched description `d` is deferred
   * when no addresses are recorded for the resource yet, and otherwise
   * answered locally with exactly the addresses of the question's family.
   */
  lemma ResolveAddressOfKnownName(table: ResourceTable, ips: IpTable, qname: Name, qtype: RecordType, d: ResourceDescriptionDns)
    requires qtype == A || qtype == Aaaa
    requires GetDescription(qname, table) == Some(d)
    ensures var resource := DnsResource(d.id, qname);
            var r := ResourceFromQuestion(table, ips, qname, qtype);
            && ((forall i :: 0 <= i < |ips| ==> ips[i].0 != resource) <==> r == Some(DeferredResponse(resource)))
            && forall i :: 0 <= i < |ips| && ips[i].0 == resource && (forall j :: 0 <= j < i ==> ips[j].0 != resource) ==>
                 && r.Some? && r.value.LocalResponse?
                 && (qtype == A ==> r.value.data.ARecords? && forall a :: a in r.value.data.v4s <==> V4(a) in ips[i].1)
                 && (qtype == Aaaa ==> r.value.data.AaaaRecords? && forall a :: a in r.value.data.v6s <==> V6(a) in ips[i].1)
  {
    var resource := DnsResource(d.id, qname);
    var found := LookupIps(ips, resource);
    if found.Some? {
      var k :| 0 <= k < |ips| && ips[k] == (resource, found.value) && forall j :: 0 <= j < k ==> ips[j].0 != resource;
      forall i | 0 <= i < |ips| && ips[i].0 == resource && (forall j :: 0 <= j < i ==> ips[j].0 != resource)
        ensures i == k
      {
      }
    }
  }

  /**
   * A PTR question is forwarded when its name is not a reverse-lookup name
   * or when no resource holds the address; otherwise the answer names the
   * first resource holding the address.
   */
  lemma ResolvePointer(table: ResourceTable, ips: IpTable, qname: Name)
    ensures ReverseDnsAddr(ToText(qname)).None? ==>
      ResourceFromQuestion(table, ips, qname, Ptr) == Some(Forward(qname, Ptr))
    ensures forall ip :: ReverseDnsAddr(ToText(qname)) == Some(ip) && (forall i :: 0 <= i < |ips| ==> ip !in ips[i].1) ==>
      ResourceFromQuestion(table, ips, qname, Ptr) == Some(Forward(qname, Ptr))
    ensures forall ip, i :: ReverseDnsAddr(ToText(qname)) == Some(ip) && 0 <= i < |ips| && ip in ips[i].1
                            && (forall j :: 0 <= j < i ==> ip !in ips[j].1) ==>
      ResourceFromQuestion(table, ips, qname, Ptr) == Some(LocalResponse(PtrRecord(ips[i].0.address)))
  {
    var rev := ReverseDnsAddr(ToText(qname));
    if rev.Some? {
      var o := Owner(ips, rev.value);
      if o.Some? {
        var k :| 0 <= k < |ips| && ips[k].0 == o.value && rev.value in ips[k].1
                 && forall j :: 0 <= j < k ==> rev.value !in ips[j].1;
        forall i | 0 <= i < |ips| && rev.value in ips[i].1 && (forall j :: 0 <= j < i ==> rev.value !in ips[j].1)
          ensures i == k
        {
        }
      }
    }
  }

  /**
   * Asking for the reverse-lookup name of an address the tunnel handed out
   * is answered with the name of the resource holding it, and any other
   * address is forwarded.
   */
  lemma ResolvePointerOfAllocatedAddress(table: ResourceTable, ips: IpTable, ip: IpAddr)
    ensures var r := ResourceFromQuestion(table, ips, PtrLabels(ip), Ptr);
            && ((forall i :: 0 <= i < |ips| ==> ip !in ips[i].1) <==> r == Some(Forward(PtrLabels(ip), Ptr)))
            && forall i :: 0 <= i < |ips| && ip in ips[i].1 && (forall j :: 0 <= j < i ==> ip !in ips[j].1) ==>
                 r == Some(LocalResponse(PtrRecord(ips[i].0.address)))
  {
    var qname := PtrLabels(ip);
    assert ToText(qname) == PtrName(ip);
    ReverseDnsAddrRoundTrip(ip);
    assert ReverseDnsAddr(ToText(qname)) == Some(ip);
    var o := Owner(ips, ip);
    if o.Some? {
      var k :| 0 <= k < |ips| && ips[k].0 == o.value && ip in ips[k].1 && forall j :: 0 <= j < k ==> ip !in ips[j].1;
      forall i | 0 <= i < |ips| && ip in ips[i].1 && (forall j :: 0 <= j < i ==> ip !in ips[j].1)
        ensures i == k
      {
      }
    }
  }
}
