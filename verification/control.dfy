/**
 * The client's control plane (control.rs): choosing the DNS servers the
 * tunnel forwards to, giving each a sentinel address, and reacting to the
 * portal's messages and errors.
 *
 * The tunnel and the portal channel are not modelled themselves: the
 * control plane's calls into the tunnel are recorded, in order, in `log`,
 * and the messages it hands to the portal channel in `outbox`. What the
 * tunnel or the platform answers (`set_interface`, `request_connection`,
 * the system resolvers) enters as a parameter.
 */
module Control {

  import opened Wrappers
  import opened Ip
  import opened Messages

  /** `DNS_PORT`. */
  const DnsPort: Port := 53

  // --------------------------------------------------- effective_dns_servers

  /** `xs` is what remains of `ys` after deleting some of its elements. */
  predicate Subsequence<T(==)>(xs: seq<T>, ys: seq<T>)
    decreases |ys|
  {
    if xs == [] then true
    else if ys == [] then false
    else if xs[0] == ys[0] then Subsequence(xs[1..], ys[1..])
    else Subsequence(xs, ys[1..])
  }

  /** The two `filter` steps: the resolvers outside both sentinel ranges, in their order. */
  function NonSentinel(ips: seq<IpAddr>): (r: seq<IpAddr>)
    ensures forall i :: 0 <= i < |r| ==> !InSentinelRange(r[i])
    ensures Subsequence(r, ips)
    ensures forall ip :: multiset(r)[ip] == if InSentinelRange(ip) then 0 else multiset(ips)[ip]
  {
    if ips == [] then []
    else
      assert ips == [ips[0]] + ips[1..];
      var rest := NonSentinel(ips[1..]);
      if InSentinelRange(ips[0]) then rest
      else
        assert ([ips[0]] + rest)[1..] == rest;
        [ips[0]] + rest
  }

  /** The addresses of a list of DNS servers. */
  function ServerIps(servers: seq<DnsServer>): (ips: seq<IpAddr>)
    ensures |ips| == |servers| && forall i :: 0 <= i < |servers| ==> ips[i] == servers[i].Ip()
  {
    seq(|servers|, i requires 0 <= i < |servers| => servers[i].Ip())
  }

  /** `effective_dns_servers`. */
  function EffectiveDnsServers(upstream: seq<DnsServer>, resolvers: seq<IpAddr>): seq<DnsServer>
  {
    if upstream != [] then upstream
    else
      var kept := NonSentinel(resolvers);
      if kept == [] then []
      else seq(|kept|, i requires 0 <= i < |kept| => IpPort(SocketAddr(kept[i], DnsPort)))
  }

  /**
   * The upstream servers win when there are any. Otherwise the result is
   * the system resolvers, in order, with every address in a sentinel range
   * dropped and the others kept as often as they occur, each on port 53;
   * when none survives, the result is empty.
   */
  lemma EffectiveDnsServersChoice(upstream: seq<DnsServer>, resolvers: seq<IpAddr>)
    ensures upstream != [] ==> EffectiveDnsServers(upstream, resolvers) == upstream
    ensures upstream == [] ==>
      var r := EffectiveDnsServers(upstream, resolvers);
      && (forall i :: 0 <= i < |r| ==> r[i].address.port == DnsPort)
      && Subsequence(ServerIps(r), resolvers)
      && forall ip :: multiset(ServerIps(r))[ip] == if InSentinelRange(ip) then 0 else multiset(resolvers)[ip]
    ensures upstream == [] && (forall ip :: ip in resolvers ==> InSentinelRange(ip)) ==>
      EffectiveDnsServers(upstream, resolvers) == []
  {
    if upstream == [] {
      var kept := NonSentinel(resolvers);
      var r := EffectiveDnsServers(upstream, resolvers);
      assert ServerIps(r) == kept;
      if kept != [] {
        assert multiset(kept)[kept[0]] > 0;
        assert kept[0] in resolvers;
      }
    }
  }

  /**
   * `get_system_default_resolvers().ok().flatten().unwrap_or_default()`:
   * a failing callback, or one that has no answer, yields no resolvers.
   */
  function ResolversOrEmpty(answer: Result<Option<seq<IpAddr>>, string>): (ips: seq<IpAddr>)
    ensures answer.Err? || answer.value.None? ==> ips == []
    ensures answer.Ok? && answer.value.Some? ==> ips == answer.value.value
  {
    match answer
    case Ok(Some(ips)) => ips
    case _ => []
  }

  // ---------------------------------------------------- sentinel_dns_mapping

  /** How many of `servers` have an address of the IPv4 family (`v4`) or the IPv6 family. */
  function CountFamily(servers: seq<DnsServer>, v4: bool): nat
  {
    if servers == [] then 0
    else CountFamily(servers[..|servers| - 1], v4) + (if servers[|servers| - 1].Ip().V4? == v4 then 1 else 0)
  }

  lemma {:induction false} CountFamilyPrefix(servers: seq<DnsServer>, i: nat, v4: bool)
    requires i <= |servers|
    ensures CountFamily(servers[..i], v4) <= CountFamily(servers, v4)
    decreases |servers| - i
  {
    if i < |servers| {
      CountFamilyPrefix(servers, i + 1, v4);
      assert servers[..i + 1][..i] == servers[..i];
    } else {
      assert servers[..i] == servers;
    }
  }

  /** The sentinel ranges hold 256 addresses per family. */
  predicate FitsSentinelRanges(servers: seq<DnsServer>)
  {
    CountFamily(servers, true) <= 0x100 && CountFamily(servers, false) <= 0x100
  }

  /** Where an address sits in its sentinel range: its last octet or its last segment. */
  function SentinelOffset(ip: IpAddr): nat
  {
    if ip.V4? then ip.v4[3] else ip.v6[7]
  }

  ghost predicate Injective(m: map<IpAddr, DnsServer>)
  {
    forall a, b :: a in m && b in m && m[a] == m[b] ==> a == b
  }

  /**
   * The promise of `sentinel_dns_mapping`: a bijection between sentinel
   * addresses and the servers of `dns`, each server reached through an
   * address of its own family.
   */
  ghost predicate IsSentinelMapping(dns: seq<DnsServer>, m: map<IpAddr, DnsServer>)
  {
    && Injective(m)
    && m.Values == set s | s in dns
    && forall ip :: ip in m ==> InSentinelRange(ip) && ip.V4? == m[ip].Ip().V4?
  }

  /**
   * `IpProvider`, as `sentinel_dns_mapping` uses it: it hands out the
   * addresses of each sentinel range in ascending order and has none left
   * after 256 of a family.
   */
  class IpProvider {
    var nextV4: nat
    var nextV6: nat

    constructor ()
      ensures nextV4 == 0 && nextV6 == 0
    {
      nextV4 := 0;
      nextV6 := 0;
    }

    /** `get_proxy_ip_for`: a fresh sentinel address of the family of `ip`. */
    method GetProxyIpFor(ip: IpAddr) returns (r: Option<IpAddr>)
      modifies this
      ensures ip.V4? ==> nextV6 == old(nextV6)
      ensures ip.V6? ==> nextV4 == old(nextV4)
      ensures ip.V4? && old(nextV4) < 0x100 ==> r == Some(SentinelAddress(true, old(nextV4))) && nextV4 == old(nextV4) + 1
      ensures ip.V6? && old(nextV6) < 0x100 ==> r == Some(SentinelAddress(false, old(nextV6))) && nextV6 == old(nextV6) + 1
      ensures ip.V4? && old(nextV4) >= 0x100 ==> r.None? && nextV4 == old(nextV4)
      ensures ip.V6? && old(nextV6) >= 0x100 ==> r.None? && nextV6 == old(nextV6)
    {
      if ip.V4? {
        if nextV4 >= 0x100 {
          return None;
        }
        r := Some(SentinelAddress(true, nextV4));
        nextV4 := nextV4 + 1;
      } else {
        if nextV6 >= 0x100 {
          return None;
        }
        r := Some(SentinelAddress(false, nextV6));
        nextV6 := nextV6 + 1;
      }
    }
  }

  /** `BiMap::insert`: any pair holding `s` goes, then `ip` maps to `s`. */
  function BiMapInsert(m: map<IpAddr, DnsServer>, ip: IpAddr, s: DnsServer): map<IpAddr, DnsServer>
  {
    (map a | a in m && m[a] != s :: m[a])[ip := s]
  }

  /**
   * `sentinel_dns_mapping`. `None` stands for the panic of its `expect`,
   * which happens exactly when one family has more than 256 servers.
   */
  method SentinelDnsMapping(dns: seq<DnsServer>) returns (m: Option<map<IpAddr, DnsServer>>)
    ensures m.Some? <==> FitsSentinelRanges(dns)
    ensures m.Some? ==> IsSentinelMapping(dns, m.value)
  {
    var provider := new IpProvider();
    var mapping: map<IpAddr, DnsServer> := map[];
    for i := 0 to |dns|
      invariant provider.nextV4 == CountFamily(dns[..i], true) <= 0x100
      invariant provider.nextV6 == CountFamily(dns[..i], false) <= 0x100
      invariant IsSentinelMapping(dns[..i], mapping)
      invariant forall ip :: ip in mapping ==> SentinelOffset(ip) < if ip.V4? then provider.nextV4 else provider.nextV6
    {
      var server := dns[i];
      assert dns[..i + 1][..i] == dns[..i];
      var key := provider.GetProxyIpFor(server.Ip());
      if key.None? {
        CountFamilyPrefix(dns, i + 1, server.Ip().V4?);
        return None;
      }
      SentinelOffsetOf(server.Ip().V4?, if server.Ip().V4? then provider.nextV4 - 1 else provider.nextV6 - 1);
      assert key.value !in mapping;
      var before := mapping;
      mapping := BiMapInsert(mapping, key.value, server);
      BiMapInsertKeeps(dns[..i], before, key.value, server);
      assert dns[..i + 1] == dns[..i] + [server];
    }
    assert dns[..|dns|] == dns;
    m := Some(mapping);
  }

  lemma SentinelOffsetOf(v4: bool, k: nat)
    requires k < 0x100
    ensures SentinelOffset(SentinelAddress(v4, k)) == k
  {
  }

  /** Inserting a fresh sentinel address for `s` extends a sentinel mapping of `dns` to one of `dns + [s]`. */
  lemma BiMapInsertKeeps(dns: seq<DnsServer>, m: map<IpAddr, DnsServer>, ip: IpAddr, s: DnsServer)
    requires IsSentinelMapping(dns, m) && ip !in m
    requires InSentinelRange(ip) && ip.V4? == s.Ip().V4?
    ensures IsSentinelMapping(dns + [s], BiMapInsert(m, ip, s))
  {
    var m' := BiMapInsert(m, ip, s);
    forall v ensures v in m'.Values <==> v in dns + [s] {
      if v in dns && v != s {
        assert v in m.Values;
        var a :| a in m && m[a] == v;
        assert m'[a] == v;
      }
      assert m'[ip] == s;
      if v in m'.Values {
        var a :| a in m' && m'[a] == v;
        if a != ip {
          assert m[a] == v && v in m.Values;
        }
      }
    }
  }

  // ------------------------------------------------------------ handle_error

  datatype KnownError = UnmatchedTopic | TokenExpired | OtherKnownError(name: string)
  datatype Reason = Known(known: KnownError) | Unknown(text: string)
  datatype ErrorInfo = Offline | ReasonInfo(reason: Reason) | OtherInfo(text: string)
  datatype ConnlibError = ClosedByPortal | OtherError(text: string)
  datatype ChannelError = ErrorReply(info: ErrorInfo) | ErrorMsg(error: ConnlibError)

  /** What `handle_error` does about an error. */
  datatype ErrorAction = Cleanup(resource: ResourceId) | Rejoin | Disconnect | Ignore

  /** The match of `handle_error`; `reference` is the reference of the failed request, when there is one. */
  function ErrorActionFor(e: ChannelError, reference: Option<string>): ErrorAction
  {
    match (e, reference)
    case (ErrorReply(Offline), Some(text)) =>
      (match ParseResourceId(text)
       case Some(id) => Cleanup(id)
       case None => Ignore)
    case (ErrorReply(ReasonInfo(Known(UnmatchedTopic))), _) => Rejoin
    case (ErrorReply(ReasonInfo(Known(TokenExpired))), _) => Disconnect
    case (ErrorMsg(ClosedByPortal), _) => Disconnect
    case _ => Ignore
  }

  /**
   * The outcomes of `handle_error`, each as an if-and-only-if: an Offline
   * reply whose reference names a resource cleans that connection up, an
   * unmatched topic is joined again, an expired token or a portal that
   * closed the connection ends the session, and anything else (an Offline
   * reply without a parsable reference among them) is ignored.
   */
  lemma ErrorActionOutcomes(e: ChannelError, reference: Option<string>)
    ensures forall id :: ErrorActionFor(e, reference) == Cleanup(id) <==>
      e == ErrorReply(Offline) && reference.Some? && ParseResourceId(reference.value) == Some(id)
    ensures ErrorActionFor(e, reference) == Rejoin <==> e == ErrorReply(ReasonInfo(Known(UnmatchedTopic)))
    ensures ErrorActionFor(e, reference) == Disconnect <==>
      e == ErrorReply(ReasonInfo(Known(TokenExpired))) || e == ErrorMsg(ClosedByPortal)
    ensures ErrorActionFor(e, reference) == Ignore <==>
      || (e == ErrorReply(Offline) && (reference.None? || ParseResourceId(reference.value).None?))
      || (e != ErrorReply(Offline) && e != ErrorReply(ReasonInfo(Known(UnmatchedTopic)))
          && e != ErrorReply(ReasonInfo(Known(TokenExpired))) && e != ErrorMsg(ClosedByPortal))
  {
    match e
    case ErrorReply(Offline) =>
    case ErrorReply(ReasonInfo(Known(k))) =>
    case ErrorReply(_) =>
    case ErrorMsg(_) =>
  }

  // ------------------------------------------------------------ ControlPlane

  /** The part of the portal's `Interface` the control plane looks at. */
  datatype Interface = Interface(ipv4: Ipv4Addr, ipv6: Ipv6Addr, upstreamDns: seq<DnsServer>)

  datatype InitClient = InitClient(iface: Interface, resources: seq<ResourceDescription>)

  /** `ConnectionDetails`: the resource, the gateway chosen for it, and the relays. */
  datatype ConnectionDetails = ConnectionDetails(resource: ResourceId, gateway: GatewayId, relays: seq<string>)

  /** The two successful answers of `request_connection`. */
  datatype Request = NewConnection | ReuseConnection

  /** The gateway's answer carried by a `Connect` message. */
  datatype GatewayResponse = ConnectionAccepted | ResourceAccepted

  /** A call of the control plane into the tunnel; `SetInterface` records whether it succeeded. */
  datatype TunnelCall =
    | SetInterface(iface: Interface, mapping: map<IpAddr, DnsServer>, ok: bool)
    | AddResource(description: ResourceDescription)
    | RequestConnection(resource: ResourceId, gateway: GatewayId)
    | CleanupConnection(resource: ResourceId)
    | AddIceCandidate(gateway: GatewayId, candidate: string)
    | ReceivedOfferResponse(resource: ResourceId)
    | ReceivedDomainParameters(resource: ResourceId)

  /** A message the control plane sends on the portal channel. */
  datatype PortalMessage =
    | RequestConnectionMessage(resource: ResourceId)
    | ReuseConnectionMessage(resource: ResourceId)
    | JoinTopic(topic: string)

  /** How many successful `set_interface` calls a log holds. */
  function InterfacesSet(log: seq<TunnelCall>): nat
  {
    if log == [] then 0
    else InterfacesSet(log[..|log| - 1]) + (if log[|log| - 1].SetInterface? && log[|log| - 1].ok then 1 else 0)
  }

  lemma {:induction false} InterfacesSetAppend(a: seq<TunnelCall>, b: seq<TunnelCall>)
    ensures InterfacesSet(a + b) == InterfacesSet(a) + InterfacesSet(b)
    decreases |b|
  {
    if b == [] {
      assert a + b == a;
    } else {
      var b' := b[..|b| - 1];
      InterfacesSetAppend(a, b');
      assert (a + b)[..|a + b| - 1] == a + b';
    }
  }

  /** A log without `SetInterface` calls sets no interface. */
  lemma {:induction false} InterfacesSetNone(calls: seq<TunnelCall>)
    requires forall i :: 0 <= i < |calls| ==> !calls[i].SetInterface?
    ensures InterfacesSet(calls) == 0
    decreases |calls|
  {
    if calls != [] {
      InterfacesSetNone(calls[..|calls| - 1]);
    }
  }

  /** Appending calls other than `SetInterface` keeps the count of interfaces set. */
  lemma InterfacesSetKept(log: seq<TunnelCall>, calls: seq<TunnelCall>)
    requires forall i :: 0 <= i < |calls| ==> !calls[i].SetInterface?
    ensures InterfacesSet(log + calls) == InterfacesSet(log)
  {
    InterfacesSetAppend(log, calls);
    InterfacesSetNone(calls);
  }

  /** The tunnel calls that add `resources`, in order. */
  function AddResourceCalls(resources: seq<ResourceDescription>): (calls: seq<TunnelCall>)
    ensures |calls| == |resources| && forall i :: 0 <= i < |calls| ==> calls[i] == AddResource(resources[i])
  {
    seq(|resources|, i requires 0 <= i < |resources| => AddResource(resources[i]))
  }

  /** The tunnel calls that hand `candidates` to `gateway`, in order. */
  function IceCandidateCalls(gateway: GatewayId, candidates: seq<string>): (calls: seq<TunnelCall>)
    ensures |calls| == |candidates| && forall i :: 0 <= i < |calls| ==> calls[i] == AddIceCandidate(gateway, candidates[i])
  {
    seq(|candidates|, i requires 0 <= i < |candidates| => AddIceCandidate(gateway, candidates[i]))
  }

  lemma AddResourceCallsSnoc(resources: seq<ResourceDescription>, i: nat)
    requires i < |resources|
    ensures AddResourceCalls(resources[..i + 1]) == AddResourceCalls(resources[..i]) + [AddResource(resources[i])]
  {
  }

  lemma IceCandidateCallsSnoc(gateway: GatewayId, candidates: seq<string>, i: nat)
    requires i < |candidates|
    ensures IceCandidateCalls(gateway, candidates[..i + 1]) == IceCandidateCalls(gateway, candidates[..i]) + [AddIceCandidate(gateway, candidates[i])]
  {
  }

  class ControlPlane {
    /** `tunnel_init`: whether the tunnel's interface has been set. */
    var tunnelInit: bool
    /** The calls made into the tunnel, oldest first. */
    var log: seq<TunnelCall>
    /** The messages handed to the portal channel, oldest first. */
    var outbox: seq<PortalMessage>

    /** `tunnel_init` holds exactly when the interface has been set, and it is never set twice. */
    ghost predicate Valid()
      reads this
    {
      InterfacesSet(log) == if tunnelInit then 1 else 0
    }

    constructor ()
      ensures Valid() && !tunnelInit && log == [] && outbox == []
    {
      tunnelInit := false;
      log := [];
      outbox := [];
    }

    /** `add_resource`: the tunnel's refusal is only logged. */
    method AddResourceCall(resource: ResourceDescription)
      requires Valid()
      modifies this
      ensures Valid()
      ensures log == old(log) + [AddResource(resource)]
      ensures tunnelInit == old(tunnelInit) && outbox == old(outbox)
    {
      InterfacesSetKept(log, [AddResource(resource)]);
      log := log + [AddResource(resource)];
    }

    /**
     * `init`. `resolvers` is the platform's answer to
     * `get_system_default_resolvers` and `setInterface` the tunnel's answer
     * to `set_interface`. The sentinel mapping is computed before
     * `tunnel_init` is looked at, so its panic is excluded up front.
     */
    method Init(init: InitClient, resolvers: Result<Option<seq<IpAddr>>, string>, setInterface: Result<(), ConnlibError>)
      returns (r: Result<(), ConnlibError>)
      requires Valid()
      requires FitsSentinelRanges(EffectiveDnsServers(init.iface.upstreamDns, ResolversOrEmpty(resolvers)))
      modifies this
      ensures Valid()
      ensures outbox == old(outbox)
      ensures old(tunnelInit) ==> r.Ok? && tunnelInit && log == old(log)
      ensures !old(tunnelInit) ==>
        && |log| > |old(log)|
        && log[..|old(log)|] == old(log)
        && log[|old(log)|].SetInterface?
        && log[|old(log)|].iface == init.iface
        && log[|old(log)|].ok == setInterface.Ok?
        && IsSentinelMapping(EffectiveDnsServers(init.iface.upstreamDns, ResolversOrEmpty(resolvers)), log[|old(log)|].mapping)
      ensures !old(tunnelInit) && setInterface.Err? ==>
        r == Err(setInterface.error) && !tunnelInit && |log| == |old(log)| + 1
      ensures !old(tunnelInit) && setInterface.Ok? ==>
        r.Ok? && tunnelInit && log[|old(log)| + 1..] == AddResourceCalls(init.resources)
    {
      var servers := EffectiveDnsServers(init.iface.upstreamDns, ResolversOrEmpty(resolvers));
      var mapping := SentinelDnsMapping(servers);
      if tunnelInit {
        return Ok(());
      }
      ghost var start := log;
      var call := SetInterface(init.iface, mapping.value, setInterface.Ok?);
      InterfacesSetAppend(log, [call]);
      log := log + [call];
      if setInterface.Err? {
        return Err(setInterface.error);
      }
      tunnelInit := true;
      for i := 0 to |init.resources|
        invariant Valid() && tunnelInit && outbox == old(outbox)
        invariant log == start + [call] + AddResourceCalls(init.resources[..i])
      {
        AddResourceCall(init.resources[i]);
        AddResourceCallsSnoc(init.resources, i);
      }
      assert init.resources[..|init.resources|] == init.resources;
      assert log[|start| + 1..] == AddResourceCalls(init.resources);
      r := Ok(());
    }

    /** `connect`: the accepted offer or domain answer goes to the tunnel; its errors are only logged. */
    method Connect(resource: ResourceId, payload: GatewayResponse)
      requires Valid()
      modifies this
      ensures Valid()
      ensures payload.ConnectionAccepted? ==> log == old(log) + [ReceivedOfferResponse(resource)]
      ensures payload.ResourceAccepted? ==> log == old(log) + [ReceivedDomainParameters(resource)]
      ensures tunnelInit == old(tunnelInit) && outbox == old(outbox)
    {
      var call := if payload.ConnectionAccepted? then ReceivedOfferResponse(resource) else ReceivedDomainParameters(resource);
      InterfacesSetKept(log, [call]);
      log := log + [call];
    }

    /**
     * `connection_details`: ask the tunnel for a connection; a request it
     * grants goes to the portal, and one it refuses has its connection
     * cleaned up. `outcome` is the tunnel's answer.
     */
    method ConnectionDetailsCall(details: ConnectionDetails, outcome: Result<Request, ConnlibError>)
      requires Valid()
      modifies this
      ensures Valid() && tunnelInit == old(tunnelInit)
      ensures outcome.Err? ==>
        log == old(log) + [RequestConnection(details.resource, details.gateway), CleanupConnection(details.resource)]
        && outbox == old(outbox)
      ensures outcome == Ok(NewConnection) ==>
        log == old(log) + [RequestConnection(details.resource, details.gateway)]
        && outbox == old(outbox) + [RequestConnectionMessage(details.resource)]
      ensures outcome == Ok(ReuseConnection) ==>
        log == old(log) + [RequestConnection(details.resource, details.gateway)]
        && outbox == old(outbox) + [ReuseConnectionMessage(details.resource)]
    {
      var request := RequestConnection(details.resource, details.gateway);
      InterfacesSetKept(log, [request]);
      log := log + [request];
      match outcome {
        case Ok(NewConnection) =>
          outbox := outbox + [RequestConnectionMessage(details.resource)];
        case Ok(ReuseConnection) =>
          outbox := outbox + [ReuseConnectionMessage(details.resource)];
        case Err(_) =>
          InterfacesSetKept(log, [CleanupConnection(details.resource)]);
          log := log + [CleanupConnection(details.resource)];
      }
    }

    /** `add_ice_candidate`: every candidate, in order, to the same gateway. */
    method AddIceCandidates(gateway: GatewayId, candidates: seq<string>)
      requires Valid()
      modifies this
      ensures Valid()
      ensures log == old(log) + IceCandidateCalls(gateway, candidates)
      ensures tunnelInit == old(tunnelInit) && outbox == old(outbox)
    {
      ghost var start := log;
      for i := 0 to |candidates|
        invariant Valid() && tunnelInit == old(tunnelInit) && outbox == old(outbox)
        invariant log == start + IceCandidateCalls(gateway, candidates[..i])
      {
        var call := AddIceCandidate(gateway, candidates[i]);
        InterfacesSetKept(log, [call]);
        log := log + [call];
        IceCandidateCallsSnoc(gateway, candidates, i);
      }
      assert candidates[..|candidates|] == candidates;
    }

    /** `handle_error`: carries out `ErrorActionFor`. */
    method HandleError(e: ChannelError, reference: Option<string>, topic: string) returns (r: Result<(), ConnlibError>)
      requires Valid()
      modifies this
      ensures Valid() && tunnelInit == old(tunnelInit)
      ensures r == (if ErrorActionFor(e, reference) == Disconnect then Err(ClosedByPortal) else Ok(()))
      ensures ErrorActionFor(e, reference).Cleanup? ==>
        log == old(log) + [CleanupConnection(ErrorActionFor(e, reference).resource)] && outbox == old(outbox)
      ensures ErrorActionFor(e, reference) == Rejoin ==> log == old(log) && outbox == old(outbox) + [JoinTopic(topic)]
      ensures ErrorActionFor(e, reference) in {Disconnect, Ignore} ==> log == old(log) && outbox == old(outbox)
    {
      match ErrorActionFor(e, reference) {
        case Cleanup(id) =>
          InterfacesSetKept(log, [CleanupConnection(id)]);
          log := log + [CleanupConnection(id)];
        case Rejoin =>
          outbox := outbox + [JoinTopic(topic)];
        case Disconnect =>
          return Err(ClosedByPortal);
        case Ignore =>
      }
      r := Ok(());
    }
  }
}
