# Firezone connlib: the sentinel DNS resolver and the client control plane

This project is a Dafny model of two parts of Firezone's `connlib`, with proofs about them.

**The sentinel DNS resolver** is `rust/connlib/tunnel/src/dns.rs`. The client tunnel points the
operating system at sentinel DNS servers. These are addresses in `100.100.111.0/24` and
`fd00:2021:1111:8000:100:100:111:0/120`. Every UDP query sent to one of them reaches `parse`.
It then does one of four things:

- it answers from the resources the portal configured, if the question's name matches one of their
  patterns (`foo.com`, `?.foo.com`, `*.foo.com`);
- it defers the question until the resource's addresses are known;
- it refuses the question with NXDOMAIN;
- it forwards the question to the real upstream resolver.

A PTR question for an address the tunnel handed out is answered with that resource's name. The
answer is built as a DNS message and then wrapped into a reply packet. The reply reuses the query's
IP and UDP headers, with the addresses and ports swapped and the lengths rewritten.

**The client control plane** is `rust/connlib/clients/shared/src/control.rs`. It does four things:

- it chooses the DNS servers the tunnel forwards to: the portal's upstream servers, or else the
  system's resolvers minus any sentinel address;
- it gives each server a sentinel address;
- it sets up the tunnel's interface once and adds the resources;
- it reacts to the portal's messages and errors.

Modules, one per file:

| file | module | what it holds |
|---|---|---|
| `wrappers.dfy` | `Wrappers` | `Option` and `Result` |
| `text.dfy` | `Text` | `split`/`join` on a separator, digits |
| `ip.dfy` | `Ip` | addresses, the sentinel ranges, the `std` address parsers for the forms used here |
| `domain_name.dfy` | `DomainName` | names as label sequences, `parent`, wire length, the text parser |
| `messages.dfy` | `Messages` | resource descriptions, DNS server entries, hyphenated UUID ids |
| `dns_match.dfy` | `DnsMatch` | `is_subdomain`, `get_description` |
| `reverse_dns.dfy` | `ReverseDns` | `reverse_dns_addr` |
| `dns_resolve.dfy` | `DnsResolve` | `resource_from_question` |
| `dns_packet.dfy` | `DnsPacket` | `build_dns_with_answer`, `build_response`, `parse`, `create_local_answer` |
| `control.dfy` | `Control` | `effective_dns_servers`, `sentinel_dns_mapping`, `IpProvider`, `handle_error`, the `ControlPlane` class |

How each kind of code is modelled:

- **Pure decisions** are functions, with lemmas about them. These are `is_subdomain`,
  `get_description`, `reverse_dns_addr`, `resource_from_question`, `effective_dns_servers` and the
  `handle_error` match.
- **Step-by-step code** is a set of methods proved against specification predicates:
  - `build_dns_with_answer` loops over a hash set and pushes records;
  - `build_response` rewrites a buffer in place, as an `array`;
  - `sentinel_dns_mapping` loops with the stateful `IpProvider`.
- **The control plane** is a class. Its fields are `tunnel_init`, a log of the calls it made into
  the tunnel, and the messages it handed to the portal channel. Everything the tunnel, the portal
  or the platform answers enters as a parameter.

## Model

| member | source | states |
|---|---|---|
| DomainName.Parent | rust/connlib/tunnel/src/dns.rs:279-281 | `parent()` exists exactly for a non-root name, and the name is its first label followed by the parent |
| DomainName.ParseNameToText | rust/connlib/tunnel/src/dns.rs:298 | a valid name, printed with `to_string()` and parsed again, is the same name |
| DomainName.ParseNameKeyText | rust/connlib/tunnel/src/dns.rs:275-299 | a pattern text is the `to_string()` form of the name it parses to exactly when it does not end in a dot (the root `.` aside), so keying the table by parsed names matches the source's string keys exactly for such texts |
| DnsMatch.AnySuffixIsLabelSuffix | rust/connlib/tunnel/src/dns.rs:289 | `iter_suffixes().any(== d)` holds exactly when `d` is a label-aligned suffix of the name |
| DnsMatch.IsSubdomainExact | rust/connlib/tunnel/src/dns.rs:273-293 | a pattern without `?.` or `*.` matches exactly the name it denotes |
| DnsMatch.IsSubdomainWildcard | rust/connlib/tunnel/src/dns.rs:284-290 | `*.d` matches exactly the names ending in `d` label by label, `d` itself included |
| DnsMatch.IsSubdomainSingleLevel | rust/connlib/tunnel/src/dns.rs:279-283 | `?.d` matches exactly `d` and the names one label below `d` |
| DnsMatch.MatchesItself | rust/connlib/tunnel/src/dns.rs:292 | every name matches its own pattern |
| DnsMatch.FindWildcardLongest | rust/connlib/tunnel/src/dns.rs:329-340 | the wildcard search fails exactly when no suffix has a `*.` entry; otherwise it returns the entry of the longest such suffix |
| DnsMatch.GetDescriptionPriority | rust/connlib/tunnel/src/dns.rs:295-341 | the corrected `get_description`'s lookup order: the exact name, then `?.name`, then `?.parent`, then the longest `*.suffix`; each step is used only when every earlier one misses |
| DnsMatch.GetDescriptionAgreesWithMatches | rust/connlib/tunnel/src/dns.rs:273-341 | with names compared case-sensitively, the corrected `get_description` finds something exactly when some pattern in the table matches the name under `is_subdomain`, and what it finds belongs to a matching pattern |
| DnsMatch.ExactMatchVectors | rust/connlib/tunnel/src/dns.rs:662-683 | the four asserts of the `exact_subdomain_match` unit test |
| DnsMatch.WildcardMatchVectors | rust/connlib/tunnel/src/dns.rs:685-731 | the five matching asserts of the `wildcard_subdomain_match` unit test |
| DnsMatch.WildcardNonMatchVectors | rust/connlib/tunnel/src/dns.rs:685-731 | the four refusing asserts of the `wildcard_subdomain_match` unit test |
| DnsMatch.QuestionMarkMatchVectors | rust/connlib/tunnel/src/dns.rs:733-764 | the six asserts of the `question_mark_subdomain_match` unit test |
| DnsMatch.GetDescriptionTestVectors | rust/connlib/tunnel/src/dns.rs:569-660 | the `*.foo.com` / `?.bar.com` / `baz.com` lookup unit tests |
| DnsMatch.FindWildcardAsWrittenShort | rust/connlib/tunnel/src/dns.rs:329-340 | as written, the wildcard search skips a suffix whose key cannot be formed; for names within 253 octets it agrees with the corrected search |
| DnsMatch.GetDescriptionAsWrittenShort | rust/connlib/tunnel/src/dns.rs:295-341 | for names within 253 octets, the lookup as written and the corrected lookup agree |
| DnsMatch.GetDescriptionLongNameMissed | rust/connlib/tunnel/src/dns.rs:303-311 | a valid 254-octet name under `*.foo.com` is missed as written and found by the corrected lookup (Findings) |
| ReverseDns.ReverseDnsAddrRoundTrip | rust/connlib/tunnel/src/dns.rs:415-446 | every IPv4 and IPv6 address is read back from its `in-addr.arpa` / `ip6.arpa` name; the `reverse_dns_addr_v6` unit test (lines 539-547) is one instance |
| ReverseDns.ReverseDnsAddrOfLabels | rust/connlib/tunnel/src/dns.rs:416 | splitting a name on dots and reading it from the right sees exactly its labels in reverse order |
| ReverseDns.ReverseV4RoundTrip | rust/connlib/tunnel/src/dns.rs:434-436 | the four octet labels, joined by dots, parse back to the address |
| ReverseDns.ReverseV6RoundTrip | rust/connlib/tunnel/src/dns.rs:438-446 | 32 one-nibble labels, chunked by four and joined by colons, parse back to the address |
| ReverseDns.ReverseDnsAddrWrongZone | rust/connlib/tunnel/src/dns.rs:417-425 | a name not ending in `arpa`, or whose next label is neither `in-addr` nor `ip6`, names no address |
| ReverseDns.ReverseDnsAddrV4WrongCount | rust/connlib/tunnel/src/dns.rs:434-436 | under `in-addr`, anything but four dot-free labels names no address |
| ReverseDns.ReverseDnsAddrV6WrongCount | rust/connlib/tunnel/src/dns.rs:438-446 | the corrected reading's guard: under `ip6`, any count of labels but 32 is refused |
| ReverseDns.ReverseDnsAddrV6AsWrittenCount | rust/connlib/tunnel/src/dns.rs:438-446 | as written, fewer than 29 or more than 32 colon-free labels under `ip6` are refused |
| ReverseDns.ReverseDnsAddrAsWrittenAgrees | rust/connlib/tunnel/src/dns.rs:415-447 | the reading as written gives the same address wherever the corrected reading gives one, and the same answer on every name whose `ip6.arpa` labels, if any, are 32 single characters |
| ReverseDns.ReverseDnsAddrShortV6Accepted | rust/connlib/tunnel/src/dns.rs:438-446 | 29 zero labels under `ip6.arpa` are read as `::` as written, and refused by the corrected reading (Findings) |
| ReverseDns.ReverseDnsAddrV4Works | rust/connlib/tunnel/src/dns.rs:516-522 | `1.2.3.4.in-addr.arpa` names 4.3.2.1 |
| ReverseDns.ReverseDnsAddrV4ExtraNumber | rust/connlib/tunnel/src/dns.rs:524-527 | `0.1.2.3.4.in-addr.arpa` names no address |
| ReverseDns.ReverseDnsAddrWrongEndings | rust/connlib/tunnel/src/dns.rs:529-537 | `1.2.3.4.in-addr.carpa` and `1.2.3.4.ip6.arpa` name no address |
| ReverseDns.ReverseDnsAddrV6ExtraNumber | rust/connlib/tunnel/src/dns.rs:549-557 | 33 labels under `ip6.arpa` name no address, as written and corrected |
| ReverseDns.ReverseDnsAddrV6Ipv4Ending | rust/connlib/tunnel/src/dns.rs:559-567 | 32 labels under `in-addr.arpa` name no address |
| Ip.GetV4 | rust/connlib/tunnel/src/dns.rs:448-453 | `Some` exactly for an IPv4 address, holding it |
| Ip.GetV6 | rust/connlib/tunnel/src/dns.rs:455-460 | `Some` exactly for an IPv6 address, holding it |
| Ip.V4Addresses | rust/connlib/tunnel/src/dns.rs:358-364 | `filter_map(get_v4)`: exactly the IPv4 members of the set |
| Ip.V6Addresses | rust/connlib/tunnel/src/dns.rs:376-382 | `filter_map(get_v6)`: exactly the IPv6 members of the set |
| Ip.OctetRoundTrip | rust/connlib/tunnel/src/dns.rs:434-436 | an octet's decimal text parses back to the octet |
| Ip.GroupRoundTrip | rust/connlib/tunnel/src/dns.rs:438-446 | a segment's four hex digits parse back to the segment |
| DnsResolve.LookupIps | rust/connlib/tunnel/src/dns.rs:357 | the address set of the first entry for the resource, and `None` exactly when no entry has it |
| DnsResolve.Owner | rust/connlib/tunnel/src/dns.rs:391-393 | the first resource whose set holds the address, and `None` exactly when no set holds it |
| DnsResolve.ResolveForwardsUnknownNames | rust/connlib/tunnel/src/dns.rs:343-408 | under the corrected lookup, a question of any type but PTR is forwarded exactly when no pattern matches its name |
| DnsResolve.ResolveRefusesOtherTypes | rust/connlib/tunnel/src/dns.rs:400-406 | under the corrected lookup, a question of another type is refused (NXDOMAIN) exactly when some pattern matches |
| DnsResolve.ResolveAddressOfKnownName | rust/connlib/tunnel/src/dns.rs:351-383 | under the corrected lookup, an A/AAAA question for a matched name is deferred exactly when the resource has no addresses yet; otherwise it is answered with exactly that family's addresses |
| DnsResolve.ResolvePointer | rust/connlib/tunnel/src/dns.rs:384-398 | under the corrected reverse reading, a PTR question is forwarded when the name is no reverse name or no resource holds the address; otherwise the answer names the first holder |
| DnsResolve.ResourceFromQuestionAsWrittenAgrees | rust/connlib/tunnel/src/dns.rs:343-408 | the decision as written equals the corrected one for every A, AAAA or other question whose name has at most 253 octets, and for every PTR question whose `ip6.arpa` labels, if any, are 32 single characters |
| DnsResolve.ResolveLongNameAsWritten | rust/connlib/tunnel/src/dns.rs:351-354 | as written, an A question for the 254-octet name under `*.foo.com` is forwarded, where the corrected decision keeps it local |
| DnsResolve.ResolvePointerOfAllocatedAddress | rust/connlib/tunnel/src/dns.rs:384-398 | the reverse name of an address is answered with its first holder's name exactly when a resource holds it, and forwarded otherwise |
| DnsPacket.PushRecords | rust/connlib/tunnel/src/dns.rs:250-257 | one record per element of the set, each owned by the question's name with TTL 1 |
| DnsPacket.BuildDnsWithAnswer | rust/connlib/tunnel/src/dns.rs:223-263 | the answer keeps the query's id, opcode, RD flag and questions, with QR set; no resource gives NXDOMAIN with no answers; a resource gives NOERROR, RA set, and exactly its records |
| DnsPacket.AnswerUniqueUpToOrder | rust/connlib/tunnel/src/dns.rs:223-263 | two answers to the same query differ at most in the order of their records |
| DnsPacket.Write16 | rust/connlib/tunnel/src/dns.rs:204-206 | the 16-bit big-endian field is written and no other octet changes |
| DnsPacket.SwapBlocks | rust/connlib/tunnel/src/dns.rs:204 | `swap_src_dst`: the two address blocks are exchanged and nothing else changes |
| DnsPacket.HeadersThenAnswer | rust/connlib/tunnel/src/dns.rs:197-200 | the new buffer is the original headers followed by the DNS answer |
| DnsPacket.BuildResponse | rust/connlib/tunnel/src/dns.rs:191-221 | `None` exactly for a non-UDP packet; otherwise the query's headers plus the answer, with addresses and ports swapped, UDP and IP lengths set (mod 2^16), and every other header octet but the checksums unchanged |
| DnsPacket.ResponseLengthsConsistent | rust/connlib/tunnel/src/dns.rs:202-206 | a response under 64 KiB describes its own UDP length and IP length |
| DnsPacket.ResponseOfResponse | rust/connlib/tunnel/src/dns.rs:204-209 | answering the answer sends a packet back with the query's addresses and ports |
| DnsPacket.Parse | rust/connlib/tunnel/src/dns.rs:90-124 | it intercepts exactly the UDP DNS queries (QR clear, a question) sent to a sentinel address. Forward and deferral follow the corrected `resource_from_question`; a local answer or NXDOMAIN is the reply packet of an answer built for the first question |
| DnsPacket.CreateLocalAnswer | rust/connlib/tunnel/src/dns.rs:126-155 | the reply packet carries an answer with exactly the addresses of the question's family |
| Control.NonSentinel | rust/connlib/clients/shared/src/control.rs:51-54 | the resolvers outside both sentinel ranges, in order, each as often as it occurs |
| Control.EffectiveDnsServersChoice | rust/connlib/clients/shared/src/control.rs:43-69 | upstream servers win when there are any. Otherwise the result is the non-sentinel resolvers in order on port 53, and it is empty when all are sentinels |
| Control.ResolversOrEmpty | rust/connlib/clients/shared/src/control.rs:100-106 | a failing or empty answer from the platform yields no resolvers |
| Control.IpProvider.GetProxyIpFor | rust/connlib/clients/shared/src/control.rs:80-83 | the next sentinel address of the address's family, or `None` once 256 are handed out; the other family's counter is untouched |
| Control.SentinelDnsMapping | rust/connlib/clients/shared/src/control.rs:71-88 | it panics (`None`) exactly when a family has more than 256 servers; otherwise it gives a bijection between same-family sentinel addresses and the servers |
| Control.BiMapInsertKeeps | rust/connlib/clients/shared/src/control.rs:86-87 | inserting a fresh sentinel address for a server keeps the mapping a sentinel bijection |
| Control.CountFamilyPrefix | rust/connlib/clients/shared/src/control.rs:83 | a prefix of the servers never has more servers of a family than the whole list |
| Control.ErrorActionOutcomes | rust/connlib/clients/shared/src/control.rs:275-312 | each outcome as an if-and-only-if. Offline with a parsable reference cleans up; an unmatched topic rejoins; an expired token or a closed channel disconnects; anything else is ignored |
| Control.InterfacesSetAppend | rust/connlib/clients/shared/src/control.rs:110-118 | counting successful `set_interface` calls distributes over concatenated logs |
| Control.ControlPlane.AddResourceCall | rust/connlib/clients/shared/src/control.rs:162-166 | exactly one `add_resource` call is made; nothing else changes |
| Control.ControlPlane.Init | rust/connlib/clients/shared/src/control.rs:91-129 | reinitialising does nothing. The first time, `set_interface` gets the interface and the sentinel mapping of the effective servers. On failure the error is returned and `tunnel_init` stays false; on success every resource is added in order. The interface is set at most once |
| Control.ControlPlane.Connect | rust/connlib/clients/shared/src/control.rs:131-160 | an accepted connection hands the offer to the tunnel; an accepted resource hands over the domain parameters |
| Control.ControlPlane.ConnectionDetailsCall | rust/connlib/clients/shared/src/control.rs:173-222 | a connection is requested. A new or reused connection sends the matching message to the portal; a refusal cleans the connection up |
| Control.ControlPlane.AddIceCandidates | rust/connlib/clients/shared/src/control.rs:225-235 | every candidate goes to the same gateway, in order |
| Control.ControlPlane.HandleError | rust/connlib/clients/shared/src/control.rs:275-312 | it carries out the action: a cleanup call, a topic join, `Err(ClosedByPortal)`, or nothing |
| Messages.UuidRoundTrip | rust/connlib/clients/shared/src/control.rs:283 | a resource id's hyphenated text parses back to the id |

## Left out

- Name comparison and lookup are case-sensitive here. `Dname` equality ignores ASCII case, and the
  `to_string()` key is built from the query's own spelling.
- Names are label sequences. Textual escapes (`\.`, `\DDD`) and labels containing dots are not modelled.
- The `std` IPv6 parser is modelled for eight colon-separated groups of one to four hex digits. The
  `::` shorthand and embedded IPv4 forms are not modelled. A DNS label may itself contain `:`, and
  the source hands such labels to the parser unchanged: `2001:db8::1.ip6.arpa` is one label, read by
  the source as `2001:db8::1`.
- ReverseDns.ReverseDnsAddrAsWritten: refuses names whose `ip6.arpa` labels carry colons in the `::`
  or embedded-IPv4 forms, which the source reads as addresses, because of the parser gap above. On
  names whose labels hold no colon it follows the source.
- DnsMatch.GetDescriptionAgreesWithMatches: the agreement holds in the source only when the query
  spells the name in the patterns' case. `is_subdomain` compares names ignoring ASCII case, but
  `get_description` looks up the case-sensitive `to_string()` key. With `foo.com` configured, `FOO.com`
  matches yet is not found, so an A question for it is forwarded. Likewise, a key written with a
  trailing dot (`foo.com.`) matches `foo.com` under `is_subdomain` but is never found by the string
  lookup.
- The resource table (`DnsMatch.ResourceTable`) is keyed by parsed names. That stands for the
  source's string keys only when no key text has a trailing dot (`DomainName.ParseNameKeyText`) and
  no two key texts parse to the same name. A table holding `foo.com.`, or both `foo.com` and `foo.com.` with
  different descriptions, is not modelled.
- DnsMatch.GetDescriptionPriority: states the corrected lookup. As written, a name of 254 or 255
  octets stops at the `?.name` key and the `?.parent` and `*.` steps never run
  (`DnsMatch.GetDescriptionLongNameMissed`); within 253 octets the two agree
  (`DnsMatch.GetDescriptionAsWrittenShort`).
- DnsResolve.ResourceFromQuestion: follows the corrected `GetDescription` and `ReverseDnsAddr` of
  the two Findings. `DnsResolve.ResourceFromQuestionAsWritten` is the source's decision, and
  `DnsResolve.ResourceFromQuestionAsWrittenAgrees` states where the two agree.
- DnsResolve.ResolveForwardsUnknownNames: states the corrected decision. As written, a name of 254
  or 255 octets that only a `*.` pattern matches is forwarded too (`DnsResolve.ResolveLongNameAsWritten`).
- DnsResolve.ResolveRefusesOtherTypes: states the corrected decision. As written, a name of 254 or
  255 octets that only a `*.` pattern matches is forwarded, not refused.
- DnsResolve.ResolveAddressOfKnownName: its requires uses the corrected lookup. As written, a name
  of 254 or 255 octets that only a `*.` pattern matches is forwarded instead.
- DnsResolve.ResolvePointer: states the corrected reading. As written, a name with 29 to 31 labels
  under `ip6.arpa`, or one with colon-bearing labels, can name an address, and it is answered
  locally when a resource holds that address.
- DnsPacket.CreateLocalAnswer: its requires stand for the source's unwraps of the UDP datagram, the
  decoded message and its first question, and for the `unreachable!` on a type other than A or
  AAAA. Its callers are outside the modelled files. The model assumes that they pass a packet
  `parse` deferred: a UDP DNS query with a question of type A or AAAA, for which all of them hold.
- DnsPacket.Parse: the forward, defer or answer decision is the corrected `ResourceFromQuestion`.
  It differs from the source only on names of 254 or 255 octets that only a `*.` pattern matches,
  and on the `ip6.arpa` names of the line above.
- Resource ids parse only in the hyphenated UUID form. Other `uuid` text forms are left out.
- DNS wire encoding and decoding (the `domain` crate's `Message`, `MessageBuilder`, `to_dns`) are
  not modelled. The decoded query and the encoder are parameters of `Parse` and `CreateLocalAnswer`.
  The builder's own errors (`start_answer`/`push` returning `Err` on an overlong message) are not
  modelled: the model always builds the answer.
- The UDP and IPv4 checksums are left unconstrained. So are pnet's payload-length handling beyond
  the two length fields, IPv6 extension headers, and IPv4 options past the header length.
- `build_response_from_resolve_result`, `as_dns_message` and `DnsQuery::into_owned` are not
  modelled. They concern the upstream resolver's answer, not the sentinel resolver's own decisions.
- The source of `IpProvider` is not among the modelled files. `Control.IpProvider` assumes that it
  hands out each range's addresses in ascending order, 256 per family, as the `expect` message at
  control.rs:83 says.
- `DnsResource::from_description` is not part of this model. It is taken to keep the id and the
  queried name.
- The DNS resources and their allocated addresses (`dns_resources_internal_ips`) enter `Parse` as
  values. The PTR search follows the hash map's iteration order, modelled as a list.
- `Control.ControlPlane.Init` requires that no family has more than 256 effective servers. The
  source panics there, in `sentinel_dns_mapping`'s `expect`, before `tunnel_init` is checked;
  `Control.SentinelDnsMapping` models that panic as `None`.
- `handle_message` dispatch, `resource_deleted` (an empty TODO), `stats_event`,
  `request_log_upload_url`, `handle_tunnel_event` and `upload` are not modelled. They are async I/O
  and log upload, outside the resolver and connection set-up.
- The portal channel and `tokio::spawn` are not modelled. A sent message is the message appended to
  `outbox`, and the tracing logs are dropped.
- `lib.rs` (the tunnel's event loop) and the Android callback are left out, except that the system
  resolvers enter `Init` as the callback's answer.
- The check at dns.rs:427-429, which rejects labels left over after the address, has no
  counterpart. The address parsers consume every remaining label, so it can never fire.

## Findings

| source | as written | input that shows it | evidently intended | confidence | as-written member | corrected member |
|---|---|---|---|---|---|---|
| rust/connlib/tunnel/src/dns.rs:303-327 | Building the `?.name` key with `chain(name).ok()?` returns `None` from the whole `get_description` when the name is 254 or 255 octets long, so the wildcard patterns are never tried | the valid 254-octet name `a{52}.b{63}.c{63}.d{63}.foo.com` with only `*.foo.com` configured | a key that cannot be formed only skips that lookup, as the `find_map` closure does for the wildcard keys | medium, not executed | DnsMatch.GetDescriptionAsWritten, DnsMatch.GetDescriptionLongNameMissed | DnsMatch.GetDescription, DnsMatch.GetDescriptionAgreesWithMatches |
| rust/connlib/tunnel/src/dns.rs:438-446 | `chunks(4)` joined by `:` accepts 29 to 31 labels under `ip6.arpa`: the last chunk is a 1-to-3-digit group, which the IPv6 parser accepts. Labels are joined unchecked, so a label holding colons (`2001:db8::1.ip6.arpa`) also reaches the parser and is read as an address | 29 labels `0` followed by `ip6.arpa` reads as `::` | exactly 32 one-nibble labels, as section 2.5 of RFC 3596 defines the name | medium, not executed | ReverseDns.ReverseDnsAddrAsWritten, ReverseDns.ReverseDnsAddrShortV6Accepted | ReverseDns.ReverseDnsAddr, ReverseDns.ReverseDnsAddrRoundTrip |
