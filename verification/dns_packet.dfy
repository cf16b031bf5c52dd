/**
 * Packets in and out of the sentinel resolver (dns.rs `parse`,
 * `build_dns_with_answer`, `build_response`, `create_local_answer`).
 *
 * A DNS message is an abstract record of the header fields the code reads
 * or sets, its questions and its answers; turning wire octets into a
 * message and back belongs to the `domain` crate, so the decoded query and
 * the encoder enter as parameters. The IP/UDP packet, on the other hand,
 * is modelled octet by octet, since `build_response` rewrites it in place.
 */
module DnsPacket {

  import opened Wrappers
  import opened Ip
  import opened DomainName
  import opened Messages
  import opened DnsMatch
  import opened DnsResolve

  // ------------------------------------------------------------ DNS messages

  /** `DNS_TTL`: every local answer lives one second. */
  const DnsTtl := 1

  datatype Rcode = NoError | NxDomain | OtherRcode(code: nat)

  /** The header fields of section 4.1.1 of RFC 1035 that the answer depends on. */
  datatype Header = Header(id: Segment, qr: bool, opcode: nat, rd: bool, ra: bool, rcode: Rcode)

  datatype Question = Question(qname: Name, qtype: RecordType)

  datatype Rdata = AData(v4: Ipv4Addr) | AaaaData(v6: Ipv6Addr) | PtrData(ptr: Name)

  /** A resource record of class IN. */
  datatype Record = Record(owner: Name, ttl: nat, rdata: Rdata)

  datatype Message = Message(header: Header, questions: seq<Question>, answers: seq<Record>)

  /**
   * The answer records for the addresses in `s`: one record per address,
   * each owned by `qname` with the fixed TTL, in the order `picked`, which
   * lists every element of `s` once.
   */
  ghost predicate RecordsInOrder<T>(answers: seq<Record>, qname: Name, s: set<T>, mk: T -> Rdata, picked: seq<T>)
  {
    && |answers| == |s| && |picked| == |answers|
    && (forall k :: 0 <= k < |answers| ==> answers[k] == Record(qname, DnsTtl, mk(picked[k])))
    && (forall k :: 0 <= k < |picked| ==> picked[k] in s)
    && (forall a :: a in s ==> a in picked)
  }

  /** The answer records for the addresses in `s`, in some order. */
  ghost predicate RecordsFor<T(!new)>(answers: seq<Record>, qname: Name, s: set<T>, mk: T -> Rdata)
  {
    exists picked: seq<T> :: RecordsInOrder(answers, qname, s, mk, picked)
  }

  /**
   * What `build_dns_with_answer` promises of `resp` (through
   * `MessageBuilder::start_answer`): the query's id, opcode, RD flag and
   * questions, QR set; with no resource the code is NXDOMAIN and there are
   * no answers, with one the code is NOERROR, RA is set and the answers are
   * exactly the resource's records.
   */
  ghost predicate IsAnswerTo(query: Message, qname: Name, resource: Option<RecordData>, resp: Message)
  {
    && resp.header == Header(query.header.id, true, query.header.opcode, query.header.rd, resource.Some?,
                             if resource.None? then NxDomain else NoError)
    && resp.questions == query.questions
    && match resource
       case None => resp.answers == []
       case Some(ARecords(s)) => RecordsFor(resp.answers, qname, s, a => AData(a))
       case Some(AaaaRecords(s)) => RecordsFor(resp.answers, qname, s, a => AaaaData(a))
       case Some(PtrRecord(target)) => resp.answers == [Record(qname, DnsTtl, PtrData(target))]
  }

  /** Pushes one record per element of `s`, in whatever order the set yields them. */
  method PushRecords<T(==,!new)>(qname: Name, s: set<T>, mk: T -> Rdata) returns (answers: seq<Record>)
    ensures RecordsFor(answers, qname, s, mk)
  {
    answers := [];
    var rest := s;
    ghost var picked: seq<T> := [];
    while rest != {}
      invariant rest <= s
      invariant |answers| + |rest| == |s| && |picked| == |answers|
      invariant forall k :: 0 <= k < |answers| ==> answers[k] == Record(qname, DnsTtl, mk(picked[k]))
      invariant forall k :: 0 <= k < |picked| ==> picked[k] in s && picked[k] !in rest
      invariant forall a :: a in s && a !in rest ==> a in picked
      decreases |rest|
    {
      var a :| a in rest;
      answers := answers + [Record(qname, DnsTtl, mk(a))];
      picked := picked + [a];
      rest := rest - {a};
    }
    assert RecordsInOrder(answers, qname, s, mk, picked);
  }

  /** `build_dns_with_answer`. */
  method BuildDnsWithAnswer(query: Message, qname: Name, resource: Option<RecordData>) returns (resp: Message)
    ensures IsAnswerTo(query, qname, resource, resp)
  {
    var header := Header(query.header.id, true, query.header.opcode, query.header.rd, false, NxDomain);
    if resource.None? {
      return Message(header, query.questions, []);
    }
    header := header.(rcode := NoError, ra := true);
    var answers;
    match resource.value {
      case ARecords(s) =>
        answers := PushRecords(qname, s, a => AData(a));
      case AaaaRecords(s) =>
        answers := PushRecords(qname, s, a => AaaaData(a));
      case PtrRecord(target) =>
        answers := [Record(qname, DnsTtl, PtrData(target))];
    }
    resp := Message(header, query.questions, answers);
  }

  /** Two answers to the same query agree on everything but the order of their records. */
  lemma AnswerUniqueUpToOrder(query: Message, qname: Name, resource: Option<RecordData>, x: Message, y: Message)
    requires IsAnswerTo(query, qname, resource, x) && IsAnswerTo(query, qname, resource, y)
    ensures x.header == y.header && x.questions == y.questions && |x.answers| == |y.answers|
    ensures forall rec :: rec in x.answers <==> rec in y.answers
  {
    forall rec | rec in x.answers ensures rec in y.answers {
      var k :| 0 <= k < |x.answers| && x.answers[k] == rec;
      SameRecord(query, qname, resource, x, y, k);
    }
    forall rec | rec in y.answers ensures rec in x.answers {
      var k :| 0 <= k < |y.answers| && y.answers[k] == rec;
      SameRecord(query, qname, resource, y, x, k);
    }
  }

  lemma SameRecord(query: Message, qname: Name, resource: Option<RecordData>, x: Message, y: Message, k: nat)
    requires IsAnswerTo(query, qname, resource, x) && IsAnswerTo(query, qname, resource, y)
    requires k < |x.answers|
    ensures x.answers[k] in y.answers
  {
    match resource.value
    case ARecords(s) =>
      RecordsForMember(x.answers, y.answers, qname, s, a => AData(a), k);
    case AaaaRecords(s) =>
      RecordsForMember(x.answers, y.answers, qname, s, a => AaaaData(a), k);
    case PtrRecord(_) =>
  }

  /** Two record lists for the same set hold the same records. */
  lemma RecordsForMember<T(!new)>(xs: seq<Record>, ys: seq<Record>, qname: Name, s: set<T>, mk: T -> Rdata, k: nat)
    requires RecordsFor(xs, qname, s, mk) && RecordsFor(ys, qname, s, mk)
    requires k < |xs|
    ensures xs[k] in ys
  {
    var px :| RecordsInOrder(xs, qname, s, mk, px);
    var py :| RecordsInOrder(ys, qname, s, mk, py);
    assert px[k] in s;
    var j :| 0 <= j < |py| && py[j] == px[k];
    assert ys[j] == xs[k];
  }

  // ------------------------------------------------------------ IP/UDP packets

  type Bytes = seq<Octet>

  const UdpHeaderSize := 8
  /** The IP protocol number of UDP. */
  const UdpProtocol := 17
  const Ipv6HeaderLen := 40

  /** The 16-bit big-endian field at octet `i`. */
  function Field16(pkt: Bytes, i: nat): Segment
    requires i + 2 <= |pkt|
  {
    pkt[i] as int * 256 + pkt[i + 1] as int
  }

  predicate IsV4(pkt: Bytes) { |pkt| > 0 && pkt[0] / 16 == 4 }

  /** The length of the IP header, when `pkt` starts with a whole IPv4 or IPv6 header. */
  function IpHeaderLen(pkt: Bytes): (len: Option<nat>)
    ensures len.Some? ==> 20 <= len.value <= |pkt|
    ensures len.Some? && !IsV4(pkt) ==> len.value == Ipv6HeaderLen && pkt[0] / 16 == 6
  {
    if |pkt| == 0 then None
    else if pkt[0] / 16 == 4 then
      var hl := 4 * (pkt[0] % 16);
      if 20 <= hl <= |pkt| then Some(hl) else None
    else if pkt[0] / 16 == 6 && |pkt| >= Ipv6HeaderLen then Some(Ipv6HeaderLen)
    else None
  }

  /** `as_udp`: where the UDP header starts, when the packet carries UDP and holds that header. */
  function UdpOffset(pkt: Bytes): (off: Option<nat>)
    ensures off.Some? ==> IpHeaderLen(pkt) == Some(off.value) && off.value + UdpHeaderSize <= |pkt|
  {
    match IpHeaderLen(pkt)
    case None => None
    case Some(hl) =>
      var protocol := if IsV4(pkt) then pkt[9] else pkt[6];
      if protocol == UdpProtocol && hl + UdpHeaderSize <= |pkt| then Some(hl) else None
  }

  function Segments(b: Bytes): Ipv6Addr
    requires |b| == 16
  {
    seq(8, k requires 0 <= k < 8 => b[2 * k] as int * 256 + b[2 * k + 1] as int)
  }

  /** The source address of an IP packet. */
  function Source(pkt: Bytes): IpAddr
    requires IpHeaderLen(pkt).Some?
  {
    if IsV4(pkt) then V4(pkt[12..16]) else V6(Segments(pkt[8..24]))
  }

  /** The destination address of an IP packet. */
  function Destination(pkt: Bytes): IpAddr
    requires IpHeaderLen(pkt).Some?
  {
    if IsV4(pkt) then V4(pkt[16..20]) else V6(Segments(pkt[24..40]))
  }

  function SourcePort(pkt: Bytes): Port
    requires UdpOffset(pkt).Some?
  {
    Field16(pkt, UdpOffset(pkt).value)
  }

  function DestinationPort(pkt: Bytes): Port
    requires UdpOffset(pkt).Some?
  {
    Field16(pkt, UdpOffset(pkt).value + 2)
  }

  function UdpLength(pkt: Bytes): Segment
    requires UdpOffset(pkt).Some?
  {
    Field16(pkt, UdpOffset(pkt).value + 4)
  }

  /** The octets `build_response` may rewrite: length fields, addresses, the UDP header and the checksums. */
  predicate Rewritten(pkt: Bytes, off: nat, i: nat)
  {
    || (IsV4(pkt) && (2 <= i < 4 || 10 <= i < 20))
    || (!IsV4(pkt) && (4 <= i < 6 || 8 <= i < 40))
    || off <= i < off + UdpHeaderSize
  }

  /**
   * What `build_response` promises of `res`, the reply to `query` carrying
   * the DNS message `answer`: the query's IP and UDP headers followed by
   * `answer`, with the addresses and the ports swapped, the UDP length and
   * the IP length field (IPv4 total length, IPv6 payload length) set as the
   * source sets them, truncated to 16 bits, and every other header octet
   * but the checksums copied.
   */
  ghost predicate IsResponseTo(query: Bytes, answer: Bytes, res: Bytes)
    requires UdpOffset(query).Some?
  {
    var off := UdpOffset(query).value;
    var hdr := off + UdpHeaderSize;
    && |res| == hdr + |answer|
    && res[hdr..] == answer
    && UdpOffset(res) == Some(off)
    && IsV4(res) == IsV4(query)
    && Source(res) == Destination(query) && Destination(res) == Source(query)
    && SourcePort(res) == DestinationPort(query) && DestinationPort(res) == SourcePort(query)
    && UdpLength(res) == (UdpHeaderSize + |answer|) % 0x1_0000
    && (IsV4(query) ==> Field16(res, 2) == (hdr + |answer|) % 0x1_0000)
    && (!IsV4(query) ==> Field16(res, 4) == (UdpHeaderSize + |answer|) % 0x1_0000)
    && forall i :: 0 <= i < hdr && !Rewritten(query, off, i) ==> res[i] == query[i]
  }

  /** Writes `v` big-endian at octet `i`. */
  method Write16(buf: array<Octet>, i: nat, v: Segment)
    requires i + 2 <= buf.Length
    modifies buf
    ensures Field16(buf[..], i) == v
    ensures forall k :: 0 <= k < buf.Length && k != i && k != i + 1 ==> buf[k] == old(buf[k])
  {
    buf[i] := v / 256;
    buf[i + 1] := v % 256;
  }

  /** Exchanges the `n` octets at `a` with the `n` octets at `b`. */
  method SwapBlocks(buf: array<Octet>, a: nat, b: nat, n: nat)
    requires a + n <= b && b + n <= buf.Length
    modifies buf
    ensures buf[a..a + n] == old(buf[b..b + n]) && buf[b..b + n] == old(buf[a..a + n])
    ensures forall k :: 0 <= k < buf.Length && !(a <= k < a + n) && !(b <= k < b + n) ==> buf[k] == old(buf[k])
  {
    for t := 0 to n
      invariant forall k :: a <= k < a + t ==> buf[k] == old(buf[b + (k - a)])
      invariant forall k :: b <= k < b + t ==> buf[k] == old(buf[a + (k - b)])
      invariant forall k :: 0 <= k < buf.Length && !(a <= k < a + t) && !(b <= k < b + t) ==> buf[k] == old(buf[k])
    {
      var tmp := buf[a + t];
      buf[a + t] := buf[b + t];
      buf[b + t] := tmp;
    }

  }

  /** Sets the ports and the length of the UDP header at `off`; the checksum and every other octet stay. */
  method WriteUdpHeader(buf: array<Octet>, off: nat, src: Port, dst: Port, len: Segment)
    requires off + UdpHeaderSize <= buf.Length
    modifies buf
    ensures Field16(buf[..], off) == src && Field16(buf[..], off + 2) == dst && Field16(buf[..], off + 4) == len
    ensures forall k :: 0 <= k < buf.Length && !(off <= k < off + 6) ==> buf[k] == old(buf[k])
  {
    Write16(buf, off + 4, len);
    Write16(buf, off, src);
    Write16(buf, off + 2, dst);
  }

  /** A fresh buffer holding `head` followed by `tail`. */
  method HeadersThenAnswer(head: Bytes, tail: Bytes) returns (buf: array<Octet>)
    ensures fresh(buf)
    ensures buf[..] == head + tail
  {
    buf := new Octet[|head| + |tail|];
    for i := 0 to |head|
      invariant buf[..i] == head[..i]
    {
      buf[i] := head[i];
    }
    for j := 0 to |tail|
      invariant buf[..|head|] == head
      invariant buf[|head|..|head| + j] == tail[..j]
    {
      buf[|head| + j] := tail[j];
    }
    assert buf[..] == buf[..|head|] + buf[|head|..];
  }

  /** `build_response`: `None` when the query is not a UDP packet. */
  method BuildResponse(query: Bytes, answer: Bytes) returns (res: Option<Bytes>)
    ensures res.None? <==> UdpOffset(query).None?
    ensures res.Some? ==> IsResponseTo(query, answer, res.value)
  {
    var udp := UdpOffset(query);
    if udp.None? {
      return None;
    }
    var off := udp.value;
    var hdr := off + UdpHeaderSize;
    // extend_from_slice, then append
    var buf := HeadersThenAnswer(query[..hdr], answer);
    ghost var copied := buf[..];
    // set_len
    var total := (hdr + |answer|) % 0x1_0000;
    var dgmLen := (UdpHeaderSize + |answer|) % 0x1_0000;
    if IsV4(query) {
      Write16(buf, 2, total);
    } else {
      Write16(buf, 4, dgmLen);
    }
    ghost var lengthSet := buf[..];
    // swap_src_dst
    if IsV4(query) {
      SwapBlocks(buf, 12, 16, 4);
    } else {
      SwapBlocks(buf, 8, 24, 16);
    }
    ghost var swapped := buf[..];
    // the UDP header
    WriteUdpHeader(buf, off, DestinationPort(query), SourcePort(query), dgmLen);
    res := Some(buf[..]);
    ResponseHeaders(query, answer, copied, lengthSet, swapped, buf[..]);
  }

  /** The steps of `BuildResponse`, octet by octet, add up to `IsResponseTo`. */
  lemma ResponseHeaders(query: Bytes, answer: Bytes, copied: Bytes, lengthSet: Bytes, swapped: Bytes, res: Bytes)
    requires UdpOffset(query).Some?
    requires var hdr := UdpOffset(query).value + UdpHeaderSize;
             |copied| == hdr + |answer| && copied[..hdr] == query[..hdr] && copied[hdr..] == answer
    requires |lengthSet| == |copied| && |swapped| == |copied| && |res| == |copied|
    requires IsV4(query) ==> Field16(lengthSet, 2) == (UdpOffset(query).value + UdpHeaderSize + |answer|) % 0x1_0000
    requires !IsV4(query) ==> Field16(lengthSet, 4) == (UdpHeaderSize + |answer|) % 0x1_0000
    requires forall k :: 0 <= k < |copied| && !(if IsV4(query) then 2 <= k < 4 else 4 <= k < 6) ==> lengthSet[k] == copied[k]
    requires IsV4(query) ==> swapped[12..16] == lengthSet[16..20] && swapped[16..20] == lengthSet[12..16]
    requires !IsV4(query) ==> swapped[8..24] == lengthSet[24..40] && swapped[24..40] == lengthSet[8..24]
    requires forall k :: 0 <= k < |copied| && !(if IsV4(query) then 12 <= k < 20 else 8 <= k < 40) ==> swapped[k] == lengthSet[k]
    requires var off := UdpOffset(query).value;
             && Field16(res, off + 4) == (UdpHeaderSize + |answer|) % 0x1_0000
             && Field16(res, off) == DestinationPort(query)
             && Field16(res, off + 2) == SourcePort(query)
             && forall k :: 0 <= k < |res| && !(off <= k < off + 6) ==> res[k] == swapped[k]
    ensures IsResponseTo(query, answer, res)
  {
    var off := UdpOffset(query).value;
    var hdr := off + UdpHeaderSize;
    forall i | 0 <= i < hdr && !Rewritten(query, off, i) ensures res[i] == query[i] {
      assert copied[..hdr][i] == query[..hdr][i];
    }
    assert res[hdr..] == answer by {
      forall i | 0 <= i < |answer| ensures res[hdr + i] == answer[i] {
        assert copied[hdr..][i] == answer[i];
      }
    }
    assert res[0] == query[0] && res[6] == query[6];
    if IsV4(query) {
      assert res[9] == query[9];
      assert res[12..16] == swapped[12..16] && res[16..20] == swapped[16..20];
      assert lengthSet[12..16] == query[12..16] by {
        forall k | 12 <= k < 16 ensures lengthSet[k] == query[k] { assert copied[..hdr][k] == query[..hdr][k]; }
      }
      assert lengthSet[16..20] == query[16..20] by {
        forall k | 16 <= k < 20 ensures lengthSet[k] == query[k] { assert copied[..hdr][k] == query[..hdr][k]; }
      }
      assert Field16(res, 2) == Field16(lengthSet, 2);
    } else {
      assert res[8..24] == swapped[8..24] && res[24..40] == swapped[24..40];
      assert lengthSet[8..24] == query[8..24] by {
        forall k | 8 <= k < 24 ensures lengthSet[k] == query[k] { assert copied[..hdr][k] == query[..hdr][k]; }
      }
      assert lengthSet[24..40] == query[24..40] by {
        forall k | 24 <= k < 40 ensures lengthSet[k] == query[k] { assert copied[..hdr][k] == query[..hdr][k]; }
      }
      assert Field16(res, 4) == Field16(lengthSet, 4);
    }
  }

  /**
   * A response whose size fits in 16 bits describes itself: its UDP length
   * is the length of its UDP datagram, and an IPv4 response's total length
   * is its own length.
   */
  lemma ResponseLengthsConsistent(query: Bytes, answer: Bytes, res: Bytes)
    requires UdpOffset(query).Some? && IsResponseTo(query, answer, res)
    requires |res| < 0x1_0000
    ensures UdpLength(res) == |res| - UdpOffset(res).value
    ensures IsV4(res) ==> Field16(res, 2) == |res|
    ensures !IsV4(res) ==> Field16(res, 4) == |res| - Ipv6HeaderLen
  {
    var off := UdpOffset(query).value;
    var payload := UdpHeaderSize + |answer|;
    assert UdpOffset(res) == Some(off) && |res| == off + payload;
    assert UdpLength(res) == payload % 0x1_0000;
    assert IsV4(res) ==> Field16(res, 2) == |res| % 0x1_0000;
    assert !IsV4(res) ==> Field16(res, 4) == payload % 0x1_0000;
    LengthFields(res, off, payload);
  }

  /** Length fields holding their values truncated to 16 bits hold them exactly when they fit. */
  lemma LengthFields(res: Bytes, off: nat, payload: nat)
    requires UdpOffset(res) == Some(off) && |res| == off + payload && |res| < 0x1_0000
    requires UdpLength(res) == payload % 0x1_0000
    requires IsV4(res) ==> Field16(res, 2) == |res| % 0x1_0000
    requires !IsV4(res) ==> Field16(res, 4) == payload % 0x1_0000
    ensures UdpLength(res) == payload
    ensures IsV4(res) ==> Field16(res, 2) == |res|
    ensures !IsV4(res) ==> Field16(res, 4) == |res| - Ipv6HeaderLen
  {
    assert IpHeaderLen(res) == Some(off);
  }

  /** Answering the answer sends a packet back the way the query came. */
  lemma ResponseOfResponse(query: Bytes, a1: Bytes, res: Bytes, a2: Bytes, back: Bytes)
    requires UdpOffset(query).Some? && IsResponseTo(query, a1, res)
    requires IsResponseTo(res, a2, back)
    ensures Source(back) == Source(query) && Destination(back) == Destination(query)
    ensures SourcePort(back) == SourcePort(query) && DestinationPort(back) == DestinationPort(query)
  {
  }

  // ------------------------------------------------------------------ parse

  /** What `parse` hands back: an answer packet, a query to forward upstream, or a question to answer later. */
  datatype Outcome =
    | LocalAnswer(packet: Bytes)
    | ForwardedQuery(name: string, qtype: RecordType, query: Bytes)
    | DeferredQuery(resource: DnsResource, qtype: RecordType)

  /** The checks `parse` makes before it looks at the question. */
  predicate Intercepted(mapping: map<IpAddr, DnsServer>, packet: Bytes, decoded: Option<Message>)
    requires IpHeaderLen(packet).Some?
  {
    && Destination(packet) in mapping
    && UdpOffset(packet).Some?
    && decoded.Some?
    && !decoded.value.header.qr
    && decoded.value.questions != []
  }

  /**
   * `parse`. `decoded` is the DNS message the UDP payload decodes to
   * (`None` when it does not decode) and `encode` the wire encoder.
   */
  method Parse(table: ResourceTable, ips: IpTable, mapping: map<IpAddr, DnsServer>, packet: Bytes,
               decoded: Option<Message>, encode: Message -> Bytes) returns (r: Option<Outcome>)
    requires IpHeaderLen(packet).Some?
    ensures r.Some? <==> Intercepted(mapping, packet, decoded)
    ensures r.Some? ==>
      var q := decoded.value.questions[0];
      match ResourceFromQuestion(table, ips, q.qname, q.qtype)
      case Some(ForwardQuery(name, qtype)) => r.value == ForwardedQuery(name, qtype, packet)
      case Some(DeferredResponse(resource)) => r.value == DeferredQuery(resource, q.qtype)
      case Some(LocalResponse(data)) =>
        r.value.LocalAnswer? &&
        exists resp :: IsAnswerTo(decoded.value, q.qname, Some(data), resp) && IsResponseTo(packet, encode(resp), r.value.packet)
      case None =>
        r.value.LocalAnswer? &&
        exists resp :: IsAnswerTo(decoded.value, q.qname, None, resp) && IsResponseTo(packet, encode(resp), r.value.packet)
  {
    if Destination(packet) !in mapping || UdpOffset(packet).None? || decoded.None? {
      return None;
    }
    var message := decoded.value;
    if message.header.qr || message.questions == [] {
      return None;
    }
    var question := message.questions[0];
    var resource: Option<RecordData>;
    match ResourceFromQuestion(table, ips, question.qname, question.qtype) {
      case Some(LocalResponse(data)) =>
        resource := Some(data);
      case Some(ForwardQuery(name, qtype)) =>
        return Some(ForwardedQuery(name, qtype, packet));
      case Some(DeferredResponse(res)) =>
        return Some(DeferredQuery(res, question.qtype));
      case None =>
        resource := None;
    }
    var response := BuildDnsWithAnswer(message, question.qname, resource);
    var built := BuildResponse(packet, encode(response));
    r := Some(LocalAnswer(built.value));
  }

  /**
   * `create_local_answer`: the answer to an A or AAAA query from the
   * addresses `ips` of the question's family. The source unwraps the UDP
   * datagram, the decoded message and its first question, and cannot
   * handle another query type.
   */
  method CreateLocalAnswer(ips: set<IpAddr>, packet: Bytes, decoded: Option<Message>, encode: Message -> Bytes)
    returns (r: Bytes)
    requires UdpOffset(packet).Some? && decoded.Some? && decoded.value.questions != []
    requires decoded.value.questions[0].qtype == A || decoded.value.questions[0].qtype == Aaaa
    ensures var q := decoded.value.questions[0];
            var records := if q.qtype == A then ARecords(V4Addresses(ips)) else AaaaRecords(V6Addresses(ips));
            exists resp :: IsAnswerTo(decoded.value, q.qname, Some(records), resp) && IsResponseTo(packet, encode(resp), r)
  {
    var question := decoded.value.questions[0];
    var records := if question.qtype == A then ARecords(V4Addresses(ips)) else AaaaRecords(V6Addresses(ips));
    var response := BuildDnsWithAnswer(decoded.value, question.qname, Some(records));
    var built := BuildResponse(packet, encode(response));
    r := built.value;
  }
}
