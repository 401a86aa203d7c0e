/**
 * The DNS message as the query responder sees it: only the header fields
 * and sections handleDNSQuery reads or writes (section 4.1 of RFC 1035).
 * Encoding and decoding of the wire format are not part of this model.
 *
 * Reply is what handleDNSQuery (pkg/server/server.go) and its copy
 * serverDns (main.go) turn a request into, given the hosts table.
 */
module Dns {
  import opened Wrappers
  import opened Address
  import opened Record
  import opened Config

  /** TYPE values (section 3.2.2 of RFC 1035, section 2.1 of RFC 3596). */
  const TypeA: nat := 1
  const TypeAAAA: nat := 28
  /** CLASS IN (section 3.2.4 of RFC 1035). */
  const ClassIN: nat := 1
  /** OPCODE Notify (section 3 of RFC 1996). */
  const OpCodeNotify: nat := 4
  /** RCODE values (section 4.1.1 of RFC 1035). */
  const RCodeNoErr: nat := 0
  const RCodeNXDomain: nat := 3

  datatype Question = Question(name: string)

  /** An answer record; `ip` is the address in net.IP form (16 bytes, or [] for nil). */
  datatype ResourceRecord = ResourceRecord(name: string, rrType: nat, rrClass: nat, ttl: nat, ip: seq<Byte>)

  datatype Message = Message(
    qr: bool,
    aa: bool,
    opCode: nat,
    responseCode: nat,
    anCount: nat,
    questions: seq<Question>,
    answers: seq<ResourceRecord>)

  function TypeCode(kind: DNSType): (t: nat)
    ensures t == TypeA <==> kind == A
    ensures t == TypeAAAA <==> kind == AAAA
  {
    match kind
    case A => TypeA
    case AAAA => TypeAAAA
  }

  /** The answer for a found name: the record's type, the question's name, class IN, TTL 0 and net.ParseIP of the stored address. */
  function HitAnswer(name: string, rec: DNSRecord): ResourceRecord {
    ResourceRecord(name, TypeCode(rec.ipType), ClassIN, 0, ParseIP(rec.ip))
  }

  /** The one answer of a miss: type A, class IN, TTL 0, no name and no address. */
  const MissAnswer: ResourceRecord := ResourceRecord([], TypeA, ClassIN, 0, [])

  /** The name looked up: the first question's, byte for byte. */
  function QueryName(request: Message): string
    requires request.questions != []
  {
    request.questions[0].name
  }

  /**
   * The reply to `request`. A found name gets one more answer and the
   * header of an authoritative NoError response (with the Notify opcode);
   * a missing name gets NXDomain and the placeholder answer, and keeps
   * the rest of the request's header, QR included.
   */
  function Reply(request: Message, hosts: Hosts): (reply: Message)
    requires request.questions != []
    ensures reply.questions == request.questions
    ensures QueryName(request) in hosts ==>
      && reply.qr && reply.aa && reply.anCount == 1
      && reply.opCode == OpCodeNotify && reply.responseCode == RCodeNoErr
      && reply.answers == request.answers + [HitAnswer(QueryName(request), hosts[QueryName(request)])]
    ensures QueryName(request) !in hosts ==>
      && reply.qr == request.qr && reply.aa == request.aa
      && reply.anCount == request.anCount && reply.opCode == request.opCode
      && reply.responseCode == RCodeNXDomain
      && reply.answers == [MissAnswer]
  {
    var name := QueryName(request);
    if name !in hosts then
      request.(responseCode := RCodeNXDomain, answers := [MissAnswer])
    else
      request.(qr := true, anCount := 1, opCode := OpCodeNotify, aa := true,
               answers := request.answers + [HitAnswer(name, hosts[name])],
               responseCode := RCodeNoErr)
  }

  /** The reply says NoError exactly when the name is in the table, and NXDomain exactly when it is not. */
  lemma ReplyCodeIff(request: Message, hosts: Hosts)
    requires request.questions != []
    ensures Reply(request, hosts).responseCode == RCodeNoErr <==> QueryName(request) in hosts
    ensures Reply(request, hosts).responseCode == RCodeNXDomain <==> QueryName(request) !in hosts
  {
  }

  /** Only the entry of the question's name matters: two tables that agree on it give the same reply. */
  lemma ReplyDependsOnlyOnName(request: Message, h1: Hosts, h2: Hosts)
    requires request.questions != []
    requires QueryName(request) in h1 <==> QueryName(request) in h2
    requires QueryName(request) in h1 ==> h1[QueryName(request)] == h2[QueryName(request)]
    ensures Reply(request, h1) == Reply(request, h2)
  {
  }

  /**
   * A record type and address bytes that agree: the address is 16 bytes,
   * and the type is A when it is an IPv4 address and AAAA otherwise.
   */
  predicate AddressFits(rr: ResourceRecord) {
    && |rr.ip| == 16
    && rr.rrType == (if |To4(rr.ip)| == 4 then TypeA else TypeAAAA)
  }

  /** A stored record whose address classifies as its type gives an answer whose bytes fit its type. */
  lemma HitAnswerFits(name: string, rec: DNSRecord)
    requires Classify(rec.ip) == Some(rec.ipType)
    ensures AddressFits(HitAnswer(name, rec))
    ensures HitAnswer(name, rec).ip != []
  {
  }

  /**
   * From a table the parser built, a found name's answer is the last one
   * of the reply, carries the question's name and the stored address, and
   * its type fits the address.
   */
  lemma HitReplyFits(request: Message, hosts: Hosts)
    requires request.questions != [] && WellFormed(hosts) && QueryName(request) in hosts
    ensures var reply := Reply(request, hosts);
      && |reply.answers| == |request.answers| + 1
      && var last := reply.answers[|reply.answers| - 1];
      && last.name == QueryName(request)
      && last.ip == ParseIP(hosts[QueryName(request)].ip)
      && AddressFits(last)
  {
    var name := QueryName(request);
    HitAnswerFits(name, hosts[name]);
  }
}
