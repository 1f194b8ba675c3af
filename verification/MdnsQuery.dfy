/** A query for a service, as the responder sends it, and how it understands the name in such a packet. */
module MdnsQuery {
  import opened Bytes
  import opened Division
  import opened Mdns
  import opened MdnsAnswers
  import opened Wrappers

  const SERVICES: bytes := [115, 101, 114, 118, 105, 99, 101, 115]
  const DNS_SD: bytes := [95, 100, 110, 115, 45, 115, 100]
  const UDP: bytes := [95, 117, 100, 112]

  /** The packet queryService sends: one pointer question. */
  function QueryPacket(service: bytes, proto: bytes): bytes {
    [0, 0, 0, 0, 0, 1, 0, 0, 0, 0, 0, 0] + (Name([Under(service), Under(proto), LOCAL]) + QuestionHead(TYPE_PTR))
  }

  /** A label of at most `room` bytes after its length, of which only the remainder modulo `m` counts. */
  function ReadLabel(s: bytes, m: nat, room: nat): Option<(bytes, bytes)>
    requires m > 0
  {
    if s == [] || |s| < 1 + s[0] as nat % m || room < s[0] as nat % m then None
    else Some((s[1..1 + s[0] as nat % m], s[1 + s[0] as nat % m..]))
  }

  /**
   * What a request is about, with what follows its name. Unread: a label is cut off or does not fit its array, and
   * the source goes on with what its arrays held.
   */
  datatype Request = ForService(service: bytes, proto: bytes, rest: bytes) | ForHost(rest: bytes) | ForTypes
                   | Refused | Unread

  /** After the protocol: the name must end with "local". */
  function ReadLocal(s: bytes, service: bytes, proto: bytes, services: seq<Service>): (r: Request)
    ensures r.ForService? ==> |r.proto| <= |proto|
  {
    var local := ReadLabel(s, 31, 30);
    if local.None? then Unread
    else if local.value.0 != LOCAL || local.value.1 == [] || local.value.1[0] != 0 then Refused
    else if service == [] || PortOf(services, CString(service), CString(proto)) == 0 then Refused
    else ForService(CString(service), CString(proto), local.value.1[1..])
  }

  /** After the service, whose underscore is gone. */
  function ReadProto(s: bytes, service: bytes, services: seq<Service>): (r: Request)
    ensures r.ForService? ==> |r.proto| <= 3
  {
    var proto := ReadLabel(s, 255, 31);
    if proto.None? then Unread
    else
      var p := proto.value.0;
      if |p| == 4 && p[0] == UNDERSCORE then ReadLocal(proto.value.1, service, p[1..], services)
      else if CString(service) == SERVICES && CString(p) == DNS_SD then ForTypes
      else Refused
  }

  /** After the name of the host or of the instance. */
  function ReadService(s: bytes, services: seq<Service>): (r: Request)
    ensures r.ForService? ==> |r.proto| <= 3
  {
    var service := ReadLabel(s, 255, 31);
    if service.None? then Unread
    else
      var l := service.value.0;
      var rest := service.value.1;
      if l != [] && l[0] == UNDERSCORE then ReadProto(rest, l[1..], services)
      else if l == LOCAL then (if rest != [] && rest[0] == 0 then ForHost(rest[1..]) else Refused)
      else Refused
  }

  /** The name of a request: a service's, alone or after the host's or the instance's name, or the host's itself. */
  function ReadRequest(s: bytes, host: bytes, instance: bytes, services: seq<Service>): (r: Request)
    ensures r.ForService? ==> |r.proto| <= 3
  {
    var first := ReadLabel(s, 255, 254);
    if first.None? then Unread
    else
      var l := first.value.0;
      if l != [] && l[0] == UNDERSCORE then
        (if |l| > 32 then Unread else ReadProto(first.value.1, l[1..], services))
      else if l != [] && CString(l) != host && CString(l) != instance then Refused
      else ReadService(first.value.1, services)
  }

  /** The three letters of a protocol as its label has them: without one, the end of the string and what follows it. */
  function ProtoLetters(proto: bytes, stale: bytes): bytes
    requires |proto| <= 3 && |stale| == 2
  {
    (proto + [0] + stale)[..3]
  }

  /** What the reply to a request is made from. */
  function IdentityFor(request: Request, host: bytes, instance: bytes, services: seq<Service>, ip: Four, stale: bytes)
    : Identity
    requires |stale| == 2 && (request.ForService? || request.ForHost?)
    requires request.ForService? ==> |request.proto| <= 3
  {
    var service := if request.ForService? then request.service else LOCAL;
    var proto := if request.ForService? then request.proto else [];
    Identity(host, instance, service, ProtoLetters(proto, stale),
             if request.ForService? then PortOf(services, service, proto) else 0,
             TextsOf(services, service, proto), TextLengthOf(services, service, proto), ip)
  }

  /** The record that tells of one service when all types of services are asked for. */
  function TypeRecord(service: bytes, proto: bytes): Record {
    Record([Under(SERVICES), DNS_SD, UDP, LOCAL], 12, false, false, |service| + 14,
           Name([Under(service), Under(proto), LOCAL]))
  }

  /** One packet for each service with a port. */
  function TypeReplies(services: seq<Service>): seq<bytes> {
    if services == [] then []
    else (if services[0].port > 0 then [Header(1, 0) + Wire(TypeRecord(services[0].name, services[0].proto))] else [])
         + TypeReplies(services[1..])
  }

  /** What the responder sends for a packet of questions. */
  function Respond(p: bytes, host: bytes, instance: bytes, services: seq<Service>, ip: Four, stale: bytes): seq<bytes>
    requires |stale| == 2
  {
    var request := ReadRequest(Drop(p, 12), host, instance, services);
    if request.ForService? || request.ForHost? then
      var types := Questions(request.rest, Min(HeaderWord(p, 2), 4));
      if Asked(types) == NOTHING then []
      else [Reply(Asked(types), Answered(types), IdentityFor(request, host, instance, services, ip, stale))]
    else if request.ForTypes? then TypeReplies(services)
    else []
  }

  lemma TypeRecordIsSound(service: bytes, proto: bytes)
    requires |service| < 63 && |proto| == 3
    ensures Sound(TypeRecord(service, proto))
  {
    var i := Identity([], [], service, proto, 0, [], 0, [0, 0, 0, 0]);
    ServiceCons(i, 63);
    NameSize(ServiceLabels(i));
    var tail := [DNS_SD, UDP, LOCAL];
    Cons(LOCAL, [], 63);
    Cons(UDP, [LOCAL], 63);
    Cons(DNS_SD, [UDP, LOCAL], 63);
    Cons(Under(SERVICES), tail, 63);
    assert [LOCAL] + [] == [LOCAL] && [UDP] + [LOCAL] == [UDP, LOCAL] && [DNS_SD] + [UDP, LOCAL] == tail;
    assert [Under(SERVICES)] + tail == TypeRecord(service, proto).labels;
  }

  lemma TypeReplyIsWellFormed(service: bytes, proto: bytes)
    requires |service| < 63 && |proto| == 3
    ensures WellFormed(Header(1, 0) + Wire(TypeRecord(service, proto)))
  {
    var r := TypeRecord(service, proto);
    TypeRecordIsSound(service, proto);
    assert [r][1..] == [] && AllSound([r]);
    AfterRecordsOf([r]);
    assert WireAll([r]) == Wire(r) + WireAll([]) == Wire(r) + [] == Wire(r);
    HeaderSplit(Header(1, 0), 1, 0, Wire(r));
    WellFormedIf(Header(1, 0) + Wire(r), 1, Wire(r));
  }

  /** Every packet that tells of the registered services can be walked to its exact end. */
  lemma {:induction false} TypeRepliesAreWellFormed(services: seq<Service>)
    requires AllAccounted(services)
    ensures forall p | p in TypeReplies(services) :: WellFormed(p)
    decreases |services|
  {
    if services != [] {
      var s := services[0];
      assert Accounted(s);
      TypeReplyIsWellFormed(s.name, s.proto);
      TypeRepliesAreWellFormed(services[1..]);
    }
  }

  lemma SmallRemainder(x: nat, m: nat)
    requires x < m
    ensures x % m == x
  {
  }

  lemma LabelRead(l: bytes, t: bytes, m: nat, room: nat)
    requires |l| < m <= 0x100 && |l| <= room
    ensures ReadLabel(Label(l) + t, m, room) == Some((l, t))
  {
    LabelSplit(l, t);
    SmallRemainder(|l|, m);
  }

  lemma LocalUnderstood(s: bytes, rest: bytes, service: bytes, proto: bytes, services: seq<Service>)
    requires s == Label(LOCAL) + ([0] + rest) && service != [] && 0 !in service && 0 !in proto
    requires PortOf(services, service, proto) != 0
    ensures ReadLocal(s, service, proto, services) == ForService(service, proto, rest)
  {
    LabelRead(LOCAL, [0] + rest, 31, 30);
    NoZero(service);
    NoZero(proto);
  }

  lemma ProtoUnderstood(s: bytes, inner: bytes, rest: bytes, service: bytes, proto: bytes, services: seq<Service>)
    requires s == Label(Under(proto)) + inner && inner == Label(LOCAL) + ([0] + rest) && |proto| == 3
    requires service != [] && 0 !in service && 0 !in proto && PortOf(services, service, proto) != 0
    ensures ReadProto(s, service, services) == ForService(service, proto, rest)
  {
    LabelRead(Under(proto), inner, 255, 31);
    assert Under(proto)[1..] == proto;
    LocalUnderstood(inner, rest, service, proto, services);
  }

  /** The name of a query for a registered service is understood as just that. */
  lemma QueryUnderstood(s: bytes, service: bytes, proto: bytes, rest: bytes, host: bytes, instance: bytes,
                        services: seq<Service>)
    requires s == Name([Under(service), Under(proto), LOCAL]) + rest
    requires 0 < |service| <= 31 && |proto| == 3 && 0 !in service && 0 !in proto
    requires PortOf(services, service, proto) != 0
    ensures ReadRequest(s, host, instance, services) == ForService(service, proto, rest)
  {
    var inner := Label(LOCAL) + ([0] + rest);
    var middle := Label(Under(proto)) + inner;
    ThreeLabels(Under(service), Under(proto), LOCAL, rest);
    LabelRead(Under(service), middle, 255, 254);
    assert Under(service)[1..] == service;
    ProtoUnderstood(middle, inner, rest, service, proto, services);
  }

  lemma ThreeLabels(a: bytes, b: bytes, c: bytes, rest: bytes)
    ensures Name([a, b, c]) + rest == Label(a) + (Label(b) + (Label(c) + ([0] + rest)))
  {
    var s := [a, b, c];
    assert s[1..] == [b, c] && [b, c][1..] == [c] && [c][1..] == [];
    NameCons(s, rest);
    NameCons([b, c], rest);
    NameCons([c], rest);
    assert Name([]) == [0];
  }

  /** Letters that are there are taken as they are. */
  lemma ThreeLetters(proto: bytes, stale: bytes)
    requires |proto| == 3 && |stale| == 2
    ensures ProtoLetters(proto, stale) == proto
  {
  }

  lemma QueryHeaderSplit(tail: bytes)
    ensures var p := [0, 0, 0, 0, 0, 1, 0, 0, 0, 0, 0, 0] + tail;
            HeaderWord(p, 1) == 0 && HeaderWord(p, 2) == 1 && Drop(p, 12) == tail
  {
    var h: bytes := [0, 0, 0, 0, 0, 1, 0, 0, 0, 0, 0, 0];
    var p := h + tail;
    assert p[2] == h[2] && p[3] == h[3] && p[4] == h[4] && p[5] == h[5];
    HeaderWordIs(p, 1);
    HeaderWordIs(p, 2);
  }

  lemma OnePointerAsked()
    ensures Questions(QuestionHead(TYPE_PTR), 1) == [TYPE_PTR]
    ensures Asked([TYPE_PTR]) == Mask(true, false, false, false) && Answered([TYPE_PTR]) == EVERYTHING
  {
    QuestionStep(TYPE_PTR, [], 1);
    assert QuestionHead(TYPE_PTR) + [] == QuestionHead(TYPE_PTR);
    AskedIs([TYPE_PTR]);
    AnsweredIs([TYPE_PTR]);
  }

  /** A query for a registered service gets its pointer reply. */
  lemma QueryAnswered(service: bytes, proto: bytes, host: bytes, instance: bytes, services: seq<Service>, ip: Four,
                      stale: bytes)
    requires 0 < |service| <= 31 && |proto| == 3 && 0 !in service && 0 !in proto && |stale| == 2
    requires PortOf(services, service, proto) != 0
    ensures Respond(QueryPacket(service, proto), host, instance, services, ip, stale) ==
            [Reply(Mask(true, false, false, false), EVERYTHING,
                   Identify(host, instance, services, service, proto, ip))]
  {
    var tail := Name([Under(service), Under(proto), LOCAL]) + QuestionHead(TYPE_PTR);
    QueryHeaderSplit(tail);
    QueryUnderstood(tail, service, proto, QuestionHead(TYPE_PTR), host, instance, services);
    OnePointerAsked();
    ThreeLetters(proto, stale);
  }

  /**
   * From the query to the answer, after any registrations: the packet queryService sends for a registered service is
   * answered, and the asking side reads back exactly one answer, with the responder's address, port and host name.
   */
  lemma QueryToAnswer(ops: seq<Op>, host: bytes, instance: bytes, service: bytes, proto: bytes, ip: Four, stale: bytes)
    requires PortOf(Run([], ops), service, proto) > 0 && |stale| == 2
    requires 0 < |service| <= 30 && 0 !in service && 0 !in proto
    requires Fits(host, 31) && 0 !in host && Fits(instance, 31)
    requires |Texts(TextsOf(Run([], ops), service, proto))| < 0x100
    ensures var replies := Respond(QueryPacket(service, proto), host, instance, Run([], ops), ip, stale);
            && |replies| == 1
            && Parse(service, replies[0]) == Appended(Answer(ip, PortOf(Run([], ops), service, proto), host))
  {
    FoundIsAccounted(ops, service, proto);
    QueryAnswered(service, proto, host, instance, Run([], ops), ip, stale);
    var i := Identify(host, instance, Run([], ops), service, proto, ip);
    OnePointerAsked();
    RegisteredServiceReadBack(ops, host, instance, service, proto, ip, [TYPE_PTR], service);
    HeardExactly(i, service);
  }

  /** A question for a host's address alone has one reply, whatever the letters of a protocol there is none of are. */
  lemma HostAddressDetermined(i: Identity, j: Identity)
    requires i.host == j.host && i.ip == j.ip
    ensures Reply(Asked([TYPE_A]), Answered([TYPE_A]), i) == Reply(Asked([TYPE_A]), Answered([TYPE_A]), j)
  {
    AskedIs([TYPE_A]);
    AnsweredIs([TYPE_A]);
    SectionsOf([TYPE_A]);
    assert Records(Mask(false, false, false, true), i) == [Address(i)] == [Address(j)];
    assert Records(NOTHING, i) == [] == Records(NOTHING, j);
  }
}
