/**
 * The multicast DNS responder: the services it keeps, the reply it builds to a question about one of them, and its
 * own reading of such replies. Records are those of section 4.1.3 of RFC 1035; what goes into the additional
 * section is that of section 12 of RFC 6763.
 */
module Mdns {
  import opened Bytes
  import opened Wrappers

  const UNDERSCORE: byte := 95
  const LOCAL: bytes := [108, 111, 99, 97, 108]
  const TYPE_A: Word := 1
  const TYPE_PTR: Word := 12
  const TYPE_TXT: Word := 16
  const TYPE_SRV: Word := 33

  function Under(s: bytes): bytes { [UNDERSCORE] + s }

  /** A label after its length, cut to a byte. */
  function Label(l: bytes): bytes { [(|l| % 0x100) as byte] + l }

  function Name(labels: seq<bytes>): bytes {
    if labels == [] then [0] else Label(labels[0]) + Name(labels[1..])
  }

  /** What a reply is made from: the responder's two names, the service asked for and the address to give. */
  datatype Identity = Identity(host: bytes, instance: bytes, service: bytes, proto: bytes, port: Word,
                               txts: seq<bytes>, txtLen: nat, ip: Four)

  function ServiceLabels(i: Identity): seq<bytes> { [Under(i.service), Under(i.proto), LOCAL] }

  function InstanceLabels(i: Identity): seq<bytes> { [i.instance] + ServiceLabels(i) }

  function HostLabels(i: Identity): seq<bytes> { [i.host, LOCAL] }

  /** Type, class, time to live and data length of a record. */
  function Attributes(kind: byte, flush: bool, minutes: bool, length: nat): (a: bytes)
    ensures |a| == 10 && a[0] == 0 && a[1] == kind && a[8] == 0 && a[9] as nat == length % 0x100
  {
    [0, kind] + [if flush then 0x80 else 0, 1] + (if minutes then [0, 0, 0, 0x78] else [0, 0, 0x11, 0x94])
    + [0, (length % 0x100) as byte]
  }

  datatype Record = Record(labels: seq<bytes>, kind: byte, flush: bool, minutes: bool, length: nat, data: bytes)

  function Wire(r: Record): bytes {
    Name(r.labels) + (Attributes(r.kind, r.flush, r.minutes, r.length) + r.data)
  }

  function Ptr(i: Identity): Record {
    Record(ServiceLabels(i), 12, false, true, |i.instance| + |i.service| + 15, Name(InstanceLabels(i)))
  }

  /** A text string after its length, both cut to a byte. */
  function Text(t: bytes): (w: bytes)
    ensures |w| == 1 + |t| % 0x100
  {
    [(|t| % 0x100) as byte] + t[..|t| % 0x100]
  }

  function Texts(txts: seq<bytes>): bytes {
    if txts == [] then [] else Text(txts[0]) + Texts(txts[1..])
  }

  function Txt(i: Identity): Record {
    Record(InstanceLabels(i), 16, true, false, i.txtLen, Texts(i.txts))
  }

  function SrvData(i: Identity): bytes {
    [0, 0, 0, 0, (i.port / 0x100) as byte, (i.port % 0x100) as byte] + Name(HostLabels(i))
  }

  function Srv(i: Identity): Record {
    Record(InstanceLabels(i), 33, true, true, |i.host| + 14, SrvData(i))
  }

  function Address(i: Identity): Record {
    Record(HostLabels(i), 1, true, true, 4, i.ip)
  }

  /** Which of the four records are asked for or sent. */
  datatype Mask = Mask(ptr: bool, txt: bool, srv: bool, a: bool)

  const NOTHING: Mask := Mask(false, false, false, false)
  const EVERYTHING: Mask := Mask(true, true, true, true)

  function Both(m: Mask, n: Mask): Mask { Mask(m.ptr && n.ptr, m.txt && n.txt, m.srv && n.srv, m.a && n.a) }

  function Without(m: Mask, n: Mask): Mask { Mask(m.ptr && !n.ptr, m.txt && !n.txt, m.srv && !n.srv, m.a && !n.a) }

  function Count(m: Mask): nat {
    (if m.ptr then 1 else 0) + (if m.txt then 1 else 0) + (if m.srv then 1 else 0) + (if m.a then 1 else 0)
  }

  function Records(m: Mask, i: Identity): seq<Record> {
    (if m.ptr then [Ptr(i)] else []) + (if m.txt then [Txt(i)] else [])
    + (if m.srv then [Srv(i)] else []) + (if m.a then [Address(i)] else [])
  }

  function WireAll(records: seq<Record>): bytes {
    if records == [] then [] else Wire(records[0]) + WireAll(records[1..])
  }

  function Header(answers: nat, additional: nat): (h: bytes)
    requires answers <= 4 && additional <= 4
    ensures |h| == 12 && h[2] == 0x84 && h[4] == 0 && h[5] == 0 && h[6] == 0 && h[7] as nat == answers
    ensures h[8] == 0 && h[9] == 0 && h[10] == 0 && h[11] as nat == additional
  {
    [0, 0, 0x84, 0, 0, 0, 0, answers as byte, 0, 0, 0, additional as byte]
  }

  /** The reply: the records asked for, then those that go with them. */
  function Reply(question: Mask, response: Mask, i: Identity): bytes {
    var answers, additional := Both(response, question), Without(response, question);
    Header(Count(answers), Count(additional)) + WireAll(Records(answers, i) + Records(additional, i))
  }

  // ---- walking a packet by its lengths ----

  /** What follows a name: labels of up to 63 bytes, ended by an empty one or by a pointer. */
  function AfterName(s: bytes): (r: Option<bytes>)
    ensures r.Some? ==> |r.value| < |s|
    decreases |s|
  {
    if s == [] then None
    else if s[0] == 0 then Some(s[1..])
    else if s[0] >= 192 then (if |s| < 2 then None else Some(s[2..]))
    else if s[0] >= 64 || |s| < 1 + s[0] as nat then None
    else AfterName(s[1 + s[0] as nat..])
  }

  /** What follows a record: its name, ten bytes, and as many more as the last two of them say. */
  function AfterRecord(s: bytes): Option<bytes> {
    var r := AfterName(s);
    if r.None? || |r.value| < 10 || |r.value| < 10 + Number(r.value[8], r.value[9]) then None
    else Some(r.value[10 + Number(r.value[8], r.value[9])..])
  }

  function AfterRecords(s: bytes, n: nat): Option<bytes>
    decreases n
  {
    if n == 0 then Some(s) else
      var r := AfterRecord(s);
      if r.None? then None else AfterRecords(r.value, n - 1)
  }

  /** How many records a packet's header announces. */
  function Announced(p: bytes): nat
    requires 12 <= |p|
  {
    Number(p[6], p[7]) + Number(p[8], p[9]) + Number(p[10], p[11])
  }

  /** A packet without questions whose announced records take exactly its bytes. */
  predicate WellFormed(p: bytes) {
    12 <= |p| && Number(p[4], p[5]) == 0 && AfterRecords(p[12..], Announced(p)) == Some([])
  }

  predicate Fits(l: bytes, most: nat) { 0 < |l| <= most }

  predicate AllFit(labels: seq<bytes>, most: nat) {
    labels == [] || (Fits(labels[0], most) && AllFit(labels[1..], most))
  }

  lemma LabelSplit(l: bytes, t: bytes)
    requires |l| < 0x100
    ensures var s := Label(l) + t; s[0] as nat == |l| && s[1..1 + |l|] == l && s[1 + |l|..] == t
  {
  }

  lemma NameCons(labels: seq<bytes>, t: bytes)
    requires labels != []
    ensures Name(labels) + t == Label(labels[0]) + (Name(labels[1..]) + t)
  {
  }

  lemma {:induction false} AfterNameOf(labels: seq<bytes>, t: bytes)
    requires AllFit(labels, 63)
    ensures AfterName(Name(labels) + t) == Some(t)
    decreases labels
  {
    if labels == [] {
      assert (Name(labels) + t)[1..] == t;
    } else {
      NameCons(labels, t);
      LabelSplit(labels[0], Name(labels[1..]) + t);
      AfterNameOf(labels[1..], t);
    }
  }

  /** A record as it can be walked over: its length is that of its data. */
  predicate Sound(r: Record) { AllFit(r.labels, 63) && r.length == |r.data| < 0x100 }

  lemma AttributesSplit(r: Record, t: bytes)
    ensures var s := Attributes(r.kind, r.flush, r.minutes, r.length) + r.data + t;
            && 10 <= |s| && s[0] == 0 && s[1] == r.kind && s[8] == 0 && s[9] as nat == r.length % 0x100
            && s[10..] == r.data + t
  {
    Starts(Attributes(r.kind, r.flush, r.minutes, r.length), r.data + t);
    assert Attributes(r.kind, r.flush, r.minutes, r.length) + r.data + t ==
           Attributes(r.kind, r.flush, r.minutes, r.length) + (r.data + t);
  }

  lemma WireSplit(r: Record, t: bytes)
    ensures Wire(r) + t == Name(r.labels) + (Attributes(r.kind, r.flush, r.minutes, r.length) + r.data + t)
  {
  }

  lemma AfterRecordIf(s: bytes, rest: bytes, length: nat, t: bytes)
    requires AfterName(s) == Some(rest) && 10 <= |rest| && rest[8] == 0 && rest[9] as nat == length
    requires length <= |rest[10..]| && rest[10..][length..] == t
    ensures AfterRecord(s) == Some(t)
  {
    assert rest[10 + length..] == rest[10..][length..];
  }

  lemma AfterRecordOf(r: Record, rest: bytes, t: bytes, s: bytes)
    requires Sound(r) && s == Name(r.labels) + rest
    requires rest == Attributes(r.kind, r.flush, r.minutes, r.length) + r.data + t
    ensures AfterRecord(s) == Some(t)
  {
    AfterNameOf(r.labels, rest);
    AttributesSplit(r, t);
    assert (r.data + t)[r.length..] == t;
    AfterRecordIf(s, rest, r.length, t);
  }

  predicate AllSound(records: seq<Record>) {
    records == [] || (Sound(records[0]) && AllSound(records[1..]))
  }

  lemma {:induction false} AfterRecordsOf(records: seq<Record>)
    requires AllSound(records)
    ensures AfterRecords(WireAll(records), |records|) == Some([])
  {
    if records != [] {
      var r, t := records[0], WireAll(records[1..]);
      WireSplit(r, t);
      AfterRecordOf(r, Attributes(r.kind, r.flush, r.minutes, r.length) + r.data + t, t, WireAll(records));
      AfterRecordsOf(records[1..]);
    }
  }

  lemma {:induction false} AllSoundConcat(a: seq<Record>, b: seq<Record>)
    requires AllSound(a) && AllSound(b)
    ensures AllSound(a + b)
  {
    if a == [] {
      assert a + b == b;
    } else {
      assert (a + b)[1..] == a[1..] + b;
      AllSoundConcat(a[1..], b);
    }
  }

  lemma {:induction false} NameSize(labels: seq<bytes>)
    ensures |Name(labels)| == Sizes(labels) + |labels| + 1
  {
    if labels != [] {
      NameSize(labels[1..]);
    }
  }

  function Sizes(labels: seq<bytes>): nat {
    if labels == [] then 0 else |labels[0]| + Sizes(labels[1..])
  }

  /** What a registered service keeps within: names that are labels, and a protocol of three letters. */
  predicate Registered(i: Identity, most: nat) {
    && Fits(i.host, most) && Fits(i.instance, most) && |i.service| < most && |i.proto| == 3
  }

  lemma Cons(l: bytes, rest: seq<bytes>, most: nat)
    ensures AllFit([l] + rest, most) == (Fits(l, most) && AllFit(rest, most))
    ensures Sizes([l] + rest) == |l| + Sizes(rest)
  {
    assert ([l] + rest)[1..] == rest;
  }

  lemma ServiceCons(i: Identity, most: nat)
    ensures AllFit(ServiceLabels(i), most) ==
            (Fits(Under(i.service), most) && Fits(Under(i.proto), most) && Fits(LOCAL, most))
    ensures Sizes(ServiceLabels(i)) == |i.service| + |i.proto| + 7
  {
    Cons(LOCAL, [], most);
    Cons(Under(i.proto), [LOCAL], most);
    Cons(Under(i.service), [Under(i.proto), LOCAL], most);
    assert [LOCAL] + [] == [LOCAL];
    assert [Under(i.proto)] + [LOCAL] == [Under(i.proto), LOCAL];
    assert [Under(i.service)] + [Under(i.proto), LOCAL] == ServiceLabels(i);
  }

  lemma HostCons(i: Identity, most: nat)
    ensures AllFit(HostLabels(i), most) == (Fits(i.host, most) && Fits(LOCAL, most))
    ensures Sizes(HostLabels(i)) == |i.host| + 5
  {
    Cons(LOCAL, [], most);
    Cons(i.host, [LOCAL], most);
    assert [LOCAL] + [] == [LOCAL];
    assert [i.host] + [LOCAL] == HostLabels(i);
  }

  lemma LabelsFit(i: Identity, most: nat)
    requires Registered(i, most) && 5 <= most
    ensures AllFit(ServiceLabels(i), most) && AllFit(InstanceLabels(i), most) && AllFit(HostLabels(i), most)
  {
    ServiceCons(i, most);
    Cons(i.instance, ServiceLabels(i), most);
    HostCons(i, most);
  }

  lemma NameSizes(i: Identity)
    requires |i.proto| == 3
    ensures |Name(InstanceLabels(i))| == |i.instance| + |i.service| + 15
    ensures |Name(HostLabels(i))| == |i.host| + 8
  {
    ServiceCons(i, 0);
    Cons(i.instance, ServiceLabels(i), 0);
    HostCons(i, 0);
    NameSize(InstanceLabels(i));
    NameSize(HostLabels(i));
  }

  /** Of the four records, only the text record can have a length that is not the one of its data. */
  lemma RecordsAreSound(m: Mask, i: Identity)
    requires Registered(i, 63) && (m.txt ==> i.txtLen == |Texts(i.txts)| < 0x100)
    ensures AllSound(Records(m, i))
  {
    LabelsFit(i, 63);
    NameSizes(i);
    assert AllSound([]);
    AllSoundConcat(if m.ptr then [Ptr(i)] else [], if m.txt then [Txt(i)] else []);
    AllSoundConcat((if m.ptr then [Ptr(i)] else []) + (if m.txt then [Txt(i)] else []),
                   if m.srv then [Srv(i)] else []);
    AllSoundConcat((if m.ptr then [Ptr(i)] else []) + (if m.txt then [Txt(i)] else [])
                   + (if m.srv then [Srv(i)] else []), if m.a then [Address(i)] else []);
  }

  lemma RecordsCounted(m: Mask, i: Identity)
    ensures |Records(m, i)| == Count(m) <= 4
  {
  }

  lemma HeaderSplit(h: bytes, answers: nat, additional: nat, tail: bytes)
    requires answers <= 4 && additional <= 4 && h == Header(answers, additional)
    ensures var p := h + tail;
            && p[12..] == tail && p[2] == 0x84 && Number(p[4], p[5]) == 0 && Number(p[6], p[7]) == answers
            && Number(p[10], p[11]) == additional && Announced(p) == answers + additional
  {
    HeaderFields(h, answers, additional, tail);
  }

  lemma WordAhead(h: bytes, tail: bytes, i: nat)
    requires i + 2 <= |h| && h[i] == 0
    ensures Number((h + tail)[i], (h + tail)[i + 1]) == h[i + 1] as nat
  {
  }

  lemma HeaderFields(h: bytes, answers: nat, additional: nat, tail: bytes)
    requires |h| == 12 && h[2] == 0x84 && h[4] == 0 && h[5] == 0 && h[6] == 0 && h[7] as nat == answers
    requires h[8] == 0 && h[9] == 0 && h[10] == 0 && h[11] as nat == additional
    ensures var p := h + tail;
            && p[12..] == tail && p[2] == 0x84 && Number(p[4], p[5]) == 0 && Number(p[6], p[7]) == answers
            && Number(p[10], p[11]) == additional && Announced(p) == answers + additional
  {
    var p := h + tail;
    assert p[12..] == tail;
    assert p[2] == h[2];
    WordAhead(h, tail, 4);
    WordAhead(h, tail, 6);
    WordAhead(h, tail, 8);
    WordAhead(h, tail, 10);
  }

  lemma WellFormedIf(p: bytes, count: nat, tail: bytes)
    requires 12 <= |p| && Number(p[4], p[5]) == 0 && Announced(p) == count && p[12..] == tail
    requires AfterRecords(tail, count) == Some([])
    ensures WellFormed(p)
  {
  }

  /** Every reply, whatever was asked, can be walked record by record to its exact end. */
  lemma ReplyIsWellFormed(question: Mask, response: Mask, i: Identity)
    requires Registered(i, 63) && (response.txt ==> i.txtLen == |Texts(i.txts)| < 0x100)
    ensures WellFormed(Reply(question, response, i))
  {
    var a, b := Both(response, question), Without(response, question);
    RecordsAreSound(a, i);
    RecordsAreSound(b, i);
    AllSoundConcat(Records(a, i), Records(b, i));
    var all := Records(a, i) + Records(b, i);
    RecordsCounted(a, i);
    RecordsCounted(b, i);
    AfterRecordsOf(all);
    HeaderSplit(Header(Count(a), Count(b)), Count(a), Count(b), WireAll(all));
    WellFormedIf(Reply(question, response, i), |all|, WireAll(all));
  }

  // ---- the services and their texts ----

  /** A service as it is registered; `txtLen` is kept beside the texts. */
  datatype Service = Service(name: bytes, proto: bytes, port: Word, txts: seq<bytes>, txtLen: nat)

  const MOST_TEXT: nat := 1300

  /** The name as it can be looked up: one of 32 bytes fills its array, and the protocol follows without an end. */
  function Stored(name: bytes, proto: bytes): bytes { if |name| == 32 then name + proto else name }

  /** The first service with this name and protocol, whatever its port. */
  function Named(s: seq<Service>, name: bytes, proto: bytes): (i: nat)
    ensures i <= |s| && (i < |s| ==> s[i].name == name && s[i].proto == proto)
    ensures forall j | 0 <= j < i :: s[j].name != name || s[j].proto != proto
  {
    if s == [] || (s[0].name == name && s[0].proto == proto) then 0 else 1 + Named(s[1..], name, proto)
  }

  /** The first such service with a port. */
  function Open(s: seq<Service>, name: bytes, proto: bytes): (i: nat)
    ensures i <= |s| && (i < |s| ==> s[i].name == name && s[i].proto == proto && s[i].port > 0)
    ensures forall j | 0 <= j < i :: s[j].name != name || s[j].proto != proto || s[j].port == 0
  {
    if s == [] || (s[0].port > 0 && s[0].name == name && s[0].proto == proto) then 0
    else 1 + Open(s[1..], name, proto)
  }

  function PortOf(s: seq<Service>, name: bytes, proto: bytes): Word {
    var i := Open(s, name, proto);
    if i < |s| then s[i].port else 0
  }

  function TextsOf(s: seq<Service>, name: bytes, proto: bytes): seq<bytes> {
    var i := Open(s, name, proto);
    if i < |s| then s[i].txts else []
  }

  function TextLengthOf(s: seq<Service>, name: bytes, proto: bytes): nat {
    var i := Open(s, name, proto);
    if i < |s| && s[i].txts != [] then s[i].txtLen else 0
  }

  const EQUALS: byte := 61

  function KeyValue(key: bytes, value: bytes): bytes { key + [EQUALS] + value }

  /** The length a text is counted with: its own and one more, in a byte. */
  function Counted(t: bytes): nat { (|t| + 1) % 0x100 }

  datatype Op = AddService(name: bytes, proto: bytes, port: Word)
              | AddText(name: bytes, proto: bytes, key: bytes, value: bytes)

  function WithText(s: Service, t: bytes): Service {
    s.(txts := s.txts + [t], txtLen := s.txtLen + Counted(t))
  }

  function Performed(s: seq<Service>, op: Op): seq<Service> {
    match op
    case AddService(name, proto, port) =>
      if PortOf(s, name, proto) != 0 || |name| > 32 || |proto| != 3 then s
      else s + [Service(Stored(name, proto), proto, port, [], 0)]
    case AddText(name, proto, key, value) =>
      var i, t := Named(s, name, proto), KeyValue(key, value);
      if i == |s| || s[i].txtLen + Counted(t) > MOST_TEXT then s else s[i := WithText(s[i], t)]
  }

  function Run(s: seq<Service>, ops: seq<Op>): seq<Service>
    decreases |ops|
  {
    if ops == [] then s else Run(Performed(s, ops[0]), ops[1..])
  }

  /** A text whose length byte is 255: it is counted as nothing and sent as 256 bytes. */
  predicate Wide(t: bytes) { |t| % 0x100 == 0xFF }

  function WideCount(txts: seq<bytes>): nat {
    if txts == [] then 0 else (if Wide(txts[0]) then 1 else 0) + WideCount(txts[1..])
  }

  /** What is kept of every service: its text length, up to 256 bytes for each wide text, is what is sent. */
  predicate Accounted(s: Service) {
    |Texts(s.txts)| == s.txtLen + 0x100 * WideCount(s.txts) && s.txtLen <= MOST_TEXT && |s.proto| == 3 && |s.name| <= 35
  }

  predicate AllAccounted(s: seq<Service>) { forall i | 0 <= i < |s| :: Accounted(s[i]) }

  lemma {:induction false} TextsSnoc(txts: seq<bytes>, t: bytes)
    ensures Texts(txts + [t]) == Texts(txts) + Text(t)
    ensures WideCount(txts + [t]) == WideCount(txts) + if Wide(t) then 1 else 0
  {
    if txts == [] {
      assert txts + [t] == [t] && [t][1..] == [];
      assert Texts([t]) == Text(t) + Texts([]);
      assert WideCount([t]) == (if Wide(t) then 1 else 0) + WideCount([]);
    } else {
      assert (txts + [t])[1..] == txts[1..] + [t];
      TextsSnoc(txts[1..], t);
    }
  }

  /** A text is counted with the bytes it takes, unless it is wide. */
  lemma CountedSize(t: bytes)
    ensures |Text(t)| == Counted(t) + if Wide(t) then 0x100 else 0
  {
    var q, r := |t| / 0x100, |t| % 0x100;
    assert |t| + 1 == 0x100 * q + (r + 1);
    if r == 0xFF {
      assert |t| + 1 == 0x100 * (q + 1);
    }
  }

  lemma StepKeepsAccounts(s: seq<Service>, op: Op)
    requires AllAccounted(s)
    ensures AllAccounted(Performed(s, op))
  {
    if op.AddText? {
      var i, t := Named(s, op.name, op.proto), KeyValue(op.key, op.value);
      if i < |s| {
        TextsSnoc(s[i].txts, t);
        CountedSize(t);
      }
    }
  }

  /** The text lengths are right over every run of registrations, wide texts apart. */
  lemma {:induction false} RunKeepsAccounts(s: seq<Service>, ops: seq<Op>)
    requires AllAccounted(s)
    ensures AllAccounted(Run(s, ops))
    decreases |ops|
  {
    if ops != [] {
      StepKeepsAccounts(s, ops[0]);
      RunKeepsAccounts(Performed(s, ops[0]), ops[1..]);
    }
  }

  /** What a reply about a service is made from. */
  function Identify(host: bytes, instance: bytes, s: seq<Service>, service: bytes, proto: bytes, ip: Four): Identity {
    Identity(host, instance, service, proto, PortOf(s, service, proto), TextsOf(s, service, proto),
             TextLengthOf(s, service, proto), ip)
  }

  /** A service that is found after any registrations has a text record whose length is sent right or 256s less. */
  lemma FoundIsAccounted(ops: seq<Op>, service: bytes, proto: bytes)
    ensures var s := Run([], ops);
            PortOf(s, service, proto) > 0 ==>
              && |proto| == 3 && |service| <= 35
              && |Texts(TextsOf(s, service, proto))| == TextLengthOf(s, service, proto)
                                                        + 0x100 * WideCount(TextsOf(s, service, proto))
  {
    var s := Run([], ops);
    RunKeepsAccounts([], ops);
    var i := Open(s, service, proto);
    assert i < |s| ==> Accounted(s[i]);
  }

  /** After every run of registrations, every reply about a service whose texts fit a byte length is well formed. */
  lemma RepliesAreWellFormed(ops: seq<Op>, host: bytes, instance: bytes, service: bytes, proto: bytes, ip: Four,
                             question: Mask, response: Mask)
    requires PortOf(Run([], ops), service, proto) > 0 && Fits(host, 63) && Fits(instance, 63)
    requires response.txt ==> |Texts(TextsOf(Run([], ops), service, proto))| < 0x100
    ensures WellFormed(Reply(question, response, Identify(host, instance, Run([], ops), service, proto, ip)))
  {
    FoundIsAccounted(ops, service, proto);
    ReplyIsWellFormed(question, response, Identify(host, instance, Run([], ops), service, proto, ip));
  }

  /** The length a text record is sent with is that of its data exactly if the data fit a byte length. */
  lemma TextLengthExact(ops: seq<Op>, host: bytes, instance: bytes, service: bytes, proto: bytes, ip: Four)
    requires PortOf(Run([], ops), service, proto) > 0
    ensures var r := Txt(Identify(host, instance, Run([], ops), service, proto, ip));
            Attributes(r.kind, r.flush, r.minutes, r.length)[9] as nat == |r.data| <==> |r.data| < 0x100
  {
    FoundIsAccounted(ops, service, proto);
    var r := Txt(Identify(host, instance, Run([], ops), service, proto, ip));
    SameByte(r.length, WideCount(TextsOf(Run([], ops), service, proto)), |r.data|);
  }

  lemma SameByte(length: nat, wide: nat, size: nat)
    requires size == length + 0x100 * wide
    ensures length % 0x100 == size % 0x100
  {
  }

  lemma {:induction false} OpenSnoc(s: seq<Service>, e: Service, name: bytes, proto: bytes)
    ensures Open(s + [e], name, proto) ==
            if Open(s, name, proto) < |s| then Open(s, name, proto)
            else if e.port > 0 && e.name == name && e.proto == proto then |s| else |s| + 1
  {
    if s == [] {
      assert s + [e] == [e] && [e][1..] == [];
      assert Open([], name, proto) == 0;
    } else {
      assert (s + [e])[0] == s[0] && (s + [e])[1..] == s[1..] + [e];
      OpenSnoc(s[1..], e, name, proto);
    }
  }

  /**
   * A service registered with a port is found again under its name exactly if the name leaves room for its end: one
   * of 32 bytes is stored with the protocol behind it, and longer ones are refused.
   */
  lemma RegisteredIsFound(s: seq<Service>, name: bytes, proto: bytes, port: Word)
    requires PortOf(s, name, proto) == 0 && port > 0 && |proto| == 3
    ensures PortOf(Performed(s, AddService(name, proto, port)), name, proto) == port <==> |name| < 32
  {
    if |name| <= 32 {
      OpenSnoc(s, Service(Stored(name, proto), proto, port, [], 0), name, proto);
    }
  }

  // ---- from questions to masks ----

  function Or(m: Mask, n: Mask): Mask { Mask(m.ptr || n.ptr, m.txt || n.txt, m.srv || n.srv, m.a || n.a) }

  function AskedBy(t: Word): Mask {
    Mask(t == TYPE_PTR, t == TYPE_TXT, t == TYPE_SRV, t == TYPE_A)
  }

  function AnsweredBy(t: Word): Mask {
    if t == TYPE_A then Mask(false, false, false, true)
    else if t == TYPE_SRV then Mask(false, false, true, true)
    else if t == TYPE_TXT then Mask(false, true, false, false)
    else if t == TYPE_PTR then EVERYTHING
    else NOTHING
  }

  function Asked(types: seq<Word>): Mask {
    if types == [] then NOTHING else Or(AskedBy(types[0]), Asked(types[1..]))
  }

  function Answered(types: seq<Word>): Mask {
    if types == [] then NOTHING else Or(AnsweredBy(types[0]), Answered(types[1..]))
  }

  lemma {:induction false} AskedIs(types: seq<Word>)
    ensures Asked(types) == Mask(TYPE_PTR in types, TYPE_TXT in types, TYPE_SRV in types, TYPE_A in types)
  {
    if types != [] {
      AskedIs(types[1..]);
      assert types == [types[0]] + types[1..];
    }
  }

  lemma {:induction false} AnsweredIs(types: seq<Word>)
    ensures var p, s := TYPE_PTR in types, TYPE_SRV in types;
            Answered(types) == Mask(p, p || TYPE_TXT in types, p || s, p || s || TYPE_A in types)
  {
    if types != [] {
      AnsweredIs(types[1..]);
      assert types == [types[0]] + types[1..];
    }
  }

  /**
   * What the sections of a reply hold, for every list of questions: the answers are what was asked; with a pointer
   * come the service, text and address records, and with a service record the address, unless asked for anyway.
   */
  lemma SectionsOf(types: seq<Word>)
    ensures Both(Answered(types), Asked(types)) == Asked(types)
    ensures Without(Answered(types), Asked(types)) ==
            Mask(false,
                 TYPE_PTR in types && TYPE_TXT !in types,
                 TYPE_PTR in types && TYPE_SRV !in types,
                 (TYPE_PTR in types || TYPE_SRV in types) && TYPE_A !in types)
  {
    AskedIs(types);
    AnsweredIs(types);
  }

  /** Two bytes read from the packet; all ones when it has ended. */
  function Read16(s: bytes): Word { if |s| < 2 then 0xFFFF else Number(s[0], s[1]) }

  /** The types asked for in what follows the first question's name, of up to `n` questions about the same name. */
  function Questions(s: bytes, n: nat): seq<Word>
    decreases n
  {
    if n == 0 then [] else
      var t := if Read16(s) >= 0x4000 then Drop(s, 2) else s;
      var category, rest := Read16(Drop(t, 2)), Drop(Drop(t, 2), 2);
      var first := if category % 2 == 1 then [Read16(t)] else [];
      if n == 1 || Read16(rest) != 0xC00C then first else first + Questions(Drop(rest, 2), n - 1)
  }

  /** Questions about one name: the name itself only in the first, then a pointer to it. */
  function QuestionList(types: seq<Word>): bytes {
    if types == [] then []
    else QuestionHead(types[0]) + if |types| == 1 then [] else [192, 12] + QuestionList(types[1..])
  }

  lemma QuestionStep(t: Word, tail: bytes, n: nat)
    requires t < 0x4000 && n > 0
    ensures Questions(QuestionHead(t) + tail, n) ==
            if n == 1 || Read16(tail) != 0xC00C then [t] else [t] + Questions(Drop(tail, 2), n - 1)
  {
    var s := QuestionHead(t) + tail;
    assert Read16(s) == t && Drop(s, 2) == [0, 1] + tail && Drop(Drop(s, 2), 2) == tail;
  }

  function QuestionHead(t: Word): bytes { [(t / 0x100) as byte, (t % 0x100) as byte, 0, 1] }

  lemma QuestionListSplit(types: seq<Word>, more: bytes)
    requires types != []
    ensures QuestionList(types) + more ==
            QuestionHead(types[0]) + if |types| == 1 then more else [192, 12] + (QuestionList(types[1..]) + more)
  {
    if |types| > 1 {
      Regroup(QuestionHead(types[0]), [192, 12], QuestionList(types[1..]), more);
    } else {
      assert QuestionList(types) == QuestionHead(types[0]);
    }
  }

  lemma Regroup(a: bytes, b: bytes, c: bytes, d: bytes)
    ensures a + (b + c) + d == a + (b + (c + d))
  {
  }

  /** Types that cannot be taken for the start of a name. */
  predicate Plain(types: seq<Word>) { types == [] || (types[0] < 0x4000 && Plain(types[1..])) }

  lemma PointerSplit(t: bytes)
    ensures Read16([192, 12] + t) == 0xC00C && Drop([192, 12] + t, 2) == t
  {
  }

  lemma QuestionsStep(t: Word, tail: bytes, n: nat, rest: seq<Word>)
    requires t < 0x4000 && Questions(tail, n) == rest && n > 0
    ensures Questions(QuestionHead(t) + ([192, 12] + tail), n + 1) == [t] + rest
  {
    QuestionStep(t, [192, 12] + tail, n + 1);
    PointerSplit(tail);
  }

  lemma FirstQuestionRead(types: seq<Word>, more: bytes)
    requires types != [] && types[0] < 0x4000
    ensures Questions(QuestionList(types) + more, 1) == types[..1]
  {
    QuestionListSplit(types, more);
    QuestionStep(types[0], if |types| == 1 then more else [192, 12] + (QuestionList(types[1..]) + more), 1);
  }

  /** Any number of questions about one name are taken in. */
  lemma {:induction false} QuestionsRead(types: seq<Word>, n: nat, more: bytes)
    requires 0 < n <= |types| && Plain(types)
    ensures Questions(QuestionList(types) + more, n) == types[..n]
    decreases n
  {
    if n == 1 {
      FirstQuestionRead(types, more);
    } else {
      QuestionListSplit(types, more);
      QuestionsRead(types[1..], n - 1, more);
      QuestionsStep(types[0], QuestionList(types[1..]) + more, n - 1, types[1..][..n - 1]);
      FirstAndRest(types, n);
    }
  }

  lemma FirstAndRest(types: seq<Word>, n: nat)
    requires 0 < n <= |types|
    ensures types[..n] == [types[0]] + types[1..][..n - 1]
  {
  }
}
