/** The responder itself: registering services, answering questions and collecting answers. */
module MdnsResponder {
  import opened Bytes
  import opened Division
  import opened Mdns
  import opened MdnsAnswers
  import opened MdnsQuery
  import opened Wrappers

  lemma ServiceNameParts(before: bytes, i: Identity)
    ensures before + Label(Under(i.service)) + Label(Under(i.proto)) + Label(LOCAL) + [0] ==
            before + Name(ServiceLabels(i))
  {
    var s := ServiceLabels(i);
    assert s[1..] == [Under(i.proto), LOCAL] && s[1..][1..] == [LOCAL] && [LOCAL][1..] == [];
    assert Name(s[1..]) == Label(Under(i.proto)) + Name(s[1..][1..]);
    assert Name([LOCAL]) == Label(LOCAL) + Name([]);
  }

  lemma InstanceNameParts(before: bytes, i: Identity)
    ensures before + Label(i.instance) + Name(ServiceLabels(i)) == before + Name(InstanceLabels(i))
  {
    assert InstanceLabels(i)[1..] == ServiceLabels(i);
  }

  lemma HostNameParts(before: bytes, i: Identity)
    ensures before + Label(i.host) + Label(LOCAL) + [0] == before + Name(HostLabels(i))
  {
    assert HostLabels(i)[1..] == [LOCAL] && [LOCAL][1..] == [];
    assert Name(HostLabels(i)) == Label(i.host) + (Label(LOCAL) + Name([]));
  }

  lemma WireParts(before: bytes, r: Record)
    ensures before + Name(r.labels) + Attributes(r.kind, r.flush, r.minutes, r.length) + r.data == before + Wire(r)
  {
  }

  /** A record that may be left out. */
  function Perhaps(present: bool, r: Record): bytes { if present then Wire(r) else [] }

  lemma PerhapsWire(present: bool, r: Record)
    ensures WireAll(if present then [r] else []) == Perhaps(present, r)
  {
    OptionalWire(present, r, []);
    var all := WireAll(if present then [r] else []);
    assert all + [] == all && Wire(r) + [] == Wire(r);
  }

  lemma SectionParts(m: Mask, i: Identity)
    ensures WireAll(Records(m, i)) ==
            Perhaps(m.ptr, Ptr(i)) + Perhaps(m.txt, Txt(i)) + Perhaps(m.srv, Srv(i)) + Perhaps(m.a, Address(i))
  {
    var p, x := if m.ptr then [Ptr(i)] else [], if m.txt then [Txt(i)] else [];
    var s, a := if m.srv then [Srv(i)] else [], if m.a then [Address(i)] else [];
    PerhapsWire(m.ptr, Ptr(i));
    PerhapsWire(m.txt, Txt(i));
    PerhapsWire(m.srv, Srv(i));
    PerhapsWire(m.a, Address(i));
    WireAllConcat(p, x);
    WireAllConcat(p + x, s);
    WireAllConcat(p + x + s, a);
  }

  class Responder {
    var hostName: bytes
    var instanceName: bytes
    var services: seq<Service>
    var answers: seq<Answer>
    var query: bytes
    var newQuery: bool
    var waitingForAnswers: bool
    var pending: bytes
    var out: bytes
    var sent: seq<bytes>

    constructor ()
      ensures hostName == [] && instanceName == [] && services == [] && answers == [] && query == []
      ensures !newQuery && !waitingForAnswers && pending == [] && out == [] && sent == []
    {
      hostName, instanceName, services, answers, query := [], [], [], [], [];
      newQuery, waitingForAnswers, pending, out, sent := false, false, [], [], [];
    }

    /** The index of the first service with this name, protocol and a port. */
    method FindOpen(name: bytes, proto: bytes) returns (i: nat)
      ensures i == Open(services, name, proto)
    {
      i := 0;
      while i < |services|
        invariant i <= |services|
        invariant forall j | 0 <= j < i ::
                    services[j].name != name || services[j].proto != proto || services[j].port == 0
      {
        if services[i].port > 0 && services[i].name == name && services[i].proto == proto {
          return;
        }
        i := i + 1;
      }
    }

    method GetServicePort(name: bytes, proto: bytes) returns (port: Word)
      ensures port == PortOf(services, name, proto)
    {
      var i := FindOpen(name, proto);
      port := if i < |services| then services[i].port else 0;
    }

    method GetServiceTxt(name: bytes, proto: bytes) returns (txts: seq<bytes>)
      ensures txts == TextsOf(services, name, proto)
    {
      var i := FindOpen(name, proto);
      txts := if i < |services| then services[i].txts else [];
    }

    method GetServiceTxtLen(name: bytes, proto: bytes) returns (length: nat)
      ensures length == TextLengthOf(services, name, proto)
    {
      var i := FindOpen(name, proto);
      length := if i < |services| && services[i].txts != [] then services[i].txtLen else 0;
    }

    method AddService(name: bytes, proto: bytes, port: Word)
      modifies this`services
      ensures services == Performed(old(services), Op.AddService(name, proto, port))
    {
      var registered := GetServicePort(name, proto);
      if registered != 0 || |name| > 32 || |proto| != 3 {
        return;
      }
      services := services + [Service(Stored(name, proto), proto, port, [], 0)];
    }

    method AddServiceTxt(name: bytes, proto: bytes, key: bytes, value: bytes) returns (ok: bool)
      modifies this`services
      ensures services == Performed(old(services), AddText(name, proto, key, value))
      ensures ok <==> var i := Named(old(services), name, proto);
                      i < |old(services)| && old(services)[i].txtLen + Counted(KeyValue(key, value)) <= MOST_TEXT
    {
      var txtLen := (|key| + |value| + 1) % 0x100;
      txtLen := (txtLen + 1) % 0x100;
      assert txtLen == Counted(KeyValue(key, value));
      var i := 0;
      while i < |services|
        invariant i <= |services| && services == old(services)
        invariant forall j | 0 <= j < i :: services[j].name != name || services[j].proto != proto
      {
        var s := services[i];
        if s.name == name && s.proto == proto {
          if s.txtLen + txtLen > MOST_TEXT {
            return false;
          }
          services := services[i := s.(txts := s.txts + [KeyValue(key, value)], txtLen := s.txtLen + txtLen)];
          return true;
        }
        i := i + 1;
      }
      ok := false;
    }

    method AppendLabel(l: bytes)
      modifies this`out
      ensures out == old(out) + Label(l)
    {
      out := out + [(|l| % 0x100) as byte];
      out := out + l;
    }

    method AppendServiceName(i: Identity)
      modifies this`out
      ensures out == old(out) + Name(ServiceLabels(i))
    {
      AppendLabel(Under(i.service));
      AppendLabel(Under(i.proto));
      AppendLabel(LOCAL);
      out := out + [0];
      ServiceNameParts(old(out), i);
    }

    method AppendInstanceName(i: Identity)
      modifies this`out
      ensures out == old(out) + Name(InstanceLabels(i))
    {
      AppendLabel(i.instance);
      AppendServiceName(i);
      InstanceNameParts(old(out), i);
    }

    method AppendHostName(i: Identity)
      modifies this`out
      ensures out == old(out) + Name(HostLabels(i))
    {
      AppendLabel(i.host);
      AppendLabel(LOCAL);
      out := out + [0];
      HostNameParts(old(out), i);
    }

    method AppendPtr(i: Identity)
      modifies this`out
      ensures out == old(out) + Wire(Ptr(i))
    {
      AppendServiceName(i);
      out := out + Attributes(12, false, true, |i.instance| + |i.service| + 15);
      AppendInstanceName(i);
      WireParts(old(out), Ptr(i));
    }

    /** The texts, each cut to what its length byte says. */
    method AppendTexts(txts: seq<bytes>)
      modifies this`out
      ensures out == old(out) + Texts(txts)
    {
      ghost var before := out;
      var k := 0;
      while k < |txts|
        invariant k <= |txts| && out + Texts(txts[k..]) == before + Texts(txts)
      {
        var length := |txts[k]| % 0x100;
        ghost var here := out;
        out := out + [length as byte];
        out := out + txts[k][..length];
        TextsOn(here, txts, k);
        k := k + 1;
      }
      assert out + [] == out;
    }

    method AppendTxt(i: Identity)
      modifies this`out
      ensures out == old(out) + Wire(Txt(i))
    {
      AppendInstanceName(i);
      out := out + Attributes(16, true, false, i.txtLen);
      AppendTexts(i.txts);
      WireParts(old(out), Txt(i));
    }

    method AppendSrv(i: Identity)
      modifies this`out
      ensures out == old(out) + Wire(Srv(i))
    {
      AppendInstanceName(i);
      out := out + Attributes(33, true, true, |i.host| + 14);
      ghost var between := out;
      out := out + [0, 0, 0, 0, (i.port / 0x100) as byte, (i.port % 0x100) as byte];
      AppendHostName(i);
      assert out == between + SrvData(i);
      WireParts(old(out), Srv(i));
    }

    method AppendAddress(i: Identity)
      modifies this`out
      ensures out == old(out) + Wire(Address(i))
    {
      AppendHostName(i);
      out := out + Attributes(1, true, true, 4);
      out := out + i.ip;
      WireParts(old(out), Address(i));
    }

    /** The records of one section. */
    method AppendSection(m: Mask, i: Identity)
      modifies this`out
      ensures out == old(out) + WireAll(Records(m, i))
    {
      ghost var before := out;
      SectionParts(m, i);
      if m.ptr {
        AppendPtr(i);
      }
      if m.txt {
        AppendTxt(i);
      }
      if m.srv {
        AppendSrv(i);
      }
      if m.a {
        AppendAddress(i);
      }
      Appended4(before, Perhaps(m.ptr, Ptr(i)), Perhaps(m.txt, Txt(i)), Perhaps(m.srv, Srv(i)),
                Perhaps(m.a, Address(i)));
    }

    /** The header, the section of the answers and that of what goes with them. */
    method BuildReply(question: Mask, response: Mask, i: Identity)
      modifies this`out
      ensures out == Reply(question, response, i)
    {
      var answerMask, additionalMask := Both(response, question), Without(response, question);
      var header := Header(Count(answerMask), Count(additionalMask));
      ghost var first, second := WireAll(Records(answerMask, i)), WireAll(Records(additionalMask, i));
      out := header;
      for section := 0 to 2
        invariant out == if section == 0 then header
                         else if section == 1 then header + first else header + first + second
      {
        AppendSection(if section == 0 then answerMask else additionalMask, i);
      }
      WireAllConcat(Records(answerMask, i), Records(additionalMask, i));
      ThreeParts(header, first, second);
    }

    /** Builds and sends the reply about a service; nothing when nothing is asked for or to be sent. */
    method ReplyToInstanceRequest(question: Mask, response: Mask, service: bytes, proto: bytes, port: Word, ip: Four,
                                  stale: bytes)
      requires |proto| <= 3 && |stale| == 2
      modifies this`out, this`sent
      ensures sent == old(sent) +
              if question == NOTHING || response == NOTHING then []
              else [Reply(question, response,
                          Identity(hostName, instanceName, service, ProtoLetters(proto, stale), port,
                                   TextsOf(services, service, proto), TextLengthOf(services, service, proto), ip))]
    {
      if question == NOTHING || response == NOTHING {
        return;
      }
      var txts := GetServiceTxt(service, proto);
      var txtLen := GetServiceTxtLen(service, proto);
      BuildReply(question, response,
                 Identity(hostName, instanceName, service, ProtoLetters(proto, stale), port, txts, txtLen, ip));
      sent := sent + [out];
    }

    method Read() returns (n: Word)
      modifies this`pending
      ensures n == Read16(old(pending)) && pending == Drop(old(pending), 2)
    {
      if |pending| < 2 {
        pending := [];
        return 0xFFFF;
      }
      n := Number(pending[0], pending[1]);
      pending := pending[2..];
    }

    /** One question behind its name: its type, if it asks for the Internet class. */
    method ReadQuestion() returns (types: seq<Word>)
      modifies this`pending
      ensures var s := old(pending);
              var t := if Read16(s) >= 0x4000 then Drop(s, 2) else s;
              && types == (if Read16(Drop(t, 2)) % 2 == 1 then [Read16(t)] else [])
              && pending == Drop(Drop(t, 2), 2)
    {
      var currentType := Read();
      if currentType >= 0x4000 {
        currentType := Read();
      }
      var currentClass := Read();
      types := if currentClass % 2 == 1 then [currentType] else [];
    }

    /** The types asked for, of at most four questions; another name ends them. */
    method ReadQuestions(count: Word) returns (questions: seq<Word>)
      modifies this`pending
      ensures questions == Questions(old(pending), Min(count, 4))
    {
      var numQuestions: nat := if count > 4 then 4 else count;
      ghost var all := Questions(pending, numQuestions);
      questions := [];
      while numQuestions > 0
        invariant questions + Questions(pending, numQuestions) == all
      {
        ghost var before, n := pending, numQuestions;
        numQuestions := numQuestions - 1;
        var types := ReadQuestion();
        ghost var between := pending;
        if numQuestions > 0 {
          var reference := Read();
          if reference != 0xC00C {
            pending := [];
            numQuestions := 0;
          }
        }
        OneQuestion(before, between, n, types);
        JoinTypes(questions, types, Questions(pending, numQuestions));
        questions := questions + types;
      }
      assert questions + [] == questions;
    }

    /** One question's bits in both masks. */
    method AddType(t: Word, question: Mask, response: Mask) returns (q: Mask, r: Mask)
      ensures q == Or(question, AskedBy(t)) && r == Or(response, AnsweredBy(t))
    {
      if t == TYPE_A {
        AddsAddress(question, response);
        return question.(a := true), response.(a := true);
      } else if t == TYPE_SRV {
        AddsService(question, response);
        return question.(srv := true), response.(srv := true, a := true);
      } else if t == TYPE_TXT {
        AddsText(question, response);
        return question.(txt := true), response.(txt := true);
      } else if t == TYPE_PTR {
        AddsPointer(question, response);
        return question.(ptr := true), EVERYTHING;
      }
      AddsNothing(t, question, response);
      return question, response;
    }

    /** What is asked for and what is to be sent, gathered question by question. */
    method Masks(questions: seq<Word>) returns (question: Mask, response: Mask)
      ensures question == Asked(questions) && response == Answered(questions)
    {
      question, response := NOTHING, NOTHING;
      ghost var asked, answered := Asked(questions), Answered(questions);
      for i := 0 to |questions|
        invariant Or(question, Asked(questions[i..])) == asked
        invariant Or(response, Answered(questions[i..])) == answered
      {
        MasksOn(questions, i, question, response);
        question, response := AddType(questions[i], question, response);
      }
    }

    /**
     * What follows the name in a request. For a host there is no service: the name goes on with the label last read,
     * there is no port, and the protocol's letters are what lies behind an empty string.
     */
    method AnswerQuestions(count: Word, request: Request, ip: Four, stale: bytes)
      requires request.ForService? || request.ForHost?
      requires (request.ForService? ==> |request.proto| <= 3) && |stale| == 2 && pending == request.rest
      modifies this`pending, this`out, this`sent
      ensures var types := Questions(request.rest, Min(count, 4));
              sent == old(sent) +
              if Asked(types) == NOTHING then []
              else [Reply(Asked(types), Answered(types),
                          IdentityFor(request, hostName, instanceName, services, ip, stale))]
    {
      var service, proto, port := LOCAL, [], 0;
      if request.ForService? {
        service, proto := request.service, request.proto;
        port := GetServicePort(service, proto);
      }
      var questions := ReadQuestions(count);
      var question, response := Masks(questions);
      SectionsOf(questions);
      ReplyToInstanceRequest(question, response, service, proto, port, ip, stale);
    }

    /** A label of the request's name; none if it is cut off or has no room. */
    method TakeLabel(m: nat, room: nat) returns (l: Option<bytes>)
      requires m > 0
      modifies this`pending
      ensures ReadLabel(old(pending), m, room) == if l.None? then None else Some((l.value, pending))
    {
      if pending == [] {
        return None;
      }
      var n := pending[0] as nat % m;
      if |pending| < 1 + n || room < n {
        return None;
      }
      l := Some(pending[1..1 + n]);
      pending := pending[1 + n..];
    }

    method TakeLocal(service: bytes, proto: bytes) returns (r: Request)
      modifies this`pending
      ensures r == ReadLocal(old(pending), service, proto, services)
      ensures r.ForService? ==> pending == r.rest
    {
      var local := TakeLabel(31, 30);
      if local.None? {
        return Unread;
      }
      var end: byte := 0xFF;
      if pending != [] {
        end := pending[0];
        pending := pending[1..];
      }
      if local.value != LOCAL || end != 0 || service == [] {
        return Refused;
      }
      var port := GetServicePort(CString(service), CString(proto));
      if port == 0 {
        return Refused;
      }
      r := ForService(CString(service), CString(proto), pending);
    }

    method TakeProto(service: bytes) returns (r: Request)
      modifies this`pending
      ensures r == ReadProto(old(pending), service, services)
      ensures r.ForService? ==> pending == r.rest
    {
      var proto := TakeLabel(255, 31);
      if proto.None? {
        return Unread;
      }
      if |proto.value| == 4 && proto.value[0] == UNDERSCORE {
        r := TakeLocal(service, proto.value[1..]);
      } else if CString(service) == SERVICES && CString(proto.value) == DNS_SD {
        r := ForTypes;
      } else {
        r := Refused;
      }
    }

    method TakeService() returns (r: Request)
      modifies this`pending
      ensures r == ReadService(old(pending), services)
      ensures r.ForService? || r.ForHost? ==> pending == r.rest
    {
      var service := TakeLabel(255, 31);
      if service.None? {
        return Unread;
      }
      if service.value != [] && service.value[0] == UNDERSCORE {
        r := TakeProto(service.value[1..]);
      } else if service.value == LOCAL && pending != [] && pending[0] == 0 {
        pending := pending[1..];
        r := ForHost(pending);
      } else {
        r := Refused;
      }
    }

    /** Reads the name of a request, label by label. */
    method TakeRequest() returns (r: Request)
      modifies this`pending
      ensures r == ReadRequest(old(pending), hostName, instanceName, services)
      ensures r.ForService? || r.ForHost? ==> pending == r.rest
    {
      var first := TakeLabel(255, 254);
      if first.None? {
        return Unread;
      }
      var l := first.value;
      if l != [] && l[0] == UNDERSCORE {
        if |l| > 32 {
          return Unread;
        }
        r := TakeProto(l[1..]);
      } else if l != [] && CString(l) != hostName && CString(l) != instanceName {
        r := Refused;
      } else {
        r := TakeService();
      }
    }

    /** Reads a record's name label by label. */
    method ReadRecordName(heardBefore: bool) returns (r: NameRead)
      modifies this`pending
      ensures r == ReadName(old(pending), query, 0, heardBefore) && (r.Names? ==> pending == r.rest)
    {
      var serviceMatch, stringsRead := heardBefore, 0;
      while true
        invariant ReadName(pending, query, stringsRead, serviceMatch) == ReadName(old(pending), query, 0, heardBefore)
        decreases |pending|
      {
        if pending == [] || pending[0] >= 64 {
          pending := Drop(pending, 2);
          return Names(serviceMatch, pending);
        }
        var length := pending[0];
        ghost var s := pending;
        pending := pending[1..];
        if length == 0 {
          return Names(serviceMatch, pending);
        } else if stringsRead > 3 {
          return TooMany;
        } else if length > LONGEST || |pending| < length as nat {
          return Lost;
        }
        var name := pending[..length as nat];
        pending := pending[length as nat..];
        LabelTaken(s, length as nat);
        if name[0] == UNDERSCORE && CString(name[1..]) == query {
          serviceMatch := true;
        }
        stringsRead := stringsRead + 1;
      }
    }

    /** Reads `n` bytes, as far as there are any. */
    method SkipBytes(n: nat)
      modifies this`pending
      ensures pending == Drop(old(pending), n)
    {
      ghost var before := pending;
      var left: nat := n;
      while left > 0 && pending != []
        invariant left <= n && pending == Drop(before, n - left)
      {
        DropOne(before, n - left);
        pending := pending[1..];
        left := left - 1;
      }
      DropPast(before, n - left, n);
    }

    method ReadPtrData(st: State, length: nat) returns (r: Step)
      modifies this`pending
      ensures r == ReadPtr(st, length, old(pending)) && (r.Next? ==> pending == r.rest)
    {
      if |pending| < length || length < 2 {
        return Undetermined;
      }
      var hostName := pending[..length];
      pending := pending[length..];
      var now := st.(ptr := true);
      if hostName[length - 2] >= 64 {
        if length < 3 {
          return Undetermined;
        }
        assert hostName[1..length - 2] == old(pending)[1..length - 2];
        now := now.(host := CString(hostName[1..length - 2]));
      }
      r := Next(now, pending);
    }

    method ReadSrvData(st: State, length: nat) returns (r: Step)
      modifies this`pending
      ensures r == ReadSrv(st, length, old(pending)) && (r.Next? ==> pending == r.rest)
    {
      var body := pending;
      var now := st.(srv := true, port := Read16(Drop(body, 4)));
      if |body| < 7 || body[6] >= 64 {
        SkipBytes(8);
        return Next(now, pending);
      }
      var n := body[6] as nat;
      if |body| < 7 + n {
        return Undetermined;
      }
      now := now.(host := CString(body[7..7 + n]));
      SkipBytes(if length > 7 + n then length else 7 + n);
      r := Next(now, pending);
    }

    method ReadAddressData(st: State) returns (r: Step)
      modifies this`pending
      ensures r == ReadAddress(st, old(pending)) && r.Next? && pending == r.rest
    {
      var body := pending;
      var ip := [Read8(body, 0), Read8(body, 1), Read8(body, 2), Read8(body, 3)];
      SkipBytes(4);
      r := Next(st.(a := true, ip := ip), pending);
    }

    /** What a record holds after its name and its ten bytes. */
    method ReadData(st: State, kind: Word, length: Word) returns (r: Step)
      modifies this`pending
      ensures r == ReadBody(st, kind, length, old(pending)) && (r.Next? ==> pending == r.rest)
    {
      if length > 255 {
        if kind != TYPE_TXT || length >= 1460 {
          return GiveUp;
        }
        SkipBytes(length - 1);
        r := Next(st.(txt := true), pending);
      } else if kind == TYPE_PTR {
        r := ReadPtrData(st, length);
      } else if kind == TYPE_TXT {
        SkipBytes(length);
        r := Next(st.(txt := true), pending);
      } else if kind == TYPE_SRV {
        r := ReadSrvData(st, length);
      } else if kind == TYPE_A {
        r := ReadAddressData(st);
      } else {
        SkipBytes(length);
        r := Next(st, pending);
      }
    }

    method ReadOneRecord(st: State) returns (r: Step)
      modifies this`pending
      ensures r == ReadRecord(st, query, old(pending)) && (r.Next? ==> pending == r.rest)
    {
      var name := ReadRecordName(st.heard);
      if name.Lost? {
        return Undetermined;
      } else if name.TooMany? {
        return GiveUp;
      }
      var kind, length := Read16(pending), Read16(Drop(pending, 8));
      SkipBytes(10);
      r := ReadData(st.(heard := name.heard), kind, length);
    }

    /** Reads up to `count` records; stops once all that makes an answer has been seen. */
    method ReadRecords(count: nat) returns (outcome: Outcome)
      modifies this`pending
      ensures outcome == Collect(FRESH, query, count, old(pending))
    {
      var st, numAnswers := FRESH, count;
      while numAnswers > 0
        invariant !Complete(st) && Collect(st, query, numAnswers, pending) == Collect(FRESH, query, count, old(pending))
      {
        numAnswers := numAnswers - 1;
        var step := ReadOneRecord(st);
        if step.GiveUp? {
          return Ignored;
        } else if step.Undetermined? {
          return Unknown;
        }
        st := step.state;
        if Complete(st) {
          return Appended(Answer(st.ip, st.port, CString(st.host)));
        }
      }
      outcome := Ignored;
    }

    /** A response: while answers are waited for, what it says is appended to the list; a new query empties it. */
    method ParseAnswers(numAnswers: nat) returns (outcome: Outcome)
      modifies this`pending, this`answers, this`newQuery
      ensures outcome ==
              if old(waitingForAnswers) && numAnswers >= 4 then Collect(FRESH, query, numAnswers, old(pending))
                         else Ignored
      ensures var taken := waitingForAnswers && numAnswers >= 4;
              && newQuery == (old(newQuery) && !taken)
              && answers == (if taken && old(newQuery) then [] else old(answers))
                            + (if outcome.Appended? then [outcome.answer] else [])
    {
      if !waitingForAnswers {
        return Ignored;
      }
      if numAnswers < 4 {
        return Ignored;
      }
      if newQuery {
        answers := [];
        newQuery := false;
      }
      outcome := ReadRecords(numAnswers);
      if outcome.Appended? {
        answers := answers + [outcome.answer];
      }
    }

    /** The six words of the header. */
    method ReadHeader() returns (h: seq<Word>)
      modifies this`pending
      ensures |h| == 6 && pending == Drop(old(pending), 12)
      ensures forall i | 0 <= i < 6 :: h[i] == HeaderWord(old(pending), i)
    {
      ghost var p := pending;
      h := [];
      assert Drop(p, 0) == p;
      for i := 0 to 6
        invariant |h| == i && pending == Drop(p, 2 * i)
        invariant forall j | 0 <= j < i :: h[j] == HeaderWord(p, j)
      {
        DropTwice(p, 2 * i, 2);
        var word := Read();
        h := h + [word];
      }
    }

    /** One packet of the enumeration of service types. */
    method SendType(service: bytes, proto: bytes)
      modifies this`out, this`sent
      ensures sent == old(sent) + [Header(1, 0) + Wire(TypeRecord(service, proto))]
    {
      ghost var r := TypeRecord(service, proto);
      out := Header(1, 0);
      AppendLabel(Under(SERVICES));
      AppendLabel(DNS_SD);
      AppendLabel(UDP);
      AppendLabel(LOCAL);
      out := out + [0];
      FourLabels(Header(1, 0), Under(SERVICES), DNS_SD, UDP, LOCAL);
      out := out + Attributes(12, false, false, |service| + 14);
      ghost var between := out;
      AppendLabel(Under(service));
      AppendLabel(Under(proto));
      AppendLabel(LOCAL);
      out := out + [0];
      LabelsAppended(between, Under(service), Under(proto), LOCAL);
      WireParts(Header(1, 0), r);
      sent := sent + [out];
    }

    /** The services there are, each in a packet of its own. */
    method ReplyToTypeEnumRequest()
      modifies this`out, this`sent
      ensures sent == old(sent) + TypeReplies(services)
    {
      var k := 0;
      while k < |services|
        invariant k <= |services| && sent + TypeReplies(services[k..]) == old(sent) + TypeReplies(services)
      {
        ghost var here := sent;
        if services[k].port > 0 {
          SendType(services[k].name, services[k].proto);
        }
        TypesOn(here, services, k);
        k := k + 1;
      }
      assert sent + [] == sent;
    }

    /** A request, after its header: its name, its questions and the reply to them. */
    method ParseRequest(ghost packet: bytes, count: Word, ip: Four, stale: bytes)
      requires |stale| == 2 && pending == Drop(packet, 12) && count == HeaderWord(packet, 2)
      modifies this`pending, this`out, this`sent
      ensures sent == old(sent) + Respond(packet, hostName, instanceName, services, ip, stale)
    {
      var request := TakeRequest();
      if request.ForService? || request.ForHost? {
        AnswerQuestions(count, request, ip, stale);
      } else if request.ForTypes? {
        ReplyToTypeEnumRequest();
      }
    }

    /** What one packet does, of any length: a response may bring an answer, a request may get a reply. */
    method ParsePacket(packet: bytes, ip: Four, stale: bytes) returns (outcome: Outcome)
      requires |stale| == 2
      modifies this`pending, this`answers, this`newQuery, this`out, this`sent
      ensures IsResponse(packet) ==>
                var taken := waitingForAnswers && RecordCount(packet) >= 4;
                && sent == old(sent) && newQuery == (old(newQuery) && !taken)
                && outcome == (if waitingForAnswers then Parse(query, packet) else Ignored)
                && answers == (if taken && old(newQuery) then [] else old(answers))
                              + (if outcome.Appended? then [outcome.answer] else [])
      ensures !IsResponse(packet) ==>
                && answers == old(answers) && newQuery == old(newQuery)
                && sent == old(sent) + Respond(packet, hostName, instanceName, services, ip, stale)
    {
      pending := packet;
      var header := ReadHeader();
      if header[1] >= 0x8000 {
        var numAnswers: nat := header[3] as int + header[5] as int;
        outcome := ParseAnswers(numAnswers);
      } else {
        outcome := Ignored;
        ParseRequest(packet, header[2], ip, stale);
      }
    }

    /** Sends a query over each interface that is up, and waits for answers from then on. */
    method QueryService(service: bytes, proto: bytes, interfaces: nat)
      requires |service| <= 31 && |proto| == 3
      modifies this`query, this`newQuery, this`waitingForAnswers, this`out, this`sent
      ensures query == service && newQuery && waitingForAnswers
      ensures sent == old(sent) + seq(interfaces, _ => QueryPacket(service, proto))
    {
      query, newQuery, waitingForAnswers := service, true, true;
      for i := 0 to interfaces
        invariant query == service && newQuery && waitingForAnswers
        invariant sent == old(sent) + seq(i, _ => QueryPacket(service, proto))
      {
        out := [0, 0, 0, 0, 0, 1, 0, 0, 0, 0, 0, 0];
        AppendLabel(Under(service));
        AppendLabel(Under(proto));
        AppendLabel(LOCAL);
        out := out + [0];
        out := out + [0, 12, 0, 1];
        QueryParts(service, proto);
        sent := sent + [out];
      }
    }

    /** The wait is over: how many answers there are. */
    method FinishQuery() returns (numAnswers: nat)
      modifies this`waitingForAnswers
      ensures !waitingForAnswers && numAnswers == |answers|
    {
      waitingForAnswers := false;
      numAnswers := |answers|;
    }
  }

  lemma QueryParts(service: bytes, proto: bytes)
    ensures [0, 0, 0, 0, 0, 1, 0, 0, 0, 0, 0, 0] + Label(Under(service)) + Label(Under(proto)) + Label(LOCAL) + [0]
            + [0, 12, 0, 1] == QueryPacket(service, proto)
  {
    var h: bytes := [0, 0, 0, 0, 0, 1, 0, 0, 0, 0, 0, 0];
    var a, b, c := Label(Under(service)), Label(Under(proto)), Label(LOCAL);
    ThreeLabels(Under(service), Under(proto), LOCAL, [0, 12, 0, 1]);
    assert QuestionHead(TYPE_PTR) == [0, 12, 0, 1];
    SixParts(h, a, b, c, [0], [0, 12, 0, 1]);
  }

  lemma LabelsAppended(before: bytes, a: bytes, b: bytes, c: bytes)
    ensures before + Label(a) + Label(b) + Label(c) + [0] == before + Name([a, b, c])
  {
    ThreeLabels(a, b, c, []);
    assert Name([a, b, c]) + [] == Name([a, b, c]) && [0] + [] == [0];
    FiveParts(before, Label(a), Label(b), Label(c), [0]);
  }

  lemma FourLabels(before: bytes, a: bytes, b: bytes, c: bytes, d: bytes)
    ensures before + Label(a) + Label(b) + Label(c) + Label(d) + [0] == before + Name([a, b, c, d])
  {
    LabelsAppended(before + Label(a), b, c, d);
    assert [a, b, c, d][1..] == [b, c, d];
    assert before + Label(a) + Name([b, c, d]) == before + (Label(a) + Name([b, c, d]));
  }

  lemma FiveParts(a: bytes, b: bytes, c: bytes, d: bytes, e: bytes)
    ensures a + b + c + d + e == a + (b + (c + (d + e)))
  {
  }

  lemma TypesOn(here: seq<bytes>, services: seq<Service>, k: nat)
    requires k < |services|
    ensures var s := services[k];
            (if s.port > 0 then here + [Header(1, 0) + Wire(TypeRecord(s.name, s.proto))] else here)
            + TypeReplies(services[k + 1..]) == here + TypeReplies(services[k..])
  {
    assert services[k..][1..] == services[k + 1..];
  }

  lemma SixParts(a: bytes, b: bytes, c: bytes, d: bytes, e: bytes, f: bytes)
    ensures a + b + c + d + e + f == a + (b + (c + (d + (e + f))))
  {
  }

  lemma DropOne(s: bytes, n: nat)
    requires Drop(s, n) != []
    ensures Drop(s, n)[1..] == Drop(s, n + 1)
  {
  }

  lemma DropTwice(s: bytes, m: nat, n: nat)
    ensures Drop(Drop(s, m), n) == Drop(s, m + n)
  {
  }

  lemma DropPast(s: bytes, m: nat, n: nat)
    requires m <= n && (m < n ==> Drop(s, m) == [])
    ensures Drop(s, m) == Drop(s, n)
  {
  }

  lemma OneQuestion(s: bytes, rest: bytes, n: nat, first: seq<Word>)
    requires n > 0
    requires var t := if Read16(s) >= 0x4000 then Drop(s, 2) else s;
             first == (if Read16(Drop(t, 2)) % 2 == 1 then [Read16(t)] else []) && rest == Drop(Drop(t, 2), 2)
    ensures Questions(s, n) ==
            if n == 1 || Read16(rest) != 0xC00C then first else first + Questions(Drop(rest, 2), n - 1)
  {
  }

  lemma AddsAddress(q: Mask, r: Mask)
    ensures Or(q, AskedBy(TYPE_A)) == q.(a := true) && Or(r, AnsweredBy(TYPE_A)) == r.(a := true)
  {
  }

  lemma AddsService(q: Mask, r: Mask)
    ensures Or(q, AskedBy(TYPE_SRV)) == q.(srv := true)
    ensures Or(r, AnsweredBy(TYPE_SRV)) == r.(srv := true, a := true)
  {
  }

  lemma AddsText(q: Mask, r: Mask)
    ensures Or(q, AskedBy(TYPE_TXT)) == q.(txt := true) && Or(r, AnsweredBy(TYPE_TXT)) == r.(txt := true)
  {
  }

  lemma AddsPointer(q: Mask, r: Mask)
    ensures Or(q, AskedBy(TYPE_PTR)) == q.(ptr := true) && Or(r, AnsweredBy(TYPE_PTR)) == EVERYTHING
  {
  }

  lemma AddsNothing(t: Word, q: Mask, r: Mask)
    requires t != TYPE_A && t != TYPE_SRV && t != TYPE_TXT && t != TYPE_PTR
    ensures Or(q, AskedBy(t)) == q && Or(r, AnsweredBy(t)) == r
  {
  }

  lemma MasksOn(types: seq<Word>, i: nat, q: Mask, r: Mask)
    requires i < |types|
    ensures Or(Or(q, AskedBy(types[i])), Asked(types[i + 1..])) == Or(q, Asked(types[i..]))
    ensures Or(Or(r, AnsweredBy(types[i])), Answered(types[i + 1..])) == Or(r, Answered(types[i..]))
  {
    assert types[i..][1..] == types[i + 1..];
  }

  lemma JoinTypes(a: seq<Word>, b: seq<Word>, c: seq<Word>)
    ensures a + (b + c) == a + b + c
    ensures c == [] ==> a + b + c == a + b
  {
  }

  lemma LabelTaken(s: bytes, n: nat)
    requires n < |s|
    ensures s[1..][..n] == s[1..1 + n] && s[1..][n..] == s[1 + n..]
  {
  }

  lemma ThreeParts(a: bytes, b: bytes, c: bytes)
    ensures a + b + c == a + (b + c)
  {
  }

  lemma Appended4(before: bytes, a: bytes, b: bytes, c: bytes, d: bytes)
    ensures before + a + b + c + d == before + (a + b + c + d)
    ensures a == [] ==> before + a == before
    ensures b == [] ==> before + a + b == before + a
    ensures c == [] ==> before + a + b + c == before + a + b
    ensures d == [] ==> before + a + b + c + d == before + a + b + c
  {
  }

  lemma TextsOn(here: bytes, txts: seq<bytes>, k: nat)
    requires k < |txts|
    ensures var l := |txts[k]| % 0x100;
            here + [l as byte] + txts[k][..l] + Texts(txts[k + 1..]) == here + Texts(txts[k..])
  {
    assert txts[k..][1..] == txts[k + 1..];
    assert Texts(txts[k..]) == Text(txts[k]) + Texts(txts[k + 1..]);
  }
}
