/** How the multicast DNS responder reads the replies of others, and that it reads back its own. */
module MdnsAnswers {
  import opened Bytes
  import opened Mdns

  datatype Answer = Answer(ip: Four, port: Word, hostname: bytes)

  /** What has been collected from the records so far. */
  datatype State = State(heard: bool, ptr: bool, txt: bool, srv: bool, a: bool, port: Word, ip: Four, host: bytes)

  const FRESH: State := State(false, false, false, false, false, 0, [0, 0, 0, 0], [])

  predicate Complete(st: State) { st.heard && st.ptr && st.txt && st.srv && st.a }

  /** A string up to its terminating zero. */
  function CString(s: bytes): (r: bytes)
    ensures |r| <= |s|
  {
    if s == [] || s[0] == 0 then [] else [s[0]] + CString(s[1..])
  }

  /** A label that names the service asked for. */
  predicate Hears(l: bytes, query: bytes) { l != [] && l[0] == UNDERSCORE && CString(l[1..]) == query }

  predicate Mentions(labels: seq<bytes>, query: bytes) {
    labels != [] && (Hears(labels[0], query) || Mentions(labels[1..], query))
  }

  /**
   * Reading a record's name; past the end of the packet the length reads as 255, which is taken for a pointer.
   * Lost: a label is cut off, or written past the end of its array.
   */
  datatype NameRead = Names(heard: bool, rest: bytes) | TooMany | Lost

  const LONGEST: byte := 31

  function ReadName(s: bytes, query: bytes, count: nat, heard: bool): NameRead
    decreases |s|
  {
    if s == [] || s[0] >= 64 then Names(heard, Drop(s, 2))
    else if s[0] == 0 then Names(heard, s[1..])
    else if count > 3 then TooMany
    else if s[0] > LONGEST || |s| < 1 + s[0] as nat then Lost
    else
      var n := 1 + s[0] as nat;
      ReadName(s[n..], query, count + 1, heard || Hears(s[1..n], query))
  }

  /** Undetermined: what is used was never read, or lies before the start of its array. */
  datatype Step = Next(state: State, rest: bytes) | GiveUp | Undetermined

  /**
   * A pointer record: its data is kept as the host's name, first label and all, when the byte before the last has
   * one of its two highest bits set. That is meant to find a compressed name; an ordinary letter has one of them.
   */
  function ReadPtr(st: State, length: nat, body: bytes): Step {
    if |body| < length || length < 2 then Undetermined
    else if body[length - 2] < 64 then Next(st.(ptr := true), body[length..])
    else if length < 3 then Undetermined
    else Next(st.(ptr := true, host := CString(body[1..length - 2])), body[length..])
  }

  /** A service record: priority and weight, the port, then the first label of the host's name. */
  function ReadSrv(st: State, length: nat, body: bytes): Step {
    var found := st.(srv := true, port := Read16(Drop(body, 4)));
    if |body| < 7 || body[6] >= 64 then Next(found, Drop(body, 8)) else
      var n := body[6] as nat;
      if |body| < 7 + n then Undetermined
      else Next(found.(host := CString(body[7..7 + n])), Drop(body, if length > 7 + n then length else 7 + n))
  }

  /** A byte read from the packet; all ones when it has ended. */
  function Read8(s: bytes, i: nat): byte { if i < |s| then s[i] else 0xFF }

  function ReadAddress(st: State, body: bytes): Step {
    Next(st.(a := true, ip := [Read8(body, 0), Read8(body, 1), Read8(body, 2), Read8(body, 3)]), Drop(body, 4))
  }

  /** What follows a record's name and its ten bytes. */
  function ReadBody(st: State, kind: Word, length: Word, body: bytes): Step {
    if length > 255 then
      (if kind == TYPE_TXT && length < 1460 then Next(st.(txt := true), Drop(body, length - 1)) else GiveUp)
    else if kind == TYPE_PTR then ReadPtr(st, length, body)
    else if kind == TYPE_TXT then Next(st.(txt := true), Drop(body, length))
    else if kind == TYPE_SRV then ReadSrv(st, length, body)
    else if kind == TYPE_A then ReadAddress(st, body)
    else Next(st, Drop(body, length))
  }

  function ReadRecord(st: State, query: bytes, s: bytes): Step {
    match ReadName(s, query, 0, st.heard)
    case Lost => Undetermined
    case TooMany => GiveUp
    case Names(heard, t) => ReadBody(st.(heard := heard), Read16(t), Read16(Drop(t, 8)), Drop(t, 10))
  }

  datatype Outcome = Appended(answer: Answer) | Ignored | Unknown

  /** Reading up to `n` records, until all four kinds and the service have been seen. */
  function Collect(st: State, query: bytes, n: nat, s: bytes): Outcome
    decreases n
  {
    if Complete(st) then Appended(Answer(st.ip, st.port, CString(st.host)))
    else if n == 0 then Ignored
    else
      match ReadRecord(st, query, s)
      case GiveUp => Ignored
      case Undetermined => Unknown
      case Next(now, rest) => Collect(now, query, n - 1, rest)
  }

  /** One of the six words of a packet's header. */
  function HeaderWord(p: bytes, i: nat): Word { Read16(Drop(p, 2 * i)) }

  predicate IsResponse(p: bytes) { HeaderWord(p, 1) >= 0x8000 }

  /** How many answers and additional records a packet announces. */
  function RecordCount(p: bytes): nat { HeaderWord(p, 3) + HeaderWord(p, 5) }

  /** What a response leads to while answers are waited for. */
  function Parse(query: bytes, p: bytes): Outcome {
    if RecordCount(p) < 4 then Ignored else Collect(FRESH, query, RecordCount(p), Drop(p, 12))
  }

  // ---- reading back a reply ----

  lemma {:induction false} ReadNameOf(labels: seq<bytes>, query: bytes, count: nat, heard: bool, t: bytes)
    requires AllFit(labels, 31) && count + |labels| <= 4
    ensures ReadName(Name(labels) + t, query, count, heard) == Names(heard || Mentions(labels, query), t)
    decreases labels
  {
    if labels == [] {
      assert (Name(labels) + t)[1..] == t;
    } else {
      NameCons(labels, t);
      LabelSplit(labels[0], Name(labels[1..]) + t);
      ReadNameOf(labels[1..], query, count + 1, heard || Hears(labels[0], query), t);
    }
  }

  lemma ReadRecordIf(st: State, query: bytes, s: bytes, heard: bool, rest: bytes, kind: Word, length: Word, body: bytes)
    requires ReadName(s, query, 0, st.heard) == Names(heard, rest)
    requires 10 <= |rest| && rest[0] == 0 && rest[1] as nat == kind && rest[8] == 0 && rest[9] as nat == length
    requires rest[10..] == body
    ensures ReadRecord(st, query, s) == ReadBody(st.(heard := heard), kind, length, body)
  {
    assert Drop(rest, 8)[0] == rest[8] && Drop(rest, 8)[1] == rest[9];
  }

  lemma ReadRecordOf(r: Record, st: State, query: bytes, rest: bytes, t: bytes, s: bytes)
    requires AllFit(r.labels, 31) && |r.labels| <= 4 && r.length < 0x100 && s == Name(r.labels) + rest
    requires rest == Attributes(r.kind, r.flush, r.minutes, r.length) + r.data + t
    ensures ReadRecord(st, query, s) ==
            ReadBody(st.(heard := st.heard || Mentions(r.labels, query)), r.kind as nat, r.length, r.data + t)
  {
    ReadNameOf(r.labels, query, 0, st.heard, rest);
    AttributesSplit(r, t);
    ReadRecordIf(st, query, s, st.heard || Mentions(r.labels, query), rest, r.kind as nat, r.length, r.data + t);
  }

  /** The four records' effects on what is collected. */
  function AfterPtr(st: State, query: bytes, i: Identity): State {
    st.(heard := st.heard || Mentions(ServiceLabels(i), query), ptr := true, host := PtrHost(i))
  }

  /** What a pointer record leaves for a host name, until the service record brings the right one. */
  function PtrHost(i: Identity): bytes {
    var data := Name(InstanceLabels(i));
    if |data| < 3 then [] else CString(data[1..|data| - 2])
  }

  function AfterTxt(st: State, query: bytes, i: Identity): State {
    st.(heard := st.heard || Mentions(InstanceLabels(i), query), txt := true)
  }

  function AfterSrv(st: State, query: bytes, i: Identity): State {
    st.(heard := st.heard || Mentions(InstanceLabels(i), query), srv := true, port := i.port, host := CString(i.host))
  }

  function AfterAddress(st: State, query: bytes, i: Identity): State {
    st.(heard := st.heard || Mentions(HostLabels(i), query), a := true, ip := i.ip)
  }

  /** A reply that can be read back: labels that fit the reader's array, texts that fit a byte length. */
  predicate Readable(i: Identity) {
    Registered(i, 31) && i.txtLen == |Texts(i.txts)| < 0x100
  }

  lemma RecordRead(r: Record, st: State, query: bytes, t: bytes)
    requires AllFit(r.labels, 31) && |r.labels| <= 4 && r.length < 0x100
    ensures ReadRecord(st, query, Wire(r) + t) ==
            ReadBody(st.(heard := st.heard || Mentions(r.labels, query)), r.kind as nat, r.length, r.data + t)
  {
    var rest := Attributes(r.kind, r.flush, r.minutes, r.length) + r.data + t;
    WireSplit(r, t);
    ReadRecordOf(r, st, query, rest, t, Wire(r) + t);
  }

  /** The last byte of a name before its end is that of its last label. */
  lemma {:induction false} NameEnds(labels: seq<bytes>)
    requires labels != [] && AllFit(labels, 63)
    ensures var n, l := Name(labels), labels[|labels| - 1];
            3 <= |n| && 0 < |l| && n[|n| - 2] == l[|l| - 1]
    decreases labels
  {
    var l, rest := labels[0], Name(labels[1..]);
    assert Name(labels) == [(|l| % 0x100) as byte] + l + rest;
    if |labels| == 1 {
      assert labels[1..] == [] && rest == [0];
    } else {
      NameEnds(labels[1..]);
    }
  }

  lemma PtrDataRead(st: State, data: bytes, t: bytes)
    requires 3 <= |data| < 0x100
    ensures ReadBody(st, TYPE_PTR, |data|, data + t) ==
            Next(if data[|data| - 2] >= 64 then st.(ptr := true, host := CString(data[1..|data| - 2]))
                 else st.(ptr := true), t)
  {
    var body := data + t;
    assert body[|data| - 2] == data[|data| - 2] && body[|data|..] == t;
    assert body[1..|data| - 2] == data[1..|data| - 2];
  }

  lemma PtrFacts(i: Identity)
    requires Readable(i)
    ensures AllFit(ServiceLabels(i), 31)
    ensures var data := Name(InstanceLabels(i));
            3 <= |data| == |i.instance| + |i.service| + 15 < 0x100 && data[|data| - 2] >= 64
  {
    LabelsFit(i, 31);
    LabelsFit(i, 63);
    NameSizes(i);
    NameEnds(InstanceLabels(i));
  }

  lemma PtrRead(i: Identity, st: State, query: bytes, t: bytes)
    requires Readable(i)
    ensures ReadRecord(st, query, Wire(Ptr(i)) + t) == Next(AfterPtr(st, query, i), t)
  {
    PtrFacts(i);
    var heard := st.(heard := st.heard || Mentions(ServiceLabels(i), query));
    RecordRead(Ptr(i), st, query, t);
    PtrBodyRead(i, heard, Name(InstanceLabels(i)), t);
  }

  lemma PtrBodyRead(i: Identity, st: State, data: bytes, t: bytes)
    requires data == Name(InstanceLabels(i)) && 3 <= |data| < 0x100 && data[|data| - 2] >= 64
    ensures ReadBody(st, 12, |data|, data + t) == Next(st.(ptr := true, host := PtrHost(i)), t)
  {
    PtrDataRead(st, data, t);
  }

  lemma TxtRead(i: Identity, st: State, query: bytes, t: bytes)
    requires Readable(i)
    ensures ReadRecord(st, query, Wire(Txt(i)) + t) == Next(AfterTxt(st, query, i), t)
  {
    LabelsFit(i, 31);
    RecordRead(Txt(i), st, query, t);
    assert Drop(Texts(i.txts) + t, i.txtLen) == t;
  }

  lemma AddressRead(i: Identity, st: State, query: bytes, t: bytes)
    requires Readable(i)
    ensures ReadRecord(st, query, Wire(Address(i)) + t) == Next(AfterAddress(st, query, i), t)
  {
    LabelsFit(i, 31);
    RecordRead(Address(i), st, query, t);
    AddressSplit(i.ip, t);
  }

  lemma AddressSplit(ip: Four, t: bytes)
    ensures var s := ip + t;
            [Read8(s, 0), Read8(s, 1), Read8(s, 2), Read8(s, 3)] == ip && Drop(s, 4) == t
  {
  }

  lemma SrvRead(i: Identity, st: State, query: bytes, t: bytes)
    requires Readable(i)
    ensures ReadRecord(st, query, Wire(Srv(i)) + t) == Next(AfterSrv(st, query, i), t)
  {
    LabelsFit(i, 31);
    NameSizes(i);
    RecordRead(Srv(i), st, query, t);
    SrvDataSplit(i, t);
  }

  lemma SrvDataSplit(i: Identity, t: bytes)
    requires |i.host| <= 31
    ensures var s := SrvData(i) + t;
            && |SrvData(i)| == |i.host| + 14 && Read16(Drop(s, 4)) == i.port && s[6] as nat == |i.host|
            && s[7..7 + |i.host|] == i.host && Drop(s, |i.host| + 14) == t
  {
    var head := [0, 0, 0, 0, (i.port / 0x100) as byte, (i.port % 0x100) as byte];
    var tail := Name([LOCAL]) + t;
    assert HostLabels(i)[1..] == [LOCAL];
    assert |Name([LOCAL])| == 7;
    assert SrvData(i) + t == head + [|i.host| as byte] + i.host + tail;
    assert tail[7..] == t;
    var s := SrvData(i) + t;
    assert Drop(s, 4)[0] == s[4] && Drop(s, 4)[1] == s[5];
  }

  function MaybePtr(st: State, m: Mask, query: bytes, i: Identity): State {
    if m.ptr then AfterPtr(st, query, i) else st
  }

  function MaybeTxt(st: State, m: Mask, query: bytes, i: Identity): State {
    if m.txt then AfterTxt(st, query, i) else st
  }

  function MaybeSrv(st: State, m: Mask, query: bytes, i: Identity): State {
    if m.srv then AfterSrv(st, query, i) else st
  }

  function MaybeAddress(st: State, m: Mask, query: bytes, i: Identity): State {
    if m.a then AfterAddress(st, query, i) else st
  }

  /** What the records of a mask leave, in the order they are sent. */
  function After(st: State, m: Mask, query: bytes, i: Identity): State {
    MaybeAddress(MaybeSrv(MaybeTxt(MaybePtr(st, m, query, i), m, query, i), m, query, i), m, query, i)
  }

  /** The records of a mask with what follows them. */
  function Sent(m: Mask, i: Identity, t: bytes): bytes {
    Optional(m.ptr, Ptr(i), Optional(m.txt, Txt(i), Optional(m.srv, Srv(i), Optional(m.a, Address(i), t))))
  }

  function Optional(present: bool, r: Record, t: bytes): bytes { if present then Wire(r) + t else t }

  function Fewer(n: nat, present: bool): nat
    requires present ==> n > 0
  {
    if present then n - 1 else n
  }

  lemma OptionalRead(present: bool, r: Record, st: State, now: State, query: bytes, n: nat, t: bytes)
    requires present ==> !Complete(st) && n > 0 && ReadRecord(st, query, Wire(r) + t) == Next(now, t)
    requires !present ==> now == st
    ensures Collect(st, query, n, Optional(present, r, t)) == Collect(now, query, Fewer(n, present), t)
  {
  }

  lemma PtrStep(st: State, m: Mask, query: bytes, i: Identity, n: nat, t: bytes)
    requires Readable(i) && (m.ptr ==> n > 0 && !st.ptr)
    ensures Collect(st, query, n, Optional(m.ptr, Ptr(i), t)) ==
            Collect(MaybePtr(st, m, query, i), query, Fewer(n, m.ptr), t)
  {
    PtrRead(i, st, query, t);
    OptionalRead(m.ptr, Ptr(i), st, MaybePtr(st, m, query, i), query, n, t);
  }

  lemma TxtStep(st: State, m: Mask, query: bytes, i: Identity, n: nat, t: bytes)
    requires Readable(i) && (m.txt ==> n > 0 && !st.txt)
    ensures Collect(st, query, n, Optional(m.txt, Txt(i), t)) ==
            Collect(MaybeTxt(st, m, query, i), query, Fewer(n, m.txt), t)
  {
    TxtRead(i, st, query, t);
    OptionalRead(m.txt, Txt(i), st, MaybeTxt(st, m, query, i), query, n, t);
  }

  lemma SrvStep(st: State, m: Mask, query: bytes, i: Identity, n: nat, t: bytes)
    requires Readable(i) && (m.srv ==> n > 0 && !st.srv)
    ensures Collect(st, query, n, Optional(m.srv, Srv(i), t)) ==
            Collect(MaybeSrv(st, m, query, i), query, Fewer(n, m.srv), t)
  {
    SrvRead(i, st, query, t);
    OptionalRead(m.srv, Srv(i), st, MaybeSrv(st, m, query, i), query, n, t);
  }

  lemma AddressStep(st: State, m: Mask, query: bytes, i: Identity, n: nat, t: bytes)
    requires Readable(i) && (m.a ==> n > 0 && !st.a)
    ensures Collect(st, query, n, Optional(m.a, Address(i), t)) ==
            Collect(MaybeAddress(st, m, query, i), query, Fewer(n, m.a), t)
  {
    AddressRead(i, st, query, t);
    OptionalRead(m.a, Address(i), st, MaybeAddress(st, m, query, i), query, n, t);
  }

  lemma NamesRead(st: State, m: Mask, query: bytes, i: Identity, n: nat, t: bytes)
    requires Readable(i) && !(m.ptr && st.ptr) && !(m.txt && st.txt)
    requires (if m.ptr then 1 else 0) + (if m.txt then 1 else 0) <= n
    ensures Collect(st, query, n, Optional(m.ptr, Ptr(i), Optional(m.txt, Txt(i), t))) ==
            Collect(MaybeTxt(MaybePtr(st, m, query, i), m, query, i), query, Fewer(Fewer(n, m.ptr), m.txt), t)
  {
    PtrStep(st, m, query, i, n, Optional(m.txt, Txt(i), t));
    TxtStep(MaybePtr(st, m, query, i), m, query, i, Fewer(n, m.ptr), t);
  }

  lemma HostRead(st: State, m: Mask, query: bytes, i: Identity, n: nat, t: bytes)
    requires Readable(i) && !(m.srv && st.srv) && !(m.a && st.a)
    requires (if m.srv then 1 else 0) + (if m.a then 1 else 0) <= n
    ensures Collect(st, query, n, Optional(m.srv, Srv(i), Optional(m.a, Address(i), t))) ==
            Collect(MaybeAddress(MaybeSrv(st, m, query, i), m, query, i), query, Fewer(Fewer(n, m.srv), m.a), t)
  {
    SrvStep(st, m, query, i, n, Optional(m.a, Address(i), t));
    AddressStep(MaybeSrv(st, m, query, i), m, query, i, Fewer(n, m.srv), t);
  }

  lemma FewerAll(n: nat, m: Mask)
    requires Count(m) <= n
    ensures Fewer(Fewer(Fewer(Fewer(n, m.ptr), m.txt), m.srv), m.a) == n - Count(m)
  {
  }

  lemma BothRead(st: State, mid: State, end: State, m: Mask, query: bytes, i: Identity, n: nat, k: nat, l: nat,
                 t: bytes, rest: bytes)
    requires Readable(i) && Count(m) <= n
    requires !(m.ptr && st.ptr) && !(m.txt && st.txt) && !(m.srv && mid.srv) && !(m.a && mid.a)
    requires mid == MaybeTxt(MaybePtr(st, m, query, i), m, query, i) && k == Fewer(Fewer(n, m.ptr), m.txt)
    requires end == MaybeAddress(MaybeSrv(mid, m, query, i), m, query, i) && l == Fewer(Fewer(k, m.srv), m.a)
    requires rest == Optional(m.srv, Srv(i), Optional(m.a, Address(i), t))
    ensures Collect(st, query, n, Optional(m.ptr, Ptr(i), Optional(m.txt, Txt(i), rest))) == Collect(end, query, l, t)
  {
    NamesRead(st, m, query, i, n, rest);
    HostRead(mid, m, query, i, k, t);
  }

  lemma FlagsKept(st: State, m: Mask, query: bytes, i: Identity)
    ensures var mid := MaybeTxt(MaybePtr(st, m, query, i), m, query, i); mid.srv == st.srv && mid.a == st.a
  {
  }

  /** The records of a section are read one after the other, as none of them was there before. */
  lemma SectionRead(st: State, end: State, m: Mask, query: bytes, i: Identity, n: nat, l: nat, t: bytes)
    requires Readable(i) && Count(m) <= n && l == n - Count(m) && end == After(st, m, query, i)
    requires !(m.ptr && st.ptr) && !(m.txt && st.txt) && !(m.srv && st.srv) && !(m.a && st.a)
    ensures Collect(st, query, n, Sent(m, i, t)) == Collect(end, query, l, t)
  {
    FewerAll(n, m);
    FlagsKept(st, m, query, i);
    BothRead(st, MaybeTxt(MaybePtr(st, m, query, i), m, query, i), end, m, query, i, n,
             Fewer(Fewer(n, m.ptr), m.txt), l, t, Optional(m.srv, Srv(i), Optional(m.a, Address(i), t)));
  }

  lemma {:induction false} WireAllConcat(a: seq<Record>, b: seq<Record>)
    ensures WireAll(a + b) == WireAll(a) + WireAll(b)
  {
    if a == [] {
      assert a + b == b;
      assert WireAll(a) + WireAll(b) == WireAll(b);
    } else {
      assert (a + b)[1..] == a[1..] + b;
      WireAllConcat(a[1..], b);
    }
  }

  lemma OptionalWire(present: bool, r: Record, t: bytes)
    ensures WireAll(if present then [r] else []) + t == Optional(present, r, t)
  {
    if present {
      assert [r][1..] == [];
      assert WireAll([r]) == Wire(r) + WireAll([]);
    }
  }

  lemma RecordsSent(m: Mask, i: Identity, t: bytes)
    ensures WireAll(Records(m, i)) + t == Sent(m, i, t)
  {
    var p, x := if m.ptr then [Ptr(i)] else [], if m.txt then [Txt(i)] else [];
    var s, a := if m.srv then [Srv(i)] else [], if m.a then [Address(i)] else [];
    WireAllConcat(p, x);
    WireAllConcat(p + x, s);
    WireAllConcat(p + x + s, a);
    var t3 := Optional(m.a, Address(i), t);
    var t2 := Optional(m.srv, Srv(i), t3);
    OptionalWire(m.a, Address(i), t);
    OptionalWire(m.srv, Srv(i), t3);
    OptionalWire(m.txt, Txt(i), t2);
    OptionalWire(m.ptr, Ptr(i), Optional(m.txt, Txt(i), t2));
    Regroup4(WireAll(p), WireAll(x), WireAll(s), WireAll(a), t);
  }

  lemma Regroup4(a: bytes, b: bytes, c: bytes, d: bytes, t: bytes)
    ensures a + b + c + d + t == a + (b + (c + (d + t)))
  {
  }

  /** A label somewhere in the reply names the service asked for. */
  predicate Heard(i: Identity, query: bytes) {
    Mentions(ServiceLabels(i), query) || Mentions(InstanceLabels(i), query) || Mentions(HostLabels(i), query)
  }

  /** The state once all four records are read, whichever of them were in the first section. */
  lemma AllCollected(m: Mask, query: bytes, i: Identity)
    requires m.ptr
    ensures var f := After(After(FRESH, m, query, i), Without(EVERYTHING, m), query, i);
            && f.ptr && f.txt && f.srv && f.a && f.port == i.port && f.ip == i.ip && f.host == CString(i.host)
            && f.heard == Heard(i, query)
  {
    var rest := Without(EVERYTHING, m);
    var st := After(FRESH, m, query, i);
    AfterFields(FRESH, m, query, i);
    AfterFields(st, rest, query, i);
  }

  lemma AfterFields(st: State, m: Mask, query: bytes, i: Identity)
    ensures var f := After(st, m, query, i);
            && f.ptr == (st.ptr || m.ptr) && f.txt == (st.txt || m.txt) && f.srv == (st.srv || m.srv)
            && f.a == (st.a || m.a)
            && f.port == (if m.srv then i.port else st.port) && f.ip == (if m.a then i.ip else st.ip)
            && (m.srv ==> f.host == CString(i.host)) && (!m.srv && !m.ptr ==> f.host == st.host)
            && f.heard == (st.heard || (m.ptr && Mentions(ServiceLabels(i), query))
                           || ((m.txt || m.srv) && Mentions(InstanceLabels(i), query))
                           || (m.a && Mentions(HostLabels(i), query)))
  {
  }

  lemma {:induction false} NoZero(s: bytes)
    requires 0 !in s
    ensures CString(s) == s
  {
    if s != [] {
      assert s[0] in s && s == [s[0]] + s[1..];
      NoZero(s[1..]);
    }
  }

  lemma SectionsRead(st: State, end: State, m: Mask, rest: Mask, query: bytes, i: Identity, n: nat, k: nat,
                     tail: bytes)
    requires Readable(i) && Count(m) + Count(rest) == n && k == n - Count(m)
    requires st == After(FRESH, m, query, i) && end == After(st, rest, query, i) && tail == Sent(rest, i, [])
    requires !(rest.ptr && st.ptr) && !(rest.txt && st.txt) && !(rest.srv && st.srv) && !(rest.a && st.a)
    ensures Collect(FRESH, query, n, Sent(m, i, tail)) == Collect(end, query, 0, [])
  {
    SectionRead(FRESH, st, m, query, i, n, k, tail);
    SectionRead(st, end, rest, query, i, k, 0, []);
  }

  lemma CollectEnds(f: State, query: bytes)
    requires f.ptr && f.txt && f.srv && f.a
    ensures Collect(f, query, 0, []) == if f.heard then Appended(Answer(f.ip, f.port, CString(f.host))) else Ignored
  {
  }

  lemma CollectAll(m: Mask, rest: Mask, query: bytes, i: Identity)
    requires Readable(i) && 0 !in i.host && m.ptr && rest == Without(EVERYTHING, m)
    ensures Collect(FRESH, query, 4, Sent(m, i, Sent(rest, i, []))) ==
            if Heard(i, query) then Appended(Answer(i.ip, i.port, i.host)) else Ignored
  {
    var st := After(FRESH, m, query, i);
    var end := After(st, rest, query, i);
    AfterFields(FRESH, m, query, i);
    AllCollected(m, query, i);
    NoZero(i.host);
    SectionsRead(st, end, m, rest, query, i, 4, 4 - Count(m), Sent(rest, i, []));
    CollectEnds(end, query);
  }

  lemma ParseIf(query: bytes, p: bytes, n: nat, tail: bytes)
    requires 12 <= |p| && Number(p[6], p[7]) + Number(p[10], p[11]) == n && p[12..] == tail
    ensures Parse(query, p) == if n < 4 then Ignored else Collect(FRESH, query, n, tail)
  {
    HeaderWordIs(p, 3);
    HeaderWordIs(p, 5);
  }

  lemma HeaderWordIs(p: bytes, i: nat)
    requires 2 * i + 2 <= |p|
    ensures HeaderWord(p, i) == Number(p[2 * i], p[2 * i + 1])
  {
    assert Drop(p, 2 * i)[0] == p[2 * i] && Drop(p, 2 * i)[1] == p[2 * i + 1];
  }

  /**
   * The round trip: whatever else is asked for beside a pointer, the reply is read back into one answer, with the
   * responder's address, port and host name, exactly if a label of the reply names the service asked for.
   */
  lemma PointerReplyReadBack(question: Mask, query: bytes, i: Identity)
    requires Readable(i) && 0 !in i.host && question.ptr
    ensures Parse(query, Reply(question, EVERYTHING, i)) ==
            if Heard(i, query) then Appended(Answer(i.ip, i.port, i.host)) else Ignored
  {
    var rest := Without(EVERYTHING, question);
    assert Both(EVERYTHING, question) == question;
    var tail := Sent(question, i, Sent(rest, i, []));
    ReplySent(question, EVERYTHING, i);
    HeaderSplit(Header(Count(question), Count(rest)), Count(question), Count(rest), tail);
    ParseIf(query, Reply(question, EVERYTHING, i), 4, tail);
    CollectAll(question, rest, query, i);
  }

  lemma ReplySent(question: Mask, response: Mask, i: Identity)
    ensures var a, b := Both(response, question), Without(response, question);
            Reply(question, response, i) == Header(Count(a), Count(b)) + Sent(a, i, Sent(b, i, []))
  {
    var a, b := Both(response, question), Without(response, question);
    WireAllConcat(Records(a, i), Records(b, i));
    RecordsSent(b, i, []);
    RecordsSent(a, i, Sent(b, i, []));
    assert WireAll(Records(b, i)) + [] == WireAll(Records(b, i));
  }

  /** A reply of fewer than four records leads to nothing. */
  lemma ShortReplyIgnored(question: Mask, response: Mask, query: bytes, i: Identity)
    requires Count(Both(response, question)) + Count(Without(response, question)) < 4
    ensures Parse(query, Reply(question, response, i)) == Ignored
  {
    var a, b := Both(response, question), Without(response, question);
    ReplySent(question, response, i);
    var tail := Sent(a, i, Sent(b, i, []));
    HeaderSplit(Header(Count(a), Count(b)), Count(a), Count(b), tail);
    ParseIf(query, Reply(question, response, i), Count(a) + Count(b), tail);
  }

  /** For every list of questions: the reply gives an answer exactly if a pointer was among them and the name fits. */
  lemma QuestionsAnswered(types: seq<Word>, query: bytes, i: Identity)
    requires Readable(i) && 0 !in i.host
    ensures Parse(query, Reply(Asked(types), Answered(types), i)) ==
            if TYPE_PTR in types && Heard(i, query) then Appended(Answer(i.ip, i.port, i.host)) else Ignored
  {
    AskedIs(types);
    AnsweredIs(types);
    SectionsOf(types);
    if TYPE_PTR in types {
      PointerReplyReadBack(Asked(types), query, i);
    } else {
      ShortReplyIgnored(Asked(types), Answered(types), query, i);
    }
  }

  lemma HearsUnder(s: bytes, query: bytes)
    requires 0 !in s
    ensures Hears(Under(s), query) <==> s == query
  {
    NoZero(s);
    assert Under(s)[1..] == s;
  }

  /**
   * Which names are heard: the service's, as they should; but the protocol's as well, and an instance or host
   * whose name is the service's after an underscore.
   */
  lemma HeardExactly(i: Identity, query: bytes)
    requires 0 !in i.service && 0 !in i.proto
    ensures Heard(i, query) <==>
            query == i.service || query == i.proto || Hears(i.instance, query) || Hears(i.host, query)
  {
    HearsUnder(i.service, query);
    HearsUnder(i.proto, query);
    MentionsCons(LOCAL, [], query);
    MentionsCons(Under(i.proto), [LOCAL], query);
    MentionsCons(Under(i.service), [Under(i.proto), LOCAL], query);
    MentionsCons(i.instance, ServiceLabels(i), query);
    MentionsCons(i.host, [LOCAL], query);
    assert [LOCAL] + [] == [LOCAL] && [i.host] + [LOCAL] == HostLabels(i);
    assert [Under(i.proto)] + [LOCAL] == [Under(i.proto), LOCAL];
    assert [Under(i.service)] + [Under(i.proto), LOCAL] == ServiceLabels(i);
  }

  lemma MentionsCons(l: bytes, rest: seq<bytes>, query: bytes)
    ensures Mentions([l] + rest, query) == (Hears(l, query) || Mentions(rest, query))
  {
    assert ([l] + rest)[1..] == rest;
  }

  /** A text record that is there in full is skipped exactly if its length is below 256. */
  lemma TextSkipped(st: State, body: bytes, length: Word)
    requires length <= |body|
    ensures ReadBody(st, TYPE_TXT, length, body) == Next(st.(txt := true), body[length..]) <==> length <= 255
    ensures 255 < length < 1460 ==>
              ReadBody(st, TYPE_TXT, length, body) == Next(st.(txt := true), [body[length - 1]] + body[length..])
    ensures 1460 <= length ==> ReadBody(st, TYPE_TXT, length, body) == GiveUp
  {
    if 0 < length {
      assert |body[length - 1..]| == |body[length..]| + 1;
      assert body[length - 1..] == [body[length - 1]] + body[length..];
    }
  }

  /**
   * The record after a longer text, when the byte left of the text is zero or a letter. It is taken for a whole name,
   * or for a pointer together with the length of the record's first label, and what follows for the record's type. So
   * the record is lost: none of the four parts is collected from it.
   */
  lemma RecordAfterLongTextLost(st: State, query: bytes, b: byte, r: Record, t: bytes)
    requires (b == 0 || 64 <= b) && r.labels != [] && 0 < |r.labels[0]| < 0x100 && r.labels[0][0] != 0
    ensures var step := ReadRecord(st, query, [b] + (Wire(r) + t)); step.Next? ==> step.state == st
  {
    var l := r.labels[0];
    var s := Wire(r) + t;
    FirstLabelFirst(r, t);
    assert s[1..1 + |l|][0] == s[1] == l[0];
    var rest := if b == 0 then s else s[1..];
    assert ([b] + s)[1..] == s && Drop([b] + s, 2) == s[1..];
    assert Read16(rest) >= 0x100;
  }

  lemma FirstLabelFirst(r: Record, t: bytes)
    requires r.labels != [] && |r.labels[0]| < 0x100
    ensures var s, l := Wire(r) + t, r.labels[0];
            2 + |l| <= |s| && s[0] as nat == |l| && s[1..1 + |l|] == l
  {
    var attributes := Attributes(r.kind, r.flush, r.minutes, r.length) + r.data + t;
    WireSplit(r, t);
    NameCons(r.labels, attributes);
    LabelSplit(r.labels[0], Name(r.labels[1..]) + attributes);
  }

  /** A byte from 32 to 63 is taken for the length of a label that does not fit its array. */
  lemma RecordAfterLongTextUnread(st: State, query: bytes, b: byte, s: bytes)
    requires 32 <= b < 64
    ensures ReadRecord(st, query, [b] + s) == Undetermined
  {
  }

  /**
   * A smaller byte is taken for the length of a label as well. If it is just one more than the length of the record's
   * first label, that label with its length is read as a label and the record is not lost.
   */
  lemma RecordAfterLongTextRead(st: State, query: bytes, b: byte, r: Record, t: bytes)
    requires r.labels != [] && b as nat == 1 + |r.labels[0]| && AllFit(r.labels, 31) && |r.labels[0]| <= 30
    requires |r.labels| <= 4 && r.length < 0x100
    ensures var labels := [Label(r.labels[0])] + r.labels[1..];
            ReadRecord(st, query, [b] + (Wire(r) + t)) ==
            ReadBody(st.(heard := st.heard || Mentions(labels, query)), r.kind as nat, r.length, r.data + t)
  {
    var labels := [Label(r.labels[0])] + r.labels[1..];
    var q := r.(labels := labels);
    assert labels[0] == Label(r.labels[0]) && labels[1..] == r.labels[1..];
    RelabelledWire(r, q, b, t);
    RecordRead(q, st, query, t);
  }

  lemma RelabelledWire(r: Record, q: Record, b: byte, t: bytes)
    requires r.labels != [] && |r.labels[0]| <= 30 && b as nat == 1 + |r.labels[0]|
    requires q.labels != [] && q == r.(labels := q.labels)
    requires q.labels[0] == Label(r.labels[0]) && q.labels[1..] == r.labels[1..]
    ensures Wire(q) + t == [b] + (Wire(r) + t)
  {
    var tail := Attributes(r.kind, r.flush, r.minutes, r.length) + r.data + t;
    WireSplit(r, t);
    WireSplit(q, t);
    NameCons(r.labels, tail);
    NameCons(q.labels, tail);
    assert Label(q.labels[0]) == [b] + Label(r.labels[0]);
  }

  /**
   * The whole exchange: after any registrations, a question list about a registered service is answered with a reply
   * that the same code reads back into that service's answer, if a pointer was asked for and the name is heard.
   */
  lemma RegisteredServiceReadBack(ops: seq<Op>, host: bytes, instance: bytes, service: bytes, proto: bytes, ip: Four,
                                  types: seq<Word>, query: bytes)
    requires PortOf(Run([], ops), service, proto) > 0
    requires Fits(host, 31) && 0 !in host && Fits(instance, 31) && |service| <= 30
    requires |Texts(TextsOf(Run([], ops), service, proto))| < 0x100
    ensures var i := Identify(host, instance, Run([], ops), service, proto, ip);
            Parse(query, Reply(Asked(types), Answered(types), i)) ==
            if TYPE_PTR in types && Heard(i, query)
            then Appended(Answer(ip, PortOf(Run([], ops), service, proto), host)) else Ignored
  {
    FoundIsAccounted(ops, service, proto);
    QuestionsAnswered(types, query, Identify(host, instance, Run([], ops), service, proto, ip));
  }
}
