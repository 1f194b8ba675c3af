/** What the multicast DNS responder makes of the replies of others, whose names may be written in other ways. */
module MdnsForeign {
  import opened Bytes
  import opened Mdns
  import opened MdnsAnswers

  function LastByte(labels: seq<bytes>): byte
    requires labels != [] && AllFit(labels, 63)
  {
    NameEnds(labels);
    var l := labels[|labels| - 1];
    l[|l| - 1]
  }

  /** What is kept of a pointer record's name for a host name: all but its first length byte and its last two bytes. */
  function Kept(labels: seq<bytes>): bytes
    requires labels != [] && AllFit(labels, 63)
  {
    NameEnds(labels);
    CString(Name(labels)[1..|Name(labels)| - 2])
  }

  /** An ordinary name is taken for a compressed one exactly if its last label ends in a byte of 64 or more. */
  lemma OrdinaryNameRead(labels: seq<bytes>, st: State, t: bytes)
    requires labels != [] && AllFit(labels, 63) && |Name(labels)| < 0x100
    ensures ReadBody(st, TYPE_PTR, |Name(labels)|, Name(labels) + t) ==
            Next(if LastByte(labels) >= 64 then st.(ptr := true, host := Kept(labels)) else st.(ptr := true), t)
  {
    NameEnds(labels);
    PtrDataRead(st, Name(labels), t);
  }

  /** The host name so kept survives the service record exactly if the host is compressed there. */
  lemma SrvHost(st: State, length: nat, body: bytes)
    requires 7 <= |body| && (body[6] < 64 ==> 7 + body[6] as nat <= |body|)
    ensures ReadSrv(st, length, body).Next?
    ensures body[6] < 64 ==> ReadSrv(st, length, body).state.host == CString(body[7..7 + body[6] as nat])
    ensures body[6] >= 64 ==> ReadSrv(st, length, body).state.host == st.host
    ensures (forall kept: bytes :: ReadSrv(st.(host := kept), length, body).state.host ==
                                   ReadSrv(st, length, body).state.host) <==> body[6] < 64
  {
    if body[6] >= 64 {
      var other := st.host + [0];
      assert ReadSrv(st.(host := other), length, body).state.host == other != st.host;
    }
  }

  /**
   * A reply of four records: the names of the service, of the instance and of the host that own them, and the data. The
   * pointer and the host that the service record names may be compressed.
   */
  datatype Foreign = Foreign(service: seq<bytes>, instance: seq<bytes>, host: seq<bytes>, pointer: bytes,
                             texts: bytes, port: Word, target: bytes, ip: Four)

  predicate Owners(f: Foreign) {
    && AllFit(f.service, 31) && AllFit(f.instance, 31) && AllFit(f.host, 31)
    && |f.service| <= 4 && |f.instance| <= 4 && |f.host| <= 4
  }

  /** Data that fit a byte length, the target a pointer or at least one whole label. */
  predicate Data(f: Foreign) {
    && 3 <= |f.pointer| < 0x100 && |f.texts| < 0x100 && 0 < |f.target| < 0x80
    && if f.target[0] >= 64 then |f.target| == 2 else 1 + f.target[0] as nat <= |f.target|
  }

  function PtrOf(f: Foreign): Record { Record(f.service, 12, false, false, |f.pointer|, f.pointer) }

  function TxtOf(f: Foreign): Record { Record(f.instance, 16, true, false, |f.texts|, f.texts) }

  function SrvOf(f: Foreign): Record { Record(f.instance, 33, true, true, 6 + |f.target|, SrvBytes(f.port, f.target)) }

  function SrvBytes(port: Word, target: bytes): bytes {
    [0, 0, 0, 0, (port / 0x100) as byte, (port % 0x100) as byte] + target
  }

  function AddressOf(f: Foreign): Record { Record(f.host, 1, true, true, 4, f.ip) }

  function Packet(f: Foreign): bytes {
    Header(1, 3) + (Wire(PtrOf(f)) + (Wire(TxtOf(f)) + (Wire(SrvOf(f)) + (Wire(AddressOf(f)) + []))))
  }

  /** The host name collected from the pointer record, and then from the service record. */
  function FromPointer(pointer: bytes): bytes
    requires 3 <= |pointer|
  {
    if pointer[|pointer| - 2] >= 64 then CString(pointer[1..|pointer| - 2]) else []
  }

  function HostName(f: Foreign): bytes
    requires Data(f)
  {
    if f.target[0] < 64 then CString(f.target[1..1 + f.target[0] as nat]) else FromPointer(f.pointer)
  }

  lemma SrvBytesRead(port: Word, target: bytes, st: State, t: bytes)
    requires 0 < |target| < 0x80
    requires if target[0] >= 64 then |target| == 2 else 1 + target[0] as nat <= |target|
    ensures ReadBody(st, TYPE_SRV, 6 + |target|, SrvBytes(port, target) + t) ==
            Next(st.(srv := true, port := port,
                     host := if target[0] < 64 then CString(target[1..1 + target[0] as nat]) else st.host), t)
  {
    var body := SrvBytes(port, target) + t;
    assert body[6] == target[0] && Drop(body, 6 + |target|) == t;
    assert Drop(body, 4)[0] == body[4] && Drop(body, 4)[1] == body[5];
    assert Read16(Drop(body, 4)) == port;
    if target[0] < 64 {
      assert body[7..7 + target[0] as nat] == target[1..1 + target[0] as nat];
    }
  }

  lemma {:induction false} CStringTwice(s: bytes)
    ensures CString(CString(s)) == CString(s)
  {
    if s != [] && s[0] != 0 {
      CStringTwice(s[1..]);
      assert CString(s)[1..] == CString(s[1..]);
    }
  }

  /** What is collected after each of the four records. */
  function WithPtr(f: Foreign, st: State, query: bytes): State
    requires Data(f)
  {
    st.(heard := st.heard || Mentions(f.service, query), ptr := true,
        host := if f.pointer[|f.pointer| - 2] >= 64 then FromPointer(f.pointer) else st.host)
  }

  function WithTxt(f: Foreign, st: State, query: bytes): State {
    st.(heard := st.heard || Mentions(f.instance, query), txt := true)
  }

  function WithSrv(f: Foreign, st: State, query: bytes): State
    requires Data(f)
  {
    st.(heard := st.heard || Mentions(f.instance, query), srv := true, port := f.port,
        host := if f.target[0] < 64 then CString(f.target[1..1 + f.target[0] as nat]) else st.host)
  }

  function WithAddress(f: Foreign, st: State, query: bytes): State {
    st.(heard := st.heard || Mentions(f.host, query), a := true, ip := f.ip)
  }

  lemma ForeignPtr(f: Foreign, st: State, query: bytes, t: bytes)
    requires Owners(f) && Data(f)
    ensures ReadRecord(st, query, Wire(PtrOf(f)) + t) == Next(WithPtr(f, st, query), t)
  {
    var now := st.(heard := st.heard || Mentions(f.service, query));
    RecordRead(PtrOf(f), st, query, t);
    PtrBody(f, st, now, query, t);
  }

  lemma PtrBody(f: Foreign, st: State, now: State, query: bytes, t: bytes)
    requires Data(f) && now == st.(heard := st.heard || Mentions(f.service, query))
    ensures ReadBody(now, 12, |f.pointer|, f.pointer + t) == Next(WithPtr(f, st, query), t)
  {
    PtrDataRead(now, f.pointer, t);
  }

  lemma ForeignTxt(f: Foreign, st: State, query: bytes, t: bytes)
    requires Owners(f) && Data(f)
    ensures ReadRecord(st, query, Wire(TxtOf(f)) + t) == Next(WithTxt(f, st, query), t)
  {
    RecordRead(TxtOf(f), st, query, t);
    assert Drop(f.texts + t, |f.texts|) == t;
  }

  lemma ForeignSrv(f: Foreign, st: State, query: bytes, t: bytes)
    requires Owners(f) && Data(f)
    ensures ReadRecord(st, query, Wire(SrvOf(f)) + t) == Next(WithSrv(f, st, query), t)
  {
    var now := st.(heard := st.heard || Mentions(f.instance, query));
    RecordRead(SrvOf(f), st, query, t);
    SrvBody(f, st, now, query, t);
  }

  lemma SrvBody(f: Foreign, st: State, now: State, query: bytes, t: bytes)
    requires Data(f) && now == st.(heard := st.heard || Mentions(f.instance, query))
    ensures ReadBody(now, 33, 6 + |f.target|, SrvBytes(f.port, f.target) + t) == Next(WithSrv(f, st, query), t)
  {
    SrvBytesRead(f.port, f.target, now, t);
  }

  lemma ForeignAddress(f: Foreign, st: State, query: bytes, t: bytes)
    requires Owners(f) && Data(f)
    ensures ReadRecord(st, query, Wire(AddressOf(f)) + t) == Next(WithAddress(f, st, query), t)
  {
    RecordRead(AddressOf(f), st, query, t);
    AddressSplit(f.ip, t);
  }

  lemma Collected(r: Record, st: State, now: State, query: bytes, n: nat, t: bytes)
    requires !Complete(st) && 0 < n && ReadRecord(st, query, Wire(r) + t) == Next(now, t)
    ensures Collect(st, query, n, Wire(r) + t) == Collect(now, query, n - 1, t)
  {
  }

  lemma PtrAndTxt(f: Foreign, st: State, query: bytes, t: bytes)
    requires Owners(f) && Data(f) && !st.srv
    ensures Collect(st, query, 4, Wire(PtrOf(f)) + (Wire(TxtOf(f)) + t)) ==
            Collect(WithTxt(f, WithPtr(f, st, query), query), query, 2, t)
  {
    ForeignPtr(f, st, query, Wire(TxtOf(f)) + t);
    ForeignTxt(f, WithPtr(f, st, query), query, t);
    Collected(PtrOf(f), st, WithPtr(f, st, query), query, 4, Wire(TxtOf(f)) + t);
    Collected(TxtOf(f), WithPtr(f, st, query), WithTxt(f, WithPtr(f, st, query), query), query, 3, t);
  }

  lemma SrvAndAddress(f: Foreign, st: State, query: bytes, t: bytes)
    requires Owners(f) && Data(f) && !st.srv && !st.a
    ensures Collect(st, query, 2, Wire(SrvOf(f)) + (Wire(AddressOf(f)) + t)) ==
            Collect(WithAddress(f, WithSrv(f, st, query), query), query, 0, t)
  {
    ForeignSrv(f, st, query, Wire(AddressOf(f)) + t);
    ForeignAddress(f, WithSrv(f, st, query), query, t);
    Collected(SrvOf(f), st, WithSrv(f, st, query), query, 2, Wire(AddressOf(f)) + t);
    Collected(AddressOf(f), WithSrv(f, st, query), WithAddress(f, WithSrv(f, st, query), query), query, 1, t);
  }

  lemma AllWith(f: Foreign, query: bytes)
    requires Data(f)
    ensures var st := WithAddress(f, WithSrv(f, WithTxt(f, WithPtr(f, FRESH, query), query), query), query);
            && st.ptr && st.txt && st.srv && st.a && st.port == f.port && st.ip == f.ip && st.host == HostName(f)
            && st.heard == (Mentions(f.service, query) || Mentions(f.instance, query) || Mentions(f.host, query))
  {
  }

  /**
   * Such a reply is appended exactly if one of its names names the service asked for, with its address and port. The
   * host name is the target's first label unless the target is compressed; then it is what the pointer record left.
   */
  lemma ForeignReplyRead(f: Foreign, query: bytes)
    requires Owners(f) && Data(f)
    ensures Parse(query, Packet(f)) ==
            if Mentions(f.service, query) || Mentions(f.instance, query) || Mentions(f.host, query)
            then Appended(Answer(f.ip, f.port, HostName(f))) else Ignored
  {
    var half: bytes := Wire(SrvOf(f)) + (Wire(AddressOf(f)) + []);
    var tail := Wire(PtrOf(f)) + (Wire(TxtOf(f)) + half);
    HeaderSplit(Header(1, 3), 1, 3, tail);
    ParseIf(query, Packet(f), 4, tail);
    PtrAndTxt(f, FRESH, query, half);
    SrvAndAddress(f, WithTxt(f, WithPtr(f, FRESH, query), query), query, []);
    AllWith(f, query);
    CollectedAll(f, WithAddress(f, WithSrv(f, WithTxt(f, WithPtr(f, FRESH, query), query), query), query), query);
  }

  lemma CollectedAll(f: Foreign, st: State, query: bytes)
    requires Data(f) && st.ptr && st.txt && st.srv && st.a && st.host == HostName(f)
    ensures Collect(st, query, 0, []) == if st.heard then Appended(Answer(st.ip, st.port, HostName(f))) else Ignored
  {
    CollectEnds(st, query);
    HostNameWhole(f);
  }

  lemma HostNameWhole(f: Foreign)
    requires Data(f)
    ensures CString(HostName(f)) == HostName(f)
  {
    if f.target[0] < 64 {
      CStringTwice(f.target[1..1 + f.target[0] as nat]);
    } else if f.pointer[|f.pointer| - 2] >= 64 {
      CStringTwice(f.pointer[1..|f.pointer| - 2]);
    }
  }

  predicate ZeroFree(labels: seq<bytes>) {
    labels == [] || (0 !in labels[0] && ZeroFree(labels[1..]))
  }

  lemma {:induction false} NameZeroFree(labels: seq<bytes>)
    requires AllFit(labels, 63) && ZeroFree(labels)
    ensures var n := Name(labels); 0 < |n| && 0 !in n[..|n| - 1]
    decreases labels
  {
    if labels != [] {
      var n, l := Name(labels), labels[0];
      NameZeroFree(labels[1..]);
      assert n == Label(l) + Name(labels[1..]);
      assert n[..|n| - 1] == Label(l) + Name(labels[1..])[..|n| - 1 - |Label(l)|];
    }
  }

  /**
   * A wrong host name: an ordinary pointer name of several labels that ends in a letter, together with a compressed
   * target. What is appended is the pointer's whole name without its last character, length bytes and all.
   */
  lemma Misnamed(f: Foreign, labels: seq<bytes>)
    requires Data(f) && f.target[0] >= 64 && f.pointer == Name(labels)
    requires 2 <= |labels| && AllFit(labels, 63) && ZeroFree(labels) && LastByte(labels) >= 64
    ensures HostName(f) == f.pointer[1..|f.pointer| - 2]
    ensures labels[0] < HostName(f) && HostName(f)[|labels[0]|] as nat == |labels[1]|
  {
    NameEnds(labels);
    NameZeroFree(labels);
    NoZeroInside(f.pointer);
    NameEnds(labels[1..]);
    FirstTwo(labels, f.pointer, HostName(f));
  }

  lemma FirstTwo(labels: seq<bytes>, n: bytes, host: bytes)
    requires 2 <= |labels| && AllFit(labels, 63) && n == Name(labels) && 3 <= |Name(labels[1..])|
    requires 3 <= |n| && host == n[1..|n| - 2]
    ensures labels[0] < host && host[|labels[0]|] as nat == |labels[1]|
  {
    var rest := Name(labels[1..]);
    assert n == Label(labels[0]) + rest;
    LabelSplit(labels[0], rest);
    assert rest == Label(labels[1]) + Name(labels[1..][1..]) && rest[0] as nat == |labels[1]|;
    assert host[..|labels[0]|] == n[1..1 + |labels[0]|] && host[|labels[0]|] == n[1 + |labels[0]|] == rest[0];
  }

  lemma NoZeroInside(n: bytes)
    requires 3 <= |n| && 0 !in n[..|n| - 1]
    ensures CString(n[1..|n| - 2]) == n[1..|n| - 2]
  {
    assert n[1..|n| - 2] == n[..|n| - 1][1..|n| - 2];
    NoZero(n[1..|n| - 2]);
  }

  /** One such packet, for the service "s" of the instance "a" on the host "h": its answer names no host. */
  lemma MisnamedHost(f: Foreign)
    requires f.service == [[95, 115], [95, 116, 99, 112], LOCAL] && f.instance == [[97]] + f.service
    requires f.host == [[104], LOCAL] && f.pointer == Name(f.instance) && f.target == [192, 12] && |f.texts| < 0x100
    ensures Parse([115], Packet(f)) ==
            Appended(Answer(f.ip, f.port, [97, 2, 95, 115, 4, 95, 116, 99, 112, 5, 108, 111, 99, 97]))
  {
    ShortNames(f);
    ShortPointer(f.service, f.instance, f.pointer);
    ShortHost(f);
    Answered(f, [115], [97, 2, 95, 115, 4, 95, 116, 99, 112, 5, 108, 111, 99, 97]);
  }

  lemma Answered(f: Foreign, query: bytes, host: bytes)
    requires Owners(f) && Data(f) && Mentions(f.service, query) && HostName(f) == host
    ensures Parse(query, Packet(f)) == Appended(Answer(f.ip, f.port, host))
  {
    ForeignReplyRead(f, query);
  }

  lemma ShortHost(f: Foreign)
    requires f.pointer == [1, 97, 2, 95, 115, 4, 95, 116, 99, 112, 5, 108, 111, 99, 97, 108, 0]
    requires f.target == [192, 12] && |f.texts| < 0x100
    ensures Data(f) && HostName(f) == [97, 2, 95, 115, 4, 95, 116, 99, 112, 5, 108, 111, 99, 97]
  {
    var host := f.pointer[1..15];
    assert host == [97, 2, 95, 115, 4, 95, 116, 99, 112, 5, 108, 111, 99, 97];
    NoZero(host);
  }

  lemma ShortNames(f: Foreign)
    requires f.service == [[95, 115], [95, 116, 99, 112], LOCAL] && f.instance == [[97]] + f.service
    requires f.host == [[104], LOCAL]
    ensures Owners(f) && Mentions(f.service, [115])
  {
    Cons([104], [LOCAL], 31);
    Cons(LOCAL, [], 31);
    Cons([95, 116, 99, 112], [LOCAL], 31);
    Cons([95, 115], [[95, 116, 99, 112], LOCAL], 31);
    Cons([97], f.service, 31);
    assert [LOCAL] + [] == [LOCAL] && [[104]] + [LOCAL] == f.host;
    assert [[95, 116, 99, 112]] + [LOCAL] == [[95, 116, 99, 112], LOCAL];
    assert [[95, 115]] + [[95, 116, 99, 112], LOCAL] == f.service;
    assert f.service[0][1..] == [115];
    NoZero([115]);
  }

  lemma ShortPointer(service: seq<bytes>, instance: seq<bytes>, pointer: bytes)
    requires service == [[95, 115], [95, 116, 99, 112], LOCAL] && instance == [[97]] + service
    requires pointer == Name(instance)
    ensures pointer == [1, 97, 2, 95, 115, 4, 95, 116, 99, 112, 5, 108, 111, 99, 97, 108, 0]
  {
    assert instance[1..] == service && service[1..] == [[95, 116, 99, 112], LOCAL] && service[1..][1..] == [LOCAL];
    assert Name([LOCAL]) == [5, 108, 111, 99, 97, 108, 0];
    assert Name(service[1..]) == [4, 95, 116, 99, 112] + Name([LOCAL]);
    assert Name(service) == [2, 95, 115] + Name(service[1..]);
    assert Name(instance) == [1, 97] + Name(service);
  }
}
