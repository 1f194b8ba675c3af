/**
 * The DHCP client: request_DHCP_lease, parseDHCPResponse and checkLease.
 *
 * The lease machine is given as a function on values, one turn of its loop at a time; the class carries the
 * source's fields and refines it.
 */
module Dhcp {
  import opened Bytes
  import opened DhcpTimer
  import opened Wrappers

  datatype State = Start | Discover | Request | Leased | Rerequest

  const BOOTREPLY: byte := 2
  const SERVER_PORT: nat := 67
  const DISCOVER: byte := 1
  const OFFER: byte := 2
  const REQUEST: byte := 3
  const ACK: byte := 5
  const NAK: byte := 6
  const TIMED_OUT: byte := 255
  const DEFAULT_LEASE: nat := 900
  const FIXED_SIZE: nat := 34
  const OPTIONS_AT: nat := 240

  type StackBytes = s: bytes | |s| == FIXED_SIZE witness seq(FIXED_SIZE, i => 0)

  /** A received datagram. Where it is shorter than the fixed header, the header keeps what the stack held. */
  datatype Datagram = Datagram(port: nat, ip: Four, data: bytes, stack: StackBytes) {
    function Header(): (h: bytes)
      ensures |h| == FIXED_SIZE
    {
      if FIXED_SIZE <= |data| then data[..FIXED_SIZE] else data + stack[|data|..]
    }

    function Options(): bytes { if OPTIONS_AT <= |data| then data[OPTIONS_AT..] else [] }

    function Op(): byte
    {
      Header()[0]
    }

    function Xid(): nat
    {
      BigEndian(Header()[4..8])
    }

    function YiAddr(): bytes
    {
      Header()[16..20]
    }

    function ChAddr(): bytes
    {
      Header()[28..34]
    }
  }

  datatype Client = Client(state: State, xid: nat, initialXid: nat, mac: bytes,
                           localIp: bytes, subnetMask: bytes, gatewayIp: bytes, serverIp: bytes, dnsServerIp: bytes,
                           leaseTime: nat, t1: nat, t2: nat, renewInSec: int, rebindInSec: int)

  function BigEndian(s: bytes): nat {
    if s == [] then 0 else 0x100 * BigEndian(s[..|s| - 1]) + s[|s| - 1] as nat
  }

  /** The four bytes of a 32-bit number as the little-endian processor stores them. */
  function Stored(n: nat): (s: bytes)
    ensures |s| == 4
  {
    [(n % 0x100) as byte, (n / 0x100 % 0x100) as byte, (n / 0x1_0000 % 0x100) as byte, (n / 0x100_0000 % 0x100) as byte]
  }

  /** Reading over a buffer: a short read leaves its tail alone. */
  function ReadOver(kept: bytes, s: bytes): (r: bytes)
    ensures |r| == |kept|
  {
    if |kept| <= |s| then s[..|kept|] else s + kept[|s|..]
  }

  function ReadNumber(kept: nat, s: bytes): nat { BigEndian(ReadOver(Stored(kept), s)) }

  function Skipped(s: bytes, n: int): (r: bytes)
    ensures |r| <= |s|
  {
    if n <= 0 then s else if n <= |s| then s[n..] else []
  }

  /** The next byte; past the end, -1 cut to a byte. */
  function Byte(s: bytes): byte { if s == [] then 0xFF else s[0] }

  /** The option loop. An end option does not end it, and the message type is the last one that occurs. */
  function ParseOptions(c: Client, kind: byte, s: bytes, from: bytes): (Client, byte)
    decreases |s|
  {
    if s == [] then (c, kind) else
      var len, v := Byte(s[1..]), Skipped(s[1..], 1);
      match s[0]
      case 255 => ParseOptions(c, kind, s[1..], from)
      case 0 => ParseOptions(c, kind, s[1..], from)
      case 53 => ParseOptions(c, Byte(v), Skipped(v, 1), from)
      case 1 => ParseOptions(c.(subnetMask := ReadOver(c.subnetMask, v)), kind, Skipped(v, 4), from)
      case 3 =>
        ParseOptions(c.(gatewayIp := ReadOver(c.gatewayIp, v)), kind, Skipped(Skipped(v, 4), len as int - 4), from)
      case 6 =>
        ParseOptions(c.(dnsServerIp := ReadOver(c.dnsServerIp, v)), kind, Skipped(Skipped(v, 4), len as int - 4), from)
      case 54 =>
        if c.serverIp == [0, 0, 0, 0] || c.serverIp == from then
          ParseOptions(c.(serverIp := ReadOver(c.serverIp, v)), kind, Skipped(v, 4), from)
        else
          ParseOptions(c, kind, Skipped(v, len as int), from)
      case 58 => ParseOptions(c.(t1 := ReadNumber(c.t1, v)), kind, Skipped(v, 4), from)
      case 59 => ParseOptions(c.(t2 := ReadNumber(c.t2, v)), kind, Skipped(v, 4), from)
      case 51 =>
        var lease := ReadNumber(c.leaseTime, v);
        ParseOptions(c.(leaseTime := lease, renewInSec := Signed(lease)), kind, Skipped(v, 4), from)
      case _ => ParseOptions(c, kind, Skipped(v, len as int), from)
  }

  /** A reply from the server's port, for our hardware address, to a request we have sent. */
  predicate Accepted(c: Client, d: Datagram)
  {
    && d.Op() == BOOTREPLY && d.port == SERVER_PORT
    && d.ChAddr() == c.mac && c.initialXid <= d.Xid() <= c.xid
  }

  /** What parseDHCPResponse makes of the next datagram, or of none in time. */
  function Parse(c: Client, e: Option<Datagram>): (Client, byte)
  {
    if e.None? then (c, TIMED_OUT)
    else if !Accepted(c, e.value) then (c, 0)
    else ParseOptions(c.(localIp := e.value.YiAddr()), 0, e.value.Options(), e.value.ip)
  }

  /** Options never touch the machine's state, its transaction, its address or its hardware address. */
  lemma {:induction false} OptionsKeep(c: Client, kind: byte, s: bytes, from: bytes)
    ensures var d := ParseOptions(c, kind, s, from).0;
            && d.state == c.state && d.xid == c.xid && d.initialXid == c.initialXid
            && d.mac == c.mac && d.localIp == c.localIp && d.rebindInSec == c.rebindInSec
    decreases |s|
  {
    if s != [] {
      var len, v := Byte(s[1..]), Skipped(s[1..], 1);
      match s[0]
      case 255 => OptionsKeep(c, kind, s[1..], from);
      case 0 => OptionsKeep(c, kind, s[1..], from);
      case 53 => OptionsKeep(c, Byte(v), Skipped(v, 1), from);
      case 1 => OptionsKeep(c.(subnetMask := ReadOver(c.subnetMask, v)), kind, Skipped(v, 4), from);
      case 3 =>
        OptionsKeep(c.(gatewayIp := ReadOver(c.gatewayIp, v)), kind, Skipped(Skipped(v, 4), len as int - 4), from);
      case 6 =>
        OptionsKeep(c.(dnsServerIp := ReadOver(c.dnsServerIp, v)), kind, Skipped(Skipped(v, 4), len as int - 4), from);
      case 54 =>
        OptionsKeep(c.(serverIp := ReadOver(c.serverIp, v)), kind, Skipped(v, 4), from);
        OptionsKeep(c, kind, Skipped(v, len as int), from);
      case 58 => OptionsKeep(c.(t1 := ReadNumber(c.t1, v)), kind, Skipped(v, 4), from);
      case 59 => OptionsKeep(c.(t2 := ReadNumber(c.t2, v)), kind, Skipped(v, 4), from);
      case 51 =>
        var lease := ReadNumber(c.leaseTime, v);
        OptionsKeep(c.(leaseTime := lease, renewInSec := Signed(lease)), kind, Skipped(v, 4), from);
      case _ => OptionsKeep(c, kind, Skipped(v, len as int), from);
    }
  }

  datatype Sent = Sent(kind: byte, xid: nat, ip: bytes, server: bytes)

  function Message(c: Client, kind: byte): Sent { Sent(kind, c.xid, c.localIp, c.serverIp) }

  /** The loop's variables, with the replies still to come and the messages sent. */
  datatype Machine = Machine(c: Client, messageType: byte, result: int, inbox: seq<Option<Datagram>>, sent: seq<Sent>) {
    function Next(): (e: Option<Datagram>)
    {
      if inbox == [] then None else inbox[0]
    }
  }

  function Increment(xid: nat): nat { (xid + 1) % WORD }

  /** The timers of a granted lease: what the server did not send is derived from what it did. */
  function Granted(c: Client): Client {
    var lease := if c.leaseTime == 0 then DEFAULT_LEASE else c.leaseTime;
    var t1 := if c.t1 == 0 then lease / 2 else c.t1;
    var t2 := if c.t2 == 0 then t1 * 2 % WORD else c.t2;
    c.(leaseTime := lease, t1 := t1, t2 := t2, renewInSec := Signed(t1), rebindInSec := Signed(t2))
  }

  function Reply(m: Machine): (Client, byte)
  {
    Parse(m.c, m.Next())
  }

  function Waited(m: Machine): Machine { m.(inbox := if m.inbox == [] then [] else m.inbox[1..]) }

  /** One turn of the loop in request_DHCP_lease, up to the check of the clock. */
  function Turn(m: Machine): Machine
  {
    match m.c.state
    case Start =>
      var c := m.c.(xid := Increment(m.c.xid), state := Discover);
      m.(c := c, sent := m.sent + [Message(c, DISCOVER)])
    case Rerequest =>
      var c := m.c.(xid := Increment(m.c.xid), state := Request);
      m.(c := c, sent := m.sent + [Message(c, REQUEST)])
    case Discover =>
      var (c, kind) := Reply(m);
      if kind == OFFER then
        var d := c.(xid := m.Next().value.Xid(), state := Request);
        Waited(m).(c := d, messageType := kind, sent := m.sent + [Message(d, REQUEST)])
      else if kind == TIMED_OUT then Waited(m).(c := c.(state := Start), messageType := 0)
      else Waited(m).(c := c, messageType := kind)
    case Request =>
      var (c, kind) := Reply(m);
      if kind == ACK then Waited(m).(c := Granted(c.(state := Leased)), messageType := kind, result := 1)
      else if kind == NAK then Waited(m).(c := c.(state := Start), messageType := kind)
      else if kind == TIMED_OUT then Waited(m).(c := c.(state := Start), messageType := 0)
      else Waited(m).(c := c, messageType := kind)
    case Leased => m
  }

  /** The whole loop; `turns` is how many turns end before the clock passes the timeout. */
  function Serve(m: Machine, turns: nat): Machine
    decreases turns
  {
    if m.c.state == Leased then m else
      var t := Turn(m);
      if t.result == 1 || turns == 0 then t else Serve(t, turns - 1)
  }

  lemma ServeTurns(m: Machine, turns: nat)
    requires m.c.state != Leased
    ensures var t := Turn(m);
            Serve(m, turns) == if t.result == 1 || turns == 0 then t else Serve(t, turns - 1)
  {
  }

  /** The result says whether there is a lease, and a timeout mark never survives a turn. */
  predicate Consistent(m: Machine) {
    (m.result == 1 <==> m.c.state == Leased) && (m.result == 0 || m.result == 1) && m.messageType != TIMED_OUT
  }

  /** `d` is an acknowledgement of one of our requests, and the address in use is the one it carries. */
  ghost predicate Acknowledged(before: Client, after: Client, d: Datagram) {
    && Accepted(before, d)
    && ParseOptions(before.(localIp := d.YiAddr()), 0, d.Options(), d.ip).1 == ACK
    && after.localIp == d.YiAddr() && after.mac == before.mac
    && after.initialXid == before.initialXid && after.xid == before.xid
  }

  lemma TurnKeeps(m: Machine)
    requires Consistent(m) && m.c.state != Leased
    ensures var t := Turn(m);
            && Consistent(t)
            && t.c.mac == m.c.mac && t.c.initialXid == m.c.initialXid
            && (t.inbox == m.inbox || (m.inbox != [] && t.inbox == m.inbox[1..]))
            && (t.result == 1 ==> m.inbox != [] && m.inbox[0].Some? && t.inbox == m.inbox[1..]
                                  && Acknowledged(m.c, t.c, m.inbox[0].value))
  {
    if m.c.state == Discover || m.c.state == Request {
      var e := m.Next();
      if e.Some? {
        OptionsKeep(m.c.(localIp := e.value.YiAddr()), 0, e.value.Options(), e.value.ip);
      }
    }
  }

  /**
   * Safety of a whole run: it ends with result 1 exactly when it ends leased, and then the last reply taken was
   * an acknowledgement from the server port to our hardware address, with a transaction id between the first
   * and the current one, and the address in use is the one it carries.
   */
  lemma {:induction false} LeasedOnlyByAck(m: Machine, turns: nat) returns (n: nat, before: Client)
    requires Consistent(m) && m.c.state != Leased
    ensures var f := Serve(m, turns);
            && Consistent(f) && f.c.mac == m.c.mac && f.c.initialXid == m.c.initialXid
            && (f.result == 1 ==>
                  && n < |m.inbox| && m.inbox[n].Some? && f.inbox == m.inbox[n + 1..]
                  && Acknowledged(before, f.c, m.inbox[n].value)
                  && before.mac == m.c.mac && before.initialXid == m.c.initialXid)
    decreases turns
  {
    n, before := 0, m.c;
    TurnKeeps(m);
    var t := Turn(m);
    if t.result != 1 && turns != 0 {
      n, before := LeasedOnlyByAck(t, turns - 1);
      if t.inbox != m.inbox {
        n := n + 1;
      }
    }
  }

  /** Where the loop ends. */
  function Final(m: Machine, turns: nat): Machine { Serve(m, turns) }

  lemma FinalTurn(m: Machine, t: Machine, turns: nat)
    requires m.c.state != Leased && Turn(m) == t
    ensures Final(m, turns) == if t.result == 1 || turns == 0 then t else Final(t, turns - 1)
  {
    ServeTurns(m, turns);
  }

  /** Datagrams that are not a reply to this client. */
  predicate Strays(c: Client, inbox: seq<Option<Datagram>>) {
    forall e | e in inbox :: e.Some? && !Accepted(c, e.value)
  }

  lemma StrayIgnored(m: Machine, e: Option<Datagram>, rest: seq<Option<Datagram>>)
    requires (m.c.state == Discover || m.c.state == Request) && m.inbox == [e] + rest
    requires e.Some? && !Accepted(m.c, e.value)
    ensures Turn(m) == m.(inbox := rest, messageType := 0)
  {
    assert m.inbox[1..] == rest && Reply(m) == (m.c, 0);
  }

  /** A waiting client takes one turn for each of them and stays as it is. */
  lemma {:induction false} StraysIgnored(m: Machine, strays: seq<Option<Datagram>>, rest: seq<Option<Datagram>>,
                                         turns: nat) returns (t: Machine)
    requires (m.c.state == Discover || m.c.state == Request) && m.result == 0
    requires m.inbox == strays + rest && Strays(m.c, strays) && |strays| <= turns
    ensures Final(m, turns) == Final(t, turns - |strays|)
    ensures t.c == m.c && t.inbox == rest && t.result == 0 && t.sent == m.sent
    decreases |strays|
  {
    t := m;
    if strays == [] {
      assert m.inbox == rest;
    } else {
      var u := m.(inbox := strays[1..] + rest, messageType := 0);
      assert m.inbox == [strays[0]] + (strays[1..] + rest) && strays[0] in strays;
      StrayIgnored(m, strays[0], strays[1..] + rest);
      FinalTurn(m, u, turns);
      t := StraysIgnored(u, strays[1..], rest, turns - 1);
    }
  }

  /** An accepted datagram of the kind waited for. */
  predicate Answers(c: Client, d: Datagram, kind: byte) { Accepted(c, d) && Parse(c, Some(d)).1 == kind }

  /** What a client in Discover becomes with an offer, and the client waiting for it. */
  function Discovering(c: Client): Client { c.(xid := Increment(c.xid), state := Discover) }

  function Offered(c: Client, offer: Datagram): Client {
    Parse(c, Some(offer)).0.(xid := offer.Xid(), state := Request)
  }

  /**
   * A server that answers with an acceptable offer and then an acceptable acknowledgement grants a lease, whatever
   * datagrams that are not accepted come before each of the two, and whatever comes after.
   */
  lemma OfferThenAckLeases(m: Machine, first: seq<Option<Datagram>>, offer: Datagram,
                           second: seq<Option<Datagram>>, ack: Datagram, more: seq<Option<Datagram>>, turns: nat)
    requires m.c.state == Start && m.result == 0 && |first| + |second| + 2 <= turns
    requires m.inbox == first + ([Some(offer)] + (second + ([Some(ack)] + more)))
    requires Strays(Discovering(m.c), first) && Answers(Discovering(m.c), offer, OFFER)
    requires var c := Offered(Discovering(m.c), offer); Strays(c, second) && Answers(c, ack, ACK)
    ensures var f := Serve(m, turns);
            && f.result == 1 && f.c.localIp == ack.YiAddr() && |f.sent| == |m.sent| + 2 && f.inbox == more
  {
    StartTurn(m);
    FinalTurn(m, Turn(m), turns);
    var f := BothAnswered(Turn(m), first, offer, second, ack, more, turns - 1);
    assert Final(m, turns) == f;
  }

  lemma BothAnswered(m: Machine, first: seq<Option<Datagram>>, offer: Datagram, second: seq<Option<Datagram>>,
                     ack: Datagram, more: seq<Option<Datagram>>, turns: nat) returns (f: Machine)
    requires m.c.state == Discover && m.result == 0 && |first| + |second| < turns
    requires m.inbox == first + ([Some(offer)] + (second + ([Some(ack)] + more)))
    requires Strays(m.c, first) && Answers(m.c, offer, OFFER)
    requires Strays(Offered(m.c, offer), second) && Answers(Offered(m.c, offer), ack, ACK)
    ensures Final(m, turns) == f
    ensures f.result == 1 && f.c.localIp == ack.YiAddr() && |f.sent| == |m.sent| + 1 && f.inbox == more
  {
    var asked := FirstAnswered(m, first, offer, second + ([Some(ack)] + more), turns);
    f := SecondAnswered(asked, second, ack, more, turns - 1 - |first|);
  }

  lemma StartTurn(m: Machine)
    requires m.c.state == Start
    ensures var t := Turn(m);
            t.c == Discovering(m.c) && t.inbox == m.inbox && t.result == m.result && |t.sent| == |m.sent| + 1
  {
  }

  lemma FirstAnswered(m: Machine, strays: seq<Option<Datagram>>, offer: Datagram, rest: seq<Option<Datagram>>,
                      turns: nat) returns (t: Machine)
    requires m.c.state == Discover && m.result == 0 && |strays| < turns
    requires m.inbox == strays + ([Some(offer)] + rest) && Strays(m.c, strays) && Answers(m.c, offer, OFFER)
    ensures Final(m, turns) == Final(t, turns - |strays| - 1)
    ensures t.c == Offered(m.c, offer) && t.inbox == rest && t.result == 0 && |t.sent| == |m.sent| + 1
  {
    var waiting := StraysIgnored(m, strays, [Some(offer)] + rest, turns);
    t := OfferTaken(waiting, offer, rest, turns - |strays|);
  }

  lemma SecondAnswered(m: Machine, strays: seq<Option<Datagram>>, ack: Datagram, more: seq<Option<Datagram>>,
                       turns: nat) returns (f: Machine)
    requires m.c.state == Request && m.result == 0 && |strays| <= turns
    requires m.inbox == strays + ([Some(ack)] + more) && Strays(m.c, strays) && Answers(m.c, ack, ACK)
    ensures Final(m, turns) == f
    ensures f.result == 1 && f.c.localIp == ack.YiAddr() && f.sent == m.sent && f.inbox == more
  {
    var waiting := StraysIgnored(m, strays, [Some(ack)] + more, turns);
    f := AckTaken(waiting, ack, more, turns - |strays|);
  }

  lemma OfferTaken(m: Machine, offer: Datagram, rest: seq<Option<Datagram>>, turns: nat) returns (t: Machine)
    requires m.c.state == Discover && m.result == 0 && m.inbox == [Some(offer)] + rest && 0 < turns
    requires Answers(m.c, offer, OFFER)
    ensures Final(m, turns) == Final(t, turns - 1)
    ensures t.c == Offered(m.c, offer) && t.inbox == rest && t.result == 0 && |t.sent| == |m.sent| + 1
  {
    t := Turn(m);
    assert m.inbox[1..] == rest && m.Next() == Some(offer);
    FinalTurn(m, t, turns);
  }

  lemma AckTaken(m: Machine, ack: Datagram, more: seq<Option<Datagram>>, turns: nat) returns (f: Machine)
    requires m.c.state == Request && m.result == 0 && m.inbox == [Some(ack)] + more
    requires Answers(m.c, ack, ACK)
    ensures Final(m, turns) == f
    ensures f.result == 1 && f.c.localIp == ack.YiAddr() && f.sent == m.sent && f.inbox == more
  {
    f := Turn(m);
    assert m.inbox[1..] == more && m.Next() == Some(ack);
    FinalTurn(m, f, turns);
    OptionsKeep(m.c.(localIp := ack.YiAddr()), 0, ack.Options(), ack.ip);
  }

  /**
   * The counters of a granted lease start out non-negative exactly when the timers that count for it are small: the
   * ones the server sent, or else those that come of its lease time.
   */
  lemma GrantedCounters(c: Client)
    requires c.leaseTime < WORD && c.t1 < WORD && c.t2 < WORD
    ensures var lease := if c.leaseTime == 0 then DEFAULT_LEASE else c.leaseTime;
            var g := Granted(c);
            0 <= g.renewInSec && 0 <= g.rebindInSec <==>
            c.t1 < HALF && if c.t2 != 0 then c.t2 < HALF else if c.t1 != 0 then c.t1 < HALF / 2 else lease < HALF
  {
  }

  /** An infinite lease time without explicit timers asks for a rebind at once. */
  lemma InfiniteLeaseRebinds(c: Client)
    requires c.leaseTime == 0xFFFF_FFFF && c.t1 == 0 && c.t2 == 0
    ensures Granted(c).rebindInSec < 0
  {
    GrantedCounters(c);
  }

  /** The machine as the last turn of the loop finds it. */
  function BeforeLast(m: Machine, turns: nat): Machine
    requires m.c.state != Leased && Consistent(m)
    decreases turns
  {
    TurnKeeps(m);
    var t := Turn(m);
    if t.result == 1 || turns == 0 then m else BeforeLast(t, turns - 1)
  }

  lemma {:induction false} LastTurn(m: Machine, turns: nat)
    requires m.c.state != Leased && Consistent(m)
    ensures var b := BeforeLast(m, turns);
            b.c.state != Leased && Consistent(b) && Serve(m, turns) == Turn(b)
    decreases turns
  {
    TurnKeeps(m);
    var t := Turn(m);
    if t.result != 1 && turns != 0 {
      LastTurn(t, turns - 1);
    }
  }

  /** The states in which checkLease does nothing, whatever is due. */
  predicate Stranded(s: State) { s == Discover || s == Request || s == Rerequest }

  /**
   * When a run of the loop leaves the client stranded, for every inbox: unless its last turn timed out waiting,
   * took a refusal of the request, or took its acknowledgement.
   */
  lemma EndsStranded(m: Machine, turns: nat)
    requires m.c.state != Leased && Consistent(m)
    ensures var b := BeforeLast(m, turns);
            var kind := Reply(b).1;
            Stranded(Serve(m, turns).c.state) <==>
            match b.c.state
            case Discover => kind != TIMED_OUT
            case Request => kind != TIMED_OUT && kind != NAK && kind != ACK
            case _ => true
  {
    LastTurn(m, turns);
    var b := BeforeLast(m, turns);
    if b.c.state == Discover || b.c.state == Request {
      var e := b.Next();
      if e.Some? {
        OptionsKeep(b.c.(localIp := e.value.YiAddr()), 0, e.value.Options(), e.value.ip);
      }
    }
  }

  /**
   * On a silent network the client asks and times out in turn. The loop leaves it waiting exactly if it runs out of
   * time after an even number of turns, and ready to start again otherwise.
   */
  lemma {:induction false} SilenceStrandsEveryOther(m: Machine, turns: nat)
    requires (m.c.state == Start || m.c.state == Rerequest) && m.inbox == [] && m.result == 0
    ensures var s := Serve(m, turns).c.state;
            s == if turns % 2 == 1 then Start else if turns == 0 && m.c.state == Rerequest then Request else Discover
    ensures Stranded(Serve(m, turns).c.state) <==> turns % 2 == 0
    decreases turns
  {
    if turns > 0 {
      var t := Turn(m);
      var u := Turn(t);
      assert u.c.state == Start && u.inbox == [] && u.result == 0;
      ServeTurns(t, turns - 1);
      if turns > 1 {
        SilenceStrandsEveryOther(u, turns - 2);
      }
    }
  }

  /** One request: the random transaction id, whether a socket is free, and the turns before the timeout. */
  datatype Try = Try(first: nat, socketOk: bool, turns: nat)

  /** request_DHCP_lease as a whole. */
  function Asked(m: Machine, t: Try): Machine
  {
    var c := m.c.(xid := t.first, initialXid := t.first);
    if !t.socketOk then Machine(c, 0, 0, m.inbox, m.sent) else
      var f := Serve(Machine(c, 0, 0, m.inbox, m.sent), t.turns);
      Machine(f.c.(xid := Increment(f.c.xid)), 0, f.result, f.inbox, f.sent)
  }

  function Reset(c: Client): Client {
    var zero := [0, 0, 0, 0];
    c.(state := Start, localIp := zero, subnetMask := zero, gatewayIp := zero, serverIp := zero, dnsServerIp := zero)
  }

  predicate RenewDue(c: Client) { c.state == Leased && c.renewInSec <= 0 }

  predicate RebindDue(c: Client) { (c.state == Leased || c.state == Start) && c.rebindInSec <= 0 }

  /** A request made with a client that holds no lease: a fresh transaction, and a lease only by acknowledgement. */
  lemma AskedOnlyByAck(m: Machine, t: Try) returns (n: nat, before: Client)
    requires (m.c.state == Start || m.c.state == Rerequest)
    ensures var f := Asked(m, t);
            && (f.result == 1 <==> f.c.state == Leased) && (f.result == 0 || f.result == 1)
            && f.c.mac == m.c.mac
            && (f.result == 1 ==>
                  && n < |m.inbox| && m.inbox[n].Some? && f.inbox == m.inbox[n + 1..]
                  && Accepted(before, m.inbox[n].value) && before.mac == m.c.mac && before.initialXid == t.first
                  && Parse(before, m.inbox[n]).1 == ACK
                  && f.c.localIp == m.inbox[n].value.YiAddr() && f.c.xid == Increment(before.xid))
  {
    var start := Machine(m.c.(xid := t.first, initialXid := t.first), 0, 0, m.inbox, m.sent);
    n, before := LeasedOnlyByAck(start, t.turns);
  }

  /** The renewal, when it is due: the lease held is asked for again. The result is the code for it. */
  function Renewed(m: Machine, t: Try): Machine {
    if !RenewDue(m.c) then m.(result := 0) else
      var f := Asked(m.(c := m.c.(state := Rerequest)), t);
      f.(result := 1 + f.result)
  }

  /** The rebind, when it is due: everything is forgotten and asked for afresh. */
  function Rebound(m: Machine, t: Try): Machine {
    if !RebindDue(m.c) then m else
      var f := Asked(m.(c := Reset(m.c)), t);
      f.(result := 3 + f.result)
  }

  /** The counters as the timer has them after its tick. */
  function Ticked(c: Client, t: Timer, now: nat): Client {
    c.(renewInSec := Tick(t, now).renewInSec, rebindInSec := Tick(t, now).rebindInSec)
  }

  /** What checkLease makes of the machine: the timer ticks, then what is due is done; nothing before the first tick. */
  function Checked(m: Machine, t: Timer, now: nat, renewal: Try, rebinding: Try): Machine {
    var ticked := m.(c := Ticked(m.c, t, now));
    if t.started then Rebound(Renewed(ticked, renewal), rebinding) else ticked.(result := 0)
  }

  lemma RenewedOutcome(m: Machine, t: Try)
    ensures var f := Renewed(m, t);
            if RenewDue(m.c) then f.result in {1, 2} && (f.result == 2 <==> f.c.state == Leased) else f.result == 0
  {
    if RenewDue(m.c) {
      var n, before := AskedOnlyByAck(m.(c := m.c.(state := Rerequest)), t);
    }
  }

  lemma ReboundOutcome(m: Machine, t: Try)
    ensures var f := Rebound(m, t);
            RebindDue(m.c) ==> f.result in {3, 4} && (f.result == 4 <==> f.c.state == Leased)
  {
    if RebindDue(m.c) {
      var n, before := AskedOnlyByAck(m.(c := Reset(m.c)), t);
    }
  }

  /**
   * What checkLease's code tells: 0 exactly when nothing was due; otherwise whether it was a renewal or a rebind, and
   * 2 or 4 exactly when a lease is held at the end. A client left waiting for a reply is never woken.
   */
  lemma CheckedOutcome(m: Machine, t: Timer, now: nat, renewal: Try, rebinding: Try)
    ensures var f, c := Checked(m, t, now, renewal, rebinding), Ticked(m.c, t, now);
            && (f.result == 0 <==> !t.started || !(RenewDue(c) || RebindDue(c)))
            && f.result in {0, 1, 2, 3, 4}
            && (f.result != 0 ==> (f.result in {2, 4} <==> f.c.state == Leased))
            && (Stranded(m.c.state) ==> f == m.(c := c, result := 0))
  {
    var ticked := m.(c := Ticked(m.c, t, now));
    RenewedOutcome(ticked, renewal);
    ReboundOutcome(Renewed(ticked, renewal), rebinding);
  }

  /**
   * When a whole request leaves the client stranded: one that gets a socket as its loop does, one that gets none
   * exactly if it was to renew a lease.
   */
  lemma AskedEndsStranded(m: Machine, t: Try)
    requires m.c.state == Start || m.c.state == Rerequest
    ensures var start := Machine(m.c.(xid := t.first, initialXid := t.first), 0, 0, m.inbox, m.sent);
            Asked(m, t).c.state == if t.socketOk then Serve(start, t.turns).c.state else m.c.state
    ensures Stranded(Asked(m, t).c.state) <==>
            if !t.socketOk then m.c.state == Rerequest else
              var start := Machine(m.c.(xid := t.first, initialXid := t.first), 0, 0, m.inbox, m.sent);
              var b := BeforeLast(start, t.turns);
              match b.c.state
              case Discover => Reply(b).1 != TIMED_OUT
              case Request => Reply(b).1 != TIMED_OUT && Reply(b).1 != NAK && Reply(b).1 != ACK
              case _ => true
  {
    EndsStranded(Machine(m.c.(xid := t.first, initialXid := t.first), 0, 0, m.inbox, m.sent), t.turns);
  }

  /** One call of checkLease. */
  datatype Call = Call(now: nat, renewal: Try, rebinding: Try)

  /** The timer after a call: its own tick, and the counters as the machine has them then. */
  function CheckedTimer(f: Machine, t: Timer, now: nat): Timer {
    Timer(now != 0, Tick(t, now).secTimeout, f.c.renewInSec, f.c.rebindInSec)
  }

  function CheckedAll(m: Machine, t: Timer, calls: seq<Call>): Machine
    decreases |calls|
  {
    if calls == [] then m else
      var f := Checked(m, t, calls[0].now, calls[0].renewal, calls[0].rebinding);
      CheckedAll(f, CheckedTimer(f, t, calls[0].now), calls[1..])
  }

  /** A stranded client stays so over any calls of checkLease: it sends nothing, and no reply is ever taken. */
  lemma {:induction false} StrandedForEver(m: Machine, t: Timer, calls: seq<Call>)
    requires Stranded(m.c.state)
    ensures var f := CheckedAll(m, t, calls);
            && f.c.state == m.c.state && f.sent == m.sent && f.inbox == m.inbox
            && f.c.localIp == m.c.localIp && f.result == (if calls == [] then m.result else 0)
    decreases |calls|
  {
    if calls != [] {
      var f := Checked(m, t, calls[0].now, calls[0].renewal, calls[0].rebinding);
      StrandedForEver(f, CheckedTimer(f, t, calls[0].now), calls[1..]);
    }
  }

  /**
   * One renewal that finds no free socket strands the client for ever: the call reports the failed renewal, and no
   * later call sends anything or lets go of the address, however long the lease has been over.
   */
  lemma RenewalWithoutSocket(m: Machine, t: Timer, call: Call, calls: seq<Call>)
    requires t.started && RenewDue(Ticked(m.c, t, call.now)) && !call.renewal.socketOk
    ensures Checked(m, t, call.now, call.renewal, call.rebinding).result == 1
    ensures var f := CheckedAll(m, t, [call] + calls);
            f.c.state == Rerequest && f.sent == m.sent && f.inbox == m.inbox && f.c.localIp == m.c.localIp
  {
    var f := Checked(m, t, call.now, call.renewal, call.rebinding);
    assert ([call] + calls)[1..] == calls;
    StrandedForEver(f, CheckedTimer(f, t, call.now), calls);
  }

  /** The client with its fields, its socket and its two clocks. */
  class DhcpClass {
    var state: State
    var xid: nat
    var initialXid: nat
    var mac: bytes
    var localIp: bytes
    var subnetMask: Four
    var gatewayIp: Four
    var serverIp: Four
    var dnsServerIp: Four
    var leaseTime: nat
    var t1: nat
    var t2: nat
    var renewInSec: int
    var rebindInSec: int
    var lastCheck: nat
    var secTimeout: nat
    /** The bytes of the packet being read. */
    var packet: bytes
    var inbox: seq<Option<Datagram>>
    var sent: seq<Sent>

    ghost function C(): Client
      reads this
    {
      Client(state, xid, initialXid, mac, localIp, subnetMask, gatewayIp, serverIp, dnsServerIp,
             leaseTime, t1, t2, renewInSec, rebindInSec)
    }

    ghost function T(): Timer
      reads this
    {
      Timer(lastCheck != 0, secTimeout, renewInSec, rebindInSec)
    }

    constructor (mac: bytes, inbox: seq<Option<Datagram>>)
      ensures state == Start && lastCheck == 0 && this.mac == mac && this.inbox == inbox && sent == []
    {
      state, xid, initialXid, this.mac := Start, 0, 0, mac;
      localIp, subnetMask, gatewayIp := [0, 0, 0, 0], [0, 0, 0, 0], [0, 0, 0, 0];
      serverIp, dnsServerIp := [0, 0, 0, 0], [0, 0, 0, 0];
      leaseTime, t1, t2, renewInSec, rebindInSec := 0, 0, 0, 0, 0;
      lastCheck, secTimeout := 0, 0;
      packet, this.inbox, sent := [], inbox, [];
    }

    method ResetLease()
      modifies this`localIp, this`subnetMask, this`gatewayIp, this`serverIp, this`dnsServerIp
      ensures localIp == subnetMask == gatewayIp == serverIp == dnsServerIp == [0, 0, 0, 0]
    {
      localIp, subnetMask, gatewayIp := [0, 0, 0, 0], [0, 0, 0, 0], [0, 0, 0, 0];
      serverIp, dnsServerIp := [0, 0, 0, 0], [0, 0, 0, 0];
    }

    method ReadByte() returns (b: byte)
      modifies this`packet
      ensures b == Byte(old(packet)) && packet == Skipped(old(packet), 1)
    {
      b := 0xFF;
      if packet != [] {
        b := packet[0];
        packet := packet[1..];
      }
    }

    method ReadFour(kept: Four) returns (r: Four)
      modifies this`packet
      ensures r == ReadOver(kept, old(packet)) && packet == Skipped(old(packet), 4)
    {
      if 4 <= |packet| {
        r := packet[..4];
        packet := packet[4..];
      } else {
        r := packet + kept[|packet|..];
        packet := [];
      }
    }

    method Skip(n: int)
      modifies this`packet
      ensures packet == Skipped(old(packet), n)
    {
      var i := 0;
      while i < n
        invariant (0 <= i <= n || (i == 0 && n < 0)) && packet == Skipped(old(packet), i)
      {
        var b := ReadByte();
        i := i + 1;
      }
    }

    /** The subnet mask; of a longer option the rest is taken for further options. */
    method ParseMask(from: bytes, ghost kind: byte)
      modifies this`packet, this`subnetMask
      ensures |packet| <= |old(packet)|
      ensures ParseOptions(old(C()), kind, [1] + old(packet), from) == ParseOptions(C(), kind, packet, from)
    {
      assert ([1] + packet)[1..] == packet;
      var optLen := ReadByte();
      subnetMask := ReadFour(subnetMask);
    }

    /** The first of the routers or of the name servers. */
    method ParseAddress(code: byte, from: bytes, ghost kind: byte)
      requires code in {3, 6}
      modifies this`packet, this`gatewayIp, this`dnsServerIp
      ensures |packet| <= |old(packet)|
      ensures ParseOptions(old(C()), kind, [code] + old(packet), from) == ParseOptions(C(), kind, packet, from)
    {
      assert ([code] + packet)[1..] == packet;
      var optLen := ReadByte();
      if code == 3 {
        gatewayIp := ReadFour(gatewayIp);
      } else {
        dnsServerIp := ReadFour(dnsServerIp);
      }
      Skip(optLen as int - 4);
    }

    /** The server identifier: taken once, and again only from the same server. */
    method ParseServer(from: bytes, ghost kind: byte)
      modifies this`packet, this`serverIp
      ensures |packet| <= |old(packet)|
      ensures ParseOptions(old(C()), kind, [54] + old(packet), from) == ParseOptions(C(), kind, packet, from)
    {
      assert ([54] + packet)[1..] == packet;
      var optLen := ReadByte();
      if serverIp == [0, 0, 0, 0] || serverIp == from {
        serverIp := ReadFour(serverIp);
      } else {
        Skip(optLen as int);
      }
    }

    /** The options that carry times. */
    method ParseTime(code: byte, ghost from: bytes, ghost kind: byte)
      requires code in {51, 58, 59}
      modifies this`packet, this`leaseTime, this`t1, this`t2, this`renewInSec
      ensures |packet| <= |old(packet)|
      ensures ParseOptions(old(C()), kind, [code] + old(packet), from) == ParseOptions(C(), kind, packet, from)
    {
      assert ([code] + packet)[1..] == packet;
      var optLen := ReadByte();
      match code
      case 58 =>
        var r := ReadFour(Stored(t1));
        t1 := BigEndian(r);
      case 59 =>
        var r := ReadFour(Stored(t2));
        t2 := BigEndian(r);
      case _ =>
        var r := ReadFour(Stored(leaseTime));
        leaseTime := BigEndian(r);
        renewInSec := Signed(leaseTime);
    }

    /** One option, after its code has been read. */
    method ParseOption(code: byte, kind: byte, from: bytes) returns (newKind: byte)
      modifies this`packet, this`subnetMask, this`gatewayIp, this`serverIp, this`dnsServerIp,
               this`leaseTime, this`t1, this`t2, this`renewInSec
      ensures |packet| <= |old(packet)|
      ensures ParseOptions(old(C()), kind, [code] + old(packet), from) == ParseOptions(C(), newKind, packet, from)
    {
      newKind := kind;
      assert ([code] + packet)[1..] == packet;
      if code == 255 || code == 0 {
        return;
      }
      if code == 53 {
        var optLen := ReadByte();
        newKind := ReadByte();
      } else if code == 1 {
        ParseMask(from, kind);
      } else if code in {3, 6} {
        ParseAddress(code, from, kind);
      } else if code == 54 {
        ParseServer(from, kind);
      } else if code in {51, 58, 59} {
        ParseTime(code, from, kind);
      } else {
        var optLen := ReadByte();
        Skip(optLen as int);
      }
    }

    /** The option loop. */
    method ParseAllOptions(from: bytes) returns (kind: byte)
      modifies this`packet, this`subnetMask, this`gatewayIp, this`serverIp, this`dnsServerIp,
               this`leaseTime, this`t1, this`t2, this`renewInSec
      ensures ParseOptions(old(C()), 0, old(packet), from) == (C(), kind)
    {
      kind := 0;
      while packet != []
        invariant ParseOptions(old(C()), 0, old(packet), from) == ParseOptions(C(), kind, packet, from)
        decreases |packet|
      {
        ghost var before := packet;
        var code := ReadByte();
        assert before == [code] + packet;
        kind := ParseOption(code, kind, from);
      }
    }

    /** parseDHCPResponse: the next datagram, or none before the response timeout. */
    method ParseResponse() returns (kind: byte, respId: nat, ghost e: Option<Datagram>)
      modifies this`packet, this`inbox, this`localIp, this`subnetMask, this`gatewayIp, this`serverIp, this`dnsServerIp,
               this`leaseTime, this`t1, this`t2, this`renewInSec
      ensures e == if old(inbox) == [] then None else old(inbox)[0]
      ensures inbox == if old(inbox) == [] then [] else old(inbox)[1..]
      ensures Parse(old(C()), e) == (C(), kind)
      ensures e.Some? && Accepted(old(C()), e.value) ==> respId == e.value.Xid()
    {
      respId := 0;
      var event := None;
      if inbox != [] {
        event := inbox[0];
        inbox := inbox[1..];
      }
      e := event;
      if event.None? {
        kind := TIMED_OUT;
        return;
      }
      var d := event.value;
      kind := 0;
      if d.Op() == BOOTREPLY && d.port == SERVER_PORT {
        respId := d.Xid();
        if d.ChAddr() != mac || d.Xid() < initialXid || d.Xid() > xid {
          return;
        }
        localIp := d.YiAddr();
        packet := d.Options();
        kind := ParseAllOptions(d.ip);
      }
    }

    method SendMessage(kind: byte)
      modifies this`sent
      ensures sent == old(sent) + [Message(C(), kind)]
    {
      sent := sent + [Sent(kind, xid, localIp, serverIp)];
    }

    ghost function M(messageType: byte, result: int): Machine
      reads this
    {
      Machine(C(), messageType, result, inbox, sent)
    }

    /** The lease is granted: fill in what the server did not send. */
    method Grant()
      modifies this`leaseTime, this`t1, this`t2, this`renewInSec, this`rebindInSec
      ensures C() == Granted(old(C()))
    {
      if leaseTime == 0 {
        leaseTime := DEFAULT_LEASE;
      }
      if t1 == 0 {
        t1 := leaseTime / 2;
      }
      if t2 == 0 {
        t2 := t1 * 2 % WORD;
      }
      renewInSec := Signed(t1);
      rebindInSec := Signed(t2);
    }

    /** The loop body while waiting for an offer. */
    method AwaitOffer(ghost messageType: byte, ghost result: int) returns (kind: byte)
      requires state == Discover
      modifies this
      ensures lastCheck == old(lastCheck) && secTimeout == old(secTimeout)
      ensures M(kind, result) == Turn(old(M(messageType, result))) && state != Leased
    {
      var respId;
      ghost var e;
      kind, respId, e := ParseResponse();
      if kind == OFFER {
        xid := respId;
        SendMessage(REQUEST);
        state := Request;
      }
      if kind == TIMED_OUT {
        kind := 0;
        state := Start;
      }
    }

    /** The loop body while waiting for an acknowledgement. */
    method AwaitAck(ghost messageType: byte, result: int) returns (kind: byte, r: int)
      requires state == Request
      modifies this
      ensures lastCheck == old(lastCheck) && secTimeout == old(secTimeout)
      ensures M(kind, r) == Turn(old(M(messageType, result)))
      ensures r == if state == Leased then 1 else result
    {
      r := result;
      var respId;
      ghost var e;
      kind, respId, e := ParseResponse();
      if kind == ACK {
        state := Leased;
        r := 1;
        Grant();
      } else if kind == NAK {
        state := Start;
      }
      if kind == TIMED_OUT {
        kind := 0;
        state := Start;
      }
    }

    /** The loop body, up to the check of the clock. */
    method TurnOnce(messageType: byte, result: int) returns (kind: byte, r: int)
      requires state != Leased && result == 0
      modifies this
      ensures lastCheck == old(lastCheck) && secTimeout == old(secTimeout)
      ensures M(kind, r) == Turn(old(M(messageType, result)))
      ensures r == if state == Leased then 1 else 0
    {
      kind, r := messageType, result;
      if state == Start {
        xid := Increment(xid);
        SendMessage(DISCOVER);
        state := Discover;
      } else if state == Rerequest {
        xid := Increment(xid);
        SendMessage(REQUEST);
        state := Request;
      } else if state == Discover {
        kind := AwaitOffer(messageType, result);
      } else {
        kind, r := AwaitAck(messageType, result);
      }
    }

    /** request_DHCP_lease. */
    method RequestLease(t: Try) returns (result: int)
      requires (state == Start || state == Rerequest)
      modifies this
      ensures lastCheck == old(lastCheck) && secTimeout == old(secTimeout)
      ensures result == if state == Leased then 1 else 0
      ensures M(0, result) == Asked(old(M(0, 0)), t)
    {
      xid := t.first;
      initialXid := xid;
      if !t.socketOk {
        return 0;
      }
      result := ServeLoop(t.turns);
      xid := Increment(xid);
    }

    method ServeLoop(turns: nat) returns (result: int)
      requires state != Leased
      modifies this
      ensures lastCheck == old(lastCheck) && secTimeout == old(secTimeout)
      ensures result == if state == Leased then 1 else 0
      ensures var f := Serve(old(M(0, 0)), turns);
              C() == f.c && result == f.result && inbox == f.inbox && sent == f.sent
    {
      var messageType: byte := 0;
      result := 0;
      var left: nat := turns;
      ghost var f := Serve(M(messageType, result), turns);
      while state != Leased
        invariant lastCheck == old(lastCheck) && secTimeout == old(secTimeout)
        invariant left <= turns && result == if state == Leased then 1 else 0
        invariant f == if state == Leased then M(messageType, result) else Serve(M(messageType, result), left)
        decreases left, state != Leased
      {
        ServeTurns(M(messageType, result), left);
        messageType, result := TurnOnce(messageType, result);
        if result != 1 && left == 0 {
          break;
        }
        if result != 1 {
          left := left - 1;
        }
      }
    }

    /** The timer part of checkLease: at most one timeout is handled, with all the seconds it is late. */
    method Deduct(now: nat)
      requires lastCheck != 0 && now < WORD
      modifies this`secTimeout, this`renewInSec, this`rebindInSec
      ensures secTimeout == Tick(old(T()), now).secTimeout && C() == Ticked(old(C()), old(T()), now)
    {
      var snow := Signed(now);
      var factor := Signed(snow - Signed(secTimeout));
      if factor >= 0 {
        secTimeout := Wrap(snow + 1000 - factor % 1000);
        factor := factor / 1000 + 1;
        if renewInSec < factor * 2 {
          renewInSec := 0;
        } else {
          renewInSec := renewInSec - factor;
        }
        if rebindInSec < factor * 2 {
          rebindInSec := 0;
        } else {
          rebindInSec := rebindInSec - factor;
        }
      }
    }

    method Renew(t: Try) returns (rc: int)
      modifies this
      ensures lastCheck == old(lastCheck) && secTimeout == old(secTimeout)
      ensures M(0, rc) == Renewed(old(M(0, 0)), t)
    {
      rc := 0;
      if state == Leased && renewInSec <= 0 {
        state := Rerequest;
        rc := RequestLease(t);
        rc := 1 + rc;
      }
    }

    method Rebind(t: Try, rc: int) returns (rc1: int)
      modifies this
      ensures lastCheck == old(lastCheck) && secTimeout == old(secTimeout)
      ensures M(0, rc1) == Rebound(old(M(0, rc)), t)
    {
      rc1 := rc;
      if (state == Leased || state == Start) && rebindInSec <= 0 {
        Forget();
        rc1 := RequestLease(t);
        rc1 := 3 + rc1;
      }
    }

    method Forget()
      modifies this`state, this`localIp, this`subnetMask, this`gatewayIp, this`serverIp, this`dnsServerIp
      ensures C() == Reset(old(C()))
    {
      state := Start;
      ResetLease();
    }

    method Maintain(renewal: Try, rebinding: Try) returns (rc: int)
      modifies this
      ensures lastCheck == old(lastCheck) && secTimeout == old(secTimeout)
      ensures M(0, rc) == Rebound(Renewed(old(M(0, 0)), renewal), rebinding)
    {
      rc := Renew(renewal);
      rc := Rebind(rebinding, rc);
    }

    /** checkLease: the timer ticks on every call, then what is due is done. */
    method CheckLease(now: nat, renewal: Try, rebinding: Try) returns (rc: int)
      requires now < WORD
      modifies this
      ensures lastCheck == now && secTimeout == Tick(old(T()), now).secTimeout
      ensures M(0, rc) == Checked(old(M(0, 0)), old(T()), now, renewal, rebinding)
    {
      rc := 0;
      if lastCheck != 0 {
        Deduct(now);
        rc := Maintain(renewal, rebinding);
      } else {
        secTimeout := Wrap(Signed(now) + 1000);
      }
      lastCheck := now;
    }
  }
}
