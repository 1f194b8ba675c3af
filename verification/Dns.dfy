/**
 * One DNS exchange: the Ethernet client's BuildRequest and ProcessResponse with the DNSServer between them.
 * Messages are those of section 4.1 of RFC 1035.
 */
module Dns {
  import opened Bytes
  import opened Wrappers

  const DOT: byte := 46
  const HEADER_SIZE: nat := 12

  type Two = s: bytes | |s| == 2 witness [0, 0]
  /** The labels of a name: its stretches between dots that are not empty. */
  function Labels(name: bytes): seq<bytes> {
    var n := Run(name);
    var rest := if n < |name| then Labels(name[n + 1..]) else [];
    if n == 0 then rest else [name[..n]] + rest
  }

  /** How many bytes come before the first dot. */
  function Run(s: bytes): (n: nat)
    ensures n <= |s| && DOT !in s[..n] && (n < |s| ==> s[n] == DOT)
  {
    if s == [] || s[0] == DOT then 0 else
      var n := 1 + Run(s[1..]);
      assert s[..n] == [s[0]] + s[1..][..n - 1];
      n
  }

  /** Labels as a query carries them: each after its length, cut to a byte. */
  function Name(labels: seq<bytes>): bytes {
    if labels == [] then [] else [(|labels[0]| % 0x100) as byte] + labels[0] + Name(labels[1..])
  }

  /** A name on the wire with what follows it. */
  function Wire(labels: seq<bytes>, t: bytes): bytes { Name(labels) + [0] + t }

  /** The twelve bytes before the question, and the question. */
  function QueryHeader(id: Two): (h: bytes)
    ensures |h| == HEADER_SIZE
  {
    [id[0], id[1], 1, 0, 0, 1, 0, 0, 0, 0, 0, 0]
  }

  const IN_A: bytes := [0, 1, 0, 1]

  function Question(labels: seq<bytes>): bytes { Wire(labels, IN_A) }

  function Query(id: Two, labels: seq<bytes>): (q: bytes)
    ensures HEADER_SIZE < |q| && q[HEADER_SIZE..] == Question(labels)
    ensures forall i | 0 <= i < HEADER_SIZE :: q[i] == QueryHeader(id)[i]
  {
    QueryHeader(id) + Question(labels)
  }

  function Join(labels: seq<bytes>): bytes {
    if labels == [] then [] else if |labels| == 1 then labels[0] else labels[0] + [DOT] + Join(labels[1..])
  }

  function ToLowerCase(s: bytes): (r: bytes)
    ensures |r| == |s|
  {
    seq(|s|, i requires 0 <= i < |s| => Lower(s[i]))
  }

  const WWW: bytes := [119, 119, 119, 46]

  /** String::replace of "www." by nothing: every occurrence goes, wherever it stands. */
  function RemoveWww(s: bytes): bytes
    decreases |s|
  {
    if s == [] then [] else if WWW <= s then RemoveWww(s[4..]) else [s[0]] + RemoveWww(s[1..])
  }

  function Normalised(s: bytes): bytes { RemoveWww(ToLowerCase(s)) }

  /** The name the server reads out of a packet from the first length byte on; none if it runs off the end. */
  function Walk(s: bytes): Option<bytes>
    decreases |s|
  {
    if s == [] || |s| < s[0] as nat + 2 then None else
      var n := s[0] as nat + 1;
      if s[n] == 0 then Some(s[1..n])
      else
        var rest := Walk(s[n..]);
        if rest.None? then None else Some(s[1..n] + [DOT] + rest.value)
  }

  function ReadName(packet: bytes): Option<bytes> {
    if |packet| <= HEADER_SIZE then None
    else if packet[HEADER_SIZE] == 0 then Some([])
    else
      var r := Walk(packet[HEADER_SIZE..]);
      if r.None? then None else Some(Normalised(r.value))
  }

  datatype Config = Config(domainName: bytes, resolvedIp: Four, ttl: Four, errorReplyCode: byte)

  const STAR: bytes := [42]

  /** What the server does with a packet; reading past its end is left open. */
  datatype Served = Silent | Sent(reply: bytes) | Overrun

  predicate IsQuery(packet: bytes)
    requires HEADER_SIZE <= |packet|
  {
    packet[2] < 128
  }

  predicate IsPlainQuestion(p: bytes)
    requires HEADER_SIZE <= |p|
  {
    && IsQuery(p) && p[2] / 8 % 16 == 0
    && p[4] == 0 && p[5] == 1
    && p[6] == 0 && p[7] == 0 && p[8] == 0 && p[9] == 0 && p[10] == 0 && p[11] == 0
  }

  /** The answer record: a pointer to the question's name, an Internet address, its time to live and its bytes. */
  function Answer(c: Config): bytes { [192, 12] + IN_A + c.ttl + [0, 4] + c.resolvedIp }

  /** The reply that carries the address: the query marked as an answer, with one more record. */
  function AddressReply(c: Config, p: bytes): bytes
    requires HEADER_SIZE <= |p| && p[2] < 128
  {
    [p[0], p[1], p[2] + 128, p[3], p[4], p[5], p[4], p[5], p[8], p[9], p[10], p[11]] + p[HEADER_SIZE..] + Answer(c)
  }

  /** The reply that carries the error code: the header alone, without the question. */
  function ErrorReply(c: Config, p: bytes): bytes
    requires HEADER_SIZE <= |p| && p[2] < 128
  {
    [p[0], p[1], p[2] + 128, p[3] / 16 * 16 + c.errorReplyCode % 16, 0, 0, p[6], p[7], p[8], p[9], p[10], p[11]]
  }

  function Serve(c: Config, packet: bytes): Served {
    if packet == [] then Silent
    else if |packet| < HEADER_SIZE then Overrun
    else if !IsQuery(packet) then Silent
    else if !IsPlainQuestion(packet) then Sent(ErrorReply(c, packet))
    else if c.domainName == STAR then Sent(AddressReply(c, packet))
    else
      match ReadName(packet)
      case None => Overrun
      case Some(name) => Sent(if name == c.domainName then AddressReply(c, packet) else ErrorReply(c, packet))
  }

  /**
   * What the client makes of a packet. Undetermined: it reads a first length or a type past the end of the packet,
   * and goes on with whatever the variable held. Endless: its loop over the labels of a question never ends.
   */
  datatype Outcome = Success(address: Four) | Failed(code: nat) | Undetermined | Endless

  /** A return code as the unsigned 16 bits of the return type keep it. */
  function Code(n: int): nat { n % 0x10000 }

  const TIMED_OUT := -1

  /** What comes while the client waits: nothing in time, a packet from someone else, or the server's packet. */
  datatype Arrival = Nothing | Foreign | Reply(packet: bytes)

  /** Skipping the name of a question: labels up to an empty one. */
  function SkipLabels(s: bytes): (r: Option<bytes>)
    ensures r.Some? ==> |r.value| < |s|
    decreases |s|
  {
    if s == [] then None
    else if s[0] == 0 then Some(s[1..])
    else SkipLabels(Drop(s[1..], s[0] as nat))
  }

  /** Skipping the name of an answer: labels up to an empty one or a pointer. */
  function SkipAnswerName(s: bytes): (r: Option<bytes>)
    ensures r.Some? ==> |r.value| < |s|
    decreases |s|
  {
    if s == [] then None
    else if s[0] == 0 then Some(s[1..])
    else if s[0] < 64 then SkipAnswerName(Drop(s[1..], s[0] as nat))
    else Some(Drop(s[1..], 1))
  }

  /** What is left after the questions, or why there is nothing. */
  datatype Skipped = Rest(value: bytes) | Unset | Never

  /** Skipping questions. Past its first label, a name that is cut off is never skipped. */
  function SkipQuestions(s: bytes, count: nat): Skipped
    decreases count
  {
    if count == 0 then Rest(s)
    else if s == [] then Unset
    else
      var r := SkipLabels(s);
      if r.None? then Never else SkipQuestions(Drop(r.value, 4), count - 1)
  }

  /** One turn of the loop over a name's labels: a failed read leaves the length, and a skipped label makes it 255. */
  function Turn(len: byte, s: bytes): (byte, bytes) {
    var l := if s == [] then len else s[0];
    if l == 0 then (0, Drop(s, 1)) else (255, Drop(Drop(s, 1), l as nat))
  }

  /** The loop after `k` turns, or where it ended before. */
  function Turns(len: byte, s: bytes, k: nat): (byte, bytes)
    decreases k
  {
    if k == 0 || len == 0 then (len, s) else
      var (l, t) := Turn(len, s);
      Turns(l, t, k - 1)
  }

  /** The first address record among `count` answers. */
  function FindAddress(s: bytes, count: nat): (r: Outcome)
    ensures !r.Endless?
    decreases count
  {
    if count == 0 then Failed(Code(-10)) else
      var r := SkipAnswerName(s);
      if r.None? || |r.value| < 10 then Undetermined else
        var t := r.value;
        var length := Number(t[8], t[9]);
        if Number(t[0], t[1]) == 1 && Number(t[2], t[3]) == 1 then
          if length != 4 then Failed(Code(-9))
          else if |t| < 14 then Undetermined
          else Success(t[10..14])
        else FindAddress(Drop(t[10..], length), count - 1)
  }

  function Process(id: Two, p: bytes): Outcome {
    if |p| < HEADER_SIZE then Failed(Code(-3))
    else if p[0] != id[0] || p[1] != id[1] || p[2] < 128 then Failed(Code(-4))
    else if p[2] / 2 % 2 == 1 || p[3] % 16 != 0 then Failed(Code(-5))
    else if Number(p[6], p[7]) == 0 then Failed(Code(-6))
    else
      match SkipQuestions(p[HEADER_SIZE..], Number(p[4], p[5]))
      case Unset => Undetermined
      case Never => Endless
      case Rest(rest) => FindAddress(rest, Number(p[6], p[7]))
  }

  function Answered(id: Two, a: Arrival): Outcome {
    match a
    case Nothing => Failed(Code(TIMED_OUT))
    case Foreign => Failed(Code(-2))
    case Reply(packet) => Process(id, packet)
  }

  predicate Fits(labels: seq<bytes>) {
    forall l | l in labels :: 0 < |l| < 0x100
  }

  lemma {:induction false} LabelsAreLabels(name: bytes)
    ensures forall l | l in Labels(name) :: 0 < |l| && DOT !in l
    decreases |name|
  {
    var n := Run(name);
    if n < |name| {
      LabelsAreLabels(name[n + 1..]);
    }
  }

  lemma {:induction false} RunOf(l: bytes, rest: bytes)
    requires DOT !in l && (rest == [] || rest[0] == DOT)
    ensures Run(l + rest) == |l|
  {
    if l == [] {
      assert l + rest == rest;
    } else {
      RunOf(l[1..], rest);
      assert (l + rest)[0] == l[0] && (l + rest)[1..] == l[1..] + rest;
    }
  }

  /** Splitting a name at its dots undoes joining it. */
  lemma {:induction false} LabelsOfJoin(labels: seq<bytes>)
    requires forall l | l in labels :: 0 < |l| && DOT !in l
    ensures Labels(Join(labels)) == labels
    decreases labels
  {
    if labels == [] {
    } else {
      var l := labels[0];
      assert l in labels;
      if |labels| == 1 {
        RunOf(l, []);
        assert l + [] == l && labels == [l];
      } else {
        var rest := Join(labels[1..]);
        LabelsOfJoin(labels[1..]);
        RunOf(l, [DOT] + rest);
        assert l + [DOT] + rest == l + ([DOT] + rest);
        assert Join(labels)[..|l|] == l && Join(labels)[|l| + 1..] == rest;
      }
    }
  }

  lemma WalkStep(l: bytes, rest: bytes)
    requires 0 < |l| < 0x100 && rest != []
    ensures Walk([|l| as byte] + l + rest) ==
            if rest[0] == 0 then Some(l)
            else if Walk(rest).None? then None else Some(l + [DOT] + Walk(rest).value)
  {
    var s := [|l| as byte] + l + rest;
    assert s[1..|l| + 1] == l && s[|l| + 1..] == rest;
  }

  lemma WireCons(labels: seq<bytes>, t: bytes)
    requires labels != [] && |labels[0]| < 0x100
    ensures Wire(labels, t) == [|labels[0]| as byte] + labels[0] + Wire(labels[1..], t)
    ensures Wire(labels, t)[0] == |labels[0]| as byte
  {
  }

  /** The server reads back the labels the client wrote, joined by dots. */
  lemma {:induction false} WalkReadsLabels(labels: seq<bytes>, t: bytes)
    requires labels != [] && Fits(labels)
    ensures Walk(Wire(labels, t)) == Some(Join(labels))
    decreases labels
  {
    var l, tail := labels[0], labels[1..];
    assert l in labels;
    WireCons(labels, t);
    WalkStep(l, Wire(tail, t));
    if tail == [] {
      assert Wire(tail, t)[0] == 0;
    } else {
      assert tail[0] in labels;
      WireCons(tail, t);
      WalkReadsLabels(tail, t);
    }
  }

  /** The client skips the very name it wrote. */
  lemma {:induction false} SkipLabelsSkipsName(labels: seq<bytes>, t: bytes)
    requires Fits(labels)
    ensures SkipLabels(Wire(labels, t)) == Some(t)
    decreases labels
  {
    var s := Wire(labels, t);
    if labels == [] {
      assert s[1..] == t;
    } else {
      var l := labels[0];
      assert l in labels;
      WireCons(labels, t);
      assert s[1..][|l|..] == Wire(labels[1..], t);
      SkipLabelsSkipsName(labels[1..], t);
    }
  }

  /** The server finds in the query the name that was asked for. */
  lemma ReadsQueriedName(id: Two, labels: seq<bytes>)
    requires Fits(labels)
    ensures ReadName(Query(id, labels)) == Some(Normalised(Join(labels)))
  {
    var s := Question(labels);
    assert Query(id, labels)[HEADER_SIZE] == s[0];
    if labels == [] {
      assert s[0] == 0;
      assert Normalised([]) == [];
    } else {
      assert labels[0] in labels;
      assert s[0] == |labels[0]| as byte;
      WalkReadsLabels(labels, IN_A);
    }
  }

  lemma SkipsQuestion(labels: seq<bytes>, more: bytes)
    requires Fits(labels)
    ensures SkipQuestions(Question(labels) + more, 1) == Rest(more)
  {
    assert Question(labels) + more == Wire(labels, IN_A + more);
    SkipLabelsSkipsName(labels, IN_A + more);
    assert Drop(IN_A + more, 4) == more;
    assert SkipQuestions(more, 0) == Rest(more);
  }

  lemma FindsAnswer(c: Config)
    ensures FindAddress(Answer(c), 1) == Success(c.resolvedIp)
  {
    var s := Answer(c);
    var t := IN_A + c.ttl + [0, 4] + c.resolvedIp;
    assert s == [192, 12] + t;
    assert Drop(s[1..], 1) == t;
    assert t[8] == 0 && t[9] == 4 && t[10..14] == c.resolvedIp;
  }

  /** A reply to this request, with no error and one answer. */
  predicate IsAnswer(id: Two, r: bytes) {
    && HEADER_SIZE <= |r| && r[0] == id[0] && r[1] == id[1] && r[2] == 129 && r[3] == 0
    && Number(r[4], r[5]) == 1 && Number(r[6], r[7]) == 1
  }

  lemma HeaderOf(h: bytes, tail: bytes)
    requires |h| == HEADER_SIZE
    ensures (h + tail)[HEADER_SIZE..] == tail
    ensures forall i | 0 <= i < HEADER_SIZE :: (h + tail)[i] == h[i]
  {
  }

  lemma ReplyToQuery(c: Config, id: Two, labels: seq<bytes>)
    ensures Query(id, labels)[2] < 128
    ensures IsAnswer(id, AddressReply(c, Query(id, labels)))
    ensures AddressReply(c, Query(id, labels))[HEADER_SIZE..] == Question(labels) + Answer(c)
  {
    QueryIsPlain(id, labels);
    var h: bytes := [id[0], id[1], 129, 0, 0, 1, 0, 1, 0, 0, 0, 0];
    assert h + Question(labels) + Answer(c) == h + (Question(labels) + Answer(c));
    HeaderOf(h, Question(labels) + Answer(c));
  }

  lemma ProcessesAnswer(id: Two, r: bytes, questions: nat, answers: nat, rest: bytes)
    requires IsAnswer(id, r) && Number(r[4], r[5]) == questions && Number(r[6], r[7]) == answers
    requires SkipQuestions(r[HEADER_SIZE..], questions) == Rest(rest)
    ensures Process(id, r) == FindAddress(rest, answers)
  {
  }

  /** The client takes the address out of the server's reply. */
  lemma AddressArrives(c: Config, id: Two, labels: seq<bytes>)
    requires Fits(labels)
    ensures Query(id, labels)[2] < 128
    ensures Process(id, AddressReply(c, Query(id, labels))) == Success(c.resolvedIp)
  {
    ReplyToQuery(c, id, labels);
    SkipsQuestion(labels, Answer(c));
    ProcessesAnswer(id, AddressReply(c, Query(id, labels)), 1, 1, Answer(c));
    FindsAnswer(c);
  }

  lemma ErrorArrives(c: Config, id: Two, labels: seq<bytes>)
    ensures Process(id, ErrorReply(c, Query(id, labels))) == Failed(Code(if c.errorReplyCode % 16 == 0 then -6 else -5))
  {
    var q := Query(id, labels);
    QueryIsPlain(id, labels);
    var r := ErrorReply(c, q);
    assert r[2] == 129 && r[3] == c.errorReplyCode % 16 && r[6] == 0 && r[7] == 0;
  }

  lemma QueryIsPlain(id: Two, labels: seq<bytes>)
    ensures var q := Query(id, labels);
            && q[0] == id[0] && q[1] == id[1] && q[2] == 1 && q[3] == 0 && q[4] == 0 && q[5] == 1
            && q[6] == 0 && q[7] == 0 && q[8] == 0 && q[9] == 0 && q[10] == 0 && q[11] == 0
            && IsPlainQuestion(q)
  {
    var q, h := Query(id, labels), QueryHeader(id);
    assert q[0] == h[0] && q[1] == h[1] && q[2] == h[2] && q[3] == h[3] && q[4] == h[4] && q[5] == h[5];
    assert q[6] == h[6] && q[7] == h[7] && q[8] == h[8] && q[9] == h[9] && q[10] == h[10] && q[11] == h[11];
  }

  /**
   * The exchange: for every name whose labels fit a length byte, the client gets exactly the server's address
   * when the server answers for every name or for the normalised form of this one, and otherwise never an
   * address but the error the server's code stands for.
   */
  lemma Exchange(c: Config, id: Two, name: bytes)
    requires forall l | l in Labels(name) :: |l| < 0x100
    ensures var served := Serve(c, Query(id, Labels(name)));
            && served.Sent?
            && Process(id, served.reply) ==
               if c.domainName == STAR || Normalised(Join(Labels(name))) == c.domainName then Success(c.resolvedIp)
               else Failed(Code(if c.errorReplyCode % 16 == 0 then -6 else -5))
  {
    var labels := Labels(name);
    LabelsAreLabels(name);
    assert Fits(labels);
    ServesQuery(c, id, labels);
    AddressArrives(c, id, labels);
    ErrorArrives(c, id, labels);
  }

  lemma ServesQuery(c: Config, id: Two, labels: seq<bytes>)
    requires Fits(labels)
    ensures var q := Query(id, labels);
            Serve(c, q) == Sent(if c.domainName == STAR || Normalised(Join(labels)) == c.domainName
                                then AddressReply(c, q) else ErrorReply(c, q))
  {
    ReadsQueriedName(id, labels);
    QueryIsPlain(id, labels);
  }

  /** A name is skipped exactly if its end is there: wherever before that the packet is cut, it is not. */
  lemma {:induction false} CutName(labels: seq<bytes>, t: bytes, n: nat)
    requires Fits(labels) && n <= |Wire(labels, t)|
    ensures SkipLabels(Wire(labels, t)[..n]).None? <==> n <= |Name(labels)|
    decreases labels
  {
    var s := Wire(labels, t);
    if labels == [] {
    } else if n > 0 {
      var l, tail := labels[0], labels[1..];
      assert l in labels;
      WireCons(labels, t);
      CutLabel(l, Wire(tail, t), n);
      assert |Name(labels)| == 1 + |l| + |Name(tail)|;
      if 1 + |l| <= n {
        CutName(tail, t, n - 1 - |l|);
      }
    }
  }

  lemma CutLabel(l: bytes, rest: bytes, n: nat)
    requires 0 < |l| < 0x100 && 0 < n <= 1 + |l| + |rest|
    ensures SkipLabels(([|l| as byte] + l + rest)[..n]) ==
            if n < 1 + |l| then None else SkipLabels(rest[..n - 1 - |l|])
  {
    var s := ([|l| as byte] + l + rest)[..n];
    assert s[0] == |l| as byte;
    assert 1 + |l| <= n ==> Drop(s[1..], |l|) == rest[..n - 1 - |l|];
    assert n < 1 + |l| ==> Drop(s[1..], |l|) == [];
    assert SkipLabels([]) == None;
  }

  /** At the end of the packet with a length of 255, the loop stands still. */
  lemma {:induction false} StandsStill(k: nat)
    ensures Turns(255, [], k) == (255, [])
  {
    if k > 0 {
      StandsStill(k - 1);
    }
  }

  /** A name that is skipped is skipped after finitely many turns; any other keeps the loop turning for ever. */
  lemma {:induction false} SkippedOrNever(s: bytes)
    ensures SkipLabels(s).Some? ==> exists k: nat :: Turns(255, s, k) == (0, SkipLabels(s).value)
    ensures SkipLabels(s).None? ==> forall k: nat :: Turns(255, s, k).0 == 255
    decreases |s|
  {
    if s == [] {
      forall k: nat
        ensures Turns(255, s, k).0 == 255
      {
        StandsStill(k);
      }
    } else if s[0] == 0 {
      assert Drop(s, 1) == s[1..];
      assert Turns(0, s[1..], 0) == (0, s[1..]);
      assert Turns(255, s, 1) == (0, SkipLabels(s).value);
    } else {
      var t := Drop(s[1..], s[0] as nat);
      assert Turn(255, s) == (255, t);
      SkippedOrNever(t);
      if SkipLabels(t).Some? {
        var k: nat :| Turns(255, t, k) == (0, SkipLabels(t).value);
        assert Turns(255, s, k + 1) == (0, SkipLabels(s).value);
      } else {
        forall k: nat
          ensures Turns(255, s, k).0 == 255
        {
          assert k > 0 ==> Turns(255, s, k) == Turns(255, t, k - 1);
        }
      }
    }
  }

  /** A reply cut off inside its question's name hangs the client; cut off right before it, nothing is determined. */
  lemma CutReplyHangs(id: Two, r: bytes, labels: seq<bytes>, t: bytes, n: nat)
    requires IsAnswer(id, r) && Fits(labels) && n <= |Wire(labels, t)| && r[HEADER_SIZE..] == Wire(labels, t)[..n]
    ensures Process(id, r) == Endless <==> 0 < n <= |Name(labels)|
    ensures n == 0 ==> Process(id, r) == Undetermined
  {
    CutName(labels, t, n);
    var s := r[HEADER_SIZE..];
    OneQuestion(s, 1);
  }

  lemma OneQuestion(s: bytes, count: nat)
    requires count == 1
    ensures SkipQuestions(s, count) ==
            if s == [] then Unset else if SkipLabels(s).None? then Never else Rest(Drop(SkipLabels(s).value, 4))
  {
    if s != [] && SkipLabels(s).Some? {
      assert SkipQuestions(Drop(SkipLabels(s).value, 4), 0) == Rest(Drop(SkipLabels(s).value, 4));
    }
  }

  /** "www." stands at `i`. */
  predicate WwwAt(s: bytes, i: nat) { i + 4 <= |s| && s[i..i + 4] == WWW }

  lemma {:induction false} RemoveWwwShortens(s: bytes)
    ensures |RemoveWww(s)| <= |s|
    decreases |s|
  {
    if s != [] {
      RemoveWwwShortens(if WWW <= s then s[4..] else s[1..]);
    }
  }

  lemma WwwAtShifted(s: bytes, i: nat)
    requires s != []
    ensures WwwAt(s[1..], i) == WwwAt(s, i + 1)
  {
    var t, j := s[1..], i + 1;
    if i + 4 <= |t| {
      assert t[i..i + 4] == s[j..j + 4];
    }
  }

  lemma {:induction false} NothingRemoved(s: bytes)
    ensures RemoveWww(s) == s <==> forall i: nat | i < |s| :: !WwwAt(s, i)
    decreases |s|
  {
    if s == [] {
    } else if WWW <= s {
      RemoveWwwShortens(s[4..]);
      assert WwwAt(s, 0);
    } else {
      var t := s[1..];
      NothingRemoved(t);
      assert !WwwAt(s, 0);
      forall i: nat | i < |t|
        ensures WwwAt(t, i) == WwwAt(s, i + 1)
      {
        WwwAtShifted(s, i);
      }
      assert forall i: nat | 0 < i < |s| :: WwwAt(s, i) == WwwAt(t, i - 1);
      assert s == [s[0]] + t;
    }
  }

  /** The name without a "www." in front of it. */
  function WithoutPrefix(s: bytes): bytes { if WWW <= s then s[4..] else s }

  /** Normalising takes away just the prefix it is named for exactly if no further "www." occurs in what remains. */
  lemma OnlyPrefixRemoved(s: bytes)
    ensures var r := WithoutPrefix(s); RemoveWww(s) == r <==> forall i: nat | i < |r| :: !WwwAt(r, i)
  {
    NothingRemoved(WithoutPrefix(s));
  }

  lemma AcrossLabels(name: bytes)
    requires name == [97, 119, 119, 119, 46, 98]
    ensures Normalised(name) == [97, 98]
  {
    assert ToLowerCase(name) == name;
    var rest := name[1..];
    assert rest[..4] == WWW && rest[4..] == [98] && [98 as byte][1..] == [];
    assert RemoveWww([98]) == [98] + RemoveWww([]);
    assert RemoveWww([98]) == [98];
    assert WWW <= rest && RemoveWww(rest) == RemoveWww(rest[4..]) == [98];
    assert !(WWW <= name) by { assert name[0] == 97; }
    assert RemoveWww(name) == [name[0]] + RemoveWww(rest);
  }

  lemma TwoLabels(name: bytes)
    requires name == [97, 119, 119, 119, 46, 98]
    ensures Join(Labels(name)) == name && forall l | l in Labels(name) :: |l| < 0x100
  {
    var labels: seq<bytes> := [[97, 119, 119, 119], [98]];
    assert labels[1..] == [[98]];
    assert Join([[98]]) == [98];
    assert Join(labels) == name;
    LabelsOfJoin(labels);
  }

  /** A client that asks for "awww.b" gets the address of "ab". */
  lemma OtherNameServed(c: Config, id: Two, name: bytes)
    requires c.domainName == [97, 98] && name == [97, 119, 119, 119, 46, 98]
    ensures var served := Serve(c, Query(id, Labels(name)));
            served.Sent? && Process(id, served.reply) == Success(c.resolvedIp)
  {
    AcrossLabels(name);
    TwoLabels(name);
    Exchange(c, id, name);
  }

  lemma {:induction false} NameSnoc(labels: seq<bytes>, l: bytes)
    ensures Name(labels + [l]) == Name(labels) + [(|l| % 0x100) as byte] + l
  {
    if labels == [] {
      assert Name([l]) == [(|l| % 0x100) as byte] + l + Name([]);
    } else {
      NameSnoc(labels[1..], l);
      assert (labels + [l])[1..] == labels[1..] + [l];
    }
  }

  /** Where the scan for a dot stops is where the run ends. */
  lemma RunStops(s: bytes, n: nat)
    requires n <= |s| && DOT !in s[..n] && (n < |s| ==> s[n] == DOT)
    ensures Run(s) == n
  {
    RunOf(s[..n], s[n..]);
    assert s[..n] + s[n..] == s;
  }

  /** Of all labels, those before `start` are written. */
  predicate Splits(name: bytes, start: nat, all: seq<bytes>, done: seq<bytes>)
    requires start <= |name|
  {
    all == done + Labels(name[start..])
  }

  /** The same once a scan has stopped at `end`, where nothing is left if that is the end of the name. */
  predicate Remain(name: bytes, start: nat, end: nat, all: seq<bytes>, done: seq<bytes>) {
    if end < |name| then start <= |name| && Splits(name, start, all, done) else all == done
  }

  lemma AllRemain(name: bytes)
    ensures Remain(name, 0, 0, Labels(name), [])
  {
    assert name[0..] == name;
  }

  lemma LabelsUnfold(s: bytes, n: nat)
    requires n == Run(s)
    ensures Labels(s) == (if n > 0 then [s[..n]] else []) + if n < |s| then Labels(s[n + 1..]) else []
  {
  }

  lemma SplitsOn(all: seq<bytes>, done: seq<bytes>, first: seq<bytes>, rest: seq<bytes>)
    requires all == done + (first + rest)
    ensures all == done + first + rest
    ensures rest == [] ==> all == done + first
  {
  }

  /** One turn of the loop over the name: the label between `start` and `end`, if any, goes over. */
  lemma LabelsStep(name: bytes, start: nat, end: nat, all: seq<bytes>, done: seq<bytes>)
    requires start <= end <= |name| && DOT !in name[start..end] && (end < |name| ==> name[end] == DOT)
    requires Splits(name, start, all, done)
    ensures Remain(name, end + 1, end, all, done + if end > start then [name[start..end]] else [])
  {
    var s, n := name[start..], end - start;
    assert s[..n] == name[start..end];
    RunStops(s, n);
    LabelsUnfold(s, n);
    var rest := if n < |s| then Labels(s[n + 1..]) else [];
    SplitsOn(all, done, if n > 0 then [s[..n]] else [], rest);
    if end < |name| {
      assert s[n + 1..] == name[end + 1..];
    }
  }

  class DnsClient {
    var requestId: Two
    var sent: bytes
    var pending: bytes

    constructor ()
      ensures requestId == [0, 0] && sent == [] && pending == []
    {
      requestId, sent, pending := [0, 0], [], [];
    }

    method PutLabel(section: bytes)
      modifies this`sent
      ensures sent == old(sent) + [(|section| % 0x100) as byte] + section
    {
      sent := sent + [(|section| % 0x100) as byte];
      sent := sent + section;
    }

    /** The end of the label that starts at `start`: the next dot, or the end of the name. */
    method FindEnd(name: bytes, start: nat) returns (end: nat)
      requires start <= |name|
      ensures start <= end <= |name| && DOT !in name[start..end] && (end < |name| ==> name[end] == DOT)
    {
      end := start;
      while end < |name| && name[end] != DOT
        invariant start <= end <= |name| && DOT !in name[start..end]
      {
        assert name[start..end + 1] == name[start..end] + [name[end]];
        end := end + 1;
      }
    }

    /** Writes the section of a name between `start` and `end`, if it is not empty. */
    method PutSection(name: bytes, start: nat, end: nat, ghost before: bytes, ghost done: seq<bytes>)
      returns (ghost now: seq<bytes>)
      requires start <= end <= |name| && sent == before + Name(done)
      modifies this`sent
      ensures now == done + (if end > start then [name[start..end]] else []) && sent == before + Name(now)
    {
      now := done;
      if end - start > 0 {
        var section := name[start..end];
        PutLabel(section);
        NameSnoc(done, section);
        now := done + [section];
      }
    }

    /** One turn: the end of the section that starts at `start`, and the section written. */
    method PutNext(name: bytes, start: nat, ghost before: bytes, ghost all: seq<bytes>, ghost done: seq<bytes>)
      returns (end: nat, ghost now: seq<bytes>)
      requires start <= |name| && sent == before + Name(done) && Splits(name, start, all, done)
      modifies this`sent
      ensures start <= end <= |name| && sent == before + Name(now) && Remain(name, end + 1, end, all, now)
    {
      end := FindEnd(name, start);
      LabelsStep(name, start, end, all, done);
      now := PutSection(name, start, end, before, done);
    }

    /** Writes the labels of a name, each after its length; `end` runs ahead of `start`, past the dots. */
    method PutName(name: bytes)
      modifies this`sent
      ensures sent == old(sent) + Name(Labels(name))
    {
      var start, end := 0, 0;
      ghost var before, all, done: seq<bytes> := sent, Labels(name), [];
      AllRemain(name);
      while end < |name|
        invariant end <= |name| && (end < |name| ==> start <= |name|)
        invariant sent == before + Name(done)
        invariant Remain(name, start, end, all, done)
        decreases |name| + 1 - start
      {
        end, done := PutNext(name, start, before, all, done);
        start := end + 1;
      }
    }

    /** Writes the whole request. */
    method BuildRequest(id: Two, name: bytes)
      modifies this`requestId, this`sent
      ensures requestId == id && sent == old(sent) + Query(id, Labels(name))
    {
      requestId := id;
      ghost var before := sent;
      sent := sent + QueryHeader(id);
      PutName(name);
      sent := sent + [0];
      sent := sent + IN_A;
      QueryParts(before, id, Labels(name));
    }

    /** A byte is taken from the packet, if there is one. */
    method Read()
      modifies this`pending
      ensures pending == Drop(old(pending), 1)
    {
      if pending != [] {
        pending := pending[1..];
      }
    }

    /** The counted loop that skips a label: it tests its counter, then decrements it, then reads. */
    method SkipLabel(len: byte) returns (left: byte)
      modifies this`pending
      ensures left == 255 && pending == Drop(old(pending), len as nat)
    {
      left := len;
      ghost var before := pending;
      assert Drop(before, 0) == before;
      while true
        invariant left <= len && pending == Drop(before, len as nat - left as nat)
        decreases left
      {
        var more := left != 0;
        left := Decremented(left);
        if !more {
          break;
        }
        Read();
        DropOnce(before, len as nat - left as nat - 1);
      }
    }

    method Skip(n: nat)
      modifies this`pending
      ensures pending == Drop(old(pending), n)
    {
      ghost var before := pending;
      assert Drop(before, 0) == before;
      for i := 0 to n
        invariant pending == Drop(before, i)
      {
        Read();
        DropOnce(before, i);
      }
    }

    /** Skips the name in a question; false when a length would be read past the end of the packet. */
    method SkipQuestionName() returns (ok: bool)
      modifies this`pending
      ensures SkipLabels(old(pending)) == if ok then Some(pending) else None
    {
      var len: byte := 255;
      while len != 0
        invariant SkipLabels(old(pending)) == if len == 0 then Some(pending) else SkipLabels(pending)
        decreases |pending|, len
      {
        if pending == [] {
          return false;
        }
        len := pending[0];
        pending := pending[1..];
        if len > 0 {
          len := SkipLabel(len);
        }
      }
      ok := true;
    }

    /** The loop over the questions; a name that would keep its own loop turning for ever is reported. */
    method SkipAllQuestions(count: nat) returns (r: Skipped)
      modifies this`pending
      ensures r == SkipQuestions(old(pending), count) && (r.Rest? ==> pending == r.value)
    {
      for i := 0 to count
        invariant SkipQuestions(old(pending), count) == SkipQuestions(pending, count - i)
      {
        if pending == [] {
          return Unset;
        }
        var found := SkipQuestionName();
        if !found {
          return Never;
        }
        Skip(4);
      }
      r := Rest(pending);
    }

    /** Skips the name of an answer: labels, or a pointer. */
    method SkipName() returns (ok: bool)
      modifies this`pending
      ensures SkipAnswerName(old(pending)) == if ok then Some(pending) else None
    {
      var len: byte := 255;
      while len != 0
        invariant SkipAnswerName(old(pending)) == if len == 0 then Some(pending) else SkipAnswerName(pending)
        decreases |pending|, len
      {
        if pending == [] {
          return false;
        }
        len := pending[0];
        pending := pending[1..];
        if len < 64 {
          if len > 0 {
            len := SkipLabel(len);
          }
        } else {
          Read();
          len := 0;
        }
      }
      ok := true;
    }

    /** Goes through the answers to the first address. */
    method FindAnswer(count: nat) returns (r: Outcome)
      modifies this`pending
      ensures r == FindAddress(old(pending), count)
    {
      for i := 0 to count
        invariant FindAddress(old(pending), count) == FindAddress(pending, count - i)
      {
        var found := SkipName();
        if !found || |pending| < 10 {
          return Undetermined;
        }
        var fields := pending[..10];
        pending := pending[10..];
        var length := Number(fields[8], fields[9]);
        if Number(fields[0], fields[1]) == 1 && Number(fields[2], fields[3]) == 1 {
          if length != 4 {
            return Failed(Code(-9));
          } else if |pending| < 4 {
            return Undetermined;
          }
          return Success(pending[..4]);
        }
        Skip(length);
      }
      r := Failed(Code(-10));
    }

    /** Takes the reply apart. */
    method ProcessResponse(arrival: Arrival) returns (r: Outcome)
      modifies this`pending
      ensures r == Answered(requestId, arrival)
    {
      if arrival.Nothing? {
        return Failed(Code(TIMED_OUT));
      } else if arrival.Foreign? {
        return Failed(Code(-2));
      } else if |arrival.packet| < HEADER_SIZE {
        return Failed(Code(-3));
      }
      var header := arrival.packet[..HEADER_SIZE];
      pending := arrival.packet[HEADER_SIZE..];
      if header[0] != requestId[0] || header[1] != requestId[1] || header[2] < 128 {
        return Failed(Code(-4));
      } else if header[2] / 2 % 2 == 1 || header[3] % 16 != 0 {
        return Failed(Code(-5));
      } else if Number(header[6], header[7]) == 0 {
        return Failed(Code(-6));
      }
      var questions := SkipAllQuestions(Number(header[4], header[5]));
      if questions.Unset? {
        return Undetermined;
      } else if questions.Never? {
        return Endless;
      }
      r := FindAnswer(Number(header[6], header[7]));
    }

    /**
     * The wait for the reply, meant to try three times. The code for a time-out comes back as 65535 and never equals
     * the -1 it is compared with, so one arrival settles the call, a time-out too.
     */
    method AwaitResponse(arrivals: seq<Arrival>) returns (r: Outcome, tries: nat)
      requires |arrivals| == 3
      modifies this`pending
      ensures tries == 1 && r == Answered(requestId, arrivals[0])
    {
      r, tries := Failed(0), 0;
      var timedOut := true;
      while tries < 3 && timedOut
        invariant tries <= 1 && timedOut == (tries == 0)
        invariant tries == 1 ==> r == Answered(requestId, arrivals[0])
      {
        r := ProcessResponse(arrivals[tries]);
        timedOut := r.Failed? && r.code == TIMED_OUT;
        tries := tries + 1;
      }
    }
  }

  lemma QueryParts(before: bytes, id: Two, labels: seq<bytes>)
    ensures before + QueryHeader(id) + Name(labels) + [0] + IN_A == before + Query(id, labels)
  {
  }

  /** An 8-bit counter less one: from zero it wraps. */
  function Decremented(b: byte): byte { ((b as int - 1) % 0x100) as byte }

  lemma DropOnce(s: bytes, n: nat)
    ensures Drop(Drop(s, n), 1) == Drop(s, n + 1)
  {
  }

  class DnsServer {
    var domainName: bytes
    var resolvedIp: Four
    var ttl: Four
    var errorReplyCode: byte
    var buffer: array<byte>
    var sent: seq<bytes>

    function Settings(): Config
      reads this
    {
      Config(domainName, resolvedIp, ttl, errorReplyCode)
    }

    /** Names are answered with code 3, no such name, until another is set; addresses are kept for a minute. */
    constructor (domain: bytes, address: Four)
      ensures Settings() == Config(Normalised(domain), address, [0, 0, 0, 60], 3) && sent == []
      ensures fresh(buffer)
    {
      domainName, resolvedIp, ttl, errorReplyCode := Normalised(domain), address, [0, 0, 0, 60], 3;
      buffer := new byte[0];
      sent := [];
    }

    predicate OneQuestion()
      requires HEADER_SIZE <= buffer.Length
      reads this, buffer
    {
      && buffer[4] == 0 && buffer[5] == 1
      && buffer[6] == 0 && buffer[7] == 0 && buffer[8] == 0 && buffer[9] == 0 && buffer[10] == 0 && buffer[11] == 0
    }

    /** Appends the label behind the length byte at `at`; none if the packet ends before the byte after it. */
    method AppendLabel(at: nat, name: bytes) returns (r: Option<bytes>)
      requires at < buffer.Length
      ensures r == var n := buffer[at] as nat;
                   if at + n + 1 < buffer.Length then Some(name + buffer[at + 1..at + n + 1]) else None
    {
      var parsed, pos := name, at;
      var labelLength := buffer[at];
      for i := 0 to labelLength as nat
        invariant pos == at + i < buffer.Length && parsed == name + buffer[at + 1..pos + 1]
      {
        pos := pos + 1;
        if pos == buffer.Length {
          return None;
        }
        parsed := parsed + [buffer[pos]];
      }
      return if pos + 1 < buffer.Length then Some(parsed) else None;
    }

    /** Reads the name out of the packet, label by label, a dot between two. */
    method GetDomainName() returns (r: Option<bytes>)
      requires HEADER_SIZE <= buffer.Length
      ensures r == ReadName(buffer[..])
    {
      if buffer.Length == HEADER_SIZE {
        return None;
      } else if buffer[HEADER_SIZE] == 0 {
        return Some([]);
      }
      var parsed, pos := [], HEADER_SIZE;
      ghost var whole := Walk(buffer[HEADER_SIZE..]);
      assert whole.Some? ==> [] + whole.value == whole.value;
      while true
        invariant HEADER_SIZE <= pos < buffer.Length
        invariant whole == Prefixed(parsed, Walk(buffer[pos..]))
        decreases buffer.Length - pos
      {
        var next := AppendLabel(pos, parsed);
        WalkUnfolds(buffer[..], pos, parsed);
        if next.None? {
          return None;
        }
        pos := pos + buffer[pos] as nat + 1;
        if buffer[pos] == 0 {
          return Some(Normalised(next.value));
        }
        parsed := next.value + [DOT];
      }
    }

    method ReplyWithIp()
      requires HEADER_SIZE <= buffer.Length && buffer[2] < 128
      modifies this`sent, buffer
      ensures sent == old(sent) + [AddressReply(Settings(), old(buffer[..]))]
    {
      buffer[2] := buffer[2] + 128;
      buffer[6], buffer[7] := buffer[4], buffer[5];
      var reply := buffer[..];
      reply := reply + [192, 12];
      reply := reply + IN_A;
      reply := reply + ttl;
      reply := reply + [0, 4];
      reply := reply + resolvedIp;
      AddressReplyParts(Settings(), old(buffer[..]), buffer[..]);
      sent := sent + [reply];
    }

    method ReplyWithCustomCode()
      requires HEADER_SIZE <= buffer.Length && buffer[2] < 128
      modifies this`sent, buffer
      ensures sent == old(sent) + [ErrorReply(Settings(), old(buffer[..]))]
    {
      buffer[2] := buffer[2] + 128;
      buffer[3] := buffer[3] / 16 * 16 + errorReplyCode % 16;
      buffer[4], buffer[5] := 0, 0;
      assert buffer[..HEADER_SIZE] == ErrorReply(Settings(), old(buffer[..]));
      sent := sent + [buffer[..HEADER_SIZE]];
    }

    /** One request: what is sent, or that the code reads past the end of the packet. */
    method ProcessNextRequest(packet: bytes) returns (served: Served)
      modifies this`sent, this`buffer
      ensures Settings() == old(Settings())
      ensures served == Serve(Settings(), packet)
      ensures sent == old(sent) + if served.Sent? then [served.reply] else []
    {
      if packet == [] {
        return Silent;
      } else if |packet| < HEADER_SIZE {
        return Overrun;
      }
      buffer := new byte[|packet|](i requires 0 <= i < |packet| => packet[i]);
      assert buffer[..] == packet;
      if buffer[2] >= 128 {
        return Silent;
      }
      var asked := false;
      if buffer[2] / 8 % 16 == 0 && OneQuestion() {
        if domainName == STAR {
          asked := true;
        } else {
          var name := GetDomainName();
          if name.None? {
            return Overrun;
          }
          asked := name.value == domainName;
        }
      }
      if asked {
        ReplyWithIp();
      } else {
        ReplyWithCustomCode();
      }
      served := Sent(sent[|sent| - 1]);
    }
  }

  /** A walk that found the rest of a name, with what was read before it. */
  function Prefixed(parsed: bytes, rest: Option<bytes>): Option<bytes> {
    if rest.None? then None else Some(parsed + rest.value)
  }

  lemma WalkUnfolds(p: bytes, pos: nat, parsed: bytes)
    requires pos < |p|
    ensures var next := pos + p[pos] as nat + 1;
            Prefixed(parsed, Walk(p[pos..])) ==
            if next >= |p| then None
            else if p[next] == 0 then Some(parsed + p[pos + 1..next])
            else Prefixed(parsed + p[pos + 1..next] + [DOT], Walk(p[next..]))
  {
    var s := p[pos..];
    var n := s[0] as nat + 1;
    if n < |s| {
      var section, rest := p[pos + 1..pos + n], Walk(p[pos + n..]);
      assert s[1..n] == section && s[n..] == p[pos + n..];
      assert rest.Some? ==> parsed + (section + [DOT] + rest.value) == parsed + section + [DOT] + rest.value;
      assert parsed + section + [DOT] == parsed + (section + [DOT]);
    }
  }

  lemma AddressReplyParts(c: Config, p: bytes, edited: bytes)
    requires HEADER_SIZE <= |p| == |edited| && p[2] < 128
    requires forall i | 0 <= i < |p| :: edited[i] == if i == 2 then p[2] + 128 else if i == 6 then p[4]
                                                     else if i == 7 then p[5] else p[i]
    ensures edited + [192, 12] + IN_A + c.ttl + [0, 4] + c.resolvedIp == AddressReply(c, p)
  {
    assert edited[HEADER_SIZE..] == p[HEADER_SIZE..];
    assert edited == [p[0], p[1], p[2] + 128, p[3], p[4], p[5], p[4], p[5], p[8], p[9], p[10], p[11]]
                     + p[HEADER_SIZE..];
  }
}
