/**
 * Publishing and receiving a message with the Adafruit MQTT client: the packets of sections 2.2.3, 3.3 and 3.4 of
 * MQTT 3.1.1.
 */
module Mqtt {
  import opened Bytes
  import opened Division
  import opened Wrappers

  const BUFFER_SIZE: nat := 150
  const DATA_SIZE: nat := 100
  const PUBLISH: byte := 3
  const PUBACK: byte := 4

  /** A topic, short enough that what follows it in a packet starts inside the buffer. */
  type Topic = t: bytes | |t| + 6 <= BUFFER_SIZE && 0 !in t witness []

  type Qos = q: byte | q <= 2

  function HighLow(n: Word): bytes { [(n / 0x100) as byte, (n % 0x100) as byte] }

  lemma ValueOfWord(n: Word)
    ensures Number(HighLow(n)[0], HighLow(n)[1]) == n
  {
  }

  /** A remaining length, seven bits a byte, the top bit set while more follow. */
  function Encode(len: nat): (e: bytes)
    ensures 1 <= |e|
  {
    if len < 128 then [len as byte] else [(len % 128 + 128) as byte] + Encode(len / 128)
  }

  /** A remaining length after its first byte. */
  function Rest(len: nat): bytes { if len < 128 then [] else Encode(len / 128) }

  /** A remaining length as it is read: it ends, the bytes run out, or a fourth byte comes. */
  datatype Length = Value(value: nat, used: nat) | Cut | Malformed

  /** The length after `k` of its bytes. */
  function Decode(s: bytes, k: nat): (r: Length)
    requires k <= 3
    ensures r.Value? ==> 1 <= r.used <= |s| && r.used + k <= 3
    ensures r.Cut? ==> |s| + k < 4
    ensures r.Malformed? ==> 4 <= |s| + k
    decreases 3 - k
  {
    if s == [] then Cut
    else if k == 3 then Malformed
    else if s[0] < 128 then Length.Value(s[0] as nat, 1)
    else
      match Decode(s[1..], k + 1)
      case Value(v, n) => Length.Value(s[0] as nat - 128 + 128 * v, n + 1)
      case other => other
  }

  /** The least length that does not fit the bytes left after `k`. */
  function Bound(k: nat): nat
    requires k <= 3
  {
    if k == 0 then 0x200000 else if k == 1 then 0x4000 else if k == 2 then 128 else 0
  }

  /** Reading undoes writing for lengths of up to three bytes; the fourth that the standard allows is refused. */
  lemma {:induction false} DecodeInverts(len: nat, k: nat, more: bytes)
    requires k <= 3
    ensures Decode(Encode(len) + more, k) == if len < Bound(k) then Length.Value(len, |Encode(len)|) else Malformed
    decreases len
  {
    var s := Encode(len) + more;
    if len < 128 || k == 3 {
    } else {
      DecodeInverts(len / 128, k + 1, more);
      assert s[0] == (len % 128 + 128) as byte && s[1..] == Encode(len / 128) + more;
      assert len == len % 128 + 128 * (len / 128);
    }
  }

  function Remaining(topic: bytes, data: bytes, qos: Qos): nat {
    2 + |topic| + (if qos > 0 then 2 else 0) + |data|
  }

  /** A message to publish: topic and payload, the whole short enough for 16-bit lengths. */
  predicate Sendable(topic: bytes, data: bytes, qos: Qos) {
    Remaining(topic, data, qos) < 0x10000
  }

  function FirstByte(qos: Qos): byte { 16 * PUBLISH + 2 * qos }

  /** What a message is after the fixed header. */
  function Content(topic: bytes, data: bytes, qos: Qos, id: Word): (c: bytes)
    requires Sendable(topic, data, qos)
    ensures |c| == Remaining(topic, data, qos)
  {
    HighLow(|topic|) + topic + (if qos > 0 then HighLow(id) else []) + data
  }

  /** The packet that publishes `data` under `topic`. */
  function Publish(topic: bytes, data: bytes, qos: Qos, id: Word): bytes
    requires Sendable(topic, data, qos)
  {
    [FirstByte(qos)] + Encode(Remaining(topic, data, qos)) + Content(topic, data, qos, id)
  }

  /** How long that packet is, for any message. */
  function PacketSize(topic: bytes, data: bytes, qos: Qos): nat {
    var n := Remaining(topic, data, qos);
    1 + |Encode(n)| + n
  }

  /** How publishing a message ends. TooLong: the packet is built past the end of the buffer. */
  datatype Published = Success | Failure | TooLong

  function Puback(id: Word): bytes { [16 * PUBACK, 2] + HighLow(id) }

  /** What reading a packet takes from the stream, and whether it gives a packet. */
  datatype Fetched = Fetched(taken: nat, complete: bool)

  function Fetch(stream: bytes): (f: Fetched)
    ensures f.taken <= |stream| && f.taken < BUFFER_SIZE
  {
    if stream == [] then Fetched(0, false)
    else
      match Decode(stream[1..], 0)
      case Cut => Fetched(|stream|, false)
      case Malformed => Fetched(5, false)
      case Value(v, n) =>
        Fetched(1 + n + Min(Min(v, BUFFER_SIZE - 1 - n - 1), |stream| - 1 - n), true)
  }

  type Buffer = b: bytes | |b| == BUFFER_SIZE witness seq(BUFFER_SIZE, _ => 0)

  /** The buffer once the bytes taken from the stream are in it. */
  function Filled(buffer: Buffer, stream: bytes): Buffer {
    stream[..Fetch(stream).taken] + buffer[Fetch(stream).taken..]
  }

  predicate Alike(s: bytes, t: bytes) {
    |s| == |t| && forall i | 0 <= i < |s| :: Lower(s[i]) == Lower(t[i])
  }

  /** The first slot from `i` on whose topic is `heard` ignoring case. */
  function First(topics: seq<Option<Topic>>, heard: bytes, i: nat): (r: nat)
    requires i <= |topics|
    ensures i <= r <= |topics|
    ensures r < |topics| ==> topics[r].Some? && Alike(heard, topics[r].value)
    ensures forall j | i <= j < r :: topics[j].None? || !Alike(heard, topics[j].value)
    decreases |topics| - i
  {
    if i == |topics| || (topics[i].Some? && Alike(heard, topics[i].value)) then i else First(topics, heard, i + 1)
  }

  /** The topic as it is looked for: the length is always taken from the fourth byte. */
  function Heard(b: Buffer): bytes {
    b[4..Min(4 + b[3] as nat, BUFFER_SIZE)]
  }

  /** What a received message leads to: the slot, what is kept there and what is sent back. */
  datatype Delivery = Nowhere | Overrun | Delivered(slot: nat, kept: bytes, ack: bytes)

  /** How much of a payload is kept. */
  function Kept(n: nat): nat { if n > DATA_SIZE then DATA_SIZE - 1 else n }

  /** What is made of a packet of `len` bytes in the buffer. */
  function Deliver(b: Buffer, len: nat, topics: seq<Option<Topic>>): Delivery
    requires len < BUFFER_SIZE
  {
    var i := First(topics, Heard(b), 0);
    if i == |topics| then Nowhere else Keep(b, len, i, 4 + |topics[i].value|)
  }

  /** The message after its topic goes to slot `i`. Overrun: it is copied from past the end of the buffer. */
  function Keep(b: Buffer, len: nat, i: nat, topicEnd: nat): Delivery
    requires len < BUFFER_SIZE && topicEnd + 2 <= BUFFER_SIZE
  {
    var acked := b[0] / 2 % 4 == 1;
    var start := topicEnd + if acked then 2 else 0;
    var n := Kept((len - start) % 0x10000);
    if BUFFER_SIZE < start + n then Overrun
    else Delivered(i, b[start..start + n], if acked then Puback(Number(b[topicEnd], b[topicEnd + 1])) else [])
  }

  /** Whether the stream starts with the acknowledgement of packet `id`. */
  predicate Acknowledges(stream: bytes, id: Word) {
    var f := Fetch(stream);
    f.complete && f.taken == 4 && stream[0] / 16 == PUBACK && Number(stream[2], stream[3]) == id
  }

  /** How many bytes a 16-bit length takes. */
  function LengthSize(n: Word): nat { if n < 128 then 1 else if n < 0x4000 then 2 else 3 }

  lemma EncodeSize(n: Word)
    ensures |Encode(n)| == LengthSize(n)
    ensures 0x4000 <= n ==> 1 <= Encode(n)[2] <= 3
  {
    if 0x4000 <= n {
      assert Encode(n)[2] == Encode(n / 128)[1] == Encode(n / 128 / 128)[0];
    }
  }

  /** What a client fetches when a published packet comes first: all of it, or as much as the buffer takes. */
  lemma FetchesPublished(topic: bytes, data: bytes, qos: Qos, id: Word, more: bytes)
    requires Sendable(topic, data, qos)
    ensures var r, u := Remaining(topic, data, qos), LengthSize(Remaining(topic, data, qos));
            Fetch(Publish(topic, data, qos, id) + more) == Fetched(1 + u + Min(r, BUFFER_SIZE - 2 - u), true)
  {
    var r := Remaining(topic, data, qos);
    var rest := Content(topic, data, qos, id) + more;
    EncodeSize(r);
    DecodeInverts(r, 0, rest);
    assert (Publish(topic, data, qos, id) + more)[1..] == Encode(r) + rest;
  }

  /** A short packet in the buffer: where its parts lie. */
  lemma ShortInBuffer(b: Buffer, topic: bytes, data: bytes, qos: Qos, id: Word, more: bytes)
    requires Remaining(topic, data, qos) < 128
    ensures var f := Filled(b, Publish(topic, data, qos, id) + more);
            var start := 4 + |topic| + if qos > 0 then 2 else 0;
            && f[0] == FirstByte(qos) && f[3] == |topic| as byte && f[4..4 + |topic|] == topic
            && (qos > 0 ==> f[4 + |topic|..start] == HighLow(id))
            && f[start..start + |data|] == data
  {
    var r := Remaining(topic, data, qos);
    var p := Publish(topic, data, qos, id);
    FetchesPublished(topic, data, qos, id, more);
    var f := Filled(b, p + more);
    assert f == p + b[|p|..];
    var ids := if qos > 0 then HighLow(id) else [];
    assert p == [FirstByte(qos), r as byte, 0, |topic| as byte] + topic + ids + data;
    SlicesOf([FirstByte(qos), r as byte, 0, |topic| as byte], topic, ids, data, b[|p|..]);
  }

  lemma SlicesOf(head: bytes, a: bytes, b: bytes, c: bytes, tail: bytes)
    ensures var s := head + a + b + c + tail;
            var i := |head| + |a|;
            && s[..|head|] == head && s[|head|..i] == a && s[i..i + |b|] == b && s[i + |b|..i + |b| + |c|] == c
  {
  }

  /** A long packet in the buffer: the fourth byte is the high half of the topic's length, or comes before it. */
  lemma LongInBuffer(b: Buffer, topic: bytes, data: bytes, qos: Qos, id: Word, more: bytes)
    requires Sendable(topic, data, qos) && 128 <= Remaining(topic, data, qos) && |topic| < 0x100
    ensures var f := Filled(b, Publish(topic, data, qos, id) + more);
            f[3] == 0 || (f[3] <= 3 && f[4] == 0)
  {
    var e := Encode(Remaining(topic, data, qos));
    var p := Publish(topic, data, qos, id);
    EncodeSize(Remaining(topic, data, qos));
    FetchesPublished(topic, data, qos, id, more);
    var f := Filled(b, p + more);
    assert forall i | 0 <= i < 5 :: f[i] == p[i];
    assert Content(topic, data, qos, id)[0] == 0;
    assert p[1 + |e|] == 0;
    assert |e| == 3 ==> p[3] == e[2];
  }

  /** An empty topic, or one that starts with a zero byte, finds no slot with a topic in it. */
  lemma NothingHeard(topics: seq<Option<Topic>>, heard: bytes)
    requires heard == [] || heard[0] == 0
    ensures var i := First(topics, heard, 0); i < |topics| ==> topics[i].value == []
  {
    var i := First(topics, heard, 0);
    if i < |topics| && topics[i].value != [] {
      assert Lower(heard[0]) == Lower(topics[i].value[0]);
      assert topics[i].value[0] in topics[i].value;
    }
  }

  /**
   * A message published by one client and read by another that has a slot for its topic: it reaches that slot
   * exactly if its remaining length fits one byte. It is then kept whole up to 100 bytes, else its first 99, and
   * acknowledged with the sender's packet id when its quality of service is 1. (At 2, which the reader does not
   * support, the packet id is taken for the start of the payload.)
   */
  lemma ArrivesExactly(b: Buffer, topics: seq<Option<Topic>>, topic: bytes, data: bytes, qos: Qos, id: Word,
                       more: bytes)
    requires Sendable(topic, data, qos) && topic != [] && First(topics, topic, 0) < |topics|
    ensures var stream := Publish(topic, data, qos, id) + more;
            var d := Deliver(Filled(b, stream), Fetch(stream).taken, topics);
            var payload := (if qos == 2 then HighLow(id) else []) + data;
            && (d.Delivered? && d.slot == First(topics, topic, 0) <==> Remaining(topic, data, qos) < 128)
            && (Remaining(topic, data, qos) < 128 ==>
                  && d.kept == payload[..Kept(|payload|)] && d.ack == (if qos == 1 then Puback(id) else []))
  {
    if Remaining(topic, data, qos) < 128 {
      ShortArrives(b, topics, topic, data, qos, id, more);
    } else {
      var i := First(topics, topic, 0);
      assert |topics[i].value| == |topic|;
      LongInBuffer(b, topic, data, qos, id, more);
      var f := Filled(b, Publish(topic, data, qos, id) + more);
      NothingHeard(topics, Heard(f));
    }
  }

  lemma ShortArrives(b: Buffer, topics: seq<Option<Topic>>, topic: bytes, data: bytes, qos: Qos, id: Word,
                     more: bytes)
    requires Remaining(topic, data, qos) < 128 && First(topics, topic, 0) < |topics|
    ensures var stream := Publish(topic, data, qos, id) + more;
            var payload := (if qos == 2 then HighLow(id) else []) + data;
            Deliver(Filled(b, stream), Fetch(stream).taken, topics) ==
            Delivered(First(topics, topic, 0), payload[..Kept(|payload|)], if qos == 1 then Puback(id) else [])
  {
    ShortInBuffer(b, topic, data, qos, id, more);
    FetchesPublished(topic, data, qos, id, more);
    DeliversShort(Filled(b, Publish(topic, data, qos, id) + more), topics, topic, data, qos, id);
  }

  lemma QosBits(qos: Qos)
    ensures FirstByte(qos) / 2 % 4 == qos
  {
  }

  lemma DeliversShort(f: Buffer, topics: seq<Option<Topic>>, topic: bytes, data: bytes, qos: Qos, id: Word)
    requires Remaining(topic, data, qos) < 128 && First(topics, topic, 0) < |topics|
    requires var start := 4 + |topic| + if qos > 0 then 2 else 0;
             && f[0] == FirstByte(qos) && f[3] == |topic| as byte && f[4..4 + |topic|] == topic
             && (qos > 0 ==> f[4 + |topic|..start] == HighLow(id))
             && f[start..start + |data|] == data
    ensures var payload := (if qos == 2 then HighLow(id) else []) + data;
            Deliver(f, Remaining(topic, data, qos) + 2, topics) ==
            Delivered(First(topics, topic, 0), payload[..Kept(|payload|)], if qos == 1 then Puback(id) else [])
  {
    QosBits(qos);
    var topicEnd := 4 + |topic|;
    if qos == 0 {
      assert [] + data == data;
      DeliversTo(f, topics, topic, topicEnd, data, []);
    } else if qos == 1 {
      ValueOfWord(id);
      assert f[topicEnd] == HighLow(id)[0] && f[topicEnd + 1] == HighLow(id)[1];
      assert [] + data == data;
      DeliversTo(f, topics, topic, topicEnd + 2, data, Puback(id));
    } else {
      assert f[topicEnd..topicEnd + 2 + |data|] == HighLow(id) + data;
      DeliversTo(f, topics, topic, topicEnd, HighLow(id) + data, []);
    }
  }

  lemma DeliversTo(f: Buffer, topics: seq<Option<Topic>>, topic: bytes, start: nat, payload: bytes, ack: bytes)
    requires First(topics, topic, 0) < |topics| && f[3] as nat == |topic| && 6 + |topic| <= BUFFER_SIZE
    requires f[4..4 + |topic|] == topic
    requires start + |payload| < BUFFER_SIZE && f[start..start + |payload|] == payload
    requires if f[0] / 2 % 4 == 1 then start == 6 + |topic| && ack == Puback(Number(f[start - 2], f[start - 1]))
             else start == 4 + |topic| && ack == []
    ensures Deliver(f, start + |payload|, topics) ==
            Delivered(First(topics, topic, 0), payload[..Kept(|payload|)], ack)
  {
    assert Heard(f) == topic;
    KeepsPayload(f, First(topics, topic, 0), 4 + |topic|, start, payload, ack);
  }

  lemma KeepsPayload(f: Buffer, i: nat, topicEnd: nat, start: nat, payload: bytes, ack: bytes)
    requires topicEnd + 2 <= BUFFER_SIZE
    requires start + |payload| < BUFFER_SIZE && f[start..start + |payload|] == payload
    requires if f[0] / 2 % 4 == 1 then start == topicEnd + 2 && ack == Puback(Number(f[topicEnd], f[topicEnd + 1]))
             else start == topicEnd && ack == []
    ensures Keep(f, start + |payload|, i, topicEnd) == Delivered(i, payload[..Kept(|payload|)], ack)
  {
    assert f[start..start + |payload|][..Kept(|payload|)] == f[start..start + Kept(|payload|)];
  }

  /** The sender accepts an acknowledgement exactly if it carries the id of the packet just published. */
  lemma AckAccepted(acked: Word, id: Word, more: bytes)
    ensures Acknowledges(Puback(acked) + more, id) <==> acked == id
  {
    var s := Puback(acked) + more;
    ValueOfWord(acked);
    assert Decode(s[1..], 0) == Length.Value(2, 1);
    assert s[2] == HighLow(acked)[0] && s[3] == HighLow(acked)[1];
  }

  /** What the length decoder has so far: `value` from `k` bytes, whose successor counts `multiplier` times. */
  predicate Decoding(whole: Length, rest: Length, value: nat, multiplier: nat, k: nat) {
    whole == if rest.Value? then Length.Value(value + multiplier * rest.value, k + rest.used) else rest
  }

  function Power(k: nat): nat
    requires k <= 4
  {
    if k == 0 then 1 else if k == 1 then 0x80 else if k == 2 then 0x4000 else if k == 3 then 0x200000 else 0x10000000
  }

  /** The decoder's value with one more byte. */
  function Weighed(value: nat, b: byte, multiplier: nat): nat { value + (b % 128) as nat * multiplier }

  /** One more byte of the length. */
  lemma DecodingStep(whole: Length, s: bytes, value: nat, k: nat)
    requires k <= 3 && s != [] && Decoding(whole, Decode(s, k), value, Power(k), k)
    ensures var next := Weighed(value, s[0], Power(k));
            if k == 3 then whole == Malformed
            else if s[0] < 128 then whole == Length.Value(next, k + 1)
            else Decoding(whole, Decode(s[1..], k + 1), next, Power(k + 1), k + 1)
  {
    if 128 <= s[0] && k < 3 && Decode(s[1..], k + 1).Value? {
      var v := Decode(s[1..], k + 1).value;
      var low := s[0] as nat - 128;
      Distributes(Power(k), low, v);
      assert Power(k + 1) == Power(k) * 128;
    }
  }

  lemma Distributes(m: nat, low: nat, v: nat)
    ensures m * (low + 128 * v) == low * m + m * 128 * v
  {
  }

  type Data = d: bytes | |d| == DATA_SIZE witness seq(DATA_SIZE, _ => 0)

  /** A slot's data: what is kept, and zeros after it. */
  function Padded(kept: bytes): Data
    requires |kept| <= DATA_SIZE
  {
    kept + seq(DATA_SIZE - |kept|, _ => 0)
  }

  class Subscription {
    const topic: Topic
    var lastRead: Data
    var dataLength: nat

    constructor (topic: Topic)
      ensures this.topic == topic && lastRead == seq(DATA_SIZE, _ => 0) && dataLength == 0
    {
      this.topic := topic;
      lastRead, dataLength := seq(DATA_SIZE, _ => 0), 0;
    }

    /** The old data is zeroed and the new copied over its start. */
    method Store(data: bytes)
      requires |data| <= DATA_SIZE
      modifies this
      ensures lastRead == Padded(data) && dataLength == |data|
    {
      lastRead := Padded(data);
      dataLength := |data|;
    }
  }

  class Mqtt {
    const buffer: array<byte>
    const subscriptions: seq<Subscription?>
    var packetIdCounter: Word
    var incoming: bytes
    var outgoing: bytes

    constructor (subscriptions: seq<Subscription?>, packetId: Word)
      ensures this.subscriptions == subscriptions && packetIdCounter == packetId
      ensures fresh(buffer) && buffer.Length == BUFFER_SIZE && incoming == [] && outgoing == []
    {
      buffer := new byte[BUFFER_SIZE];
      this.subscriptions := subscriptions;
      packetIdCounter, incoming, outgoing := packetId, [], [];
    }

    /** The topics of the slots in use. */
    function Topics(): (t: seq<Option<Topic>>)
      ensures |t| == |subscriptions|
    {
      seq(|subscriptions|, i requires 0 <= i < |subscriptions| =>
        if subscriptions[i] == null then None else Some(subscriptions[i].topic))
    }

    /** Takes up to `count` bytes that have come. */
    method ReadPacket(at: nat, count: nat) returns (n: nat)
      requires at + count <= buffer.Length
      modifies this`incoming, buffer
      ensures n == Min(count, |old(incoming)|)
      ensures incoming == old(incoming)[n..]
      ensures buffer[..] == old(buffer[..at]) + old(incoming)[..n] + old(buffer[at + n..])
    {
      n := 0;
      ghost var stream, before := incoming, buffer[..];
      while n < count && incoming != []
        invariant n <= count && n <= |stream| && incoming == stream[n..]
        invariant buffer[..] == before[..at] + stream[..n] + before[at + n..]
      {
        buffer[at + n] := incoming[0];
        PutAt(before, at, stream, n);
        incoming := incoming[1..];
        n := n + 1;
      }
    }

    /** Of `stream`, `p` bytes are in the buffer, over what was there before, and the others are still to come. */
    ghost predicate Holds(before: bytes, stream: bytes, p: nat)
      reads this, buffer
    {
      && p <= |stream| && |before| == BUFFER_SIZE == buffer.Length && p <= BUFFER_SIZE
      && incoming == stream[p..] && buffer[..] == stream[..p] + before[p..]
    }

    method Take(p: nat, count: nat, ghost before: bytes, ghost stream: bytes) returns (n: nat)
      requires p + count <= BUFFER_SIZE && Holds(before, stream, p)
      modifies this`incoming, buffer
      ensures n == Min(count, |stream| - p) && Holds(before, stream, p + n)
    {
      TakeOn(before, stream, p, Min(count, |stream| - p));
      n := ReadPacket(p, count);
    }

    /** Reads the remaining length behind the first byte. */
    method ReadLength(ghost before: bytes, ghost stream: bytes) returns (ok: bool, value: nat, p: nat)
      requires Holds(before, stream, 1)
      modifies this`incoming, buffer
      ensures Holds(before, stream, p)
      ensures match Decode(stream[1..], 0)
              case Value(v, n) => ok && value == v && p == 1 + n
              case Cut => !ok && p == |stream|
              case Malformed => !ok && p == 5
    {
      ghost var whole := Decode(stream[1..], 0);
      var multiplier, more := 1, true;
      value, p := 0, 1;
      while more
        invariant 1 <= p <= 4 && Holds(before, stream, p)
        invariant more ==> multiplier == Power(p - 1) &&
                            Decoding(whole, Decode(stream[p..], p - 1), value, multiplier, p - 1)
        invariant !more ==> whole == Length.Value(value, p - 1)
        decreases more, 5 - p
      {
        var n := Take(p, 1, before, stream);
        if n != 1 {
          return false, value, p;
        }
        DecodingStep(whole, stream[p..], value, p - 1);
        var encoded := buffer[p];
        assert encoded == stream[p];
        p := p + 1;
        value := Weighed(value, encoded, multiplier);
        multiplier := multiplier * 128;
        if multiplier > 128 * 128 * 128 {
          return false, value, p;
        }
        more := encoded >= 128;
      }
      ok := true;
    }

    /** Reads what the length counts, as far as the buffer goes. */
    method ReadRest(p: nat, value: nat, ghost before: bytes, ghost stream: bytes) returns (len: nat)
      requires p <= 4 && Holds(before, stream, p)
      modifies this`incoming, buffer
      ensures len == p + Min(Min(value, BUFFER_SIZE - p - 1), |stream| - p) && Holds(before, stream, len)
    {
      var got;
      if value > BUFFER_SIZE - p - 1 {
        got := Take(p, BUFFER_SIZE - p - 1, before, stream);
      } else {
        got := Take(p, value, before, stream);
      }
      len := p + got;
    }

    /** Reads one packet into the buffer: its length there, or 0. A packet too big for the buffer is read in part. */
    method ReadFullPacket() returns (len: nat)
      requires buffer.Length == BUFFER_SIZE
      modifies this`incoming, buffer
      ensures len == if Fetch(old(incoming)).complete then Fetch(old(incoming)).taken else 0
      ensures Holds(old(buffer[..]), old(incoming), Fetch(old(incoming)).taken)
    {
      ghost var before, stream := buffer[..], incoming;
      var got := Take(0, 1, before, stream);
      if got != 1 {
        return 0;
      }
      var ok, value, p := ReadLength(before, stream);
      if !ok {
        return 0;
      }
      len := ReadRest(p, value, before, stream);
    }

    /** strncasecmp over the length the packet gives for its topic. */
    method SameTopic(topic: Topic) returns (same: bool)
      requires buffer.Length == BUFFER_SIZE && buffer[3] as nat == |topic|
      ensures same == Alike(Heard(buffer[..]), topic)
    {
      ghost var heard := Heard(buffer[..]);
      for i := 0 to |topic|
        invariant forall j | 0 <= j < i :: Lower(heard[j]) == Lower(topic[j])
      {
        assert heard[i] == buffer[4 + i];
        if Lower(buffer[4 + i]) != Lower(topic[i]) {
          return false;
        }
      }
      same := true;
    }

    /** The slot for the packet's topic; the number of slots when there is none. */
    method FindSubscription() returns (i: nat)
      requires buffer.Length == BUFFER_SIZE
      ensures i == First(Topics(), Heard(buffer[..]), 0)
    {
      ghost var heard, topics := Heard(buffer[..]), Topics();
      i := 0;
      while i < |subscriptions|
        invariant i <= |subscriptions| && First(topics, heard, 0) == First(topics, heard, i)
      {
        var sub := subscriptions[i];
        if sub != null && |sub.topic| == buffer[3] as nat {
          var same := SameTopic(sub.topic);
          if same {
            return;
          }
        }
        i := i + 1;
      }
    }

    method PubackPacket(packetId: Word) returns (packet: bytes)
      ensures packet == Puback(packetId)
    {
      packet := [16 * PUBACK, 2];
      packet := packet + [(packetId / 0x100) as byte, (packetId % 0x100) as byte];
    }

    /** The packet id behind the topic, if the message is to be acknowledged. */
    method ReadPacketId(topicEnd: nat) returns (length: nat, packetId: Word)
      requires buffer.Length == BUFFER_SIZE && topicEnd + 2 <= BUFFER_SIZE
      ensures length == if buffer[0] / 2 % 4 == 1 then 2 else 0
      ensures packetId == if length == 2 then Number(buffer[topicEnd], buffer[topicEnd + 1]) else 0
    {
      length, packetId := 0, 0;
      if buffer[0] / 2 % 4 == 1 {
        length := 2;
        packetId := Number(buffer[topicEnd], buffer[topicEnd + 1]);
      }
    }

    /** How much there is to copy, in 16 bits, cut off when the slot cannot hold it. */
    method DataLength(len: nat, start: nat) returns (n: nat)
      ensures n == Kept((len - start) % 0x10000)
    {
      n := (len - start) % 0x10000;
      if n > DATA_SIZE {
        n := DATA_SIZE - 1;
      }
    }

    method Acknowledge(asked: bool, packetId: Word) returns (ack: bytes)
      modifies this`outgoing
      ensures ack == (if asked then Puback(packetId) else []) && outgoing == old(outgoing) + ack
    {
      ack := [];
      if asked {
        ack := PubackPacket(packetId);
        outgoing := outgoing + ack;
      }
    }

    /** Copies the payload into the slot and acknowledges it when that is asked for. */
    method StoreMessage(i: nat, len: nat) returns (r: Delivery)
      requires buffer.Length == BUFFER_SIZE && len < BUFFER_SIZE && i < |subscriptions| && subscriptions[i] != null
      modifies this`outgoing, subscriptions[i]
      ensures r == Keep(buffer[..], len, i, 4 + |subscriptions[i].topic|)
      ensures r.Overrun? ==> unchanged(subscriptions[i]) && outgoing == old(outgoing)
      ensures r.Delivered? ==> && subscriptions[i].dataLength == |r.kept| <= DATA_SIZE
                               && subscriptions[i].lastRead == Padded(r.kept)
                               && outgoing == old(outgoing) + r.ack
    {
      var topicEnd := 4 + |subscriptions[i].topic|;
      var packetIdLen, packetId := ReadPacketId(topicEnd);
      var start := topicEnd + packetIdLen;
      var dataLen := DataLength(len, start);
      if BUFFER_SIZE < start + dataLen {
        return Overrun;
      }
      var kept := buffer[start..start + dataLen];
      subscriptions[i].Store(kept);
      var ack := Acknowledge(packetIdLen == 2, packetId);
      r := Delivered(i, kept, ack);
    }

    /** The message in the buffer goes to the first slot with its topic. */
    method HandOver(len: nat) returns (r: Delivery)
      requires buffer.Length == BUFFER_SIZE && len < BUFFER_SIZE
      modifies this`outgoing, subscriptions
      ensures r == Deliver(buffer[..], len, Topics())
      ensures !r.Delivered? ==> outgoing == old(outgoing) && forall s | s in subscriptions && s != null :: unchanged(s)
      ensures r.Delivered? ==> var sub := subscriptions[r.slot];
              && sub != null && sub.dataLength == |r.kept| <= DATA_SIZE && sub.lastRead == Padded(r.kept)
              && outgoing == old(outgoing) + r.ack
              && forall s | s in subscriptions && s != null && s != sub :: unchanged(s)
    {
      var i := FindSubscription();
      if i == |subscriptions| {
        return Nowhere;
      }
      r := StoreMessage(i, len);
    }

    /** Reads one packet and hands its message over. */
    method ReadSubscription() returns (r: Delivery)
      requires buffer.Length == BUFFER_SIZE
      modifies this`incoming, this`outgoing, buffer, subscriptions
      ensures var f := Fetch(old(incoming));
              && incoming == old(incoming)[f.taken..]
              && r == if f.complete then Deliver(Filled(old(buffer[..]), old(incoming)), f.taken, Topics()) else Nowhere
      ensures !r.Delivered? ==> outgoing == old(outgoing) && forall s | s in subscriptions && s != null :: unchanged(s)
      ensures r.Delivered? ==> var sub := subscriptions[r.slot];
              && sub != null && sub.dataLength == |r.kept| <= DATA_SIZE && sub.lastRead == Padded(r.kept)
              && outgoing == old(outgoing) + r.ack
              && forall s | s in subscriptions && s != null && s != sub :: unchanged(s)
    {
      var len := ReadFullPacket();
      if len == 0 {
        return Nowhere;
      }
      r := HandOver(len);
    }

    /** A string after its length. */
    method StringPrint(packet: array<byte>, at: nat, s: bytes) returns (p: nat)
      requires |s| < 0x10000 && at + 2 + |s| <= packet.Length
      modifies packet
      ensures p == at + 2 + |s| && Wrote(old(packet[..]), packet[..], at, HighLow(|s|) + s)
    {
      p := PutAll(packet, at, HighLow(|s|));
      ghost var between := packet[..];
      p := PutAll(packet, p, s);
      WroteOn(old(packet[..]), between, packet[..], at, HighLow(|s|), s);
    }

    /** One byte of the remaining length, after those `done`; what is left is higher. */
    method PutDigit(packet: array<byte>, at: nat, len: nat, ghost before: bytes, ghost from: nat, ghost done: bytes)
      returns (higher: nat, ghost now: bytes)
      requires at == from + |done| < packet.Length && Wrote(before, packet[..], from, done)
      modifies packet
      ensures higher == len / 128 && |now| == |done| + 1 && now + Rest(len) == done + Encode(len)
      ensures Wrote(before, packet[..], from, now)
    {
      var encoded := (len % 128) as byte;
      higher := len / 128;
      if higher > 0 {
        encoded := encoded + 128;
      }
      ghost var between := packet[..];
      var p := PutAll(packet, at, [encoded]);
      WroteOn(before, between, packet[..], from, done, [encoded]);
      now := done + [encoded];
      DigitOn(done, encoded, len);
    }

    /** The remaining length, low seven bits first. */
    method PutLength(packet: array<byte>, at: nat, length: nat) returns (p: nat)
      requires at + |Encode(length)| <= packet.Length
      modifies packet
      ensures p == at + |Encode(length)| && Wrote(old(packet[..]), packet[..], at, Encode(length))
    {
      ghost var before, done, all := packet[..], [], Encode(length);
      ghost var rest := all;
      var len, more := length, true;
      p := at;
      assert [] + all == all;
      while more
        invariant p == at + |done| && done + rest == all && Wrote(before, packet[..], at, done)
        invariant rest == if more then Encode(len) else []
        decreases more, len
      {
        rest := Rest(len);
        len, done := PutDigit(packet, p, len, before, at, done);
        p := p + 1;
        more := len > 0;
      }
      assert done + [] == done;
    }

    /** The packet id, when there is one; it moves on once it is used. */
    method PutId(packet: array<byte>, at: nat, qos: Qos, ghost before: bytes, ghost from: nat, ghost done: bytes)
      returns (p: nat, ghost now: bytes)
      requires at == from + |done| && (qos > 0 ==> at + 2 <= packet.Length) && Wrote(before, packet[..], from, done)
      modifies this`packetIdCounter, packet
      ensures now == done + if qos > 0 then HighLow(old(packetIdCounter)) else []
      ensures p == from + |now| && Wrote(before, packet[..], from, now)
      ensures packetIdCounter == if qos > 0 then (old(packetIdCounter) + 1) % 0x10000 else old(packetIdCounter)
    {
      p, now := at, done;
      if qos > 0 {
        ghost var between := packet[..];
        p := PutAll(packet, at, HighLow(packetIdCounter));
        WroteOn(before, between, packet[..], from, done, HighLow(packetIdCounter));
        now := done + HighLow(packetIdCounter);
        packetIdCounter := (packetIdCounter + 1) % 0x10000;
      } else {
        assert done + [] == done;
      }
    }

    /** Topic, packet id and payload. */
    method PutContent(packet: array<byte>, at: nat, topic: bytes, data: bytes, qos: Qos) returns (p: nat)
      requires Sendable(topic, data, qos) && at + Remaining(topic, data, qos) <= packet.Length
      modifies this`packetIdCounter, packet
      ensures p == at + Remaining(topic, data, qos)
      ensures Wrote(old(packet[..]), packet[..], at, Content(topic, data, qos, old(packetIdCounter)))
      ensures packetIdCounter == if qos > 0 then (old(packetIdCounter) + 1) % 0x10000 else old(packetIdCounter)
    {
      ghost var before, done := packet[..], HighLow(|topic|) + topic;
      p := StringPrint(packet, at, topic);
      p, done := PutId(packet, p, qos, before, at, done);
      ghost var between := packet[..];
      p := PutAll(packet, p, data);
      WroteOn(before, between, packet[..], at, done, data);
    }

    /** The first byte and the remaining length. */
    method PutFixedHeader(packet: array<byte>, qos: Qos, remaining: nat) returns (p: nat)
      requires 1 + |Encode(remaining)| <= packet.Length
      modifies packet
      ensures p == 1 + |Encode(remaining)|
      ensures Wrote(old(packet[..]), packet[..], 0, [FirstByte(qos)] + Encode(remaining))
    {
      ghost var before := packet[..];
      p := PutAll(packet, 0, [16 * PUBLISH + 2 * qos]);
      ghost var between := packet[..];
      p := PutLength(packet, p, remaining);
      WroteOn(before, between, packet[..], 0, [FirstByte(qos)], Encode(remaining));
    }

    /** Builds a publish packet in `packet`; the packet id moves on when one was used. */
    method PublishPacket(packet: array<byte>, topic: bytes, data: bytes, qos: Qos) returns (len: nat)
      requires Sendable(topic, data, qos) && |Publish(topic, data, qos, packetIdCounter)| <= packet.Length
      modifies this`packetIdCounter, packet
      ensures len == |Publish(topic, data, qos, old(packetIdCounter))|
      ensures Wrote(old(packet[..]), packet[..], 0, Publish(topic, data, qos, old(packetIdCounter)))
      ensures packetIdCounter == if qos > 0 then (old(packetIdCounter) + 1) % 0x10000 else old(packetIdCounter)
    {
      var remaining := Remaining(topic, data, qos);
      ghost var before, head := packet[..], [FirstByte(qos)] + Encode(remaining);
      var p := PutFixedHeader(packet, qos, remaining);
      ghost var between := packet[..];
      len := PutContent(packet, p, topic, data, qos);
      WroteOn(before, between, packet[..], 0, head, Content(topic, data, qos, old(packetIdCounter)));
    }

    /** Sends a message, and at a higher quality of service checks the acknowledgement. */
    method PublishMessage(topic: bytes, data: bytes, qos: Qos) returns (r: Published)
      requires buffer.Length == BUFFER_SIZE
      modifies this`packetIdCounter, this`incoming, this`outgoing, buffer
      ensures r == TooLong <==> PacketSize(topic, data, qos) > BUFFER_SIZE
      ensures r != TooLong ==>
                && Sendable(topic, data, qos)
                && outgoing == old(outgoing) + Publish(topic, data, qos, old(packetIdCounter))
                && packetIdCounter == (if qos > 0 then (old(packetIdCounter) + 1) % 0x10000 else old(packetIdCounter))
                && (r == Success <==> qos == 0 || Acknowledges(old(incoming), old(packetIdCounter)))
    {
      if PacketSize(topic, data, qos) > BUFFER_SIZE {
        return TooLong;
      }
      var ok := SendMessage(topic, data, qos);
      r := if ok then Success else Failure;
    }

    method SendMessage(topic: bytes, data: bytes, qos: Qos) returns (ok: bool)
      requires buffer.Length == BUFFER_SIZE
      requires Sendable(topic, data, qos) && |Publish(topic, data, qos, packetIdCounter)| <= BUFFER_SIZE
      modifies this`packetIdCounter, this`incoming, this`outgoing, buffer
      ensures outgoing == old(outgoing) + Publish(topic, data, qos, old(packetIdCounter))
      ensures packetIdCounter == if qos > 0 then (old(packetIdCounter) + 1) % 0x10000 else old(packetIdCounter)
      ensures ok <==> qos == 0 || Acknowledges(old(incoming), old(packetIdCounter))
    {
      var len := PublishPacket(buffer, topic, data, qos);
      outgoing := outgoing + buffer[..len];
      if qos > 0 {
        len := ReadFullPacket();
        if len != 4 {
          return false;
        }
        if buffer[0] / 16 != PUBACK {
          return false;
        }
        var packNum := (Number(buffer[2], buffer[3]) + 1) % 0x10000;
        if packNum != packetIdCounter {
          return false;
        }
      }
      ok := true;
    }
  }

  lemma DigitOn(done: bytes, digit: byte, len: nat)
    requires digit as nat == len % 128 + if len < 128 then 0 else 128
    ensures done + [digit] + Rest(len) == done + Encode(len)
  {
    assert Encode(len) == [digit] + Rest(len);
  }

  /** `s` was written at `at`, and nothing else changed. */
  predicate Wrote(before: bytes, after: bytes, at: nat, s: bytes) {
    at + |s| <= |before| && after == before[..at] + s + before[at + |s|..]
  }

  lemma WroteOn(before: bytes, between: bytes, after: bytes, at: nat, s: bytes, t: bytes)
    requires Wrote(before, between, at, s) && Wrote(between, after, at + |s|, t)
    ensures Wrote(before, after, at, s + t)
  {
  }

  /** Copies bytes into a packet. */
  method PutAll(packet: array<byte>, at: nat, s: bytes) returns (p: nat)
    requires at + |s| <= packet.Length
    modifies packet
    ensures p == at + |s| && Wrote(old(packet[..]), packet[..], at, s)
  {
    for i := 0 to |s|
      invariant packet[..] == old(packet[..])[..at] + s[..i] + old(packet[..])[at + i..]
    {
      packet[at + i] := s[i];
      PutAt(old(packet[..]), at, s, i);
    }
    p := at + |s|;
    assert s[..|s|] == s;
  }

  lemma TakeOn(before: bytes, stream: bytes, p: nat, n: nat)
    requires p + n <= |stream| && p + n <= |before|
    ensures var b := stream[..p] + before[p..];
            b[..p] + stream[p..][..n] + b[p + n..] == stream[..p + n] + before[p + n..]
    ensures stream[p..][n..] == stream[p + n..]
  {
  }

  lemma PutAt(before: bytes, at: nat, stream: bytes, n: nat)
    requires n < |stream| && at + n < |before|
    ensures (before[..at] + stream[..n] + before[at + n..])[at + n := stream[n]] ==
            before[..at] + stream[..n + 1] + before[at + n + 1..]
    ensures stream[n..][1..] == stream[n + 1..]
  {
  }
}
