/**
 * Serial framing of the motor controller: putPacketSerial, getPacketSerial, calcLRC, getResponse.
 *
 * A frame is 0x55 0xAA, addressed node, own node, command, byte count, data, LRC. The decoder takes one byte at
 * a time and keeps its place in a phase variable.
 */
module SerialFrame {
  import opened Bytes
  import opened Checksum
  import opened Division
  import opened Wrappers

  const HEADER_0: byte := 0x55
  const HEADER_1: byte := 0xAA
  const ERROR_ID: byte := 0xFA
  const DATA_SIZE: nat := 22

  datatype Packet = Packet(addressed: byte, own: byte, command: byte, data: bytes, lrc: byte) {
    predicate Fits() { |data| <= DATA_SIZE }
  }

  datatype Phase = WaitHeader0 | WaitHeader1 | WaitAddressed | WaitOwn | WaitCommand | WaitByteCount
                 | WaitData | WaitLrc

  function Encode(p: Packet): bytes
    requires p.Fits()
  {
    [HEADER_0, HEADER_1, p.addressed, p.own, p.command, |p.data| as byte] + p.data + [p.lrc]
  }

  /** The decoder's place and the parts of the packet read so far; `missing` data bytes are still to come. */
  datatype Partial = Partial(phase: Phase, addressed: byte, own: byte, command: byte, data: bytes, missing: nat)

  function Idle(p: Partial): Partial { p.(phase := WaitHeader0) }

  /** One received byte: the next place, and the packet when the byte completes one. */
  function Step(local: byte, p: Partial, c: byte): (Partial, Option<Packet>) {
    match p.phase
    case WaitHeader0 => (p.(phase := if c == HEADER_0 then WaitHeader1 else WaitHeader0), None)
    case WaitHeader1 => (p.(phase := if c == HEADER_1 then WaitAddressed else WaitHeader0), None)
    case WaitAddressed => (if c == local then p.(phase := WaitOwn, addressed := c) else Idle(p), None)
    case WaitOwn => (p.(phase := WaitCommand, own := c), None)
    case WaitCommand => (p.(phase := WaitByteCount, command := c), None)
    case WaitByteCount =>
      var n := c as nat;
      (p.(phase := if n > 0 then WaitData else WaitLrc, data := [], missing := n), None)
    case WaitData =>
      var left := if p.missing == 0 then 0 else p.missing - 1;
      (p.(phase := if left == 0 then WaitLrc else WaitData, data := p.data + [c], missing := left), None)
    case WaitLrc => (Idle(p), Some(Packet(p.addressed, p.own, p.command, p.data, c)))
  }

  /** Everything a stretch of bytes delivers. */
  function Feed(local: byte, p: Partial, s: bytes): (Partial, seq<Packet>)
    decreases s
  {
    if s == [] then (p, []) else
      var (q, out) := Step(local, p, s[0]);
      var (r, rest) := Feed(local, q, s[1..]);
      (r, if out.Some? then [out.value] + rest else rest)
  }

  lemma {:induction false} FeedSplit(local: byte, p: Partial, s: bytes, t: bytes)
    ensures var (q, ps) := Feed(local, p, s);
            var (r, qs) := Feed(local, q, t);
            Feed(local, p, s + t) == (r, ps + qs)
    decreases s
  {
    if s == [] {
      assert s + t == t && [] + Feed(local, p, t).1 == Feed(local, p, t).1;
    } else {
      assert (s + t)[0] == s[0] && (s + t)[1..] == s[1..] + t;
      var (q, out) := Step(local, p, s[0]);
      FeedSplit(local, q, s[1..], t);
      var (r, ps) := Feed(local, q, s[1..]);
      var qs := Feed(local, r, t).1;
      assert out.Some? ==> [out.value] + ps + qs == [out.value] + (ps + qs);
    }
  }

  /** Noise that leaves an idle decoder idle: a 0x55 in it is followed by another byte of it, which is not 0xAA. */
  predicate Harmless(noise: bytes)
    decreases |noise|
  {
    noise == []
    || (noise[0] != HEADER_0 && Harmless(noise[1..]))
    || (noise[0] == HEADER_0 && 2 <= |noise| && noise[1] != HEADER_1 && Harmless(noise[2..]))
  }

  lemma FeedTwo(local: byte, p: Partial, s: bytes)
    requires p.phase == WaitHeader0 && 2 <= |s| && s[0] == HEADER_0 && s[1] != HEADER_1
    ensures Feed(local, p, s) == Feed(local, p, s[2..])
  {
    var q := p.(phase := WaitHeader1);
    assert s == [HEADER_0] + s[1..] && s[1..] == [s[1]] + s[2..];
    FeedCons(local, p, HEADER_0, s[1..]);
    FeedCons(local, q, s[1], s[2..]);
    assert q.(phase := WaitHeader0) == p;
  }

  lemma {:induction false} FeedNoise(local: byte, p: Partial, noise: bytes)
    requires p.phase == WaitHeader0 && Harmless(noise)
    ensures Feed(local, p, noise) == (p, [])
    decreases |noise|
  {
    if noise != [] {
      if noise[0] == HEADER_0 {
        FeedTwo(local, p, noise);
        FeedNoise(local, p, noise[2..]);
      } else {
        FeedNoise(local, p, noise[1..]);
      }
    }
  }

  /** Without a 0x55, noise is harmless. */
  lemma {:induction false} NoHeaderIsHarmless(noise: bytes)
    requires HEADER_0 !in noise
    ensures Harmless(noise)
    decreases |noise|
  {
    if noise != [] {
      NoHeaderIsHarmless(noise[1..]);
    }
  }

  /** How many 0x55 noise ends in. */
  function Trailing(noise: bytes): (n: nat)
    ensures n <= |noise|
    decreases |noise|
  {
    if noise == [] || noise[|noise| - 1] != HEADER_0 then 0 else 1 + Trailing(noise[..|noise| - 1])
  }

  /** What noise free of 0xAA does to an idle decoder: nothing, or it takes the last 0x55 for the start of a header. */
  lemma {:induction false} FeedBeforeHeader(local: byte, p: Partial, noise: bytes)
    requires p.phase == WaitHeader0 && HEADER_1 !in noise
    ensures Feed(local, p, noise) == (if Trailing(noise) % 2 == 0 then p else p.(phase := WaitHeader1), [])
    decreases |noise|
  {
    if noise != [] {
      var n := |noise| - 1;
      var q := if Trailing(noise[..n]) % 2 == 0 then p else p.(phase := WaitHeader1);
      FeedBeforeHeader(local, p, noise[..n]);
      assert noise == noise[..n] + [noise[n]] && noise[n] in noise;
      FeedOneMore(local, p, q, noise[..n], noise[n]);
      HeaderStep(local, p, q, noise[n], Trailing(noise[..n]));
      assert Trailing(noise) == if noise[n] == HEADER_0 then Trailing(noise[..n]) + 1 else 0;
    } else {
      assert Trailing(noise) == 0;
    }
  }

  lemma FeedOneMore(local: byte, p: Partial, q: Partial, s: bytes, c: byte)
    requires Feed(local, p, s) == (q, []) && Step(local, q, c).1.None?
    ensures Feed(local, p, s + [c]) == (Step(local, q, c).0, [])
  {
    FeedSplit(local, p, s, [c]);
    FeedOne(local, q, c);
  }

  lemma HeaderStep(local: byte, p: Partial, q: Partial, c: byte, trailing: nat)
    requires p.phase == WaitHeader0 && c != HEADER_1 && q == if trailing % 2 == 0 then p else p.(phase := WaitHeader1)
    ensures var after := if c == HEADER_0 then trailing + 1 else 0;
            Step(local, q, c) == (if after % 2 == 0 then p else p.(phase := WaitHeader1), None)
  {
  }

  /** Without a 0xAA, noise is harmless exactly if it ends in an even number of 0x55. */
  lemma {:induction false} HarmlessIsEven(noise: bytes)
    requires HEADER_1 !in noise
    ensures Harmless(noise) <==> Trailing(noise) % 2 == 0
    decreases |noise|
  {
    if noise == [] {
    } else if noise[0] != HEADER_0 {
      TrailingFrom(noise, 1);
      HarmlessIsEven(noise[1..]);
    } else if |noise| == 1 {
      assert noise[..0] == [] && Trailing([]) == 0;
    } else {
      assert noise[1] in noise;
      TrailingFrom(noise, 2);
      HarmlessIsEven(noise[2..]);
    }
  }

  lemma TrailingAll(noise: bytes)
    requires (|noise| == 1 && noise[0] != HEADER_0) || (|noise| == 2 && noise[0] == HEADER_0)
    ensures Trailing(noise) % 2 == Trailing(noise[|noise|..]) % 2
  {
    assert Trailing(noise[|noise|..]) == 0;
    if |noise| == 2 && noise[1] == HEADER_0 {
      assert noise[..1][..0] == [] && Trailing([]) == 0;
      assert Trailing(noise[..1]) == 1;
    }
  }

  /** Bytes at the front that are no 0x55, or an even number of them, do not change the parity at the end. */
  lemma {:induction false} TrailingFrom(noise: bytes, k: nat)
    requires (k == 1 && 1 <= |noise| && noise[0] != HEADER_0) || (k == 2 && 2 <= |noise| && noise[0] == HEADER_0)
    ensures Trailing(noise) % 2 == Trailing(noise[k..]) % 2
    decreases |noise|
  {
    var n := |noise| - 1;
    if |noise| == k {
      TrailingAll(noise);
    } else {
      assert noise[k..][n - k] == noise[n] && noise[k..][..n - k] == noise[..n][k..];
      if noise[n] == HEADER_0 {
        TrailingFrom(noise[..n], k);
      }
    }
  }

  lemma {:induction false} FeedData(local: byte, p: Partial, d: bytes)
    requires p.phase == WaitData && p.missing == |d| > 0
    ensures Feed(local, p, d) == (p.(phase := WaitLrc, data := p.data + d, missing := 0), [])
    decreases d
  {
    var q := Step(local, p, d[0]).0;
    if |d| == 1 {
      assert d[1..] == [] && d == [d[0]];
      assert Feed(local, q, []) == (q, []);
    } else {
      FeedData(local, q, d[1..]);
      assert p.data + [d[0]] + d[1..] == p.data + d;
    }
  }

  /** How many bytes of a frame the decoder has taken in, at most. */
  function Held(p: Partial): nat {
    match p.phase
    case WaitHeader0 => 0
    case WaitHeader1 => 1
    case WaitAddressed => 2
    case WaitOwn => 3
    case WaitCommand => 4
    case WaitByteCount => 5
    case _ => 6 + |p.data|
  }

  /** The packet delivered when the first `n` bytes of the frame of `k` were taken in before `p` was reached. */
  function Finished(p: Partial, k: Packet, n: nat): Packet {
    Packet(if n <= 2 then k.addressed else p.addressed, if n <= 3 then k.own else p.own,
           if n <= 4 then k.command else p.command, k.data, k.lrc)
  }

  /** The rest of a frame, from any place in its head on. */
  lemma {:induction false} FeedFrom(local: byte, p: Partial, k: Packet, n: nat)
    requires k.Fits() && n <= 5 && Held(p) == n && (n <= 2 ==> k.addressed == local)
    ensures var (q, ps) := Feed(local, p, Encode(k)[n..]);
            q.phase == WaitHeader0 && ps == [Finished(p, k, n)]
    decreases 5 - n
  {
    var h := Encode(k);
    var q := Step(local, p, h[n]).0;
    assert h[n..] == [h[n]] + h[n + 1..];
    FeedCons(local, p, h[n], h[n + 1..]);
    if n < 5 {
      FeedFrom(local, q, k, n + 1);
    } else {
      assert h[6..] == k.data + [k.lrc];
      FeedTail(local, q, k);
    }
  }

  lemma FeedTail(local: byte, p: Partial, k: Packet)
    requires p.data == [] && p.missing == |k.data| && p.phase == if k.data == [] then WaitLrc else WaitData
    ensures var (q, ps) := Feed(local, p, k.data + [k.lrc]);
            q.phase == WaitHeader0 && ps == [Packet(p.addressed, p.own, p.command, k.data, k.lrc)]
  {
    FeedSplit(local, p, k.data, [k.lrc]);
    if k.data != [] {
      FeedData(local, p, k.data);
      assert [] + k.data == k.data;
    }
    FeedOne(local, Feed(local, p, k.data).0, k.lrc);
  }

  /** One frame addressed to us delivers exactly its packet, whatever its data bytes are. */
  lemma FeedFrame(local: byte, p: Partial, k: Packet)
    requires p.phase == WaitHeader0 && k.Fits() && k.addressed == local
    ensures var (q, ps) := Feed(local, p, Encode(k));
            q.phase == WaitHeader0 && ps == [k]
  {
    FeedFrom(local, p, k, 0);
    assert Encode(k)[0..] == Encode(k);
  }

  lemma FeedOne(local: byte, p: Partial, c: byte)
    ensures var (q, out) := Step(local, p, c);
            Feed(local, p, [c]) == (q, if out.Some? then [out.value] else [])
  {
    var (q, out) := Step(local, p, c);
    assert [c][1..] == [] && Feed(local, q, []) == (q, []);
    assert out.Some? ==> [out.value] + [] == [out.value];
  }

  lemma FeedCons(local: byte, p: Partial, c: byte, s: bytes)
    requires Step(local, p, c).1.None?
    ensures Feed(local, p, [c] + s) == Feed(local, Step(local, p, c).0, s)
  {
    assert ([c] + s)[1..] == s;
  }

  /** Frames, each after its own stretch of noise. */
  function Stream(noise: seq<bytes>, packets: seq<Packet>): bytes
    requires |noise| == |packets| && forall k | k in packets :: k.Fits()
  {
    if packets == [] then [] else noise[0] + Encode(packets[0]) + Stream(noise[1..], packets[1..])
  }

  /** Any list of frames, separated by harmless noise, is delivered exactly and in order. */
  lemma {:induction false} StreamDecodes(local: byte, p: Partial, noise: seq<bytes>, packets: seq<Packet>)
    requires p.phase == WaitHeader0 && |noise| == |packets|
    requires forall k | k in packets :: k.Fits() && k.addressed == local
    requires forall n | n in noise :: Harmless(n)
    ensures var (q, ps) := Feed(local, p, Stream(noise, packets));
            q.phase == WaitHeader0 && ps == packets
    decreases packets
  {
    if packets != [] {
      var k, rest := packets[0], Stream(noise[1..], packets[1..]);
      FeedNoise(local, p, noise[0]);
      FeedFrame(local, p, k);
      var q := Feed(local, p, Encode(k)).0;
      StreamDecodes(local, q, noise[1..], packets[1..]);
      var r := FrameAhead(local, p, q, noise[0], Encode(k), k, rest, packets[1..]);
      assert [k] + packets[1..] == packets;
    }
  }

  lemma FrameAhead(local: byte, p: Partial, q: Partial, noise: bytes, frame: bytes, k: Packet, rest: bytes,
                   packets: seq<Packet>) returns (r: Partial)
    requires Feed(local, p, noise) == (p, []) && Feed(local, p, frame) == (q, [k])
    requires Feed(local, q, rest).0.phase == WaitHeader0 && Feed(local, q, rest).1 == packets
    ensures Feed(local, p, noise + frame + rest) == (r, [k] + packets) && r.phase == WaitHeader0
  {
    var none: seq<Packet> := [];
    assert none + [k] == [k];
    FeedSplit(local, p, noise + frame, rest);
    FeedSplit(local, p, noise, frame);
    r := Feed(local, q, rest).0;
  }

  /** A packet is delivered only once all bytes of its frame have come, of this one or of what is taken for it. */
  lemma {:induction false} BytesNeeded(local: byte, p: Partial, s: bytes, k: Packet)
    requires k in Feed(local, p, s).1
    ensures 7 + |k.data| <= Held(p) + |s|
    decreases s
  {
    var (q, out) := Step(local, p, s[0]);
    if out != Some(k) {
      BytesNeeded(local, q, s[1..], k);
    }
  }

  /**
   * The decoder does not take a repeated 0x55 as a new start: after noise free of 0xAA, a frame is delivered exactly
   * if the noise ends in an even number of 0x55.
   */
  lemma EvenHeadersKeepFrame(local: byte, p: Partial, noise: bytes, k: Packet)
    requires p.phase == WaitHeader0 && k.Fits() && k.addressed == local && HEADER_1 !in noise
    ensures Feed(local, p, noise + Encode(k)).1 == [k] <==> Trailing(noise) % 2 == 0
    ensures k in Feed(local, p, noise + Encode(k)).1 <==> Trailing(noise) % 2 == 0
  {
    FeedBeforeHeader(local, p, noise);
    FeedSplit(local, p, noise, Encode(k));
    if Trailing(noise) % 2 == 0 {
      FeedFrame(local, p, k);
    } else {
      var q := p.(phase := WaitHeader1);
      var rest := Encode(k)[1..];
      assert Encode(k) == [HEADER_0] + rest;
      FeedCons(local, q, HEADER_0, rest);
      assert k in [k];
      if k in Feed(local, q.(phase := WaitHeader0), rest).1 {
        BytesNeeded(local, q.(phase := WaitHeader0), rest, k);
      }
    }
  }

  /** If the frame holds no further 0x55, nothing at all is delivered in the other case. */
  lemma StrayHeadersLoseFrame(local: byte, p: Partial, noise: bytes, k: Packet)
    requires p.phase == WaitHeader0 && k.Fits() && k.addressed == local
    requires HEADER_1 !in noise && HEADER_0 !in Encode(k)[1..]
    ensures Feed(local, p, noise + Encode(k)).1 == (if Trailing(noise) % 2 == 0 then [k] else [])
  {
    FeedBeforeHeader(local, p, noise);
    FeedSplit(local, p, noise, Encode(k));
    if Trailing(noise) % 2 == 0 {
      FeedFrame(local, p, k);
    } else {
      var q := p.(phase := WaitHeader1);
      assert Encode(k) == [HEADER_0] + Encode(k)[1..];
      FeedCons(local, q, HEADER_0, Encode(k)[1..]);
      NoHeaderIsHarmless(Encode(k)[1..]);
      FeedNoise(local, q.(phase := WaitHeader0), Encode(k)[1..]);
    }
  }

  /** What calcLRC computes: command, byte count and data, all combined by exclusive or. */
  function Lrc(command: byte, data: bytes): byte
    requires |data| <= DATA_SIZE
  {
    Xor(Xor(command, |data| as byte), XorAll(data))
  }

  predicate Checks(p: Packet)
    requires p.Fits()
  {
    p.lrc == Lrc(p.command, p.data)
  }

  /** Damage to the command and data bytes of a good packet goes unnoticed exactly when the damage masks cancel. */
  lemma DamageUnnoticed(good: Packet, bad: Packet)
    requires good.Fits() && bad.Fits() && |good.data| == |bad.data| && good.lrc == bad.lrc
    requires Checks(good)
    ensures Checks(bad) <==>
            Xor(Xor(good.command, bad.command), XorAll(Differences(good.data, bad.data))) == 0
  {
    var n := |good.data| as byte;
    XorAllDifferences(good.data, bad.data);
    XorCancels(good.command, bad.command, n);
    XorInterchange(Xor(good.command, n), XorAll(good.data), Xor(bad.command, n), XorAll(bad.data));
    XorLaws(Lrc(good.command, good.data), Lrc(bad.command, bad.data), 0);
  }

  /** Changing one data byte, or only the command, makes the check fail. */
  lemma SingleByteDetected(good: Packet, i: nat, c: byte)
    requires good.Fits() && Checks(good)
    ensures c != good.command ==> !Checks(good.(command := c))
    ensures i < |good.data| && c != good.data[i] ==> !Checks(good.(data := good.data[i := c]))
  {
    forall k | 0 <= k < |good.data|
      ensures Xor(good.data[k], good.data[k]) == 0
    {
      XorLaws(good.data[k], good.data[k], 0);
    }
    XorAllZero(Differences(good.data, good.data));
    XorLaws(good.command, c, 0);
    XorLaws(Xor(good.command, c), 0, 0);
    DamageUnnoticed(good, good.(command := c));
    if i < |good.data| {
      var bad := good.(data := good.data[i := c]);
      XorLaws(good.data[i], c, 0);
      XorLaws(good.command, good.command, 0);
      XorLaws(Xor(good.data[i], c), 0, 0);
      XorAllSingle(Differences(good.data, bad.data), i);
      DamageUnnoticed(good, bad);
    }
  }

  /** One poll of the serial line: nothing has come, or a byte is decoded. */
  function Polled(local: byte, p: Partial, a: Option<byte>): (Partial, Option<Packet>) {
    if a.None? then (p, None) else Step(local, p, a.value)
  }

  /** The bytes that come in a stretch of polls. */
  function Arrived(s: seq<Option<byte>>): bytes {
    if s == [] then [] else (if s[0].Some? then [s[0].value] else []) + Arrived(s[1..])
  }

  /** A byte count of more data than a packet holds; the data would be written past its end. */
  predicate TooMuch(p: Partial, a: Option<byte>) {
    p.phase == WaitByteCount && a.Some? && a.value as nat > DATA_SIZE
  }

  /** Such a byte count comes before a packet completes or the polls run out. */
  ghost predicate Overruns(local: byte, p: Partial, s: seq<Option<byte>>, polls: nat)
    decreases polls
  {
    s != [] &&
    var (q, out) := Polled(local, p, s[0]);
    TooMuch(p, s[0]) || (out.None? && 0 < polls && Overruns(local, q, s[1..], polls - 1))
  }

  /** The first packet completed within `polls` unsuccessful polls, and how many of those there were. */
  ghost function Await(local: byte, p: Partial, s: seq<Option<byte>>, polls: nat): Option<(Packet, nat)>
    decreases polls
  {
    if s == [] then None else
      var (q, out) := Polled(local, p, s[0]);
      if out.Some? then Some((out.value, 0))
      else if polls == 0 then None
      else Later(Await(local, q, s[1..], polls - 1), 1)
  }

  /** No byte of a stretch announces too much data. */
  predicate Tame(local: byte, p: Partial, s: bytes)
    decreases s
  {
    s == [] || (!TooMuch(p, Some(s[0])) && Tame(local, Step(local, p, s[0]).0, s[1..]))
  }

  lemma {:induction false} TameSplit(local: byte, p: Partial, s: bytes, t: bytes)
    requires Tame(local, p, s) && Tame(local, Feed(local, p, s).0, t)
    ensures Tame(local, p, s + t)
    decreases s
  {
    if s == [] {
      assert s + t == t;
    } else {
      assert (s + t)[1..] == s[1..] + t;
      TameSplit(local, Step(local, p, s[0]).0, s[1..], t);
    }
  }

  lemma {:induction false} TameNoise(local: byte, p: Partial, noise: bytes)
    requires p.phase == WaitHeader0 && Harmless(noise)
    ensures Tame(local, p, noise)
    decreases |noise|
  {
    if noise != [] {
      if noise[0] == HEADER_0 {
        var q := p.(phase := WaitHeader1);
        assert q.(phase := WaitHeader0) == p && noise[1..][1..] == noise[2..];
        TameNoise(local, p, noise[2..]);
        assert Tame(local, q, noise[1..]);
      } else {
        TameNoise(local, p, noise[1..]);
      }
    }
  }

  /** Data are taken as they are, and so is the check byte. */
  lemma {:induction false} TameData(local: byte, p: Partial, s: bytes)
    requires p.phase == WaitData && |s| <= p.missing + 1
    ensures Tame(local, p, s)
    decreases s
  {
    if |s| > 1 {
      var q := Step(local, p, s[0]).0;
      if q.phase == WaitData {
        TameData(local, q, s[1..]);
      } else {
        assert s[1..][1..] == [];
      }
    } else if |s| == 1 {
      assert s[1..] == [];
    }
  }

  lemma {:induction false} TameFrom(local: byte, p: Partial, k: Packet, n: nat)
    requires k.Fits() && n <= 5 && Held(p) == n && (n <= 2 ==> k.addressed == local)
    ensures Tame(local, p, Encode(k)[n..])
    decreases 5 - n
  {
    var h := Encode(k);
    var q := Step(local, p, h[n]).0;
    assert h[n..][1..] == h[n + 1..];
    if n < 5 {
      TameFrom(local, q, k, n + 1);
    } else if k.data == [] {
      assert h[6..][1..] == [];
    } else {
      TameData(local, q, h[6..]);
    }
  }

  /** Where tame bytes complete a packet, the wait does not overrun it. */
  lemma {:induction false} TameWait(local: byte, p: Partial, s: seq<Option<byte>>, m: nat, polls: nat)
    requires m <= |s| && Tame(local, p, Arrived(s[..m])) && Delivered(local, p, s[..m]) != []
    ensures !Overruns(local, p, s, polls)
    decreases m
  {
    if m > 0 {
      assert s[..m] == [s[0]] + s[1..][..m - 1];
      ArrivedSplit([s[0]], s[1..][..m - 1]);
      FeedArrived(local, p, s[0], s[1..][..m - 1]);
      TameTail(local, p, s[0], Arrived(s[1..][..m - 1]));
      var (q, out) := Polled(local, p, s[0]);
      if out.None? && polls > 0 {
        TameWait(local, q, s[1..], m - 1, polls - 1);
      }
    }
  }

  lemma TameTail(local: byte, p: Partial, a: Option<byte>, t: bytes)
    requires Tame(local, p, Arrived([a]) + t)
    ensures !TooMuch(p, a) && Tame(local, Polled(local, p, a).0, t)
  {
    assert [a][1..] == [] && Arrived([a]) == if a.Some? then [a.value] else [];
    if a.Some? {
      assert ([a.value] + t)[1..] == t;
    } else {
      var none: bytes := [];
      assert none + t == t;
    }
  }

  lemma FeedArrived(local: byte, p: Partial, a: Option<byte>, s: seq<Option<byte>>)
    ensures var (q, out) := Polled(local, p, a);
            Feed(local, p, Arrived([a] + s)) ==
            (Feed(local, q, Arrived(s)).0, (if out.Some? then [out.value] else []) + Feed(local, q, Arrived(s)).1)
  {
    assert ([a] + s)[1..] == s;
    var nothing: bytes, none: seq<Packet> := [], [];
    if a.Some? {
      FeedSplit(local, p, [a.value], Arrived(s));
      FeedOne(local, p, a.value);
    } else {
      assert nothing + Arrived(s) == Arrived(s);
      assert none + Feed(local, p, Arrived(s)).1 == Feed(local, p, Arrived(s)).1;
    }
  }

  /** The packets that a stretch of polls delivers. */
  function Delivered(local: byte, p: Partial, s: seq<Option<byte>>): seq<Packet> { Feed(local, p, Arrived(s)).1 }

  lemma DeliveredStep(local: byte, p: Partial, s: seq<Option<byte>>, n: nat)
    requires 0 < n <= |s|
    ensures var (q, out) := Polled(local, p, s[0]);
            Delivered(local, p, s[..n]) ==
            (if out.Some? then [out.value] else []) + Delivered(local, q, s[1..][..n - 1])
  {
    assert s[..n] == [s[0]] + s[1..][..n - 1];
    FeedArrived(local, p, s[0], s[1..][..n - 1]);
  }

  lemma NothingDelivered(local: byte, p: Partial, s: seq<Option<byte>>)
    ensures Delivered(local, p, s[..0]) == []
  {
  }

  /** Waiting gives the first packet that the bytes deliver as they come, and none only if they deliver none in time. */
  lemma {:induction false} AwaitIsFeed(local: byte, p: Partial, s: seq<Option<byte>>, polls: nat)
    ensures var r := Await(local, p, s, polls);
            if r.Some? then
              && r.value.1 < |s| && r.value.1 <= polls
              && Delivered(local, p, s[..r.value.1 + 1]) == [r.value.0]
            else
              Delivered(local, p, s[..Min(|s|, polls + 1)]) == []
    decreases polls
  {
    if s == [] {
      NothingDelivered(local, p, s);
    } else {
      var (q, out) := Polled(local, p, s[0]);
      if out.Some? || polls == 0 {
        DeliveredStep(local, p, s, 1);
        NothingDelivered(local, q, s[1..]);
      } else {
        AwaitIsFeed(local, q, s[1..], polls - 1);
        var r := Await(local, q, s[1..], polls - 1);
        var n := if r.Some? then r.value.1 + 1 else Min(|s| - 1, polls);
        DeliveredStep(local, p, s, n + 1);
      }
    }
  }

  lemma {:induction false} ArrivedSplit(s: seq<Option<byte>>, t: seq<Option<byte>>)
    ensures Arrived(s + t) == Arrived(s) + Arrived(t)
  {
    if s == [] {
      assert s + t == t && Arrived(s) + Arrived(t) == Arrived(t);
    } else {
      assert (s + t)[1..] == s[1..] + t;
      ArrivedSplit(s[1..], t);
      var head := if s[0].Some? then [s[0].value] else [];
      assert head + Arrived(s[1..]) + Arrived(t) == head + (Arrived(s[1..]) + Arrived(t));
    }
  }

  /** A response that is complete in time is the one received, however its bytes are spread over the polls. */
  lemma ResponseArrives(local: byte, p: Partial, s: seq<Option<byte>>, m: nat, polls: nat, noise: bytes, k: Packet)
    requires p.phase == WaitHeader0 && k.Fits() && k.addressed == local && Harmless(noise)
    requires m <= |s| && m <= polls + 1 && Arrived(s[..m]) == noise + Encode(k)
    ensures var r := Await(local, p, s, polls); r.Some? && r.value.0 == k
    ensures !Overruns(local, p, s, polls)
  {
    TameNoise(local, p, noise);
    TameFrom(local, p, k, 0);
    assert Encode(k)[0..] == Encode(k);
    FeedNoise(local, p, noise);
    FeedFrame(local, p, k);
    FeedSplit(local, p, noise, Encode(k));
    assert [] + [k] == [k];
    assert Delivered(local, p, s[..m]) == [k];
    TameSplit(local, p, noise, Encode(k));
    TameWait(local, p, s, m, polls);
    AwaitIsFeed(local, p, s, polls);
    var r := Await(local, p, s, polls);
    var n := if r.Some? then r.value.1 + 1 else Min(|s|, polls + 1);
    if n <= m {
      Prefix(local, p, s, n, m);
      assert r.Some? ==> [r.value.0][0] == [k][0];
    } else {
      Prefix(local, p, s, m, n);
      assert r.Some? ==> [k][0] == [r.value.0][0];
    }
  }

  /** What more polls bring is added to what fewer have delivered. */
  lemma Prefix(local: byte, p: Partial, s: seq<Option<byte>>, m: nat, n: nat)
    requires m <= n <= |s|
    ensures var a, b := Delivered(local, p, s[..m]), Delivered(local, p, s[..n]);
            a <= b && (m == n ==> a == b) && (a != [] ==> b != [] && a[0] == b[0])
  {
    assert s[..n] == s[..m] + s[m..n];
    ArrivedSplit(s[..m], s[m..n]);
    FeedSplit(local, p, Arrived(s[..m]), Arrived(s[m..n]));
  }

  /** The decoder goes on where it was, but into another packet, which holds the request just sent. */
  function Into(place: Partial, request: Packet): Partial
    requires place.missing <= |request.data|
  {
    Partial(place.phase, request.addressed, request.own, request.command,
            request.data[..|request.data| - place.missing], place.missing)
  }

  /** Two places that differ at most in what is still to be overwritten. */
  predicate Agree(p: Partial, q: Partial) {
    && p.phase == q.phase
    && (p.phase in {WaitOwn, WaitCommand, WaitByteCount, WaitData, WaitLrc} ==> p.addressed == q.addressed)
    && (p.phase in {WaitCommand, WaitByteCount, WaitData, WaitLrc} ==> p.own == q.own)
    && (p.phase in {WaitByteCount, WaitData, WaitLrc} ==> p.command == q.command)
    && (p.phase in {WaitData, WaitLrc} ==> p.data == q.data && p.missing == q.missing)
  }

  /** A response that begins after the request was sent does not depend on what the packet held before. */
  lemma {:induction false} AwaitAgrees(local: byte, p: Partial, q: Partial, s: seq<Option<byte>>, polls: nat)
    requires Agree(p, q)
    ensures Await(local, p, s, polls) == Await(local, q, s, polls)
    decreases polls
  {
    if s != [] && polls > 0 {
      AwaitAgrees(local, Polled(local, p, s[0]).0, Polled(local, q, s[0]).0, s[1..], polls - 1);
    }
  }

  /** The frame's first `n` bytes leave the decoder waiting for the next one. */
  lemma {:induction false} HeadTaken(local: byte, p: Partial, k: Packet, n: nat)
    requires p.phase == WaitHeader0 && k.Fits() && k.addressed == local && n <= 5
    ensures var (q, ps) := Feed(local, p, Encode(k)[..n]);
            ps == [] && Held(q) == n && q.missing == p.missing
    decreases n
  {
    var h := Encode(k);
    if n > 0 {
      HeadTaken(local, p, k, n - 1);
      var q := Feed(local, p, h[..n - 1]).0;
      assert h[..n] == h[..n - 1] + [h[n - 1]];
      FeedSplit(local, p, h[..n - 1], [h[n - 1]]);
      HeadStep(local, q, k, h[n - 1], n - 1);
    }
  }

  lemma HeadStep(local: byte, p: Partial, k: Packet, c: byte, n: nat)
    requires k.Fits() && k.addressed == local && n <= 4 && Held(p) == n && c == Encode(k)[n]
    ensures var (q, ps) := Feed(local, p, [c]);
            ps == [] && Held(q) == n + 1 && q.missing == p.missing
  {
    FeedOne(local, p, c);
  }

  /**
   * A wait that times out inside the head of a frame: the rest of it, which comes while the next response is awaited,
   * completes a packet in which what was read before is replaced by what the new request holds there.
   */
  lemma InterruptedHead(local: byte, p: Partial, k: Packet, request: Packet, n: nat)
    requires p.phase == WaitHeader0 && p.missing == 0 && k.Fits() && k.addressed == local && n <= 5
    ensures var q := Feed(local, p, Encode(k)[..n]).0;
            q.missing == 0 && Feed(local, Into(q, request), Encode(k)[n..]).1 == [Finished(Into(q, request), k, n)]
  {
    HeadTaken(local, p, k, n);
    FeedFrom(local, Into(Feed(local, p, Encode(k)[..n]).0, request), k, n);
  }

  /** `left` unsuccessful polls remain and one more is due: what the wait then comes to, overrun and result. */
  ghost predicate Due(local: byte, p: Partial, s: seq<Option<byte>>, left: nat, polls: nat, r: Option<(Packet, nat)>,
                      o: bool)
    requires left <= polls
  {
    r == Later(Await(local, p, s, left), polls - left) && o == Overruns(local, p, s, left)
  }

  /** The same after a poll that delivered nothing. */
  ghost predicate Owed(local: byte, p: Partial, s: seq<Option<byte>>, left: nat, polls: nat, r: Option<(Packet, nat)>,
                       o: bool)
    requires left <= polls
  {
    if left == 0 then r == None && !o
    else r == Later(Await(local, p, s, left - 1), polls - left + 1) && o == Overruns(local, p, s, left - 1)
  }

  lemma Unspent(local: byte, p: Partial, s: seq<Option<byte>>, left: nat, polls: nat, r: Option<(Packet, nat)>, o: bool)
    requires left < polls && Owed(local, p, s, left + 1, polls, r, o)
    ensures Due(local, p, s, left, polls, r, o)
  {
  }

  ghost function Later(r: Option<(Packet, nat)>, n: nat): Option<(Packet, nat)> {
    if r.Some? then Some((r.value.0, r.value.1 + n)) else None
  }

  /** putPacketSerial and the receiving side, with what each poll will find and the packet being filled. */
  class Link {
    const localNode: byte
    var sent: bytes
    var received: seq<Option<byte>>
    var decoderState: Phase
    var byteCount: nat
    var addressed: byte
    var own: byte
    var command: byte
    var packetCount: nat
    const data: array<byte>
    var lrc: byte
    var commSuccess: bool

    ghost predicate Valid()
      reads this
    {
      && data.Length == DATA_SIZE
      && byteCount <= packetCount <= DATA_SIZE
      && (decoderState == WaitData ==> 0 < byteCount)
      && (decoderState != WaitData ==> byteCount == 0)
    }

    /** The decoder's place as a value. */
    ghost function Place(): Partial
      reads this, data
      requires Valid()
    {
      Partial(decoderState, addressed, own, command, data[..packetCount - byteCount], byteCount)
    }

    ghost function Current(): Packet
      reads this, data
      requires Valid()
    {
      Packet(addressed, own, command, data[..packetCount], lrc)
    }

    constructor (localNode: byte)
      ensures Valid() && fresh(data) && this.localNode == localNode
      ensures sent == [] && received == [] && decoderState == WaitHeader0 && commSuccess
    {
      this.localNode := localNode;
      sent, received, decoderState, commSuccess := [], [], WaitHeader0, true;
      byteCount, packetCount, addressed, own, command, lrc := 0, 0, 0, 0, 0, 0;
      data := new byte[DATA_SIZE];
    }

    method PutPacketSerial(p: Packet)
      requires p.Fits()
      modifies this`sent
      ensures sent == old(sent) + Encode(p)
    {
      sent := sent + [HEADER_0];
      sent := sent + [HEADER_1];
      sent := sent + [p.addressed];
      sent := sent + [p.own];
      sent := sent + [p.command];
      sent := sent + [|p.data| as byte];
      for i := 0 to |p.data|
        invariant sent == old(sent) + Encode(p)[..6] + p.data[..i]
      {
        sent := sent + [p.data[i]];
        assert p.data[..i + 1] == p.data[..i] + [p.data[i]];
      }
      sent := sent + [p.lrc];
      assert p.data[..|p.data|] == p.data;
    }

    /** The decoder before the data. The byte count announced by the frame must fit the packet's 22 data bytes. */
    method DecodeHead(c: byte)
      requires Valid() && decoderState != WaitData && decoderState != WaitLrc
      requires decoderState == WaitByteCount ==> c as nat <= DATA_SIZE
      modifies this`decoderState, this`byteCount, this`packetCount, this`addressed, this`own, this`command
      ensures Valid() && (Place(), None) == Step(localNode, old(Place()), c)
    {
      match decoderState
      case WaitHeader0 =>
        decoderState := if c == HEADER_0 then WaitHeader1 else WaitHeader0;
      case WaitHeader1 =>
        decoderState := if c == HEADER_1 then WaitAddressed else WaitHeader0;
      case WaitAddressed =>
        if c == localNode {
          decoderState := WaitOwn;
          addressed := c;
        } else {
          decoderState := WaitHeader0;
        }
      case WaitOwn =>
        own := c;
        decoderState := WaitCommand;
      case WaitCommand =>
        command := c;
        decoderState := WaitByteCount;
      case WaitByteCount =>
        packetCount := c as nat;
        byteCount := packetCount;
        decoderState := if byteCount > 0 then WaitData else WaitLrc;
    }

    /** The decoder in the data and at the LRC, which completes the packet. */
    method DecodeTail(c: byte) returns (whole: bool)
      requires Valid() && (decoderState == WaitData || decoderState == WaitLrc)
      modifies this`decoderState, this`byteCount, this`lrc, data
      ensures Valid()
      ensures var (q, out) := Step(localNode, old(Place()), c);
              Place() == q && whole == out.Some? && (whole ==> out.value == Current())
    {
      whole := decoderState == WaitLrc;
      if whole {
        lrc := c;
        decoderState := WaitHeader0;
      } else {
        data[packetCount - byteCount] := c;
        byteCount := byteCount - 1;
        assert data[..packetCount - byteCount] == old(data[..packetCount - byteCount]) + [c];
        if byteCount == 0 {
          decoderState := WaitLrc;
        }
      }
    }

    /** One poll: takes the byte that has come, if one has. */
    method GetPacketSerial() returns (whole: bool, overrun: bool)
      requires Valid()
      modifies this, data
      ensures Valid()
      ensures sent == old(sent) && commSuccess == old(commSuccess)
      ensures overrun <==> old(received) != [] && TooMuch(old(Place()), old(received)[0])
      ensures old(received) == [] ==> !whole && received == [] && Place() == old(Place())
      ensures old(received) != [] && !overrun ==>
                && received == old(received)[1..]
                && var (q, out) := Polled(localNode, old(Place()), old(received)[0]);
                   && Place() == q
                   && whole == out.Some? && (whole ==> out.value == Current())
    {
      whole, overrun := false, false;
      if received == [] {
        return;
      }
      var arrival := received[0];
      received := received[1..];
      if arrival.None? {
        return;
      }
      if decoderState == WaitByteCount && arrival.value as nat > DATA_SIZE {
        overrun := true;
        return;
      }
      var c := arrival.value;
      if decoderState == WaitData || decoderState == WaitLrc {
        whole := DecodeTail(c);
      } else {
        DecodeHead(c);
      }
    }

    method CalcLrc() returns (r: byte)
      requires Valid()
      ensures r == Lrc(command, Current().data)
    {
      r := Xor(0, command);
      XorLaws(command, packetCount as byte, 0);
      r := Xor(r, packetCount as byte);
      XorLaws(r, 0, 0);
      for i := 0 to packetCount
        invariant r == Xor(Xor(command, packetCount as byte), XorAll(data[..i]))
      {
        assert data[..i + 1] == data[..i] + [data[i]];
        XorAllSnoc(data[..i], data[i]);
        XorLaws(Xor(command, packetCount as byte), XorAll(data[..i]), data[i]);
        r := Xor(r, data[i]);
      }
    }

    /**
     * Checks a packet that has arrived. It is accepted only when its LRC is right and it is not an error
     * report, and only when the flag left by the polling loop is set.
     */
    method CheckResponse() returns (ok: bool)
      requires Valid()
      modifies this`commSuccess
      ensures ok == commSuccess
      ensures ok <==> old(commSuccess) && Checks(Current()) && command != ERROR_ID
    {
      if commSuccess {
        var r := CalcLrc();
        if lrc != r {
          commSuccess := false;
        }
        if command == ERROR_ID {
          commSuccess := false;
        }
      }
      ok := commSuccess;
    }

    /** One poll inside the loop, accounted against the result the loop is after. */
    method Poll(ghost r: Option<(Packet, nat)>, ghost o: bool, ghost left: nat, ghost polls: nat)
      returns (whole: bool, overrun: bool)
      requires Valid() && left <= polls
      requires Due(localNode, Place(), received, left, polls, r, o)
      modifies this, data
      ensures Valid() && commSuccess == old(commSuccess)
      ensures overrun ==> o
      ensures whole && !overrun ==> !o && r == Some((Current(), polls - left))
      ensures !whole && !overrun ==> Owed(localNode, Place(), received, left, polls, r, o)
    {
      whole, overrun := GetPacketSerial();
    }

    /** The polling loop: at most `polls` unsuccessful polls before the timeout clears the flag. */
    method AwaitPacket(polls: nat) returns (overrun: bool)
      requires Valid()
      modifies this, data
      ensures Valid()
      ensures overrun == Overruns(localNode, old(Place()), old(received), polls)
      ensures var r := Await(localNode, old(Place()), old(received), polls);
              !overrun ==>
                && (r.Some? ==> Current() == r.value.0 && commSuccess == (0 < r.value.1 || old(commSuccess)))
                && (r.None? ==> !commSuccess)
    {
      ghost var r := Await(localNode, Place(), received, polls);
      ghost var o := Overruns(localNode, Place(), received, polls);
      var left := polls;
      var whole;
      whole, overrun := Poll(r, o, left, polls);
      while !whole && !overrun
        invariant Valid() && 0 <= left <= polls
        invariant overrun ==> o
        invariant whole && !overrun ==> !o && r == Some((Current(), polls - left))
        invariant !whole && !overrun ==> Owed(localNode, Place(), received, left, polls, r, o)
        invariant commSuccess == (left < polls || old(commSuccess))
        decreases left, !whole
      {
        if left == 0 {
          commSuccess := false;
          break;
        } else {
          commSuccess := true;
        }
        left := left - 1;
        Unspent(localNode, Place(), received, left, polls, r, o);
        whole, overrun := Poll(r, o, left, polls);
      }
    }

    /** The caller's packet is used from now on; it holds the request. */
    method Use(request: Packet)
      requires Valid() && request.Fits() && byteCount <= |request.data|
      modifies this`addressed, this`own, this`command, this`packetCount, this`lrc, data
      ensures Valid() && Place() == Into(old(Place()), request)
    {
      addressed, own, command, lrc := request.addressed, request.own, request.command, request.lrc;
      packetCount := |request.data|;
      forall i | 0 <= i < |request.data| {
        data[i] := request.data[i];
      }
      assert data[..packetCount - byteCount] == request.data[..packetCount - byteCount];
    }

    /**
     * getResponse, into the packet that held the request. A response is accepted exactly when a packet completes in
     * time, its LRC is right, and it is not an error report. The flag is set again only by an unsuccessful poll, so a
     * packet complete on the very first poll also needs the one before it to have been accepted.
     */
    method GetResponse(request: Packet, polls: nat) returns (ok: bool, overrun: bool)
      requires Valid() && request.Fits() && byteCount <= |request.data|
      modifies this, data
      ensures Valid()
      ensures overrun == Overruns(localNode, Into(old(Place()), request), old(received), polls)
      ensures !overrun ==> ok == commSuccess
      ensures var r := Await(localNode, Into(old(Place()), request), old(received), polls);
              !overrun ==>
                (ok <==> (&& r.Some? && r.value.0.Fits() && Checks(r.value.0) && r.value.0.command != ERROR_ID
                          && (0 < r.value.1 || old(commSuccess))))
    {
      Use(request);
      overrun := AwaitPacket(polls);
      if overrun {
        return false, overrun;
      }
      ok := CheckResponse();
    }
  }
}
