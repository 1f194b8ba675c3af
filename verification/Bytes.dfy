/** Bytes, and the sequence helpers the wire formats share. */
module Bytes {
  newtype byte = x: int | 0 <= x < 0x100

  type bytes = seq<byte>

  type Word = n: nat | n < 0x10000

  type Four = s: bytes | |s| == 4 witness [0, 0, 0, 0]

  function Number(hi: byte, lo: byte): nat { 0x100 * hi as nat + lo as nat }

  const CR: byte := 13
  const LF: byte := 10

  /** tolower on a character. */
  function Lower(b: byte): byte { if 65 <= b <= 90 then b + 32 else b }

  /** What is left after `n` bytes, nothing if there are not so many. */
  function Drop(s: bytes, n: nat): (r: bytes)
    ensures |r| <= |s|
  {
    if n <= |s| then s[n..] else []
  }

  /** `s` written out `n` times. */
  function Repeat(s: bytes, n: nat): bytes {
    if n == 0 then [] else s + Repeat(s, n - 1)
  }

  lemma {:induction false} RepeatLength(s: bytes, n: nat)
    ensures |Repeat(s, n)| == n * |s|
  {
    if n == 0 {
    } else {
      RepeatLength(s, n - 1);
      assert (n - 1) * |s| + |s| == n * |s|;
    }
  }

  lemma {:induction false} RepeatSplit(s: bytes, m: nat, n: nat)
    ensures Repeat(s, m + n) == Repeat(s, m) + Repeat(s, n)
  {
    if m == 0 {
      assert Repeat(s, 0) + Repeat(s, n) == Repeat(s, n);
    } else {
      RepeatSplit(s, m - 1, n);
      assert s + (Repeat(s, m - 1) + Repeat(s, n)) == s + Repeat(s, m - 1) + Repeat(s, n);
    }
  }

  lemma {:induction false} RepeatNested(s: bytes, r: nat, n: nat)
    ensures Repeat(Repeat(s, r), n) == Repeat(s, n * r)
  {
    if n == 0 {
    } else {
      RepeatNested(s, r, n - 1);
      RepeatSplit(s, r, (n - 1) * r);
      assert r + (n - 1) * r == n * r;
    }
  }

  function Concat(parts: seq<bytes>): bytes {
    if parts == [] then [] else parts[0] + Concat(parts[1..])
  }

  /** What is known of a text that starts with `head`. */
  lemma Starts(head: bytes, tail: bytes)
    ensures (head + tail)[..|head|] == head && (head + tail)[|head|..] == tail
    ensures forall i | 0 <= i < |head| :: (head + tail)[i] == head[i]
  {
  }
}
