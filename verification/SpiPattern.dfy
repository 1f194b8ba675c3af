/**
 * writePattern: a long repetition of a short pattern, sent from a 64-byte FIFO.
 *
 * The FIFO is filled once with as many whole patterns as fit and sent again and again; a last, shorter burst
 * sends the patterns left over.
 */
module SpiPattern {
  import opened Bytes
  import opened Division

  const FIFO_SIZE: nat := 64

  /** Patterns left for the last burst, in bytes. */
  function Leftover(size: nat, repeat: nat): (n: nat)
    requires size <= FIFO_SIZE
    ensures n <= FIFO_SIZE
  {
    if repeat * size <= FIFO_SIZE then
      repeat * size
    else
      var r := FIFO_SIZE / size;
      assert repeat % r * size <= r * size <= FIFO_SIZE by { Scale(repeat % r, r, size); }
      repeat % r * size
  }

  /** Full bursts sent before the last one. */
  function FullBursts(size: nat, repeat: nat): nat
    requires size <= FIFO_SIZE
  {
    if repeat * size <= FIFO_SIZE then 0 else repeat / (FIFO_SIZE / size)
  }

  /** `k` blocks of `r` patterns and `m` more patterns are `k * r + m` patterns. */
  lemma BlocksAndRest(pattern: bytes, r: nat, k: nat, m: nat)
    ensures Repeat(Repeat(pattern, r), k) + Repeat(pattern, m) == Repeat(pattern, k * r + m)
  {
    RepeatNested(pattern, r, k);
    RepeatSplit(pattern, k * r, m);
  }

  /** The first `m` patterns of a block of `r` are `m` patterns. */
  lemma BlockPrefix(pattern: bytes, r: nat, m: nat)
    requires m <= r
    ensures m * |pattern| <= r * |pattern| == |Repeat(pattern, r)|
    ensures Repeat(pattern, r)[..m * |pattern|] == Repeat(pattern, m)
  {
    Scale(m, r, |pattern|);
    RepeatLength(pattern, r);
    RepeatLength(pattern, m);
    RepeatSplit(pattern, m, r - m);
  }

  lemma LongCoversWith(pattern: bytes, r: nat, k: nat, m: nat)
    requires m <= r
    ensures m * |pattern| <= r * |pattern| == |Repeat(pattern, r)|
    ensures Repeat(Repeat(pattern, r), k) + Repeat(pattern, r)[..m * |pattern|] == Repeat(pattern, k * r + m)
  {
    BlocksAndRest(pattern, r, k, m);
    BlockPrefix(pattern, r, m);
  }

  /** Full bursts, then the start of the block still in the FIFO, are the whole repetition. */
  lemma LongCovers(pattern: bytes, repeat: nat, r: nat, left: nat)
    requires |pattern| <= FIFO_SIZE < repeat * |pattern|
    requires r == FIFO_SIZE / |pattern| && left == Leftover(|pattern|, repeat)
    ensures 0 < r && r * |pattern| <= FIFO_SIZE
    ensures left <= r * |pattern| == |Repeat(pattern, r)|
    ensures Repeat(Repeat(pattern, r), FullBursts(|pattern|, repeat)) + Repeat(pattern, r)[..left]
            == Repeat(pattern, repeat)
  {
    QuotientAtMost(FIFO_SIZE, |pattern|, 0);
    QuotientAndRest(FIFO_SIZE, |pattern|);
    QuotientAndRest(repeat, r);
    LongCoversWith(pattern, r, repeat / r, repeat % r);
  }

  /** The nine-bit length field for a bit count: one less, in the 16 bits of the count. */
  function FieldOf(bits: nat): (field: nat)
    requires bits < 0x10000
    ensures field < 0x200
  {
    (bits - 1) % 0x10000 % 0x200
  }

  /** The field, which stands for one bit more than it holds, is right for exactly the counts from 1 to 512. */
  lemma LengthWraps(bits: nat)
    requires bits < 0x10000
    ensures FieldOf(bits) + 1 == bits <==> 1 <= bits <= 8 * FIFO_SIZE
    ensures bits == 0 ==> FieldOf(bits) + 1 == 8 * FIFO_SIZE
  {
  }

  /** The size of the whole is computed in 32 bits. It may come out as one that fits the FIFO though it is not. */
  predicate Wraps(size: nat, repeat: nat) {
    repeat * size >= 0x1_0000_0000 && repeat * size % 0x1_0000_0000 <= FIFO_SIZE
  }

  /** How many patterns are sent: then only as many as an 8-bit counter makes of their number. */
  function Patterns(size: nat, repeat: nat): nat { if Wraps(size, repeat) then repeat % 0x100 else repeat }

  /** The size then is that of the patterns counted, if they fit the buffer. */
  lemma WrapsTo(size: nat, repeat: nat)
    requires Wraps(size, repeat) && repeat % 0x100 * size <= FIFO_SIZE
    ensures repeat * size % 0x1_0000_0000 == repeat % 0x100 * size
  {
    var q, k := repeat / 0x100, repeat * size / 0x1_0000_0000;
    var e, x := repeat % 0x100, repeat * size % 0x1_0000_0000;
    assert repeat * size == 0x100 * (q * size) + e * size by {
      assert repeat == 0x100 * q + e;
      assert (0x100 * q + e) * size == 0x100 * (q * size) + e * size;
    }
    assert repeat * size == 0x1_0000_0000 * k + x;
    assert e * size - x == 0x100 * (0x100_0000 * k - q * size);
  }

  lemma SmallPatterns(pattern: bytes, repeat: nat, r: nat, total: nat)
    requires repeat < 0x1_0000_0000 && r == repeat % 0x100 && |pattern| <= FIFO_SIZE
    requires total == repeat * |pattern| % 0x1_0000_0000 <= FIFO_SIZE
    requires Wraps(|pattern|, repeat) ==> r * |pattern| <= FIFO_SIZE
    ensures var n := Patterns(|pattern|, repeat);
            && total == r * |pattern| == n * |pattern| && Repeat(pattern, r) == Repeat(pattern, n)
            && Leftover(|pattern|, n) == total && FullBursts(|pattern|, n) == 0
  {
    var size := |pattern|;
    RepeatLength(pattern, r);
    RepeatLength(pattern, repeat);
    if Wraps(size, repeat) {
      WrapsTo(size, repeat);
    } else if size == 0 {
      assert Repeat(pattern, r) == [] == Repeat(pattern, repeat);
    } else {
      Scale(1, size, repeat);
      assert repeat <= repeat * size == total;
    }
  }

  lemma LargePatterns(size: nat, repeat: nat)
    requires repeat * size % 0x1_0000_0000 > FIFO_SIZE
    ensures 0 < size && repeat * size > FIFO_SIZE && Patterns(size, repeat) == repeat
  {
  }

  class SpiFifo {
    const fifo: array<byte>
    var lengthField: nat
    var wire: bytes
    var bursts: nat

    ghost predicate Valid()
      reads this
    {
      fifo.Length == FIFO_SIZE && lengthField < 0x200
    }

    /** How many bits one command sends. */
    function DataBits(): nat
      reads this
    {
      lengthField + 1
    }

    constructor ()
      ensures Valid() && wire == [] && bursts == 0 && fresh(fifo)
    {
      fifo := new byte[FIFO_SIZE];
      lengthField, wire, bursts := 7, [], 0;
    }

    /** Sets how many bits a command sends; a count of zero wraps to the full 512. */
    method SetDataBits(bits: nat)
      requires Valid() && bits <= 8 * FIFO_SIZE
      modifies this`lengthField
      ensures Valid()
      ensures 0 < bits ==> DataBits() == bits
      ensures bits == 0 ==> DataBits() == 8 * FIFO_SIZE
    {
      var less := (bits - 1) % 0x10000;
      lengthField := less % 0x200;
      LengthWraps(bits);
    }

    /** One SPI command: as many bits of the FIFO as the length field says go out. */
    method Burst()
      requires Valid()
      modifies this`wire, this`bursts
      ensures Valid()
      ensures wire == old(wire) + fifo[..DataBits() / 8] && bursts == old(bursts) + 1
    {
      wire := wire + fifo[..DataBits() / 8];
      bursts := bursts + 1;
    }

    /** Copies one pattern to the buffer, byte by byte. */
    static method CopyPattern(data: array<byte>, size: nat, buffer: array<byte>, p: nat)
      requires size <= data.Length && p + size <= buffer.Length && data != buffer
      modifies buffer
      ensures buffer[..p + size] == old(buffer[..p]) + data[..size]
    {
      for i := 0 to size
        invariant buffer[..p + i] == old(buffer[..p]) + data[..i]
      {
        buffer[p + i] := data[i];
        assert buffer[..p + i + 1] == buffer[..p + i] + [data[i]];
        assert data[..i + 1] == data[..i] + [data[i]];
      }
    }

    /** Copies `r` patterns into a fresh 64-byte buffer. */
    static method FillBuffer(data: array<byte>, size: nat, r: nat) returns (buffer: array<byte>)
      requires size <= data.Length && r * size <= FIFO_SIZE
      ensures fresh(buffer) && buffer.Length == FIFO_SIZE
      ensures buffer[..r * size] == Repeat(data[..size], r)
    {
      buffer := new byte[FIFO_SIZE];
      var pattern := data[..size];
      var p := 0;
      var k := 0;
      while k < r
        invariant 0 <= k <= r && p == k * size
        invariant p <= FIFO_SIZE
        invariant data[..size] == pattern
        invariant buffer[..p] == Repeat(pattern, k)
      {
        assert p + size == (k + 1) * size <= r * size by { Scale(k + 1, r, size); }
        CopyPattern(data, size, buffer, p);
        p := p + size;
        RepeatSplit(pattern, k, 1);
        assert Repeat(pattern, 1) == pattern + Repeat(pattern, 0) == pattern;
        k := k + 1;
      }
    }

    /** Copies `words` 32-bit words from the buffer to the FIFO registers. */
    method FillFifo(buffer: array<byte>, words: nat)
      requires Valid() && buffer != fifo && buffer.Length == FIFO_SIZE && 4 * words <= FIFO_SIZE
      modifies fifo
      ensures fifo[..4 * words] == buffer[..4 * words]
    {
      for i := 0 to words
        invariant fifo[..4 * i] == buffer[..4 * i]
      {
        fifo[4 * i], fifo[4 * i + 1], fifo[4 * i + 2], fifo[4 * i + 3] :=
          buffer[4 * i], buffer[4 * i + 1], buffer[4 * i + 2], buffer[4 * i + 3];
      }
    }

    /** Sends the FIFO `n` times. */
    method SendBlocks(block: bytes, n: nat)
      requires Valid() && 8 * |block| == DataBits() && fifo[..|block|] == block
      modifies this`wire, this`bursts
      ensures Valid()
      ensures wire == old(wire) + Repeat(block, n) && bursts == old(bursts) + n
    {
      var left := n;
      while left > 0
        invariant 0 <= left <= n
        invariant wire == old(wire) + Repeat(block, n - left)
        invariant bursts == old(bursts) + n - left
      {
        Burst();
        RepeatSplit(block, n - left, 1);
        assert Repeat(block, 1) == block + Repeat(block, 0) == block;
        left := left - 1;
      }
    }

    /** The short case: the whole repetition is put in the FIFO, ready for one burst. */
    method LoadAll(data: array<byte>, size: nat, repeat: nat)
      requires Valid() && data != fifo
      requires size <= data.Length && repeat * size <= FIFO_SIZE
      modifies fifo
      ensures fifo[..repeat * size] == Repeat(old(data[..size]), repeat)
    {
      var total := repeat * size;
      var buffer := FillBuffer(data, size, repeat);
      var words := if total % 4 != 0 then total / 4 + 1 else total / 4;
      FillFifo(buffer, words);
      assert fifo[..total] == fifo[..4 * words][..total] == buffer[..total];
    }

    /** The long case: full blocks go out, and the FIFO still starts with the block. */
    method SendLong(data: array<byte>, size: nat, r: nat, n: nat)
      requires Valid() && data != fifo
      requires 0 < size <= data.Length && 0 < r && r * size <= FIFO_SIZE
      modifies this`lengthField, this`wire, this`bursts, fifo
      ensures Valid()
      ensures fifo[..r * size] == Repeat(old(data[..size]), r)
      ensures wire == old(wire) + Repeat(Repeat(old(data[..size]), r), n) && bursts == old(bursts) + n
    {
      var buffer := FillBuffer(data, size, r);
      FillFifo(buffer, 16);
      assert fifo[..r * size] == fifo[..64][..r * size] == buffer[..r * size];
      SetDataBits(r * size * 8);
      SendBlocks(Repeat(data[..size], r), n);
    }

    /** Everything before the last burst: the FIFO then starts with the bytes still owed, as many as the result says. */
    method Prepare(data: array<byte>, size: nat, repeat: nat) returns (repeatRem: nat)
      requires Valid() && data != fifo
      requires size <= data.Length && size <= FIFO_SIZE && repeat < 0x1_0000_0000
      requires Wraps(size, repeat) ==> repeat % 0x100 * size <= FIFO_SIZE
      modifies this`lengthField, this`wire, this`bursts, fifo
      ensures Valid()
      ensures var n := Patterns(size, repeat);
              && repeatRem == Leftover(size, n) <= FIFO_SIZE
              && wire + fifo[..repeatRem] == old(wire) + Repeat(old(data[..size]), n)
              && bursts == old(bursts) + FullBursts(size, n)
    {
      var total := repeat * size % 0x1_0000_0000;
      if total <= FIFO_SIZE {
        repeatRem := total;
        var r := repeat % 0x100;
        SmallPatterns(data[..size], repeat, r, total);
        LoadAll(data, size, r);
      } else {
        LargePatterns(size, repeat);
        ghost var pattern := data[..size];
        var r := FIFO_SIZE / size;
        repeatRem := repeat % r * size;
        LongCovers(pattern, repeat, r, repeatRem);
        SendLong(data, size, r, repeat / r);
        assert fifo[..repeatRem] == fifo[..r * size][..repeatRem];
      }
    }

    /**
     * A pattern longer than the FIFO is dropped. Otherwise the wire carries exactly the repetition when its size does
     * not wrap and something is left for the last burst. When nothing is left it carries 64 bytes too many. When the
     * size wraps it carries too few, or the buffer for them is overrun.
     */
    method WritePattern(data: array<byte>, size: nat, repeat: nat) returns (overrun: bool)
      requires Valid() && data != fifo
      requires size <= data.Length && size < 0x100 && repeat < 0x1_0000_0000
      modifies this`lengthField, this`wire, this`bursts, fifo
      ensures overrun <==> size <= FIFO_SIZE && Wraps(size, repeat) && repeat % 0x100 * size > FIFO_SIZE
      ensures !overrun ==> Valid()
      ensures size > FIFO_SIZE ==> wire == old(wire) && bursts == old(bursts)
      ensures size <= FIFO_SIZE && !overrun ==>
                (wire == old(wire) + Repeat(old(data[..size]), repeat) <==>
                 !Wraps(size, repeat) && Leftover(size, repeat) != 0)
      ensures size <= FIFO_SIZE && !overrun ==>
                var n := Patterns(size, repeat);
                && (Leftover(size, n) != 0 ==> wire == old(wire) + Repeat(old(data[..size]), n))
                && (Leftover(size, n) == 0 ==> |wire| == |old(wire)| + n * size + FIFO_SIZE)
                && bursts == old(bursts) + FullBursts(size, n) + 1
    {
      overrun := size <= FIFO_SIZE && Wraps(size, repeat) && repeat % 0x100 * size > FIFO_SIZE;
      if size > FIFO_SIZE || overrun {
        return;
      }
      ghost var pattern := data[..size];
      RepeatLength(pattern, repeat);
      RepeatLength(pattern, Patterns(size, repeat));
      var repeatRem := Prepare(data, size, repeat);
      SetDataBits(repeatRem * 8);
      Burst();
    }
  }
}
