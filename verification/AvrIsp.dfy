/**
 * AVR in-system programming: flash pages through the target's page buffer, and byte-wise EEPROM.
 *
 * The target answers four-byte SPI instructions. Flash words are loaded into a page buffer that is one page
 * long; a write instruction programs the page an address lies in and clears the buffer.
 */
module AvrIsp {
  import opened Bytes
  import opened Division
  import opened NorFlash

  const LOW: nat := 0
  const HIGH: nat := 1
  const STK_OK: byte := 0x10
  const STK_FAILED: byte := 0x11
  const EECHUNK: nat := 32
  const ADDRESSES: nat := 0x1_0000

  datatype Cell = Cell(lo: byte, hi: byte)

  const CLEAR := Cell(ERASED, ERASED)

  function Program(cell: Cell, value: Cell): Cell {
    Cell(Programmed(cell.lo, value.lo), Programmed(cell.hi, value.hi))
  }

  lemma ProgramClear(w: Cell)
    ensures Program(CLEAR, w) == w == Program(w, CLEAR)
  {
    ProgramErased(w.lo);
    ProgramErased(w.hi);
    ProgramNothing(w.lo);
    ProgramNothing(w.hi);
  }

  /** The target: flash words, page buffer, EEPROM bytes, and the pages written so far. */
  datatype Chip = Chip(flash: seq<Cell>, buffer: seq<Cell>, eeprom: bytes, committed: seq<nat>) {
    predicate Valid() {
      |flash| == ADDRESSES && |eeprom| == ADDRESSES && |buffer| in {16, 32, 64, 128}
    }

    predicate BufferClear() { forall i | 0 <= i < |buffer| :: buffer[i] == CLEAR }
  }

  /** The flash as it will be once the buffer has been written to the page at `page`. */
  function Merged(flash: seq<Cell>, buffer: seq<Cell>, page: nat): (r: seq<Cell>)
    ensures |r| == |flash|
  {
    seq(|flash|, w requires 0 <= w < |flash| =>
      if page <= w < page + |buffer| then Program(flash[w], buffer[w - page]) else flash[w])
  }

  /** One instruction, and the byte shifted out while its last byte is shifted in. */
  function Transact(chip: Chip, a: byte, b: byte, c: byte, d: byte): (r: (Chip, byte))
    requires chip.Valid()
    ensures r.0.Valid()
  {
    var addr := b as nat * 0x100 + c as nat;
    var cell := addr % |chip.buffer|;
    match a
    case 0x40 =>
      (chip.(buffer := chip.buffer[cell := chip.buffer[cell].(lo := Programmed(chip.buffer[cell].lo, d))]), 0)
    case 0x48 =>
      (chip.(buffer := chip.buffer[cell := chip.buffer[cell].(hi := Programmed(chip.buffer[cell].hi, d))]), 0)
    case 0x4C =>
      var page := addr - cell;
      (chip.(flash := Merged(chip.flash, chip.buffer, page),
             buffer := seq(|chip.buffer|, i => CLEAR),
             committed := chip.committed + [page]), 0)
    case 0x20 => (chip, chip.flash[addr].lo)
    case 0x28 => (chip, chip.flash[addr].hi)
    case 0xC0 => (chip.(eeprom := chip.eeprom[addr := d]), 0)
    case 0xA0 => (chip, chip.eeprom[addr])
    case _ => (chip, 0)
  }

  /** The word address of the page an address lies in; an unknown page size makes every word its own page. */
  function AddrPage(pagesize: nat, addr: nat): nat {
    if pagesize == 32 then addr - addr % 16
    else if pagesize == 64 then addr - addr % 32
    else if pagesize == 128 then addr - addr % 64
    else if pagesize == 256 then addr - addr % 128
    else addr
  }

  /** The little-endian words of a byte buffer. */
  function Pairs(buff: bytes, n: nat): (r: seq<Cell>)
    requires 2 * n <= |buff|
    ensures |r| == n
  {
    seq(n, i requires 0 <= i < n => Cell(buff[2 * i], buff[2 * i + 1]))
  }

  /** The flash after programming `words` from `start` on and nothing else. */
  function Burned(flash: seq<Cell>, start: nat, words: seq<Cell>): (r: seq<Cell>)
    ensures |r| == |flash|
  {
    seq(|flash|, w requires 0 <= w < |flash| =>
      if start <= w < start + |words| then Program(flash[w], words[w - start]) else flash[w])
  }

  /** `count` pages in increasing order. */
  function Pages(first: nat, step: nat, count: nat): (r: seq<nat>)
    ensures |r| == count && forall k | 0 <= k < count :: r[k] == first + k * step
  {
    seq(count, k requires 0 <= k => first + k * step)
  }

  lemma PagesSnoc(first: nat, step: nat, k: nat)
    ensures Pages(first, step, k + 1) == Pages(first, step, k) + [first + k * step]
  {
  }

  /** The pages that `n` words from `start` touch; the page of `start` is committed even when there are none. */
  function TouchedPages(pw: nat, start: nat, n: nat): seq<nat>
    requires 0 < pw
  {
    var first, last := PageOf(start, pw), PageOf(if n == 0 then start else start + n - 1, pw);
    Pages(first, pw, if last < first then 0 else (last - first) / pw + 1)
  }

  /** The bytes read back from `n` words. */
  function FlashBytes(flash: seq<Cell>, start: nat, n: nat): bytes
    requires start + n <= |flash|
  {
    if n == 0 then [] else FlashBytes(flash, start, n - 1) + [flash[start + n - 1].lo, flash[start + n - 1].hi]
  }

  /** Programming erased words and reading the same range gives back the very bytes. */
  lemma {:induction false} BurnedReadsBack(flash: seq<Cell>, start: nat, buff: bytes, n: nat, m: nat)
    requires 2 * n <= |buff| && start + n <= |flash| && m <= n
    requires forall w | start <= w < start + n :: flash[w] == CLEAR
    ensures FlashBytes(Burned(flash, start, Pairs(buff, n)), start, m) == buff[..2 * m]
  {
    if m == 0 {
    } else {
      BurnedReadsBack(flash, start, buff, n, m - 1);
      ProgramClear(Pairs(buff, n)[m - 1]);
      assert buff[..2 * m] == buff[..2 * (m - 1)] + [buff[2 * (m - 1)], buff[2 * (m - 1) + 1]];
    }
  }

  /** Writing a clear buffer changes no word, whatever the page. */
  lemma MergedClear(chip: Chip, page: nat)
    requires chip.BufferClear()
    ensures Merged(chip.flash, chip.buffer, page) == chip.flash
  {
    forall w | 0 <= w < |chip.flash|
      ensures Program(chip.flash[w], CLEAR) == chip.flash[w]
    {
      ProgramClear(chip.flash[w]);
    }
  }

  /** Loading one more word extends what will be burned by that word. */
  lemma LoadedWord(flash0: seq<Cell>, chip: Chip, page: nat, start: nat, words: seq<Cell>, w: Cell)
    requires chip.Valid() && |flash0| == ADDRESSES
    requires Merged(chip.flash, chip.buffer, page) == Burned(flash0, start, words)
    requires page <= start + |words| < page + |chip.buffer| && start + |words| < ADDRESSES
    requires chip.buffer[start + |words| - page] == CLEAR
    ensures Merged(chip.flash, chip.buffer[start + |words| - page := w], page) == Burned(flash0, start, words + [w])
  {
    var here := start + |words|;
    var before, after := Merged(chip.flash, chip.buffer, page), Merged(chip.flash, chip.buffer[here - page := w], page);
    ProgramClear(chip.flash[here]);
    assert before[here] == flash0[here] == chip.flash[here];
    forall x | 0 <= x < ADDRESSES
      ensures after[x] == Burned(flash0, start, words + [w])[x]
    {
      assert x != here ==> after[x] == before[x] == Burned(flash0, start, words)[x];
    }
  }

  /** `data` written over `memory` from `start` on. */
  function Spliced(memory: bytes, start: nat, data: bytes): (r: bytes)
    requires start + |data| <= |memory|
    ensures |r| == |memory| && r[start..start + |data|] == data
  {
    memory[..start] + data + memory[start + |data|..]
  }

  lemma SplicedSnoc(memory: bytes, start: nat, data: bytes, b: byte)
    requires start + |data| < |memory|
    ensures Spliced(memory, start, data + [b]) == Spliced(memory, start, data)[start + |data| := b]
  {
  }

  lemma SplicedNext(memory: bytes, start: nat, data: bytes, x: nat)
    requires start + |data| <= |memory| && x < |data|
    ensures Spliced(memory, start, data[..x + 1]) == Spliced(memory, start, data[..x])[start + x := data[x]]
  {
    SplicedSnoc(memory, start, data[..x], data[x]);
    assert data[..x + 1] == data[..x] + [data[x]];
  }

  lemma SplicedAppend(memory: bytes, start: nat, first: bytes, second: bytes)
    requires start + |first| + |second| <= |memory|
    ensures Spliced(memory, start, first + second)
         == Spliced(Spliced(memory, start, first), start + |first|, second)
  {
  }

  function AddrHigh(addr: nat): byte { (addr / 0x100 % 0x100) as byte }

  function AddrLow(addr: nat): byte { (addr % 0x100) as byte }

  lemma AddrRecombines(addr: nat)
    requires addr < ADDRESSES
    ensures AddrHigh(addr) as nat * 0x100 + AddrLow(addr) as nat == addr
  {
  }

  lemma PageBounds(pagesize: nat, words: nat, addr: nat)
    requires words in {16, 32, 64, 128} && pagesize == 2 * words
    ensures AddrPage(pagesize, addr) == addr - addr % words
    ensures AddrPage(pagesize, addr) <= addr < AddrPage(pagesize, addr) + words
    ensures AddrPage(pagesize, addr) % words == 0
  {
    QuotientAndRest(addr, words);
    QuotientUnique(addr / words * words, words, addr / words);
  }

  /** Inside the page an address belongs to, its buffer cell is its distance from the page start. */
  lemma CellInPage(page: nat, words: nat, addr: nat)
    requires words in {16, 32, 64, 128} && page % words == 0 && page <= addr < page + words
    ensures addr % words == addr - page
  {
  }

  /** The next page starts where this one ends. */
  lemma NextPage(page: nat, words: nat, addr: nat)
    requires words in {16, 32, 64, 128} && page % words == 0 && page <= addr <= page + words
    ensures addr - addr % words == if addr == page + words then page + words else page
  {
    if addr < page + words {
      CellInPage(page, words, addr);
    } else {
      var q := page / words;
      QuotientAndRest(page, words);
      assert (q + 1) * words == q * words + words;
      QuotientUnique(addr, words, q + 1);
    }
  }

  function PageOf(addr: nat, pw: nat): nat
    requires 0 < pw
  {
    addr - addr % pw
  }

  /**
   * Where the page loop stands after `words` words from `start`: the open page is that of the last word loaded,
   * the pages before it are committed, and the buffer holds the rest.
   */
  ghost predicate Progress(c0: Chip, chip: Chip, start: nat, page: nat, k: nat, words: seq<Cell>) {
    && c0.Valid() && chip.Valid()
    && var pw, here, first := |c0.buffer|, start + |words|, PageOf(start, |c0.buffer|);
    && |chip.buffer| == pw && chip.eeprom == c0.eeprom
    && page == PageOf(if words == [] then start else here - 1, pw)
    && page == first + k * pw && page <= here <= page + pw && here <= ADDRESSES
    && (forall i | 0 <= i < pw && here <= page + i :: chip.buffer[i] == CLEAR)
    && Merged(chip.flash, chip.buffer, page) == Burned(c0.flash, start, words)
    && chip.committed == c0.committed + Pages(first, pw, k)
  }

  /** Every page counted from the page of an address is aligned. */
  lemma PageAligned(first: nat, pw: nat, k: nat, start: nat)
    requires 0 < pw && first == PageOf(start, pw)
    ensures (first + k * pw) % pw == 0
  {
    var q := start / pw;
    QuotientAndRest(start, pw);
    assert (q + k) * pw == q * pw + k * pw;
    QuotientUnique(first + k * pw, pw, q + k);
  }

  /** The open page is the last of the touched ones. */
  lemma TouchedSoFar(c0: Chip, chip: Chip, start: nat, page: nat, k: nat, words: seq<Cell>)
    requires Progress(c0, chip, start, page, k, words)
    ensures TouchedPages(|c0.buffer|, start, |words|) == Pages(PageOf(start, |c0.buffer|), |c0.buffer|, k + 1)
  {
    QuotientUnique(page - PageOf(start, |c0.buffer|), |c0.buffer|, k);
  }

  lemma ProgressStarts(chip: Chip, start: nat)
    requires chip.Valid() && chip.BufferClear() && start < ADDRESSES
    ensures Progress(chip, chip, start, PageOf(start, |chip.buffer|), 0, [])
  {
    MergedClear(chip, PageOf(start, |chip.buffer|));
    assert Burned(chip.flash, start, []) == chip.flash;
    assert Pages(PageOf(start, |chip.buffer|), |chip.buffer|, 0) == [];
  }

  /** Committing the open page adds it to the list and burns everything loaded. */
  lemma ProgressCommits(c0: Chip, chip: Chip, t: Chip, start: nat, page: nat, k: nat, words: seq<Cell>)
    requires Progress(c0, chip, start, page, k, words)
    requires t.Valid() && t.BufferClear() && |t.buffer| == |chip.buffer|
    requires t.flash == Merged(chip.flash, chip.buffer, page) && t.eeprom == chip.eeprom
    requires t.committed == chip.committed + [page]
    ensures t.flash == Burned(c0.flash, start, words)
    ensures var first := PageOf(start, |c0.buffer|);
            t.committed == c0.committed + Pages(first, |c0.buffer|, k + 1)
  {
    PagesSnoc(PageOf(start, |c0.buffer|), |c0.buffer|, k);
  }

  /** Moving on to the next page after a commit. */
  lemma ProgressTurnsPage(c0: Chip, chip: Chip, t: Chip, start: nat, page: nat, k: nat, words: seq<Cell>)
    requires Progress(c0, chip, start, page, k, words) && words != []
    requires t.Valid() && t.BufferClear() && |t.buffer| == |chip.buffer|
    requires t.flash == Merged(chip.flash, chip.buffer, page) && t.eeprom == chip.eeprom
    requires t.committed == chip.committed + [page]
    requires page != PageOf(start + |words|, |chip.buffer|)
    ensures start + |words| == page + |chip.buffer| == PageOf(start + |words|, |chip.buffer|)
    ensures TurnedTo(c0, t, start, page + |chip.buffer|, k + 1, words)
  {
    var pw, first := |c0.buffer|, PageOf(start, |c0.buffer|);
    ProgressCommits(c0, chip, t, start, page, k, words);
    PageAligned(first, pw, k, start);
    NextPage(page, pw, start + |words|);
    MergedClear(t, page + pw);
    assert (k + 1) * pw == k * pw + pw;
  }

  /** As Progress, with the open page already that of the next word. */
  ghost predicate TurnedTo(c0: Chip, chip: Chip, start: nat, page: nat, k: nat, words: seq<Cell>) {
    && c0.Valid() && chip.Valid()
    && var pw, here, first := |c0.buffer|, start + |words|, PageOf(start, |c0.buffer|);
    && |chip.buffer| == pw && chip.eeprom == c0.eeprom
    && page == PageOf(here, pw)
    && page == first + k * pw
    && (forall i | 0 <= i < pw && here <= page + i :: chip.buffer[i] == CLEAR)
    && Merged(chip.flash, chip.buffer, page) == Burned(c0.flash, start, words)
    && chip.committed == c0.committed + Pages(first, pw, k)
  }

  lemma SamePage(c0: Chip, chip: Chip, start: nat, page: nat, k: nat, words: seq<Cell>)
    requires Progress(c0, chip, start, page, k, words) && page == PageOf(start + |words|, |chip.buffer|)
    ensures TurnedTo(c0, chip, start, page, k, words)
  {
  }

  /** Loading the next word into the open page. */
  lemma ProgressLoads(c0: Chip, chip: Chip, t: Chip, start: nat, page: nat, k: nat, words: seq<Cell>, w: Cell)
    requires TurnedTo(c0, chip, start, page, k, words) && start + |words| < ADDRESSES
    requires var cell := (start + |words|) % |chip.buffer|;
             t == chip.(buffer := chip.buffer[cell := Program(chip.buffer[cell], w)])
    ensures Progress(c0, t, start, page, k, words + [w])
  {
    var pw, here := |c0.buffer|, start + |words|;
    PageBounds(2 * pw, pw, here);
    CellInPage(page, pw, here);
    ProgramClear(w);
    LoadedWord(c0.flash, chip, page, start, words, w);
  }

  class Programmer {
    var chip: Chip
    var pagesize: nat
    var eepromsize: nat
    var here: nat
    var errors: nat
    const buff: array<byte>
    var client: bytes
    var replies: bytes

    ghost predicate Valid()
      reads this
    {
      chip.Valid() && buff.Length == 256
    }

    /** The programmer knows the target's page size. */
    ghost predicate Matched()
      reads this
    {
      Valid() && pagesize == 2 * |chip.buffer|
    }

    constructor (chip: Chip)
      requires chip.Valid()
      ensures Matched() && this.chip == chip && client == [] && replies == [] && fresh(buff)
    {
      this.chip := chip;
      pagesize, eepromsize, here, errors := 2 * |chip.buffer|, 0, 0, 0;
      buff := new byte[256];
      client, replies := [], [];
    }

    /** Reads `n` bytes from the client into the buffer; the call waits until they are there. */
    method Fill(n: nat)
      requires Valid() && n <= 256 && n <= |client|
      modifies this`client, buff
      ensures buff[..n] == old(client)[..n] && client == old(client)[n..]
    {
      for x := 0 to n
        invariant buff[..x] == old(client)[..x] && client == old(client)[x..]
      {
        buff[x] := client[0];
        client := client[1..];
      }
    }

    method SpiTransaction(a: byte, b: byte, c: byte, d: byte) returns (r: byte)
      requires Valid()
      modifies this`chip
      ensures Valid() && (chip, r) == Transact(old(chip), a, b, c, d)
    {
      var t := Transact(chip, a, b, c, d);
      chip := t.0;
      r := t.1;
    }

    method Flash(hilo: nat, addr: nat, data: byte)
      requires Valid() && hilo < 2 && addr < ADDRESSES
      modifies this`chip
      ensures Valid()
      ensures var i := addr % |old(chip).buffer|;
              var cell := old(chip).buffer[i];
              chip == old(chip).(buffer := old(chip).buffer[i :=
                if hilo == LOW then cell.(lo := Programmed(cell.lo, data)) else cell.(hi := Programmed(cell.hi, data))])
    {
      AddrRecombines(addr);
      var r := SpiTransaction(0x40 + 8 * hilo as byte, AddrHigh(addr), AddrLow(addr), data);
    }

    method Commit(addr: nat)
      requires Valid() && addr < ADDRESSES
      modifies this`chip
      ensures Valid() && chip.BufferClear() && |chip.buffer| == |old(chip).buffer|
      ensures var page := addr - addr % |old(chip).buffer|;
              && chip.flash == Merged(old(chip).flash, old(chip).buffer, page)
              && chip.committed == old(chip).committed + [page]
              && chip.eeprom == old(chip).eeprom
    {
      AddrRecombines(addr);
      var r := SpiTransaction(0x4C, AddrHigh(addr), AddrLow(addr), 0);
    }

    /** Both halves of one word into its cell of the page buffer. */
    method LoadWord(addr: nat, lo: byte, hi: byte)
      requires Valid() && addr < ADDRESSES
      modifies this`chip
      ensures Valid()
      ensures chip == old(chip).(buffer := old(chip).buffer[addr % |old(chip).buffer| :=
                Program(old(chip).buffer[addr % |old(chip).buffer|], Cell(lo, hi))])
    {
      Flash(LOW, addr, lo);
      Flash(HIGH, addr, hi);
    }

    /** The page test at the head of the loop body: a page that is no longer the right one is committed. */
    method OpenPage(page: nat, ghost c0: Chip, ghost start: nat, ghost k: nat, ghost words: seq<Cell>)
      returns (p: nat, ghost j: nat)
      requires Matched() && Progress(c0, chip, start, page, k, words) && here == start + |words| < ADDRESSES
      modifies this`chip
      ensures Matched() && TurnedTo(c0, chip, start, p, j, words)
    {
      p, j := page, k;
      PageBounds(pagesize, |chip.buffer|, here);
      PageAligned(PageOf(start, |chip.buffer|), |chip.buffer|, k, start);
      ghost var before := chip;
      if page != AddrPage(pagesize, here) {
        CellInPage(page, |chip.buffer|, page);
        Commit(page);
        ProgressTurnsPage(c0, before, chip, start, page, k, words);
        p := AddrPage(pagesize, here);
        j := k + 1;
      } else {
        SamePage(c0, chip, start, page, k, words);
      }
    }

    /** The commit after the loop. */
    method CommitLast(page: nat, ghost c0: Chip, ghost start: nat, ghost k: nat, ghost words: seq<Cell>)
      requires Matched() && Progress(c0, chip, start, page, k, words) && start < ADDRESSES
      modifies this`chip
      ensures Matched() && chip.BufferClear() && chip.eeprom == c0.eeprom && |chip.buffer| == |c0.buffer|
      ensures chip.flash == Burned(c0.flash, start, words)
      ensures chip.committed == c0.committed + TouchedPages(|chip.buffer|, start, |words|)
    {
      PageAligned(PageOf(start, |chip.buffer|), |chip.buffer|, k, start);
      CellInPage(page, |chip.buffer|, page);
      TouchedSoFar(c0, chip, start, page, k, words);
      ghost var before := chip;
      Commit(page);
      ProgressCommits(c0, before, chip, start, page, k, words);
    }

    /** The rest of the loop body: the next two bytes of the buffer go to the open page. */
    method LoadNext(x: nat, page: nat, ghost c0: Chip, ghost start: nat, ghost k: nat, ghost words: seq<Cell>)
      requires x + 2 <= 256 && here == start + |words| < ADDRESSES
      requires Matched() && TurnedTo(c0, chip, start, page, k, words)
      modifies this`chip, this`here
      ensures Matched() && Progress(c0, chip, start, page, k, words + [Cell(buff[x], buff[x + 1])])
      ensures here == old(here) + 1
    {
      ghost var before := chip;
      LoadWord(here, buff[x], buff[x + 1]);
      ProgressLoads(c0, before, chip, start, page, k, words, Cell(buff[x], buff[x + 1]));
      here := here + 1;
    }

    /** The loop body: the page is turned if it must be, and the next word loaded. */
    method WriteNext(x: nat, page: nat, ghost c0: Chip, ghost start: nat, ghost k: nat, ghost words: seq<Cell>)
      returns (p: nat, ghost j: nat, ghost now: seq<Cell>)
      requires x == 2 * |words| && x + 2 <= 256 && Matched() && Progress(c0, chip, start, page, k, words)
      requires here == start + |words| < ADDRESSES && words == Pairs(buff[..], |words|)
      modifies this`chip, this`here
      ensures Matched() && Progress(c0, chip, start, p, j, now) && here == old(here) + 1
      ensures |now| == |words| + 1 && now == Pairs(buff[..], |now|)
    {
      p, j := OpenPage(page, c0, start, k, words);
      LoadNext(x, p, c0, start, j, words);
      now := words + [Cell(buff[x], buff[x + 1])];
    }

    /**
     * Programs `length` bytes from the buffer at the current word address. Exactly the words in that range are
     * programmed, each page they touch is committed once and in increasing order, and the page buffer is left
     * clear, so that no word of one page is ever committed with another.
     */
    method WriteFlashPages(length: nat) returns (r: byte)
      requires Matched() && chip.BufferClear()
      requires length <= 256 && length % 2 == 0 && here + length / 2 <= ADDRESSES && here < ADDRESSES
      modifies this`chip, this`here
      ensures Matched() && chip.BufferClear() && r == STK_OK
      ensures here == old(here) + length / 2
      ensures chip.flash == Burned(old(chip).flash, old(here), Pairs(buff[..], length / 2))
      ensures chip.committed == old(chip).committed + TouchedPages(|chip.buffer|, old(here), length / 2)
      ensures chip.eeprom == old(chip).eeprom && |chip.buffer| == |old(chip).buffer|
    {
      var x := 0;
      ghost var c0, start, words, k: nat := chip, here, [], 0;
      var page: nat := AddrPage(pagesize, here);
      PageBounds(pagesize, |chip.buffer|, here);
      ProgressStarts(chip, here);
      while x < length
        invariant x == 2 * |words| <= length && here == start + |words|
        invariant Matched() && Progress(c0, chip, start, page, k, words)
        invariant words == Pairs(buff[..], |words|)
      {
        page, k, words := WriteNext(x, page, c0, start, k, words);
        x := x + 2;
      }
      CommitLast(page, c0, start, k, words);
      r := STK_OK;
    }

    method FlashRead(hilo: nat, addr: nat) returns (r: byte)
      requires Valid() && hilo < 2 && addr < ADDRESSES
      modifies this`chip
      ensures chip == old(chip)
      ensures r == if hilo == LOW then chip.flash[addr].lo else chip.flash[addr].hi
    {
      AddrRecombines(addr);
      r := SpiTransaction(0x20 + 8 * hilo as byte, AddrHigh(addr), AddrLow(addr), 0);
    }

    /** Sends `length` bytes of flash from the current word address, then OK. */
    method FlashReadPage(length: nat)
      requires Valid() && here + (length + 1) / 2 <= ADDRESSES
      modifies this`chip, this`here, this`replies
      ensures chip == old(chip) && here == old(here) + (length + 1) / 2
      ensures length <= |FlashBytes(chip.flash, old(here), (length + 1) / 2)|
      ensures replies == old(replies) + FlashBytes(chip.flash, old(here), (length + 1) / 2)[..length] + [STK_OK]
    {
      ghost var start, n: nat := here, 0;
      var data: bytes := [];
      var x := 0;
      while x < length
        invariant chip == old(chip) && here == start + n && replies == old(replies)
        invariant x == 2 * n <= length + 1
        invariant here <= ADDRESSES && data == FlashBytes(chip.flash, start, n) && |data| == x
        decreases length - x
      {
        var lo := FlashRead(LOW, here);
        var hi := FlashRead(HIGH, here);
        data := data + [lo, hi];
        here := here + 1;
        x := x + 2;
        n := n + 1;
      }
      replies := replies + data[..length] + [STK_OK];
    }

    /** One byte of EEPROM. */
    method WriteEepromByte(addr: nat, b: byte)
      requires Valid() && addr < ADDRESSES
      modifies this`chip
      ensures Valid() && chip == old(chip).(eeprom := old(chip).eeprom[addr := b])
    {
      AddrRecombines(addr);
      var r := SpiTransaction(0xC0, AddrHigh(addr), AddrLow(addr), b);
    }

    /** Takes `length` bytes from the client and writes them to EEPROM, byte by byte. */
    method WriteEepromChunk(start: nat, length: nat)
      requires Valid() && length <= 256 && length <= |client| && start + length <= ADDRESSES
      modifies this`client, this`chip, buff
      ensures Valid() && client == old(client)[length..]
      ensures chip == old(chip).(eeprom := Spliced(old(chip).eeprom, start, old(client)[..length]))
    {
      Fill(length);
      ghost var data := buff[..length];
      for x := 0 to length
        invariant Valid() && client == old(client)[length..] && buff[..length] == data
        invariant chip == old(chip).(eeprom := Spliced(old(chip).eeprom, start, data[..x]))
      {
        SplicedNext(old(chip).eeprom, start, data, x);
        WriteEepromByte(start + x, buff[x]);
      }
      assert data[..length] == data;
    }

    /** The next chunk, after `n` bytes of the client's have been written. */
    method WriteNextChunk(from: nat, n: nat, count: nat, ghost c0: Chip, ghost all: bytes)
      requires Valid() && count <= 256 && n + count <= |all| && from + n + count <= ADDRESSES && c0.Valid()
      requires client == all[n..] && chip == c0.(eeprom := Spliced(c0.eeprom, from, all[..n]))
      modifies this`client, this`chip, buff
      ensures Valid() && client == all[n + count..]
      ensures chip == c0.(eeprom := Spliced(c0.eeprom, from, all[..n + count]))
    {
      SplicedAppend(c0.eeprom, from, all[..n], client[..count]);
      assert all[..n] + client[..count] == all[..n + count];
      WriteEepromChunk(from + n, count);
    }

    /** A request larger than the EEPROM is refused; any other is written in chunks that together are the data. */
    method WriteEeprom(length: nat) returns (r: byte)
      requires Valid()
      requires length <= eepromsize ==> length <= |client| && 2 * here + length <= ADDRESSES
      modifies this`client, this`chip, this`errors, buff
      ensures Valid()
      ensures length > eepromsize ==>
                r == STK_FAILED && errors == old(errors) + 1 && chip == old(chip) && client == old(client)
      ensures length <= eepromsize ==>
                && r == STK_OK && errors == old(errors) && client == old(client)[length..]
                && chip == old(chip).(eeprom := Spliced(old(chip).eeprom, 2 * here, old(client)[..length]))
    {
      if length > eepromsize {
        errors := errors + 1;
        return STK_FAILED;
      }
      ghost var c0, all := chip, client;
      var start := here * 2;
      var remaining := length;
      while remaining > EECHUNK
        invariant 0 <= remaining <= length && start == 2 * here + length - remaining
        invariant Valid() && errors == old(errors) && client == all[length - remaining..]
        invariant chip == c0.(eeprom := Spliced(c0.eeprom, 2 * here, all[..length - remaining]))
      {
        WriteNextChunk(2 * here, length - remaining, EECHUNK, c0, all);
        start := start + EECHUNK;
        remaining := remaining - EECHUNK;
      }
      WriteNextChunk(2 * here, length - remaining, remaining, c0, all);
      r := STK_OK;
    }

    /** Sends `length` bytes of EEPROM from twice the current word address, then OK. */
    method EepromReadPage(length: nat)
      requires Valid() && 2 * here + length <= ADDRESSES
      modifies this`chip, this`replies
      ensures chip == old(chip)
      ensures replies == old(replies) + chip.eeprom[2 * here..2 * here + length] + [STK_OK]
    {
      var data: bytes := [];
      var start := here * 2;
      for x := 0 to length
        invariant chip == old(chip) && replies == old(replies)
        invariant data == chip.eeprom[start..start + x]
      {
        AddrRecombines(start + x);
        var ee := SpiTransaction(0xA0, AddrHigh(start + x), AddrLow(start + x), 0xFF);
        data := data + [ee];
      }
      replies := replies + data + [STK_OK];
    }
  }
}
