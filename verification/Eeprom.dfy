/**
 * The EEPROM emulation: a RAM copy of one flash sector, written back on commit.
 *
 * Erasing and programming may fail at any time and then leave the sector in any state.
 */
module Eeprom {
  import opened Bytes
  import opened NorFlash
  import opened Wrappers

  const SECTOR_SIZE: nat := 4096

  /** What the class holds, with the sector behind it. */
  datatype State = State(data: Option<bytes>, dirty: bool, flash: bytes) {
    function Size(): nat { if data.Some? then |data.value| else 0 }

    predicate InRange(address: int) { 0 <= address < Size() }
  }

  datatype Op = Begin(size: nat) | Read(address: int, value: byte) | Write(address: int, value: byte)
              | Commit(ok: bool) | End

  /** Requested sizes are clamped to the sector and rounded up to whole words. */
  function RoundedSize(size: nat): (n: nat)
    ensures n % 4 == 0 && n <= SECTOR_SIZE && (0 < size ==> 0 < n) && (size <= SECTOR_SIZE ==> size <= n < size + 4)
  {
    var clamped := if size > SECTOR_SIZE then SECTOR_SIZE else size;
    (clamped + 3) / 4 * 4
  }

  function Erased(n: nat): (s: bytes)
    ensures |s| == n
  {
    seq(n, i => ERASED)
  }

  /** The RAM copy never exceeds the sector, and a clear dirty flag means that it agrees with the sector. */
  predicate Inv(s: State) {
    && |s.flash| == SECTOR_SIZE
    && (s.data.Some? ==> 0 < |s.data.value| <= SECTOR_SIZE && |s.data.value| % 4 == 0)
    && (s.data.Some? && !s.dirty ==> s.data.value == s.flash[..|s.data.value|])
  }

  /** One write-back: nothing to do, done, or failed with the sector in any state. */
  predicate Committed(s: State, ok: bool, t: State) {
    if s.data.None? then !ok && t == s
    else if !s.dirty then ok && t == s
    else if ok then
      |s.data.value| <= |s.flash|
      && t == s.(dirty := false, flash := s.data.value + Erased(|s.flash| - |s.data.value|))
    else
      |t.flash| == |s.flash| && t == s.(flash := t.flash)
  }

  ghost predicate Next(s: State, op: Op, t: State) {
    match op
    case Begin(n) =>
      if n == 0 then t == s
      else RoundedSize(n) <= |s.flash| && t == s.(data := Some(s.flash[..RoundedSize(n)]))
    case Read(a, v) => t == s && v == if s.InRange(a) then s.data.value[a] else 0
    case Write(a, v) =>
      if s.InRange(a) then t == s.(data := Some(s.data.value[a := v]), dirty := s.dirty || s.data.value[a] != v)
      else t == s
    case Commit(ok) => Committed(s, ok, t)
    case End => if s.data.None? then t == s else exists ok, m :: Committed(s, ok, m) && t == m.(data := None)
  }

  ghost predicate Run(states: seq<State>, ops: seq<Op>) {
    && |states| == |ops| + 1
    && forall i | 0 <= i < |ops| :: Next(states[i], ops[i], states[i + 1])
  }

  lemma StepKeepsInv(s: State, op: Op, t: State)
    requires Inv(s) && Next(s, op, t)
    ensures Inv(t)
  {
    match op
    case Commit(ok) =>
      assert ok && s.data.Some? && s.dirty ==> t.flash[..|s.data.value|] == s.data.value;
    case _ =>
  }

  /** Over any run, whatever fails, a clear dirty flag implies that the RAM copy agrees with the sector. */
  lemma {:induction false} RunKeepsInv(states: seq<State>, ops: seq<Op>)
    requires Run(states, ops) && Inv(states[0])
    ensures forall i | 0 <= i < |states| :: Inv(states[i])
    decreases ops
  {
    if ops != [] {
      StepKeepsInv(states[0], ops[0], states[1]);
      RunKeepsInv(states[1..], ops[1..]);
      forall i | 0 <= i < |states|
        ensures Inv(states[i])
      {
        if 0 < i { assert Inv(states[1..][i - 1]); }
      }
    }
  }

  /** Neither a write nor a write-back is asked for. */
  predicate Quiet(op: Op) { op.Begin? || op.Read? || op.End? }

  lemma QuietStep(s: State, op: Op, t: State)
    requires Inv(s) && !s.dirty && Quiet(op) && Next(s, op, t)
    ensures Inv(t) && !t.dirty && t.flash == s.flash
  {
    StepKeepsInv(s, op, t);
  }

  lemma {:induction false} QuietRun(states: seq<State>, ops: seq<Op>)
    requires Run(states, ops) && Inv(states[0]) && !states[0].dirty
    requires forall op | op in ops :: Quiet(op)
    ensures forall i | 0 <= i < |states| :: Inv(states[i]) && !states[i].dirty && states[i].flash == states[0].flash
    decreases ops
  {
    if ops != [] {
      QuietStep(states[0], ops[0], states[1]);
      QuietRun(states[1..], ops[1..]);
      forall i | 0 <= i < |states|
        ensures Inv(states[i]) && !states[i].dirty && states[i].flash == states[0].flash
      {
        if 0 < i { assert states[i] == states[1..][i - 1]; }
      }
    }
  }

  /**
   * After a commit that returned true, every later read gives back the bytes that were in RAM then, as long as
   * nothing is written or committed, however often the cache is closed and opened again with whatever size.
   */
  lemma CommittedBytesReadBack(states: seq<State>, ops: seq<Op>, k: nat)
    requires Run(states, ops) && Inv(states[0]) && 1 < |ops| && k < |ops| - 1
    requires ops[0] == Commit(true) && forall op | op in ops[1..] :: Quiet(op)
    requires ops[k + 1].Read?
    ensures states[0].data.Some?
    ensures var a := ops[k + 1].address;
            states[k + 1].InRange(a) && states[0].InRange(a) ==> ops[k + 1].value == states[0].data.value[a]
  {
    StepKeepsInv(states[0], ops[0], states[1]);
    QuietRun(states[1..], ops[1..]);
    assert states[k + 1] == states[1..][k];
    assert Next(states[k + 1], ops[k + 1], states[(k + 1) + 1]);
    var d := states[0].data.value;
    assert states[1].flash[..|d|] == d;
  }

  /**
   * What a successful commit does to the part of the sector that is not in RAM: it survives exactly if there was
   * nothing to write back or it was erased anyway.
   */
  lemma CommitErasesTail(s: State, t: State)
    requires Inv(s) && s.data.Some? && Committed(s, true, t)
    ensures t.flash[s.Size()..] == s.flash[s.Size()..] <==>
            !s.dirty || s.flash[s.Size()..] == Erased(SECTOR_SIZE - s.Size())
    ensures s.dirty ==> t.flash[s.Size()..] == Erased(SECTOR_SIZE - s.Size())
  {
    if s.dirty {
      assert t.flash == s.data.value + Erased(SECTOR_SIZE - s.Size());
    }
  }

  /** A run that loses a committed byte: it lies beyond the size the emulation is next opened with. */
  lemma CommittedByteLost(states: seq<State>, v: byte, w: byte)
    requires Run(states, [Begin(4096), Write(4095, v), Commit(true), End, Begin(4), Write(0, w), Commit(true)])
    requires Inv(states[0]) && states[0].data.None? && states[0].flash[0] != w && v != ERASED
    ensures |states[3].flash| == |states[7].flash| == SECTOR_SIZE
    ensures states[3].flash[4095] == v && states[7].flash[4095] == ERASED
  {
    var ops := [Begin(4096), Write(4095, v), Commit(true), End, Begin(4), Write(0, w), Commit(true)];
    assert Next(states[0], ops[0], states[0 + 1]) && Next(states[1], ops[1], states[1 + 1]);
    assert Next(states[2], ops[2], states[2 + 1]) && Next(states[3], ops[3], states[3 + 1]);
    assert Next(states[4], ops[4], states[4 + 1]) && Next(states[5], ops[5], states[5 + 1]);
    assert Next(states[6], ops[6], states[6 + 1]);
    LargeThenCommitted(states[0], states[1], states[2], states[3], v);
    SmallThenCommitted(states[3], states[4], states[5], states[6], states[7], w);
  }

  lemma LargeThenCommitted(s0: State, s1: State, s2: State, s3: State, v: byte)
    requires Inv(s0) && s0.data.None?
    requires Next(s0, Begin(4096), s1) && Next(s1, Write(4095, v), s2) && Next(s2, Commit(true), s3)
    ensures Inv(s3) && s3.data.Some? && !s3.dirty && s3.flash[4095] == v && s3.flash[0] == s0.flash[0]
  {
    assert RoundedSize(4096) == 4096;
    StepKeepsInv(s0, Begin(4096), s1);
    StepKeepsInv(s1, Write(4095, v), s2);
    StepKeepsInv(s2, Commit(true), s3);
    assert s2.data.value == s0.flash[..4096][4095 := v];
  }

  lemma SmallThenCommitted(s3: State, s4: State, s5: State, s6: State, s7: State, w: byte)
    requires Inv(s3) && s3.data.Some? && !s3.dirty && s3.flash[0] != w
    requires Next(s3, End, s4) && Next(s4, Begin(4), s5) && Next(s5, Write(0, w), s6) && Next(s6, Commit(true), s7)
    ensures |s7.flash| == SECTOR_SIZE && s7.flash[4095] == ERASED
  {
    assert RoundedSize(4) == 4;
    assert s4.flash == s3.flash && s4.data.None?;
    assert s5.data.value[0] == s3.flash[0];
    StepKeepsInv(s3, End, s4);
    StepKeepsInv(s4, Begin(4), s5);
    StepKeepsInv(s5, Write(0, w), s6);
    CommitErasesTail(s6, s7);
    assert s7.flash[4095] == s7.flash[4..][4091];
  }

  class FlashSector {
    var cells: bytes

    ghost predicate Valid()
      reads this
    {
      |cells| == SECTOR_SIZE
    }

    constructor (cells: bytes)
      requires |cells| == SECTOR_SIZE
      ensures Valid() && this.cells == cells
    {
      this.cells := cells;
    }

    /** Success or not, and what a failed operation leaves behind, is up to the chip. */
    method Erase() returns (ok: bool)
      requires Valid()
      modifies this
      ensures Valid()
      ensures ok ==> cells == Erased(SECTOR_SIZE)
    {
      ok := *;
      if ok {
        cells := Erased(SECTOR_SIZE);
      } else {
        var left: bytes :| |left| == |cells|;
        cells := left;
      }
    }

    method Program(data: array<byte>) returns (ok: bool)
      requires Valid() && data.Length <= SECTOR_SIZE
      modifies this
      ensures Valid()
      ensures ok ==> cells == ProgrammedPrefix(old(cells), data[..])
    {
      ok := *;
      if ok {
        cells := ProgrammedPrefix(cells, data[..]);
      } else {
        var left: bytes :| |left| == |cells|;
        cells := left;
      }
    }
  }

  class EepromClass {
    const sector: FlashSector
    var data: array?<byte>
    var size: nat
    var dirty: bool

    ghost predicate Valid()
      reads this, sector, data
    {
      && sector.Valid()
      && (data == null <==> size == 0)
      && (data != null ==> data.Length == size)
      && Inv(Abstract())
    }

    ghost function Abstract(): State
      reads this, sector, data
    {
      State(if data == null then None else Some(data[..]), dirty, sector.cells)
    }

    constructor (sector: FlashSector)
      requires sector.Valid()
      ensures Valid() && this.sector == sector
      ensures Abstract() == State(None, false, sector.cells)
    {
      this.sector := sector;
      data, size, dirty := null, 0, false;
    }

    method Open(requested: nat)
      requires Valid()
      modifies this
      ensures Valid()
      ensures Next(old(Abstract()), Begin(requested), Abstract())
      ensures requested != 0 ==> data != null && fresh(data)
    {
      if requested == 0 {
        return;
      }
      var n := RoundedSize(requested);
      var d := new byte[n];
      for i := 0 to n
        invariant d[..i] == sector.cells[..i]
        modifies d
      {
        d[i] := sector.cells[i];
      }
      assert d[..] == sector.cells[..n];
      data := d;
      size := n;
    }

    method Get(address: int) returns (value: byte)
      requires Valid()
      ensures Next(Abstract(), Read(address, value), Abstract())
    {
      if address < 0 || address >= size {
        return 0;
      }
      value := data[address];
    }

    method Put(address: int, value: byte)
      requires Valid()
      modifies this`dirty, data
      ensures Valid() && data == old(data)
      ensures Next(old(Abstract()), Write(address, value), Abstract())
    {
      if address < 0 || address >= size {
        return;
      }
      StepKeepsInv(Abstract(), Write(address, value),
        State(Some(data[..][address := value]), dirty || data[address] != value, sector.cells));
      if data[address] != value {
        data[address] := value;
        dirty := true;
      }
      assert data[..] == old(data[..])[address := value];
    }

    method WriteBack() returns (ok: bool)
      requires Valid()
      modifies this`dirty, sector
      ensures Valid() && data == old(data)
      ensures Next(old(Abstract()), Commit(ok), Abstract())
    {
      ok := false;
      if size == 0 {
        return;
      }
      if !dirty {
        return true;
      }
      var erased := sector.Erase();
      if erased {
        ProgramErasedPrefix(sector.cells, data[..]);
        var programmed := sector.Program(data);
        if programmed {
          assert sector.cells == data[..] + Erased(SECTOR_SIZE - size);
          dirty := false;
          ok := true;
        }
      }
    }

    method Close()
      requires Valid()
      modifies this, sector
      ensures Valid()
      ensures Next(old(Abstract()), End, Abstract())
    {
      if size == 0 {
        return;
      }
      var ok := WriteBack();
      ghost var m := Abstract();
      assert Committed(old(Abstract()), ok, m);
      data := null;
      size := 0;
    }
  }
}
