/** NOR flash cells: erasing sets every bit, programming can only clear bits. */
module NorFlash {
  import opened Bytes

  const ERASED: byte := 0xFF

  function AndBits(k: nat, a: nat, b: nat): (r: nat)
    ensures r <= b
  {
    if k == 0 then 0 else 2 * AndBits(k - 1, a / 2, b / 2) + (if a % 2 == 1 && b % 2 == 1 then 1 else 0)
  }

  /** A cell after programming: only bits set in both stay set. */
  function Programmed(cell: byte, value: byte): byte {
    AndBits(8, cell as nat, value as nat) as byte
  }

  /** A number of k bits, all set. */
  function Ones(k: nat): nat { if k == 0 then 0 else 2 * Ones(k - 1) + 1 }

  lemma {:induction false} AndOnes(k: nat, b: nat)
    requires b <= Ones(k)
    ensures AndBits(k, Ones(k), b) == b
  {
    if k == 0 {
    } else {
      AndOnes(k - 1, b / 2);
      assert Ones(k) / 2 == Ones(k - 1);
    }
  }

  /** An erased cell takes any value exactly. */
  lemma ProgramErased(value: byte)
    ensures Programmed(ERASED, value) == value
  {
    assert Ones(8) == 0xFF by { assert Ones(4) == 0xF; }
    AndOnes(8, value as nat);
  }

  /** Programming all ones changes nothing. */
  lemma ProgramNothing(cell: byte)
    ensures Programmed(cell, ERASED) == cell
  {
    AndCommutes(8, cell as nat, 0xFF);
    ProgramErased(cell);
  }

  lemma {:induction false} AndCommutes(k: nat, a: nat, b: nat)
    ensures AndBits(k, a, b) == AndBits(k, b, a)
  {
    if k == 0 {
    } else {
      AndCommutes(k - 1, a / 2, b / 2);
    }
  }

  /** Programming a stretch from the start of a sector leaves the rest of it alone. */
  function ProgrammedPrefix(cells: bytes, values: bytes): (r: bytes)
    requires |values| <= |cells|
    ensures |r| == |cells|
  {
    seq(|values|, i requires 0 <= i < |values| => Programmed(cells[i], values[i])) + cells[|values|..]
  }

  lemma ProgramErasedPrefix(cells: bytes, values: bytes)
    requires |values| <= |cells| && forall i | 0 <= i < |cells| :: cells[i] == ERASED
    ensures ProgrammedPrefix(cells, values) == values + cells[|values|..]
  {
    forall i | 0 <= i < |values|
      ensures Programmed(cells[i], values[i]) == values[i]
    {
      ProgramErased(values[i]);
    }
  }
}
