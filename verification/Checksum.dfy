/** Exclusive or of bytes, bit by bit, and the group laws the checksum arguments need. */
module Checksum {
  import opened Bytes

  function Pow2(k: nat): (p: nat)
    ensures 0 < p
  {
    if k == 0 then 1 else 2 * Pow2(k - 1)
  }

  /** Exclusive or of the low k bits. */
  function XorBits(k: nat, a: nat, b: nat): (r: nat)
    ensures r < Pow2(k)
  {
    if k == 0 then 0 else 2 * XorBits(k - 1, a / 2, b / 2) + (a + b) % 2
  }

  lemma XorBitsHalves(k: nat, a: nat, b: nat)
    requires 0 < k
    ensures XorBits(k, a, b) / 2 == XorBits(k - 1, a / 2, b / 2)
    ensures XorBits(k, a, b) % 2 == (a + b) % 2
  {
  }

  lemma SameHalves(x: nat, y: nat)
    requires x / 2 == y / 2 && x % 2 == y % 2
    ensures x == y
  {
  }

  lemma ParityOfSum(x: nat, y: nat, c: nat)
    requires x % 2 == y % 2
    ensures (x + c) % 2 == (y + c) % 2
  {
  }

  /** Both ways of grouping three numbers, halved: one bit less, and the same last bit. */
  lemma LeftHalves(k: nat, a: nat, b: nat, c: nat)
    requires 0 < k
    ensures XorBits(k, XorBits(k, a, b), c) / 2 == XorBits(k - 1, XorBits(k - 1, a / 2, b / 2), c / 2)
    ensures XorBits(k, XorBits(k, a, b), c) % 2 == (a + b + c) % 2
  {
    var ab := XorBits(k, a, b);
    XorBitsHalves(k, a, b);
    XorBitsHalves(k, ab, c);
    ParityOfSum(ab, a + b, c);
  }

  lemma RightHalves(k: nat, a: nat, b: nat, c: nat)
    requires 0 < k
    ensures XorBits(k, a, XorBits(k, b, c)) / 2 == XorBits(k - 1, a / 2, XorBits(k - 1, b / 2, c / 2))
    ensures XorBits(k, a, XorBits(k, b, c)) % 2 == (a + b + c) % 2
  {
    var bc := XorBits(k, b, c);
    XorBitsHalves(k, b, c);
    XorBitsHalves(k, a, bc);
    ParityOfSum(bc, b + c, a);
  }

  lemma {:induction false} XorBitsCommutes(k: nat, a: nat, b: nat)
    ensures XorBits(k, a, b) == XorBits(k, b, a)
  {
    if k == 0 {
    } else {
      XorBitsCommutes(k - 1, a / 2, b / 2);
    }
  }

  lemma {:induction false} XorBitsAssociates(k: nat, a: nat, b: nat, c: nat)
    ensures XorBits(k, XorBits(k, a, b), c) == XorBits(k, a, XorBits(k, b, c))
  {
    if k == 0 {
    } else {
      XorBitsAssociates(k - 1, a / 2, b / 2, c / 2);
      LeftHalves(k, a, b, c);
      RightHalves(k, a, b, c);
      SameHalves(XorBits(k, XorBits(k, a, b), c), XorBits(k, a, XorBits(k, b, c)));
    }
  }

  lemma {:induction false} XorBitsZero(k: nat, a: nat, b: nat)
    requires a < Pow2(k) && b < Pow2(k)
    ensures XorBits(k, a, 0) == a
    ensures XorBits(k, a, b) == 0 <==> a == b
  {
    if k == 0 {
    } else {
      XorBitsZero(k - 1, a / 2, b / 2);
    }
  }

  function Xor(a: byte, b: byte): byte {
    assert Pow2(8) == 256 by { assert Pow2(4) == 16; }
    XorBits(8, a as nat, b as nat) as byte
  }

  lemma XorLaws(a: byte, b: byte, c: byte)
    ensures Xor(a, b) == Xor(b, a)
    ensures Xor(Xor(a, b), c) == Xor(a, Xor(b, c))
    ensures Xor(a, 0) == a == Xor(0, a)
    ensures Xor(a, b) == 0 <==> a == b
  {
    assert Pow2(8) == 256 by { assert Pow2(4) == 16; }
    XorBitsCommutes(8, a as nat, b as nat);
    XorBitsAssociates(8, a as nat, b as nat, c as nat);
    XorBitsZero(8, a as nat, b as nat);
    XorBitsCommutes(8, 0, a as nat);
  }

  /** Two pairs may be combined crosswise. */
  lemma XorInterchange(a: byte, b: byte, c: byte, d: byte)
    ensures Xor(Xor(a, b), Xor(c, d)) == Xor(Xor(a, c), Xor(b, d))
  {
    XorLaws(a, b, Xor(c, d));
    XorLaws(b, c, d);
    XorLaws(c, b, d);
    XorLaws(a, c, Xor(b, d));
  }

  /** A common operand cancels. */
  lemma XorCancels(a: byte, b: byte, n: byte)
    ensures Xor(Xor(a, n), Xor(b, n)) == Xor(a, b)
  {
    XorInterchange(a, n, b, n);
    XorLaws(n, n, 0);
    XorLaws(Xor(a, b), 0, 0);
  }

  /** All bytes of a string combined. */
  function XorAll(s: bytes): byte {
    if s == [] then 0 else Xor(s[0], XorAll(s[1..]))
  }

  /** Two byte strings of the same length, combined position by position. */
  function Differences(s: bytes, t: bytes): bytes
    requires |s| == |t|
  {
    seq(|s|, i requires 0 <= i < |s| => Xor(s[i], t[i]))
  }

  lemma {:induction false} XorAllDifferences(s: bytes, t: bytes)
    requires |s| == |t|
    ensures XorAll(Differences(s, t)) == Xor(XorAll(s), XorAll(t))
  {
    if s == [] {
      XorLaws(0, 0, 0);
    } else {
      XorAllDifferences(s[1..], t[1..]);
      assert Differences(s, t)[1..] == Differences(s[1..], t[1..]);
      XorInterchange(s[0], t[0], XorAll(s[1..]), XorAll(t[1..]));
    }
  }

  lemma {:induction false} XorAllZero(s: bytes)
    requires forall k | 0 <= k < |s| :: s[k] == 0
    ensures XorAll(s) == 0
  {
    if s == [] {
    } else {
      XorAllZero(s[1..]);
      XorLaws(0, 0, 0);
    }
  }

  lemma {:induction false} XorAllSingle(s: bytes, i: nat)
    requires i < |s| && forall k | 0 <= k < |s| && k != i :: s[k] == 0
    ensures XorAll(s) == s[i]
  {
    XorLaws(s[i], 0, 0);
    if i == 0 {
      XorAllZero(s[1..]);
    } else {
      XorAllSingle(s[1..], i - 1);
    }
  }

  lemma {:induction false} XorAllSnoc(s: bytes, b: byte)
    ensures XorAll(s + [b]) == Xor(XorAll(s), b)
  {
    XorLaws(b, 0, 0);
    if s == [] {
      assert s + [b] == [b];
    } else {
      XorAllSnoc(s[1..], b);
      assert (s + [b])[1..] == s[1..] + [b];
      XorLaws(s[0], XorAll(s[1..]), b);
    }
  }
}
