/**
 * drawLine: an error-term rasteriser.
 *
 * The loop keeps err = (j + 1) * |dx| - (i + 1) * |dy| after i column and j row steps. Its pixels are
 * given in closed form: one per step along the longer axis, the other coordinate rounded to nearest.
 */
module Line {
  import opened Division

  /** k * minor / major, rounded to the nearest integer, halves upwards. */
  function Rounded(k: nat, minor: nat, major: nat): nat
  {
    if major == 0 then 0 else (2 * (k * minor) + major) / (2 * major)
  }

  function Toward(from: int, to: int, steps: int): int { if from < to then from + steps else from - steps }

  /** Pixel number k of the line from (x0, y0) to (x1, y1). */
  function LinePixel(x0: int, y0: int, x1: int, y1: int, k: nat): (int, int) {
    var a, b := Abs(x1 - x0), Abs(y1 - y0);
    if b <= a then
      (Toward(x0, x1, k), Toward(y0, y1, Rounded(k, b, a)))
    else
      (Toward(x0, x1, Rounded(k, a, b)), Toward(y0, y1, k))
  }

  /** Twice the signed distance from the true line, scaled by the longer side, after i and j steps. */
  function Offset(a: nat, b: nat, i: int, j: int): int { 2 * (i * b) - 2 * (j * a) }

  /** The stretch of the true line each pixel stands for, half open so that a tie has one owner. */
  predicate OnLine(a: nat, b: nat, i: int, j: int) {
    if b <= a then 0 <= Offset(a, b, i, j) + a < 2 * a || a == 0 else 0 < Offset(a, b, i, j) + b <= 2 * b
  }

  /** The half-open stretch pins the minor step count to the rounded one. */
  lemma OnLineIsRounded(a: nat, b: nat, i: nat, j: nat)
    requires OnLine(a, b, i, j) && 0 < Max(a, b)
    ensures b <= a ==> j == Rounded(i, b, a)
    ensures a < b ==> i == Rounded(j, a, b)
  {
    if b <= a {
      RoundedUnique(i, b, a, j);
    } else {
      RoundedUnique(j, a, b, i);
    }
  }

  lemma RoundedUnique(k: nat, minor: nat, major: nat, r: nat)
    requires 0 <= 2 * (k * minor) + major - 2 * (r * major) < 2 * major
    ensures r == Rounded(k, minor, major)
  {
    assert r * (2 * major) == 2 * (r * major);
    assert (r + 1) * (2 * major) == 2 * (r * major) + 2 * major;
    QuotientUnique(2 * (k * minor) + major, 2 * major, r);
  }

  lemma OffsetSteps(a: nat, b: nat, i: int, j: int)
    ensures Offset(a, b, i + 1, j) == Offset(a, b, i, j) + 2 * b
    ensures Offset(a, b, i, j + 1) == Offset(a, b, i, j) - 2 * a
    ensures Offset(a, b, i + 1, j + 1) == Offset(a, b, i, j) + 2 * b - 2 * a
  {
  }

  /** At the far end of one axis the other axis has ended too, or is not yet due. */
  lemma EndsTogether(a: nat, b: nat, i: int, j: int)
    requires OnLine(a, b, i, j) && 0 <= i <= a && 0 <= j <= b
    ensures b <= a && i == a ==> j == b
    ensures a < b && j == b ==> i == a
    ensures b <= a && j == b && i < a ==> Offset(a, b, i, j) < a - 2 * b
    ensures a < b && i == a && j < b ==> Offset(a, b, i, j) > 2 * a - b
  {
    if i == a {
      assert Offset(a, b, i, j) == 2 * ((b - j) * a);
      Scale(1, b - j, a);
    }
    if j == b {
      assert Offset(a, b, i, j) == -2 * ((a - i) * b);
      Scale(1, a - i, b);
    }
  }

  /** What one step of the loop does to the offset, given where the two tests of err stand. */
  lemma StepStays(a: nat, b: nat, i: nat, j: nat)
    requires OnLine(a, b, i, j)
    ensures var x := 2 * b <= 2 * a + b - Offset(a, b, i, j);
            var y := a - 2 * b <= Offset(a, b, i, j);
            && (b <= a ==> x) && (a < b ==> y)
            && (0 < Max(a, b) ==> OnLine(a, b, if x then i + 1 else i, if y then j + 1 else j))
  {
    OffsetSteps(a, b, i, j);
  }

  /** Every pixel is within half a pixel of the true line. */
  lemma Accuracy(a: nat, b: nat, k: nat)
    requires k <= Max(a, b)
    ensures b <= a ==> Abs(Offset(a, b, k, Rounded(k, b, a))) <= a
    ensures a < b ==> Abs(Offset(a, b, Rounded(k, a, b), k)) <= b
  {
    var minor, major := if b <= a then b else a, Max(a, b);
    if 0 < major {
      QuotientAndRest(2 * (k * minor) + major, 2 * major);
      assert Rounded(k, minor, major) * (2 * major) == 2 * (Rounded(k, minor, major) * major);
    } else {
      assert k == 0;
    }
  }

  /** The rounded coordinate starts at zero, ends at the far end, and never moves by more than one. */
  lemma RoundedWalk(k: nat, minor: nat, major: nat)
    requires minor <= major
    ensures Rounded(0, minor, major) == 0 && Rounded(major, minor, major) == minor
    ensures Rounded(k, minor, major) <= Rounded(k + 1, minor, major) <= Rounded(k, minor, major) + 1
  {
    if 0 < major {
      RoundedUnique(0, minor, major, 0);
      assert major * minor == minor * major;
      RoundedUnique(major, minor, major, minor);
      var r := Rounded(k, minor, major);
      QuotientAndRest(2 * (k * minor) + major, 2 * major);
      assert r * (2 * major) == 2 * (r * major);
      assert (k + 1) * minor == k * minor + minor;
      assert (r + 1) * major == r * major + major;
      if 2 * ((k + 1) * minor) + major - 2 * (r * major) < 2 * major {
        RoundedUnique(k + 1, minor, major, r);
      } else {
        RoundedUnique(k + 1, minor, major, r + 1);
      }
    }
  }

  /** First pixel, last pixel, and no gaps: consecutive pixels are neighbours, diagonally at most. */
  lemma PixelsConnect(x0: int, y0: int, x1: int, y1: int, k: nat)
    ensures var m: nat := Max(Abs(x1 - x0), Abs(y1 - y0));
            var p, q := LinePixel(x0, y0, x1, y1, k), LinePixel(x0, y0, x1, y1, k + 1);
            && LinePixel(x0, y0, x1, y1, 0) == (x0, y0)
            && LinePixel(x0, y0, x1, y1, m) == (x1, y1)
            && Max(Abs(q.0 - p.0), Abs(q.1 - p.1)) == 1
  {
    var a, b := Abs(x1 - x0), Abs(y1 - y0);
    if b <= a {
      RoundedWalk(k, b, a);
    } else {
      RoundedWalk(k, a, b);
    }
  }

  /** The first n pixels of the line. */
  function Drawn(x0: int, y0: int, x1: int, y1: int, n: nat): (s: seq<(int, int)>)
    ensures |s| == n && forall k | 0 <= k < n :: s[k] == LinePixel(x0, y0, x1, y1, k)
  {
    seq(n, k requires 0 <= k < n => LinePixel(x0, y0, x1, y1, k))
  }

  /** The position kept by the loop is the next pixel of the closed form. */
  lemma NextPixel(x0: int, y0: int, x1: int, y1: int, i: nat, j: nat)
    requires OnLine(Abs(x1 - x0), Abs(y1 - y0), i, j) && i <= Abs(x1 - x0) && j <= Abs(y1 - y0)
    ensures var n := if Abs(y1 - y0) <= Abs(x1 - x0) then i else j;
            Drawn(x0, y0, x1, y1, n + 1) == Drawn(x0, y0, x1, y1, n) + [(Toward(x0, x1, i), Toward(y0, y1, j))]
  {
    if 0 < Max(Abs(x1 - x0), Abs(y1 - y0)) {
      OnLineIsRounded(Abs(x1 - x0), Abs(y1 - y0), i, j);
    }
  }

  /** Where the loop stands after i column and j row steps. */
  ghost predicate At(x0: int, y0: int, x1: int, y1: int, x: int, y: int, err: int, i: nat, j: nat) {
    var a, b := Abs(x1 - x0), Abs(y1 - y0);
    && i <= a && j <= b
    && x == Toward(x0, x1, i) && y == Toward(y0, y1, j)
    && OnLine(a, b, i, j)
    && 2 * err == 2 * a - 2 * b - Offset(a, b, i, j)
  }

  /** Steps taken along the longer axis. */
  ghost function Major(x0: int, y0: int, x1: int, y1: int, i: nat, j: nat): nat {
    if Abs(y1 - y0) <= Abs(x1 - x0) then i else j
  }

  /**
   * The body of the loop after the pixel. It breaks exactly when both axes have ended; neither test for one
   * axis alone ever fires early.
   */
  method Advance(x1: int, y1: int, dx: int, dy: int, sx: int, sy: int, x: int, y: int, err: int,
                 ghost x0: int, ghost y0: int, ghost i: nat, ghost j: nat)
    returns (stop: bool, xn: int, yn: int, errn: int, ghost iN: nat, ghost jN: nat)
    requires At(x0, y0, x1, y1, x, y, err, i, j)
    requires dx == Abs(x1 - x0) && dy == 0 - Abs(y1 - y0)
    requires sx == (if x0 < x1 then 1 else -1) && sy == (if y0 < y1 then 1 else -1)
    ensures stop <==> i == Abs(x1 - x0) && j == Abs(y1 - y0)
    ensures !stop ==> At(x0, y0, x1, y1, xn, yn, errn, iN, jN) && i <= iN && j <= jN
    ensures !stop ==> Major(x0, y0, x1, y1, iN, jN) == Major(x0, y0, x1, y1, i, j) + 1
  {
    ghost var a, b := Abs(x1 - x0), Abs(y1 - y0);
    EndsTogether(a, b, i, j);
    StepStays(a, b, i, j);
    OffsetSteps(a, b, i, j);
    stop, xn, yn, errn, iN, jN := false, x, y, err, i, j;
    var e2 := 2 * errn;
    if e2 >= dy {
      if xn == x1 {
        stop := true;
        return;
      }
      errn := errn + dy;
      xn := xn + sx;
      iN := iN + 1;
    }
    if e2 <= dx {
      if yn == y1 {
        stop := true;
        return;
      }
      errn := errn + dx;
      yn := yn + sy;
      jN := jN + 1;
    }
  }

  class Canvas {
    var pixels: seq<(int, int)>

    constructor ()
      ensures pixels == []
    {
      pixels := [];
    }

    method SetPixel(x: int, y: int)
      modifies this
      ensures pixels == old(pixels) + [(x, y)]
    {
      pixels := pixels + [(x, y)];
    }

    /** Exactly the pixels of the closed form, in order; the loop leaves only at the far end. */
    method DrawLine(x0: int, y0: int, x1: int, y1: int)
      modifies this
      ensures pixels == old(pixels) + Drawn(x0, y0, x1, y1, Max(Abs(x1 - x0), Abs(y1 - y0)) + 1)
    {
      var dx: int, dy: int := Abs(x1 - x0), 0 - Abs(y1 - y0);
      var sx, sy := if x0 < x1 then 1 else -1, if y0 < y1 then 1 else -1;
      var x, y, err := x0, y0, dx + dy;
      ghost var i: nat, j: nat := 0, 0;
      while true
        invariant At(x0, y0, x1, y1, x, y, err, i, j)
        invariant pixels == old(pixels) + Drawn(x0, y0, x1, y1, Major(x0, y0, x1, y1, i, j))
        decreases Abs(x1 - x0) + Abs(y1 - y0) - Major(x0, y0, x1, y1, i, j)
      {
        SetPixel(x, y);
        NextPixel(x0, y0, x1, y1, i, j);
        var stop;
        stop, x, y, err, i, j := Advance(x1, y1, dx, dy, sx, sy, x, y, err, x0, y0, i, j);
        if stop {
          break;
        }
      }
    }
  }
}
