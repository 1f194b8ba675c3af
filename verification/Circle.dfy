/**
 * drawCircle: an error-term rasteriser.
 *
 * The loop walks one quadrant of the circle from (r, 0) to (0, r), keeping only an integer error term. Its
 * result is characterised exactly: the plotted offsets are the pixels nearest to the true circle.
 */
module Circle {
  import opened Division

  /** How far the squared distance of an offset is from the squared radius. */
  function Deviation(a: int, y: int, r: int): int { a * a + y * y - r * r }

  /**
   * The offset (a, y) of one quadrant is nearest to the circle of radius r: along the longer of its two
   * coordinates, m, the true circle lies strictly less than half a pixel away. On the diagonal, where two
   * neighbours compete, the outer one loses a tie.
   */
  predicate Nearest(a: int, y: int, r: int) {
    && 0 <= a && 0 <= y
    && var m := Max(a, y);
    -m <= Deviation(a, y, r) <= if a == y then m - 2 else m - 1
  }

  /** Squares of different numbers are far apart. */
  lemma SquareGap(b: int, c: int)
    ensures 0 <= b < c ==> b * b + b <= c * c - c
    ensures 0 <= b <= c ==> b * b <= c * c
  {
    if 0 <= b < c {
      assert c * c - c - (b * b + b) == (c - b - 1) * (c + b);
    }
  }

  /** Inside one row of the lower octant only one column is nearest. */
  lemma RowUnique(b: int, c: int, z: int, r: int)
    requires Nearest(b, z, r) && Nearest(c, z, r) && z < b && z < c
    ensures b == c
  {
    SquareGap(b, c);
    SquareGap(c, b);
  }

  /** A nearest point on or above the diagonal leaves no nearest point below it in that row or higher. */
  lemma OctantDone(a: int, y: int, b: int, z: int, r: int)
    requires Nearest(a, y, r) && a <= y && Nearest(b, z, r) && z < b
    ensures z < y
  {
    SquareGap(y, z);
    SquareGap(y, b);
    SquareGap(a, y);
  }

  /** A column has at most one nearest point on or above the diagonal. */
  lemma ColumnUnique(a: int, y: int, z: int, r: int)
    requires Nearest(a, y, r) && Nearest(a, z, r) && a <= y && a <= z
    ensures y == z
  {
    SquareGap(y, z);
    SquareGap(z, y);
  }

  /** When the walk crosses the diagonal, no column to the right has a nearest point on or above it. */
  lemma NothingSkipped(a: int, y: int, b: int, z: int, r: int)
    requires Nearest(a, y, r) && a <= y <= a + 1 && Nearest(b, z, r) && b <= z
    ensures b <= a
  {
    var c := a + 1;
    assert c * c == a * a + 2 * a + 1;
    assert (c + 1) * (c + 1) == c * c + 2 * c + 1;
    if a < b {
      SquareGap(c, b);
      SquareGap(c, z);
      SquareGap(c + 1, z);
      SquareGap(y, c);
    }
  }

  /** What drawCircle plots in one quadrant, for any radius an int can hold. */
  predicate Plotted(a: int, y: int, r: int) {
    if 1 <= r then Nearest(a, y, r) else a == -r && y == 0
  }

  /** Below the diagonal, nearest means that the circle crosses the row within half a pixel of the column. */
  lemma NearestIsHalfPixel(a: int, y: int, r: int)
    requires 0 <= y < a
    ensures Nearest(a, y, r) <==>
            (2 * a - 1) * (2 * a - 1) < 4 * (r * r - y * y) < (2 * a + 1) * (2 * a + 1)
  {
    assert (2 * a - 1) * (2 * a - 1) == 4 * (a * a) - 4 * a + 1;
    assert (2 * a + 1) * (2 * a + 1) == 4 * (a * a) + 4 * a + 1;
  }

  /** Every plotted offset is within r of the squared radius and inside the bounding square. */
  lemma Accuracy(a: int, y: int, r: int)
    requires Plotted(a, y, r)
    ensures Abs(Deviation(a, y, r)) <= Abs(r)
    ensures 0 <= a <= Abs(r) && 0 <= y <= Abs(r)
  {
    if 1 <= r { SquareGap(r, Max(a, y)); }
  }

  /** All four axis points are plotted for every radius from zero up. */
  lemma AxisPoints(r: int)
    requires 0 <= r
    ensures Plotted(r, 0, r) && Plotted(0, r, r)
  {
  }

  /** The error term kept by the loop, with a = -x. */
  function Err(a: int, y: int, r: int): int { (1 - a) * (1 - a) + (y + 1) * (y + 1) - r * r }

  lemma ErrIsDeviation(a: int, y: int, r: int)
    ensures Err(a, y, r) == Deviation(a, y, r) - 2 * a + 2 * y + 2
    ensures Deviation(a, y + 1, r) == Deviation(a, y, r) + 2 * y + 1
    ensures Deviation(a - 1, y, r) == Deviation(a, y, r) - 2 * a + 1
    ensures Deviation(a - 1, y + 1, r) == Deviation(a, y, r) - 2 * a + 2 * y + 2
  {
  }

  lemma ErrSteps(a: int, y: int, r: int)
    ensures Err(a, y + 1, r) == Err(a, y, r) + (y + 1) * 2 + 1
    ensures Err(a - 1, y, r) == Err(a, y, r) + (1 - a) * 2 + 1
  {
  }

  /** One step of the loop: below the diagonal the row always moves, above it the column does. */
  lemma StepStays(a: int, y: int, r: int, yStep: bool, xStep: bool)
    requires Nearest(a, y, r)
    requires yStep <==> Err(a, y, r) <= y
    requires xStep <==> (if yStep && a == y + 1 && Err(a, y, r) <= -a then 0 else Err(a, y, r)) > -a
    ensures y < a ==> yStep
    ensures a <= y ==> xStep
    ensures a == 0 ==> !yStep
    ensures 0 < a || !xStep ==> Nearest(if xStep then a - 1 else a, if yStep then y + 1 else y, r)
  {
    ErrIsDeviation(a, y, r);
  }

  /** The points the walk has passed when it stands at (a, y). */
  ghost predicate Passed(b: int, z: int, a: int, y: int) {
    (z < b && z < y) || (a <= y && (z < b || a < b))
  }

  ghost predicate Covered(done: set<(int, int)>, a: int, y: int, r: int) {
    forall b, z :: Nearest(b, z, r) && Passed(b, z, a, y) ==> (b, z) in done
  }

  /** A step leaves no nearest point behind. */
  lemma StepCovers(done: set<(int, int)>, a: int, y: int, r: int, a1: int, y1: int)
    requires Nearest(a, y, r) && Covered(done, a, y, r)
    requires y < a ==> y1 == y + 1 && a - 1 <= a1 <= a
    requires a <= y ==> a1 == a - 1 && y <= y1 <= y + 1
    requires a1 < 0 || Nearest(a1, y1, r)
    ensures Covered(done + {(a, y)}, a1, y1, r)
  {
    forall b, z | Nearest(b, z, r) && Passed(b, z, a1, y1) && !Passed(b, z, a, y)
      ensures (b, z) == (a, y)
    {
      if y < a {
        if b <= z {
          NothingSkipped(a1, y1, b, z, r);
        } else if a1 <= y1 {
          OctantDone(a1, y1, b, z, r);
        }
        RowUnique(a, b, y, r);
      } else {
        ColumnUnique(a, y, z, r);
      }
    }
  }

  /** The four pixels of an offset are the ones at its distances. */
  lemma FourOfOffset(p: (int, int), poX: int, poY: int, x: int, y: int)
    requires 0 <= y
    ensures p == (poX - x, poY + y) || p == (poX + x, poY + y) || p == (poX + x, poY - y) || p == (poX - x, poY - y)
            <==> (Abs(p.0 - poX), Abs(p.1 - poY)) == (Abs(x), y)
  {
  }

  function Four(poX: int, poY: int, x: int, y: int): seq<(int, int)> {
    [(poX - x, poY + y), (poX + x, poY + y), (poX + x, poY - y), (poX - x, poY - y)]
  }

  lemma FourSet(s: seq<(int, int)>, poX: int, poY: int, x: int, y: int)
    requires 0 <= y
    ensures forall p :: p in s + Four(poX, poY, x, y)
                   <==> p in s || (Abs(p.0 - poX), Abs(p.1 - poY)) == (Abs(x), y)
  {
    forall p
      ensures p in s + Four(poX, poY, x, y) <==> p in s || (Abs(p.0 - poX), Abs(p.1 - poY)) == (Abs(x), y)
    {
      FourOfOffset(p, poX, poY, x, y);
      assert p in s + Four(poX, poY, x, y) <==> p in s || p in Four(poX, poY, x, y);
    }
  }

  class Canvas {
    var pixels: seq<(int, int)>

    constructor ()
      ensures pixels == []
    {
      pixels := [];
    }

    method SetPixel(x: int, y: int)
      modifies this
      ensures pixels == old(pixels) + [(x, y)]
    {
      pixels := pixels + [(x, y)];
    }

    /** The pixels set are the old ones and the mirror images of a set of quadrant offsets. */
    ghost predicate Mirrors(before: seq<(int, int)>, poX: int, poY: int, done: set<(int, int)>)
      reads this
    {
      forall p :: p in pixels <==> p in before || (Abs(p.0 - poX), Abs(p.1 - poY)) in done
    }

    method PlotFour(poX: int, poY: int, x: int, y: int, ghost before: seq<(int, int)>, ghost done: set<(int, int)>)
      requires 0 <= y && Mirrors(before, poX, poY, done)
      modifies this
      ensures Mirrors(before, poX, poY, done + {(Abs(x), y)})
      ensures |pixels| == |old(pixels)| + 4
    {
      SetPixel(poX - x, poY + y);
      SetPixel(poX + x, poY + y);
      SetPixel(poX + x, poY - y);
      SetPixel(poX - x, poY - y);
      assert pixels == old(pixels) + Four(poX, poY, x, y);
      FourSet(old(pixels), poX, poY, x, y);
    }

    /** The body of the loop after the four pixels: one step along the quadrant. */
    static method Advance(x: int, y: int, err: int, ghost r: int) returns (x1: int, y1: int, err1: int)
      requires err == Err(-x, y, r)
      requires if 1 <= r then Nearest(-x, y, r) else x == -r && y == 0
      ensures err1 == Err(-x1, y1, r)
      ensures 1 <= r ==> x1 > 0 || Nearest(-x1, y1, r)
      ensures 1 <= r && y < -x ==> y1 == y + 1 && x <= x1 <= x + 1
      ensures 1 <= r && -x <= y ==> x1 == x + 1 && y <= y1 <= y + 1
      ensures r < 1 ==> x1 == x + 1 > 0
    {
      x1, y1, err1 := x, y, err;
      var e2 := err1;
      if e2 <= y1 {
        y1 := y1 + 1;
        err1 := err1 + y1 * 2 + 1;
        if -x1 == y1 && e2 <= x1 {
          e2 := 0;
        }
      }
      if e2 > x1 {
        x1 := x1 + 1;
        err1 := err1 + x1 * 2 + 1;
      }
      ErrSteps(-x, y, r);
      ErrSteps(-x, y + 1, r);
      if 1 <= r {
        StepStays(-x, y, r, y1 != y, x1 != x);
      }
    }

    /**
     * The pixels added are exactly the offsets nearest to the circle, in all four quadrants; for a negative
     * radius they are the two ends of the horizontal diameter.
     */
    method DrawCircle(poX: int, poY: int, r: int)
      modifies this
      ensures forall p :: p in pixels <==> p in old(pixels) || Plotted(Abs(p.0 - poX), Abs(p.1 - poY), r)
    {
      var x, y, err := -r, 0, 2 - 2 * r;
      ghost var done := {};
      while true
        invariant 1 <= r ==> Nearest(-x, y, r) && Covered(done, -x, y, r)
        invariant r < 1 ==> x == -r && y == 0 && done == {}
        invariant forall q | q in done :: Plotted(q.0, q.1, r)
        invariant err == Err(-x, y, r)
        invariant Mirrors(old(pixels), poX, poY, done)
        decreases -x, Max(-x - y, 0)
      {
        ghost var a, y0 := -x, y;
        PlotFour(poX, poY, x, y, old(pixels), done);
        x, y, err := Advance(x, y, err, r);
        if 1 <= r {
          StepCovers(done, a, y0, r, -x, y);
        }
        done := done + {(Abs(a), y0)};
        if x > 0 {
          break;
        }
      }
      assert 1 <= r ==> forall b, z | Nearest(b, z, r) :: Passed(b, z, -x, y);
    }
  }
}
