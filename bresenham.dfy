/** Bresenham's integer line rasterizer (`DrawLine`), its pure companion
    `LinePixels` listing the pixels it writes in order, and an independent
    closed-form reference `LineReference` that the companion is proved equal to.
    The properties of the drawn line (pixel count, endpoints, 8-connectivity,
    monotone minor axis, bounding box, direction invariance) are lemmas about
    `LinePixels`. */
module Bresenham {
  import opened Canvas

  function Abs(n: int): (r: nat)
    ensures r == n || r == -n
  {
    if n < 0 then -n else n
  }

  function Max(a: int, b: int): int { if a < b then b else a }

  function Min(a: int, b: int): int { if a < b then a else b }

  /** A line after DrawLine's two normalising swaps: `steep` records whether
      x and y were exchanged, and (x0, y0) is the endpoint with the smaller
      major coordinate. */
  datatype Setup = Setup(steep: bool, x0: int, y0: int, x1: int, y1: int)
  {
    /** The major-axis extent `dx`. */
    function Dx(): int { x1 - x0 }

    /** The minor-axis extent `|dy|`. */
    function Ady(): nat { Abs(y1 - y0) }

    /** The minor-axis step taken when the error term overflows. */
    function YStep(): int { if y1 > y0 then 1 else -1 }

    /** The shape the swaps guarantee: x increases and the slope is at most one. */
    predicate Normal() { x0 <= x1 && Ady() <= Dx() }

    /** The minor coordinate `off` pixels away from y0 towards y1. */
    function MinorAt(off: int): int { if y1 > y0 then y0 + off else y0 - off }
  }

  /** A pixel of the walk, transposed back when the line is steep. */
  function Plot(steep: bool, x: int, y: int): Point
  {
    if steep then Point(y, x) else Point(x, y)
  }

  /** The major coordinate of a pixel in the walk's own frame. */
  function Major(steep: bool, p: Point): int { if steep then p.y else p.x }

  /** The minor coordinate of a pixel in the walk's own frame. */
  function Minor(steep: bool, p: Point): int { if steep then p.x else p.y }

  /** The two normalising swaps of DrawLine: transpose a steep line, then
      order the endpoints by increasing major coordinate. */
  function Normalize(x0: int, y0: int, x1: int, y1: int): (s: Setup)
    ensures s.steep <==> Abs(x1 - x0) < Abs(y1 - y0)
    ensures s.Normal()
    ensures s.Dx() == Max(Abs(x1 - x0), Abs(y1 - y0))
    ensures (Plot(s.steep, s.x0, s.y0) == Point(x0, y0) && Plot(s.steep, s.x1, s.y1) == Point(x1, y1))
         || (Plot(s.steep, s.x0, s.y0) == Point(x1, y1) && Plot(s.steep, s.x1, s.y1) == Point(x0, y0))
  {
    var steep := Abs(x1 - x0) < Abs(y1 - y0);
    var (a0, b0, a1, b1) := if steep then (y0, x0, y1, x1) else (x0, y0, x1, y1);
    if a0 > a1 then Setup(steep, a1, b1, a0, b0) else Setup(steep, a0, b0, a1, b1)
  }

  /** One iteration's update of the minor coordinate and the doubled error
      term: add 2|dy|, and when the sum exceeds dx step y and take off 2dx. */
  function Step(s: Setup, y: int, error2: int): (r: (int, int))
    ensures r.0 == y || r.0 == y + s.YStep()
    ensures s.Normal() && ErrorBounded(error2, s.Dx()) ==> ErrorBounded(r.1, s.Dx())
  {
    var e := error2 + s.Ady() * 2;
    if e > s.Dx() then (y + s.YStep(), e - s.Dx() * 2) else (y, e)
  }

  /** The pixels the loop writes from major coordinate x (minor y, error
      term error2) up to and including s.x1. */
  function Walk(s: Setup, x: int, y: int, error2: int): (r: seq<Point>)
    decreases s.x1 - x + 1
  {
    if x > s.x1 then []
    else
      var (y', e') := Step(s, y, error2);
      [Plot(s.steep, x, y)] + Walk(s, x + 1, y', e')
  }

  /** One turn of the loop: the walk writes the current pixel, then continues
      from the next major coordinate with the stepped minor coordinate and
      error term. */
  lemma WalkStep(s: Setup, x: int, y: int, error2: int)
    requires x <= s.x1
    ensures Walk(s, x, y, error2) == [Plot(s.steep, x, y)] + Walk(s, x + 1, Step(s, y, error2).0, Step(s, y, error2).1)
  {
  }

  lemma AppendAssoc(a: seq<Point>, p: Point, b: seq<Point>)
    ensures a + ([p] + b) == (a + [p]) + b
  {
  }

  /** The pixels DrawLine(x0, y0, x1, y1) writes, in the order it writes them. */
  function LinePixels(x0: int, y0: int, x1: int, y1: int): seq<Point>
  {
    var s := Normalize(x0, y0, x1, y1);
    Walk(s, s.x0, s.y0, 0)
  }

  /** The offset from y0 of the ideal line ady/adx * k, rounded to the nearest
      integer, halves rounded down; zero for a line of no extent. */
  function Offset(k: int, adx: int, ady: int): int
  {
    if adx <= 0 then 0 else (2 * ady * k + adx - 1) / (2 * adx)
  }

  /** Reference definition: one pixel per major coordinate from s.x0 + k to
      s.x1, at the rounded ideal minor coordinate. */
  function RefFrom(s: Setup, k: int): seq<Point>
    requires 0 <= k <= s.Dx() + 1
  {
    seq(s.Dx() + 1 - k, i => Plot(s.steep, s.x0 + k + i, s.MinorAt(Offset(k + i, s.Dx(), s.Ady()))))
  }

  /** The reference pixels of the whole line. */
  function LineReference(x0: int, y0: int, x1: int, y1: int): seq<Point>
  {
    var s := Normalize(x0, y0, x1, y1);
    RefFrom(s, 0)
  }

  /** The bound the doubled error term keeps throughout the loop. */
  predicate ErrorBounded(error2: int, dx: int)
  {
    if dx == 0 then error2 == 0 else -dx < error2 <= dx
  }

  // ---------------------------------------------------------------------
  // Arithmetic about Offset

  lemma MulLeft(d: int, a: int, b: int)
    requires d >= 0 && a <= b
    ensures d * a <= d * b
  {
    assert d * b - d * a == d * (b - a);
  }

  lemma DivUnique(n: int, d: int, q: int)
    requires d > 0 && d * q <= n < d * q + d
    ensures n / d == q
  {
    var r := n / d;
    assert n == d * r + n % d;
    if r < q {
      MulLeft(d, r + 1, q);
      assert false;
    } else if r > q {
      MulLeft(d, q + 1, r);
      assert false;
    }
  }

  /** Offset(k) is the one minor offset m whose doubled error term
      2|dy|k - 2dx*m lies in (-dx, dx]. */
  lemma OffsetCharacterization(k: int, m: int, adx: int, ady: int)
    requires adx > 0
    ensures Offset(k, adx, ady) == m <==> -adx < 2 * ady * k - 2 * adx * m <= adx
  {
    var n, d := 2 * ady * k + adx - 1, 2 * adx;
    var q := n / d;
    assert n == d * q + n % d && 0 <= n % d < d;
    assert -adx < 2 * ady * k - 2 * adx * q <= adx;
    if -adx < 2 * ady * k - 2 * adx * m <= adx {
      DivUnique(n, d, m);
    }
  }

  /** The rounded ideal line starts at offset 0 and ends at offset ady. */
  lemma OffsetEnds(adx: int, ady: int)
    requires adx > 0 && ady >= 0
    ensures Offset(0, adx, ady) == 0
    ensures Offset(adx, adx, ady) == ady
  {
    DivUnique(adx - 1, 2 * adx, 0);
    DivUnique(2 * ady * adx + adx - 1, 2 * adx, ady);
  }

  /** Between consecutive major coordinates the offset grows by 0 or 1. */
  lemma OffsetStep(k: int, adx: int, ady: int)
    requires 0 <= ady <= adx && adx > 0
    ensures Offset(k + 1, adx, ady) - Offset(k, adx, ady) in {0, 1}
  {
    var n, d := 2 * ady * k + adx - 1, 2 * adx;
    var q, r := n / d, n % d;
    assert n == d * q + r && 0 <= r < d;
    assert 2 * ady * (k + 1) + adx - 1 == n + 2 * ady;
    if r + 2 * ady < d {
      DivUnique(n + 2 * ady, d, q);
    } else {
      DivUnique(n + 2 * ady, d, q + 1);
    }
  }

  /** Along the line the offset stays between 0 and ady. */
  lemma OffsetRange(k: int, adx: int, ady: int)
    requires 0 <= ady <= adx && 0 <= k <= adx
    ensures 0 <= Offset(k, adx, ady) <= ady
  {
    if adx > 0 {
      var n, d := 2 * ady * k + adx - 1, 2 * adx;
      var q := n / d;
      assert n == d * q + n % d;
      MulLeft(2 * ady, k, adx);
      if q < 0 {
        MulLeft(d, q, -1);
        assert false;
      }
      if q > ady {
        MulLeft(d, ady + 1, q);
        assert false;
      }
    }
  }

  // ---------------------------------------------------------------------
  // The walk agrees with the reference

  /** The doubled error term of the loop at step k, when the minor
      coordinate sits at the rounded ideal offset. */
  function ErrorAt(s: Setup, k: int): int
  {
    2 * s.Ady() * k - 2 * s.Dx() * Offset(k, s.Dx(), s.Ady())
  }

  /** The arithmetic of one turn of the loop on the doubled error term. */
  lemma ErrorTermStep(dx: int, ady: int, k: int, m: int, e: int)
    requires 0 <= ady <= dx && dx > 0
    requires e == 2 * ady * k - 2 * dx * m && -dx < e <= dx
    ensures e + ady * 2 > dx ==>
      e + ady * 2 - dx * 2 == 2 * ady * (k + 1) - 2 * dx * (m + 1) && -dx < e + ady * 2 - dx * 2 <= dx
    ensures e + ady * 2 <= dx ==>
      e + ady * 2 == 2 * ady * (k + 1) - 2 * dx * m && -dx < e + ady * 2 <= dx
  {
    assert 2 * ady * (k + 1) == 2 * ady * k + ady * 2;
    assert 2 * dx * (m + 1) == 2 * dx * m + dx * 2;
  }

  /** The loop invariant on the error term: at every step it stays in
      (-dx, dx], and is 0 on a line of no extent. */
  lemma ErrorAtBounded(s: Setup, k: int)
    requires s.Normal()
    ensures ErrorBounded(ErrorAt(s, k), s.Dx())
  {
    if s.Dx() > 0 {
      OffsetCharacterization(k, Offset(k, s.Dx(), s.Ady()), s.Dx(), s.Ady());
    }
  }

  /** One turn of the loop takes the state at step k to the state at step
      k + 1: the minor coordinate moves to the next rounded offset, by at
      most one, and the error term to ErrorAt(s, k + 1). */
  lemma StepKeepsErrorForm(s: Setup, k: int)
    requires s.Normal()
    ensures var m, m' := Offset(k, s.Dx(), s.Ady()), Offset(k + 1, s.Dx(), s.Ady());
      Step(s, s.MinorAt(m), ErrorAt(s, k)) == (s.MinorAt(m'), ErrorAt(s, k + 1)) && m' - m in {0, 1}
  {
    var dx, ady := s.Dx(), s.Ady();
    var m, e := Offset(k, dx, ady), ErrorAt(s, k);
    if dx == 0 {
      assert Step(s, s.MinorAt(m), e) == (s.MinorAt(m), 0);
    } else {
      ErrorAtBounded(s, k);
      ErrorTermStep(dx, ady, k, m, e);
      var m' := if e + ady * 2 > dx then m + 1 else m;
      var e' := if e + ady * 2 > dx then e + ady * 2 - dx * 2 else e + ady * 2;
      OffsetCharacterization(k + 1, m', dx, ady);
      assert Step(s, s.MinorAt(m), e) == (s.MinorAt(m'), e');
    }
  }

  /** The reference from step k is its pixel at step k followed by the
      reference from step k + 1. */
  lemma RefFromStep(s: Setup, k: int)
    requires 0 <= k <= s.Dx()
    ensures RefFrom(s, k) == [Plot(s.steep, s.x0 + k, s.MinorAt(Offset(k, s.Dx(), s.Ady())))] + RefFrom(s, k + 1)
  {
    var r, r' := RefFrom(s, k), RefFrom(s, k + 1);
    forall i | 1 <= i < |r|
      ensures r[i] == r'[i - 1]
    {
      assert s.x0 + k + i == s.x0 + (k + 1) + (i - 1);
    }
  }

  /** From the loop state at step k the walk emits the reference pixels for
      steps k to dx. */
  lemma {:induction false} WalkFollowsReference(s: Setup, k: int)
    requires s.Normal() && 0 <= k <= s.Dx() + 1
    ensures Walk(s, s.x0 + k, s.MinorAt(Offset(k, s.Dx(), s.Ady())), ErrorAt(s, k)) == RefFrom(s, k)
    decreases s.Dx() + 1 - k
  {
    if k <= s.Dx() {
      StepKeepsErrorForm(s, k);
      WalkFollowsReference(s, k + 1);
      WalkStep(s, s.x0 + k, s.MinorAt(Offset(k, s.Dx(), s.Ady())), ErrorAt(s, k));
      RefFromStep(s, k);
    }
  }

  /** The pixels DrawLine writes are exactly the reference pixels. */
  lemma LineMatchesReference(x0: int, y0: int, x1: int, y1: int)
    ensures LinePixels(x0, y0, x1, y1) == LineReference(x0, y0, x1, y1)
  {
    var s := Normalize(x0, y0, x1, y1);
    if s.Dx() > 0 {
      OffsetEnds(s.Dx(), s.Ady());
    }
    assert ErrorAt(s, 0) == 0;
    WalkFollowsReference(s, 0);
  }

  // ---------------------------------------------------------------------
  // Properties of the drawn line

  /** Pixel k of the line sits at major coordinate s.x0 + k and at the
      rounded ideal minor coordinate. */
  lemma LinePixelAt(x0: int, y0: int, x1: int, y1: int, k: int)
    requires 0 <= k <= Normalize(x0, y0, x1, y1).Dx()
    ensures var s := Normalize(x0, y0, x1, y1);
      var ps := LinePixels(x0, y0, x1, y1);
      |ps| == s.Dx() + 1 && ps[k] == Plot(s.steep, s.x0 + k, s.MinorAt(Offset(k, s.Dx(), s.Ady())))
  {
    LineMatchesReference(x0, y0, x1, y1);
    var s := Normalize(x0, y0, x1, y1);
    assert RefFrom(s, 0)[k] == Plot(s.steep, s.x0 + 0 + k, s.MinorAt(Offset(0 + k, s.Dx(), s.Ady())));
  }

  /** DrawLine writes max(|x1-x0|, |y1-y0|) + 1 pixels. */
  lemma LinePixelCount(x0: int, y0: int, x1: int, y1: int)
    ensures |LinePixels(x0, y0, x1, y1)| == Max(Abs(x1 - x0), Abs(y1 - y0)) + 1
  {
    LinePixelAt(x0, y0, x1, y1, 0);
  }

  /** The walk starts at one endpoint and ends at the other, so both are drawn. */
  lemma LineEndpoints(x0: int, y0: int, x1: int, y1: int)
    ensures var ps := LinePixels(x0, y0, x1, y1);
      |ps| > 0 &&
      {ps[0], ps[|ps| - 1]} == {Point(x0, y0), Point(x1, y1)} &&
      Point(x0, y0) in ps && Point(x1, y1) in ps
  {
    var s := Normalize(x0, y0, x1, y1);
    var ps := LinePixels(x0, y0, x1, y1);
    LinePixelAt(x0, y0, x1, y1, 0);
    LinePixelAt(x0, y0, x1, y1, s.Dx());
    if s.Dx() > 0 {
      OffsetEnds(s.Dx(), s.Ady());
    }
    assert s.MinorAt(s.Ady()) == s.y1;
    assert ps[0] == Plot(s.steep, s.x0, s.y0);
    assert ps[|ps| - 1] == Plot(s.steep, s.x1, s.y1);
  }

  /** A zero-length line writes its single point. */
  lemma LineSinglePoint(x: int, y: int)
    ensures LinePixels(x, y, x, y) == [Point(x, y)]
  {
    LinePixelCount(x, y, x, y);
    LineEndpoints(x, y, x, y);
  }

  /** Each step advances the major coordinate by one and the minor coordinate
      by 0 or by one unit towards the far endpoint. */
  lemma LineSteps(x0: int, y0: int, x1: int, y1: int)
    ensures var s := Normalize(x0, y0, x1, y1);
      var ps := LinePixels(x0, y0, x1, y1);
      forall k :: 0 <= k < |ps| - 1 ==>
        Major(s.steep, ps[k + 1]) == Major(s.steep, ps[k]) + 1 &&
        Minor(s.steep, ps[k + 1]) - Minor(s.steep, ps[k]) in {0, s.YStep()}
  {
    var s := Normalize(x0, y0, x1, y1);
    var ps := LinePixels(x0, y0, x1, y1);
    LinePixelCount(x0, y0, x1, y1);
    forall k | 0 <= k < |ps| - 1
      ensures Major(s.steep, ps[k + 1]) == Major(s.steep, ps[k]) + 1
      ensures Minor(s.steep, ps[k + 1]) - Minor(s.steep, ps[k]) in {0, s.YStep()}
    {
      OffsetStep(k, s.Dx(), s.Ady());
      LinePixelAt(x0, y0, x1, y1, k);
      LinePixelAt(x0, y0, x1, y1, k + 1);
    }
  }

  /** Consecutive pixels are distinct 8-neighbours: the path is connected. */
  lemma LineEightConnected(x0: int, y0: int, x1: int, y1: int)
    ensures var ps := LinePixels(x0, y0, x1, y1);
      forall k :: 0 <= k < |ps| - 1 ==>
        ps[k + 1] != ps[k] && Abs(ps[k + 1].x - ps[k].x) <= 1 && Abs(ps[k + 1].y - ps[k].y) <= 1
  {
    LineSteps(x0, y0, x1, y1);
  }

  /** No pixel is written twice. */
  lemma LineDistinct(x0: int, y0: int, x1: int, y1: int)
    ensures var ps := LinePixels(x0, y0, x1, y1);
      forall i, j :: 0 <= i < j < |ps| ==> ps[i] != ps[j]
  {
    var s := Normalize(x0, y0, x1, y1);
    var ps := LinePixels(x0, y0, x1, y1);
    LinePixelCount(x0, y0, x1, y1);
    forall i, j | 0 <= i < j < |ps|
      ensures ps[i] != ps[j]
    {
      LinePixelAt(x0, y0, x1, y1, i);
      LinePixelAt(x0, y0, x1, y1, j);
      assert Major(s.steep, ps[i]) != Major(s.steep, ps[j]);
    }
  }

  /** A sequence without repetitions has as many distinct elements as entries. */
  lemma {:induction false} DistinctCard(ps: seq<Point>)
    requires forall i, j :: 0 <= i < j < |ps| ==> ps[i] != ps[j]
    ensures |set p | p in ps| == |ps|
  {
    if ps != [] {
      var init := ps[..|ps| - 1];
      DistinctCard(init);
      assert (set p | p in ps) == (set p | p in init) + {ps[|ps| - 1]};
      assert ps[|ps| - 1] !in init;
    }
  }

  /** DrawLine covers exactly max(|x1-x0|, |y1-y0|) + 1 distinct pixels. */
  lemma LinePixelSetSize(x0: int, y0: int, x1: int, y1: int)
    ensures |set p | p in LinePixels(x0, y0, x1, y1)| == Max(Abs(x1 - x0), Abs(y1 - y0)) + 1
  {
    LineDistinct(x0, y0, x1, y1);
    LinePixelCount(x0, y0, x1, y1);
    DistinctCard(LinePixels(x0, y0, x1, y1));
  }

  /** A point between the normalised endpoints, transposed back, lies in the
      bounding box of the original endpoints. */
  lemma PlotInBox(x0: int, y0: int, x1: int, y1: int, a: int, b: int)
    requires var s := Normalize(x0, y0, x1, y1);
      s.x0 <= a <= s.x1 && Min(s.y0, s.y1) <= b <= Max(s.y0, s.y1)
    ensures var p := Plot(Normalize(x0, y0, x1, y1).steep, a, b);
      Min(x0, x1) <= p.x <= Max(x0, x1) && Min(y0, y1) <= p.y <= Max(y0, y1)
  {
  }

  /** Every pixel lies in the axis-aligned bounding box of the two endpoints. */
  lemma LineInBoundingBox(x0: int, y0: int, x1: int, y1: int)
    ensures forall p :: p in LinePixels(x0, y0, x1, y1) ==>
      Min(x0, x1) <= p.x <= Max(x0, x1) && Min(y0, y1) <= p.y <= Max(y0, y1)
  {
    var s := Normalize(x0, y0, x1, y1);
    var ps := LinePixels(x0, y0, x1, y1);
    LinePixelCount(x0, y0, x1, y1);
    forall p | p in ps
      ensures Min(x0, x1) <= p.x <= Max(x0, x1) && Min(y0, y1) <= p.y <= Max(y0, y1)
    {
      var k :| 0 <= k < |ps| && ps[k] == p;
      LinePixelAt(x0, y0, x1, y1, k);
      OffsetRange(k, s.Dx(), s.Ady());
      PlotInBox(x0, y0, x1, y1, s.x0 + k, s.MinorAt(Offset(k, s.Dx(), s.Ady())));
    }
  }

  /** Drawing from either end writes the same pixels in the same order. */
  lemma LineDirectionInvariant(x0: int, y0: int, x1: int, y1: int)
    ensures LinePixels(x0, y0, x1, y1) == LinePixels(x1, y1, x0, y0)
  {
    assert Normalize(x0, y0, x1, y1) == Normalize(x1, y1, x0, y0);
  }

  // ---------------------------------------------------------------------
  // The rasterizer

  /** Draws the segment from (x0, y0) to (x1, y1) in white: every on-grid
      pixel of LinePixels becomes white and every other pixel keeps its colour. */
  method DrawLine(x0: int, y0: int, x1: int, y1: int, image: Image)
    requires image.Valid()
    modifies image.cells
    ensures forall i, j :: 0 <= i < image.width && 0 <= j < image.height ==>
      image.cells[i, j] == (if Point(i, j) in LinePixels(x0, y0, x1, y1) then White else old(image.cells[i, j]))
  {
    // The endpoints after the normalising swaps.
    var ax0, ay0, ax1, ay1 := x0, y0, x1, y1;
    var steep := false;
    if Abs(ax1 - ax0) < Abs(ay1 - ay0) {
      ax0, ay0 := ay0, ax0;
      ax1, ay1 := ay1, ax1;
      steep := true;
    }
    if ax0 > ax1 {
      ax0, ax1 := ax1, ax0;
      ay0, ay1 := ay1, ay0;
    }
    ghost var s := Setup(steep, ax0, ay0, ax1, ay1);
    assert s == Normalize(x0, y0, x1, y1);

    var dx := ax1 - ax0;
    var dy := ay1 - ay0;
    var dError2 := Abs(dy) * 2;
    var error2 := 0;
    var x, y := ax0, ay0;
    var color := White;
    assert dx == s.Dx() && dError2 == s.Ady() * 2 && s.YStep() == (if ay1 > ay0 then 1 else -1);
    ghost var line := LinePixels(x0, y0, x1, y1);
    ghost var drawn: seq<Point> := [];
    while x <= ax1
      invariant ax0 <= x <= ax1 + 1
      invariant drawn + Walk(s, x, y, error2) == line
      invariant ErrorBounded(error2, dx)
      invariant forall i, j :: 0 <= i < image.width && 0 <= j < image.height ==>
        image.cells[i, j] == (if Point(i, j) in drawn then White else old(image.cells[i, j]))
      decreases ax1 - x
    {
      if steep {
        image.Set(y, x, color);
      } else {
        image.Set(x, y, color);
      }
      ghost var next := Step(s, y, error2);
      WalkStep(s, x, y, error2);
      AppendAssoc(drawn, Plot(steep, x, y), Walk(s, x + 1, next.0, next.1));
      drawn := drawn + [Plot(steep, x, y)];
      error2 := error2 + dError2;
      if error2 > dx {
        y := y + (if ay1 > ay0 then 1 else -1);
        error2 := error2 - dx * 2;
      }
      x := x + 1;
      assert y == next.0 && error2 == next.1;
    }
  }
}
