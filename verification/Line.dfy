/** fb_draw_line of kernel/arch/x86_64/framebuffer.c: the error-driven loop plots the rounded line. */
module Line {
  import opened Bits
  import opened Common

  datatype Point = Point(x: nat, y: nat)

  datatype Segment = Segment(from: Point, to: Point) {
    /** The 32-bit arithmetic of the loop stays in range. */
    ghost predicate Valid() {
      from.x < TWO31 && from.y < TWO31 && to.x < TWO31 && to.y < TWO31 && 3 * Major() < TWO31
    }

    function Dx(): nat { Dist(from.x, to.x) }

    function Dy(): nat { Dist(from.y, to.y) }

    function Major(): nat { if Dx() >= Dy() then Dx() else Dy() }
  }

  function Dist(a: nat, b: nat): nat {
    if a < b then b - a else a - b
  }

  /** `n` steps from `a` towards `b`. */
  function Toward(a: nat, b: nat, n: nat): (r: nat)
    requires n <= Dist(a, b)
  {
    if a < b then a + n else if b < a then a - n else a
  }

  // ------------------------------------------------------------------ the rounded line

  /** The integer nearest to n * minor / major, the smaller one when two are equally near. */
  function Nearest(n: nat, minor: nat, major: nat): nat {
    if major == 0 then 0 else (2 * (n * minor) + major - 1) / (2 * major)
  }

  /** `v` is at most half a unit from n * minor / major; below it only by less than half. */
  ghost predicate Rounds(n: nat, minor: nat, major: nat, v: nat) {
    0 < 2 * (n * minor - v * major) + major <= 2 * major
  }

  lemma {:induction false} NearestWithin(n: nat, minor: nat, major: nat)
    requires major > 0
    ensures Rounds(n, minor, major, Nearest(n, minor, major))
  {
    var p, v := n * minor, Nearest(n, minor, major);
    var x := 2 * p + major - 1;
    assert x == (2 * major) * (x / (2 * major)) + x % (2 * major);
    assert (2 * major) * v == 2 * (v * major);
  }

  lemma {:induction false} NearestIs(n: nat, minor: nat, major: nat, v: nat)
    requires major > 0 && Rounds(n, minor, major, v)
    ensures Nearest(n, minor, major) == v
  {
    var p, q := n * minor, v * major;
    var r := 2 * (p - q) + major - 1;
    assert v * (2 * major) == 2 * q;
    DivModUnique(2 * p + major - 1, 2 * major, v, r);
  }

  lemma {:induction false} Products(n: nat, v: nat, minor: nat, major: nat)
    ensures (n + 1) * minor == n * minor + minor && (v + 1) * major == v * major + major
  {
  }

  /** One step along the major axis: whether the minor one moves too. */
  lemma {:induction false} NearestStep(n: nat, minor: nat, major: nat)
    requires 0 < major && minor <= major
    ensures var v := Nearest(n, minor, major);
      Nearest(n + 1, minor, major) == if 2 * (n * minor - v * major + minor) > major then v + 1 else v
  {
    var v := Nearest(n, minor, major);
    NearestWithin(n, minor, major);
    Products(n, v, minor, major);
    NearestIs(n + 1, minor, major, if 2 * (n * minor - v * major + minor) > major then v + 1 else v);
  }

  lemma {:induction false} NearestEnds(minor: nat, major: nat)
    requires 0 < major
    ensures Nearest(0, minor, major) == 0 && Nearest(major, minor, major) == minor
  {
    assert major * minor == minor * major;
    NearestIs(0, minor, major, 0);
    NearestIs(major, minor, major, minor);
  }

  lemma {:induction false} NearestMonotone(n: nat, m: nat, minor: nat, major: nat)
    requires n <= m && minor <= major
    ensures Nearest(n, minor, major) <= Nearest(m, minor, major)
    decreases m
  {
    if n < m && major > 0 {
      NearestMonotone(n, m - 1, minor, major);
      NearestStep(m - 1, minor, major);
    }
  }

  lemma {:induction false} NearestBounded(n: nat, minor: nat, major: nat)
    requires n <= major && minor <= major
    ensures Nearest(n, minor, major) <= minor
  {
    if major > 0 {
      NearestMonotone(n, major, minor, major);
      NearestEnds(minor, major);
    }
  }

  /** Steps taken along each axis after `n` turns. */
  ghost function Across(l: Segment, n: nat): nat {
    if l.Dx() >= l.Dy() then n else Nearest(n, l.Dx(), l.Dy())
  }

  ghost function Down(l: Segment, n: nat): nat {
    if l.Dx() >= l.Dy() then Nearest(n, l.Dy(), l.Dx()) else n
  }

  lemma {:induction false} StepsBounded(l: Segment, n: nat)
    requires n <= l.Major()
    ensures Across(l, n) <= l.Dx() && Down(l, n) <= l.Dy()
  {
    if l.Dx() >= l.Dy() {
      NearestBounded(n, l.Dy(), l.Dx());
    } else {
      NearestBounded(n, l.Dx(), l.Dy());
    }
  }

  /** The `n`-th pixel of the rounded line. */
  ghost function Pixel(l: Segment, n: nat): Point
    requires n <= l.Major()
  {
    StepsBounded(l, n);
    Point(Toward(l.from.x, l.to.x, Across(l, n)), Toward(l.from.y, l.to.y, Down(l, n)))
  }

  /** It starts and ends at the ends of the segment, and reaches the end only then. */
  lemma {:induction false} PixelEnds(l: Segment, n: nat)
    requires n <= l.Major()
    ensures Pixel(l, 0) == l.from
    ensures Pixel(l, n) == l.to <==> n == l.Major()
  {
    StepsBounded(l, n);
    if l.Dx() >= l.Dy() {
      if l.Dx() > 0 {
        NearestEnds(l.Dy(), l.Dx());
      }
    } else {
      NearestEnds(l.Dx(), l.Dy());
    }
  }

  /** Each pixel touches the one before it, and the major axis always moves. */
  lemma {:induction false} PixelNext(l: Segment, n: nat)
    requires n < l.Major()
    ensures var p, q := Pixel(l, n), Pixel(l, n + 1);
      && Dist(p.x, q.x) <= 1 && Dist(p.y, q.y) <= 1
      && (if l.Dx() >= l.Dy() then Dist(p.x, q.x) == 1 else Dist(p.y, q.y) == 1)
  {
    StepsBounded(l, n);
    StepsBounded(l, n + 1);
    if l.Dx() >= l.Dy() {
      NearestStep(n, l.Dy(), l.Dx());
    } else {
      NearestStep(n, l.Dx(), l.Dy());
    }
  }

  /** Each pixel is at most half a pixel from the true line, measured along the minor axis. */
  lemma {:induction false} PixelNear(l: Segment, n: nat)
    requires n <= l.Major()
    ensures var u, v := Dist(l.from.x, Pixel(l, n).x), Dist(l.from.y, Pixel(l, n).y);
      var off := u * l.Dy() - v * l.Dx();
      0 <= 2 * off + l.Major() <= 2 * l.Major()
  {
    StepsBounded(l, n);
    var u, v := Dist(l.from.x, Pixel(l, n).x), Dist(l.from.y, Pixel(l, n).y);
    assert u == Across(l, n) && v == Down(l, n);
    if l.Dx() >= l.Dy() {
      if l.Dx() > 0 {
        NearestWithin(n, l.Dy(), l.Dx());
      }
    } else {
      NearestWithin(n, l.Dx(), l.Dy());
    }
  }

  // ------------------------------------------------------------------ the error term

  /** The value of `err` after `n` turns. */
  ghost function ErrAt(l: Segment, n: nat): int {
    l.Dx() - l.Dy() - Across(l, n) * l.Dy() + Down(l, n) * l.Dx()
  }

  lemma {:induction false} ErrStart(l: Segment)
    ensures Across(l, 0) == 0 && Down(l, 0) == 0 && ErrAt(l, 0) == l.Dx() - l.Dy()
  {
    if l.Dx() >= l.Dy() {
      if l.Dx() > 0 {
        NearestEnds(l.Dy(), l.Dx());
      }
    } else {
      NearestEnds(l.Dx(), l.Dy());
    }
  }

  lemma {:induction false} ErrBounded(l: Segment, n: nat)
    requires l.Valid() && n <= l.Major()
    ensures -0x4000_0000 < ErrAt(l, n) < 0x4000_0000
  {
    if l.Dx() >= l.Dy() {
      if l.Dx() > 0 {
        NearestWithin(n, l.Dy(), l.Dx());
      }
    } else {
      NearestWithin(n, l.Dx(), l.Dy());
    }
  }

  /** The two tests of a turn move exactly the axes that the rounded line moves. */
  lemma {:induction false} TurnX(l: Segment, n: nat)
    requires n < l.Major() && l.Dx() >= l.Dy()
    ensures 2 * ErrAt(l, n) + l.Dy() > 0
    ensures Down(l, n + 1) == if 2 * ErrAt(l, n) < l.Dx() then Down(l, n) + 1 else Down(l, n)
  {
    NearestStep(n, l.Dy(), l.Dx());
    NearestWithin(n, l.Dy(), l.Dx());
    if l.Dx() == l.Dy() {
      DiagonalExact(n, l.Dx());
    }
  }

  lemma {:induction false} DiagonalExact(n: nat, d: nat)
    requires d > 0
    ensures Nearest(n, d, d) == n
  {
    NearestIs(n, d, d, n);
  }

  lemma {:induction false} TurnY(l: Segment, n: nat)
    requires n < l.Major() && l.Dx() < l.Dy()
    ensures 2 * ErrAt(l, n) < l.Dx()
    ensures Across(l, n + 1) == if 2 * ErrAt(l, n) + l.Dy() > 0 then Across(l, n) + 1 else Across(l, n)
  {
    NearestStep(n, l.Dx(), l.Dy());
    NearestWithin(n, l.Dx(), l.Dy());
  }

  lemma {:induction false} Turn(l: Segment, n: nat)
    requires n < l.Major()
    ensures var e2 := 2 * ErrAt(l, n);
      && Across(l, n + 1) == (if e2 > -(l.Dy() as int) then Across(l, n) + 1 else Across(l, n))
      && Down(l, n + 1) == (if e2 < l.Dx() then Down(l, n) + 1 else Down(l, n))
      && ErrAt(l, n + 1) == ErrAt(l, n) - (if e2 > -(l.Dy() as int) then l.Dy() else 0) + (if e2 < l.Dx() then l.Dx() else 0)
  {
    if l.Dx() >= l.Dy() {
      TurnX(l, n);
    } else {
      TurnY(l, n);
    }
    Products(Across(l, n), Down(l, n), l.Dy(), l.Dx());
  }

  // ------------------------------------------------------------------ the code

  /** The first `k` pixels of the rounded line. */
  ghost function Covered(l: Segment, k: nat): set<Point>
    requires k <= l.Major() + 1
  {
    set n | 0 <= n < k :: Pixel(l, n)
  }

  /** The points are the first pixels of the line, in order. */
  ghost predicate Plotted(l: Segment, points: seq<Point>) {
    |points| <= l.Major() + 1 && forall k :: 0 <= k < |points| ==> points[k] == Pixel(l, k)
  }

  lemma {:induction false} PlottedIsCovered(l: Segment, points: seq<Point>)
    requires Plotted(l, points)
    ensures forall p :: p in points <==> p in Covered(l, |points|)
  {
    forall p | p in points ensures p in Covered(l, |points|) {
      var k :| 0 <= k < |points| && points[k] == p;
      assert Pixel(l, k) in Covered(l, |points|);
    }
    forall p | p in Covered(l, |points|) ensures p in points {
      var k :| 0 <= k < |points| && Pixel(l, k) == p;
      assert points[k] == p;
    }
  }

  /** Where the loop stands after `n` turns. */
  ghost predicate Standing(l: Segment, n: nat, cx: int, cy: int, err: int) {
    n <= l.Major() && cx == Pixel(l, n).x && cy == Pixel(l, n).y && err == ErrAt(l, n)
  }

  lemma {:induction false} StartsThere(l: Segment)
    ensures Standing(l, 0, l.from.x, l.from.y, l.Dx() - l.Dy())
  {
    ErrStart(l);
    PixelEnds(l, 0);
  }

  /** Only the last pixel is the end. */
  lemma {:induction false} LastIsEnd(l: Segment, n: nat, cx: int, cy: int, err: int)
    requires Standing(l, n, cx, cy, err)
    ensures cx == l.to.x && cy == l.to.y <==> n == l.Major()
    ensures n <= l.Major() && cx >= 0 && cy >= 0 && Point(cx, cy) == Pixel(l, n)
  {
    PixelEnds(l, n);
  }

  function Sign(from: nat, to: nat): int {
    if to > from then 1 else if to < from then -1 else 0
  }

  /** The end of a turn of the loop, all of it in 32-bit range. */
  method Move(l: Segment, dx: int, dy: int, sx: int, sy: int, cx: int, cy: int, err: int, ghost n: nat)
    returns (nx: int, ny: int, nerr: int)
    requires l.Valid() && n < l.Major() && dx == l.Dx() && dy == l.Dy()
    requires sx == Sign(l.from.x, l.to.x) && sy == Sign(l.from.y, l.to.y)
    requires Standing(l, n, cx, cy, err)
    ensures Standing(l, n + 1, nx, ny, nerr)
  {
    Turn(l, n);
    ErrBounded(l, n);
    StepsBounded(l, n);
    StepsBounded(l, n + 1);
    nx, ny, nerr := cx, cy, err;
    var e2 := 2 * err;
    assert -0x8000_0000 <= e2 < 0x8000_0000;
    if e2 > -dy {
      nerr, nx := nerr - dy, nx + sx;
    }
    if e2 < dx {
      nerr, ny := nerr + dx, ny + sy;
    }
  }

  class Framebuffer {
    /** Rows of pixels; their lengths are the height and the width. */
    const pixels: array2<nat>
    var ready: bool

    constructor (width: nat, height: nat)
      ensures fresh(pixels) && pixels.Length0 == height && pixels.Length1 == width && ready
    {
      pixels := new nat[height, width]((i, j) => 0);
      ready := true;
    }

    /** fb_set_pixel: points outside the screen are ignored. */
    method SetPixel(p: Point, color: nat)
      modifies pixels
      ensures forall x: nat, y: nat :: x < pixels.Length1 && y < pixels.Length0 ==>
        pixels[y, x] == if ready && Point(x, y) == p then color else old(pixels[y, x])
    {
      if ready && p.x < pixels.Length1 && p.y < pixels.Length0 {
        pixels[p.y, p.x] := color;
      }
    }

    /** fb_draw_line: the pixels of the rounded line in order, and no others. */
    method DrawLine(l: Segment, color: nat) returns (ghost plotted: seq<Point>)
      requires l.Valid()
      modifies pixels
      ensures !ready ==> plotted == []
      ensures ready ==> |plotted| == l.Major() + 1 && forall n :: 0 <= n <= l.Major() ==> plotted[n] == Pixel(l, n)
      ensures forall x: nat, y: nat :: x < pixels.Length1 && y < pixels.Length0 ==>
        pixels[y, x] == if ready && Point(x, y) in Covered(l, l.Major() + 1) then color else old(pixels[y, x])
    {
      plotted := [];
      if !ready {
        return;
      }
      plotted := Trace(l, color);
      PlottedIsCovered(l, plotted);
    }

    /** The loop plots pixel after pixel up to the last. */
    method Trace(l: Segment, color: nat) returns (ghost plotted: seq<Point>)
      requires l.Valid() && ready
      modifies pixels
      ensures Plotted(l, plotted) && |plotted| == l.Major() + 1
      ensures forall x: nat, y: nat :: x < pixels.Length1 && y < pixels.Length0 ==>
        pixels[y, x] == if Point(x, y) in plotted then color else old(pixels[y, x])
    {
      plotted := [];
      var dx: int, dy: int := l.to.x - l.from.x, l.to.y - l.from.y;
      var sx, sy := Sign(l.from.x, l.to.x), Sign(l.from.y, l.to.y);
      dx, dy := if dx < 0 then -dx else dx, if dy < 0 then -dy else dy;
      var err: int, cx: int, cy: int := dx - dy, l.from.x, l.from.y;
      ghost var n: nat := 0;
      StartsThere(l);
      while true
        invariant Standing(l, n, cx, cy, err)
        invariant |plotted| == n && Plotted(l, plotted)
        invariant forall x: nat, y: nat :: x < pixels.Length1 && y < pixels.Length0 ==>
          pixels[y, x] == if Point(x, y) in plotted then color else old(pixels[y, x])
        decreases l.Major() - n
      {
        SetPixel(Point(cx, cy), color);
        plotted := plotted + [Point(cx, cy)];
        LastIsEnd(l, n, cx, cy, err);
        if cx == l.to.x && cy == l.to.y {
          break;
        }
        cx, cy, err := Move(l, dx, dy, sx, sy, cx, cy, err, n);
        n := n + 1;
      }
    }
  }
}
