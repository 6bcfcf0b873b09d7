/** The drawing loops of gui/src/framebuffer.c: the incremental line and circle against closed forms. */
module Raster {
  import opened Arithmetic
  import opened Types

  function Abs(x: int): nat { if x < 0 then -x else x }
  function Max(x: nat, y: nat): nat { if x < y then y else x }
  function Min(x: nat, y: nat): nat { if x < y then x else y }

  predicate Int32(x: int) { -0x8000_0000 <= x < 0x8000_0000 }

  /** Ends of a line for which no intermediate value of fb_line leaves a signed 32-bit int: the largest is three
      times the longer distance. */
  predicate LineFits(a: int, b: int) { Int32(a) && Int32(b) && Abs(b - a) <= 0x2AAA_AAAA }

  /** A centre and radius for which no coordinate of the circle leaves a signed 32-bit int. */
  predicate CircleFits(c: int, r: int) { r < 0 || (Int32(c - r) && Int32(c + r)) }

  /** `q` is a / m rounded to the nearest integer, halves downwards. */
  ghost predicate IsRounded(a: int, m: int, q: int) { -m < 2 * a - 2 * (m * q) <= m }

  function RoundDiv(a: nat, m: nat): nat {
    if m == 0 then 0 else (2 * a + m - 1) / (2 * m)
  }

  lemma RoundedUnique(a: int, m: nat, p: int, q: int)
    requires IsRounded(a, m, p) && IsRounded(a, m, q)
    ensures p == q
  {
    if p < q { MulGap(m, p, q); } else if q < p { MulGap(m, q, p); }
  }

  /** RoundDiv is the one integer within half of a / m, a half going down. */
  lemma RoundDivIsRounded(a: nat, m: nat, q: nat)
    requires m > 0
    ensures q == RoundDiv(a, m) <==> 0 - m < 2 * a - 2 * (m * q) <= m
    ensures q == RoundDiv(a, m) <==> IsRounded(a, m, q)
  {
    var p := RoundDiv(a, m);
    var n, d := 2 * a + m - 1, 2 * m;
    assert n == d * p + n % d;
    assert d * p == 2 * (m * p);
    assert IsRounded(a, m, p);
    if IsRounded(a, m, q) { RoundedUnique(a, m, p, q); }
  }

  // ---- the line in closed form ------------------------------------------------------------

  /** Point number `k` of the line: both axes advance by the rounded share of the major distance. */
  function LinePoint(x0: int, y0: int, x1: int, y1: int, k: nat): (int, int)
  {
    var dx, dy := Abs(x1 - x0), Abs(y1 - y0);
    var m := Max(dx, dy);
    (Toward(x0, x1, Share(k, dx, m)), Toward(y0, y1, Share(k, dy, m)))
  }

  /** The part of `d` due after k of m steps, rounded. */
  function Share(k: nat, d: nat, m: nat): nat { RoundDiv(k * d, m) }

  /** `n` steps from `a` in the direction of `b`. */
  function Toward(a: int, b: int, n: nat): int { if a < b then a + n else a - n }

  lemma TowardMoves(a: int, b: int, n: nat)
    ensures Toward(a, b, 0) == a && Toward(a, b, n + 1) == Toward(a, b, n) + if a < b then 1 else -1
    ensures n <= Abs(b - a) ==> (if a < b then a <= Toward(a, b, n) <= b else b <= Toward(a, b, n) <= a)
    ensures Toward(a, b, n) == b <==> n == Abs(b - a)
  {
  }

  /** The first `n` points of the line. */
  ghost function LineUpTo(x0: int, y0: int, x1: int, y1: int, n: nat): set<(int, int)> {
    set k | 0 <= k < n :: LinePoint(x0, y0, x1, y1, k)
  }

  lemma NoPointsYet(x0: int, y0: int, x1: int, y1: int)
    ensures LineUpTo(x0, y0, x1, y1, 0) == {}
  {
  }

  lemma LineGrows(x0: int, y0: int, x1: int, y1: int, k: nat)
    ensures LineUpTo(x0, y0, x1, y1, k) + {LinePoint(x0, y0, x1, y1, k)} == LineUpTo(x0, y0, x1, y1, k + 1)
  {
    hide LinePoint;
  }

  /** The pixels of the line from (x0, y0) to (x1, y1). */
  ghost function LinePixels(x0: int, y0: int, x1: int, y1: int): set<(int, int)> {
    LineUpTo(x0, y0, x1, y1, Max(Abs(x1 - x0), Abs(y1 - y0)) + 1)
  }

  /** The line starts and ends exactly at its two given points. */
  lemma LineEndpoints(x0: int, y0: int, x1: int, y1: int)
    ensures LinePoint(x0, y0, x1, y1, 0) == (x0, y0)
    ensures LinePoint(x0, y0, x1, y1, Max(Abs(x1 - x0), Abs(y1 - y0))) == (x1, y1)
  {
    var dx, dy := Abs(x1 - x0), Abs(y1 - y0);
    var m := Max(dx, dy);
    if m > 0 {
      RoundDivIsRounded(0 * dx, m, 0);
      RoundDivIsRounded(0 * dy, m, 0);
      RoundDivIsRounded(m * dx, m, dx);
      RoundDivIsRounded(m * dy, m, dy);
    }
  }

  /** On the major axis the rounded share is the step number itself. */
  lemma MajorAdvances(m: nat, k: nat)
    requires m > 0
    ensures RoundDiv(k * m, m) == k
  {
    RoundDivIsRounded(k * m, m, k);
  }

  lemma HalfPixel(dx: nat, dy: nat, m: nat, k: nat, i: nat, j: nat)
    requires IsRounded(k * dx, m, i) && IsRounded(k * dy, m, j)
    requires (dx == m && i == k) || (dy == m && j == k)
    ensures Abs(2 * (dx * j - dy * i)) <= m
  {
    if dx == m && i == k {
      SameProducts(dx, j, dy, k);
    } else {
      SameProducts(dy, i, dx, k);
    }
  }

  lemma SameProducts(a: int, b: int, c: int, d: int)
    ensures a * b == b * a && c * d == d * c
  {
  }

  /** Every point of the line lies within half a pixel of the ideal line, measured on the minor axis. */
  lemma LineWithinHalfPixel(x0: int, y0: int, x1: int, y1: int, k: nat)
    requires k <= Max(Abs(x1 - x0), Abs(y1 - y0))
    ensures var (dx, dy) := (Abs(x1 - x0), Abs(y1 - y0));
      var (px, py) := LinePoint(x0, y0, x1, y1, k);
      Abs(2 * (dx * Abs(py - y0) - dy * Abs(px - x0))) <= Max(dx, dy)
  {
    var dx, dy := Abs(x1 - x0), Abs(y1 - y0);
    var m := Max(dx, dy);
    hide RoundDiv, IsRounded;
    if m > 0 {
      var (px, py) := LinePoint(x0, y0, x1, y1, k);
      var i, j := RoundDiv(k * dx, m), RoundDiv(k * dy, m);
      assert Abs(px - x0) == i && Abs(py - y0) == j;
      MajorAdvances(m, k);
      RoundDivIsRounded(k * dx, m, i);
      RoundDivIsRounded(k * dy, m, j);
      HalfPixel(dx, dy, m, k, i, j);
    }
  }

  /** The minor axis: with `j` the rounded share after k steps, the test 2(m(j + 1) - d(k + 1)) < m
      decides whether the next share is j + 1, and the opposite test always moves the major axis. */
  lemma MinorStep(m: nat, d: nat, k: nat, j: nat, t: int)
    requires d <= m && 0 < m && IsRounded(k * d, m, j) && t == 2 * (m * (j + 1) - d * (k + 1))
    ensures IsRounded((k + 1) * d, m, if t < m then j + 1 else j)
    ensures (d == m ==> j == k) ==> t > 0 - d
    ensures d == m && j == k ==> t < m
  {
    assert m * (j + 1) == m * j + m;
    assert (k + 1) * d == k * d + d == d * (k + 1);
    MinorProducts(m, d, k * d, m * j, t);
    if d == m && j == k { SameProducts(m, j, k, d); }
  }

  /** MinorStep on the products: `a` is d times k and `q` is m times j. */
  lemma MinorProducts(m: int, d: int, a: int, q: int, t: int)
    requires 0 <= d <= m && 0 < m && -m < 2 * a - 2 * q <= m && t == 2 * (q + m) - 2 * (a + d)
    ensures -m < 2 * (a + d) - 2 * (if t < m then q + m else q) <= m
    ensures (d == m ==> a == q) ==> t > 0 - d
    ensures d == m && a == q ==> t < m
  {
  }

  /** The minor axis in terms of rounded shares: a step is taken exactly when the share goes up. */
  lemma MinorShare(m: nat, d: nat, k: nat, j: nat, t: int)
    requires d <= m && 0 < m && j == RoundDiv(k * d, m) && t == 2 * (m * (j + 1) - d * (k + 1))
    ensures RoundDiv((k + 1) * d, m) == if t < m then j + 1 else j
    ensures t > 0 - d
  {
    if d == m { MajorAdvances(m, k); }
    RoundDivIsRounded(k * d, m, j);
    MinorStep(m, d, k, j, t);
    RoundDivIsRounded((k + 1) * d, m, if t < m then j + 1 else j);
  }

  /** One iteration of fb_line: with i x-steps and j y-steps behind it, the two tests on `err` move
      each axis exactly to its next rounded share. */
  lemma LineStep(dx: nat, dy: nat, m: nat, k: nat, i: nat, j: nat, err: int)
    requires m == Max(dx, dy) && k < m
    requires i == RoundDiv(k * dx, m) && j == RoundDiv(k * dy, m)
    requires err == dx * (j + 1) - dy * (i + 1)
    ensures (if err * 2 > 0 - dy then i + 1 else i) == RoundDiv((k + 1) * dx, m)
    ensures (if err * 2 < dx then j + 1 else j) == RoundDiv((k + 1) * dy, m)
    ensures dx == m ==> i == k
    ensures dy == m ==> j == k
  {
    MajorAdvances(m, k);
    MajorAdvances(m, k + 1);
    hide RoundDiv;
    if dx == m {
      MinorShare(m, dy, k, j, err * 2);
    } else {
      MinorShare(m, dx, k, i, 0 - err * 2);
    }
  }

  lemma ShareBound(d: nat, m: nat, k: nat)
    requires d <= m && k <= m
    ensures RoundDiv(k * d, m) <= d
  {
    if m > 0 {
      var q := RoundDiv(k * d, m);
      RoundDivIsRounded(k * d, m, q);
      if k < m { MulGap(d, k, m); }
      if q > d { MulGap(m, d, q); }
    }
  }

  /** On the way from `a` to `b` a point is as many steps from `a` as it is away. */
  lemma TowardReaches(a: int, b: int, p: int)
    requires a <= p <= b || b <= p <= a
    ensures Toward(a, b, Abs(p - a)) == p && Abs(p - a) <= Abs(b - a)
  {
  }

  lemma TowardStays(a: int, b: int, n: nat)
    requires n <= Abs(b - a)
    ensures var p := Toward(a, b, n); (a <= p <= b || b <= p <= a) && Abs(p - a) == n
  {
  }

  /** Which pixels belong to a line, without running it: those between its ends that on the minor axis are within half
      a pixel of the ideal line, of two equally near ones the one nearer to the start. */
  lemma LinePixelIff(x0: int, y0: int, x1: int, y1: int, px: int, py: int)
    ensures (px, py) in LinePixels(x0, y0, x1, y1) <==>
      var dx, dy, a, b := Abs(x1 - x0), Abs(y1 - y0), Abs(px - x0), Abs(py - y0);
      && (x0 <= px <= x1 || x1 <= px <= x0) && (y0 <= py <= y1 || y1 <= py <= y0)
      && (dx > 0 && dx >= dy ==> 2 * (b * dx) < 2 * (a * dy) + dx && 2 * (a * dy) <= 2 * (b * dx) + dx)
      && (dy > 0 && dy >= dx ==> 2 * (a * dy) < 2 * (b * dx) + dy && 2 * (b * dx) <= 2 * (a * dy) + dy)
  {
    hide RoundDiv, IsRounded, Toward, Share, Abs, Max, LinePixels;
    if (px, py) in LinePixels(x0, y0, x1, y1) {
      var k := SomePoint(x0, y0, x1, y1, px, py);
      PointShares(x0, y0, x1, y1, k);
      SharesNear(Abs(x1 - x0), Abs(y1 - y0), k, Abs(px - x0), Abs(py - y0));
    }
    if (x0 <= px <= x1 || x1 <= px <= x0) && (y0 <= py <= y1 || y1 <= py <= y0)
       && NearLine(Abs(x1 - x0), Abs(y1 - y0), Abs(px - x0), Abs(py - y0)) {
      TowardReaches(x0, x1, px);
      TowardReaches(y0, y1, py);
      NearShares(Abs(x1 - x0), Abs(y1 - y0), Abs(px - x0), Abs(py - y0));
      PointOfShares(x0, y0, x1, y1, if Abs(x1 - x0) >= Abs(y1 - y0) then Abs(px - x0) else Abs(py - y0), px, py);
    }
  }

  /** An offset (a, b) from the start is within half a pixel of the ideal line, ties towards the start. */
  ghost predicate NearLine(dx: nat, dy: nat, a: nat, b: nat) {
    && (dx > 0 && dx >= dy ==> 2 * (b * dx) < 2 * (a * dy) + dx && 2 * (a * dy) <= 2 * (b * dx) + dx)
    && (dy > 0 && dy >= dx ==> 2 * (a * dy) < 2 * (b * dx) + dy && 2 * (b * dx) <= 2 * (a * dy) + dy)
  }

  lemma SomePoint(x0: int, y0: int, x1: int, y1: int, px: int, py: int) returns (k: nat)
    requires (px, py) in LinePixels(x0, y0, x1, y1)
    ensures k <= Max(Abs(x1 - x0), Abs(y1 - y0)) && LinePoint(x0, y0, x1, y1, k) == (px, py)
  {
    hide LinePoint, Abs, Max;
    k :| 0 <= k < Max(Abs(x1 - x0), Abs(y1 - y0)) + 1 && LinePoint(x0, y0, x1, y1, k) == (px, py);
  }

  lemma PointOfShares(x0: int, y0: int, x1: int, y1: int, k: nat, px: int, py: int)
    requires var (dx, dy) := (Abs(x1 - x0), Abs(y1 - y0));
      && k <= Max(dx, dy) && Toward(x0, x1, Share(k, dx, Max(dx, dy))) == px
      && Toward(y0, y1, Share(k, dy, Max(dx, dy))) == py
    ensures (px, py) in LinePixels(x0, y0, x1, y1)
  {
    hide Share, Toward, Abs, Max;
    assert LinePoint(x0, y0, x1, y1, k) == (px, py);
  }

  lemma PointShares(x0: int, y0: int, x1: int, y1: int, k: nat)
    requires k <= Max(Abs(x1 - x0), Abs(y1 - y0))
    ensures var (dx, dy, p) := (Abs(x1 - x0), Abs(y1 - y0), LinePoint(x0, y0, x1, y1, k));
      && (x0 <= p.0 <= x1 || x1 <= p.0 <= x0) && (y0 <= p.1 <= y1 || y1 <= p.1 <= y0)
      && Abs(p.0 - x0) == Share(k, dx, Max(dx, dy)) && Abs(p.1 - y0) == Share(k, dy, Max(dx, dy))
  {
    hide RoundDiv, Toward;
    var dx, dy := Abs(x1 - x0), Abs(y1 - y0);
    var m := Max(dx, dy);
    ShareBound(dx, m, k);
    ShareBound(dy, m, k);
    TowardStays(x0, x1, RoundDiv(k * dx, m));
    TowardStays(y0, y1, RoundDiv(k * dy, m));
  }

  lemma SharesNear(dx: nat, dy: nat, k: nat, a: nat, b: nat)
    requires a == Share(k, dx, Max(dx, dy)) && b == Share(k, dy, Max(dx, dy))
    ensures NearLine(dx, dy, a, b)
  {
    var m := Max(dx, dy);
    hide RoundDiv;
    if m > 0 {
      MajorAdvances(m, k);
      RoundDivIsRounded(k * dx, m, a);
      RoundDivIsRounded(k * dy, m, b);
      SameProducts(dx, b, dy, a);
    }
  }

  lemma NearShares(dx: nat, dy: nat, a: nat, b: nat)
    requires a <= dx && b <= dy && NearLine(dx, dy, a, b)
    ensures var k := if dx >= dy then a else b;
      k <= Max(dx, dy) && Share(k, dx, Max(dx, dy)) == a && Share(k, dy, Max(dx, dy)) == b
  {
    var m, k := Max(dx, dy), if dx >= dy then a else b;
    hide RoundDiv;
    if m == 0 {
      NoShare(k);
    } else {
      MajorAdvances(m, k);
      RoundDivIsRounded(k * dx, m, a);
      RoundDivIsRounded(k * dy, m, b);
      SameProducts(dx, b, dy, a);
      if dx == dy && a != b {
        if a < b { MulGap(dx, a, b); } else { MulGap(dx, b, a); }
      }
    }
  }

  lemma NoShare(k: nat)
    ensures Share(k, 0, 0) == 0
  {
  }

  /** The state of fb_line's loop after k iterations. */
  ghost predicate AtStep(dx: nat, dy: nat, m: nat, k: nat, i: nat, j: nat, err: int) {
    && m == Max(dx, dy) && k <= m
    && i == Share(k, dx, m) && j == Share(k, dy, m)
    && err == Err(dx, dy, i, j)
  }

  /** The value of fb_line's `err` after i x-steps and j y-steps. */
  ghost function Err(dx: nat, dy: nat, i: nat, j: nat): int {
    dx * j + dx - dy * i - dy
  }

  lemma MulNext(a: int, b: int)
    ensures a * (b + 1) == a * b + a
  {
  }

  lemma LineLoopStarts(dx: nat, dy: nat)
    ensures AtStep(dx, dy, Max(dx, dy), 0, 0, 0, dx - dy)
  {
    var m := Max(dx, dy);
    if m > 0 {
      RoundDivIsRounded(0 * dx, m, 0);
      RoundDivIsRounded(0 * dy, m, 0);
    }
  }

  lemma LineLoopBounds(dx: nat, dy: nat, m: nat, k: nat, i: nat, j: nat, err: int)
    requires AtStep(dx, dy, m, k, i, j, err)
    ensures i <= dx && j <= dy && Abs(err * 2) <= 3 * m
  {
    ShareBound(dx, m, k);
    ShareBound(dy, m, k);
    if m > 0 {
      MajorAdvances(m, k);
      RoundDivIsRounded(k * dx, m, i);
      RoundDivIsRounded(k * dy, m, j);
      HalfPixel(dx, dy, m, k, i, j);
      hide RoundDiv, IsRounded;
    }
  }

  lemma LineLoopPoint(x0: int, y0: int, x1: int, y1: int, m: nat, k: nat, i: nat, j: nat, err: int)
    requires AtStep(Abs(x1 - x0), Abs(y1 - y0), m, k, i, j, err)
    ensures LinePoint(x0, y0, x1, y1, k) == (Toward(x0, x1, i), Toward(y0, y1, j))
  {
    hide Share;
  }

  /** The loop of fb_line reaches its end point after exactly `m` steps, and not before. */
  lemma LineLoopEnds(dx: nat, dy: nat, m: nat, k: nat, i: nat, j: nat, err: int)
    requires AtStep(dx, dy, m, k, i, j, err)
    ensures k == m <==> i == dx && j == dy
  {
    if m > 0 {
      MajorAdvances(m, k);
      RoundDivIsRounded(m * dx, m, dx);
      RoundDivIsRounded(m * dy, m, dy);
    }
  }

  lemma LineLoopNext(dx: nat, dy: nat, m: nat, k: nat, i: nat, j: nat, err: int)
    requires AtStep(dx, dy, m, k, i, j, err) && k < m
    ensures AtStep(dx, dy, m, k + 1,
      if err * 2 > 0 - dy then i + 1 else i,
      if err * 2 < dx then j + 1 else j,
      err - (if err * 2 > 0 - dy then dy else 0) + (if err * 2 < dx then dx else 0))
  {
    MulNext(dx, j);
    MulNext(dy, i);
    LineStep(dx, dy, m, k, i, j, err);
    hide RoundDiv;
  }

  /** Everything one iteration of fb_line needs: where it stands, whether it is done, and the next state. */
  lemma LineLoop(x0: int, y0: int, x1: int, y1: int, dx: nat, dy: nat, m: nat, k: nat, i: nat, j: nat, err: int)
    requires dx == Abs(x1 - x0) && dy == Abs(y1 - y0) && AtStep(dx, dy, m, k, i, j, err)
    ensures i <= dx && j <= dy && Abs(err * 2) <= 3 * m
    ensures k <= m == Max(dx, dy) && (k == m <==> i == dx && j == dy)
    ensures k < m ==> AtStep(dx, dy, m, k + 1,
      if err * 2 > 0 - dy then i + 1 else i,
      if err * 2 < dx then j + 1 else j,
      err - (if err * 2 > 0 - dy then dy else 0) + (if err * 2 < dx then dx else 0))
    ensures LineUpTo(x0, y0, x1, y1, k + 1) == LineUpTo(x0, y0, x1, y1, k) + {(Toward(x0, x1, i), Toward(y0, y1, j))}
  {
    hide LinePoint, LineUpTo, Share, Err;
    LineLoopBounds(dx, dy, m, k, i, j, err);
    LineLoopEnds(dx, dy, m, k, i, j, err);
    LineLoopPoint(x0, y0, x1, y1, m, k, i, j, err);
    LineGrows(x0, y0, x1, y1, k);
    if k < m { LineLoopNext(dx, dy, m, k, i, j, err); }
  }

  // ---- the circle in closed form ----------------------------------------------------------

  /** `a` is the integer nearest to the square root of `n`. */
  ghost predicate NearestRoot(n: int, a: int) {
    a >= 0 && (a * a - a < n <= a * a + a || (a == 0 && n == 0))
  }

  lemma NonNegative(a: nat, b: nat)
    ensures a * b >= 0
  {
  }

  lemma SquareMonotone(a: int, b: int)
    requires 0 <= a <= b
    ensures a * a <= b * b && a * a + a <= b * b + b
    ensures a < b ==> a * a + a <= b * b - b
  {
    var d := b - a;
    NonNegative(a, d);
    NonNegative(d, d);
    assert b * b == a * a + 2 * (a * d) + d * d;
    if a < b {
      NonNegative(a, d - 1);
      NonNegative(d, d - 1);
      assert a * (d - 1) == a * d - a && d * (d - 1) == d * d - d;
    }
  }

  lemma NearestRootUnique(n: int, a: int, b: int)
    requires NearestRoot(n, a) && NearestRoot(n, b)
    ensures a == b
  {
    if a < b { SquareMonotone(a, b); } else if b < a { SquareMonotone(b, a); }
  }

  /** An offset (u, v) from the centre is on the circle when its larger part is the root belonging to its smaller one. */
  ghost predicate OnCircle(u: int, v: int, r: int) {
    var a, b := Max(Abs(u), Abs(v)), Min(Abs(u), Abs(v));
    NearestRoot(r * r - b * b, a)
  }

  ghost function CirclePixels(cx: int, cy: int, r: int): set<(int, int)> {
    set px, py | cx - r <= px <= cx + r && cy - r <= py <= cy + r && OnCircle(px - cx, py - cy, r) :: (px, py)
  }

  /** The circle pixels whose smaller offset is below `x`. */
  ghost function CircleUpTo(cx: int, cy: int, r: int, x: int): set<(int, int)> {
    set p | p in CirclePixels(cx, cy, r) && Min(Abs(p.0 - cx), Abs(p.1 - cy)) < x
  }

  /** The eight reflections plotted in one iteration. */
  function Octants(cx: int, cy: int, x: int, y: int): set<(int, int)> {
    {(cx + x, cy + y), (cx - x, cy + y), (cx + x, cy - y), (cx - x, cy - y),
     (cx + y, cy + x), (cx - y, cy + x), (cx + y, cy - x), (cx - y, cy - x)}
  }

  /** The reflections of one pair of offsets. */
  function Four(cx: int, cy: int, a: int, b: int): set<(int, int)> {
    {(cx + a, cy + b), (cx - a, cy + b), (cx + a, cy - b), (cx - a, cy - b)}
  }

  lemma InOctants(cx: int, cy: int, x: nat, y: nat, p: (int, int))
    requires x <= y
    ensures p in Octants(cx, cy, x, y) <==>
      Min(Abs(p.0 - cx), Abs(p.1 - cy)) == x && Max(Abs(p.0 - cx), Abs(p.1 - cy)) == y
  {
  }

  lemma RootWithinRadius(r: nat, a: int, b: int)
    requires NearestRoot(r * r - b * b, a)
    ensures a <= r
  {
    assert b * b >= 0;
    if a > r { SquareMonotone(r, a); }
  }

  /** A pixel is on the circle whenever its offsets say so: no pixel is lost to the bounding box. */
  lemma InCirclePixels(cx: int, cy: int, r: nat, p: (int, int))
    ensures p in CirclePixels(cx, cy, r) <==> OnCircle(p.0 - cx, p.1 - cy, r)
  {
    var a, b := Max(Abs(p.0 - cx), Abs(p.1 - cy)), Min(Abs(p.0 - cx), Abs(p.1 - cy));
    if NearestRoot(r * r - b * b, a) { RootWithinRadius(r, a, b); }
    hide NearestRoot;
  }

  /** Which pixels belong to a circle: those whose longer offset from the centre is within half a pixel of the circle
      at their shorter one. */
  lemma CirclePixelIff(cx: int, cy: int, r: int, px: int, py: int)
    ensures (px, py) in CirclePixels(cx, cy, r) <==>
      var a, b := Max(Abs(px - cx), Abs(py - cy)), Min(Abs(px - cx), Abs(py - cy));
      var n := r * r - b * b;
      r >= 0 && n >= 0 && 4 * n < (2 * a + 1) * (2 * a + 1) && (a > 0 ==> (2 * a - 1) * (2 * a - 1) <= 4 * n)
  {
    var a, b := Max(Abs(px - cx), Abs(py - cy)), Min(Abs(px - cx), Abs(py - cy));
    RootIsNear(r * r - b * b, a);
    hide NearestRoot;
    if r >= 0 { InCirclePixels(cx, cy, r, (px, py)); }
  }

  lemma RootIsNear(n: int, a: nat)
    ensures NearestRoot(n, a) <==>
      n >= 0 && 4 * n < (2 * a + 1) * (2 * a + 1) && (a > 0 ==> (2 * a - 1) * (2 * a - 1) <= 4 * n)
  {
    assert (2 * a + 1) * (2 * a + 1) == 4 * (a * a) + 4 * a + 1;
    assert (2 * a - 1) * (2 * a - 1) == 4 * (a * a) - 4 * a + 1;
    SquareMonotone(if a > 0 then 1 else 0, a);
  }

  lemma OffsetDecides(cx: int, cy: int, r: nat, x: nat, y: nat, p: (int, int))
    requires NearestRoot(r * r - x * x, y) && Min(Abs(p.0 - cx), Abs(p.1 - cy)) == x
    ensures p in CirclePixels(cx, cy, r) <==> Max(Abs(p.0 - cx), Abs(p.1 - cy)) == y
  {
    hide CirclePixels, NearestRoot, Abs;
    InCirclePixels(cx, cy, r, p);
    if OnCircle(p.0 - cx, p.1 - cy, r) {
      NearestRootUnique(r * r - x * x, Max(Abs(p.0 - cx), Abs(p.1 - cy)), y);
    }
  }

  lemma InCircleUpTo(cx: int, cy: int, r: nat, x: nat, p: (int, int))
    ensures p in CircleUpTo(cx, cy, r, x) <==> p in CirclePixels(cx, cy, r) && Min(Abs(p.0 - cx), Abs(p.1 - cy)) < x
  {
    hide CirclePixels, Abs, Min;
  }

  lemma OctantsExtendAt(cx: int, cy: int, r: nat, x: nat, y: nat, p: (int, int))
    requires x <= y && NearestRoot(r * r - x * x, y)
    ensures p in CircleUpTo(cx, cy, r, x + 1) <==> p in CircleUpTo(cx, cy, r, x) || p in Octants(cx, cy, x, y)
  {
    hide CircleUpTo, CirclePixels, Octants, Abs, Max, Min, NearestRoot;
    InOctants(cx, cy, x, y, p);
    InCircleUpTo(cx, cy, r, x, p);
    InCircleUpTo(cx, cy, r, x + 1, p);
    if Min(Abs(p.0 - cx), Abs(p.1 - cy)) == x { OffsetDecides(cx, cy, r, x, y, p); }
  }

  /** One iteration plots exactly the pixels whose smaller offset is `x`. */
  lemma OctantsExtend(cx: int, cy: int, r: nat, x: nat, y: nat)
    requires x <= y && NearestRoot(r * r - x * x, y)
    ensures CircleUpTo(cx, cy, r, x) + Octants(cx, cy, x, y) == CircleUpTo(cx, cy, r, x + 1)
  {
    hide CircleUpTo, CirclePixels, Octants, Abs, Max, Min, NearestRoot;
    forall p
      ensures p in CircleUpTo(cx, cy, r, x) + Octants(cx, cy, x, y) <==> p in CircleUpTo(cx, cy, r, x + 1)
    {
      OctantsExtendAt(cx, cy, r, x, y, p);
    }
  }

  /** What fb_circle's decision variable stands for. */
  ghost function Decision(r: int, x: int, y: int): int {
    2 * ((x + 1) * (x + 1)) + y * y + (y - 1) * (y - 1) - 2 * (r * r)
  }

  /** One iteration of fb_circle: the update keeps the meaning of `d`, and the next y is again the nearest root. */
  lemma CircleStep(r: nat, x: nat, y: int, d: int)
    requires x <= y && NearestRoot(r * r - x * x, y) && d == Decision(r, x, y)
    ensures var y' := if d < 0 then y else y - 1;
      && (if d < 0 then d + 4 * x + 6 else d + 4 * (x - y) + 10) == Decision(r, x + 1, y')
      && r * r - (x + 1) * (x + 1) <= y' * y' + y'
      && (y' >= x + 1 ==> NearestRoot(r * r - (x + 1) * (x + 1), y'))
  {
    Squares(x);
    Squares(x + 1);
    Squares(y);
    Squares(y - 1);
  }

  lemma Squares(a: int)
    ensures (a + 1) * (a + 1) == a * a + 2 * a + 1 && (a - 1) * (a - 1) == a * a - 2 * a + 1
  {
  }

  /** The point of the first octant with smaller offset `x` has larger offset `y`. */
  ghost predicate OnArc(r: int, x: int, y: int) { NearestRoot(r * r - x * x, y) }

  ghost predicate NotBelowArc(r: int, x: int, y: int) { r * r - x * x <= y * y + y }

  /** The state of fb_circle's loop. */
  ghost predicate CircleState(r: int, x: int, y: int, d: int) {
    && 0 <= x && -1 <= y <= r && (x == 0 ==> y == r)
    && d == Decision(r, x, y) && NotBelowArc(r, x, y)
    && (y >= x ==> OnArc(r, x, y))
  }

  lemma CircleBounds(r: nat, x: nat, y: int)
    requires x <= y <= r && OnArc(r, x, y)
    ensures -4 * (r as int) <= Decision(r, x, y) <= 4 * r + 3
  {
    assert (x + 1) * (x + 1) == x * x + 2 * x + 1;
    assert (y - 1) * (y - 1) == y * y - 2 * y + 1;
  }

  /** Everything one iteration of fb_circle needs. */
  lemma CircleLoop(cx: int, cy: int, r: nat, x: nat, y: int, d: int)
    requires x <= y && CircleState(r, x, y, d)
    ensures CircleState(r, x + 1, if d < 0 then y else y - 1, if d < 0 then d + 4 * x + 6 else d + 4 * (x - y) + 10)
    ensures -4 * (r as int) <= d <= 4 * r + 3
    ensures CircleUpTo(cx, cy, r, x) + Octants(cx, cy, x, y) == CircleUpTo(cx, cy, r, x + 1)
  {
    CircleStep(r, x, y, d);
    CircleBounds(r, x, y);
    OctantsExtend(cx, cy, r, x, y);
    hide Decision, NearestRoot, Octants, CircleUpTo;
  }

  lemma CircleStarts(cx: int, cy: int, r: nat)
    ensures CircleState(r, 0, r, 3 - 2 * r) && CircleUpTo(cx, cy, r, 0) == {}
  {
  }

  /** A negative radius draws nothing; a pixel with a live smaller offset needs a circle. */
  lemma NoCircle(cx: int, cy: int, r: int)
    requires r < 0
    ensures CirclePixels(cx, cy, r) == {} && CircleUpTo(cx, cy, r, 0) == {}
  {
  }

  lemma MinBelowMax(a: nat, b: nat)
    ensures Min(a, b) <= Max(a, b)
  {
  }

  /** Below the arc's end no pair of offsets from x on belongs to the circle. */
  lemma BelowArc(r: nat, x: nat, y: int, a: nat, b: nat)
    requires -1 <= y < x && 0 < x && NotBelowArc(r, x, y)
    ensures x <= b <= a ==> !NearestRoot(r * r - b * b, a)
  {
    if x <= b <= a {
      SquareMonotone(x, b);
      SquareMonotone(x - 1, a);
      Squares(x);
      if y >= 0 { SquareMonotone(y, x - 1); }
    }
  }

  /** Once y has fallen below x, no circle pixel with a smaller offset of x or more is left. */
  lemma CircleDone(cx: int, cy: int, r: nat, x: nat, y: int)
    requires -1 <= y < x && 0 < x && NotBelowArc(r, x, y)
    ensures CircleUpTo(cx, cy, r, x) == CirclePixels(cx, cy, r)
  {
    forall p | p in CirclePixels(cx, cy, r)
      ensures Min(Abs(p.0 - cx), Abs(p.1 - cy)) < x
    {
      hide Abs, Max, Min;
      InCirclePixels(cx, cy, r, p);
      BelowArc(r, x, y, Max(Abs(p.0 - cx), Abs(p.1 - cy)), Min(Abs(p.0 - cx), Abs(p.1 - cy)));
      MinBelowMax(Abs(p.0 - cx), Abs(p.1 - cy));
    }
  }

  // ---- the framebuffer --------------------------------------------------------------------

  /** The pixels of a rectangle; none when a side is not positive. */
  ghost function RectPixels(x: int, y: int, w: int, h: int): set<(int, int)> {
    set px, py | x <= px < x + w && y <= py < y + h :: (px, py)
  }

  /** `n` whole rows and the first `k` pixels of the next one. */
  ghost function RectUpTo(x: int, y: int, w: int, n: int, k: int): set<(int, int)> {
    RectPixels(x, y, w, n) + RectPixels(x, y + n, k, 1)
  }

  lemma RectSteps(x: int, y: int, w: int, n: int, k: int)
    requires 0 <= n && 0 <= k
    ensures RectUpTo(x, y, w, n, k) + {(x + k, y + n)} == RectUpTo(x, y, w, n, k + 1)
    ensures RectUpTo(x, y, w, n, 0) == RectPixels(x, y, w, n)
    ensures RectUpTo(x, y, w, n, if w > 0 then w else 0) == RectPixels(x, y, w, n + 1)
  {
  }

  /** What fb_init is given: rows of `pitch` pixels, the first `w` of them and `h` rows shown. */
  datatype Screen = Screen(w: u32, h: u32, pitch: u32) {
    predicate Contains(x: int, y: int) { 0 <= x < w && 0 <= y < h }

    ghost function At(x: int, y: int): nat
      requires Contains(x, y)
    {
      y * pitch + x
    }

    /** The buffer cell `a` belongs to a visible pixel. */
    ghost predicate Shown(a: nat) {
      exists x, y {:trigger At(x, y)} :: Contains(x, y) && At(x, y) == a
    }

    ghost function Set(s: seq<u32>, x: int, y: int, c: u32): seq<u32> {
      if Contains(x, y) && At(x, y) < |s| then s[At(x, y) := c] else s
    }

    /** `now` is `was` with exactly the pixels of `drawn` that are on screen painted in colour `c`. */
    ghost predicate Shows(was: seq<u32>, now: seq<u32>, drawn: set<(int, int)>, c: u32) {
      && |now| == |was|
      && (forall x, y {:trigger At(x, y)} :: Contains(x, y) && At(x, y) < |now| ==>
           now[At(x, y)] == if (x, y) in drawn then c else was[At(x, y)])
      && forall a :: 0 <= a < |now| && now[a] != was[a] ==> Shown(a)
    }

    lemma AtInside(x: int, y: int)
      requires Contains(x, y) && w <= pitch
      ensures At(x, y) < h * pitch
    {
      MulGap(pitch, y, h);
    }

    lemma AtInjective(x: int, y: int, x': int, y': int)
      requires w <= pitch && Contains(x, y) && Contains(x', y') && (x, y) != (x', y')
      ensures At(x, y) != At(x', y')
    {
      if y < y' { MulGap(pitch, y, y'); } else if y' < y { MulGap(pitch, y', y); }
    }

    /** Scan order: the first pixel is the first cell, the right neighbour the next cell, the one below a row further. */
    lemma ScanOrder(x: int, y: int)
      requires Contains(x, y)
      ensures (x, y) == (0, 0) ==> At(x, y) == 0
      ensures x + 1 < w ==> At(x + 1, y) == At(x, y) + 1
      ensures y + 1 < h ==> At(x, y + 1) == At(x, y) + pitch
    {
      assert (y + 1) * pitch == y * pitch + pitch;
    }

    /** What Shows means for the cell of a pixel: row `y` starts `y` times the pitch into the buffer. */
    lemma ShownCell(was: seq<u32>, now: seq<u32>, drawn: set<(int, int)>, c: u32, x: int, y: int)
      requires Shows(was, now, drawn, c) && w <= pitch && h * pitch <= |now|
      requires 0 <= x < w && 0 <= y < h
      ensures 0 <= y * pitch + x < |now| == |was|
      ensures now[y * pitch + x] == if (x, y) in drawn then c else was[y * pitch + x]
    {
      AtInside(x, y);
      assert At(x, y) == y * pitch + x;
    }

    /** Any cell that changes, margins included, is that of a pixel drawn. */
    lemma OtherCells(was: seq<u32>, now: seq<u32>, drawn: set<(int, int)>, c: u32, a: nat)
      requires Shows(was, now, drawn, c) && a < |now|
      ensures a < |was|
      ensures now[a] != was[a] ==> exists p :: p in drawn && 0 <= p.0 < w && 0 <= p.1 < h && a == p.1 * pitch + p.0
    {
      if now[a] != was[a] {
        var x, y {:trigger At(x, y)} :| Contains(x, y) && At(x, y) == a;
        assert (x, y) in drawn;
      }
    }

    lemma NothingDrawn(s: seq<u32>, c: u32)
      ensures Shows(s, s, {}, c)
    {
    }

    /** Setting one more pixel adds it to the figure drawn. */
    lemma SetShows(was: seq<u32>, now: seq<u32>, drawn: set<(int, int)>, x: int, y: int, c: u32)
      requires w <= pitch && Shows(was, now, drawn, c)
      ensures Shows(was, Set(now, x, y, c), drawn + {(x, y)}, c)
    {
      var next := Set(now, x, y, c);
      forall x', y' | Contains(x', y') && At(x', y') < |next|
        ensures next[At(x', y')] == if (x', y') in drawn + {(x, y)} then c else was[At(x', y')]
      {
        if Contains(x, y) && (x, y) != (x', y') { AtInjective(x, y, x', y'); }
      }
      forall a | 0 <= a < |next| && next[a] != was[a] ensures Shown(a) {
        if Contains(x, y) && a == At(x, y) { assert Shown(At(x, y)); }
      }
    }
  }

  /** The unsigned comparison of fb_pixel admits exactly the coordinates on screen. */
  lemma UnsignedInside(x: int, w: u32)
    requires Int32(x) && w <= 0x8000_0000
    ensures x % TWO32 < w <==> 0 <= x < w
  {
  }

  class Framebuffer {
    var buf: array?<u32>
    var screen: Screen

    ghost predicate Valid()
      reads this
    {
      && screen.w <= screen.pitch && screen.w <= 0x8000_0000 && screen.h <= 0x8000_0000
      && (buf != null ==> screen.h * screen.pitch <= buf.Length <= TWO32)
    }

    /** The buffer contents; nothing while fb_init has not been called. */
    ghost function Pixels(): seq<u32>
      reads this, buf
    {
      if buf == null then [] else buf[..]
    }

    lemma PixelsAre()
      ensures buf != null ==> Pixels() == buf[..]
    {
    }

    /** fb_pixel: the comparison is on unsigned values, so negative coordinates are off screen too. */
    method Pixel(x: int, y: int, c: u32)
      requires Valid() && Int32(x) && Int32(y)
      modifies buf
      ensures buf != null && 0 <= x < screen.w && 0 <= y < screen.h ==>
        0 <= y * screen.pitch + x < buf.Length && buf[..] == old(buf[..])[y * screen.pitch + x := c]
      ensures buf != null && !(0 <= x < screen.w && 0 <= y < screen.h) ==> buf[..] == old(buf[..])
      ensures Pixels() == screen.Set(old(Pixels()), x, y, c)
    {
      UnsignedInside(x, screen.w);
      UnsignedInside(y, screen.h);
      if buf != null && x % TWO32 < screen.w && y % TWO32 < screen.h {
        screen.AtInside(x, y);
        ghost var was := buf[..];
        buf[y * screen.pitch + x] := c;
        assert buf[..] == was[screen.At(x, y) := c];
      }
    }

    /** One more pixel of a figure that is being drawn over `was`. */
    method Plot(x: int, y: int, c: u32, ghost was: seq<u32>, ghost drawn: set<(int, int)>)
      requires Valid() && Int32(x) && Int32(y) && screen.Shows(was, Pixels(), drawn, c)
      modifies buf
      ensures screen.Shows(was, Pixels(), drawn + {(x, y)}, c)
    {
      ghost var now := Pixels();
      screen.SetShows(was, now, drawn, x, y, c);
      Pixel(x, y, c);
    }

    /** fb_line paints exactly the rounded points of the segment, clipped to the screen. */
    method Line(x0: int, y0: int, x1: int, y1: int, c: u32)
      requires Valid() && LineFits(x0, x1) && LineFits(y0, y1)
      modifies buf
      ensures buf != null ==> screen.Shows(old(buf[..]), buf[..], LinePixels(x0, y0, x1, y1), c)
    {
      hide Screen.Shows, Screen.Set, Share, Err, LinePoint, LineUpTo, Valid, Pixels, AtStep, Toward;
      var dx := x1 - x0;
      if dx < 0 { dx := -dx; }
      var dy := y1 - y0;
      if dy < 0 { dy := -dy; }
      var sx, sy := if x0 < x1 then 1 else -1, if y0 < y1 then 1 else -1;
      var err := dx - dy;
      var x, y := x0, y0;
      ghost var m, k: nat, i: nat, j: nat := Max(dx, dy), 0, 0, 0;
      LineLoopStarts(dx, dy);
      assert dx == Abs(x1 - x0) && dy == Abs(y1 - y0) && m <= 0x2AAA_AAAA;
      PixelsAre();
      screen.NothingDrawn(Pixels(), c);
      NoPointsYet(x0, y0, x1, y1);
      TowardMoves(x0, x1, 0);
      TowardMoves(y0, y1, 0);
      while true
        invariant AtStep(dx, dy, m, k, i, j, err)
        invariant x == Toward(x0, x1, i) && y == Toward(y0, y1, j)
        invariant screen.Shows(old(Pixels()), Pixels(), LineUpTo(x0, y0, x1, y1, k), c)
        decreases m - k
      {
        LineLoop(x0, y0, x1, y1, dx, dy, m, k, i, j, err);
        TowardMoves(x0, x1, i);
        TowardMoves(y0, y1, j);
        Plot(x, y, c, old(Pixels()), LineUpTo(x0, y0, x1, y1, k));
        if x == x1 && y == y1 { break; }
        var e2 := err * 2;
        assert Int32(e2);
        if e2 > -dy { err := err - dy; x := x + sx; i := i + 1; }
        if e2 < dx { err := err + dx; y := y + sy; j := j + 1; }
        assert Int32(err);
        k := k + 1;
      }
      PixelsAre();
    }

    /** The eight pixels of one iteration of fb_circle. */
    method PlotOctants(cx: int, cy: int, x: nat, y: nat, c: u32, ghost was: seq<u32>, ghost drawn: set<(int, int)>)
      requires Valid() && x <= y && CircleFits(cx, y) && CircleFits(cy, y) && screen.Shows(was, Pixels(), drawn, c)
      modifies buf
      ensures screen.Shows(was, Pixels(), drawn + Octants(cx, cy, x, y), c)
    {
      hide Screen.Shows, Screen.Set, Valid;
      PlotFour(cx, cy, x, y, c, was, drawn);
      PlotFour(cx, cy, y, x, c, was, drawn + Four(cx, cy, x, y));
      assert drawn + Four(cx, cy, x, y) + Four(cx, cy, y, x) == drawn + Octants(cx, cy, x, y);
    }

    method PlotFour(cx: int, cy: int, a: nat, b: nat, c: u32, ghost was: seq<u32>, ghost drawn: set<(int, int)>)
      requires Valid() && CircleFits(cx, a) && CircleFits(cy, b) && screen.Shows(was, Pixels(), drawn, c)
      modifies buf
      ensures screen.Shows(was, Pixels(), drawn + Four(cx, cy, a, b), c)
    {
      hide Screen.Shows, Screen.Set, Valid;
      Plot(cx + a, cy + b, c, was, drawn);
      ghost var d1 := drawn + {(cx + a, cy + b)};
      Plot(cx - a, cy + b, c, was, d1);
      ghost var d2 := d1 + {(cx - a, cy + b)};
      Plot(cx + a, cy - b, c, was, d2);
      ghost var d3 := d2 + {(cx + a, cy - b)};
      Plot(cx - a, cy - b, c, was, d3);
      assert d3 + {(cx - a, cy - b)} == drawn + Four(cx, cy, a, b);
    }

    /** fb_circle paints exactly the pixels whose larger offset is the nearest root for the smaller one. */
    method Circle(cx: int, cy: int, r: int, c: u32)
      requires Valid() && CircleFits(cx, r) && CircleFits(cy, r) && -0x3FFF_FFFE <= r <= 0x1FFF_FFF0
      modifies buf
      ensures buf != null ==> screen.Shows(old(buf[..]), buf[..], CirclePixels(cx, cy, r), c)
    {
      hide Screen.Shows, Screen.Set, Valid, Pixels, Octants, CirclePixels, CircleUpTo, Decision, OnArc, NotBelowArc;
      var x, y, d := 0, r, 3 - 2 * r;
      PixelsAre();
      screen.NothingDrawn(Pixels(), c);
      if r >= 0 { CircleStarts(cx, cy, r); } else { NoCircle(cx, cy, r); }
      while y >= x
        invariant r >= 0 ==> CircleState(r, x, y, d)
        invariant r < 0 ==> x == 0 && y == r
        invariant screen.Shows(old(Pixels()), Pixels(), CircleUpTo(cx, cy, r, x), c)
        decreases y - x
      {
        PlotOctants(cx, cy, x, y, c, old(Pixels()), CircleUpTo(cx, cy, r, x));
        CircleLoop(cx, cy, r, x, y, d);
        assert Int32(d) && Int32(4 * x + 6) && Int32(4 * (x - y) + 10);
        if d < 0 { d := d + (4 * x + 6); } else { d := d + (4 * (x - y) + 10); y := y - 1; }
        assert Int32(d);
        x := x + 1;
      }
      if r >= 0 { CircleDone(cx, cy, r, x, y); } else { NoCircle(cx, cy, r); }
      PixelsAre();
    }

    /** fb_rect paints exactly the rectangle, clipped; nothing when a side is not positive. */
    method Rect(x: int, y: int, w: int, h: int, c: u32)
      requires Valid() && Int32(x) && Int32(y) && Int32(w) && Int32(h) && Int32(x + w) && Int32(y + h)
      modifies buf
      ensures buf != null ==> screen.Shows(old(buf[..]), buf[..], RectPixels(x, y, w, h), c)
    {
      hide RectPixels, RectUpTo;
      ghost var was := Pixels();
      screen.NothingDrawn(was, c);
      NoRect(x, y, w, h);
      var r := y;
      while r < y + h
        invariant y <= r && (r == y || r <= y + h) && screen.Shows(was, Pixels(), RectPixels(x, y, w, r - y), c)
      {
        Row(x, y, w, r, c, was);
        r := r + 1;
      }
    }

    /** One round of the outer loop of fb_rect. */
    method Row(x: int, y: int, w: int, r: int, c: u32, ghost was: seq<u32>)
      requires Valid() && Int32(x) && Int32(x + w) && Int32(r) && y <= r
      requires screen.Shows(was, Pixels(), RectPixels(x, y, w, r - y), c)
      modifies buf
      ensures screen.Shows(was, Pixels(), RectPixels(x, y, w, r + 1 - y), c)
    {
      hide RectPixels, RectUpTo;
      RectSteps(x, y, w, r - y, 0);
      var col := x;
      while col < x + w
        invariant x <= col && (col == x || col <= x + w)
        invariant screen.Shows(was, Pixels(), RectUpTo(x, y, w, r - y, col - x), c)
      {
        RectSteps(x, y, w, r - y, col - x);
        Plot(col, r, c, was, RectUpTo(x, y, w, r - y, col - x));
        col := col + 1;
      }
    }
  }

  lemma InRect(x: int, y: int, w: int, h: int, px: int, py: int)
    ensures (px, py) in RectPixels(x, y, w, h) <==> x <= px < x + w && y <= py < y + h
  {
  }

  lemma NoRect(x: int, y: int, w: int, h: int)
    ensures RectPixels(x, y, w, 0) == {} && (h <= 0 ==> RectPixels(x, y, w, h) == {})
  {
  }
}
