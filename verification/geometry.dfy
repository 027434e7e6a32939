/** Integer rectangles in screen cells (the class `jcurses.util.Rectangle`).
    A rectangle covers the cells (px, py) with x <= px < x + width and
    y <= py < y + height; `Right` and `Bottom` are inclusive edges. */
module Geometry {

  datatype Rect = Rect(x: int, y: int, width: int, height: int)

  /** The size-only constructor leaves the location at the origin. */
  function Sized(width: int, height: int): (r: Rect)
    ensures r.x == 0 && r.y == 0 && r.width == width && r.height == height
  {
    Rect(0, 0, width, height)
  }

  function Left(r: Rect): int { r.x }
  function Top(r: Rect): int { r.y }
  function Right(r: Rect): int { r.x + r.width - 1 }
  function Bottom(r: Rect): int { r.y + r.height - 1 }

  predicate IsEmpty(r: Rect) {
    r.width <= 0 || r.height <= 0
  }

  /** The cell (px, py) lies within r. */
  predicate Inside(r: Rect, px: int, py: int) {
    px >= r.x && px - r.x < r.width && py >= r.y && py - r.y < r.height
  }

  /** A rectangle is empty exactly when it covers no cell. */
  lemma EmptyIffNoCell(r: Rect)
    ensures IsEmpty(r) <==> forall px, py :: !Inside(r, px, py)
  {
    if !IsEmpty(r) {
      assert Inside(r, r.x, r.y);
    }
  }

  /** The cells of r that share the edges' extremes: handy corner witnesses. */
  lemma CornersInside(r: Rect)
    requires !IsEmpty(r)
    ensures Inside(r, Left(r), Top(r)) && Inside(r, Right(r), Bottom(r))
  {
  }

  /** Whether the rectangle (px, py, w, h) lies within r; empty rectangles
      neither contain nor are contained. */
  predicate Contains(r: Rect, px: int, py: int, w: int, h: int) {
    if r.width <= 0 || r.height <= 0 || w <= 0 || h <= 0 then false
    else px >= r.x && py >= r.y && px + w <= r.x + r.width && py + h <= r.y + r.height
  }

  predicate ContainsRect(r: Rect, s: Rect) {
    Contains(r, s.x, s.y, s.width, s.height)
  }

  /** Containment of a non-empty rectangle is containment of its cells. */
  lemma ContainsIffCellsInside(r: Rect, s: Rect)
    ensures ContainsRect(r, s) <==>
      !IsEmpty(r) && !IsEmpty(s) && forall px, py :: Inside(s, px, py) ==> Inside(r, px, py)
  {
    if !IsEmpty(r) && !IsEmpty(s) && forall px, py :: Inside(s, px, py) ==> Inside(r, px, py) {
      CornersInside(s);
      assert Inside(r, Left(s), Top(s));
      assert Inside(r, Right(s), Bottom(s));
    }
  }

  predicate IsAbove(a: Rect, b: Rect) { Bottom(a) < Top(b) }
  predicate IsBelow(a: Rect, b: Rect) { Top(a) > Bottom(b) }
  predicate IsLeftOf(a: Rect, b: Rect) { Right(a) < Left(b) }
  predicate IsRightOf(a: Rect, b: Rect) { Left(a) > Right(b) }

  /** The directional tests are each other's mirror image. */
  lemma DirectionDuality(a: Rect, b: Rect)
    ensures IsLeftOf(a, b) <==> IsRightOf(b, a)
    ensures IsAbove(a, b) <==> IsBelow(b, a)
  {
  }

  /** A rectangle strictly to one side of another shares no cell with it. */
  lemma SeparatedShareNoCell(a: Rect, b: Rect, px: int, py: int)
    requires IsLeftOf(a, b) || IsRightOf(a, b) || IsAbove(a, b) || IsBelow(a, b)
    ensures !(Inside(a, px, py) && Inside(b, px, py))
  {
  }

  /** The greatest rectangle contained in both; an empty operand is returned
      unchanged, and a gap between the operands yields the zero rectangle. */
  function Intersection(a: Rect, b: Rect): (r: Rect)
    ensures IsEmpty(a) ==> r == a
    ensures !IsEmpty(a) && IsEmpty(b) ==> r == b
    ensures !IsEmpty(a) && !IsEmpty(b) ==>
      forall px, py :: Inside(r, px, py) <==> Inside(a, px, py) && Inside(b, px, py)
  {
    if IsEmpty(a) then a
    else if IsEmpty(b) then b
    else
      var x1 := Max(a.x, b.x);
      var x2 := Min(a.x + a.width, b.x + b.width);
      var y1 := Max(a.y, b.y);
      var y2 := Min(a.y + a.height, b.y + b.height);
      if x2 - x1 < 0 || y2 - y1 < 0 then Rect(0, 0, 0, 0)
      else Rect(x1, y1, x2 - x1, y2 - y1)
  }

  /** Whatever the operands, a cell lies in the intersection exactly when it
      lies in both: an empty operand is returned unchanged and covers no
      cell. */
  lemma IntersectionCells(a: Rect, b: Rect, px: int, py: int)
    ensures Inside(Intersection(a, b), px, py) <==> Inside(a, px, py) && Inside(b, px, py)
  {
    EmptyIffNoCell(a);
    EmptyIffNoCell(b);
  }

  /** Operands with at least one free column or row between them intersect
      in the zero rectangle; operands that merely touch intersect in an
      empty rectangle. */
  lemma IntersectionOfSeparated(a: Rect, b: Rect)
    requires !IsEmpty(a) && !IsEmpty(b)
    ensures Right(a) + 1 < Left(b) ==> Intersection(a, b) == Rect(0, 0, 0, 0)
    ensures Right(a) + 1 == Left(b) ==> IsEmpty(Intersection(a, b))
  {
  }

  /** In every case the two orders cover the same cells; with two non-empty
      operands they produce the very same rectangle. */
  lemma IntersectionCommutes(a: Rect, b: Rect)
    ensures forall px, py :: Inside(Intersection(a, b), px, py) <==> Inside(Intersection(b, a), px, py)
    ensures !IsEmpty(a) && !IsEmpty(b) ==> Intersection(a, b) == Intersection(b, a)
  {
    EmptyIffNoCell(a);
    EmptyIffNoCell(b);
  }

  /** A non-empty intersection is contained in both operands. */
  lemma IntersectionContained(a: Rect, b: Rect)
    requires !IsEmpty(Intersection(a, b))
    ensures ContainsRect(a, Intersection(a, b)) && ContainsRect(b, Intersection(a, b))
  {
    var r := Intersection(a, b);
    EmptyIffNoCell(a);
    EmptyIffNoCell(b);
    EmptyIffNoCell(r);
    ContainsIffCellsInside(a, r);
    ContainsIffCellsInside(b, r);
  }

  /** The smallest rectangle containing both; an empty operand is ignored. */
  function Union(a: Rect, b: Rect): (r: Rect)
    ensures IsEmpty(a) ==> r == b
    ensures !IsEmpty(a) && IsEmpty(b) ==> r == a
    ensures !IsEmpty(a) && !IsEmpty(b) ==> ContainsRect(r, a) && ContainsRect(r, b)
  {
    if IsEmpty(a) then b
    else if IsEmpty(b) then a
    else
      var x1 := Min(a.x, b.x);
      var x2 := Max(a.x + a.width, b.x + b.width);
      var y1 := Min(a.y, b.y);
      var y2 := Max(a.y + a.height, b.y + b.height);
      Rect(x1, y1, x2 - x1, y2 - y1)
  }

  /** Any rectangle containing both operands contains their union. */
  lemma UnionIsSmallest(a: Rect, b: Rect, s: Rect)
    requires !IsEmpty(a) && !IsEmpty(b)
    requires ContainsRect(s, a) && ContainsRect(s, b)
    ensures ContainsRect(s, Union(a, b))
  {
  }

  function Abs(n: int): nat { if n < 0 then -n else n }
  function Max(a: int, b: int): int { if a < b then b else a }
  function Min(a: int, b: int): int { if a < b then a else b }

  /** Java's `int` division by two, which truncates toward zero. */
  function Half(n: int): (h: int)
    ensures n >= 0 ==> 0 <= h <= n && 2 * h >= n - 1
    ensures n < 0 ==> n <= h <= 0 && 2 * h <= n + 1
    ensures n >= 0 ==> 2 * h == n || 2 * h == n - 1
    ensures n < 0 ==> 2 * h == n || 2 * h == n + 1
  {
    if n >= 0 then n / 2 else -((-n) / 2)
  }

  function Square(n: int): (s: nat)
    ensures s == 0 <==> n == 0
  {
    SquareNonNegative(n);
    n * n
  }

  lemma SquareNonNegative(n: int)
    ensures n * n >= 0
    ensures n != 0 ==> n * n > 0
  {
    if n < 0 {
      assert n * n == (-n) * (-n);
    }
  }

  /** Distance between the left edges. */
  function HorizontalDistanceFrom(self: Rect, other: Rect): (d: nat)
    ensures d == 0 <==> Left(self) == Left(other)
    ensures Left(self) + d == Left(other) || Left(other) + d == Left(self)
  {
    Abs(other.x - self.x)
  }

  /** Distance between the top edges. */
  function VerticalDistanceFrom(self: Rect, other: Rect): (d: nat)
    ensures d == 0 <==> Top(self) == Top(other)
    ensures Top(self) + d == Top(other) || Top(other) + d == Top(self)
  {
    Abs(other.y - self.y)
  }

  /** Both edge distances measure the same from either rectangle. */
  lemma EdgeDistancesSymmetric(a: Rect, b: Rect)
    ensures HorizontalDistanceFrom(a, b) == HorizontalDistanceFrom(b, a)
    ensures VerticalDistanceFrom(a, b) == VerticalDistanceFrom(b, a)
  {
  }

  /** The centre of a rectangle along one axis, with Java's truncating halving. */
  function Centre(origin: int, extent: int): int { origin + Half(extent) }

  /** The "centre distance" along x as the Java code computes it: this
      rectangle's half-width is added instead of subtracted. */
  function HorizontalDistanceFromCenters(self: Rect, other: Rect): (d: nat)
    ensures d == Abs(Centre(other.x, other.width) - Centre(self.x, self.width) + 2 * Half(self.width))
  {
    Abs((other.x + Half(other.width)) - self.x + Half(self.width))
  }

  function VerticalDistanceFromCenters(self: Rect, other: Rect): (d: nat)
    ensures d == Abs(Centre(other.y, other.height) - Centre(self.y, self.height) + 2 * Half(self.height))
  {
    Abs((other.y + Half(other.height)) - self.y + Half(self.height))
  }

  /** The squared "centre distance" as the Java code computes it, with the same
      sign slip on both axes. */
  function DistanceFrom(self: Rect, other: Rect): (d: nat)
    ensures d == Square(HorizontalDistanceFromCenters(self, other)) + Square(VerticalDistanceFromCenters(self, other))
  {
    var dx := (other.x + Half(other.width)) - self.x + Half(self.width);
    var dy := (other.y + Half(other.height)) - self.y + Half(self.height);
    SquareOfAbs(dx);
    SquareOfAbs(dy);
    Square(dx) + Square(dy)
  }

  lemma SquareOfAbs(n: int)
    ensures Square(Abs(n)) == Square(n)
  {
  }

  /** A rectangle at least two cells wide is reported at a positive distance
      from itself. */
  lemma DistanceFromSelfNotZero()
    ensures DistanceFrom(Rect(0, 0, 2, 2), Rect(0, 0, 2, 2)) == 8
    ensures HorizontalDistanceFromCenters(Rect(0, 0, 2, 1), Rect(0, 0, 2, 1)) == 2
  {
    assert Half(2) == 1;
    assert Square(2) == 4;
  }

  /** The squared distance between the two centres. */
  function CentreDistance(self: Rect, other: Rect): (d: nat)
  {
    Square(Centre(other.x, other.width) - Centre(self.x, self.width))
      + Square(Centre(other.y, other.height) - Centre(self.y, self.height))
  }

  /** Centre distance is zero from oneself and symmetric. */
  lemma CentreDistanceIsMetricLike(a: Rect, b: Rect)
    ensures CentreDistance(a, a) == 0
    ensures CentreDistance(a, b) == CentreDistance(b, a)
    ensures CentreDistance(a, b) == 0 <==>
      Centre(a.x, a.width) == Centre(b.x, b.width) && Centre(a.y, a.height) == Centre(b.y, b.height)
  {
    var dx := Centre(b.x, b.width) - Centre(a.x, a.width);
    var dy := Centre(b.y, b.height) - Centre(a.y, a.height);
    assert Square(-dx) == Square(dx) by { SquareOfAbs(dx); SquareOfAbs(-dx); }
    assert Square(-dy) == Square(dy) by { SquareOfAbs(dy); SquareOfAbs(-dy); }
  }

  /** Signed gap between two extents [lo1, hi1] and [lo2, hi2] on one axis:
      positive when the second lies after the first, negative when before,
      zero when they overlap or touch. */
  function Gap(lo1: int, hi1: int, lo2: int, hi2: int): int {
    if hi1 <= lo2 then lo2 - hi1
    else if lo1 >= hi2 then hi2 - lo1
    else 0
  }

  /** Squared distance between the nearest edges, measured on the inclusive
      edge coordinates. */
  function ShortestDistanceFrom(self: Rect, other: Rect): (d: nat)
    ensures d == 0 <==> (Gap(Left(self), Right(self), Left(other), Right(other)) == 0
                         && ShortestYGap(self, other) == 0)
  {
    Square(Gap(Left(self), Right(self), Left(other), Right(other))) + Square(ShortestYGap(self, other))
  }

  /** The vertical component tests "at or below" before "at or above". */
  function ShortestYGap(self: Rect, other: Rect): int {
    if Top(self) >= Bottom(other) then Bottom(other) - Top(self)
    else if Bottom(self) <= Top(other) then Top(other) - Bottom(self)
    else 0
  }

  /** For non-empty rectangles the edge distance does not depend on the order
      of the operands, and rectangles sharing a cell are at distance zero. */
  lemma ShortestDistanceSymmetric(a: Rect, b: Rect)
    requires !IsEmpty(a) && !IsEmpty(b)
    ensures ShortestDistanceFrom(a, b) == ShortestDistanceFrom(b, a)
    ensures (exists px, py :: Inside(a, px, py) && Inside(b, px, py)) ==> ShortestDistanceFrom(a, b) == 0
  {
    var gx := Gap(Left(a), Right(a), Left(b), Right(b));
    var gx' := Gap(Left(b), Right(b), Left(a), Right(a));
    assert gx == -gx';
    var gy := ShortestYGap(a, b);
    var gy' := ShortestYGap(b, a);
    assert gy == -gy';
    SquareOfAbs(gx);
    SquareOfAbs(gx');
    SquareOfAbs(gy);
    SquareOfAbs(gy');
  }
}
