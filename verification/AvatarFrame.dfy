/** Inscribing a source rectangle in the circle that masks an avatar, over exact real arithmetic. */
module AvatarFrame {

  datatype Rectangle = Rectangle(left: int, top: int, right: int, bottom: int)
  {
    function Width(): int {
      right - left
    }

    function Height(): int {
      bottom - top
    }
  }

  const EMPTY := Rectangle(0, 0, 0, 0)

  function Max(a: int, b: int): int {
    if a < b then b else a
  }

  function Min(a: int, b: int): int {
    if a < b then a else b
  }

  function Square(x: real): real {
    x * x
  }

  /** The length of the diagonal. */
  ghost predicate IsHypot(h: real, width: int, height: int) {
    h >= 0.0 && Square(h) == Square(width as real) + Square(height as real)
  }

  lemma SquareGrows(x: real, y: real)
    requires 0.0 <= x <= y
    ensures Square(x) <= Square(y)
  {
  }

  lemma HypotExceedsSides(width: int, height: int, h: real)
    requires width > 0 && height > 0 && IsHypot(h, width, height)
    ensures h > width as real && h > height as real
  {
  }

  function Exact(side: int, ratio: real): real {
    side as real * ratio
  }

  /** A side scaled by the ratio, rounded down, and kept between 1 and the target. */
  function Scaled(side: int, ratio: real, target: int): int {
    Max(1, Min(target, Exact(side, ratio).Floor))
  }

  function Ratio(target: int, hypot: real): real
    requires hypot > 0.0
  {
    target as real / hypot
  }

  function ContainRectangle(sourceWidth: int, sourceHeight: int, targetSize: int, hypot: real): Rectangle
    requires IsHypot(hypot, sourceWidth, sourceHeight)
  {
    if sourceWidth <= 0 || sourceHeight <= 0 || targetSize <= 0 then EMPTY
    else
      HypotExceedsSides(sourceWidth, sourceHeight, hypot);
      var ratio := Ratio(targetSize, hypot);
      var width := Scaled(sourceWidth, ratio, targetSize);
      var height := Scaled(sourceHeight, ratio, targetSize);
      var x := (targetSize - width) / 2;
      var y := (targetSize - height) / 2;
      Rectangle(x, y, x + width, y + height)
  }

  lemma NothingToContain(sourceWidth: int, sourceHeight: int, target: int, h: real)
    requires IsHypot(h, sourceWidth, sourceHeight) && (sourceWidth <= 0 || sourceHeight <= 0 || target <= 0)
    ensures ContainRectangle(sourceWidth, sourceHeight, target, h) == Rectangle(0, 0, 0, 0)
  {
  }

  /** The scaled sides span a diagonal of the target's length. */
  lemma ScaledDiagonal(width: int, height: int, target: int, h: real)
    requires width > 0 && height > 0 && target > 0 && IsHypot(h, width, height) && h > 0.0
    ensures var ratio := Ratio(target, h);
            Square(Exact(width, ratio)) + Square(Exact(height, ratio)) == Square(target as real)
  {
  }

  /** Rounding down below the target, or the clamp to 1. */
  lemma ScaledSide(side: int, target: int, h: real)
    requires side > 0 && target > 0 && h > side as real
    ensures Rounds(Scaled(side, Ratio(target, h), target), Exact(side, Ratio(target, h)), target)
  {
  }

  ghost predicate InSquare(r: Rectangle, target: int) {
    0 <= r.left < r.right <= target && 0 <= r.top < r.bottom <= target
  }

  /** The rectangle's diagonal is at most the diameter. */
  ghost predicate DiagonalFits(r: Rectangle, target: int) {
    Square(r.Width() as real) + Square(r.Height() as real) <= Square(target as real)
  }

  lemma ClampedSideFits(n: int, target: int)
    requires 1 <= n < target
    ensures Square(1.0) + Square(n as real) <= Square(target as real)
  {
  }

  /** n is what becomes of a scaled side a: rounded down, or 1 where that is 0. */
  ghost predicate Rounds(n: int, a: real, target: int) {
    && 0.0 < a < target as real && 1 <= n <= target && (n < target || target == 1)
    && a < n as real + 1.0 && (if a < 1.0 then n == 1 else n as real <= a)
  }

  lemma RoundedIsInside(n: int, a: real, target: int)
    requires Rounds(n, a, target)
    ensures 1 <= n <= target
  {
  }

  lemma RoundedDiagonal(width: int, height: int, a: real, b: real, target: int)
    requires Rounds(width, a, target) && Rounds(height, b, target)
    requires Square(a) + Square(b) == Square(target as real)
    ensures Square(width as real) + Square(height as real) <= Square(target as real) <==> target >= 2
    ensures Square((width + 1) as real) + Square((height + 1) as real) > Square(target as real)
  {
    SquareExceeds((width + 1) as real, a);
    SquareExceeds((height + 1) as real, b);
    assert Square(1.0) == 1.0 && Square(2.0) == 4.0;
    hide Square;
    if target >= 2 {
      if a < 1.0 && b < 1.0 {
        SquareGrows(a, 1.0);
        SquareGrows(b, 1.0);
        SquareGrows(2.0, target as real);
        assert false;
      } else if a < 1.0 {
        ClampedSideFits(height, target);
      } else if b < 1.0 {
        ClampedSideFits(width, target);
      } else {
        SquareGrows(width as real, a);
        SquareGrows(height as real, b);
      }
    }
  }

  /** Each side is its own source side, scaled by the same ratio and rounded down, or 1 where that is 0; so the longer
      side of the source stays the longer one. */
  lemma KeepsProportions(sourceWidth: int, sourceHeight: int, target: int, h: real)
    requires sourceWidth > 0 && sourceHeight > 0 && target > 0 && IsHypot(h, sourceWidth, sourceHeight)
    ensures h > 0.0
    ensures var r, ratio := ContainRectangle(sourceWidth, sourceHeight, target, h), Ratio(target, h);
            && Rounds(r.Width(), Exact(sourceWidth, ratio), target)
            && Rounds(r.Height(), Exact(sourceHeight, ratio), target)
            && (sourceWidth >= sourceHeight ==> r.Width() >= r.Height())
            && (sourceWidth <= sourceHeight ==> r.Width() <= r.Height())
  {
    HypotExceedsSides(sourceWidth, sourceHeight, h);
    hide Square, Rounds, Scaled, IsHypot, Exact, Ratio;
    ScaledSide(sourceWidth, target, h);
    ScaledSide(sourceHeight, target, h);
    var ratio := Ratio(target, h);
    PositiveRatio(target, h);
    if sourceWidth >= sourceHeight {
      ScalingIsMonotone(sourceHeight, sourceWidth, ratio, target);
    }
    if sourceWidth <= sourceHeight {
      ScalingIsMonotone(sourceWidth, sourceHeight, ratio, target);
    }
  }

  lemma ScalingIsMonotone(side: int, longer: int, ratio: real, target: int)
    requires side <= longer && ratio > 0.0
    ensures Scaled(side, ratio, target) <= Scaled(longer, ratio, target)
  {
    ProductGrows(side as real, longer as real, ratio);
    FloorGrows(Exact(side, ratio), Exact(longer, ratio));
    hide Exact;
  }

  lemma ProductGrows(x: real, y: real, ratio: real)
    requires x <= y && ratio > 0.0
    ensures x * ratio <= y * ratio
  {
  }

  lemma FloorGrows(x: real, y: real)
    requires x <= y
    ensures x.Floor <= y.Floor
  {
  }

  lemma PositiveRatio(target: int, h: real)
    requires target > 0 && h > 0.0
    ensures Ratio(target, h) > 0.0
  {
  }

  /**
   * A positive source on a positive target is placed inside the square and centred to within a pixel; its diagonal
   * fits the circle exactly if the target is at least 2; a rectangle larger by one in both directions would not fit.
   */
  lemma ContainsSource(sourceWidth: int, sourceHeight: int, target: int, h: real)
    requires sourceWidth > 0 && sourceHeight > 0 && target > 0 && IsHypot(h, sourceWidth, sourceHeight)
    ensures var r := ContainRectangle(sourceWidth, sourceHeight, target, h);
            && InSquare(r, target)
            && target - 1 <= r.left + r.right <= target && target - 1 <= r.top + r.bottom <= target
            && (DiagonalFits(r, target) <==> target >= 2)
            && Square((r.Width() + 1) as real) + Square((r.Height() + 1) as real) > Square(target as real)
  {
    hide Square, Exact, Ratio, Scaled, Rounds, IsHypot;
    HypotExceedsSides(sourceWidth, sourceHeight, h);
    ScaledSide(sourceWidth, target, h);
    ScaledSide(sourceHeight, target, h);
    ScaledDiagonal(sourceWidth, sourceHeight, target, h);
    var ratio := Ratio(target, h);
    RoundedDiagonal(Scaled(sourceWidth, ratio, target), Scaled(sourceHeight, ratio, target),
                    Exact(sourceWidth, ratio), Exact(sourceHeight, ratio), target);
    RoundedIsInside(Scaled(sourceWidth, ratio, target), Exact(sourceWidth, ratio), target);
    RoundedIsInside(Scaled(sourceHeight, ratio, target), Exact(sourceHeight, ratio), target);
  }

  lemma SquareExceeds(x: real, y: real)
    requires 0.0 < y < x
    ensures Square(y) < Square(x)
  {
  }

  // ---- The corners ----

  /** The largest target the server renders. */
  const MAX_AVATAR_DIM := 256

  /** Twice the distance of an edge from the centre of the target. */
  function Reach(edge: int, target: int): real {
    (target - 2 * edge) as real
  }

  ghost predicate CornerFits(x: int, y: int, target: int) {
    Square(Reach(x, target)) + Square(Reach(y, target)) <= Square(target as real)
  }

  /** All four corners lie within the circle of the target's diameter around the centre of the target. */
  ghost predicate CornersFit(r: Rectangle, target: int) {
    && CornerFits(r.left, r.top, target) && CornerFits(r.left, r.bottom, target)
    && CornerFits(r.right, r.top, target) && CornerFits(r.right, r.bottom, target)
  }

  /** A side made up to the target's parity: placed on whole pixels it reaches as far from the centre as that. */
  function Snapped(n: int, target: int): int {
    n + (target - n) % 2
  }

  /** Sides of these lengths, snapped, span at most the diameter. */
  ghost predicate SnappedFit(width: int, height: int, target: int) {
    Square(Snapped(width, target) as real) + Square(Snapped(height, target) as real) <= Square(target as real)
  }

  /** The near edge reaches exactly as far as the snapped side, the far edge at most so far. */
  lemma EdgesReach(n: int, target: int)
    requires 1 <= n <= target
    ensures var near := (target - n) / 2;
            && Reach(near, target) == Snapped(n, target) as real
            && Square(Reach(near + n, target)) <= Square(Reach(near, target))
  {
  }

  lemma ScaledIsInside(side: int, target: int, h: real)
    requires target > 0 && h > 0.0
    ensures 1 <= Scaled(side, Ratio(target, h), target) <= target
  {
  }

  /** No corner is clipped exactly if the scaled sides, snapped to the target's parity, still fit the circle. */
  lemma CornersFitExactly(sourceWidth: int, sourceHeight: int, target: int, h: real)
    requires sourceWidth > 0 && sourceHeight > 0 && target > 0 && IsHypot(h, sourceWidth, sourceHeight)
    ensures h > 0.0
    ensures var width := Scaled(sourceWidth, Ratio(target, h), target);
            var height := Scaled(sourceHeight, Ratio(target, h), target);
            CornersFit(ContainRectangle(sourceWidth, sourceHeight, target, h), target) <==>
            SnappedFit(width, height, target)
  {
    HypotExceedsSides(sourceWidth, sourceHeight, h);
    hide Square, Scaled, Ratio, Reach, Snapped, IsHypot;
    ScaledIsInside(sourceWidth, target, h);
    ScaledIsInside(sourceHeight, target, h);
    EdgesReach(Scaled(sourceWidth, Ratio(target, h), target), target);
    EdgesReach(Scaled(sourceHeight, Ratio(target, h), target), target);
  }

  /** Sides of these lengths fit the circle. */
  ghost predicate Fits(width: int, height: int, target: int) {
    Square(width as real) + Square(height as real) <= Square(target as real)
  }

  /**
   * By parity, on targets of at least 2. Both sides of the target's parity: nothing is clipped. Neither of them: a
   * corner always is. One of them: it depends on whether the other could be one longer.
   */
  lemma CornersByParity(sourceWidth: int, sourceHeight: int, target: int, h: real)
    requires sourceWidth > 0 && sourceHeight > 0 && target >= 2 && IsHypot(h, sourceWidth, sourceHeight)
    ensures var r := ContainRectangle(sourceWidth, sourceHeight, target, h);
            var evenAcross, evenDown := (target - r.Width()) % 2 == 0, (target - r.Height()) % 2 == 0;
            CornersFit(r, target) <==>
            if evenAcross && evenDown then true
            else if evenAcross then Fits(r.Width(), r.Height() + 1, target)
            else if evenDown then Fits(r.Width() + 1, r.Height(), target)
            else false
  {
    hide Square, Scaled, Ratio, IsHypot, CornersFit;
    ContainsSource(sourceWidth, sourceHeight, target, h);
    CornersFitExactly(sourceWidth, sourceHeight, target, h);
  }

  /** Every square source on the largest target: 181 pixels, off centre both ways, and clipped. */
  lemma SquareSourceIsClipped(side: int, h: real)
    requires side > 0 && IsHypot(h, side, side)
    ensures ContainRectangle(side, side, MAX_AVATAR_DIM, h) == Rectangle(37, 37, 218, 218)
    ensures !CornersFit(ContainRectangle(side, side, MAX_AVATAR_DIM, h), MAX_AVATAR_DIM)
  {
    HypotExceedsSides(side, side, h);
    ScaledSide(side, MAX_AVATAR_DIM, h);
    ScaledDiagonal(side, side, MAX_AVATAR_DIM, h);
    var n, a := Scaled(side, Ratio(MAX_AVATAR_DIM, h), MAX_AVATAR_DIM), Exact(side, Ratio(MAX_AVATAR_DIM, h));
    BetweenSquares(a, n);
    CornersByParity(side, side, MAX_AVATAR_DIM, h);
    hide Scaled, Ratio, Exact, Square, CornersFit;
  }

  lemma BetweenSquares(a: real, n: int)
    requires Rounds(n, a, MAX_AVATAR_DIM) && Square(a) + Square(a) == Square(MAX_AVATAR_DIM as real)
    ensures n == 181
  {
  }
}
