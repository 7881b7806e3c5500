/** Rectangles of the binary space partitioner and the two ways of halving one.
    Coordinates are exact reals: the floating-point rounding of `/ 2` and of the
    ratio test in bsp.js is not modelled. */
module Geometry {

  /** The `x, y, width, height` of a `Tree` node (bsp.js:15-23). */
  datatype Rect = Rect(x: real, y: real, width: real, height: real)

  /** `Tree.prototype.area` (bsp.js:25-27). */
  function Area(r: Rect): real {
    r.width * r.height
  }

  /** The point (px, py) lies in the half-open rectangle [x, x + width) x [y, y + height). */
  predicate Contains(r: Rect, px: real, py: real) {
    r.x <= px < r.x + r.width && r.y <= py < r.y + r.height
  }

  /** `magicRatio` of `split` (bsp.js:31). */
  const MagicRatio: real := 1.45

  /** `width > height && width / height >= magicRatio`, stated without the division:
      a wide node must be split side by side. */
  predicate ForcedVertical(r: Rect) {
    0.0 <= r.height < r.width && r.width >= MagicRatio * r.height
  }

  /** `height > width && height / width >= magicRatio`: a tall node must be split top/bottom. */
  predicate ForcedHorizontal(r: Rect) {
    0.0 <= r.width < r.height && r.height >= MagicRatio * r.width
  }

  /** The axis `split` takes (bsp.js:30-39): `true` is a horizontal cut (children on top of
      each other), `false` a vertical one; `heads` is the outcome of `Math.random() < 0.5`. */
  function SplitsHorizontally(r: Rect, heads: bool): bool {
    if ForcedVertical(r) then false
    else if ForcedHorizontal(r) then true
    else heads
  }

  /** The two children rectangles `split` creates, first then second (bsp.js:40-58). */
  function Halves(r: Rect, horizontal: bool): (Rect, Rect) {
    if horizontal then
      var half := r.height / 2.0;
      (Rect(r.x, r.y, r.width, half), Rect(r.x, r.y + half, r.width, half))
    else
      var half := r.width / 2.0;
      (Rect(r.x, r.y, half, r.height), Rect(r.x + half, r.y, half, r.height))
  }

  /** `a` and `b` are the halves of `r` along one of the two axes. */
  predicate IsHalving(r: Rect, a: Rect, b: Rect) {
    (a, b) == Halves(r, true) || (a, b) == Halves(r, false)
  }

  /** The division-free tests agree with the source's division for every real width and
      height: for a zero divisor JavaScript yields +Infinity, which passes the test. */
  lemma RatioTestWithoutDivision(r: Rect)
    ensures r.height != 0.0 ==>
      (ForcedVertical(r) <==> r.width > r.height && r.width / r.height >= MagicRatio)
    ensures r.height == 0.0 ==> (ForcedVertical(r) <==> r.width > 0.0)
    ensures r.width != 0.0 ==>
      (ForcedHorizontal(r) <==> r.height > r.width && r.height / r.width >= MagicRatio)
    ensures r.width == 0.0 ==> (ForcedHorizontal(r) <==> r.height > 0.0)
  {
    if r.height != 0.0 {
      QuotientAtLeast(r.width, r.height);
    }
    if r.width != 0.0 {
      QuotientAtLeast(r.height, r.width);
    }
  }

  /** For a larger numerator, the quotient reaches the ratio exactly when the divisor is
      positive and the cross-multiplied test holds. */
  lemma QuotientAtLeast(num: real, den: real)
    requires den != 0.0
    ensures num > den ==> (num / den >= MagicRatio <==> 0.0 < den && num >= MagicRatio * den)
  {
    var q := num / den;
    assert num == q * den;
    if num > den && den < 0.0 {
      // num / den is below 1 when den < 0 < num or den < num < 0
      assert q < 1.0 by {
        assert (q - 1.0) * den == num - den > 0.0;
      }
    } else if num > den {
      assert q >= MagicRatio <==> (q - MagicRatio) * den >= 0.0;
    }
  }

  /** The two forced cases never overlap, so the order of the tests in `split` is immaterial. */
  lemma ForcedCasesExclusive(r: Rect)
    ensures !(ForcedVertical(r) && ForcedHorizontal(r))
  {
  }

  /** The coin decides the axis exactly when neither aspect ratio reaches `magicRatio`;
      otherwise a wide node is cut side by side and a tall one top/bottom. */
  lemma AxisChoice(r: Rect, heads: bool)
    ensures ForcedVertical(r) ==> !SplitsHorizontally(r, heads)
    ensures ForcedHorizontal(r) ==> SplitsHorizontally(r, heads)
    ensures (SplitsHorizontally(r, true) != SplitsHorizontally(r, false))
        <==> !ForcedVertical(r) && !ForcedHorizontal(r)
  {
  }

  /** The halves of a horizontal cut are stacked: same `x` and `width` as the parent, equal
      heights, the first at the parent's `y`, the second right below it; a vertical cut is
      the same with the roles of the axes exchanged. */
  lemma HalvesShape(r: Rect, horizontal: bool)
    ensures var (a, b) := Halves(r, horizontal);
      if horizontal then
        a.x == b.x == r.x && a.width == b.width == r.width &&
        a.height == b.height && a.height + b.height == r.height &&
        a.y == r.y && b.y == a.y + a.height
      else
        a.y == b.y == r.y && a.height == b.height == r.height &&
        a.width == b.width && a.width + b.width == r.width &&
        a.x == r.x && b.x == a.x + a.width
  {
  }

  /** The halves tile the parent: every point of the parent lies in exactly one half, and
      no point outside it lies in either. */
  lemma HalvesTile(r: Rect, horizontal: bool, px: real, py: real)
    ensures var (a, b) := Halves(r, horizontal);
      (Contains(r, px, py) <==> Contains(a, px, py) || Contains(b, px, py)) &&
      !(Contains(a, px, py) && Contains(b, px, py))
  {
  }

  /** The halves conserve area: each has half of it. */
  lemma HalvesArea(r: Rect, horizontal: bool)
    ensures var (a, b) := Halves(r, horizontal);
      Area(a) == Area(b) == Area(r) / 2.0 && Area(a) + Area(b) == Area(r)
  {
  }

  /** The ratio of the longer to the shorter side, compared without division:
      `r` is strictly less elongated than `s`. */
  predicate LessElongated(r: Rect, s: Rect) {
    Longer(r) * Shorter(s) < Longer(s) * Shorter(r)
  }

  function Longer(r: Rect): real {
    if r.width >= r.height then r.width else r.height
  }

  function Shorter(r: Rect): real {
    if r.width >= r.height then r.height else r.width
  }

  /** Halving the long side of a rectangle whose sides are `long` and `short`, with
      `long` at least `magicRatio` times `short`, gives a less elongated rectangle whether or
      not the halved side stays the longer one. */
  lemma HalvingLongSide(long: real, short: real)
    requires 0.0 < short && long >= MagicRatio * short
    ensures long / 2.0 >= short ==> (long / 2.0) * short < long * short
    ensures long / 2.0 <= short ==> short * short < long * (long / 2.0)
  {
    SquareOfLongSide(long, short);
    assert long * (long / 2.0) == (long * long) / 2.0;
  }

  lemma SquareOfLongSide(long: real, short: real)
    requires 0.0 < short && long >= MagicRatio * short
    ensures long * long > 2.0 * (short * short)
  {
    var m := MagicRatio * short;
    assert long * long >= m * long >= m * m;
    assert m * m == 2.1025 * (short * short);
    PositiveSquare(short);
    calc {
      long * long;
    >= m * m;
    == 2.0 * (short * short) + 0.1025 * (short * short);
    >  2.0 * (short * short);
    }
  }

  lemma PositiveSquare(v: real)
    requires v > 0.0
    ensures v * v > 0.0
  {
  }

  /** Halving the width of a rectangle at least `magicRatio` times wider than high. */
  lemma HalfWidthLessElongated(r: Rect, a: Rect)
    requires 0.0 < r.height && r.width >= MagicRatio * r.height
    requires a.width == r.width / 2.0 && a.height == r.height
    ensures LessElongated(a, r)
  {
    assert Longer(r) == r.width && Shorter(r) == r.height;
    HalvingLongSide(r.width, r.height);
    if a.width >= a.height {
      assert Longer(a) * Shorter(r) == (r.width / 2.0) * r.height;
    } else {
      assert Longer(a) * Shorter(r) == r.height * r.height;
      assert Longer(r) * Shorter(a) == r.width * (r.width / 2.0);
    }
  }

  /** Halving the height of a rectangle at least `magicRatio` times higher than wide. */
  lemma HalfHeightLessElongated(r: Rect, a: Rect)
    requires 0.0 < r.width && r.height >= MagicRatio * r.width
    requires a.height == r.height / 2.0 && a.width == r.width
    ensures LessElongated(a, r)
  {
    assert Longer(r) == r.height && Shorter(r) == r.width;
    HalvingLongSide(r.height, r.width);
    if a.height >= a.width {
      assert Longer(a) == r.height / 2.0 && Shorter(a) == r.width;
      assert Longer(a) * Shorter(r) == (r.height / 2.0) * r.width;
    } else {
      assert Longer(a) == r.width && Shorter(a) == r.height / 2.0;
      assert Longer(a) * Shorter(r) == r.width * r.width;
      assert Longer(r) * Shorter(a) == r.height * (r.height / 2.0);
    }
  }

  /** When the axis is forced, both children are less elongated than the parent: the forced
      cut always goes across the long side. */
  lemma ForcedSplitReducesRatio(r: Rect, heads: bool)
    requires ForcedVertical(r) || ForcedHorizontal(r)
    requires r.width > 0.0 && r.height > 0.0
    ensures var (a, b) := Halves(r, SplitsHorizontally(r, heads));
      LessElongated(a, r) && LessElongated(b, r)
  {
    if ForcedVertical(r) {
      var (a, b) := Halves(r, false);
      HalfWidthLessElongated(r, a);
      HalfWidthLessElongated(r, b);
    } else {
      var (a, b) := Halves(r, true);
      HalfHeightLessElongated(r, a);
      HalfHeightLessElongated(r, b);
    }
  }
}
