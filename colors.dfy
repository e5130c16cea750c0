/** Colours of a picture's pixels and the per-pixel updates that the
    Picture operations apply to them. */
module Colors {

  /** An RGB colour as `Pixel.getColor`/`setColor` exchange it; the alpha
      channel of java.awt.Color is not modelled. */
  datatype Color = RGB(r: int, g: int, b: int)

  /** The range of one colour channel. */
  predicate IsChannel(x: int) {
    0 <= x <= 255
  }

  /** Every channel of `c` lies in 0..255: the invariant the model keeps in
      place of the clamping done by the pixel setters. */
  predicate ValidColor(c: Color) {
    IsChannel(c.r) && IsChannel(c.g) && IsChannel(c.b)
  }

  /** java.awt.Color.BLACK and java.awt.Color.WHITE. */
  const Black: Color := RGB(0, 0, 0)
  const White: Color := RGB(255, 255, 255)

  /** `setBlue(0)`. */
  function ZeroBlue(c: Color): (z: Color)
    ensures z.b == 0 && z.r == c.r && z.g == c.g
    ensures ValidColor(c) ==> ValidColor(z)
  {
    c.(b := 0)
  }

  /** `setRed(0)` followed by `setGreen(0)`. */
  function KeepOnlyBlue(c: Color): (k: Color)
    ensures k.r == 0 && k.g == 0 && k.b == c.b
    ensures ValidColor(c) ==> ValidColor(k)
  {
    c.(r := 0, g := 0)
  }

  /** Each channel `x` becomes `255 - x`. */
  function Negate(c: Color): (n: Color)
    ensures ValidColor(c) ==> ValidColor(n)
  {
    RGB(255 - c.r, 255 - c.g, 255 - c.b)
  }

  function MinChannel(c: Color): int {
    if c.r <= c.g && c.r <= c.b then c.r else if c.g <= c.b then c.g else c.b
  }

  function MaxChannel(c: Color): int {
    if c.r >= c.g && c.r >= c.b then c.r else if c.g >= c.b then c.g else c.b
  }

  /** All three channels become the average `(r + g + b) / 3`. For valid
      colours the sum is non-negative, where Java's truncating division and
      Dafny's agree. The average lies between the smallest and the largest
      channel, so a valid colour stays valid. */
  function Gray(c: Color): (y: Color)
    ensures y.r == y.g == y.b
    ensures MinChannel(c) <= y.r <= MaxChannel(c)
    ensures ValidColor(c) ==> ValidColor(y)
  {
    var average := (c.r + c.g + c.b) / 3;
    RGB(average, average, average)
  }

  /** The square of the Euclidean distance between two colours in RGB space. */
  function SquaredDistance(c1: Color, c2: Color): (s: int)
    ensures s >= 0
  {
    (c1.r - c2.r) * (c1.r - c2.r) + (c1.g - c2.g) * (c1.g - c2.g) + (c1.b - c2.b) * (c1.b - c2.b)
  }

  /** `colorDistance(c2) > edgeDist`, without the square root: the distance
      is never negative, so a negative threshold always holds, and for a
      threshold `d >= 0` the distance exceeds `d` exactly when its square
      exceeds `d * d`. */
  predicate IsEdge(c1: Color, c2: Color, edgeDist: int) {
    edgeDist < 0 || SquaredDistance(c1, c2) > edgeDist * edgeDist
  }

  /** For non-negative reals, `x > y` exactly when `x * x > y * y`. */
  lemma SquareMonotone(x: real, y: real)
    requires x >= 0.0 && y >= 0.0
    ensures x > y <==> x * x > y * y
  {
    if x > y {
      var p, q := x - y, x + y;
      assert p * q > 0.0;
      assert x * x - y * y == p * q;
    } else {
      var p, q := y - x, x + y;
      assert p * q >= 0.0;
      assert y * y - x * x == p * q;
    }
  }

  /** `IsEdge` is the comparison `colorDistance(c2) > edgeDist` of the real
      Euclidean distance: for any non-negative `dist` whose square is the
      squared distance, the test holds exactly when `dist > edgeDist`. */
  lemma IsEdgeIsDistanceAbove(c1: Color, c2: Color, edgeDist: int, dist: real)
    requires dist >= 0.0 && dist * dist == SquaredDistance(c1, c2) as real
    ensures IsEdge(c1, c2, edgeDist) <==> dist > edgeDist as real
  {
    if edgeDist >= 0 {
      var d := edgeDist as real;
      SquareMonotone(dist, d);
      assert d * d == (edgeDist * edgeDist) as real;
    }
  }

  /** The colour edge detection gives a pixel whose right neighbour is `right`. */
  function EdgeMark(left: Color, right: Color, edgeDist: int): (m: Color)
    ensures ValidColor(m)
    ensures m == Black || m == White
    ensures m == Black <==> IsEdge(left, right, edgeDist)
  {
    if IsEdge(left, right, edgeDist) then Black else White
  }
}
