/**
  The slope-band membership test that the drawing item uses to fill the gap between
  two pointer samples (teclab/image_items.py, lines 111-126).

  A move from the previous point to the current one has the offset (dx, dy). The
  candidate offsets (X, Y) are signed like the move and lie strictly inside it. The
  source computes the slope and the band bounds as floating-point quotients; here
  they are exact rationals.
 */
module SlopeBand {

  /** numpy's sign of an integer. */
  function Sign(n: int): int {
    if n > 0 then 1 else if n < 0 then -1 else 0
  }

  function Abs(n: int): nat {
    if n < 0 then -n else n
  }

  function RAbs(x: real): real {
    if x < 0.0 then -x else x
  }

  /** The true quotient n / d of two integers. */
  function Quot(n: int, d: int): real
    requires d != 0
  {
    n as real / d as real
  }

  /** A signed candidate offset of the gap fill: one of the meshgrid entries. */
  predicate IsCandidate(dx: int, dy: int, x: int, y: int) {
    && dx != 0 && dy != 0
    && 1 <= Abs(x) < Abs(dx) && 1 <= Abs(y) < Abs(dy)
    && Sign(x) == Sign(dx) && Sign(y) == Sign(dy)
  }

  /**
    The quadrant-specific double inequality, `lte * gte`, for the candidate (x, y)
    of a move (dx, dy). The bound denominators 2x+1 and 2x-1 are odd, so every
    quotient is defined; with dx and dy both non-zero exactly one quadrant applies.
   */
  function PassesBand(dx: int, dy: int, x: int, y: int): bool
    requires dx != 0 && dy != 0
  {
    var slope := Quot(dy, dx);
    var sx, sy := Sign(dx), Sign(dy);
    if sx == 1 && sy == 1 then
      slope >= Quot(2 * y - 1, 2 * x + 1) && slope <= Quot(2 * y + 1, 2 * x - 1)
    else if sx == 1 && sy == -1 then
      slope <= Quot(2 * y + 1, 2 * x + 1) && slope >= Quot(2 * y - 1, 2 * x - 1)
    else if sx == -1 && sy == -1 then
      slope <= Quot(2 * y - 1, 2 * x + 1) && slope >= Quot(2 * y + 1, 2 * x - 1)
    else if sx == -1 && sy == 1 then
      slope <= Quot(2 * y - 1, 2 * x - 1) && slope >= Quot(2 * y + 1, 2 * x + 1)
    else
      assert false; false
  }

  /** Twice the signed area spanned by the move and the candidate. */
  function Cross(dx: int, dy: int, x: int, y: int): int {
    dx * y - dy * x
  }

  /**
    The integer reference definition of the band: the candidate is within half a
    pixel of the ideal line, measured along both axes together.
   */
  predicate InHalfPixelBand(dx: int, dy: int, x: int, y: int) {
    Abs(2 * Cross(dx, dy, x, y)) <= Abs(dx) + Abs(dy)
  }

  /** The point at parameter t of the segment from (0, 0) to (dx, dy) lies in the closed unit square centred on (x, y). */
  predicate SegmentPointInPixel(dx: int, dy: int, x: int, y: int, t: real) {
    && 0.0 <= t <= 1.0
    && RAbs(t * dx as real - x as real) <= 0.5
    && RAbs(t * dy as real - y as real) <= 0.5
  }

  /** The segment from (0, 0) to (dx, dy) passes through the pixel whose centre is (x, y). */
  ghost predicate SegmentMeetsPixel(dx: int, dy: int, x: int, y: int) {
    exists t: real :: SegmentPointInPixel(dx, dy, x, y, t)
  }

  /** Comparing two quotients is comparing cross products, with the direction set by the sign of the denominators. */
  lemma QuotLe(a: int, b: int, c: int, d: int)
    requires b != 0 && d != 0
    ensures b * d > 0 ==> (Quot(a, b) <= Quot(c, d) <==> a * d <= c * b)
    ensures b * d < 0 ==> (Quot(a, b) <= Quot(c, d) <==> a * d >= c * b)
  {
    var bd := (b * d) as real;
    assert Quot(a, b) * bd == (a * d) as real;
    assert Quot(c, d) * bd == (c * b) as real;
    if b * d > 0 {
      assert bd > 0.0;
      if Quot(a, b) <= Quot(c, d) {
        assert Quot(a, b) * bd <= Quot(c, d) * bd;
      } else {
        assert Quot(a, b) * bd > Quot(c, d) * bd;
      }
    } else {
      assert bd < 0.0;
      if Quot(a, b) <= Quot(c, d) {
        assert Quot(a, b) * bd >= Quot(c, d) * bd;
      } else {
        assert Quot(a, b) * bd < Quot(c, d) * bd;
      }
    }
  }

  /** The four bound quotients, expanded into products with the move. */
  lemma ExpandBounds(dx: int, dy: int, x: int, y: int)
    ensures (2 * y - 1) * dx == 2 * (dx * y) - dx && (2 * y + 1) * dx == 2 * (dx * y) + dx
    ensures dy * (2 * x - 1) == 2 * (dy * x) - dy && dy * (2 * x + 1) == 2 * (dy * x) + dy
  {
  }

  lemma NegativeProduct(a: int, b: int)
    requires a < 0 && b < 0
    ensures a * b > 0 && b * a > 0
  {
    assert (-a) * (-b) > 0;
  }

  lemma PositivePositive(dx: int, dy: int, x: int, y: int)
    requires dx > 0 && dy > 0 && x > 0 && y > 0
    ensures PassesBand(dx, dy, x, y) <==> InHalfPixelBand(dx, dy, x, y)
  {
    QuotLe(2 * y - 1, 2 * x + 1, dy, dx);
    QuotLe(dy, dx, 2 * y + 1, 2 * x - 1);
    ExpandBounds(dx, dy, x, y);
  }

  lemma PositiveNegative(dx: int, dy: int, x: int, y: int)
    requires dx > 0 && dy < 0 && x > 0 && y < 0
    ensures PassesBand(dx, dy, x, y) <==> InHalfPixelBand(dx, dy, x, y)
  {
    QuotLe(dy, dx, 2 * y + 1, 2 * x + 1);
    QuotLe(2 * y - 1, 2 * x - 1, dy, dx);
    ExpandBounds(dx, dy, x, y);
  }

  lemma NegativeNegative(dx: int, dy: int, x: int, y: int)
    requires dx < 0 && dy < 0 && x < 0 && y < 0
    ensures PassesBand(dx, dy, x, y) <==> InHalfPixelBand(dx, dy, x, y)
  {
    NegativeProduct(dx, 2 * x + 1);
    NegativeProduct(dx, 2 * x - 1);
    QuotLe(dy, dx, 2 * y - 1, 2 * x + 1);
    QuotLe(2 * y + 1, 2 * x - 1, dy, dx);
    ExpandBounds(dx, dy, x, y);
  }

  lemma NegativePositive(dx: int, dy: int, x: int, y: int)
    requires dx < 0 && dy > 0 && x < 0 && y > 0
    ensures PassesBand(dx, dy, x, y) <==> InHalfPixelBand(dx, dy, x, y)
  {
    NegativeProduct(dx, 2 * x + 1);
    NegativeProduct(dx, 2 * x - 1);
    QuotLe(dy, dx, 2 * y - 1, 2 * x - 1);
    QuotLe(2 * y + 1, 2 * x + 1, dy, dx);
    ExpandBounds(dx, dy, x, y);
  }

  /**
    All four quadrant tests are the same symmetric condition: the code's rational
    double inequality accepts a signed candidate exactly when it lies in the
    half-pixel band around the ideal line.
   */
  lemma PassesBandIffInBand(dx: int, dy: int, x: int, y: int)
    requires dx != 0 && dy != 0
    requires Sign(x) == Sign(dx) && Sign(y) == Sign(dy)
    ensures PassesBand(dx, dy, x, y) <==> InHalfPixelBand(dx, dy, x, y)
  {
    if dx > 0 && dy > 0 {
      PositivePositive(dx, dy, x, y);
    } else if dx > 0 {
      PositiveNegative(dx, dy, x, y);
    } else if dy < 0 {
      NegativeNegative(dx, dy, x, y);
    } else {
      NegativePositive(dx, dy, x, y);
    }
  }

  /** A scaled offset of at most half a pixel stays within half the scale. */
  lemma ScaledHalf(c: int, u: real)
    requires RAbs(u) <= 0.5
    ensures RAbs(c as real * u) <= Abs(c) as real / 2.0
  {
    var a := Abs(c) as real;
    assert RAbs(c as real * u) == a * RAbs(u);
    assert a * RAbs(u) <= a * 0.5;
  }

  /** Any point of the line inside the pixel square bounds the cross product: the band test is complete. */
  lemma PixelPointGivesBand(dx: int, dy: int, x: int, y: int, t: real)
    requires SegmentPointInPixel(dx, dy, x, y, t)
    ensures InHalfPixelBand(dx, dy, x, y)
  {
    var u := t * dx as real - x as real;
    var v := t * dy as real - y as real;
    CrossThroughOffsets(dx, dy, x, y, t);
    BandFromOffsets(dx, dy, Cross(dx, dy, x, y), u, v);
  }

  /** A cross product written through two offsets of at most half a pixel is within the band. */
  lemma BandFromOffsets(dx: int, dy: int, k: int, u: real, v: real)
    requires k as real == dy as real * u - dx as real * v
    requires RAbs(u) <= 0.5 && RAbs(v) <= 0.5
    ensures Abs(2 * k) <= Abs(dx) + Abs(dy)
  {
    ScaledHalf(dy, u);
    ScaledHalf(dx, v);
    CombineHalves(k, dy as real * u, dx as real * v, dy, dx);
  }

  /** Two half-scaled bounds on the parts of a difference bound the whole. */
  lemma CombineHalves(k: int, a: real, b: real, ca: int, cb: int)
    requires k as real == a - b
    requires RAbs(a) <= Abs(ca) as real / 2.0 && RAbs(b) <= Abs(cb) as real / 2.0
    ensures Abs(2 * k) <= Abs(cb) + Abs(ca)
  {
    Triangle(a, b);
    HalfToInt(k, Abs(cb) + Abs(ca));
  }

  /** The cross product through the offsets u, v of a line point from the candidate. */
  lemma CrossThroughOffsets(dx: int, dy: int, x: int, y: int, t: real)
    ensures Cross(dx, dy, x, y) as real
            == dy as real * (t * dx as real - x as real) - dx as real * (t * dy as real - y as real)
  {
  }

  lemma Triangle(a: real, b: real)
    ensures RAbs(a - b) <= RAbs(a) + RAbs(b)
  {
  }

  lemma HalfToInt(k: int, len: int)
    requires RAbs(k as real) <= len as real / 2.0
    ensures 2 * Abs(k) <= len
  {
  }

  /** The parameter of the segment point that shares the candidate's L1 distance from the origin. */
  function WitnessParameter(dx: int, dy: int, x: int, y: int): real
    requires dx != 0 || dy != 0
  {
    (Abs(x) + Abs(y)) as real / (Abs(dx) + Abs(dy)) as real
  }

  /** Moving a whole-number offset under a common denominator. */
  lemma FractionShift(n: int, len: int, d: int, x: int)
    requires len > 0
    ensures (n as real / len as real) * d as real - x as real == (n * d - x * len) as real / len as real
  {
    var l := len as real;
    assert x as real == (x * len) as real / l;
    assert (n as real / l) * d as real == (n * d) as real / l;
  }

  /** The numerators of the witness offsets are the cross product, up to sign. */
  lemma WitnessNumerators(dx: int, dy: int, x: int, y: int)
    requires IsCandidate(dx, dy, x, y)
    ensures (Abs(x) + Abs(y)) * dx - x * (Abs(dx) + Abs(dy)) == Sign(dy) * Cross(dx, dy, x, y)
    ensures (Abs(x) + Abs(y)) * dy - y * (Abs(dx) + Abs(dy)) == -Sign(dx) * Cross(dx, dy, x, y)
  {
    if dx > 0 && dy > 0 {
    } else if dx > 0 {
    } else if dy < 0 {
    } else {
    }
  }

  /** The distance, along each axis, from the candidate to the segment point at the witness parameter. */
  lemma WitnessOffsets(dx: int, dy: int, x: int, y: int)
    requires IsCandidate(dx, dy, x, y)
    ensures WitnessParameter(dx, dy, x, y) * dx as real - x as real
            == (Sign(dy) * Cross(dx, dy, x, y)) as real / (Abs(dx) + Abs(dy)) as real
    ensures WitnessParameter(dx, dy, x, y) * dy as real - y as real
            == (-Sign(dx) * Cross(dx, dy, x, y)) as real / (Abs(dx) + Abs(dy)) as real
  {
    WitnessNumerators(dx, dy, x, y);
    FractionShift(Abs(x) + Abs(y), Abs(dx) + Abs(dy), dx, x);
    FractionShift(Abs(x) + Abs(y), Abs(dx) + Abs(dy), dy, y);
  }

  /** For a candidate in the band, the segment point at the witness parameter lies in the pixel square: the band test is sound. */
  lemma BandGivesPixelPoint(dx: int, dy: int, x: int, y: int)
    requires IsCandidate(dx, dy, x, y) && InHalfPixelBand(dx, dy, x, y)
    ensures SegmentMeetsPixel(dx, dy, x, y)
  {
    WitnessInPixel(dx, dy, x, y);
  }

  lemma WitnessInPixel(dx: int, dy: int, x: int, y: int)
    requires IsCandidate(dx, dy, x, y) && InHalfPixelBand(dx, dy, x, y)
    ensures SegmentPointInPixel(dx, dy, x, y, WitnessParameter(dx, dy, x, y))
  {
    var len := Abs(dx) + Abs(dy);
    var k := Cross(dx, dy, x, y);
    UnitFraction(Abs(x) + Abs(y), len);
    WitnessOffsets(dx, dy, x, y);
    UnitMultiple(Sign(dy), k);
    UnitMultiple(-Sign(dx), k);
    OffsetsInPixel(dx, dy, x, y, WitnessParameter(dx, dy, x, y), Sign(dy) * k, -Sign(dx) * k, len);
  }

  /** A segment point whose offsets from the candidate are small fractions lies in its pixel. */
  lemma OffsetsInPixel(dx: int, dy: int, x: int, y: int, t: real, qx: int, qy: int, len: int)
    requires 0.0 <= t <= 1.0 && len > 0
    requires 2 * Abs(qx) <= len && 2 * Abs(qy) <= len
    requires t * dx as real - x as real == qx as real / len as real
    requires t * dy as real - y as real == qy as real / len as real
    ensures SegmentPointInPixel(dx, dy, x, y, t)
  {
    HalfBound(qx, len);
    HalfBound(qy, len);
  }

  lemma UnitMultiple(u: int, k: int)
    requires u == 1 || u == -1
    ensures Abs(u * k) == Abs(k)
  {
  }

  lemma UnitFraction(n: nat, len: int)
    requires 0 <= n <= len && len > 0
    ensures 0.0 <= n as real / len as real <= 1.0
  {
  }

  lemma HalfBound(q: int, len: int)
    requires len > 0 && 2 * Abs(q) <= len
    ensures RAbs(q as real / len as real) <= 0.5
  {
    var l := len as real;
    if q >= 0 {
      assert q as real / l >= 0.0;
    } else {
      assert q as real / l < 0.0;
      assert -(q as real / l) == (-q) as real / l;
    }
    assert RAbs(q as real / l) == Abs(q) as real / l;
    DivAtMostHalf(Abs(q) as real, l);
  }

  lemma DivAtMostHalf(a: real, l: real)
    requires l > 0.0 && a <= 0.5 * l
    ensures a / l <= 0.5
  {
    assert (a / l) * l == a;
  }

  /**
    The geometric meaning of the gap fill: a candidate pixel is accepted exactly
    when the straight segment from the previous point to the current one passes
    through its closed pixel square.
   */
  lemma PassesBandIffSegmentMeetsPixel(dx: int, dy: int, x: int, y: int)
    requires IsCandidate(dx, dy, x, y)
    ensures PassesBand(dx, dy, x, y) <==> SegmentMeetsPixel(dx, dy, x, y)
  {
    PassesBandIffInBand(dx, dy, x, y);
    if InHalfPixelBand(dx, dy, x, y) {
      BandGivesPixelPoint(dx, dy, x, y);
    }
    if SegmentMeetsPixel(dx, dy, x, y) {
      var t :| SegmentPointInPixel(dx, dy, x, y, t);
      PixelPointGivesBand(dx, dy, x, y, t);
    }
  }

  /** A candidate lying exactly on the ideal line passes both inequalities, in every quadrant. */
  lemma OnLineCandidatePasses(dx: int, dy: int, x: int, y: int)
    requires IsCandidate(dx, dy, x, y)
    requires y * dx == x * dy
    ensures PassesBand(dx, dy, x, y)
  {
    PassesBandIffInBand(dx, dy, x, y);
  }

  /** The band test is symmetric: swapping the axes, or mirroring either axis, maps accepted candidates to accepted candidates. */
  lemma PassesBandSymmetric(dx: int, dy: int, x: int, y: int)
    requires dx != 0 && dy != 0
    requires Sign(x) == Sign(dx) && Sign(y) == Sign(dy)
    ensures PassesBand(dx, dy, x, y) == PassesBand(dy, dx, y, x)
    ensures PassesBand(dx, dy, x, y) == PassesBand(-dx, dy, -x, y)
    ensures PassesBand(dx, dy, x, y) == PassesBand(dx, -dy, x, -y)
  {
    assert Cross(dy, dx, y, x) == -Cross(dx, dy, x, y);
    assert Cross(-dx, dy, -x, y) == -Cross(dx, dy, x, y);
    assert Cross(dx, -dy, x, -y) == -Cross(dx, dy, x, y);
    PassesBandIffInBand(dx, dy, x, y);
    PassesBandIffInBand(dy, dx, y, x);
    PassesBandIffInBand(-dx, dy, -x, y);
    PassesBandIffInBand(dx, -dy, x, -y);
  }
}
