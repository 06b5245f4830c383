/**
  The gap fill of one drag step (teclab/image_items.py, lines 111-133): the
  candidate lattice strictly between the previous and the current point, the
  candidates the slope band accepts, in the order `np.where(result.T)` lists
  them, and the pixel each one is stamped at.
 */
module GapFill {
  import opened SlopeBand

  type Point = (int, int)

  /** Zero-based meshgrid indices: j along X, i along Y. */
  type Index = (nat, nat)

  /** The signed candidate offset (X, Y) at meshgrid indices (j, i): `np.arange(1, |d|) * s`. */
  function Candidate(dx: int, dy: int, idx: Index): (int, int) {
    ((idx.0 + 1) * Sign(dx), (idx.1 + 1) * Sign(dy))
  }

  /** The band test on the candidate at indices (j, i). */
  predicate Accepts(dx: int, dy: int, idx: Index)
    requires dx != 0 && dy != 0
  {
    PassesBand(dx, dy, Candidate(dx, dy, idx).0, Candidate(dx, dy, idx).1)
  }

  /** The accepted indices (j, i) with i < m, for increasing i. */
  function Cells(dx: int, dy: int, j: nat, m: nat): seq<Index>
    requires dx != 0 && dy != 0
  {
    if m == 0 then []
    else Cells(dx, dy, j, m - 1) + (if Accepts(dx, dy, (j, m - 1)) then [(j, m - 1)] else [])
  }

  /** The accepted indices with j < n: whole columns of `result.T`, one after the other. */
  function Columns(dx: int, dy: int, n: nat): seq<Index>
    requires dx != 0 && dy != 0
  {
    if n == 0 then []
    else Columns(dx, dy, n - 1) + Cells(dx, dy, n - 1, Abs(dy) - 1)
  }

  /** `np.where(result.T)`: every accepted index pair, X index outer and Y index inner. */
  function AcceptedIndices(dx: int, dy: int): seq<Index>
    requires dx != 0 && dy != 0
  {
    Columns(dx, dy, Abs(dx) - 1)
  }

  /**
    The pixel the code stamps for the accepted indices (j, i): `sx * j + prev_x`,
    `sy * i + prev_y`. Since the candidate is (sx*(j+1), sy*(i+1)), this is the
    candidate moved one pixel back toward the previous point on each axis.
   */
  function StampFor(prev: Point, sx: int, sy: int, idx: Index): Point {
    (prev.0 + sx * idx.0, prev.1 + sy * idx.1)
  }

  /** The stamp for each index pair, in order: the `zip(xs, ys)` loop. */
  function Place(prev: Point, sx: int, sy: int, idx: seq<Index>): seq<Point> {
    seq(|idx|, k requires 0 <= k < |idx| => StampFor(prev, sx, sy, idx[k]))
  }

  /** The stamp centres of the gap fill for a move from `prev` to `cur`, in drawing order. */
  function StampCentres(prev: Point, cur: Point): seq<Point>
    requires prev.0 != cur.0 && prev.1 != cur.1
  {
    var dx, dy := cur.0 - prev.0, cur.1 - prev.1;
    Place(prev, Sign(dx), Sign(dy), AcceptedIndices(dx, dy))
  }

  /** Lexicographic order on index pairs: the order of `np.where` on a 2-D array. */
  predicate Before(p: Index, q: Index) {
    p.0 < q.0 || (p.0 == q.0 && p.1 < q.1)
  }

  predicate Increasing(s: seq<Index>) {
    forall a, b :: 0 <= a < b < |s| ==> Before(s[a], s[b])
  }

  /** The stamp `c` lies in the rectangle spanned from `prev` (inclusive) toward `cur`, at most |d| - 2 pixels along each axis. */
  predicate InFillRectangle(prev: Point, cur: Point, c: Point) {
    var dx, dy := cur.0 - prev.0, cur.1 - prev.1;
    && 0 <= Sign(dx) * (c.0 - prev.0) <= Abs(dx) - 2
    && 0 <= Sign(dy) * (c.1 - prev.1) <= Abs(dy) - 2
  }

  lemma {:induction false} CellsMembers(dx: int, dy: int, j: nat, m: nat)
    requires dx != 0 && dy != 0
    ensures forall p :: p in Cells(dx, dy, j, m) <==> p.0 == j && p.1 < m && Accepts(dx, dy, p)
    ensures |Cells(dx, dy, j, m)| <= m
    ensures Increasing(Cells(dx, dy, j, m))
  {
    if m > 0 {
      CellsMembers(dx, dy, j, m - 1);
    }
  }

  lemma {:induction false} ColumnsMembers(dx: int, dy: int, n: nat)
    requires dx != 0 && dy != 0
    ensures forall p :: p in Columns(dx, dy, n) <==> p.0 < n && p.1 < Abs(dy) - 1 && Accepts(dx, dy, p)
    ensures |Columns(dx, dy, n)| <= n * (Abs(dy) - 1)
    ensures Increasing(Columns(dx, dy, n))
  {
    if n > 0 {
      var front, last := Columns(dx, dy, n - 1), Cells(dx, dy, n - 1, Abs(dy) - 1);
      ColumnsMembers(dx, dy, n - 1);
      CellsMembers(dx, dy, n - 1, Abs(dy) - 1);
      assert (n - 1) * (Abs(dy) - 1) + (Abs(dy) - 1) == n * (Abs(dy) - 1);
      forall a, b | 0 <= a < b < |front + last|
        ensures Before((front + last)[a], (front + last)[b])
      {
        if b < |front| {
        } else if a >= |front| {
          assert (front + last)[a] == last[a - |front|];
          assert (front + last)[b] == last[b - |front|];
        } else {
          assert (front + last)[a] == front[a] && front[a] in front;
          assert (front + last)[b] == last[b - |front|] && last[b - |front|] in last;
        }
      }
    }
  }

  /**
    The accepted indices are exactly the interior candidates that pass the band
    test, listed without repetition in `np.where` order, and there are at most
    (|dx| - 1) * (|dy| - 1) of them.
   */
  lemma AcceptedIndicesSpec(dx: int, dy: int)
    requires dx != 0 && dy != 0
    ensures forall p :: p in AcceptedIndices(dx, dy) <==> p.0 < Abs(dx) - 1 && p.1 < Abs(dy) - 1 && Accepts(dx, dy, p)
    ensures forall p :: p in AcceptedIndices(dx, dy) ==> IsCandidate(dx, dy, Candidate(dx, dy, p).0, Candidate(dx, dy, p).1)
    ensures |AcceptedIndices(dx, dy)| <= (Abs(dx) - 1) * (Abs(dy) - 1)
    ensures Increasing(AcceptedIndices(dx, dy))
  {
    ColumnsMembers(dx, dy, Abs(dx) - 1);
    forall p | p in AcceptedIndices(dx, dy)
      ensures IsCandidate(dx, dy, Candidate(dx, dy, p).0, Candidate(dx, dy, p).1)
    {
      InteriorIsCandidate(dx, dy, p);
    }
  }

  /** Indices inside the meshgrid give signed candidates strictly inside the move. */
  lemma InteriorIsCandidate(dx: int, dy: int, p: Index)
    requires dx != 0 && dy != 0
    requires p.0 < Abs(dx) - 1 && p.1 < Abs(dy) - 1
    ensures IsCandidate(dx, dy, Candidate(dx, dy, p).0, Candidate(dx, dy, p).1)
  {
    if dx > 0 { assert Candidate(dx, dy, p).0 == p.0 + 1; } else { assert Candidate(dx, dy, p).0 == -(p.0 + 1); }
    if dy > 0 { assert Candidate(dx, dy, p).1 == p.1 + 1; } else { assert Candidate(dx, dy, p).1 == -(p.1 + 1); }
  }

  /** The candidate whose stamp sits at offset (a, b) from the previous point is (a + sx, b + sy). */
  lemma CandidateOfStamp(dx: int, dy: int, a: int, b: int)
    requires dx != 0 && dy != 0
    requires Sign(dx) * a >= 0 && Sign(dy) * b >= 0
    ensures Candidate(dx, dy, (Sign(dx) * a, Sign(dy) * b)) == (a + Sign(dx), b + Sign(dy))
  {
    if dx > 0 { assert Sign(dx) * a == a; } else { assert Sign(dx) * a == -a; }
    if dy > 0 { assert Sign(dy) * b == b; } else { assert Sign(dy) * b == -b; }
  }

  lemma SignInverse(d: int, a: int)
    requires d != 0
    ensures Sign(d) * (Sign(d) * a) == a
  {
  }

  /** The stamp for an interior index lies in the fill rectangle, one pixel back from its candidate. */
  lemma StampOfIndex(prev: Point, cur: Point, p: Index)
    requires prev.0 != cur.0 && prev.1 != cur.1
    requires p.0 < Abs(cur.0 - prev.0) - 1 && p.1 < Abs(cur.1 - prev.1) - 1
    ensures var dx, dy := cur.0 - prev.0, cur.1 - prev.1;
            var c := StampFor(prev, Sign(dx), Sign(dy), p);
            && InFillRectangle(prev, cur, c)
            && Candidate(dx, dy, p) == (c.0 - prev.0 + Sign(dx), c.1 - prev.1 + Sign(dy))
  {
    var dx, dy := cur.0 - prev.0, cur.1 - prev.1;
    if dx > 0 { assert Sign(dx) * p.0 == p.0; } else { assert Sign(dx) * p.0 == -(p.0 as int); }
    if dy > 0 { assert Sign(dy) * p.1 == p.1; } else { assert Sign(dy) * p.1 == -(p.1 as int); }
  }

  /** Membership of one index pair in the accepted list. */
  lemma AcceptedIndex(dx: int, dy: int, p: Index)
    requires dx != 0 && dy != 0
    ensures p in AcceptedIndices(dx, dy) <==> p.0 < Abs(dx) - 1 && p.1 < Abs(dy) - 1 && Accepts(dx, dy, p)
  {
    ColumnsMembers(dx, dy, Abs(dx) - 1);
  }

  /** Every stamp lies in the fill rectangle and stands for a candidate that passes the band test. */
  lemma StampCentresSound(prev: Point, cur: Point, c: Point)
    requires prev.0 != cur.0 && prev.1 != cur.1
    requires c in StampCentres(prev, cur)
    ensures InFillRectangle(prev, cur, c)
    ensures PassesBand(cur.0 - prev.0, cur.1 - prev.1, c.0 - prev.0 + Sign(cur.0 - prev.0), c.1 - prev.1 + Sign(cur.1 - prev.1))
  {
    var dx, dy := cur.0 - prev.0, cur.1 - prev.1;
    var idx := AcceptedIndices(dx, dy);
    var cs := StampCentres(prev, cur);
    var k :| 0 <= k < |cs| && cs[k] == c;
    var p := idx[k];
    assert c == StampFor(prev, Sign(dx), Sign(dy), p);
    AcceptedIndex(dx, dy, p);
    StampOfIndex(prev, cur, p);
  }

  /** Every point of the fill rectangle whose candidate passes the band test is stamped. */
  lemma StampCentresComplete(prev: Point, cur: Point, c: Point)
    requires prev.0 != cur.0 && prev.1 != cur.1
    requires InFillRectangle(prev, cur, c)
    requires PassesBand(cur.0 - prev.0, cur.1 - prev.1, c.0 - prev.0 + Sign(cur.0 - prev.0), c.1 - prev.1 + Sign(cur.1 - prev.1))
    ensures c in StampCentres(prev, cur)
  {
    var dx, dy := cur.0 - prev.0, cur.1 - prev.1;
    var idx := AcceptedIndices(dx, dy);
    var cs := StampCentres(prev, cur);
    var p: Index := (Sign(dx) * (c.0 - prev.0), Sign(dy) * (c.1 - prev.1));
    CandidateOfStamp(dx, dy, c.0 - prev.0, c.1 - prev.1);
    StampOfIndex(prev, cur, p);
    assert StampFor(prev, Sign(dx), Sign(dy), p) == c;
    AcceptedIndex(dx, dy, p);
    var k :| 0 <= k < |idx| && idx[k] == p;
    assert cs[k] == c;
  }

  /**
    Which pixels the gap fill stamps: exactly the points `c` of the fill rectangle
    whose candidate `c - prev + (sx, sy)` passes the band test. Each stamp lies
    one pixel back toward the previous point from the candidate it stands for.
   */
  lemma StampCentresSpec(prev: Point, cur: Point)
    requires prev.0 != cur.0 && prev.1 != cur.1
    ensures var dx, dy := cur.0 - prev.0, cur.1 - prev.1;
            forall c :: c in StampCentres(prev, cur) <==>
              InFillRectangle(prev, cur, c) && PassesBand(dx, dy, c.0 - prev.0 + Sign(dx), c.1 - prev.1 + Sign(dy))
  {
    forall c | c in StampCentres(prev, cur) {
      StampCentresSound(prev, cur, c);
    }
    forall c | InFillRectangle(prev, cur, c) &&
               PassesBand(cur.0 - prev.0, cur.1 - prev.1, c.0 - prev.0 + Sign(cur.0 - prev.0), c.1 - prev.1 + Sign(cur.1 - prev.1))
    {
      StampCentresComplete(prev, cur, c);
    }
  }

  /** No pixel is stamped twice, and there are at most (|dx| - 1) * (|dy| - 1) stamps, none when either axis moves by one pixel. */
  lemma StampCentresCount(prev: Point, cur: Point)
    requires prev.0 != cur.0 && prev.1 != cur.1
    ensures |StampCentres(prev, cur)| <= (Abs(cur.0 - prev.0) - 1) * (Abs(cur.1 - prev.1) - 1)
    ensures Abs(cur.0 - prev.0) == 1 || Abs(cur.1 - prev.1) == 1 ==> StampCentres(prev, cur) == []
    ensures forall a, b :: 0 <= a < b < |StampCentres(prev, cur)| ==> StampCentres(prev, cur)[a] != StampCentres(prev, cur)[b]
  {
    var dx, dy := cur.0 - prev.0, cur.1 - prev.1;
    var idx := AcceptedIndices(dx, dy);
    var cs := StampCentres(prev, cur);
    AcceptedIndicesSpec(dx, dy);
    forall a, b | 0 <= a < b < |cs|
      ensures cs[a] != cs[b]
    {
      assert Before(idx[a], idx[b]);
      SignInverse(dx, idx[a].0);
      SignInverse(dx, idx[b].0);
      SignInverse(dy, idx[a].1);
      SignInverse(dy, idx[b].1);
    }
    if Abs(dx) == 1 || Abs(dy) == 1 {
      assert |cs| == 0;
    }
  }

  /**
    The geometry of the code as written: the stamped pixels are exactly the points
    of the fill rectangle whose diagonal neighbour away from the previous point is
    a pixel the ideal segment passes through.
   */
  lemma StampCentresTrailSegment(prev: Point, cur: Point)
    requires prev.0 != cur.0 && prev.1 != cur.1
    ensures var dx, dy := cur.0 - prev.0, cur.1 - prev.1;
            forall c :: c in StampCentres(prev, cur) <==>
              InFillRectangle(prev, cur, c) && SegmentMeetsPixel(dx, dy, c.0 - prev.0 + Sign(dx), c.1 - prev.1 + Sign(dy))
  {
    var dx, dy := cur.0 - prev.0, cur.1 - prev.1;
    StampCentresSpec(prev, cur);
    forall c | InFillRectangle(prev, cur, c)
      ensures PassesBand(dx, dy, c.0 - prev.0 + Sign(dx), c.1 - prev.1 + Sign(dy))
              <==> SegmentMeetsPixel(dx, dy, c.0 - prev.0 + Sign(dx), c.1 - prev.1 + Sign(dy))
    {
      var p: Index := (Sign(dx) * (c.0 - prev.0), Sign(dy) * (c.1 - prev.1));
      SignInverse(dx, c.0 - prev.0);
      SignInverse(dy, c.1 - prev.1);
      InteriorIsCandidate(dx, dy, p);
      assert Candidate(dx, dy, p) == (c.0 - prev.0 + Sign(dx), c.1 - prev.1 + Sign(dy));
      PassesBandIffSegmentMeetsPixel(dx, dy, c.0 - prev.0 + Sign(dx), c.1 - prev.1 + Sign(dy));
    }
  }

  /**
    Because of the one-pixel shift, a stamp can miss the segment: for the move
    from (0, 0) to (5, 2) the candidate (3, 1) is accepted and stamped at (2, 0),
    a pixel the segment from (0, 0) to (5, 2) does not pass through.
   */
  lemma ShiftedStampCanMissSegment()
    ensures (2, 0) in StampCentres((0, 0), (5, 2))
    ensures !SegmentMeetsPixel(5, 2, 2, 0)
  {
    assert InHalfPixelBand(5, 2, 3, 1);
    PassesBandIffInBand(5, 2, 3, 1);
    StampCentresComplete((0, 0), (5, 2), (2, 0));
    if SegmentMeetsPixel(5, 2, 2, 0) {
      var t :| SegmentPointInPixel(5, 2, 2, 0, t);
      PixelPointGivesBand(5, 2, 2, 0, t);
      assert false;
    }
  }

  /**
    The gap fill the band test is written for: every accepted candidate stamped
    at the candidate itself, `prev + (X, Y)`, rather than one pixel back.
   */
  function IntendedStampCentres(prev: Point, cur: Point): seq<Point>
    requires prev.0 != cur.0 && prev.1 != cur.1
  {
    var dx, dy := cur.0 - prev.0, cur.1 - prev.1;
    var idx := AcceptedIndices(dx, dy);
    seq(|idx|, k requires 0 <= k < |idx| => (prev.0 + Candidate(dx, dy, idx[k]).0, prev.1 + Candidate(dx, dy, idx[k]).1))
  }

  /** The stamps of the code are the intended stamps, each moved one pixel back toward the previous point. */
  lemma IntendedStampCentresShift(prev: Point, cur: Point)
    requires prev.0 != cur.0 && prev.1 != cur.1
    ensures var sx, sy := Sign(cur.0 - prev.0), Sign(cur.1 - prev.1);
            && |StampCentres(prev, cur)| == |IntendedStampCentres(prev, cur)|
            && forall k :: 0 <= k < |StampCentres(prev, cur)| ==>
                 IntendedStampCentres(prev, cur)[k] == (StampCentres(prev, cur)[k].0 + sx, StampCentres(prev, cur)[k].1 + sy)
  {
  }

  /** For a move down and to the right with accepted indices `idx`, the intended stamps are `prev + idx + (1, 1)`, index for index. */
  lemma IntendedOfIndices(prev: Point, cur: Point, idx: seq<Index>)
    requires cur.0 > prev.0 && cur.1 > prev.1
    requires AcceptedIndices(cur.0 - prev.0, cur.1 - prev.1) == idx
    ensures |IntendedStampCentres(prev, cur)| == |idx|
    ensures forall k :: 0 <= k < |idx| ==> IntendedStampCentres(prev, cur)[k] == (prev.0 + idx[k].0 + 1, prev.1 + idx[k].1 + 1)
  {
  }

  /** Every intended stamp is strictly inside the move and the segment passes through its pixel. */
  lemma IntendedStampSound(prev: Point, cur: Point, c: Point)
    requires prev.0 != cur.0 && prev.1 != cur.1
    requires c in IntendedStampCentres(prev, cur)
    ensures var dx, dy := cur.0 - prev.0, cur.1 - prev.1;
            IsCandidate(dx, dy, c.0 - prev.0, c.1 - prev.1) && SegmentMeetsPixel(dx, dy, c.0 - prev.0, c.1 - prev.1)
  {
    var dx, dy := cur.0 - prev.0, cur.1 - prev.1;
    var idx := AcceptedIndices(dx, dy);
    var cs := IntendedStampCentres(prev, cur);
    var k :| 0 <= k < |cs| && cs[k] == c;
    assert Candidate(dx, dy, idx[k]) == (c.0 - prev.0, c.1 - prev.1);
    AcceptedIndex(dx, dy, idx[k]);
    InteriorIsCandidate(dx, dy, idx[k]);
    PassesBandIffSegmentMeetsPixel(dx, dy, c.0 - prev.0, c.1 - prev.1);
  }

  /** Every pixel strictly inside the move that the segment passes through is an intended stamp. */
  lemma IntendedStampComplete(prev: Point, cur: Point, c: Point)
    requires prev.0 != cur.0 && prev.1 != cur.1
    requires IsCandidate(cur.0 - prev.0, cur.1 - prev.1, c.0 - prev.0, c.1 - prev.1)
    requires SegmentMeetsPixel(cur.0 - prev.0, cur.1 - prev.1, c.0 - prev.0, c.1 - prev.1)
    ensures c in IntendedStampCentres(prev, cur)
  {
    var dx, dy := cur.0 - prev.0, cur.1 - prev.1;
    var x, y := c.0 - prev.0, c.1 - prev.1;
    var idx := AcceptedIndices(dx, dy);
    var cs := IntendedStampCentres(prev, cur);
    var p: Index := (Abs(x) - 1, Abs(y) - 1);
    CandidateOfStamp(dx, dy, x - Sign(dx), y - Sign(dy));
    assert Candidate(dx, dy, p) == (x, y);
    PassesBandIffSegmentMeetsPixel(dx, dy, x, y);
    AcceptedIndex(dx, dy, p);
    var k :| 0 <= k < |idx| && idx[k] == p;
    assert cs[k] == c;
  }

  /**
    The intended gap fill stamps exactly the pixels strictly inside the move
    whose closed square the segment from the previous point to the current one
    passes through.
   */
  lemma IntendedStampCentresMeetSegment(prev: Point, cur: Point)
    requires prev.0 != cur.0 && prev.1 != cur.1
    ensures var dx, dy := cur.0 - prev.0, cur.1 - prev.1;
            forall c: Point :: c in IntendedStampCentres(prev, cur) <==>
              IsCandidate(dx, dy, c.0 - prev.0, c.1 - prev.1) && SegmentMeetsPixel(dx, dy, c.0 - prev.0, c.1 - prev.1)
  {
    forall c | c in IntendedStampCentres(prev, cur) {
      IntendedStampSound(prev, cur, c);
    }
    forall c: Point | IsCandidate(cur.0 - prev.0, cur.1 - prev.1, c.0 - prev.0, c.1 - prev.1) &&
                      SegmentMeetsPixel(cur.0 - prev.0, cur.1 - prev.1, c.0 - prev.0, c.1 - prev.1)
    {
      IntendedStampComplete(prev, cur, c);
    }
  }

  /** The band test for the move (10, 3): the candidate (j + 1, i + 1) is accepted iff |2(10(i + 1) - 3(j + 1))| <= 13. */
  lemma LongShallowAccepts(j: nat, i: nat)
    requires j < 9 && i < 2
    ensures Accepts(10, 3, (j, i)) <==> Abs(2 * (10 * (i + 1) - 3 * (j + 1))) <= 13
  {
    assert Candidate(10, 3, (j, i)) == (j + 1, i + 1);
    PassesBandIffInBand(10, 3, j + 1, i + 1);
  }

  /** Column j of the accepted indices for the move (10, 3): row 0 for j in 1..4, row 1 for j in 4..7. */
  lemma LongShallowColumn(j: nat)
    requires j < 9
    ensures Cells(10, 3, j, 2) == (if 1 <= j <= 4 then [(j, 0)] else []) + (if 4 <= j <= 7 then [(j, 1)] else [])
  {
    LongShallowAccepts(j, 0);
    LongShallowAccepts(j, 1);
    assert Cells(10, 3, j, 1) == (if 1 <= j <= 4 then [(j, 0)] else []);
  }

  /** For the move (10, 3), `np.where(result.T)` lists the candidates (2..5, 1) and (5..8, 2), as zero-based indices. */
  lemma LongShallowAcceptedIndices(dx: int, dy: int)
    requires dx == 10 && dy == 3
    ensures AcceptedIndices(dx, dy) == [(1, 0), (2, 0), (3, 0), (4, 0), (4, 1), (5, 1), (6, 1), (7, 1)]
  {
    LongShallowColumn(0);
    assert Columns(10, 3, 1) == [];
    LongShallowColumn(1);
    assert Columns(10, 3, 2) == [(1, 0)];
    LongShallowColumn(2);
    assert Columns(10, 3, 3) == [(1, 0), (2, 0)];
    LongShallowColumn(3);
    assert Columns(10, 3, 4) == [(1, 0), (2, 0), (3, 0)];
    LongShallowColumn(4);
    assert Columns(10, 3, 5) == [(1, 0), (2, 0), (3, 0), (4, 0), (4, 1)];
    LongShallowColumn(5);
    assert Columns(10, 3, 6) == [(1, 0), (2, 0), (3, 0), (4, 0), (4, 1), (5, 1)];
    LongShallowColumn(6);
    assert Columns(10, 3, 7) == [(1, 0), (2, 0), (3, 0), (4, 0), (4, 1), (5, 1), (6, 1)];
    LongShallowColumn(7);
    assert Columns(10, 3, 8) == [(1, 0), (2, 0), (3, 0), (4, 0), (4, 1), (5, 1), (6, 1), (7, 1)];
    LongShallowColumn(8);
  }

  /** The stamps the code draws for the move from (0, 0) to (10, 3): each accepted candidate, one pixel back. */
  lemma LongShallowStamps()
    ensures StampCentres((0, 0), (10, 3)) == [(1, 0), (2, 0), (3, 0), (4, 0), (4, 1), (5, 1), (6, 1), (7, 1)]
  {
    LongShallowAcceptedIndices(10, 3);
  }

  /** The band test for a move by (20, 2) on the row Y = 1 accepts exactly X = 5..15. */
  lemma ShallowTwentyBand(x: int)
    requires 1 <= x <= 19
    ensures PassesBand(20, 2, x, 1) <==> 5 <= x <= 15
  {
    PassesBandIffInBand(20, 2, x, 1);
    assert Cross(20, 2, x, 1) == 20 - 2 * x;
  }

  /** One pixel of a move by (20, 2): stamped iff it is on the previous point's row, 4 to 14 pixels along. */
  lemma ShallowTwentyStamp(prev: Point, cur: Point, c: Point)
    requires cur.0 - prev.0 == 20 && cur.1 - prev.1 == 2
    ensures c in StampCentres(prev, cur) <==> c.1 == prev.1 && prev.0 + 4 <= c.0 <= prev.0 + 14
  {
    var x := c.0 - prev.0 + 1;
    assert Sign(cur.0 - prev.0) == 1 && Sign(cur.1 - prev.1) == 1;
    if c in StampCentres(prev, cur) {
      StampCentresSound(prev, cur, c);
      ShallowTwentyBand(x);
    } else if c.1 == prev.1 && prev.0 + 4 <= c.0 <= prev.0 + 14 {
      ShallowTwentyBand(x);
      StampCentresComplete(prev, cur, c);
    }
  }

  /**
    A move by (20, 2): only the row Y = 1 has candidates, and the band test
    accepts X = 5..15, so the code stamps the previous point's row from 4 to 14
    pixels along.
   */
  lemma ShallowTwentyStamps(prev: Point, cur: Point)
    requires cur.0 - prev.0 == 20 && cur.1 - prev.1 == 2
    ensures forall c :: c in StampCentres(prev, cur) <==> c.1 == prev.1 && prev.0 + 4 <= c.0 <= prev.0 + 14
  {
    forall c: Point {
      ShallowTwentyStamp(prev, cur, c);
    }
  }

  /** A pixel is an intended stamp iff the pixel one step back toward the previous point is a stamp of the code. */
  lemma IntendedStampIffShifted(prev: Point, cur: Point, c: Point)
    requires prev.0 != cur.0 && prev.1 != cur.1
    ensures var sx, sy := Sign(cur.0 - prev.0), Sign(cur.1 - prev.1);
            c in IntendedStampCentres(prev, cur) <==> (c.0 - sx, c.1 - sy) in StampCentres(prev, cur)
  {
    var sx, sy := Sign(cur.0 - prev.0), Sign(cur.1 - prev.1);
    var written, intended := StampCentres(prev, cur), IntendedStampCentres(prev, cur);
    IntendedStampCentresShift(prev, cur);
    if c in intended {
      var k :| 0 <= k < |intended| && intended[k] == c;
      assert written[k] == (c.0 - sx, c.1 - sy);
    }
    if (c.0 - sx, c.1 - sy) in written {
      var k :| 0 <= k < |written| && written[k] == (c.0 - sx, c.1 - sy);
      assert intended[k] == c;
    }
  }

  /** The intended gap fill of a move by (20, 2): the row above the previous point, from 5 to 15 pixels along. */
  lemma ShallowTwentyIntended(prev: Point, cur: Point)
    requires cur.0 - prev.0 == 20 && cur.1 - prev.1 == 2
    ensures forall c :: c in IntendedStampCentres(prev, cur) <==> c.1 == prev.1 + 1 && prev.0 + 5 <= c.0 <= prev.0 + 15
  {
    forall c: Point
      ensures c in IntendedStampCentres(prev, cur) <==> c.1 == prev.1 + 1 && prev.0 + 5 <= c.0 <= prev.0 + 15
    {
      IntendedStampIffShifted(prev, cur, c);
      ShallowTwentyStamp(prev, cur, (c.0 - 1, c.1 - 1));
    }
  }

  lemma PlaceAppend(prev: Point, sx: int, sy: int, idx: seq<Index>, e: Index)
    ensures Place(prev, sx, sy, idx + [e]) == Place(prev, sx, sy, idx) + [StampFor(prev, sx, sy, e)]
  {
  }

  /**
    The gap fill as the source runs it: the meshgrid scanned column by column
    (X index outer, Y index inner), stamping every accepted candidate at its
    zero-based index position. It produces the stamps of `StampCentres` in the
    same order.
   */
  method EnumerateStampCentres(prev: Point, cur: Point) returns (centres: seq<Point>)
    requires prev.0 != cur.0 && prev.1 != cur.1
    ensures centres == StampCentres(prev, cur)
  {
    var dx, dy := cur.0 - prev.0, cur.1 - prev.1;
    var sx, sy := Sign(dx), Sign(dy);
    centres := [];
    ghost var idx: seq<Index> := [];
    var j: nat := 0;
    while j < Abs(dx) - 1
      invariant j <= Abs(dx) - 1
      invariant idx == Columns(dx, dy, j)
      invariant centres == Place(prev, sx, sy, idx)
    {
      var i: nat := 0;
      while i < Abs(dy) - 1
        invariant i <= Abs(dy) - 1
        invariant idx == Columns(dx, dy, j) + Cells(dx, dy, j, i)
        invariant centres == Place(prev, sx, sy, idx)
      {
        if Accepts(dx, dy, (j, i)) {
          PlaceAppend(prev, sx, sy, idx, (j, i));
          idx := idx + [(j, i)];
          centres := centres + [StampFor(prev, sx, sy, (j, i))];
        }
        i := i + 1;
      }
      j := j + 1;
    }
  }
}
