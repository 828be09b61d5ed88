/** Segment clipping of `agg_clip_liang_barsky.h`, over exact reals: outcodes, the moving of
    one endpoint, and `clip_line_segment`. */
module ClipSegment {

  datatype Point = Point(x: real, y: real)

  datatype Box = Box(x1: real, y1: real, x2: real, y2: real) {
    predicate Valid() { x1 <= x2 && y1 <= y2 }

    predicate Holds(p: Point) { x1 <= p.x <= x2 && y1 <= p.y <= y2 }
  }

  /** A segment, with its points numbered from 0 to 1. */
  datatype Segment = Segment(p: Point, q: Point) {
    function Dx(): real { q.x - p.x }

    function Dy(): real { q.y - p.y }

    function At(t: real): Point { Point(p.x + t * Dx(), p.y + t * Dy()) }
  }

  // ----- Outcodes -----

  const X2_CLIPPED: bv8 := 1
  const Y2_CLIPPED: bv8 := 2
  const X1_CLIPPED: bv8 := 4
  const Y1_CLIPPED: bv8 := 8
  const X_CLIPPED: bv8 := 5
  const Y_CLIPPED: bv8 := 10

  function Bit(b: bool, flag: bv8): bv8 {
    if b then flag else 0
  }

  function ClippingFlagsY(y: real, box: Box): bv8 {
    Bit(y > box.y2, Y2_CLIPPED) | Bit(y < box.y1, Y1_CLIPPED)
  }

  function ClippingFlags(p: Point, box: Box): bv8 {
    Bit(p.x > box.x2, X2_CLIPPED) | Bit(p.y > box.y2, Y2_CLIPPED) | Bit(p.x < box.x1, X1_CLIPPED)
        | Bit(p.y < box.y1, Y1_CLIPPED)
  }

  /** Which side of [lo, hi] a coordinate is on: -1, 0 or 1. */
  function Side(v: real, lo: real, hi: real): int {
    if v < lo then -1 else if v > hi then 1 else 0
  }

  /** The bit tests of the code, as statements about sides. */
  lemma FlagsAreSides(p: Point, q: Point, box: Box)
    requires box.Valid()
    ensures var f, g := ClippingFlags(p, box), ClippingFlags(q, box);
            && (g | f == 0 <==> box.Holds(p) && box.Holds(q))
            && (f == 0 <==> box.Holds(p))
            && (f & X_CLIPPED != 0 <==> Side(p.x, box.x1, box.x2) != 0)
            && (f & X1_CLIPPED != 0 <==> Side(p.x, box.x1, box.x2) == -1)
            && (f & Y_CLIPPED != 0 <==> Side(p.y, box.y1, box.y2) != 0)
            && (f & X_CLIPPED == g & X_CLIPPED <==> Side(p.x, box.x1, box.x2) == Side(q.x, box.x1, box.x2))
            && (f & Y_CLIPPED == g & Y_CLIPPED <==> Side(p.y, box.y1, box.y2) == Side(q.y, box.y1, box.y2))
  {
  }

  lemma FlagsYAreSides(y: real, box: Box)
    requires box.Valid()
    ensures var f := ClippingFlagsY(y, box);
            && (f & Y_CLIPPED != 0 <==> Side(y, box.y1, box.y2) != 0)
            && (f & Y1_CLIPPED != 0 <==> Side(y, box.y1, box.y2) == -1)
  {
  }

  // ----- One coordinate -----

  /** Where the coordinate c + t * d is pulled to from `t`: the bound it is outside of, or nowhere. */
  function Pull(c: real, d: real, lo: real, hi: real, t: real): real {
    var v := c + t * d;
    if d != 0.0 && v < lo then (lo - c) / d else if d != 0.0 && v > hi then (hi - c) / d else t
  }

  lemma Crossing(c: real, d: real, bound: real)
    requires d != 0.0
    ensures c + ((bound - c) / d) * d == bound
  {
  }

  /** An inequality between a coordinate and a bound, as one between parameters. */
  lemma BoundAsParameter(c: real, d: real, bound: real, t: real)
    requires d != 0.0
    ensures var z := (bound - c) / d;
            && (d > 0.0 ==> (c + t * d >= bound <==> t >= z) && (c + t * d <= bound <==> t <= z))
            && (d < 0.0 ==> (c + t * d >= bound <==> t <= z) && (c + t * d <= bound <==> t >= z))
  {
    var z := (bound - c) / d;
    Crossing(c, d, bound);
    assert (t - z) * d == t * d - z * d;
    if t > z && d > 0.0 { assert (t - z) * d > 0.0; }
    if t < z && d > 0.0 { assert (t - z) * d < 0.0; }
    if t > z && d < 0.0 { assert (t - z) * d < 0.0; }
    if t < z && d < 0.0 { assert (t - z) * d > 0.0; }
  }

  ghost predicate Within(c: real, d: real, lo: real, hi: real, t: real) {
    lo <= c + t * d <= hi
  }

  /** Unless both ends of [u, v] are outside on the same side, pulling both ends in leaves exactly
      the parameters at which the coordinate is within its bounds. */
  lemma PullBoth(c: real, d: real, lo: real, hi: real, u: real, v: real)
    requires lo <= hi && u <= v
    requires var su, sv := Side(c + u * d, lo, hi), Side(c + v * d, lo, hi); su == 0 || su != sv
    ensures var u', v' := Pull(c, d, lo, hi, u), Pull(c, d, lo, hi, v);
            && u <= u' <= v' <= v
            && forall t :: u <= t <= v ==> (Within(c, d, lo, hi, t) <==> u' <= t <= v')
  {
    var u', v' := Pull(c, d, lo, hi, u), Pull(c, d, lo, hi, v);
    if d == 0.0 {
      assert u * d == 0.0 && v * d == 0.0;
      forall t | u <= t <= v ensures Within(c, d, lo, hi, t) { assert t * d == 0.0; }
    } else {
      var zlo, zhi := (lo - c) / d, (hi - c) / d;
      BoundAsParameter(c, d, lo, u);
      BoundAsParameter(c, d, hi, u);
      BoundAsParameter(c, d, lo, v);
      BoundAsParameter(c, d, hi, v);
      BoundAsParameter(c, d, lo, zhi);
      Crossing(c, d, hi);
      forall t | u <= t <= v ensures Within(c, d, lo, hi, t) <==> u' <= t <= v' {
        BoundAsParameter(c, d, lo, t);
        BoundAsParameter(c, d, hi, t);
      }
    }
  }

  /** When both ends are outside on the same side, so is everything between them, and both are
      pulled to one place. */
  lemma PullMiss(c: real, d: real, lo: real, hi: real, u: real, v: real)
    requires lo <= hi && u <= v && d != 0.0
    requires var su, sv := Side(c + u * d, lo, hi), Side(c + v * d, lo, hi); su == sv != 0
    ensures Pull(c, d, lo, hi, u) == Pull(c, d, lo, hi, v)
    ensures forall t :: u <= t <= v ==> !Within(c, d, lo, hi, t)
  {
    var bound := if Side(c + u * d, lo, hi) == -1 then lo else hi;
    forall t | u <= t <= v ensures !Within(c, d, lo, hi, t) {
      BoundAsParameter(c, d, bound, u);
      BoundAsParameter(c, d, bound, v);
      BoundAsParameter(c, d, bound, t);
    }
  }

  // ----- Both coordinates -----

  function PullX(s: Segment, box: Box, t: real): real {
    Pull(s.p.x, s.Dx(), box.x1, box.x2, t)
  }

  function PullY(s: Segment, box: Box, t: real): real {
    Pull(s.p.y, s.Dy(), box.y1, box.y2, t)
  }

  /** Both ends outside the box on the same side of it. */
  ghost predicate Rejected(s: Segment, box: Box) {
    || Side(s.p.x, box.x1, box.x2) == Side(s.q.x, box.x1, box.x2) != 0
    || Side(s.p.y, box.y1, box.y2) == Side(s.q.y, box.y1, box.y2) != 0
  }

  ghost predicate Missed(s: Segment, box: Box) {
    forall t :: 0.0 <= t <= 1.0 ==> !box.Holds(s.At(t))
  }

  /** The visible parameters are exactly those from `a` to `b`. */
  ghost predicate Visible(s: Segment, box: Box, a: real, b: real) {
    0.0 <= a <= b <= 1.0 && forall t :: 0.0 <= t <= 1.0 ==> (box.Holds(s.At(t)) <==> a <= t <= b)
  }

  lemma Between(c: real, d: real, t: real)
    requires 0.0 <= t <= 1.0
    ensures c <= c + t * d <= c + d || c + d <= c + t * d <= c
  {
    if d >= 0.0 { assert 0.0 <= t * d <= 1.0 * d; } else { assert 1.0 * d <= t * d <= 0.0; }
  }

  lemma SameSide(c: real, d: real, lo: real, hi: real, t: real)
    requires 0.0 <= t <= 1.0 && lo <= hi && Side(c, lo, hi) == Side(c + d, lo, hi) != 0
    ensures !Within(c, d, lo, hi, t)
  {
    Between(c, d, t);
  }

  lemma HoldsIsWithin(s: Segment, box: Box, t: real)
    ensures box.Holds(s.At(t))
       <==> Within(s.p.x, s.Dx(), box.x1, box.x2, t) && Within(s.p.y, s.Dy(), box.y1, box.y2, t)
  {
    var p := s.At(t);
    assert p == Point(s.p.x + t * s.Dx(), s.p.y + t * s.Dy());
    assert box.Holds(p) <==> (box.x1 <= p.x <= box.x2) && (box.y1 <= p.y <= box.y2);
  }

  lemma RejectedMisses(s: Segment, box: Box)
    requires box.Valid() && Rejected(s, box)
    ensures Missed(s, box) && !box.Holds(s.p) && !box.Holds(s.q)
  {
    forall t | 0.0 <= t <= 1.0 ensures !box.Holds(s.At(t)) {
      HoldsIsWithin(s, box, t);
      if Side(s.p.x, box.x1, box.x2) == Side(s.q.x, box.x1, box.x2) != 0 {
        SameSide(s.p.x, s.Dx(), box.x1, box.x2, t);
      } else {
        SameSide(s.p.y, s.Dy(), box.y1, box.y2, t);
      }
    }
  }

  lemma Ends(s: Segment)
    ensures s.At(0.0) == s.p && s.At(1.0) == s.q
  {
  }

  lemma PulledEndsY(s: Segment, box: Box, u: real, v: real)
    requires box.Valid() && u <= v
    requires !(Side(s.p.y, box.y1, box.y2) == Side(s.q.y, box.y1, box.y2) != 0)
    ensures var a, b := PullY(s, box, u), PullY(s, box, v);
            || (a == b && forall t :: u <= t <= v ==> !Within(s.p.y, s.Dy(), box.y1, box.y2, t))
            || (u <= a <= b <= v
                && forall t :: u <= t <= v ==> (Within(s.p.y, s.Dy(), box.y1, box.y2, t) <==> a <= t <= b))
  {
    var c, d := s.p.y, s.Dy();
    var su, sv := Side(c + u * d, box.y1, box.y2), Side(c + v * d, box.y1, box.y2);
    hide Pull, Within;
    if su == sv != 0 {
      assert d != 0.0;
      PullMiss(c, d, box.y1, box.y2, u, v);
    } else {
      PullBoth(c, d, box.y1, box.y2, u, v);
    }
  }

  /** Pulling both ends in along x and then along y finds the visible part, or sends both ends to
      one and the same point when there is none. */
  lemma PulledEnds(s: Segment, box: Box)
    requires box.Valid() && !Rejected(s, box)
    ensures var a, b := PullY(s, box, PullX(s, box, 0.0)), PullY(s, box, PullX(s, box, 1.0));
            Visible(s, box, a, b) || (a == b && Missed(s, box))
  {
    Ends(s);
    hide Pull, Within;
    PullBoth(s.p.x, s.Dx(), box.x1, box.x2, 0.0, 1.0);
    var u, v := PullX(s, box, 0.0), PullX(s, box, 1.0);
    forall t
      ensures box.Holds(s.At(t))
         <==> Within(s.p.x, s.Dx(), box.x1, box.x2, t) && Within(s.p.y, s.Dy(), box.y1, box.y2, t)
    {
      HoldsIsWithin(s, box, t);
    }
    PulledEndsY(s, box, u, v);
  }

  /** No division by zero can occur in moving an end of a segment that is not rejected. */
  lemma PullsDefined(s: Segment, box: Box, t: real)
    requires box.Valid() && !Rejected(s, box) && (t == 0.0 || t == 1.0)
    ensures Side(s.At(t).x, box.x1, box.x2) != 0 ==> s.Dx() != 0.0
    ensures Side(s.At(PullX(s, box, t)).y, box.y1, box.y2) != 0 ==> s.Dy() != 0.0
  {
    Ends(s);
    if s.Dy() == 0.0 {
      assert s.At(PullX(s, box, t)).y == s.p.y == s.q.y;
    }
  }

  lemma QuotientOfProduct(n: real, e: real, d: real)
    requires d != 0.0
    ensures n * e / d == (n / d) * e
  {
    var q := n / d;
    assert q * d == n;
    assert (q * e) * d == n * e;
  }

  lemma CodeFormula(c: real, d: real, bound: real, g: real, e: real)
    requires d != 0.0
    ensures (bound - c) * e / d + g == g + ((bound - c) / d) * e
  {
    assert (bound - c) * e / d == ((bound - c) / d) * e by { QuotientOfProduct(bound - c, e, d); }
  }

  /** The x assignment of the code, as a point of the line. */
  lemma MoveToX(s: Segment, bound: real)
    requires s.Dx() != 0.0
    ensures Point(bound, (bound - s.p.x) * (s.q.y - s.p.y) / (s.q.x - s.p.x) + s.p.y) == s.At((bound - s.p.x) / s.Dx())
  {
    CodeFormula(s.p.x, s.Dx(), bound, s.p.y, s.Dy());
    Crossing(s.p.x, s.Dx(), bound);
  }

  lemma MoveToY(s: Segment, bound: real)
    requires s.Dy() != 0.0
    ensures Point((bound - s.p.y) * (s.q.x - s.p.x) / (s.q.y - s.p.y) + s.p.x, bound) == s.At((bound - s.p.y) / s.Dy())
  {
    CodeFormula(s.p.y, s.Dy(), bound, s.p.x, s.Dx());
    Crossing(s.p.y, s.Dy(), bound);
  }

  lemma PullCases(s: Segment, box: Box, t: real)
    requires box.Valid()
    ensures var side := Side(s.At(t).x, box.x1, box.x2);
            && (side == 0 || s.Dx() == 0.0 ==> PullX(s, box, t) == t)
            && (side == -1 && s.Dx() != 0.0 ==> PullX(s, box, t) == (box.x1 - s.p.x) / s.Dx())
            && (side == 1 && s.Dx() != 0.0 ==> PullX(s, box, t) == (box.x2 - s.p.x) / s.Dx())
    ensures var side := Side(s.At(t).y, box.y1, box.y2);
            && (side == 0 || s.Dy() == 0.0 ==> PullY(s, box, t) == t)
            && (side == -1 && s.Dy() != 0.0 ==> PullY(s, box, t) == (box.y1 - s.p.y) / s.Dy())
            && (side == 1 && s.Dy() != 0.0 ==> PullY(s, box, t) == (box.y2 - s.p.y) / s.Dy())
  {
  }

  /** `clip_move_point`: moves the point `at` of the line through `s` to the x bound it is outside
      of, then to the y bound it is then outside of. It gives up exactly when it would divide by zero. */
  method ClipMovePoint(s: Segment, box: Box, at: Point, flags0: bv8, ghost t: real) returns (ok: bool, end: Point)
    requires box.Valid() && at == s.At(t) && flags0 == ClippingFlags(at, box)
    ensures ok ==> end == s.At(PullY(s, box, PullX(s, box, t)))
    ensures ok <==> (Side(at.x, box.x1, box.x2) != 0 ==> s.Dx() != 0.0)
                    && (Side(s.At(PullX(s, box, t)).y, box.y1, box.y2) != 0 ==> s.Dy() != 0.0)
  {
    FlagsAreSides(at, at, box);
    end := at;
    ghost var u := PullX(s, box, t);
    PullCases(s, box, t);
    PullCases(s, box, u);
    hide PullX, PullY, ClippingFlags, ClippingFlagsY;
    if flags0 & X_CLIPPED != 0 {
      if s.p.x == s.q.x { return false, end; }
      var bound := if flags0 & X1_CLIPPED != 0 then box.x1 else box.x2;
      MoveToX(s, bound);
      end := Point(bound, (bound - s.p.x) * (s.q.y - s.p.y) / (s.q.x - s.p.x) + s.p.y);
    }
    assert end == s.At(u);
    FlagsYAreSides(end.y, box);
    var flags := ClippingFlagsY(end.y, box);
    if flags & Y_CLIPPED != 0 {
      if s.p.y == s.q.y { return false, end; }
      var bound := if flags & Y1_CLIPPED != 0 then box.y1 else box.y2;
      MoveToY(s, bound);
      end := Point((bound - s.p.y) * (s.q.x - s.p.x) / (s.q.y - s.p.y) + s.p.x, bound);
    }
    ok := true;
  }

  // ----- The segment -----

  lemma SamePoint(s: Segment, a: real, b: real)
    requires s.p != s.q && s.At(a) == s.At(b)
    ensures a == b
  {
    assert (a - b) * s.Dx() == 0.0;
    assert (a - b) * s.Dy() == 0.0;
  }

  /** Segment and box have at most one point in common. */
  ghost predicate MeetInOnePointAtMost(s: Segment, box: Box) {
    forall t, u :: 0.0 <= t <= 1.0 && 0.0 <= u <= 1.0 && box.Holds(s.At(t)) && box.Holds(s.At(u)) ==> s.At(t) == s.At(u)
  }

  /** From `a` to `b`, in this order along `s`, lies exactly what the box shows of it. */
  ghost predicate IsVisiblePart(s: Segment, box: Box, a: Point, b: Point) {
    exists t, u :: Visible(s, box, t, u) && a == s.At(t) && b == s.At(u)
  }

  /** What the result of `clip_line_segment` means. */
  ghost predicate ClipResult(s: Segment, box: Box, ret: int, a: Point, b: Point) {
    && 0 <= ret <= 4
    && (ret == 4 <==> !(box.Holds(s.p) && box.Holds(s.q)) && MeetInOnePointAtMost(s, box))
    && (ret < 4 ==>
          && IsVisiblePart(s, box, a, b) && box.Holds(a) && box.Holds(b)
          && (ret % 2 == 1 <==> !box.Holds(s.p)) && (ret / 2 == 1 <==> !box.Holds(s.q)))
  }

  lemma InsideThroughout(c: real, d: real, lo: real, hi: real, t: real)
    requires 0.0 <= t <= 1.0 && lo <= c <= hi && lo <= c + d <= hi
    ensures Within(c, d, lo, hi, t)
  {
    Between(c, d, t);
  }

  lemma FullyVisible(s: Segment, box: Box)
    requires box.Holds(s.p) && box.Holds(s.q)
    ensures ClipResult(s, box, 0, s.p, s.q)
  {
    Ends(s);
    forall t | 0.0 <= t <= 1.0 ensures box.Holds(s.At(t)) {
      HoldsIsWithin(s, box, t);
      InsideThroughout(s.p.x, s.Dx(), box.x1, box.x2, t);
      InsideThroughout(s.p.y, s.Dy(), box.y1, box.y2, t);
    }
    hide Within;
    assert Visible(s, box, 0.0, 1.0);
    assert IsVisiblePart(s, box, s.p, s.q);
  }

  lemma MissedResult(s: Segment, box: Box, a: Point, b: Point)
    requires Missed(s, box)
    ensures ClipResult(s, box, 4, a, b)
  {
    Ends(s);
    assert !box.Holds(s.At(0.0));
  }

  /** One visible point only: the result is 4 unless both ends are that point. */
  lemma OnePointResult(s: Segment, box: Box, t: real, a: Point, b: Point)
    requires Visible(s, box, t, t) && !(box.Holds(s.p) && box.Holds(s.q))
    ensures ClipResult(s, box, 4, a, b)
  {
    forall u | 0.0 <= u <= 1.0 && box.Holds(s.At(u)) ensures u == t { }
  }

  ghost predicate Pulled(s: Segment, box: Box, t: real, u: real) {
    Visible(s, box, t, u) || (t == u && Missed(s, box))
  }

  lemma PartResult(s: Segment, box: Box, t: real, u: real)
    requires Pulled(s, box, t, u) && s.At(t) != s.At(u) && !(box.Holds(s.p) && box.Holds(s.q))
    ensures var ret := (if box.Holds(s.p) then 0 else 1) + (if box.Holds(s.q) then 0 else 2);
            ClipResult(s, box, ret, s.At(t), s.At(u))
  {
    assert box.Holds(s.At(t)) && box.Holds(s.At(u));
    assert IsVisiblePart(s, box, s.At(t), s.At(u));
  }

  lemma NotRejectedNotPoint(s: Segment, box: Box)
    requires box.Valid() && !Rejected(s, box) && !(box.Holds(s.p) && box.Holds(s.q))
    ensures s.p != s.q
  {
  }

  /** The first end was moved onto the other end, which may be outside itself. */
  lemma StopAtOtherEnd(s: Segment, box: Box, t: real, u: real)
    requires box.Valid() && !Rejected(s, box) && !box.Holds(s.p)
    requires Pulled(s, box, t, u) && s.At(t) == s.q
    ensures ClipResult(s, box, 4, s.At(t), s.q)
  {
    if Missed(s, box) {
      MissedResult(s, box, s.At(t), s.q);
    } else {
      Ends(s);
      NotRejectedNotPoint(s, box);
      SamePoint(s, t, 1.0);
      OnePointResult(s, box, t, s.At(t), s.q);
    }
  }

  /** Both moved ends coincide. */
  lemma StopAtOnePoint(s: Segment, box: Box, t: real, u: real)
    requires box.Valid() && !Rejected(s, box) && !(box.Holds(s.p) && box.Holds(s.q))
    requires Pulled(s, box, t, u) && s.At(t) == s.At(u)
    ensures ClipResult(s, box, 4, s.At(t), s.At(u))
  {
    if Missed(s, box) {
      MissedResult(s, box, s.At(t), s.At(u));
    } else {
      NotRejectedNotPoint(s, box);
      SamePoint(s, t, u);
      OnePointResult(s, box, t, s.At(t), s.At(u));
    }
  }

  /** An end inside the box is not pulled anywhere. */
  lemma InsideStays(s: Segment, box: Box, t: real)
    requires box.Holds(s.At(t))
    ensures PullX(s, box, t) == t && PullY(s, box, t) == t
  {
  }

  /** `clip_line_segment`, for every segment and every box with ordered bounds. */
  method ClipLineSegment(s: Segment, box: Box) returns (ret: int, a: Point, b: Point)
    requires box.Valid()
    ensures ClipResult(s, box, ret, a, b)
  {
    a, b, ret := s.p, s.q, 0;
    var f1, f2 := ClippingFlags(s.p, box), ClippingFlags(s.q, box);
    FlagsAreSides(s.p, s.q, box);
    FlagsAreSides(s.q, s.q, box);
    hide ClippingFlags, ClipResult, PullX, PullY, Visible, Missed;
    if f2 | f1 == 0 {
      FullyVisible(s, box);
      return 0, a, b;
    }
    if f1 & X_CLIPPED != 0 && f1 & X_CLIPPED == f2 & X_CLIPPED {
      RejectedMisses(s, box);
      MissedResult(s, box, a, b);
      return 4, a, b;
    }
    if f1 & Y_CLIPPED != 0 && f1 & Y_CLIPPED == f2 & Y_CLIPPED {
      RejectedMisses(s, box);
      MissedResult(s, box, a, b);
      return 4, a, b;
    }
    assert !Rejected(s, box);
    Ends(s);
    PulledEnds(s, box);
    PullsDefined(s, box, 0.0);
    PullsDefined(s, box, 1.0);
    if box.Holds(s.p) { InsideStays(s, box, 0.0); }
    if box.Holds(s.q) { InsideStays(s, box, 1.0); }
    ghost var t, u := PullY(s, box, PullX(s, box, 0.0)), PullY(s, box, PullX(s, box, 1.0));
    var ok;
    if f1 != 0 {
      ok, a := ClipMovePoint(s, box, s.p, f1, 0.0);
      if !ok {
        assert false;
      }
      if a == b {
        StopAtOtherEnd(s, box, t, u);
        return 4, a, b;
      }
      ret := ret + 1;
    }
    if f2 != 0 {
      ok, b := ClipMovePoint(s, box, s.q, f2, 1.0);
      if !ok {
        assert false;
      }
      if a == b {
        StopAtOnePoint(s, box, t, u);
        return 4, a, b;
      }
      ret := ret + 2;
    }
    PartResult(s, box, t, u);
  }
}
