/**
 Greedy piecewise linear regression (mod/plr.cpp), over exact reals.

 A segment under construction keeps a cone of admissible lines through the
 point `sint`, bounded by the slopes of `rhoLower` and `rhoUpper`.  The main
 fact about it is that every line of the cone stays within `gamma` of every
 point absorbed so far, so whichever slope is emitted, the segment predicts
 all its points within `gamma`.
 */
module Plr {

  datatype Point = Point(x: real, y: real)

  datatype Line = Line(a: real, b: real) {
    function At(x: real): real { a * x + b }
  }

  datatype Segment = Segment(x: nat, k: real, b: real) {
    function Predict(key: nat): real { Line(k, b).At(key as real) }
  }

  /** The value that stands for "no segment was completed". */
  const NO_SEGMENT := Segment(0, 0.0, 0.0)

  datatype State = Need2 | Need1 | Ready | Finished

  ghost predicate Near(u: real, v: real, gamma: real) {
    -gamma <= u - v <= gamma
  }

  // ---------------------------------------------------------------- geometry

  function GetSlope(p1: Point, p2: Point): real
    requires p1.x != p2.x
  {
    (p2.y - p1.y) / (p2.x - p1.x)
  }

  function GetLine(p1: Point, p2: Point): (l: Line)
    requires p1.x != p2.x
    ensures l.At(p1.x) == p1.y && l.At(p2.x) == p2.y
  {
    var a := GetSlope(p1, p2);
    assert a * (p2.x - p1.x) == p2.y - p1.y;
    Line(a, -a * p1.x + p1.y)
  }

  function GetIntersection(l1: Line, l2: Line): (p: Point)
    requires l1.a != l2.a
    ensures l1.At(p.x) == p.y && l2.At(p.x) == p.y
  {
    var (a, b, c, d) := (l1.a, l2.a, l1.b, l2.b);
    var p := Point((d - c) / (a - b), (a * d - b * c) / (a - b));
    IntersectionOnBoth(a, b, c, d, p.x, p.y);
    p
  }

  lemma IntersectionOnBoth(a: real, b: real, c: real, d: real, x: real, y: real)
    requires a != b
    requires x == (d - c) / (a - b) && y == (a * d - b * c) / (a - b)
    ensures a * x + c == y && b * x + d == y
  {
    var m := a - b;
    assert x * m == d - c;
    assert y * m == a * d - b * c;
    assert (a * x + c) * m == a * (x * m) + c * m;
    assert a * (d - c) + c * m == y * m;
    assert (b * x + d) * m == b * (x * m) + d * m;
    assert b * (d - c) + d * m == y * m;
    CancelFactor(a * x + c, y, m);
    CancelFactor(b * x + d, y, m);
  }

  lemma CancelFactor(u: real, v: real, m: real)
    requires m != 0.0 && u * m == v * m
    ensures u == v
  {
    assert (u - v) * m == 0.0;
  }

  predicate IsAbove(pt: Point, l: Line) { pt.y > l.At(pt.x) }

  predicate IsBelow(pt: Point, l: Line) { pt.y < l.At(pt.x) }

  function GetUpperBound(pt: Point, gamma: real): Point { Point(pt.x, pt.y + gamma) }

  function GetLowerBound(pt: Point, gamma: real): Point { Point(pt.x, pt.y - gamma) }

  // ---------------------------------------------------------------- the cone

  /** The line of slope `m` through `c`. */
  function Through(c: Point, m: real): Line { Line(m, c.y - m * c.x) }

  /** Both bounding lines pass through `sint`, the upper one more steeply. */
  ghost predicate Cone(lo: Line, hi: Line, sint: Point) {
    && lo.At(sint.x) == sint.y
    && hi.At(sint.x) == sint.y
    && lo.a < hi.a
  }

  /** Both bounding lines stay within `gamma` of `p`. */
  ghost predicate Covers(lo: Line, hi: Line, gamma: real, p: Point) {
    Near(lo.At(p.x), p.y, gamma) && Near(hi.At(p.x), p.y, gamma)
  }

  lemma AtOffset(l: Line, c: Point, x: real)
    requires l.At(c.x) == c.y
    ensures l.At(x) == c.y + l.a * (x - c.x)
  {
    assert l.a * (x - c.x) == l.a * x - l.a * c.x;
  }

  /** What the two bounding lines satisfy, every line of the cone satisfies. */
  lemma EveryLineOfCone(lo: Line, hi: Line, sint: Point, gamma: real, p: Point, m: real)
    requires Cone(lo, hi, sint) && Covers(lo, hi, gamma, p)
    requires lo.a <= m <= hi.a
    ensures Near(Through(sint, m).At(p.x), p.y, gamma)
  {
    AtOffset(lo, sint, p.x);
    AtOffset(hi, sint, p.x);
    AtOffset(Through(sint, m), sint, p.x);
    hide Line.At, Near;
    BetweenSlopes(lo.a, m, hi.a, p.x - sint.x, sint.y, p.y, gamma);
  }

  ghost predicate Between(l: real, v: real, h: real) { l <= v <= h || h <= v <= l }

  lemma Sandwich(l: real, v: real, h: real, target: real, gamma: real)
    requires Between(l, v, h)
    requires Near(l, target, gamma) && Near(h, target, gamma)
    ensures Near(v, target, gamma)
  {
  }

  lemma MulBetween(lo: real, m: real, hi: real, dx: real, y: real)
    requires lo <= m <= hi
    ensures Between(y + lo * dx, y + m * dx, y + hi * dx)
  {
    if dx >= 0.0 {
      MulMonotone(lo, m, dx);
      MulMonotone(m, hi, dx);
    } else {
      MulMonotone(lo, m, -dx);
      MulMonotone(m, hi, -dx);
    }
  }

  lemma BetweenSlopes(lo: real, m: real, hi: real, dx: real, y: real, target: real, gamma: real)
    requires lo <= m <= hi
    requires Near(y + lo * dx, target, gamma) && Near(y + hi * dx, target, gamma)
    ensures Near(y + m * dx, target, gamma)
  {
    MulBetween(lo, m, hi, dx, y);
    Sandwich(y + lo * dx, y + m * dx, y + hi * dx, target, gamma);
  }

  lemma MulMonotone(u: real, v: real, w: real)
    requires u <= v && w >= 0.0
    ensures u * w <= v * w
  {
    assert (v - u) * w >= 0.0;
  }

  lemma MeanSlope(lo: real, hi: real)
    ensures lo <= hi ==> lo <= (lo + hi) / 2.0 <= hi
    ensures lo + hi > 0.0 ==> (lo + hi) / 2.0 > 0.0
  {
  }

  /** A narrower cone with the same centre keeps what the wider one covered. */
  lemma NarrowingKeepsCover(lo: Line, hi: Line, lo': Line, hi': Line, sint: Point, gamma: real, p: Point)
    requires Cone(lo, hi, sint) && Cone(lo', hi', sint)
    requires lo.a <= lo'.a && hi'.a <= hi.a
    requires Covers(lo, hi, gamma, p)
    ensures Covers(lo', hi', gamma, p)
  {
    EveryLineOfCone(lo, hi, sint, gamma, p, lo'.a);
    EveryLineOfCone(lo, hi, sint, gamma, p, hi'.a);
    assert Through(sint, lo'.a) == lo' by { assert lo'.b == sint.y - lo'.a * sint.x; }
    assert Through(sint, hi'.a) == hi' by { assert hi'.b == sint.y - hi'.a * sint.x; }
  }

  /** Right of a common point, lines are ordered as their slopes. */
  lemma SlopeOrder(l1: Line, l2: Line, c: Point, x: real)
    requires l1.At(c.x) == c.y && l2.At(c.x) == c.y && c.x < x
    ensures l1.At(x) < l2.At(x) <==> l1.a < l2.a
    ensures l1.a + l2.a > 0.0 <==> l1.At(x) + l2.At(x) > 2.0 * c.y
  {
    var dx := x - c.x;
    AtOffset(l1, c, x);
    AtOffset(l2, c, x);
    if l1.a < l2.a { assert (l2.a - l1.a) * dx > 0.0; } else { MulMonotone(l2.a, l1.a, dx); }
    assert (l1.a + l2.a) * dx == l1.At(x) + l2.At(x) - 2.0 * c.y;
    if l1.a + l2.a > 0.0 { assert (l1.a + l2.a) * dx > 0.0; } else { MulMonotone(l1.a + l2.a, 0.0, dx); }
  }

  lemma AtMidpoint(l: Line, x0: real, x1: real)
    ensures l.At((x0 + x1) / 2.0) == (l.At(x0) + l.At(x1)) / 2.0
  {
    assert l.a * ((x0 + x1) / 2.0) == (l.a * x0 + l.a * x1) / 2.0;
  }

  lemma SameProduct(d: real, u: real, v: real)
    requires u != v && u * d == v * d
    ensures d == 0.0
  {
    assert (u - v) * d == u * d - v * d;
    assert d * (u - v) == 0.0;
    CancelFactor(d, 0.0, u - v);
  }

  lemma MeetOnce(l1: Line, l2: Line, p: Point, q: Point)
    requires l1.a != l2.a
    requires l1.At(p.x) == p.y && l2.At(p.x) == p.y
    requires l1.At(q.x) == q.y && l2.At(q.x) == q.y
    ensures p == q
  {
    AtOffset(l1, p, q.x);
    AtOffset(l2, p, q.x);
    SameProduct(q.x - p.x, l1.a, l2.a);
  }

  /** The cone set up from two points: its centre is their midpoint, it covers
      both points, and its mean slope is the slope between them. */
  lemma InitialCone(s0: Point, s1: Point, gamma: real, lo: Line, hi: Line)
    requires s0.x < s1.x && gamma > 0.0
    requires lo == GetLine(GetUpperBound(s0, gamma), GetLowerBound(s1, gamma))
    requires hi == GetLine(GetLowerBound(s0, gamma), GetUpperBound(s1, gamma))
    ensures lo.a < hi.a
    ensures GetIntersection(hi, lo) == Point((s0.x + s1.x) / 2.0, (s0.y + s1.y) / 2.0)
    ensures Cone(lo, hi, GetIntersection(hi, lo))
    ensures Covers(lo, hi, gamma, s0) && Covers(lo, hi, gamma, s1)
    ensures s0.y < s1.y ==> lo.a + hi.a > 0.0
  {
    var mid := Point((s0.x + s1.x) / 2.0, (s0.y + s1.y) / 2.0);
    AtMidpoint(lo, s0.x, s1.x);
    AtMidpoint(hi, s0.x, s1.x);
    SlopeOrder(lo, hi, mid, s1.x);
    MeetOnce(hi, lo, GetIntersection(hi, lo), mid);
  }

  /** One step of the cone: the new bounding lines for an accepted point. */
  ghost predicate Narrowed(lo: Line, hi: Line, sint: Point, gamma: real, pt: Point, lo': Line, hi': Line)
    requires sint.x < pt.x
  {
    && hi' == (if IsBelow(GetUpperBound(pt, gamma), hi) then GetLine(sint, GetUpperBound(pt, gamma)) else hi)
    && lo' == (if IsAbove(GetLowerBound(pt, gamma), lo) then GetLine(sint, GetLowerBound(pt, gamma)) else lo)
  }

  /** An accepted point narrows the cone to one that still is a cone, covers the
      point, and keeps the mean slope positive. */
  lemma NarrowedCone(lo: Line, hi: Line, sint: Point, gamma: real, pt: Point, lo': Line, hi': Line)
    requires Cone(lo, hi, sint) && gamma > 0.0 && lo.a + hi.a > 0.0
    requires sint.x < pt.x && sint.y < pt.y
    requires IsAbove(pt, lo) && IsBelow(pt, hi)
    requires Narrowed(lo, hi, sint, gamma, pt, lo', hi')
    ensures Cone(lo', hi', sint)
    ensures lo.a <= lo'.a && hi'.a <= hi.a
    ensures Covers(lo', hi', gamma, pt)
    ensures lo'.a + hi'.a > 0.0
  {
    SlopeOrder(lo', hi', sint, pt.x);
    SlopeOrder(lo, lo', sint, pt.x);
    SlopeOrder(hi', hi, sint, pt.x);
  }

  // ---------------------------------------------------------------- what a stretch of points admits

  /** The midpoint of the first two points. */
  function Middle(pts: seq<Point>): Point
    requires |pts| >= 2
  {
    Point((pts[0].x + pts[1].x) / 2.0, (pts[0].y + pts[1].y) / 2.0)
  }

  /** The line of slope `m` through the midpoint of the first two points stays within `gamma` of all points. */
  ghost predicate Admits(pts: seq<Point>, gamma: real, m: real)
    requires |pts| >= 2
  {
    forall p <- pts :: Near(Through(Middle(pts), m).At(p.x), p.y, gamma)
  }

  /** Among the lines that the points admit one passes above `pt` and one below. */
  ghost predicate Joins(pts: seq<Point>, gamma: real, pt: Point)
    requires |pts| >= 2
  {
    && (exists m :: Admits(pts, gamma, m) && Through(Middle(pts), m).At(pt.x) > pt.y)
    && (exists m :: Admits(pts, gamma, m) && Through(Middle(pts), m).At(pt.x) < pt.y)
  }

  /** The slopes that the points admit are those from `lo` to `hi`. */
  ghost predicate AdmitsFrom(pts: seq<Point>, gamma: real, lo: real, hi: real)
    requires |pts| >= 2
  {
    forall m :: Admits(pts, gamma, m) <==> lo <= m <= hi
  }

  /** `seg` passes through the midpoint of the first two points, with the mean of the admitted slopes. */
  ghost predicate IsMean(seg: Segment, pts: seq<Point>, gamma: real)
    requires |pts| >= 2
  {
    && Line(seg.k, seg.b).At(Middle(pts).x) == Middle(pts).y
    && exists lo, hi :: AdmitsFrom(pts, gamma, lo, hi) && seg.k == (lo + hi) / 2.0
  }

  lemma ThroughItself(c: Point, l: Line)
    requires l.At(c.x) == c.y
    ensures Through(c, l.a) == l
  {
  }

  lemma ThroughPasses(c: Point, m: real)
    ensures Through(c, m).At(c.x) == c.y
  {
  }

  lemma AdmitsFewer(pts: seq<Point>, pt: Point, gamma: real, m: real)
    requires |pts| >= 2
    ensures Middle(pts + [pt]) == Middle(pts)
    ensures Admits(pts + [pt], gamma, m) <==>
      Admits(pts, gamma, m) && Near(Through(Middle(pts), m).At(pt.x), pt.y, gamma)
  {
    hide Near, Line.At, Through;
    assert Middle(pts + [pt]) == Middle(pts);
    assert pt in pts + [pt];
    if Admits(pts + [pt], gamma, m) {
      forall p <- pts
        ensures Near(Through(Middle(pts), m).At(p.x), p.y, gamma)
      {
        assert p in pts + [pt];
      }
    }
  }

  /** The slopes of the initial cone are exactly those that its two points admit. */
  lemma InitialAdmits(s0: Point, s1: Point, gamma: real, lo: Line, hi: Line)
    requires s0.x < s1.x && gamma > 0.0
    requires lo == GetLine(GetUpperBound(s0, gamma), GetLowerBound(s1, gamma))
    requires hi == GetLine(GetLowerBound(s0, gamma), GetUpperBound(s1, gamma))
    ensures AdmitsFrom([s0, s1], gamma, lo.a, hi.a)
  {
    var c := Middle([s0, s1]);
    InitialCone(s0, s1, gamma, lo, hi);
    forall m
      ensures Admits([s0, s1], gamma, m) <==> lo.a <= m <= hi.a
    {
      var l := Through(c, m);
      ThroughPasses(c, m);
      if Admits([s0, s1], gamma, m) {
        assert s1 in [s0, s1];
        SlopeOrder(l, lo, c, s1.x);
        SlopeOrder(hi, l, c, s1.x);
      }
      if lo.a <= m <= hi.a {
        EveryLineOfCone(lo, hi, c, gamma, s0, m);
        EveryLineOfCone(lo, hi, c, gamma, s1, m);
      }
    }
  }

  /** An accepted point narrows the admitted slopes as it narrows the cone. */
  lemma NarrowedAdmits(pts: seq<Point>, lo: Line, hi: Line, sint: Point, gamma: real, pt: Point, lo': Line, hi': Line)
    requires |pts| >= 2 && sint == Middle(pts) && AdmitsFrom(pts, gamma, lo.a, hi.a)
    requires Cone(lo, hi, sint) && gamma > 0.0 && sint.x < pt.x
    requires Narrowed(lo, hi, sint, gamma, pt, lo', hi')
    requires Cone(lo', hi', sint) && lo.a <= lo'.a && hi'.a <= hi.a && Covers(lo', hi', gamma, pt)
    ensures AdmitsFrom(pts + [pt], gamma, lo'.a, hi'.a)
  {
    forall m
      ensures Admits(pts + [pt], gamma, m) <==> lo'.a <= m <= hi'.a
    {
      AdmitsFewer(pts, pt, gamma, m);
      var l := Through(sint, m);
      ThroughPasses(sint, m);
      if Admits(pts + [pt], gamma, m) {
        SlopeOrder(l, lo', sint, pt.x);
        SlopeOrder(hi', l, sint, pt.x);
      }
      if lo'.a <= m <= hi'.a {
        EveryLineOfCone(lo', hi', sint, gamma, pt, m);
      }
    }
  }

  /** Strictly between the bounding lines of the admitted slopes is where a point can join. */
  lemma JoinsIff(pts: seq<Point>, gamma: real, pt: Point, lo: Line, hi: Line)
    requires |pts| >= 2 && AdmitsFrom(pts, gamma, lo.a, hi.a) && Cone(lo, hi, Middle(pts)) && Middle(pts).x < pt.x
    ensures Joins(pts, gamma, pt) <==> IsAbove(pt, lo) && IsBelow(pt, hi)
  {
    hide Admits;
    var c := Middle(pts);
    ThroughItself(c, lo);
    ThroughItself(c, hi);
    forall m | Admits(pts, gamma, m)
      ensures lo.At(pt.x) <= Through(c, m).At(pt.x) <= hi.At(pt.x)
    {
      ThroughPasses(c, m);
      SlopeOrder(Through(c, m), lo, c, pt.x);
      SlopeOrder(hi, Through(c, m), c, pt.x);
    }
    assert Admits(pts, gamma, lo.a) && Admits(pts, gamma, hi.a);
  }

  lemma ThroughCentre(c: Point, m: real, b: real)
    requires b == -m * c.x + c.y
    ensures Line(m, b) == Through(c, m)
  {
  }

  // ---------------------------------------------------------------- the machine

  ghost predicate Increasing(pts: seq<Point>) {
    forall i, j :: 0 <= i < j < |pts| ==> pts[i].x < pts[j].x && pts[i].y < pts[j].y
  }

  /** `seg` starts at the first of `pts` and predicts each of them within `gamma`. */
  ghost predicate Fits(seg: Segment, pts: seq<Point>, gamma: real) {
    && pts != []
    && seg.x == pts[0].x.Floor
    && forall p <- pts :: Near(Line(seg.k, seg.b).At(p.x), p.y, gamma)
  }

  class GreedyPlr {
    const gamma: real
    var state: State
    var lastPt: Point
    var s0: Point
    var s1: Point
    var rhoLower: Line
    var rhoUpper: Line
    var sint: Point

    /** The points of the segment under construction. */
    ghost var absorbed: seq<Point>

    ghost predicate Valid()
      reads this
    {
      && gamma > 0.0
      && Increasing(absorbed)
      && (forall p <- absorbed :: p.x >= 0.0)
      && (absorbed != [] ==> s0 == absorbed[0] && lastPt == absorbed[|absorbed| - 1])
      && (state.Need2? ==> absorbed == [])
      && (state.Need1? ==> |absorbed| == 1)
      && (state.Ready? ==> |absorbed| >= 2 && ConeInvariant())
    }

    ghost predicate ConeInvariant()
      requires |absorbed| >= 2
      reads this
    {
      && Cone(rhoLower, rhoUpper, sint)
      && sint == Middle(absorbed) && AdmitsFrom(absorbed, gamma, rhoLower.a, rhoUpper.a)
      && rhoLower.a + rhoUpper.a > 0.0
      && sint.x < absorbed[1].x && sint.y < absorbed[1].y
      && (forall p <- absorbed :: Covers(rhoLower, rhoUpper, gamma, p))
    }

    /** `pt` may follow the points seen so far. */
    ghost predicate Follows(pt: Point)
      reads this
    {
      && pt.x >= 0.0
      && (absorbed != [] ==> lastPt.x < pt.x && lastPt.y < pt.y)
    }

    constructor (gamma: real)
      requires gamma > 0.0
      ensures Valid() && state == Need2 && this.gamma == gamma
    {
      this.gamma := gamma;
      state := Need2;
      absorbed := [];
    }

    method Setup()
      requires s0.x < s1.x && s0.y < s1.y && gamma > 0.0
      requires absorbed == [s0, s1]
      modifies `rhoLower, `rhoUpper, `sint
      ensures ConeInvariant()
    {
      rhoLower := GetLine(GetUpperBound(s0, gamma), GetLowerBound(s1, gamma));
      rhoUpper := GetLine(GetLowerBound(s0, gamma), GetUpperBound(s1, gamma));
      InitialCone(s0, s1, gamma, rhoLower, rhoUpper);
      InitialAdmits(s0, s1, gamma, rhoLower, rhoUpper);
      sint := GetIntersection(rhoUpper, rhoLower);
    }

    /** The mean slope of the cone, through its centre. */
    method CurrentSegment() returns (s: Segment)
      requires Valid() && state.Ready?
      ensures Fits(s, absorbed, gamma) && s.k > 0.0 && IsMean(s, absorbed, gamma)
    {
      MeanSlope(rhoLower.a, rhoUpper.a);
      hide Near, Covers, Line.At;
      var avgSlope := (rhoLower.a + rhoUpper.a) / 2.0;
      var intercept := -avgSlope * sint.x + sint.y;
      s := Segment(s0.x.Floor, avgSlope, intercept);
      ThroughCentre(sint, s.k, s.b);
      ThroughPasses(sint, s.k);
      forall p <- absorbed
        ensures Near(Line(s.k, s.b).At(p.x), p.y, gamma)
      {
        ConeBound(p, s.k);
      }
    }

    /** Every line through `sint` with a slope between the two bounding slopes
        stays within `gamma` of every point absorbed so far. */
    lemma ConeBound(p: Point, m: real)
      requires Valid() && state.Ready?
      requires p in absorbed && rhoLower.a <= m <= rhoUpper.a
      ensures Near(Through(sint, m).At(p.x), p.y, gamma)
    {
      EveryLineOfCone(rhoLower, rhoUpper, sint, gamma, p, m);
    }

    /** Takes the next point.  Either it joins the segment under construction
        and nothing is emitted, or the emitted segment fits everything absorbed
        so far and a new segment starts: at `pt`, or in level mode, when `pt`
        is the largest key of a file, at the point before it.  It joins exactly
        if lines that the points so far admit pass on both sides of it. */
    method Process(pt: Point, file: bool) returns (s: Segment)
      requires Valid() && !state.Finished? && Follows(pt)
      modifies this
      ensures Valid() && !state.Finished?
      ensures s == NO_SEGMENT ==> absorbed == old(absorbed) + [pt]
      ensures s != NO_SEGMENT ==>
        && |old(absorbed)| >= 2
        && Fits(s, old(absorbed), gamma) && s.k > 0.0 && IsMean(s, old(absorbed), gamma)
        && absorbed == if !file && pt.y.Floor % 2 == 1 then [old(lastPt), pt] else [pt]
      ensures |old(absorbed)| >= 2 ==> (s == NO_SEGMENT <==> Joins(old(absorbed), gamma, pt))
      ensures old(state) == Need2 ==> state == Need1
      ensures old(state) == Need1 ==> state == Ready
    {
      hide Near, Admits, Joins, IsMean, Covers, AdmitsFrom, Line.At, Middle, Fits;
      s := NO_SEGMENT;
      if state == Need2 {
        s0 := pt;
        state := Need1;
        absorbed := [pt];
        lastPt := pt;
      } else if state == Need1 {
        s1 := pt;
        absorbed := absorbed + [pt];
        lastPt := pt;
        Setup();
        state := Ready;
      } else {
        s := ProcessReady(pt, file);
        lastPt := pt;
      }
    }

    method ProcessReady(pt: Point, file: bool) returns (s: Segment)
      requires Valid() && state.Ready? && Follows(pt)
      modifies `state, `s0, `s1, `rhoLower, `rhoUpper, `sint, `absorbed
      ensures absorbed != [] && absorbed[|absorbed| - 1] == pt && s0 == absorbed[0]
      ensures Increasing(absorbed) && (forall p <- absorbed :: p.x >= 0.0)
      ensures state == Need1 ==> |absorbed| == 1
      ensures state == Ready ==> |absorbed| >= 2 && ConeInvariant()
      ensures state == Need1 || state == Ready
      ensures s == NO_SEGMENT <==> Joins(old(absorbed), gamma, pt)
      ensures s == NO_SEGMENT ==> absorbed == old(absorbed) + [pt]
      ensures s != NO_SEGMENT ==>
        && Fits(s, old(absorbed), gamma) && s.k > 0.0 && IsMean(s, old(absorbed), gamma)
        && absorbed == if !file && pt.y.Floor % 2 == 1 then [lastPt, pt] else [pt]
    {
      hide Near, Admits, Joins, IsMean, Covers, AdmitsFrom, Line.At, Middle;
      JoinsIff(absorbed, gamma, pt, rhoLower, rhoUpper);
      if !(IsAbove(pt, rhoLower) && IsBelow(pt, rhoUpper)) {
        s := CurrentSegment();
        if !file && pt.y.Floor % 2 == 1 {
          s0 := lastPt;
          s1 := pt;
          absorbed := [lastPt, pt];
          Setup();
          state := Ready;
        } else {
          s0 := pt;
          absorbed := [pt];
          state := Need1;
        }
        return;
      }
      Narrow(pt);
      s := NO_SEGMENT;
    }

    /** Narrows the cone to what an accepted point still allows. */
    method Narrow(pt: Point)
      requires Valid() && state.Ready? && Follows(pt)
      requires IsAbove(pt, rhoLower) && IsBelow(pt, rhoUpper)
      modifies `rhoLower, `rhoUpper, `absorbed
      ensures absorbed == old(absorbed) + [pt] && ConeInvariant()
    {
      var sUpper := GetUpperBound(pt, gamma);
      var sLower := GetLowerBound(pt, gamma);
      ghost var (lo, hi) := (rhoLower, rhoUpper);
      assert sint.x < pt.x && sint.y < pt.y;
      if IsBelow(sUpper, rhoUpper) {
        rhoUpper := GetLine(sint, sUpper);
      }
      if IsAbove(sLower, rhoLower) {
        rhoLower := GetLine(sint, sLower);
      }
      NarrowedCone(lo, hi, sint, gamma, pt, rhoLower, rhoUpper);
      forall p <- absorbed
        ensures Covers(rhoLower, rhoUpper, gamma, p)
      {
        NarrowingKeepsCover(lo, hi, rhoLower, rhoUpper, sint, gamma, p);
      }
      NarrowedAdmits(absorbed, lo, hi, sint, gamma, pt, rhoLower, rhoUpper);
      absorbed := absorbed + [pt];
    }

    /** The last segment; a lone point gives a constant one. */
    method Finish() returns (s: Segment)
      requires Valid() && !state.Finished?
      modifies `state
      ensures state == Finished
      ensures old(state) == Need2 ==> s == NO_SEGMENT
      ensures old(state) != Need2 ==> Fits(s, absorbed, gamma)
      ensures old(state) == Need1 ==> s == Segment(absorbed[0].x.Floor, 0.0, absorbed[0].y)
      ensures old(state) == Ready ==> s.k > 0.0 && IsMean(s, absorbed, gamma)
    {
      if state == Need2 {
        s := NO_SEGMENT;
      } else if state == Need1 {
        s := Segment(s0.x.Floor, 0.0, s0.y);
      } else {
        s := CurrentSegment();
      }
      state := Finished;
    }
  }
}
