/**
 How many segments the greedy training makes (mod/plr.cpp).

 Whatever stretch of keys one line predicts within less than half of gamma, a
 segment that starts in it reaches its end.  So training with gamma never makes
 more segments than the best piecewise linear fit with any smaller half.
 */
module GreedyBound {
  import opened Plr
  import opened LearnedIndex

  /** The line stays within `delta` of the points from `first` up to `end`. */
  ghost predicate Follows(l: Line, pts: seq<Point>, first: nat, end: nat, delta: real)
    requires end <= |pts|
  {
    forall k :: first <= k < end ==> Near(l.At(pts[k].x), pts[k].y, delta)
  }

  /** On the way from its centre to `target` a line leaves neither by more than it may. */
  lemma Within(o: real, e: real, t: real, d: real, target: real, r: real, gamma: real, delta: real)
    requires 0.0 <= t <= d && e * d == target - o && 2.0 * delta < gamma
    requires -delta <= o <= delta && -delta <= r <= delta && (target == gamma - delta || target == delta - gamma)
    ensures -gamma <= o + e * t + r <= gamma
  {
    if e >= 0.0 {
      MulMonotone(t, d, e);
      MulMonotone(0.0, t, e);
    } else {
      MulMonotone(t, d, -e);
      MulMonotone(0.0, t, -e);
    }
  }

  /** Behind its target the line is still further out. */
  lemma Beyond(o: real, e: real, t: real, d: real, target: real, delta: real, gamma: real)
    requires 0.0 < d < t && e * d == target - o && 2.0 * delta < gamma && -delta <= o <= delta
    ensures target == gamma - delta ==> o + e * t > target
    ensures target == delta - gamma ==> o + e * t < target
  {
    assert e * t == e * d + e * (t - d);
    if target == gamma - delta {
      assert e > 0.0 by { if e <= 0.0 { MulMonotone(e, 0.0, d); } }
      assert e * (t - d) > 0.0;
    } else if target == delta - gamma {
      assert e < 0.0 by { if e >= 0.0 { MulMonotone(0.0, e, d); } }
      assert (-e) * (t - d) > 0.0;
    }
  }

  /** A line through the centre, measured against another line. */
  lemma Against(c: Point, l: Line, e: real, x: real)
    ensures Through(c, l.a + e).At(x) == l.At(x) + (c.y - l.At(c.x)) + e * (x - c.x)
  {
    assert (l.a + e) * x == l.a * x + e * x;
    assert (l.a + e) * c.x == l.a * c.x + e * c.x;
    assert e * (x - c.x) == e * x - e * c.x;
  }

  /** The centre of a stretch is as near to a line as its first two points are. */
  lemma CentreNear(pts: seq<Point>, l: Line, delta: real)
    requires |pts| >= 2 && Near(l.At(pts[0].x), pts[0].y, delta) && Near(l.At(pts[1].x), pts[1].y, delta)
    ensures Near(l.At(Middle(pts).x), Middle(pts).y, delta)
  {
    AtMidpoint(l, pts[0].x, pts[1].x);
  }

  /** A line through the centre misses the first two points by the same amount. */
  lemma Balanced(pts: seq<Point>, m: real, gamma: real)
    requires |pts| >= 2
    ensures var l := Through(Middle(pts), m);
      Near(l.At(pts[1].x), pts[1].y, gamma) ==> Near(l.At(pts[0].x), pts[0].y, gamma)
  {
    AtMidpoint(Through(Middle(pts), m), pts[0].x, pts[1].x);
    ThroughPasses(Middle(pts), m);
  }

  lemma RightOfCentre(pts: seq<Point>)
    requires |pts| >= 2 && Increasing(pts)
    ensures forall k :: 1 <= k < |pts| ==> Middle(pts).x < pts[k].x <= pts[|pts| - 1].x
  {
  }

  lemma FollowsAt(l: Line, pts: seq<Point>, k: nat, delta: real)
    requires k < |pts| && Follows(l, pts, 0, |pts|, delta)
    ensures Near(l.At(pts[k].x), pts[k].y, delta)
  {
  }

  lemma OffsetBound(c: Point, l: Line, delta: real)
    requires Near(l.At(c.x), c.y, delta)
    ensures -delta <= c.y - l.At(c.x) <= delta
  {
  }

  lemma Quotient(a: real, d: real) returns (e: real)
    requires d > 0.0
    ensures e * d == a
  {
    e := a / d;
  }

  /** `e` leads from the centre of the stretch to `target` off `l` at its last point. */
  ghost predicate LeadsTo(pts: seq<Point>, l: Line, e: real, target: real)
    requires |pts| >= 2
  {
    var c := Middle(pts);
    e * (pts[|pts| - 1].x - c.x) == target - (c.y - l.At(c.x))
  }

  lemma NearAt(pts: seq<Point>, l: Line, e: real, target: real, p: Point, gamma: real, delta: real)
    requires |pts| >= 2 && LeadsTo(pts, l, e, target) && Middle(pts).x < p.x <= pts[|pts| - 1].x
    requires 2.0 * delta < gamma && (target == gamma - delta || target == delta - gamma)
    requires Near(l.At(Middle(pts).x), Middle(pts).y, delta) && Near(l.At(p.x), p.y, delta)
    ensures Near(Through(Middle(pts), l.a + e).At(p.x), p.y, gamma)
  {
    var c := Middle(pts);
    Against(c, l, e, p.x);
    hide Line.At;
    Within(c.y - l.At(c.x), e, p.x - c.x, pts[|pts| - 1].x - c.x, target, l.At(p.x) - p.y, gamma, delta);
  }

  lemma FanAdmits(pts: seq<Point>, l: Line, gamma: real, delta: real, e: real, target: real)
    requires |pts| >= 2 && Increasing(pts) && 2.0 * delta < gamma && Follows(l, pts, 0, |pts|, delta)
    requires (target == gamma - delta || target == delta - gamma) && LeadsTo(pts, l, e, target)
    ensures Admits(pts, gamma, l.a + e)
  {
    CentreNear(pts, l, delta);
    RightOfCentre(pts);
    hide *;
    forall k | 1 <= k < |pts|
      ensures Near(Through(Middle(pts), l.a + e).At(pts[k].x), pts[k].y, gamma)
    {
      FollowsAt(l, pts, k, delta);
      NearAt(pts, l, e, target, pts[k], gamma, delta);
    }
    Balanced(pts, l.a + e, gamma);
    AdmitsAll(pts, gamma, l.a + e);
  }

  lemma FanBeyond(pts: seq<Point>, l: Line, gamma: real, delta: real, e: real, pt: Point, target: real)
    requires |pts| >= 2 && Increasing(pts) && 2.0 * delta < gamma && Follows(l, pts, 0, |pts|, delta)
    requires LeadsTo(pts, l, e, target) && pts[|pts| - 1].x < pt.x
    ensures target == gamma - delta ==> Through(Middle(pts), l.a + e).At(pt.x) - l.At(pt.x) > target
    ensures target == delta - gamma ==> Through(Middle(pts), l.a + e).At(pt.x) - l.At(pt.x) < target
  {
    CentreNear(pts, l, delta);
    RightOfCentre(pts);
    BeyondAt(Middle(pts), l, gamma, delta, e, pts[|pts| - 1].x, pt.x, target);
  }

  lemma BeyondAt(c: Point, l: Line, gamma: real, delta: real, e: real, last: real, x: real, target: real)
    requires 2.0 * delta < gamma && c.x < last < x && e * (last - c.x) == target - (c.y - l.At(c.x))
    requires Near(l.At(c.x), c.y, delta)
    ensures target == gamma - delta ==> Through(c, l.a + e).At(x) - l.At(x) > target
    ensures target == delta - gamma ==> Through(c, l.a + e).At(x) - l.At(x) < target
  {
    OffsetBound(c, l, delta);
    Against(c, l, e, x);
    hide *;
    Beyond(c.y - l.At(c.x), e, x - c.x, last - c.x, target, delta, gamma);
  }

  /** Of the lines that a stretch near `l` admits, one is more than `target` off `l` behind the stretch. */
  lemma Fan(pts: seq<Point>, l: Line, gamma: real, delta: real, pt: Point, target: real) returns (m: real)
    requires |pts| >= 2 && Increasing(pts) && 2.0 * delta < gamma
    requires Follows(l, pts, 0, |pts|, delta) && pts[|pts| - 1].x < pt.x
    requires target == gamma - delta || target == delta - gamma
    ensures Admits(pts, gamma, m)
    ensures target == gamma - delta ==> Through(Middle(pts), m).At(pt.x) - l.At(pt.x) > target
    ensures target == delta - gamma ==> Through(Middle(pts), m).At(pt.x) - l.At(pt.x) < target
  {
    RightOfCentre(pts);
    hide Line.At, Through, Increasing, Follows, Middle, Admits;
    var c := Middle(pts);
    var e := Quotient(target - (c.y - l.At(c.x)), pts[|pts| - 1].x - c.x);
    assert LeadsTo(pts, l, e, target);
    hide LeadsTo;
    FanAdmits(pts, l, gamma, delta, e, target);
    FanBeyond(pts, l, gamma, delta, e, pt, target);
    m := l.a + e;
  }

  lemma AdmitsAll(pts: seq<Point>, gamma: real, m: real)
    requires |pts| >= 2
    requires forall k :: 0 <= k < |pts| ==> Near(Through(Middle(pts), m).At(pts[k].x), pts[k].y, gamma)
    ensures Admits(pts, gamma, m)
  {
  }

  /** The next point that a line follows can join. */
  lemma NearJoins(pts: seq<Point>, l: Line, gamma: real, delta: real, pt: Point)
    requires |pts| >= 2 && Increasing(pts) && 0.0 <= delta && 2.0 * delta < gamma
    requires Follows(l, pts, 0, |pts|, delta) && pts[|pts| - 1].x < pt.x && Near(l.At(pt.x), pt.y, delta)
    ensures Joins(pts, gamma, pt)
  {
    var up := Fan(pts, l, gamma, delta, pt, gamma - delta);
    var down := Fan(pts, l, gamma, delta, pt, delta - gamma);
    hide Admits, Through, Follows, Increasing;
    assert Admits(pts, gamma, up) && Through(Middle(pts), up).At(pt.x) > pt.y;
    assert Admits(pts, gamma, down) && Through(Middle(pts), down).At(pt.x) < pt.y;
  }

  lemma PointsIncrease(keys: seq<nat>)
    requires StrictlyIncreasing(keys)
    ensures Increasing(Points(keys))
  {
  }

  /** A segment that starts where a line follows the points does not end before the line does. */
  lemma ReachesEnd(pts: seq<Point>, l: Line, gamma: real, delta: real, first: nat, reached: nat, end: nat)
    requires Increasing(pts) && 0.0 <= delta && 2.0 * delta < gamma
    requires first <= end <= |pts| && Follows(l, pts, first, end, delta) && Maximal(pts, first, reached, gamma)
    ensures end <= reached
  {
    if reached < end {
      var part := pts[first..reached];
      assert first + 2 <= reached && !Joins(part, gamma, pts[reached]);
      FollowsPart(pts, l, delta, first, reached, end);
      hide *;
      NearJoins(part, l, gamma, delta, pts[reached]);
    }
  }

  lemma FollowsPart(pts: seq<Point>, l: Line, delta: real, first: nat, reached: nat, end: nat)
    requires Increasing(pts) && first < reached < end <= |pts| && Follows(l, pts, first, end, delta)
    ensures var part := pts[first..reached];
      && Increasing(part) && Follows(l, part, 0, |part|, delta) && part[|part| - 1].x < pts[reached].x
      && Near(l.At(pts[reached].x), pts[reached].y, delta)
  {
    hide Near;
  }

  /** Where piece `j` begins. */
  function Begin(ends: seq<nat>, j: nat): nat
    requires j <= |ends|
  {
    if j == 0 then 0 else ends[j - 1]
  }

  /** Consecutive pieces of the keys, each followed by a line within `delta`; those of a
      level end where files end. */
  ghost predicate Pieces(ends: seq<nat>, lines: seq<Line>, keys: seq<nat>, file: bool, delta: real) {
    && |ends| == |lines| > 0 && ends[|ends| - 1] == |keys|
    && (forall j :: 0 <= j < |ends| ==> Begin(ends, j) <= ends[j] <= |keys|)
    && (forall j :: 0 <= j < |ends| ==> Follows(lines[j], Points(keys), Begin(ends, j), ends[j], delta))
    && (!file ==> AllEven(ends))
  }

  lemma FollowsLater(l: Line, pts: seq<Point>, begin: nat, first: nat, end: nat, delta: real)
    requires begin <= first && end <= |pts| && Follows(l, pts, begin, end, delta)
    ensures Follows(l, pts, first, end, delta)
  {
  }

  /** Segment `j` reaches at least as far as piece `j`. */
  lemma {:induction false} KeepsUp(segs: seq<Segment>, cuts: seq<nat>, breaks: seq<nat>, keys: seq<nat>, file: bool,
                                   gamma: real, ends: seq<nat>, lines: seq<Line>, delta: real, j: nat)
    requires StrictlyIncreasing(keys) && 0.0 <= delta && 2.0 * delta < gamma
    requires Greedy(segs, cuts, breaks, keys, file, gamma) && Pieces(ends, lines, keys, file, delta)
    requires j < |segs| && j < |ends|
    ensures ends[j] <= breaks[j]
  {
    hide Follows, Points, Maximal, IsMean, StrictlyIncreasing;
    assert Closed(segs[j], cuts[j], breaks[j], Points(keys), gamma);
    hide Closed;
    assert Begin(ends, j) <= cuts[j] by {
      if j > 0 {
        KeepsUp(segs, cuts, breaks, keys, file, gamma, ends, lines, delta, j - 1);
        assert cuts[j - 1 + 1] == RestartAt(breaks[j - 1], file);
      }
    }
    if cuts[j] < ends[j] {
      PointsIncrease(keys);
      FollowsLater(lines[j], Points(keys), Begin(ends, j), cuts[j], ends[j], delta);
      ReachesEnd(Points(keys), lines[j], gamma, delta, cuts[j], breaks[j], ends[j]);
    } else {
      StretchNotEmpty(Points(keys), cuts[j], breaks[j], gamma);
    }
  }

  lemma StretchNotEmpty(pts: seq<Point>, first: nat, end: nat, gamma: real)
    requires Maximal(pts, first, end, gamma)
    ensures first < end
  {
  }

  /** If lines follow the keys in n consecutive pieces within less than half of gamma,
      training with gamma makes at most n segments. */
  lemma FewSegments(segs: seq<Segment>, cuts: seq<nat>, breaks: seq<nat>, keys: seq<nat>, file: bool, gamma: real,
                    ends: seq<nat>, lines: seq<Line>, delta: real)
    requires StrictlyIncreasing(keys) && 0.0 <= delta && 2.0 * delta < gamma
    requires Greedy(segs, cuts, breaks, keys, file, gamma) && Pieces(ends, lines, keys, file, delta)
    ensures |segs| <= |ends|
  {
    hide Follows, Points, Closed, StrictlyIncreasing;
    if |ends| < |segs| {
      var j := |ends| - 1;
      assert breaks[j] < |keys|;
      KeepsUp(segs, cuts, breaks, keys, file, gamma, ends, lines, delta, j);
    }
  }

  /** Keys whose positions lie on one line get one segment. */
  lemma OneLineOneSegment(segs: seq<Segment>, cuts: seq<nat>, breaks: seq<nat>, keys: seq<nat>, file: bool, gamma: real,
                          l: Line)
    requires StrictlyIncreasing(keys) && gamma > 0.0 && (!file ==> |keys| % 2 == 0)
    requires Greedy(segs, cuts, breaks, keys, file, gamma)
    requires forall i :: 0 <= i < |keys| ==> l.At(keys[i] as real) == i as real
    ensures |segs| == 1
  {
    hide Closed, StrictlyIncreasing;
    assert Begin([|keys|], 0) == 0;
    assert Pieces([|keys|], [l], keys, file, 0.0);
    FewSegments(segs, cuts, breaks, keys, file, gamma, [|keys|], [l], 0.0);
  }
}
