/** The higher-order Newton polygon of an OM-tree frame: a monotone-chain lower
    convex hull over the points (i, v_i) of the phi-expansion valuations, whose
    collinear edges are then merged into segments. Valuations are exact
    rationals (`real`); the only infinite valuation is the one of the zero
    constant coefficient when phi divides Phi. */
module NewtonPolygon {
  import opened Outcomes

  datatype Point = Point(x: int, y: real)

  /** A segment of the polygon: a finite negated slope with the points on it,
      or the segment of slope +infinity from (0, infinity) down to `end`. */
  datatype Segment =
    | Sloped(slope: real, verts: seq<Point>)
    | Vertical(end: Point)

  /** Twice the signed area of the triangle o, a, b: positive when b lies to the
      left of the ray from o through a. */
  function Cross(o: Point, a: Point, b: Point): real {
    ((a.x - o.x) as real) * (b.y - o.y) - (a.y - o.y) * ((b.x - o.x) as real)
  }

  /** The negated slope of the edge from u to v (v to the right of u). */
  function NegSlope(u: Point, v: Point): real {
    if u.x < v.x then (u.y - v.y) / ((v.x - u.x) as real) else 0.0
  }

  // ---------------------------------------------------------------------
  // The lower hull

  /** `lower` lists points of `a`, by strictly increasing index, from index 0. */
  ghost predicate IsChainOf(a: seq<real>, lower: seq<Point>) {
    && |lower| >= 1
    && lower[0].x == 0
    && (forall k :: 0 <= k < |lower| ==> 0 <= lower[k].x < |a| && lower[k].y == a[lower[k].x])
    && Increasing(lower)
  }

  /** Points listed by strictly increasing index. */
  ghost predicate Increasing(pts: seq<Point>) {
    forall k :: 0 <= k < |pts| - 1 ==> pts[k].x < pts[k + 1].x
  }

  /** No right turn anywhere along the chain. */
  ghost predicate Convex(lower: seq<Point>) {
    forall k :: 0 <= k < |lower| - 2 ==> Cross(lower[k], lower[k + 1], lower[k + 2]) >= 0.0
  }

  /** The first n points of `a` lie on or above the line of every edge. */
  ghost predicate Supports(a: seq<real>, lower: seq<Point>, n: int)
    requires n <= |a|
  {
    forall k, j :: 0 <= k < |lower| - 1 && 0 <= j < n ==> Cross(lower[k], lower[k + 1], Point(j, a[j])) >= 0.0
  }

  /** Every point of `a` whose index lies strictly inside an edge lies strictly
      above it: points on the boundary are vertices of the chain. */
  ghost predicate Tight(a: seq<real>, lower: seq<Point>)
    requires IsChainOf(a, lower)
  {
    forall k, j :: 0 <= k < |lower| - 1 && lower[k].x < j < lower[k + 1].x ==>
      Cross(lower[k], lower[k + 1], Point(j, a[j])) > 0.0
  }

  /** `lower` is the lower convex hull of the points (i, a[i]), from the first
      point to the last, with every point on its boundary as a vertex. */
  ghost predicate IsLowerHull(a: seq<real>, lower: seq<Point>) {
    && IsChainOf(a, lower)
    && lower[|lower| - 1].x == |a| - 1
    && Convex(lower)
    && Supports(a, lower, |a|)
    && Tight(a, lower)
  }

  lemma CrossSwap(o: Point, a: Point, b: Point)
    ensures Cross(o, b, a) == -Cross(o, a, b)
  {
  }

  lemma StepLeft(a: Point, b: Point, c: Point, p: Point)
    requires a.x < b.x < c.x && b.x < p.x
    requires Cross(a, b, c) >= 0.0 && Cross(b, c, p) >= 0.0
    ensures Cross(a, b, p) >= 0.0
  {
  }

  lemma PopInner(u: Point, j: Point, q: Point, p: Point)
    requires u.x < j.x < q.x < p.x
    requires Cross(u, q, j) > 0.0 && Cross(u, q, p) < 0.0
    ensures Cross(u, p, j) > 0.0
  {
  }

  lemma PopOuter(u: Point, q: Point, j: Point, p: Point)
    requires u.x < q.x < j.x < p.x
    requires Cross(q, p, j) > 0.0 && Cross(u, q, p) < 0.0
    ensures Cross(u, p, j) > 0.0
  {
    var w := (p.x - q.x) as real;
    assert w * Cross(u, p, j) == ((p.x - u.x) as real) * Cross(q, p, j) - ((p.x - j.x) as real) * Cross(u, q, p);
    assert ((p.x - u.x) as real) * Cross(q, p, j) > 0.0;
    assert ((p.x - j.x) as real) * Cross(u, q, p) < 0.0;
  }

  lemma PushLeft(prev: Point, last: Point, j: Point, p: Point)
    requires j.x < last.x && prev.x < last.x < p.x
    requires Cross(prev, last, j) >= 0.0 && Cross(prev, last, p) >= 0.0
    ensures Cross(last, p, j) >= 0.0
  {
  }

  /** A point beyond the end of a convex chain that is on or above the line of
      the chain's last edge is on or above the line of every edge from k on. */
  lemma {:induction false} AboveFrom(lower: seq<Point>, p: Point, k: nat)
    requires |lower| >= 2 && k <= |lower| - 2
    requires Increasing(lower)
    requires p.x > lower[|lower| - 1].x
    requires Convex(lower)
    requires Cross(lower[|lower| - 2], lower[|lower| - 1], p) >= 0.0
    ensures lower[k].x < p.x
    ensures forall i :: k <= i < |lower| - 1 ==> Cross(lower[i], lower[i + 1], p) >= 0.0
    decreases |lower| - k
  {
    if k < |lower| - 2 {
      AboveFrom(lower, p, k + 1);
      StepLeft(lower[k], lower[k + 1], lower[k + 2], p);
    }
  }

  /** The state of the hull before point i is pushed: a convex chain from
      index 0 whose edges support and tightly bound the points before i, and
      every point between its last vertex and i lies strictly above the line
      from the last vertex to (i, a[i]). */
  ghost predicate PopState(a: seq<real>, lower: seq<Point>, i: int)
    requires 0 < i < |a|
  {
    && IsChainOf(a, lower) && lower[0] == Point(0, a[0])
    && lower[|lower| - 1].x < i
    && Convex(lower)
    && Supports(a, lower, i)
    && Tight(a, lower)
    && (forall j :: lower[|lower| - 1].x < j < i ==> Cross(lower[|lower| - 1], Point(i, a[i]), Point(j, a[j])) > 0.0)
  }

  /** Popping a last vertex q that makes a strict right turn: every point
      after the new last vertex u lies strictly above the line from u to
      (i, a[i]). */
  lemma PopGap(a: seq<real>, lower: seq<Point>, i: int)
    requires 0 < i < |a| && PopState(a, lower, i) && |lower| >= 2
    requires Cross(lower[|lower| - 2], lower[|lower| - 1], Point(i, a[i])) < 0.0
    ensures forall j :: lower[|lower| - 2].x < j < i ==> Cross(lower[|lower| - 2], Point(i, a[i]), Point(j, a[j])) > 0.0
  {
    var p := Point(i, a[i]);
    var u, q := lower[|lower| - 2], lower[|lower| - 1];
    forall j | u.x < j < i
      ensures Cross(u, p, Point(j, a[j])) > 0.0
    {
      if j < q.x {
        assert Cross(lower[|lower| - 2], lower[|lower| - 1], Point(j, a[j])) > 0.0;
        PopInner(u, Point(j, a[j]), q, p);
      } else if j == q.x {
        assert Point(j, a[j]) == q;
        CrossSwap(u, q, p);
      } else {
        PopOuter(u, q, Point(j, a[j]), p);
      }
    }
  }

  /** Popping a last vertex that makes a strict right turn keeps the state. */
  lemma PopKeeps(a: seq<real>, lower: seq<Point>, i: int)
    requires 0 < i < |a| && PopState(a, lower, i) && |lower| >= 2
    requires Cross(lower[|lower| - 2], lower[|lower| - 1], Point(i, a[i])) < 0.0
    ensures PopState(a, lower[..|lower| - 1], i)
  {
    PopGap(a, lower, i);
    PrefixKeeps(a, lower, i);
  }

  /** Dropping the last vertex keeps a chain, convex, supporting and tight. */
  lemma PrefixKeeps(a: seq<real>, lower: seq<Point>, i: int)
    requires 0 < i < |a| && PopState(a, lower, i) && |lower| >= 2
    ensures IsChainOf(a, lower[..|lower| - 1])
    ensures Convex(lower[..|lower| - 1])
    ensures Supports(a, lower[..|lower| - 1], i)
    ensures Tight(a, lower[..|lower| - 1])
  {
    PrefixChain(a, lower, i);
    PrefixConvex(a, lower, i);
    PrefixSupports(a, lower, i);
    PrefixTight(a, lower, i);
  }

  lemma PrefixChain(a: seq<real>, lower: seq<Point>, i: int)
    requires 0 < i < |a| && PopState(a, lower, i) && |lower| >= 2
    ensures IsChainOf(a, lower[..|lower| - 1])
  {
  }

  lemma PrefixConvex(a: seq<real>, lower: seq<Point>, i: int)
    requires 0 < i < |a| && PopState(a, lower, i) && |lower| >= 2
    ensures Convex(lower[..|lower| - 1])
  {
  }

  lemma PrefixSupports(a: seq<real>, lower: seq<Point>, i: int)
    requires 0 < i < |a| && PopState(a, lower, i) && |lower| >= 2
    ensures Supports(a, lower[..|lower| - 1], i)
  {
  }

  lemma PrefixTight(a: seq<real>, lower: seq<Point>, i: int)
    requires 0 < i < |a| && PopState(a, lower, i) && |lower| >= 2
    ensures IsChainOf(a, lower[..|lower| - 1])
    ensures Tight(a, lower[..|lower| - 1])
  {
  }

  /** Pushing (i, a[i]) once the last vertex makes no strict right turn: the
      new edge from the last vertex to (i, a[i]) supports the first i + 1
      points, and (i, a[i]) is on or above every older edge. */
  lemma PushSupports(a: seq<real>, lower: seq<Point>, i: int)
    requires 0 < i < |a| && PopState(a, lower, i)
    requires |lower| >= 2 ==> Cross(lower[|lower| - 2], lower[|lower| - 1], Point(i, a[i])) >= 0.0
    ensures forall j :: 0 <= j <= i ==> Cross(lower[|lower| - 1], Point(i, a[i]), Point(j, a[j])) >= 0.0
    ensures forall k :: 0 <= k < |lower| - 1 ==> Cross(lower[k], lower[k + 1], Point(i, a[i])) >= 0.0
  {
    var p := Point(i, a[i]);
    var last := lower[|lower| - 1];
    if |lower| >= 2 {
      AboveFrom(lower, p, 0);
      var prev := lower[|lower| - 2];
      forall j | 0 <= j < last.x
        ensures Cross(last, p, Point(j, a[j])) >= 0.0
      {
        assert Cross(lower[|lower| - 2], lower[|lower| - 1], Point(j, a[j])) >= 0.0;
        PushLeft(prev, last, Point(j, a[j]), p);
      }
    }
    forall j | 0 <= j <= i
      ensures Cross(last, p, Point(j, a[j])) >= 0.0
    {
      if j == last.x {
        assert Point(j, a[j]) == last;
      }
    }
  }

  lemma PushSupportsAll(a: seq<real>, lower: seq<Point>, i: int)
    requires 0 < i < |a| && PopState(a, lower, i)
    requires |lower| >= 2 ==> Cross(lower[|lower| - 2], lower[|lower| - 1], Point(i, a[i])) >= 0.0
    ensures Supports(a, lower + [Point(i, a[i])], i + 1)
  {
    PushSupports(a, lower, i);
    var lower' := lower + [Point(i, a[i])];
    forall k, j | 0 <= k < |lower'| - 1 && 0 <= j < i + 1
      ensures Cross(lower'[k], lower'[k + 1], Point(j, a[j])) >= 0.0
    {
      if k < |lower| - 1 {
        assert lower'[k] == lower[k] && lower'[k + 1] == lower[k + 1];
        if j < i {
          assert Cross(lower[k], lower[k + 1], Point(j, a[j])) >= 0.0;
        }
      }
    }
  }

  lemma PushChain(a: seq<real>, lower: seq<Point>, i: int)
    requires 0 < i < |a| && PopState(a, lower, i)
    ensures IsChainOf(a, lower + [Point(i, a[i])])
  {
  }

  lemma PushTight(a: seq<real>, lower: seq<Point>, i: int)
    requires 0 < i < |a| && PopState(a, lower, i)
    requires IsChainOf(a, lower + [Point(i, a[i])])
    ensures Tight(a, lower + [Point(i, a[i])])
  {
    var lower' := lower + [Point(i, a[i])];
    forall k, j | 0 <= k < |lower'| - 1 && lower'[k].x < j < lower'[k + 1].x
      ensures Cross(lower'[k], lower'[k + 1], Point(j, a[j])) > 0.0
    {
      if k < |lower| - 1 {
        assert lower'[k] == lower[k] && lower'[k + 1] == lower[k + 1];
      }
    }
  }

  lemma PushConvex(a: seq<real>, lower: seq<Point>, i: int)
    requires 0 < i < |a| && PopState(a, lower, i)
    requires |lower| >= 2 ==> Cross(lower[|lower| - 2], lower[|lower| - 1], Point(i, a[i])) >= 0.0
    ensures Convex(lower + [Point(i, a[i])])
  {
    var lower' := lower + [Point(i, a[i])];
    forall k | 0 <= k < |lower'| - 2
      ensures Cross(lower'[k], lower'[k + 1], lower'[k + 2]) >= 0.0
    {
      if k < |lower| - 2 {
        assert lower'[k + 2] == lower[k + 2];
      }
    }
  }

  /** The monotone-chain lower hull of frame.py `_newton_polygon`: points are
      taken by increasing index and the last vertex is popped only while it
      makes a strict right turn, so collinear boundary points stay. */
  /** The inner loop of the monotone-chain scan: drop the last vertex while it
      makes a strict right turn towards (i, a[i]). */
  method PopRightTurns(a: seq<real>, lower: seq<Point>, i: int) returns (lower': seq<Point>)
    requires 0 < i < |a| && PopState(a, lower, i)
    ensures PopState(a, lower', i)
    ensures |lower'| >= 2 ==> Cross(lower'[|lower'| - 2], lower'[|lower'| - 1], Point(i, a[i])) >= 0.0
  {
    lower' := lower;
    while |lower'| >= 2 && Cross(lower'[|lower'| - 2], lower'[|lower'| - 1], Point(i, a[i])) < 0.0
      invariant PopState(a, lower', i)
    {
      PopKeeps(a, lower', i);
      lower' := lower'[..|lower'| - 1];
    }
  }

  method LowerHull(a: seq<real>) returns (lower: seq<Point>)
    requires |a| >= 1
    ensures IsLowerHull(a, lower)
    ensures lower[0] == Point(0, a[0])
  {
    lower := [Point(0, a[0])];
    var i := 1;
    while i < |a|
      invariant 1 <= i <= |a|
      invariant IsChainOf(a, lower) && lower[0] == Point(0, a[0])
      invariant lower[|lower| - 1].x == i - 1
      invariant Convex(lower)
      invariant Supports(a, lower, i)
      invariant Tight(a, lower)
    {
      var p := Point(i, a[i]);
      lower := PopRightTurns(a, lower, i);
      PushSupportsAll(a, lower, i);
      PushChain(a, lower, i);
      PushTight(a, lower, i);
      PushConvex(a, lower, i);
      lower := lower + [p];
      i := i + 1;
    }
  }

  // ---------------------------------------------------------------------
  // Merging collinear edges into segments

  function Tail<T>(s: seq<T>): seq<T> {
    if |s| == 0 then [] else s[1..]
  }

  /** The points of consecutive finite segments that share their endpoints,
      each shared point listed once. */
  function Joined(segs: seq<Segment>): seq<Point> {
    if |segs| == 0 then []
    else if |segs| == 1 then (if segs[0].Sloped? then segs[0].verts else [])
    else Joined(segs[..|segs| - 1]) + (if segs[|segs| - 1].Sloped? then Tail(segs[|segs| - 1].verts) else [])
  }

  /** A finite segment: at least two points by increasing index, every edge of
      negated slope equal to the segment's slope. */
  ghost predicate IsRun(seg: Segment) {
    && seg.Sloped?
    && |seg.verts| >= 2
    && Increasing(seg.verts)
    && (forall k :: 0 <= k < |seg.verts| - 1 ==> NegSlope(seg.verts[k], seg.verts[k + 1]) == seg.slope)
  }

  /** `segs` splits the convex chain `pts` into runs of equal negated slope,
      with strictly decreasing slopes from one run to the next (so the runs are
      maximal). */
  ghost predicate GroupingOf(segs: seq<Segment>, pts: seq<Point>) {
    && |segs| >= 1
    && (forall k :: 0 <= k < |segs| ==> IsRun(segs[k]))
    && Joined(segs) == pts
    && (forall k :: 0 <= k < |segs| - 1 ==> segs[k].slope > segs[k + 1].slope)
  }

  lemma ConvexSlopes(u: Point, v: Point, w: Point)
    requires u.x < v.x < w.x
    requires Cross(u, v, w) >= 0.0
    ensures NegSlope(u, v) >= NegSlope(v, w)
  {
    var d1, d2 := (v.x - u.x) as real, (w.x - v.x) as real;
    assert Cross(u, v, w) == d1 * (w.y - v.y) - d2 * (v.y - u.y);
    assert NegSlope(u, v) * d1 == u.y - v.y;
    assert NegSlope(v, w) * d2 == v.y - w.y;
    assert (NegSlope(u, v) - NegSlope(v, w)) * (d1 * d2) == Cross(u, v, w);
  }

  lemma JoinedSnoc(segs: seq<Segment>, seg: Segment)
    requires |segs| >= 1 && seg.Sloped?
    ensures Joined(segs + [seg]) == Joined(segs) + Tail(seg.verts)
  {
    assert (segs + [seg])[..|segs|] == segs;
  }

  lemma RunOf(pts: seq<Point>, slope: real, start: int, c: int)
    requires Increasing(pts) && 0 <= start < c < |pts|
    requires forall k :: start <= k < c ==> NegSlope(pts[k], pts[k + 1]) == slope
    ensures IsRun(Sloped(slope, pts[start..c + 1]))
  {
  }

  /** Extending the open segment by the point c + 1 extends the joined points. */
  lemma ExtendJoined(pts: seq<Point>, segs: seq<Segment>, slope: real, start: int, c: int)
    requires 0 <= start < c < |pts| - 1
    requires Joined(segs + [Sloped(slope, pts[start..c + 1])]) == pts[..c + 1]
    ensures Joined(segs + [Sloped(slope, pts[start..c + 2])]) == pts[..c + 2]
  {
    assert pts[start..c + 2] == pts[start..c + 1] + [pts[c + 1]];
    assert pts[..c + 2] == pts[..c + 1] + [pts[c + 1]];
    if |segs| > 0 {
      JoinedSnoc(segs, Sloped(slope, pts[start..c + 1]));
      JoinedSnoc(segs, Sloped(slope, pts[start..c + 2]));
    }
  }

  /** Closing the open segment at point c and opening one on the edge from c
      to c + 1 extends the joined points. */
  lemma CloseJoined(pts: seq<Point>, segs: seq<Segment>, slope: real, newSlope: real, start: int, c: int)
    requires 0 <= start < c < |pts| - 1
    requires Joined(segs + [Sloped(slope, pts[start..c + 1])]) == pts[..c + 1]
    ensures Joined(segs + [Sloped(slope, pts[start..c + 1])] + [Sloped(newSlope, pts[c..c + 2])]) == pts[..c + 2]
  {
    assert pts[..c + 2] == pts[..c + 1] + [pts[c + 1]];
    JoinedSnoc(segs + [Sloped(slope, pts[start..c + 1])], Sloped(newSlope, pts[c..c + 2]));
  }

  lemma SliceSnoc<T>(s: seq<T>, i: int, j: int)
    requires 0 <= i <= j < |s|
    ensures s[i..j + 1] == s[i..j] + [s[j]]
  {
  }

  lemma PairSlice<T>(s: seq<T>, c: int)
    requires 0 <= c < |s| - 1
    ensures s[c..c + 2] == [s[c], s[c + 1]]
  {
  }

  /** Appending the last run completes the grouping. */
  lemma FinishGroup(segs: seq<Segment>, cur: Segment, pts: seq<Point>)
    requires forall k :: 0 <= k < |segs| ==> IsRun(segs[k])
    requires forall k :: 0 <= k < |segs| ==> segs[k].Sloped?
    requires IsRun(cur)
    requires Joined(segs + [cur]) == pts
    requires forall k :: 0 <= k < |segs| - 1 ==> segs[k].slope > segs[k + 1].slope
    requires |segs| > 0 ==> IsRun(segs[|segs| - 1]) && segs[|segs| - 1].slope > cur.slope
    ensures GroupingOf(segs + [cur], pts)
  {
    CloseOrder(segs, cur);
    var all := segs + [cur];
    forall k | 0 <= k < |all|
      ensures IsRun(all[k])
    {
      if k < |segs| {
        assert all[k] == segs[k];
      }
    }
  }

  /** Closing a segment keeps the slopes strictly decreasing. */
  lemma CloseOrder(segs: seq<Segment>, cur: Segment)
    requires cur.Sloped? && forall k :: 0 <= k < |segs| ==> segs[k].Sloped?
    requires forall k :: 0 <= k < |segs| - 1 ==> segs[k].slope > segs[k + 1].slope
    requires |segs| > 0 ==> segs[|segs| - 1].slope > cur.slope
    ensures forall k :: 0 <= k < |segs + [cur]| - 1 ==> (segs + [cur])[k].slope > (segs + [cur])[k + 1].slope
  {
  }

  /** The state of the segment loop before edge c: the closed runs `segs` and
      the open run of slope `slope` from point `start` join up to point c. */
  ghost predicate GroupInv(pts: seq<Point>, segs: seq<Segment>, slope: real, start: int, c: int) {
    && 0 <= start < c < |pts|
    && (forall k :: start <= k < c ==> NegSlope(pts[k], pts[k + 1]) == slope)
    && (forall k :: 0 <= k < |segs| ==> IsRun(segs[k]))
    && Joined(segs + [Sloped(slope, pts[start..c + 1])]) == pts[..c + 1]
    && (forall k :: 0 <= k < |segs| - 1 ==> segs[k].slope > segs[k + 1].slope)
    && (|segs| > 0 ==> segs[|segs| - 1].slope > slope)
  }

  lemma GroupStart(pts: seq<Point>)
    requires |pts| >= 2 && Increasing(pts)
    ensures GroupInv(pts, [], NegSlope(pts[0], pts[1]), 0, 1)
  {
    assert pts[..2] == pts[0..2];
  }

  lemma ExtendStep(pts: seq<Point>, segs: seq<Segment>, slope: real, start: int, c: int)
    requires Increasing(pts) && GroupInv(pts, segs, slope, start, c) && c < |pts| - 1
    requires NegSlope(pts[c], pts[c + 1]) == slope
    ensures GroupInv(pts, segs, slope, start, c + 1)
  {
    ExtendJoined(pts, segs, slope, start, c);
    SlopesExtend(pts, slope, start, c);
  }

  /** The open run extends over one more edge of its slope. */
  lemma SlopesExtend(pts: seq<Point>, slope: real, start: int, c: int)
    requires 0 <= start < c < |pts| - 1
    requires forall k :: start <= k < c ==> NegSlope(pts[k], pts[k + 1]) == slope
    requires NegSlope(pts[c], pts[c + 1]) == slope
    ensures forall k :: start <= k < c + 1 ==> NegSlope(pts[k], pts[k + 1]) == slope
  {
  }

  lemma CloseRuns(segs: seq<Segment>, cur: Segment)
    requires forall k :: 0 <= k < |segs| ==> IsRun(segs[k])
    requires IsRun(cur)
    ensures forall k :: 0 <= k < |segs + [cur]| ==> IsRun((segs + [cur])[k])
  {
    var all := segs + [cur];
    forall k | 0 <= k < |all|
      ensures IsRun(all[k])
    {
      if k < |segs| {
        assert all[k] == segs[k];
      }
    }
  }

  lemma CloseStep(pts: seq<Point>, segs: seq<Segment>, slope: real, start: int, c: int)
    requires Increasing(pts) && Convex(pts) && GroupInv(pts, segs, slope, start, c) && c < |pts| - 1
    requires NegSlope(pts[c], pts[c + 1]) != slope
    ensures GroupInv(pts, segs + [Sloped(slope, pts[start..c + 1])], NegSlope(pts[c], pts[c + 1]), c, c + 1)
  {
    var cur := Sloped(slope, pts[start..c + 1]);
    ConvexSlopes(pts[c - 1], pts[c], pts[c + 1]);
    CloseJoined(pts, segs, slope, NegSlope(pts[c], pts[c + 1]), start, c);
    RunOf(pts, slope, start, c);
    CloseRuns(segs, cur);
    CloseOrder(segs, cur);
  }

  lemma GroupDone(pts: seq<Point>, segs: seq<Segment>, slope: real, start: int)
    requires |pts| >= 2 && Increasing(pts) && GroupInv(pts, segs, slope, start, |pts| - 1)
    ensures GroupingOf(segs + [Sloped(slope, pts[start..|pts|])], pts)
  {
    RunOf(pts, slope, start, |pts| - 1);
    assert pts[..|pts|] == pts;
    FinishGroup(segs, Sloped(slope, pts[start..|pts|]), pts);
  }

  /** The segment loop of frame.py `_newton_polygon` from edge c on, with the
      closed segments `segs` and the open run of slope `slope` that started at
      point `start`. */
  function GroupFrom(pts: seq<Point>, c: nat, segs: seq<Segment>, slope: real, start: nat): seq<Segment>
    requires start <= c < |pts|
    decreases |pts| - c
  {
    if c + 1 == |pts| then segs + [Sloped(slope, pts[start..])]
    else
      var newSlope := NegSlope(pts[c], pts[c + 1]);
      if newSlope == slope then GroupFrom(pts, c + 1, segs, slope, start)
      else GroupFrom(pts, c + 1, segs + [Sloped(slope, pts[start..c + 1])], newSlope, c)
  }

  /** The segments of the chain `pts`: consecutive edges of equal negated slope
      share a segment. */
  function Grouped(pts: seq<Point>): seq<Segment>
    requires |pts| >= 2
  {
    GroupFrom(pts, 1, [], NegSlope(pts[0], pts[1]), 0)
  }

  lemma GroupFromExtend(pts: seq<Point>, c: nat, segs: seq<Segment>, slope: real, start: nat)
    requires start <= c && c + 1 < |pts| && NegSlope(pts[c], pts[c + 1]) == slope
    ensures GroupFrom(pts, c, segs, slope, start) == GroupFrom(pts, c + 1, segs, slope, start)
  {
  }

  lemma GroupFromClose(pts: seq<Point>, c: nat, segs: seq<Segment>, slope: real, start: nat)
    requires start <= c && c + 1 < |pts| && NegSlope(pts[c], pts[c + 1]) != slope
    ensures GroupFrom(pts, c, segs, slope, start)
         == GroupFrom(pts, c + 1, segs + [Sloped(slope, pts[start..c + 1])], NegSlope(pts[c], pts[c + 1]), c)
  {
  }

  lemma GroupingTransfer(g: seq<Segment>, g': seq<Segment>, pts: seq<Point>)
    requires g == g' && GroupingOf(g', pts)
    ensures GroupingOf(g, pts)
  {
  }

  lemma {:induction false} GroupFromIsGrouping(pts: seq<Point>, c: nat, segs: seq<Segment>, slope: real, start: nat)
    requires |pts| >= 2 && Increasing(pts) && Convex(pts)
    requires GroupInv(pts, segs, slope, start, c)
    ensures GroupingOf(GroupFrom(pts, c, segs, slope, start), pts)
    decreases |pts| - c, 1
  {
    if c + 1 == |pts| {
      GroupDone(pts, segs, slope, start);
      assert pts[start..|pts|] == pts[start..];
      GroupingTransfer(GroupFrom(pts, c, segs, slope, start), segs + [Sloped(slope, pts[start..])], pts);
    } else if NegSlope(pts[c], pts[c + 1]) == slope {
      ExtendStep(pts, segs, slope, start, c);
      GroupFromExtendCase(pts, c, segs, slope, start);
    } else {
      CloseStep(pts, segs, slope, start, c);
      GroupFromCloseCase(pts, c, segs, slope, start, segs + [Sloped(slope, pts[start..c + 1])], NegSlope(pts[c], pts[c + 1]));
    }
  }

  lemma {:induction false} GroupFromExtendCase(pts: seq<Point>, c: nat, segs: seq<Segment>, slope: real, start: nat)
    requires |pts| >= 2 && Increasing(pts) && Convex(pts)
    requires start <= c && GroupInv(pts, segs, slope, start, c + 1)
    requires NegSlope(pts[c], pts[c + 1]) == slope
    ensures GroupingOf(GroupFrom(pts, c, segs, slope, start), pts)
    decreases |pts| - c, 0
  {
    GroupFromIsGrouping(pts, c + 1, segs, slope, start);
    GroupFromExtend(pts, c, segs, slope, start);
    GroupingTransfer(GroupFrom(pts, c, segs, slope, start), GroupFrom(pts, c + 1, segs, slope, start), pts);
  }

  lemma {:induction false} GroupFromCloseCase(pts: seq<Point>, c: nat, segs: seq<Segment>, slope: real, start: nat,
                                               segs': seq<Segment>, slope': real)
    requires |pts| >= 2 && Increasing(pts) && Convex(pts)
    requires start <= c && c + 1 < |pts| && slope' == NegSlope(pts[c], pts[c + 1]) && slope' != slope
    requires segs' == segs + [Sloped(slope, pts[start..c + 1])]
    requires GroupInv(pts, segs', slope', c, c + 1)
    ensures GroupingOf(GroupFrom(pts, c, segs, slope, start), pts)
    decreases |pts| - c, 0
  {
    GroupFromIsGrouping(pts, c + 1, segs', slope', c);
    GroupFromClose(pts, c, segs, slope, start);
    GroupingTransfer(GroupFrom(pts, c, segs, slope, start), GroupFrom(pts, c + 1, segs', slope', c), pts);
  }

  /** Along a convex chain of increasing index, the segments are runs of equal
      negated slope that join up to the whole chain, with strictly decreasing
      slopes. */
  lemma GroupedIsGrouping(pts: seq<Point>)
    requires |pts| >= 2 && Increasing(pts) && Convex(pts)
    ensures GroupingOf(Grouped(pts), pts)
  {
    GroupStart(pts);
    GroupFromIsGrouping(pts, 1, [], NegSlope(pts[0], pts[1]), 0);
  }

  /** Each segment starts at the point where the one before it ends. */
  ghost predicate Abutting(segs: seq<Segment>) {
    && (forall k :: 0 <= k < |segs| ==> segs[k].Sloped? && |segs[k].verts| >= 1)
    && (forall k :: 0 <= k < |segs| - 1 ==>
          segs[k].verts[|segs[k].verts| - 1] == segs[k + 1].verts[0])
  }

  /** The closed segments abut and the last one ends at point `start`. */
  ghost predicate AbutInv(pts: seq<Point>, segs: seq<Segment>, start: nat) {
    && start < |pts|
    && Abutting(segs)
    && (|segs| > 0 ==> segs[|segs| - 1].verts[|segs[|segs| - 1].verts| - 1] == pts[start])
  }

  lemma AbutSnoc(pts: seq<Point>, segs: seq<Segment>, slope: real, start: nat, c: nat)
    requires AbutInv(pts, segs, start) && start <= c < |pts|
    ensures Abutting(segs + [Sloped(slope, pts[start..c + 1])])
    ensures AbutInv(pts, segs + [Sloped(slope, pts[start..c + 1])], c)
  {
    var all := segs + [Sloped(slope, pts[start..c + 1])];
    forall k | 0 <= k < |all| - 1
      ensures all[k].verts[|all[k].verts| - 1] == all[k + 1].verts[0]
    {
      if k < |segs| - 1 {
        assert all[k] == segs[k] && all[k + 1] == segs[k + 1];
      }
    }
  }

  lemma {:induction false} GroupFromAbutting(pts: seq<Point>, c: nat, segs: seq<Segment>, slope: real, start: nat)
    requires start <= c < |pts| && AbutInv(pts, segs, start)
    ensures Abutting(GroupFrom(pts, c, segs, slope, start))
    decreases |pts| - c
  {
    if c + 1 == |pts| {
      AbutSnoc(pts, segs, slope, start, c);
      assert pts[start..c + 1] == pts[start..];
    } else if NegSlope(pts[c], pts[c + 1]) == slope {
      GroupFromAbutting(pts, c + 1, segs, slope, start);
      GroupFromExtend(pts, c, segs, slope, start);
    } else {
      AbutSnoc(pts, segs, slope, start, c);
      GroupFromAbutting(pts, c + 1, segs + [Sloped(slope, pts[start..c + 1])], NegSlope(pts[c], pts[c + 1]), c);
      GroupFromClose(pts, c, segs, slope, start);
    }
  }

  /** Adjacent segments of the grouping share an endpoint. */
  lemma GroupedAbutting(pts: seq<Point>)
    requires |pts| >= 2
    ensures Abutting(Grouped(pts))
  {
    GroupFromAbutting(pts, 1, [], NegSlope(pts[0], pts[1]), 0);
  }

  /** The segment loop of frame.py `_newton_polygon`: consecutive edges of
      equal negated slope extend the current segment, any other edge closes it
      and opens the next one. */
  method GroupEdges(pts: seq<Point>) returns (segs: seq<Segment>)
    requires |pts| >= 2
    ensures segs == Grouped(pts)
  {
    var slope := NegSlope(pts[0], pts[1]);
    var verts := [pts[0], pts[1]];
    segs := [];
    ghost var start := 0;
    assert verts == pts[0..2];
    for c := 1 to |pts| - 1
      invariant start < c
      invariant verts == pts[start..c + 1]
      invariant GroupFrom(pts, c, segs, slope, start) == Grouped(pts)
    {
      var newSlope := NegSlope(pts[c], pts[c + 1]);
      if newSlope == slope {
        SliceSnoc(pts, start, c + 1);
        verts := verts + [pts[c + 1]];
      } else {
        segs := segs + [Sloped(slope, verts)];
        slope := newSlope;
        verts := [pts[c], pts[c + 1]];
        start := c;
        PairSlice(pts, c);
      }
    }
    assert pts[start..|pts|] == pts[start..];
    segs := segs + [Sloped(slope, verts)];
  }

  // ---------------------------------------------------------------------
  // The hull is the sequence of boundary points

  /** Point j of `a` is not strictly above any chord from a point on its left
      to a point on its right. */
  ghost predicate OnBoundary(a: seq<real>, j: int)
    requires 0 <= j < |a|
  {
    forall i, k :: 0 <= i < j < k < |a| ==> Cross(Point(i, a[i]), Point(k, a[k]), Point(j, a[j])) <= 0.0
  }

  /** The boundary points of `a` from index j on, by increasing index. */
  ghost function BoundaryFrom(a: seq<real>, j: nat): seq<Point>
    decreases |a| - j
  {
    if j >= |a| then []
    else (if OnBoundary(a, j) then [Point(j, a[j])] else []) + BoundaryFrom(a, j + 1)
  }

  /** The lower hull of the points (i, a[i]) with every boundary point kept. */
  ghost function HullOf(a: seq<real>): seq<Point> {
    BoundaryFrom(a, 0)
  }

  /** Two points on or above a line through v, one on each side of v: v is
      not strictly above the chord between them. */
  lemma ChordAbove(l: Point, v: Point, p: Point, q: Point)
    requires l.x < v.x && p.x < v.x < q.x
    requires Cross(l, v, p) >= 0.0 && Cross(l, v, q) >= 0.0
    ensures Cross(p, q, v) <= 0.0
  {
    var w := (v.x - l.x) as real;
    assert w * Cross(p, q, v) == -(Cross(l, v, p) * ((q.x - v.x) as real) + Cross(l, v, q) * ((v.x - p.x) as real));
    assert Cross(l, v, p) * ((q.x - v.x) as real) >= 0.0;
    assert Cross(l, v, q) * ((v.x - p.x) as real) >= 0.0;
  }

  /** Every vertex of a lower hull is a boundary point. */
  lemma VertexOnBoundary(a: seq<real>, lower: seq<Point>, m: int)
    requires IsLowerHull(a, lower) && 0 <= m < |lower|
    ensures OnBoundary(a, lower[m].x)
  {
    var j := lower[m].x;
    if m > 0 {
      assert lower[m] == Point(j, a[j]);
      forall i, k | 0 <= i < j < k < |a|
        ensures Cross(Point(i, a[i]), Point(k, a[k]), Point(j, a[j])) <= 0.0
      {
        ChordAbove(lower[m - 1], lower[m], Point(i, a[i]), Point(k, a[k]));
      }
    }
  }

  /** An index strictly between two vertices of the hull and equal to none
      lies strictly inside some edge. */
  lemma {:induction false} InsideEdge(lower: seq<Point>, j: int, m: nat)
    requires Increasing(lower) && m < |lower| - 1
    requires lower[m].x < j < lower[|lower| - 1].x
    requires forall k :: 0 <= k < |lower| ==> lower[k].x != j
    ensures exists k :: m <= k < |lower| - 1 && lower[k].x < j < lower[k + 1].x
    decreases |lower| - m
  {
    if j > lower[m + 1].x {
      InsideEdge(lower, j, m + 1);
    }
  }

  /** A point strictly inside an edge of the hull is strictly above the chord
      of that edge, so it is not a boundary point. */
  lemma InsideNotBoundary(a: seq<real>, lower: seq<Point>, k: int, j: int)
    requires IsLowerHull(a, lower) && 0 <= k < |lower| - 1
    requires lower[k].x < j < lower[k + 1].x
    ensures !OnBoundary(a, j)
  {
    var p, q := lower[k], lower[k + 1];
    assert p == Point(p.x, a[p.x]) && q == Point(q.x, a[q.x]);
    assert Cross(Point(p.x, a[p.x]), Point(q.x, a[q.x]), Point(j, a[j])) > 0.0;
  }

  /** Dropping a stretch of indices that are no boundary points. */
  lemma {:induction false} SkipInside(a: seq<real>, x: nat, y: nat)
    requires x <= y <= |a|
    requires forall j :: x <= j < y ==> !OnBoundary(a, j)
    ensures BoundaryFrom(a, x) == BoundaryFrom(a, y)
    decreases y - x
  {
    if x < y {
      SkipInside(a, x + 1, y);
    }
  }

  lemma BoundaryCons(a: seq<real>, x: nat)
    requires x < |a| && OnBoundary(a, x)
    ensures BoundaryFrom(a, x) == [Point(x, a[x])] + BoundaryFrom(a, x + 1)
  {
  }

  /** No index strictly inside an edge of the hull is a boundary point. */
  lemma SkipEdge(a: seq<real>, lower: seq<Point>, m: nat)
    requires IsLowerHull(a, lower) && m < |lower| - 1
    ensures BoundaryFrom(a, lower[m].x + 1) == BoundaryFrom(a, lower[m + 1].x)
  {
    forall j | lower[m].x + 1 <= j < lower[m + 1].x
      ensures !OnBoundary(a, j)
    {
      InsideNotBoundary(a, lower, m, j);
    }
    SkipInside(a, lower[m].x + 1, lower[m + 1].x);
  }

  lemma HullHead(a: seq<real>, lower: seq<Point>, m: nat)
    requires IsLowerHull(a, lower) && m < |lower|
    ensures BoundaryFrom(a, lower[m].x) == [lower[m]] + BoundaryFrom(a, lower[m].x + 1)
  {
    VertexOnBoundary(a, lower, m);
    BoundaryCons(a, lower[m].x);
  }

  lemma {:induction false} HullTail(a: seq<real>, lower: seq<Point>, m: nat)
    requires IsLowerHull(a, lower) && m < |lower|
    ensures lower[m..] == BoundaryFrom(a, lower[m].x)
    decreases |lower| - m
  {
    HullHead(a, lower, m);
    if m < |lower| - 1 {
      HullTail(a, lower, m + 1);
      SkipEdge(a, lower, m);
      assert lower[m..] == [lower[m]] + lower[m + 1..];
    } else {
      assert lower[m].x + 1 == |a|;
    }
  }

  /** A sequence of points that satisfies every condition of a lower hull is
      the sequence of boundary points: the hull is unique. */
  lemma HullIsBoundary(a: seq<real>, lower: seq<Point>)
    requires IsLowerHull(a, lower)
    ensures lower == HullOf(a)
  {
    HullTail(a, lower, 0);
  }

  // ---------------------------------------------------------------------
  // The polygon

  /** The first point of `pts` from position c on whose valuation is below
      the precision cap. */
  function FirstBelow(pts: seq<Point>, cap: real, c: nat): (r: Option<nat>)
    ensures r.Some? ==> c <= r.value < |pts| && pts[r.value].y < cap
    ensures r.Some? ==> forall k :: c <= k < r.value ==> pts[k].y >= cap
    ensures r.None? ==> forall k :: c <= k < |pts| ==> pts[k].y >= cap
    decreases |pts| - c
  {
    if c >= |pts| then None
    else if pts[c].y < cap then Some(c)
    else FirstBelow(pts, cap, c + 1)
  }

  /** The polygon of the hull `lower`: without phi dividing Phi, the grouped
      edges; with it, the segment of slope +infinity down to the first vertex
      after the first that is below the precision cap, followed by the grouped
      edges from that vertex on. */
  function PolygonOf(lower: seq<Point>, phiDividesPhi: bool, cap: real): Result<seq<Segment>> {
    if |lower| <= 1 then Err(ValueError("Not enough vertices"))
    else if !phiDividesPhi then Ok(Grouped(lower))
    else match FirstBelow(lower, cap, 1)
      case None => Err(ValueError("Entire polygon above precision cap"))
      case Some(c) =>
        if |lower| - c <= 1 then Ok([Vertical(lower[c])])
        else Ok([Vertical(lower[c])] + Grouped(lower[c..]))
  }

  /** The for-else search of frame.py `_newton_polygon` for the first vertex
      after the first that lies below the precision cap. */
  method FindBelowCap(lower: seq<Point>, cap: real) returns (found: Option<nat>)
    ensures found == FirstBelow(lower, cap, 1)
  {
    var c := 1;
    while c < |lower|
      invariant 1 <= c
      invariant FirstBelow(lower, cap, c) == FirstBelow(lower, cap, 1)
    {
      if lower[c].y < cap {
        return Some(c);
      }
      c := c + 1;
    }
    return None;
  }

  /** frame.py `_newton_polygon`: the lower hull, then the leading segment of
      slope +infinity when phi divides Phi, then the grouped edges. */
  method ComputePolygon(a: seq<real>, phiDividesPhi: bool, cap: real) returns (r: Result<seq<Segment>>)
    ensures |a| == 0 ==> r == Err(IndexError)
    ensures |a| >= 1 ==> r == PolygonOf(HullOf(a), phiDividesPhi, cap)
  {
    if |a| == 0 {
      return Err(IndexError);
    }
    var lower := LowerHull(a);
    HullIsBoundary(a, lower);
    if |lower| <= 1 {
      return Err(ValueError("Not enough vertices"));
    }
    if !phiDividesPhi {
      var segments := GroupEdges(lower);
      return Ok(segments);
    }
    var found := FindBelowCap(lower, cap);
    if found.None? {
      return Err(ValueError("Entire polygon above precision cap"));
    }
    var c := found.value;
    var infinite := Vertical(lower[c]);
    lower := lower[c..];
    if |lower| <= 1 {
      return Ok([infinite]);
    }
    var segments := GroupEdges(lower);
    return Ok([infinite] + segments);
  }

  lemma SuffixChain(pts: seq<Point>, c: nat)
    requires Increasing(pts) && Convex(pts) && c <= |pts|
    ensures Increasing(pts[c..]) && Convex(pts[c..])
  {
  }

  /** Without phi dividing Phi, the polygon of a convex chain is its grouping
      into maximal runs of equal negated slope. */
  lemma PolygonPlain(lower: seq<Point>, cap: real)
    requires |lower| >= 2 && Increasing(lower) && Convex(lower)
    ensures PolygonOf(lower, false, cap).Ok?
    ensures GroupingOf(PolygonOf(lower, false, cap).value, lower)
  {
    GroupedIsGrouping(lower);
  }

  /** With phi dividing Phi, the polygon is an error exactly when every vertex
      after the first is at or above the precision cap. */
  lemma PolygonAboveCap(lower: seq<Point>, cap: real)
    requires |lower| >= 2
    ensures PolygonOf(lower, true, cap) == Err(ValueError("Entire polygon above precision cap"))
        <==> forall k :: 1 <= k < |lower| ==> lower[k].y >= cap
  {
    if FirstBelow(lower, cap, 1).Some? {
      var c := FirstBelow(lower, cap, 1).value;
      assert lower[c].y < cap;
    }
  }

  /** With phi dividing Phi, the polygon starts with the segment of slope
      +infinity down to the first vertex c after the first below the cap;
      the grouping of the hull from c on follows when c is not the last
      vertex. */
  lemma PolygonInfinite(lower: seq<Point>, cap: real, c: nat)
    requires |lower| >= 2 && Increasing(lower) && Convex(lower)
    requires 1 <= c < |lower| && lower[c].y < cap
    requires forall k :: 1 <= k < c ==> lower[k].y >= cap
    ensures PolygonOf(lower, true, cap).Ok?
    ensures PolygonOf(lower, true, cap).value[0] == Vertical(lower[c])
    ensures c == |lower| - 1 ==> PolygonOf(lower, true, cap).value == [Vertical(lower[c])]
    ensures c < |lower| - 1 ==> GroupingOf(PolygonOf(lower, true, cap).value[1..], lower[c..])
  {
    assert FirstBelow(lower, cap, 1) == Some(c);
    if c < |lower| - 1 {
      SuffixChain(lower, c);
      GroupedIsGrouping(lower[c..]);
      assert PolygonOf(lower, true, cap).value[1..] == Grouped(lower[c..]);
    }
  }

  /** A chain through every point of `a` that no point lies strictly inside
      of. */
  lemma TightAll(a: seq<real>, lower: seq<Point>)
    requires |lower| == |a| >= 1
    requires forall k :: 0 <= k < |lower| ==> lower[k] == Point(k, a[k])
    ensures IsChainOf(a, lower) && Tight(a, lower)
  {
  }

  lemma ExampleSupports(a: seq<real>, lower: seq<Point>)
    requires a == [20.0, 1.0, 0.0, 0.0]
    requires lower == [Point(0, 20.0), Point(1, 1.0), Point(2, 0.0), Point(3, 0.0)]
    ensures Convex(lower) && Supports(a, lower, |a|)
  {
    forall k, j | 0 <= k < |lower| - 1 && 0 <= j < |a|
      ensures Cross(lower[k], lower[k + 1], Point(j, a[j])) >= 0.0
    {
      assert lower[k] == Point(k, a[k]) && lower[k + 1] == Point(k + 1, a[k + 1]);
    }
  }

  /** The hull of the valuations [20, 1, 0, 0] keeps all four points. */
  lemma ExampleHull()
    ensures HullOf([20.0, 1.0, 0.0, 0.0]) == [Point(0, 20.0), Point(1, 1.0), Point(2, 0.0), Point(3, 0.0)]
  {
    var a := [20.0, 1.0, 0.0, 0.0];
    var lower := [Point(0, 20.0), Point(1, 1.0), Point(2, 0.0), Point(3, 0.0)];
    TightAll(a, lower);
    ExampleSupports(a, lower);
    HullIsBoundary(a, lower);
  }

  /** The example of frame.py `_newton_polygon`: valuations [20, 1, 0, 0]
      with phi dividing Phi and precision cap 20 give the segments of slopes
      +infinity, 1 and 0. */
  lemma PolygonExample()
    ensures PolygonOf(HullOf([20.0, 1.0, 0.0, 0.0]), true, 20.0)
         == Ok([Vertical(Point(1, 1.0)),
                Sloped(1.0, [Point(1, 1.0), Point(2, 0.0)]),
                Sloped(0.0, [Point(2, 0.0), Point(3, 0.0)])])
  {
    ExampleHull();
    var lower := [Point(0, 20.0), Point(1, 1.0), Point(2, 0.0), Point(3, 0.0)];
    var tail := [Point(1, 1.0), Point(2, 0.0), Point(3, 0.0)];
    assert FirstBelow(lower, 20.0, 1) == Some(1);
    assert lower[1..] == tail;
    assert PolygonOf(lower, true, 20.0) == Ok([Vertical(Point(1, 1.0))] + Grouped(tail));
    assert NegSlope(tail[0], tail[1]) == 1.0;
    assert NegSlope(tail[1], tail[2]) == 0.0;
    GroupFromClose(tail, 1, [], 1.0, 0);
    assert tail[0..2] == [Point(1, 1.0), Point(2, 0.0)];
    assert tail[1..] == [Point(2, 0.0), Point(3, 0.0)];
    var s1, s2 := Sloped(1.0, [Point(1, 1.0), Point(2, 0.0)]), Sloped(0.0, [Point(2, 0.0), Point(3, 0.0)]);
    assert Grouped(tail) == [s1, s2];
    assert [Vertical(Point(1, 1.0))] + [s1, s2] == [Vertical(Point(1, 1.0)), s1, s2];
  }

}
