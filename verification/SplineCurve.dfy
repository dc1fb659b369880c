/** What the flattened line looks like: it samples the quadratic Bezier arcs
    of the polyline in order, with short links, inside the bounding box. */
module SplineCurve {
  import opened RealArithmetic
  import opened Splines

  // ------------------------------------------------------------ Bezier arcs

  /** A quadratic Bezier arc, by its control points. */
  datatype Arc = Arc(a: Vec, q: Vec, b: Vec)

  /** The arc's polar form on one axis: affine in `t`, symmetric in `s` and `t`. */
  function Polar(a: real, q: real, b: real, s: real, t: real): real {
    Lerp(Lerp(a, q, s), Lerp(q, b, s), t)
  }

  function PolarPoint(c: Arc, s: real, t: real): Vec {
    Vec(Polar(c.a.x, c.q.x, c.b.x, s, t), Polar(c.a.y, c.q.y, c.b.y, s, t))
  }

  /** The point of the arc at parameter `t`. */
  function PointAt(c: Arc, t: real): Vec { PolarPoint(c, t, t) }

  /** It is the weighted sum of the three control points that is usual for Bezier arcs. */
  lemma BezierPoint(c: Arc, t: real)
    ensures var u := 1.0 - t;
            PointAt(c, t) == Vec(u * u * c.a.x + 2.0 * u * t * c.q.x + t * t * c.b.x,
                                 u * u * c.a.y + 2.0 * u * t * c.q.y + t * t * c.b.y)
  {
    hide Polar;
    Bernstein(c.a.x, c.q.x, c.b.x, t);
    Bernstein(c.a.y, c.q.y, c.b.y, t);
  }

  lemma Bernstein(a: real, q: real, b: real, t: real)
    ensures var u := 1.0 - t; Polar(a, q, b, t, t) == u * u * a + 2.0 * u * t * q + t * t * b
  {
    var u := 1.0 - t;
    var l, r := Lerp(a, q, t), Lerp(q, b, t);
    assert l == u * a + t * q && r == u * q + t * b;
    assert Polar(a, q, b, t, t) == u * l + t * r;
    assert u * l == u * u * a + u * t * q;
    assert t * r == u * t * q + t * t * b;
  }

  /** The control values that describe the arc between two parameters. */
  function PieceOf(c: Arc, t0: real, t1: real): Piece {
    var p, q, r := PointAt(c, t0), PolarPoint(c, t0, t1), PointAt(c, t1);
    Piece(p, Half(p, q), Half(q, r), r)
  }

  lemma PolarSymmetric(a: real, q: real, b: real, s: real, t: real)
    ensures Polar(a, q, b, s, t) == Polar(a, q, b, t, s)
  {
    var d, e := q - a, b - q;
    assert (q + e * s) - (a + d * s) == d + (e - d) * s;
    assert ((e - d) * s) * t == ((e - d) * t) * s;
    assert (d + (e - d) * s) * t == d * t + ((e - d) * s) * t;
    assert (d + (e - d) * t) * s == d * s + ((e - d) * t) * s;
  }

  lemma PolarMiddle(a: real, q: real, b: real, s: real, t: real, u: real)
    ensures Polar(a, q, b, s, (t + u) / 2.0) == (Polar(a, q, b, s, t) + Polar(a, q, b, s, u)) / 2.0
  {
    var d := Lerp(q, b, s) - Lerp(a, q, s);
    assert d * ((t + u) / 2.0) == (d * t + d * u) / 2.0;
  }

  /** A split of an arc's piece is the arc's piece on half the interval. */
  lemma SplitOfArc(c: Arc, t0: real, t1: real)
    ensures var m := (t0 + t1) / 2.0;
            && Left(PieceOf(c, t0, t1)) == PieceOf(c, t0, m) && Right(PieceOf(c, t0, t1)) == PieceOf(c, m, t1)
            && Mid(PieceOf(c, t0, t1)) == PointAt(c, m)
  {
    AxisSplit(c.a.x, c.q.x, c.b.x, t0, t1);
    AxisSplit(c.a.y, c.q.y, c.b.y, t0, t1);
    hide Polar;
  }

  lemma AxisSplit(a: real, q: real, b: real, t0: real, t1: real)
    ensures var m := (t0 + t1) / 2.0;
            && Polar(a, q, b, t0, m) == (Polar(a, q, b, t0, t0) + Polar(a, q, b, t0, t1)) / 2.0
            && Polar(a, q, b, m, t1) == (Polar(a, q, b, t0, t1) + Polar(a, q, b, t1, t1)) / 2.0
            && Polar(a, q, b, m, m) == (Polar(a, q, b, t0, m) + Polar(a, q, b, m, t1)) / 2.0
  {
    hide Polar;
    var m := (t0 + t1) / 2.0;
    PolarMiddle(a, q, b, t0, t0, t1);
    PolarMiddle(a, q, b, t1, t0, t1);
    PolarMiddle(a, q, b, m, t0, t1);
    PolarSymmetric(a, q, b, t0, t1);
    PolarSymmetric(a, q, b, m, t0);
    PolarSymmetric(a, q, b, m, t1);
  }

  /** The arc that rounds the corner at `b`: from the middle of one link to the
      middle of the next, pulled towards `b`. */
  function CornerArc(a: Vec, b: Vec, c: Vec): Arc { Arc(Half(a, b), b, Half(b, c)) }

  lemma CornerIsArc(a: Vec, b: Vec, c: Vec)
    ensures Corner(a, b, c) == PieceOf(CornerArc(a, b, c), 0.0, 1.0)
  {
  }

  // ---------------------------------------------------------- curve order

  /** The parameters at which Flatten samples an arc's piece on [t0, t1]. */
  ghost function Params(q: Piece, t0: real, t1: real): seq<real>
    decreases Level(q)
  {
    var m := (t0 + t1) / 2.0;
    if Flat(q) then [t0, m]
    else SplitLowersLevel(q); Params(Left(q), t0, m) + Params(Right(q), m, t1)
  }

  ghost predicate Increasing(ts: seq<real>, lo: real, hi: real) {
    && (forall k :: 0 <= k < |ts| ==> lo <= ts[k] < hi)
    && (forall k, n :: 0 <= k < n < |ts| ==> ts[k] < ts[n])
  }

  ghost predicate Samples(c: Arc, points: seq<Vec>, ts: seq<real>) {
    |points| == |ts| && forall k :: 0 <= k < |ts| ==> points[k] == PointAt(c, ts[k])
  }

  lemma IncreasingConcat(a: seq<real>, b: seq<real>, lo: real, mid: real, hi: real)
    requires Increasing(a, lo, mid) && Increasing(b, mid, hi) && lo <= mid <= hi
    ensures Increasing(a + b, lo, hi)
  {
  }

  lemma SamplesConcat(c: Arc, p: seq<Vec>, q: seq<Vec>, s: seq<real>, t: seq<real>)
    requires Samples(c, p, s) && Samples(c, q, t)
    ensures Samples(c, p + q, s + t)
  {
    hide PointAt;
  }

  lemma {:induction false} FlattenSamplesArc(c: Arc, t0: real, t1: real)
    requires t0 < t1
    ensures var q := PieceOf(c, t0, t1);
            && Increasing(Params(q, t0, t1), t0, t1) && Samples(c, Flatten(q), Params(q, t0, t1))
    decreases Level(PieceOf(c, t0, t1))
  {
    hide PointAt, PieceOf, Flat, Left, Right, Mid, Level, Flatten, Params;
    var q, m := PieceOf(c, t0, t1), (t0 + t1) / 2.0;
    SplitOfArc(c, t0, t1);
    PieceStart(c, t0, t1);
    FlattenStep(q);
    ParamsStep(q, t0, t1);
    if !Flat(q) {
      SplitLowersLevel(q);
      var l, r := PieceOf(c, t0, m), PieceOf(c, m, t1);
      FlattenSamplesArc(c, t0, m);
      FlattenSamplesArc(c, m, t1);
      IncreasingConcat(Params(l, t0, m), Params(r, m, t1), t0, m, t1);
      SamplesConcat(c, Flatten(l), Flatten(r), Params(l, t0, m), Params(r, m, t1));
    }
  }

  lemma PieceStart(c: Arc, t0: real, t1: real)
    ensures PieceOf(c, t0, t1).p1 == PointAt(c, t0) && PieceOf(c, t0, t1).p4 == PointAt(c, t1)
  {
  }

  lemma FlattenStep(q: Piece)
    ensures Flatten(q) == if Flat(q) then [q.p1, Mid(q)] else Flatten(Left(q)) + Flatten(Right(q))
  {
  }

  lemma ParamsStep(q: Piece, t0: real, t1: real)
    ensures var m := (t0 + t1) / 2.0;
            Params(q, t0, t1) == if Flat(q) then [t0, m] else Params(Left(q), t0, m) + Params(Right(q), m, t1)
  {
  }

  // ---------------------------------------------------------------- links

  /** Consecutive points are less than 5 pixels apart on each axis. */
  ghost predicate ShortLinks(s: seq<Vec>) {
    forall k :: 0 <= k < |s| - 1 ==> Short(s[k], s[k + 1])
  }

  ghost predicate Short(a: Vec, b: Vec) { -5.0 < b.x - a.x < 5.0 && -5.0 < b.y - a.y < 5.0 }

  /** The points of a piece and its end form short links. */
  lemma {:induction false} FlattenLinks(q: Piece)
    ensures |Flatten(q)| > 0 && Flatten(q)[0] == q.p1 && ShortLinks(Flatten(q) + [q.p4])
    decreases Level(q)
  {
    hide Level;
    FlattenStep(q);
    if !Flat(q) {
      SplitLowersLevel(q);
      FlattenLinks(Left(q));
      FlattenLinks(Right(q));
      JoinLinks(Flatten(Left(q)), Flatten(Right(q)), q.p4);
    }
  }

  lemma JoinLinks(a: seq<Vec>, b: seq<Vec>, end: Vec)
    requires |b| > 0 && ShortLinks(a + [b[0]]) && ShortLinks(b + [end])
    ensures ShortLinks(a + b + [end])
  {
    var s := a + b + [end];
    forall k | 0 <= k < |s| - 1
      ensures Short(s[k], s[k + 1])
    {
      if k < |a| {
        assert (a + [b[0]])[k] == s[k] && (a + [b[0]])[k + 1] == s[k + 1];
      } else {
        assert (b + [end])[k - |a|] == s[k] && (b + [end])[k + 1 - |a|] == s[k + 1];
      }
    }
  }

  /** The middle of link i of the polyline: where corner i ends. */
  function LinkMiddle(pts: seq<Pixel>, i: int): Vec
    requires 0 <= i < |pts| - 1
  {
    Half(ToVec(pts[i]), ToVec(pts[i + 1]))
  }

  lemma {:induction false} CornersLinks(pts: seq<Pixel>, n: int)
    requires 0 <= n < |pts| - 1
    ensures ShortLinks(Corners(pts, n) + [LinkMiddle(pts, n)])
    ensures n > 0 ==> |Corners(pts, n)| > 0 && Corners(pts, n)[0] == LinkMiddle(pts, 0)
    decreases n
  {
    if n > 0 {
      CornersLinks(pts, n - 1);
      var q := CornerAt(pts, n);
      assert q.p1 == LinkMiddle(pts, n - 1) && q.p4 == LinkMiddle(pts, n);
      FlattenLinks(q);
      JoinLinks(Corners(pts, n - 1), Flatten(q), q.p4);
      hide CornerAt, ShortLinks, Flatten;
    }
  }

  /** All links of the smooth line but the first and the last are shorter than 5
      pixels on each axis; those two join the ends of the polyline to the middle of
      its first link and from the middle of its last one. */
  lemma InnerLinksShort(pts: seq<Pixel>)
    requires |pts| >= 2
    ensures var s, n := SmoothLine(pts), |pts|;
            && |s| >= 3
            && (forall k :: 1 <= k < |s| - 2 ==>
                  -5.0 < s[k + 1].x - s[k].x < 5.0 && -5.0 < s[k + 1].y - s[k].y < 5.0)
            && s[0] == Vec(pts[0].x as real, pts[0].y as real)
            && s[1] == Vec((pts[0].x + pts[1].x) as real / 2.0, (pts[0].y + pts[1].y) as real / 2.0)
            && s[|s| - 2] == Vec((pts[n - 2].x + pts[n - 1].x) as real / 2.0,
                                 (pts[n - 2].y + pts[n - 1].y) as real / 2.0)
            && s[|s| - 1] == Vec(pts[n - 1].x as real, pts[n - 1].y as real)
  {
    hide Corners, SmoothLine, ShortLinks;
    SmoothLineParts(pts);
    CornersLinks(pts, |pts| - 2);
    NoCorners(pts);
    InnerLinks(SmoothLine(pts), Corners(pts, |pts| - 2) + [LinkMiddle(pts, |pts| - 2)]);
  }

  lemma SmoothLineParts(pts: seq<Pixel>)
    requires |pts| >= 2
    ensures var s, n := SmoothLine(pts), |pts|;
            && |s| >= 3
            && s[1..|s| - 1] == Corners(pts, n - 2) + [LinkMiddle(pts, n - 2)]
            && s[0] == ToVec(pts[0]) && s[|s| - 1] == ToVec(pts[n - 1])
  {
    hide Corners;
  }

  lemma InnerLinks(s: seq<Vec>, inner: seq<Vec>)
    requires |s| >= 3 && s[1..|s| - 1] == inner && ShortLinks(inner)
    ensures s[1] == inner[0] && s[|s| - 2] == inner[|inner| - 1]
    ensures forall k :: 1 <= k < |s| - 2 ==>
              -5.0 < s[k + 1].x - s[k].x < 5.0 && -5.0 < s[k + 1].y - s[k].y < 5.0
  {
    forall k | 1 <= k < |s| - 2
      ensures Short(s[k], s[k + 1])
    {
      assert s[k] == inner[k - 1] && s[k + 1] == inner[k];
      assert Short(inner[k - 1], inner[k - 1 + 1]);
    }
  }

  lemma NoCorners(pts: seq<Pixel>)
    requires |pts| >= 2
    ensures Corners(pts, 0) == []
  {
  }

  // --------------------------------------------- order along the whole line

  /** The smooth line's curve: arc i+1 on parameters [i, i+1). */
  ghost function CurvePoint(pts: seq<Pixel>, u: real): Vec
    requires 0.0 <= u < (|pts| - 2) as real
  {
    var i := u.Floor;
    PointAt(CornerArc(ToVec(pts[i]), ToVec(pts[i + 1]), ToVec(pts[i + 2])), u - i as real)
  }

  ghost function Shift(ts: seq<real>, d: real): seq<real> {
    seq(|ts|, k requires 0 <= k < |ts| => ts[k] + d)
  }

  ghost function CurveParams(pts: seq<Pixel>, n: int): seq<real>
    requires n < |pts| - 1
    decreases n
  {
    if n < 1 then [] else CurveParams(pts, n - 1) + Shift(Params(CornerAt(pts, n), 0.0, 1.0), (n - 1) as real)
  }

  ghost predicate OnCurve(pts: seq<Pixel>, points: seq<Vec>, ts: seq<real>)
    requires |pts| >= 2 && forall k :: 0 <= k < |ts| ==> 0.0 <= ts[k] < (|pts| - 2) as real
  {
    |points| == |ts| && forall k :: 0 <= k < |ts| ==> points[k] == CurvePoint(pts, ts[k])
  }

  lemma OnCurveConcat(pts: seq<Pixel>, a: seq<Vec>, b: seq<Vec>, s: seq<real>, t: seq<real>)
    requires |pts| >= 2
    requires forall k :: 0 <= k < |s| ==> 0.0 <= s[k] < (|pts| - 2) as real
    requires forall k :: 0 <= k < |t| ==> 0.0 <= t[k] < (|pts| - 2) as real
    requires OnCurve(pts, a, s) && OnCurve(pts, b, t)
    ensures OnCurve(pts, a + b, s + t)
  {
    hide CurvePoint;
  }

  /** The points emitted for the corners lie on the curve at strictly
      increasing parameters, across pieces and across corners. */
  lemma {:induction false} CornersFollowCurve(pts: seq<Pixel>, n: int)
    requires 0 <= n < |pts| - 1
    ensures Increasing(CurveParams(pts, n), 0.0, n as real)
    ensures OnCurve(pts, Corners(pts, n), CurveParams(pts, n))
    decreases n
  {
    if n > 0 {
      hide CurvePoint, Params, Flatten, CornerAt, Shift;
      CornersFollowCurve(pts, n - 1);
      CornerFollowsCurve(pts, n);
      var ts := Shift(Params(CornerAt(pts, n), 0.0, 1.0), (n - 1) as real);
      IncreasingConcat(CurveParams(pts, n - 1), ts, 0.0, (n - 1) as real, n as real);
      OnCurveConcat(pts, Corners(pts, n - 1), Flatten(CornerAt(pts, n)), CurveParams(pts, n - 1), ts);
    }
  }

  lemma CornerFollowsCurve(pts: seq<Pixel>, n: int)
    requires 1 <= n < |pts| - 1
    ensures var ts := Shift(Params(CornerAt(pts, n), 0.0, 1.0), (n - 1) as real);
            && Increasing(ts, (n - 1) as real, n as real) && OnCurve(pts, Flatten(CornerAt(pts, n)), ts)
  {
    hide PointAt, PieceOf, Corner, CornerArc, Flatten, Params;
    var a, b, c := ToVec(pts[n - 1]), ToVec(pts[n]), ToVec(pts[n + 1]);
    CornerIsArc(a, b, c);
    FlattenSamplesArc(CornerArc(a, b, c), 0.0, 1.0);
  }

  // ---------------------------------------------------------- bounding box

  ghost predicate InBox(v: Vec, lo: Pixel, hi: Pixel) {
    (lo.x as real) <= v.x <= (hi.x as real) && (lo.y as real) <= v.y <= (hi.y as real)
  }

  ghost predicate PieceInBox(q: Piece, lo: Pixel, hi: Pixel) {
    InBox(q.p1, lo, hi) && InBox(q.p2, lo, hi) && InBox(q.p3, lo, hi) && InBox(q.p4, lo, hi)
  }

  ghost predicate AllInBox(s: seq<Vec>, lo: Pixel, hi: Pixel) { forall k :: 0 <= k < |s| ==> InBox(s[k], lo, hi) }

  lemma {:induction false} FlattenInBox(q: Piece, lo: Pixel, hi: Pixel)
    requires PieceInBox(q, lo, hi)
    ensures AllInBox(Flatten(q), lo, hi)
    decreases Level(q)
  {
    hide Level, Flat;
    FlattenStep(q);
    if !Flat(q) {
      SplitLowersLevel(q);
      FlattenInBox(Left(q), lo, hi);
      FlattenInBox(Right(q), lo, hi);
    }
  }

  ghost predicate PixelInBox(p: Pixel, lo: Pixel, hi: Pixel) { lo.x <= p.x <= hi.x && lo.y <= p.y <= hi.y }

  lemma {:induction false} CornersInBox(pts: seq<Pixel>, n: int, lo: Pixel, hi: Pixel)
    requires 0 <= n < |pts| - 1 && forall k :: 0 <= k < |pts| ==> PixelInBox(pts[k], lo, hi)
    ensures AllInBox(Corners(pts, n), lo, hi)
    decreases n
  {
    if n > 0 {
      CornersInBox(pts, n - 1, lo, hi);
      assert PixelInBox(pts[n - 1], lo, hi) && PixelInBox(pts[n], lo, hi) && PixelInBox(pts[n + 1], lo, hi);
      FlattenInBox(CornerAt(pts, n), lo, hi);
    }
  }

  function ToPixel(v: Vec): Pixel { Pixel(Truncated(v.x), Truncated(v.y)) }

  /** The whole part is kept, the fraction dropped, on either side of 0. */
  lemma PixelTruncates(v: Vec)
    ensures var p := ToPixel(v);
            && (if v.x >= 0.0 then p.x as real <= v.x < (p.x + 1) as real else (p.x - 1) as real < v.x <= p.x as real)
            && (if v.y >= 0.0 then p.y as real <= v.y < (p.y + 1) as real else (p.y - 1) as real < v.y <= p.y as real)
  {
  }

  function ToPixels(s: seq<Vec>): seq<Pixel> { seq(|s|, k requires 0 <= k < |s| => ToPixel(s[k])) }

  lemma TruncatedBetween(r: real, lo: int, hi: int)
    requires lo as real <= r <= hi as real
    ensures lo <= Truncated(r) <= hi
  {
  }

  /** After truncation the line starts and ends at the polyline's ends and stays
      in every box that holds the polyline. */
  lemma SmoothPixels(pts: seq<Pixel>, lo: Pixel, hi: Pixel)
    requires |pts| >= 2
    ensures var out := ToPixels(SmoothLine(pts));
            && out[0] == pts[0] && out[|out| - 1] == pts[|pts| - 1]
            && ((forall k :: 0 <= k < |pts| ==> PixelInBox(pts[k], lo, hi)) ==>
                  forall k :: 0 <= k < |out| ==> PixelInBox(out[k], lo, hi))
  {
    var s := SmoothLine(pts);
    if forall k :: 0 <= k < |pts| ==> PixelInBox(pts[k], lo, hi) {
      CornersInBox(pts, |pts| - 2, lo, hi);
      assert AllInBox(s, lo, hi);
      forall k | 0 <= k < |s|
        ensures PixelInBox(ToPixel(s[k]), lo, hi)
      {
        assert InBox(s[k], lo, hi);
        TruncatedBetween(s[k].x, lo.x, hi.x);
        TruncatedBetween(s[k].y, lo.y, hi.y);
      }
    }
  }
}
