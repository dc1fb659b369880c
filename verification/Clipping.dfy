/** Cohen-Sutherland line clipping against a closed box, over the reals. */
module Clipping {
  import opened RealArithmetic

  datatype Box = Box(xmin: real, xmax: real, ymin: real, ymax: real)

  datatype ClipResult = Visible | Invisible

  type Outcode = bv4

  const LEFT: Outcode := 1
  const RIGHT: Outcode := 2
  const BOTTOM: Outcode := 4
  const TOP: Outcode := 8

  function CompOutCode(x: real, y: real, b: Box): Outcode {
    (if y > b.ymax then TOP else if y < b.ymin then BOTTOM else 0)
    | (if x > b.xmax then RIGHT else if x < b.xmin then LEFT else 0)
  }

  // ------------------------------------------------- what clipping is about

  datatype Line = Line(x0: real, y0: real, x1: real, y1: real)
  {
    function X(t: real): real { Lerp(x0, x1, t) }
    function Y(t: real): real { Lerp(y0, y1, t) }
  }

  predicate Inside(b: Box, x: real, y: real) {
    b.xmin <= x <= b.xmax && b.ymin <= y <= b.ymax
  }

  /** The parameters of all points of the segment in the box lie in [t0, t1]. */
  ghost predicate Encloses(s: Line, b: Box, t0: real, t1: real) {
    forall t :: 0.0 <= t <= 1.0 && Inside(b, s.X(t), s.Y(t)) ==> t0 <= t <= t1
  }

  /** The current end points are the segment's points at t0 and t1. */
  ghost predicate Delimits(s: Line, cur: Line, t0: real, t1: real) {
    && 0.0 <= t0 <= t1 <= 1.0
    && cur.x0 == s.X(t0) && cur.y0 == s.Y(t0) && cur.x1 == s.X(t1) && cur.y1 == s.Y(t1)
  }

  // ----------------------------------------------------------- one coordinate

  /** A parameter between two parameters, and the coordinate there. */
  lemma LerpOfLerp(a: real, b: real, t0: real, t1: real, u: real)
    ensures Lerp(a, b, Lerp(t0, t1, u)) == Lerp(Lerp(a, b, t0), Lerp(a, b, t1), u)
  {
    var d := b - a;
    var e := t1 - t0;
    assert Lerp(a, b, t1) - Lerp(a, b, t0) == d * e;
    assert d * (e * u) == (d * e) * u;
  }

  lemma LerpBetween(a: real, b: real, u: real, lo: real, hi: real)
    requires 0.0 <= u <= 1.0 && lo <= a <= hi && lo <= b <= hi
    ensures lo <= Lerp(a, b, u) <= hi
  {
    var d := b - a;
    ShrinkingFactor(u, d);
    if d >= 0.0 {
      assert d * u >= 0.0;
    } else {
      assert d * u <= 0.0;
    }
  }

  lemma LerpOrder(a: real, b: real, t: real, t': real)
    requires t < t'
    ensures a < b ==> Lerp(a, b, t) < Lerp(a, b, t')
    ensures a > b ==> Lerp(a, b, t) > Lerp(a, b, t')
    ensures a == b ==> Lerp(a, b, t) == Lerp(a, b, t')
  {
    var d := b - a;
    if a < b {
      Scale(t, t', d);
    } else if a > b {
      Scale(t, t', -d);
      assert t * -d == -(d * t) && t' * -d == -(d * t');
    }
  }

  lemma ScaledQuotient(d: real, n: real, m: real)
    requires m != 0.0
    ensures d * n / m == d * (n / m)
  {
    Quotient(n, m);
    Quotient(d * n, m);
    var u, w := n / m, (d * n) / m;
    assert w * m == d * n && u * m == n;
    assert (d * u) * m == d * (u * m);
    Distribute(w, -(d * u), m);
    NonzeroProduct(w - d * u, m);
  }

  /** Where the coordinate that runs from `a` at 0 to `a'` at 1 reaches `c`,
      seen from its values at t0 and t1; the other coordinate runs from `b`. */
  function CutAt(a: real, a': real, t0: real, t1: real, c: real): real
    requires Lerp(a, a', t0) != Lerp(a, a', t1)
  {
    Lerp(t0, t1, (c - Lerp(a, a', t0)) / (Lerp(a, a', t1) - Lerp(a, a', t0)))
  }

  /** The other coordinate where this one, running from `p` to `q`, reaches `c`. */
  function Intercept(r: real, w: real, p: real, q: real, c: real): real
    requires q - p != 0.0
  {
    r + (w - r) * (c - p) / (q - p)
  }

  lemma CutPoint(a: real, a': real, b: real, b': real, t0: real, t1: real, c: real)
    requires t0 <= t1
    requires var p, q := Lerp(a, a', t0), Lerp(a, a', t1); p != q && (p >= c >= q || p <= c <= q)
    ensures var p, q := Lerp(a, a', t0), Lerp(a, a', t1);
            var r, w := Lerp(b, b', t0), Lerp(b, b', t1);
            var t := CutAt(a, a', t0, t1, c);
            && t0 <= t <= t1 && Lerp(a, a', t) == c
            && Lerp(b, b', t) == Intercept(r, w, p, q, c)
  {
    var p, q := Lerp(a, a', t0), Lerp(a, a', t1);
    var r, w := Lerp(b, b', t0), Lerp(b, b', t1);
    var u := (c - p) / (q - p);
    ProperFraction(c - p, q - p);
    Quotient(c - p, q - p);
    LerpBetween(t0, t1, u, t0, t1);
    LerpOfLerp(a, a', t0, t1, u);
    LerpOfLerp(b, b', t0, t1, u);
    ScaledQuotient(w - r, c - p, q - p);
    hide Lerp;
    assert Lerp(p, q, u) == c by { LerpReaches(p, q, u, c); }
    assert Lerp(r, w, u) == r + (w - r) * u by { LerpValue(r, w, u); }
  }

  lemma LerpValue(a: real, b: real, u: real)
    ensures Lerp(a, b, u) == a + (b - a) * u
  {
  }

  lemma LerpReaches(p: real, q: real, u: real, c: real)
    requires u * (q - p) == c - p
    ensures Lerp(p, q, u) == c
  {
  }

  /** Beyond the cut the coordinate stays strictly on its side of the bound. */
  lemma BeyondCut(a: real, a': real, t0: real, t1: real, c: real, t: real)
    requires t0 <= t1
    requires var p, q := Lerp(a, a', t0), Lerp(a, a', t1); p != q && (p >= c >= q || p <= c <= q)
    ensures var p, q, t' := Lerp(a, a', t0), Lerp(a, a', t1), CutAt(a, a', t0, t1, c);
            && (t < t' ==> if p > q then Lerp(a, a', t) > c else Lerp(a, a', t) < c)
            && (t > t' ==> if p > q then Lerp(a, a', t) < c else Lerp(a, a', t) > c)
  {
    hide Lerp;
    CutPoint(a, a', a, a', t0, t1, c);
    var t' := CutAt(a, a', t0, t1, c);
    if t0 < t1 { LerpOrder(a, a', t0, t1); }
    if t < t' { LerpOrder(a, a', t, t'); }
    if t > t' { LerpOrder(a, a', t', t); }
  }

  // --------------------------------------------------------------- one step

  /** The bound `c` cuts the current segment: its first end lies beyond the
      box's upper or lower y bound, the other end does not. */
  ghost predicate FirstBeyondY(cur: Line, b: Box, c: real) {
    (c == b.ymax && cur.y0 > c >= cur.y1) || (c == b.ymin && cur.y0 < c <= cur.y1)
  }

  lemma MoveFirstY(s: Line, cur: Line, t0: real, t1: real, b: Box, c: real) returns (t: real)
    requires Delimits(s, cur, t0, t1) && Encloses(s, b, t0, t1) && FirstBeyondY(cur, b, c)
    ensures var x := Intercept(cur.x0, cur.x1, cur.y0, cur.y1, c);
            && Delimits(s, Line(x, c, cur.x1, cur.y1), t, t1) && Encloses(s, b, t, t1)
            && (cur.x0 <= x <= cur.x1 || cur.x1 <= x <= cur.x0)
  {
    hide Lerp, CutAt, Intercept;
    t := CutAt(s.y0, s.y1, t0, t1, c);
    CutPoint(s.y0, s.y1, s.x0, s.x1, t0, t1, c);
    CutBetween(s.x0, s.x1, t0, t1, t);
    forall t' | 0.0 <= t' <= 1.0 && Inside(b, s.X(t'), s.Y(t'))
      ensures t <= t' <= t1
    {
      BeyondCut(s.y0, s.y1, t0, t1, c, t');
    }
  }

  lemma CutBetween(b: real, b': real, t0: real, t1: real, t: real)
    requires t0 <= t <= t1
    ensures var p, x, q := Lerp(b, b', t0), Lerp(b, b', t), Lerp(b, b', t1); p <= x <= q || q <= x <= p
  {
    if t0 < t { LerpOrder(b, b', t0, t); }
    if t < t1 { LerpOrder(b, b', t, t1); }
  }

  /** The same for the second end; the code measures from the first end. */
  ghost predicate SecondBeyondY(cur: Line, b: Box, c: real) {
    (c == b.ymax && cur.y1 > c >= cur.y0) || (c == b.ymin && cur.y1 < c <= cur.y0)
  }

  lemma MoveSecondY(s: Line, cur: Line, t0: real, t1: real, b: Box, c: real) returns (t: real)
    requires Delimits(s, cur, t0, t1) && Encloses(s, b, t0, t1) && SecondBeyondY(cur, b, c)
    ensures var x := Intercept(cur.x0, cur.x1, cur.y0, cur.y1, c);
            && Delimits(s, Line(cur.x0, cur.y0, x, c), t0, t) && Encloses(s, b, t0, t)
            && (cur.x0 <= x <= cur.x1 || cur.x1 <= x <= cur.x0)
  {
    hide Lerp, CutAt, Intercept;
    t := CutAt(s.y0, s.y1, t0, t1, c);
    CutPoint(s.y0, s.y1, s.x0, s.x1, t0, t1, c);
    CutBetween(s.x0, s.x1, t0, t1, t);
    forall t' | 0.0 <= t' <= 1.0 && Inside(b, s.X(t'), s.Y(t'))
      ensures t0 <= t' <= t
    {
      BeyondCut(s.y0, s.y1, t0, t1, c, t');
    }
  }

  // The x cases are the y cases of the transposed picture.

  function Transpose(s: Line): Line { Line(s.y0, s.x0, s.y1, s.x1) }

  function TransposeBox(b: Box): Box { Box(b.ymin, b.ymax, b.xmin, b.xmax) }

  lemma TransposeEncloses(s: Line, b: Box, t0: real, t1: real)
    ensures Encloses(s, b, t0, t1) <==> Encloses(Transpose(s), TransposeBox(b), t0, t1)
  {
    hide Lerp;
    assert forall t :: Inside(b, s.X(t), s.Y(t)) <==>
        Inside(TransposeBox(b), Transpose(s).X(t), Transpose(s).Y(t));
  }

  lemma MoveFirstX(s: Line, cur: Line, t0: real, t1: real, b: Box, c: real) returns (t: real)
    requires Delimits(s, cur, t0, t1) && Encloses(s, b, t0, t1)
    requires FirstBeyondY(Transpose(cur), TransposeBox(b), c)
    ensures var y := Intercept(cur.y0, cur.y1, cur.x0, cur.x1, c);
            && Delimits(s, Line(c, y, cur.x1, cur.y1), t, t1) && Encloses(s, b, t, t1)
            && (cur.y0 <= y <= cur.y1 || cur.y1 <= y <= cur.y0)
  {
    hide Lerp, Encloses, Intercept;
    TransposeEncloses(s, b, t0, t1);
    t := MoveFirstY(Transpose(s), Transpose(cur), t0, t1, TransposeBox(b), c);
    TransposeEncloses(s, b, t, t1);
  }

  lemma MoveSecondX(s: Line, cur: Line, t0: real, t1: real, b: Box, c: real) returns (t: real)
    requires Delimits(s, cur, t0, t1) && Encloses(s, b, t0, t1)
    requires SecondBeyondY(Transpose(cur), TransposeBox(b), c)
    ensures var y := Intercept(cur.y0, cur.y1, cur.x0, cur.x1, c);
            && Delimits(s, Line(cur.x0, cur.y0, c, y), t0, t) && Encloses(s, b, t0, t)
            && (cur.y0 <= y <= cur.y1 || cur.y1 <= y <= cur.y0)
  {
    hide Lerp, Encloses, Intercept;
    TransposeEncloses(s, b, t0, t1);
    t := MoveSecondY(Transpose(s), Transpose(cur), t0, t1, TransposeBox(b), c);
    TransposeEncloses(s, b, t0, t);
  }

  // -------------------------------------------------------------- the clipper

  function CodeOf0(cur: Line, b: Box): Outcode { CompOutCode(cur.x0, cur.y0, b) }

  function CodeOf1(cur: Line, b: Box): Outcode { CompOutCode(cur.x1, cur.y1, b) }

  /** What the bits of an outcode say about the point. */
  lemma CodeBits(x: real, y: real, b: Box)
    requires b.xmin <= b.xmax && b.ymin <= b.ymax
    ensures var k := CompOutCode(x, y, b);
            && (k & 8 != 0 <==> y > b.ymax) && (k & 4 != 0 <==> y < b.ymin)
            && (k & 2 != 0 <==> x > b.xmax) && (k & 1 != 0 <==> x < b.xmin)
            && (k == 0 <==> Inside(b, x, y))
            && (k & 12 != 0 <==> y > b.ymax || y < b.ymin)
  {
  }

  /** Both ends lie beyond the same side of the box. */
  ghost predicate SameSide(cur: Line, b: Box) {
    || (cur.y0 > b.ymax && cur.y1 > b.ymax) || (cur.y0 < b.ymin && cur.y1 < b.ymin)
    || (cur.x0 > b.xmax && cur.x1 > b.xmax) || (cur.x0 < b.xmin && cur.x1 < b.xmin)
  }

  lemma SharedBits(cur: Line, b: Box)
    requires b.xmin <= b.xmax && b.ymin <= b.ymax
    ensures CodeOf0(cur, b) & CodeOf1(cur, b) != 0 <==> SameSide(cur, b)
  {
  }

  /** How many clip steps an end point can still need. */
  ghost function Work(b: Box, x: real, y: real): nat {
    if y > b.ymax || y < b.ymin then 2 else if Inside(b, x, y) then 0 else 1
  }

  ghost function Remaining(cur: Line, b: Box): nat {
    if SameSide(cur, b) then 0 else Work(b, cur.x0, cur.y0) + Work(b, cur.x1, cur.y1)
  }

  /** The divisions of a clip step towards the side named by `out` are defined. */
  predicate Divides(cur: Line, out: Outcode) {
    if out & (TOP | BOTTOM) != 0 then cur.y1 - cur.y0 != 0.0 else cur.x1 - cur.x0 != 0.0
  }

  /** The intersection of the current line with the side named by `out`. */
  function ClipPoint(cur: Line, b: Box, out: Outcode): (real, real)
    requires out != 0 && Divides(cur, out)
  {
    if TOP & out != 0 then
      (Intercept(cur.x0, cur.x1, cur.y0, cur.y1, b.ymax), b.ymax)
    else if BOTTOM & out != 0 then
      (Intercept(cur.x0, cur.x1, cur.y0, cur.y1, b.ymin), b.ymin)
    else if RIGHT & out != 0 then
      (b.xmax, Intercept(cur.y0, cur.y1, cur.x0, cur.x1, b.xmax))
    else
      (b.xmin, Intercept(cur.y0, cur.y1, cur.x0, cur.x1, b.xmin))
  }

  /** One step at the first end: well-defined, keeps exactly the points of the
      segment that can be inside, and leaves less work. */
  lemma StepFirst(s: Line, cur: Line, t0: real, t1: real, b: Box) returns (t: real)
    requires b.xmin <= b.xmax && b.ymin <= b.ymax
    requires Delimits(s, cur, t0, t1) && Encloses(s, b, t0, t1)
    requires CodeOf0(cur, b) != 0 && !SameSide(cur, b)
    ensures Divides(cur, CodeOf0(cur, b))
    ensures var p := ClipPoint(cur, b, CodeOf0(cur, b));
            var next := Line(p.0, p.1, cur.x1, cur.y1);
            Delimits(s, next, t, t1) && Encloses(s, b, t, t1) && Remaining(next, b) < Remaining(cur, b)
  {
    hide Lerp, Encloses, CompOutCode, Intercept;
    CodeBits(cur.x0, cur.y0, b);
    if cur.y0 > b.ymax {
      t := MoveFirstY(s, cur, t0, t1, b, b.ymax);
    } else if cur.y0 < b.ymin {
      t := MoveFirstY(s, cur, t0, t1, b, b.ymin);
    } else if cur.x0 > b.xmax {
      t := MoveFirstX(s, cur, t0, t1, b, b.xmax);
    } else {
      t := MoveFirstX(s, cur, t0, t1, b, b.xmin);
    }
  }

  lemma StepSecond(s: Line, cur: Line, t0: real, t1: real, b: Box) returns (t: real)
    requires b.xmin <= b.xmax && b.ymin <= b.ymax
    requires Delimits(s, cur, t0, t1) && Encloses(s, b, t0, t1)
    requires CodeOf0(cur, b) == 0 && CodeOf1(cur, b) != 0
    ensures Divides(cur, CodeOf1(cur, b))
    ensures var p := ClipPoint(cur, b, CodeOf1(cur, b));
            var next := Line(cur.x0, cur.y0, p.0, p.1);
            Delimits(s, next, t0, t) && Encloses(s, b, t0, t) && Remaining(next, b) < Remaining(cur, b)
  {
    hide Lerp, Encloses, CompOutCode, Intercept;
    CodeBits(cur.x0, cur.y0, b);
    CodeBits(cur.x1, cur.y1, b);
    if cur.y1 > b.ymax {
      t := MoveSecondY(s, cur, t0, t1, b, b.ymax);
    } else if cur.y1 < b.ymin {
      t := MoveSecondY(s, cur, t0, t1, b, b.ymin);
    } else if cur.x1 > b.xmax {
      t := MoveSecondX(s, cur, t0, t1, b, b.xmax);
    } else {
      t := MoveSecondX(s, cur, t0, t1, b, b.xmin);
    }
  }

  /** A point between two points of the segment has its coordinates between theirs. */
  lemma PointBetween(s: Line, cur: Line, t0: real, t1: real, t: real)
    requires Delimits(s, cur, t0, t1) && t0 <= t <= t1
    ensures cur.x0 <= s.X(t) <= cur.x1 || cur.x1 <= s.X(t) <= cur.x0
    ensures cur.y0 <= s.Y(t) <= cur.y1 || cur.y1 <= s.Y(t) <= cur.y0
  {
    hide Lerp;
    CutBetween(s.x0, s.x1, t0, t1, t);
    CutBetween(s.y0, s.y1, t0, t1, t);
  }

  lemma Decided(s: Line, cur: Line, t0: real, t1: real, b: Box)
    requires Delimits(s, cur, t0, t1) && Encloses(s, b, t0, t1)
    ensures SameSide(cur, b) ==> forall t :: 0.0 <= t <= 1.0 ==> !Inside(b, s.X(t), s.Y(t))
    ensures Inside(b, cur.x0, cur.y0) && Inside(b, cur.x1, cur.y1) ==>
              forall t :: 0.0 <= t <= 1.0 ==> (Inside(b, s.X(t), s.Y(t)) <==> t0 <= t <= t1)
  {
    hide Lerp;
    forall t | t0 <= t <= t1
      ensures SameSide(cur, b) ==> !Inside(b, s.X(t), s.Y(t))
      ensures Inside(b, cur.x0, cur.y0) && Inside(b, cur.x1, cur.y1) ==> Inside(b, s.X(t), s.Y(t))
    {
      PointBetween(s, cur, t0, t1, t);
    }
  }

  /** Clip the segment `s`: Invisible exactly when it misses the closed box,
      otherwise the ends left delimit exactly its part inside the box. Every
      division is defined and at most four ends are moved. */
  method CohenSutherlandLineClip(s: Line, b: Box)
    returns (clip: ClipResult, cur: Line, steps: nat, ghost t0: real, ghost t1: real)
    requires b.xmin <= b.xmax && b.ymin <= b.ymax
    ensures steps <= 4
    ensures clip == Invisible <==> forall t :: 0.0 <= t <= 1.0 ==> !Inside(b, s.X(t), s.Y(t))
    ensures clip == Visible ==>
              && Delimits(s, cur, t0, t1)
              && forall t :: 0.0 <= t <= 1.0 ==> (Inside(b, s.X(t), s.Y(t)) <==> t0 <= t <= t1)
  {
    hide Lerp, CompOutCode, Encloses, Remaining, SameSide, ClipPoint, Divides;
    cur := s;
    var outcode0, outcode1 := CompOutCode(cur.x0, cur.y0, b), CompOutCode(cur.x1, cur.y1, b);
    var done := false;
    clip, steps, t0, t1 := Visible, 0, 0.0, 1.0;
    WholeSegment(s, b);
    while !done
      invariant Delimits(s, cur, t0, t1) && Encloses(s, b, t0, t1)
      invariant outcode0 == CodeOf0(cur, b) && outcode1 == CodeOf1(cur, b)
      invariant steps + Remaining(cur, b) <= 4
      invariant !done ==> clip == Visible
      invariant done ==> if clip == Visible then outcode0 == 0 == outcode1 else outcode0 & outcode1 != 0
      decreases Remaining(cur, b), !done
    {
      SharedBits(cur, b);
      if outcode0 == 0 && outcode1 == 0 {
        done := true;
      } else if outcode0 & outcode1 != 0 {
        clip := Invisible;
        done := true;
      } else {
        clip := Visible;
        var outcodeOut := if outcode0 != 0 then outcode0 else outcode1;
        if outcodeOut == outcode0 {
          t0 := StepFirst(s, cur, t0, t1, b);
          var p := ClipPoint(cur, b, outcodeOut);
          cur := cur.(x0 := p.0, y0 := p.1);
          outcode0 := CompOutCode(cur.x0, cur.y0, b);
        } else {
          t1 := StepSecond(s, cur, t0, t1, b);
          var p := ClipPoint(cur, b, outcodeOut);
          cur := cur.(x1 := p.0, y1 := p.1);
          outcode1 := CompOutCode(cur.x1, cur.y1, b);
        }
        steps := steps + 1;
      }
    }
    SharedBits(cur, b);
    CodeBits(cur.x0, cur.y0, b);
    CodeBits(cur.x1, cur.y1, b);
    Decided(s, cur, t0, t1, b);
    if clip == Visible {
      assert Inside(b, s.X(t0), s.Y(t0));
    }
  }

  lemma WholeSegment(s: Line, b: Box)
    ensures Delimits(s, s, 0.0, 1.0) && Encloses(s, b, 0.0, 1.0) && Remaining(s, b) <= 4
  {
  }
}
