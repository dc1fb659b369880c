/** Where a segment end lies: the crossing point of the level on a grid edge. */
module Crossings {
  import opened MarchingSquares
  import opened RealArithmetic

  /** The position of the level between two node values, with the fallback to
      the middle that the code keeps for values the formula cannot handle. */
  function Fraction(pa: real, pb: real, v: real): real {
    var dec := if pb != pa then (v - pa) / (pb - pa) else 0.5;
    if Abs(dec) > 1.0 then 0.5 else dec
  }

  /** A longitude difference taken the short way round. */
  function ShortWay(xd: real): real {
    if xd < -180.0 then xd + 360.0 else if xd > 180.0 then xd - 360.0 else xd
  }

  function Cross(g: Grid, v: real, e: Edge): Point
    requires g.Valid() && OnGrid(g, e)
  {
    var dec := Fraction(g.Value(e.i, e.j), g.Value(e.k, e.l), v);
    Point(Partway(g.Lon(e.i), ShortWay(g.Lon(e.k) - g.Lon(e.i)), dec),
          Partway(g.Lat(e.j), g.Lat(e.l) - g.Lat(e.j), dec))
  }

  function Partway(start: real, span: real, dec: real): real { start + span * dec }

  /** On a straddling edge the fallbacks are never taken: the fraction is the
      one at which the linear interpolant of the two node values equals the
      level, and it lies between the nodes (strictly, off the nodes' values). */
  lemma FractionOnLevel(pa: real, pb: real, v: real)
    requires (pa > v) != (pb > v)
    ensures pa != pb && Fraction(pa, pb, v) == (v - pa) / (pb - pa)
    ensures 0.0 <= Fraction(pa, pb, v) <= 1.0
    ensures pa + Fraction(pa, pb, v) * (pb - pa) == v
    ensures pa != v && pb != v ==> 0.0 < Fraction(pa, pb, v) < 1.0
  {
    Quotient(v - pa, pb - pa);
    ProperFraction(v - pa, pb - pa);
  }

  lemma LevelAt(pa: real, pb: real, v: real, s: real)
    requires (pa > v) != (pb > v) && s == Fraction(pa, pb, v)
    ensures 0.0 <= s <= 1.0 && pa + s * (pb - pa) == v
  {
    FractionOnLevel(pa, pb, v);
  }

  /** Whatever the values, the fraction leads no further than to the other node, and
      to the middle where they are equal. */
  lemma FractionBounded(pa: real, pb: real, v: real)
    ensures -1.0 <= Fraction(pa, pb, v) <= 1.0
    ensures pa == pb ==> Fraction(pa, pb, v) == 0.5
  {
  }

  /** Adjacent cells name a shared side by the same ordered node pair, so they
      compute the identical crossing point for it. */
  lemma SharedSides(g: Grid, I: int, J: int)
    requires g.ni >= 1 && 0 <= I < g.ni
    ensures SideEdge(I, g.ni, J, 'c', 'd') == SideEdge(I, g.ni, J + 1, 'a', 'b')
    ensures SideEdge(I, g.ni, J, 'b', 'd') == SideEdge(NextColumn(g, I), g.ni, J, 'a', 'c')
  {
  }

  // ------------------------------------------------- distinct edges, distinct points

  lemma SamePlace(a: real, i: int, i': int, s: real, s': real, d: real)
    requires d != 0.0 && -1.0 < s - s' < 1.0
    requires Along(a, (i as real) + s, d) == Along(a, (i' as real) + s', d)
    ensures i == i' && s == s'
  {
    var p, q := (i as real) + s, (i' as real) + s';
    Distribute(p, -q, d);
    NonzeroProduct(p - q, d);
  }

  lemma FullCircleStep(d: real, n: int)
    requires d * (n as real) == 360.0 && n >= 3
    ensures 0.0 < d <= 120.0
  {
    var m := n as real;
    Scale(0.0, d, m);
    Scale(d, 120.0, m);
  }

  /** The longitude difference along the row edge that ends in column I. */
  function RowStep(g: Grid, I: int): real { if I == 0 then g.di - 360.0 else g.di }

  lemma RowStepIsDifference(g: Grid, I: int, J: int)
    requires 0 <= I < g.ni && (I == 0 ==> g.di * (g.ni as real) == 360.0 && g.ni >= 3)
    ensures g.Lon(I) - g.Lon(RowEdge(g, I, J).i) == RowStep(g, I)
    ensures I == 0 ==> ShortWay(RowStep(g, I)) == g.di
    ensures Abs(ShortWay(RowStep(g, I))) <= Abs(g.di)
  {
    if I == 0 {
      FullCircleStep(g.di, g.ni);
    }
  }

  /** How far along its row edge, in longitude steps, a fraction `s` lies. */
  function Offset(g: Grid, I: int, s: real): real
    requires g.di != 0.0
  {
    (ShortWay(RowStep(g, I)) / g.di) * s
  }

  lemma RowCross(g: Grid, v: real, I: int, J: int)
    requires g.Valid() && 0 <= I < g.ni && 0 <= J < g.nj && g.di != 0.0
    requires I == 0 ==> g.di * (g.ni as real) == 360.0 && g.ni >= 3
    ensures var e := RowEdge(g, I, J);
            var s := Fraction(g.Value(e.i, J), g.Value(I, J), v);
            && Cross(g, v, e).x == Along(g.lonMin, (e.i as real) + Offset(g, I, s), g.di)
            && Cross(g, v, e).y == g.Lat(J)
  {
    var e := RowEdge(g, I, J);
    var s := Fraction(g.Value(e.i, J), g.Value(I, J), v);
    RowStepIsDifference(g, I, J);
    hide Along, ShortWay, Fraction, RowStep, Partway;
    Rescale(g.lonMin, e.i as real, g.di, ShortWay(RowStep(g, I)), s);
    assert Partway(g.Lat(J), 0.0, s) == g.Lat(J) by { NoSpan(g.Lat(J), s); }
  }

  lemma NoSpan(a: real, s: real)
    ensures Partway(a, 0.0, s) == a
  {
  }

  lemma Rescale(a: real, i: real, d: real, w: real, s: real)
    requires d != 0.0
    ensures Partway(Along(a, i, d), w, s) == Along(a, i + (w / d) * s, d)
  {
    var r := w / d;
    Quotient(w, d);
    assert (r * d) * s == (r * s) * d;
    Distribute(i, r * s, d);
  }

  lemma ColumnCross(g: Grid, v: real, i: int, J: int)
    requires g.Valid() && 0 <= i < g.ni && 1 <= J < g.nj
    ensures var s := Fraction(g.Value(i, J - 1), g.Value(i, J), v);
            && Cross(g, v, ColumnEdge(i, J)).x == g.Lon(i)
            && Cross(g, v, ColumnEdge(i, J)).y == Along(g.latMin, ((J - 1) as real) + s, g.dj)
  {
    var s := Fraction(g.Value(i, J - 1), g.Value(i, J), v);
    LatStep(g, J);
    hide Along, Fraction, Partway;
    StepFurther(g.latMin, (J - 1) as real, g.dj, s);
  }

  lemma StepFurther(a: real, i: real, d: real, s: real)
    ensures Partway(Along(a, i, d), d, s) == Along(a, i + s, d)
  {
    Distribute(i, s, d);
  }

  lemma LatStep(g: Grid, J: int)
    ensures g.Lat(J) - g.Lat(J - 1) == g.dj
  {
    Distribute((J - 1) as real, 1.0, g.dj);
  }

  /** The point on an edge between rows: the column's longitude, and the part of the
      way from row to row at which the interpolated value equals the level. */
  lemma ColumnEdgePoint(g: Grid, v: real, i: int, J: int) returns (s: real)
    requires g.Valid() && 0 <= i < g.ni && 1 <= J < g.nj
    requires (g.rows[J - 1][i] > v) != (g.rows[J][i] > v)
    ensures 0.0 <= s <= 1.0 && g.rows[J - 1][i] + s * (g.rows[J][i] - g.rows[J - 1][i]) == v
    ensures Cross(g, v, Edge(i, J - 1, i, J)) ==
            Point(g.lonMin + (i as real) * g.di, g.latMin + ((J - 1) as real) * g.dj + s * g.dj)
  {
    s := Fraction(g.rows[J - 1][i], g.rows[J][i], v);
    LevelAt(g.rows[J - 1][i], g.rows[J][i], v, s);
    hide Fraction;
    LatStep(g, J);
    NoSpan(g.Lon(i), s);
  }

  lemma AlongAt(a: real, i: real, d: real)
    ensures Along(a, i, d) == a + i * d
  {
  }

  lemma PartwayAt(start: real, span: real, s: real)
    ensures Partway(start, span, s) == start + s * span
  {
  }

  /** The point on an edge along a row, likewise. A step of more than half a turn is
      taken the other way round. */
  lemma RowEdgePoint(g: Grid, v: real, I: int, J: int) returns (s: real)
    requires g.Valid() && 1 <= I < g.ni && 0 <= J < g.nj
    requires (g.rows[J][I - 1] > v) != (g.rows[J][I] > v)
    ensures 0.0 <= s <= 1.0 && g.rows[J][I - 1] + s * (g.rows[J][I] - g.rows[J][I - 1]) == v
    ensures var step := if g.di < -180.0 then g.di + 360.0 else if g.di > 180.0 then g.di - 360.0 else g.di;
            Cross(g, v, Edge(I - 1, J, I, J)) ==
            Point(g.lonMin + ((I - 1) as real) * g.di + s * step, g.latMin + (J as real) * g.dj)
  {
    hide Fraction, Cross;
    s := Fraction(g.rows[J][I - 1], g.rows[J][I], v);
    LevelAt(g.rows[J][I - 1], g.rows[J][I], v, s);
    RowEdgeCross(g, v, I, J, s);
  }

  lemma RowEdgeCross(g: Grid, v: real, I: int, J: int, s: real)
    requires g.Valid() && 1 <= I < g.ni && 0 <= J < g.nj && s == Fraction(g.rows[J][I - 1], g.rows[J][I], v)
    ensures Cross(g, v, Edge(I - 1, J, I, J)) ==
            Point(g.lonMin + ((I - 1) as real) * g.di + s * ShortWay(g.di), g.latMin + (J as real) * g.dj)
  {
    hide Fraction, Along, Partway, ShortWay;
    StepAlong(g, I);
    AlongAt(g.lonMin, (I - 1) as real, g.di);
    AlongAt(g.latMin, J as real, g.dj);
    PartwayAt(g.Lon(I - 1), ShortWay(g.di), s);
    NoSpan(g.Lat(J), s);
  }

  lemma StepAlong(g: Grid, I: int)
    ensures g.Lon(I) - g.Lon(I - 1) == g.di
  {
    Distribute((I - 1) as real, 1.0, g.di);
  }

  /** The point on a seam edge of a grid that goes round: it continues past the last
      column by one column step. */
  lemma SeamEdgePoint(g: Grid, v: real, J: int) returns (s: real)
    requires g.Valid() && g.ni >= 3 && g.di * (g.ni as real) == 360.0 && 0 <= J < g.nj
    requires (g.rows[J][g.ni - 1] > v) != (g.rows[J][0] > v)
    ensures 0.0 <= s <= 1.0 && g.rows[J][g.ni - 1] + s * (g.rows[J][0] - g.rows[J][g.ni - 1]) == v
    ensures Cross(g, v, Edge(g.ni - 1, J, 0, J)) ==
            Point(g.lonMin + ((g.ni - 1) as real) * g.di + s * g.di, g.latMin + (J as real) * g.dj)
  {
    s := Fraction(g.rows[J][g.ni - 1], g.rows[J][0], v);
    LevelAt(g.rows[J][g.ni - 1], g.rows[J][0], v, s);
    hide Fraction;
    RowStepIsDifference(g, 0, J);
    NoSpan(g.Lat(J), s);
  }

  /** The short way round leads to the same place, and is at most half a turn. */
  lemma ShortWayRound(xd: real)
    requires -540.0 <= xd <= 540.0
    ensures -180.0 <= ShortWay(xd) <= 180.0
    ensures ShortWay(xd) - xd == 0.0 || ShortWay(xd) - xd == 360.0 || ShortWay(xd) - xd == -360.0
    ensures -180.0 <= xd <= 180.0 ==> ShortWay(xd) == xd
  {
  }

  /** Two fractions inside row edges of equal step are less than a step apart. */
  lemma OffsetGap(g: Grid, I: int, I': int, s: real, s': real)
    requires g.di != 0.0 && 0.0 < s < 1.0 && 0.0 < s' < 1.0
    requires ShortWay(RowStep(g, I)) == ShortWay(RowStep(g, I'))
    requires Abs(ShortWay(RowStep(g, I))) <= Abs(g.di)
    ensures -1.0 < Offset(g, I, s) - Offset(g, I', s') < 1.0
  {
    UnitQuotient(ShortWay(RowStep(g, I)), g.di);
    ScaledGap(ShortWay(RowStep(g, I)) / g.di, s, s');
  }

  lemma ScaledGap(r: real, s: real, s': real)
    requires -1.0 <= r <= 1.0 && 0.0 < s < 1.0 && 0.0 < s' < 1.0
    ensures -1.0 < r * s - r * s' < 1.0
  {
    Distribute(s, -s', r);
    ShrinkingFactor(r, s - s');
  }

  /** The level is no node's value. */
  ghost predicate OffNodes(g: Grid, v: real)
    requires g.Valid()
  {
    forall i, j :: 0 <= i < g.ni && 0 <= j < g.nj ==> g.Value(i, j) != v
  }

  /** No two crossing points coincide on the planar grid; on the cylinder this
      needs at least three columns, so that the seam step is the short way round. */
  ghost predicate Separated(g: Grid, we: int) {
    && g.di != 0.0 && g.dj != 0.0
    && (we == g.ni + 1 ==> g.di * (g.ni as real) == 360.0 && g.ni >= 3)
  }

  lemma RowRowDistinct(g: Grid, v: real, we: int, I: int, J: int, I': int, J': int)
    requires g.Valid() && Separated(g, we)
    requires 0 <= I < g.ni && 0 <= J < g.nj && 0 <= I' < g.ni && 0 <= J' < g.nj
    requires (I == 0 || I' == 0) ==> we == g.ni + 1
    requires OffNodes(g, v) && Straddles(g, v, RowEdge(g, I, J)) && Straddles(g, v, RowEdge(g, I', J'))
    requires Cross(g, v, RowEdge(g, I, J)) == Cross(g, v, RowEdge(g, I', J'))
    ensures I == I' && J == J'
  {
    var e, e' := RowEdge(g, I, J), RowEdge(g, I', J');
    var s, s' := Fraction(g.Value(e.i, J), g.Value(I, J), v), Fraction(g.Value(e'.i, J'), g.Value(I', J'), v);
    FractionOnLevel(g.Value(e.i, J), g.Value(I, J), v);
    FractionOnLevel(g.Value(e'.i, J'), g.Value(I', J'), v);
    RowStepIsDifference(g, I, J);
    RowStepIsDifference(g, I', J');
    hide Cross, Fraction, Offset, Along;
    RowCross(g, v, I, J);
    RowCross(g, v, I', J');
    SamePlace(g.latMin, J, J', 0.0, 0.0, g.dj);
    OffsetGap(g, I, I', s, s');
    SamePlace(g.lonMin, e.i, e'.i, Offset(g, I, s), Offset(g, I', s'), g.di);
  }

  lemma RowColumnDistinct(g: Grid, v: real, we: int, I: int, J: int, i: int, J': int)
    requires g.Valid() && Separated(g, we)
    requires 0 <= I < g.ni && 0 <= J < g.nj && 0 <= i < g.ni && 1 <= J' < g.nj
    requires I == 0 ==> we == g.ni + 1
    requires OffNodes(g, v) && Straddles(g, v, ColumnEdge(i, J'))
    ensures Cross(g, v, RowEdge(g, I, J)) != Cross(g, v, ColumnEdge(i, J'))
  {
    var s' := Fraction(g.Value(i, J' - 1), g.Value(i, J'), v);
    FractionOnLevel(g.Value(i, J' - 1), g.Value(i, J'), v);
    hide Cross, Fraction, Offset, Along;
    if Cross(g, v, RowEdge(g, I, J)) == Cross(g, v, ColumnEdge(i, J')) {
      RowCross(g, v, I, J);
      ColumnCross(g, v, i, J');
      SamePlace(g.latMin, J, J' - 1, 0.0, s', g.dj);
    }
  }

  lemma ColumnColumnDistinct(g: Grid, v: real, we: int, i: int, J: int, i': int, J': int)
    requires g.Valid() && Separated(g, we)
    requires 0 <= i < g.ni && 1 <= J < g.nj && 0 <= i' < g.ni && 1 <= J' < g.nj
    requires OffNodes(g, v) && Straddles(g, v, ColumnEdge(i, J)) && Straddles(g, v, ColumnEdge(i', J'))
    requires Cross(g, v, ColumnEdge(i, J)) == Cross(g, v, ColumnEdge(i', J'))
    ensures i == i' && J == J'
  {
    var s, s' := Fraction(g.Value(i, J - 1), g.Value(i, J), v), Fraction(g.Value(i', J' - 1), g.Value(i', J'), v);
    FractionOnLevel(g.Value(i, J - 1), g.Value(i, J), v);
    FractionOnLevel(g.Value(i', J' - 1), g.Value(i', J'), v);
    hide Cross, Fraction, Along;
    ColumnCross(g, v, i, J);
    ColumnCross(g, v, i', J');
    SamePlace(g.lonMin, i, i', 0.0, 0.0, g.di);
    SamePlace(g.latMin, J - 1, J' - 1, s, s', g.dj);
  }

  /** Off the node values, distinct straddling edges have distinct crossing points. */
  lemma CrossInjective(g: Grid, v: real, we: int, e: Edge, e': Edge)
    requires g.Valid() && Separated(g, we) && OffNodes(g, v)
    requires Crossed(g, v, we, e) && Crossed(g, v, we, e')
    requires Cross(g, v, e) == Cross(g, v, e')
    ensures e == e'
  {
    if e.j == e.l && e'.j == e'.l {
      RowRowDistinct(g, v, we, e.k, e.l, e'.k, e'.l);
    } else if e.j == e.l {
      RowColumnDistinct(g, v, we, e.k, e.l, e'.k, e'.l);
    } else if e'.j == e'.l {
      RowColumnDistinct(g, v, we, e'.k, e'.l, e.k, e.l);
    } else {
      ColumnColumnDistinct(g, v, we, e.k, e.l, e'.k, e'.l);
    }
  }

  lemma FractionFlip(pa: real, pb: real, v: real)
    requires (pa > v) != (pb > v)
    ensures Fraction(pb, pa, v) == 1.0 - Fraction(pa, pb, v)
  {
    FractionOnLevel(pa, pb, v);
    FractionOnLevel(pb, pa, v);
    var s, t := Fraction(pa, pb, v), Fraction(pb, pa, v);
    hide Fraction;
    assert t * (pa - pb) == -(t * (pb - pa));
    Distribute(s, t - 1.0, pb - pa);
    Distribute(t, -1.0, pb - pa);
    NonzeroProduct(s + t - 1.0, pb - pa);
  }

  /** With two columns the seam step of 180 degrees is not taken the short way:
      on every row the seam edge and the inner edge share their crossing point.
      So `ni >= 3` in `Separated` cannot be dropped. */
  lemma TwoColumnSeamCollides(g: Grid, v: real, J: int)
    requires g.Valid() && g.ni == 2 && g.di == 180.0 && 0 <= J < g.nj
    requires Straddles(g, v, RowEdge(g, 0, J))
    ensures ColumnBound(g) == g.ni + 1 && RowEdge(g, 0, J) != RowEdge(g, 1, J)
    ensures Cross(g, v, RowEdge(g, 0, J)) == Cross(g, v, RowEdge(g, 1, J))
  {
    FractionFlip(g.Value(0, J), g.Value(1, J), v);
    var s := Fraction(g.Value(0, J), g.Value(1, J), v);
    hide Fraction;
    NoSpan(g.Lat(J), s);
    NoSpan(g.Lat(J), 1.0 - s);
  }
}
