/** The interpolated value written out: which nodes it depends on and how, on
    either side of the line between two cells, across north, and off the map. */
module InterpolationFormula {
  import opened RealArithmetic
  import opened Grids
  import opened Undefined
  import opened Interpolation

  // ------------------------------------------------------- the cell of a query

  /** The column after column i: past the last one, the first of a grid that goes
      round, and otherwise the last again. */
  function NextColumn(m: Message, i: nat): nat {
    if i + 1 < m.ni then i + 1
    else if Abs(m.lon1 - m.lon0) + Abs(m.di) >= 360.0 then 0
    else i
  }

  lemma StepQuotient(p: real, start: real, steps: real, step: real)
    requires step != 0.0 && p == start + steps * step
    ensures (p - start) / step == steps
  {
    var n := p - start;
    Quotient(n, step);
    assert (n / step - steps) * step == 0.0;
    NonzeroProduct(n / step - steps, step);
  }

  lemma TruncatedInStep(i: nat, s: real)
    requires 0.0 <= s < 1.0
    ensures Truncated(i as real + s) == i
  {
  }

  /** The query is s columns and t rows past the node (i, j), less than one of each. */
  predicate Past(m: Message, i: nat, j: nat, s: real, t: real, px: real, py: real) {
    && 0.0 <= s < 1.0 && 0.0 <= t < 1.0
    && px == m.lon0 + (i as real + s) * m.di && py == m.lat0 + (j as real + t) * m.dj
  }

  lemma CellInside(m: Message, i: nat, j: nat, s: real, t: real, px: real, py: real)
    requires m.di != 0.0 && m.dj != 0.0 && i < m.ni && Past(m, i, j, s, t, px, py)
    ensures CellOf(m, px, py) == Cell(i, NextColumn(m, i), j, s, t)
  {
    hide CellFrom;
    StepQuotient(px, m.lon0, i as real + s, m.di);
    StepQuotient(py, m.lat0, j as real + t, m.dj);
    CellFromSteps(m, i, j, s, t);
  }

  lemma CellFromSteps(m: Message, i: nat, j: nat, s: real, t: real)
    requires i < m.ni && 0.0 <= s < 1.0 && 0.0 <= t < 1.0
    ensures CellFrom(m, i as real + s, j as real + t) == Cell(i, NextColumn(m, i), j, s, t)
  {
    hide Truncated;
    TruncatedInStep(i, s);
    TruncatedInStep(j, t);
  }

  // ------------------------------------------------------------- the formula

  function Weight(d: real): real { 3.0 * d * d - 2.0 * d * d * d }

  /** Four corners blended: a and b on the first row, c and d on the second. */
  function Formula(a: real, b: real, c: real, d: real, s: real, t: real): real {
    (1.0 - Weight(t)) * ((1.0 - Weight(s)) * a + Weight(s) * b)
    + Weight(t) * ((1.0 - Weight(s)) * c + Weight(s) * d)
  }

  lemma WeightIsHermite(d: real)
    ensures Hermite(d) == Weight(d)
  {
    assert (3.0 - 2.0 * d) * d == 3.0 * d - 2.0 * d * d;
    assert (3.0 * d - 2.0 * d * d) * d == 3.0 * d * d - 2.0 * d * d * d;
  }

  lemma BlendIsFormula(c: Corners, s: real, t: real)
    ensures Blend(c, s, t) == Formula(c.x00, c.x10, c.x01, c.x11, s, t)
  {
    hide Hermite, Weight;
    WeightIsHermite(s);
    WeightIsHermite(t);
  }

  predicate Apart(a: real, b: real) { a - b > 90.0 || b - a > 90.0 }

  function Known(v: real): nat { if v != NOTDEF then 1 else 0 }

  /** The value anywhere in a cell of the grid. In the first mode it is that of the
      nearest node, if at least three of the four have values; in the other it is the
      blend of four values, which are taken as they are where no neighbours are more
      than 90 apart. */
  lemma LookupInside(m: Message, g: Values, i: nat, j: nat, s: real, t: real, px: real, py: real)
    requires m.di != 0.0 && m.dj != 0.0 && Rectangle(g, m.nj, m.ni) && m.ni < 0x8000_0000 && m.nj < 0x8000_0000
    requires i < m.ni && j + 1 < m.nj && Past(m, i, j, s, t, px, py)
    ensures var i1 := NextColumn(m, i);
            var a, b, c, d := g[j][i], g[j][i1], g[j + 1][i], g[j + 1][i1];
            var known := Known(a) + Known(b) + Known(c) + Known(d);
            && Representable(m, CellOf(m, px, py))
            && Lookup(m, g, px, py, false) ==
               (if known >= 3 then g[if t < 0.5 then j else j + 1][if s < 0.5 then i else i1] else NOTDEF)
            && (known < 4 ==> Lookup(m, g, px, py, true) == NOTDEF)
            && (known == 4 && !Apart(a, b) && !Apart(c, d) && !Apart(a, c) && !Apart(b, d) ==>
                  Lookup(m, g, px, py, true) == Formula(a, b, c, d, s, t))
  {
    hide Blend, Formula, CellOf, Unwound;
    var i1 := NextColumn(m, i);
    CellInside(m, i, j, s, t, px, py);
    var x := CornersAt(g, Cell(i, i1, j, s, t));
    if Close(x) {
      CloseUnwound(x);
    }
    BlendIsFormula(x, s, t);
  }

  lemma EdgeWeights()
    ensures Weight(0.0) == 0.0 && Weight(1.0) == 1.0
  {
  }

  /** On the line along a row the value depends only on the two nodes on either side
      in that row, on the line along a column only on the two in that column. */
  lemma OnGridLines(a: real, b: real, c: real, d: real, s: real, t: real)
    ensures Formula(a, b, c, d, s, 0.0) == (1.0 - Weight(s)) * a + Weight(s) * b
    ensures Formula(a, b, c, d, s, 1.0) == (1.0 - Weight(s)) * c + Weight(s) * d
    ensures Formula(a, b, c, d, 0.0, t) == (1.0 - Weight(t)) * a + Weight(t) * c
    ensures Formula(a, b, c, d, 1.0, t) == (1.0 - Weight(t)) * b + Weight(t) * d
  {
    EdgeWeights();
    hide Weight;
  }

  /** All four nodes of the cell have values, and no neighbours are more than 90 apart. */
  predicate Smooth(m: Message, g: Values, i: nat, j: nat)
    requires Rectangle(g, m.nj, m.ni) && i < m.ni && j + 1 < m.nj
  {
    var k := NextColumn(m, i);
    && g[j][i] != NOTDEF && g[j][k] != NOTDEF && g[j + 1][i] != NOTDEF && g[j + 1][k] != NOTDEF
    && !Apart(g[j][i], g[j][k]) && !Apart(g[j + 1][i], g[j + 1][k])
    && !Apart(g[j][i], g[j + 1][i]) && !Apart(g[j][k], g[j + 1][k])
  }

  /** So the value looked up on a row of the grid is that of two nodes of the row, and
      on a column of the grid that of two nodes of the column. */
  lemma LookupOnGridLines(m: Message, g: Values, i: nat, j: nat, s: real, t: real, px: real, py: real)
    requires m.di != 0.0 && m.dj != 0.0 && Rectangle(g, m.nj, m.ni) && m.ni < 0x8000_0000 && m.nj < 0x8000_0000
    requires i < m.ni && j + 1 < m.nj && Past(m, i, j, s, t, px, py) && Smooth(m, g, i, j)
    ensures Representable(m, CellOf(m, px, py))
    ensures t == 0.0 ==>
              Lookup(m, g, px, py, true) == (1.0 - Weight(s)) * g[j][i] + Weight(s) * g[j][NextColumn(m, i)]
    ensures s == 0.0 ==> Lookup(m, g, px, py, true) == (1.0 - Weight(t)) * g[j][i] + Weight(t) * g[j + 1][i]
  {
    hide Formula, Weight, Lookup, CellOf, Past;
    var k := NextColumn(m, i);
    LookupInside(m, g, i, j, s, t, px, py);
    OnGridLines(g[j][i], g[j][k], g[j + 1][i], g[j + 1][k], s, t);
  }

  /** The two neighbouring cells of the grid agree on the side that they share: the
      value there is that which the formula of the cell before it has there. */
  lemma ContinuesInNextColumn(m: Message, g: Values, i: nat, j: nat, t: real, px: real, py: real)
    requires m.di != 0.0 && m.dj != 0.0 && Rectangle(g, m.nj, m.ni) && m.ni < 0x8000_0000 && m.nj < 0x8000_0000
    requires i + 1 < m.ni && j + 1 < m.nj && Past(m, i + 1, j, 0.0, t, px, py)
    requires Smooth(m, g, i + 1, j)
    ensures && Representable(m, CellOf(m, px, py))
            && Lookup(m, g, px, py, true) == Formula(g[j][i], g[j][i + 1], g[j + 1][i], g[j + 1][i + 1], 1.0, t)
  {
    hide Formula, Weight, Lookup, CellOf, Past;
    var k := NextColumn(m, i + 1);
    LookupInside(m, g, i + 1, j, 0.0, t, px, py);
    OnGridLines(g[j][i + 1], g[j][k], g[j + 1][i + 1], g[j + 1][k], 0.0, t);
    OnGridLines(g[j][i], g[j][i + 1], g[j + 1][i], g[j + 1][i + 1], 0.0, t);
  }

  lemma ContinuesInNextRow(m: Message, g: Values, i: nat, j: nat, s: real, px: real, py: real)
    requires m.di != 0.0 && m.dj != 0.0 && Rectangle(g, m.nj, m.ni) && m.ni < 0x8000_0000 && m.nj < 0x8000_0000
    requires i < m.ni && j + 2 < m.nj && Past(m, i, j + 1, s, 0.0, px, py)
    requires Smooth(m, g, i, j + 1)
    ensures var k := NextColumn(m, i);
            && Representable(m, CellOf(m, px, py))
            && Lookup(m, g, px, py, true) == Formula(g[j][i], g[j][k], g[j + 1][i], g[j + 1][k], s, 1.0)
  {
    hide Formula, Weight, Lookup, CellOf, Past;
    var k := NextColumn(m, i);
    LookupInside(m, g, i, j + 1, s, 0.0, px, py);
    OnGridLines(g[j + 1][i], g[j + 1][k], g[j + 2][i], g[j + 2][k], s, 0.0);
    OnGridLines(g[j][i], g[j][k], g[j + 1][i], g[j + 1][k], s, 0.0);
  }

  // ------------------------------------------------------ directions at north

  /** A direction in [0, 360), counted on past north if it is below `from`. */
  function Onward(x: real, from: real): real { if x < from then x + 360.0 else x }

  /** Directions on either side of north. */
  predicate AroundNorth(x: real, from: real) { from <= x < 360.0 || 0.0 <= x <= from - 270.0 }

  /** Four directions within a quarter turn that runs over north, one at least west of
      it: those east of north are counted on from 360. */
  lemma UnwoundOverNorth(c: Corners, from: real)
    requires 270.0 <= from < 360.0
    requires AroundNorth(c.x00, from) && AroundNorth(c.x01, from)
    requires AroundNorth(c.x10, from) && AroundNorth(c.x11, from)
    requires c.x00 >= from || c.x01 >= from || c.x10 >= from || c.x11 >= from
    ensures Unwound(c) ==
            Corners(Onward(c.x00, from), Onward(c.x01, from), Onward(c.x10, from), Onward(c.x11, from))
  {
  }

  /** So the direction between them is found on the short way over north, and not on
      the long way through south. */
  lemma LookupOverNorth(m: Message, g: Values, i: nat, j: nat, s: real, t: real, px: real, py: real, from: real)
    requires m.di != 0.0 && m.dj != 0.0 && Rectangle(g, m.nj, m.ni) && m.ni < 0x8000_0000 && m.nj < 0x8000_0000
    requires i < m.ni && j + 1 < m.nj && Past(m, i, j, s, t, px, py) && 270.0 <= from < 360.0
    requires var i1 := NextColumn(m, i);
             && AroundNorth(g[j][i], from) && AroundNorth(g[j][i1], from)
             && AroundNorth(g[j + 1][i], from) && AroundNorth(g[j + 1][i1], from)
             && (g[j][i] >= from || g[j][i1] >= from || g[j + 1][i] >= from || g[j + 1][i1] >= from)
    ensures var i1 := NextColumn(m, i);
            && Representable(m, CellOf(m, px, py))
            && Lookup(m, g, px, py, true) ==
               Formula(Onward(g[j][i], from), Onward(g[j][i1], from),
                       Onward(g[j + 1][i], from), Onward(g[j + 1][i1], from), s, t)
            && from <= Lookup(m, g, px, py, true) <= from + 90.0
  {
    hide Blend, Formula, CellOf, Unwound;
    var i1 := NextColumn(m, i);
    CellInside(m, i, j, s, t, px, py);
    var x := CornersAt(g, Cell(i, i1, j, s, t));
    UnwoundOverNorth(x, from);
    BlendIsFormula(Unwound(x), s, t);
    BlendBetween(Unwound(x), s, t, from, from + 90.0);
  }

  // ---------------------------------------------------- which queries have one

  /** On a grid that does not go round, with its columns in ascending order, only the
      longitudes from the first to the last have a value; a query is also tried a turn
      to the east and a turn to the west. */
  lemma InterpolatedOffCircle(m: Message, g: Values, px: real, py: real, numerical: bool)
    requires m.di >= 0.0000000001 && m.lon0 <= m.lon1 && m.lon1 - m.lon0 + m.di < 360.0
    requires (m.dj >= 0.0000000001 || m.dj <= -0.0000000001) && Usable(m, g, px, py)
    ensures var inside, x := (m.lat0 <= py <= m.lat1 && m.dj > 0.0) || (m.lat1 <= py <= m.lat0 && m.dj < 0.0),
                             Reaching(m, px, py);
            && Representable(m, CellOf(m, Normalized(m, x), py))
            && (inside && m.lon0 <= px <= m.lon1 ==> x == px)
            && (inside && m.lon0 <= px + 360.0 <= m.lon1 ==> x == px + 360.0)
            && (inside && m.lon0 <= px - 360.0 <= m.lon1 ==> x == px - 360.0)
            && Interpolated(m, g, px, py, numerical) ==
               if inside && m.lon0 <= x <= m.lon1 then LookupIn(m, g, CellOf(m, x, py), numerical) else NOTDEF
  {
    hide LookupIn, CellFrom;
  }

  /** The same for a grid given in degrees east that begins west of Greenwich and ends
      east of it: its longitudes are counted on past 360. */
  lemma MapOverGreenwich(m: Message, x: real)
    requires 180.0 < m.lon0 < 360.0 && 0.0 <= m.lon1 < 180.0 && m.di > 0.0 && m.lon1 + m.di < m.lon0
    requires m.lon0 - m.lon1 + m.di < 360.0
    ensures XInMap(m, x) <==> m.lon0 <= x <= m.lon1 + 360.0
    ensures XInMap(m, x) ==> Normalized(m, x) == x
  {
  }

  /** With the columns in descending order the query is raised past the data: there is
      a value at the longitude of the first column only. */
  lemma DescendingColumnsLost(m: Message, g: Values, px: real, py: real, numerical: bool)
    requires m.di <= -0.0000000001 && m.lon1 <= px <= m.lon0 <= 180.0 && m.lon0 - m.lon1 - m.di < 360.0
    requires m.dj >= 0.0000000001 && m.lat0 <= py <= m.lat1 && Usable(m, g, px, py)
    ensures XInMap(m, px) && Representable(m, CellOf(m, Normalized(m, px), py))
    ensures Interpolated(m, g, px, py, numerical) ==
            if px == m.lon0 then LookupIn(m, g, CellOf(m, m.lon0, py), numerical) else NOTDEF
  {
    hide LookupIn, CellFrom, Raised, Lowered;
    RaisedPast(m, px);
    assert Reaching(m, px, py) == px;
    if px < m.lon0 {
      var n := Normalized(m, px) - m.lon0;
      var p := n / m.di;
      FlipQuotient(n, m.di);
      QuotientOrder(-n, -m.di, -1.0);
      assert p < -1.0;
      BeforeFirstColumn(m, g, p, (py - m.lat0) / m.dj, numerical);
    }
  }

  lemma RaisedPast(m: Message, px: real)
    requires m.di < 0.0 && m.lon1 <= px <= m.lon0 && m.lon0 - m.lon1 - m.di < 360.0
    ensures Normalized(m, px) == if px == m.lon0 then px else px + 360.0
  {
    assert Lowered(px, m.lon1 + m.di) == Lowered(px - 360.0, m.lon1 + m.di) == px - 360.0;
    assert Raised(px, m.lon0) == if px == m.lon0 then px else Raised(px + 360.0, m.lon0);
  }

  lemma BeforeFirstColumn(m: Message, g: Values, p: real, q: real, numerical: bool)
    requires Rectangle(g, m.nj, m.ni) && p <= -1.0 && Representable(m, CellFrom(m, p, q))
    ensures LookupIn(m, g, CellFrom(m, p, q), numerical) == NOTDEF
  {
  }

  /** A grid whose first and last column and increment together make a turn takes
      every longitude. */
  lemma MapGoesRound(m: Message, x: real)
    requires m.lon1 - m.lon0 + m.di >= 360.0 && m.di >= 0.0 && m.lon1 >= m.lon0
    ensures XInMap(m, x)
  {
  }
}
