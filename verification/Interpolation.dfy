/** Interpolating a grid value at a position: bringing the longitude into the
    range of the data, finding the cell, and blending its corners. */
module Interpolation {
  import opened RealArithmetic
  import opened Grids
  import opened Undefined

  /** The geometry of a grid: first and last point, increments, numbers of points. */
  datatype Message = Message(lon0: real, lon1: real, di: real, lat0: real, lat1: real, dj: real, ni: nat, nj: nat)

  predicate Wraps(m: Message) { Abs(m.lon1 - m.lon0) + Abs(m.di) >= 360.0 }

  predicate XInMap(m: Message, x: real) {
    Wraps(m) ||
    var last := if m.lon0 > 180.0 && m.lon1 < 180.0 then m.lon1 + 360.0 else m.lon1;
    if m.di > 0.0 then m.lon0 <= x <= last else last <= x <= m.lon0
  }

  predicate YInMap(m: Message, y: real) {
    if m.dj < 0.0 then m.lat1 <= y <= m.lat0 else m.lat0 <= y <= m.lat1
  }

  predicate InMap(m: Message, x: real, y: real) { XInMap(m, x) && YInMap(m, y) }

  // ------------------------------------------------------------ longitude

  function Lowered(px: real, end: real): (r: real)
    ensures r <= end
    ensures px <= end ==> r == px
    ensures px > end ==> r > end - 360.0
    decreases px - end
  {
    if px > end then Lowered(px - 360.0, end) else px
  }

  function Raised(px: real, start: real): (r: real)
    ensures r >= start
    ensures px >= start ==> r == px
    ensures px < start ==> r < start + 360.0
    decreases start - px
  {
    if px < start then Raised(px + 360.0, start) else px
  }

  /** The longitude in the range of the data. */
  function Normalized(m: Message, px: real): real {
    Raised(Lowered(px, m.lon1 + m.di), m.lon0)
  }

  lemma {:induction false} LoweredTurns(px: real, end: real) returns (k: int)
    ensures Lowered(px, end) == px + 360.0 * k as real
    decreases px - end
  {
    k := 0;
    if px > end {
      k := LoweredTurns(px - 360.0, end);
      k := k - 1;
    }
  }

  lemma {:induction false} RaisedTurns(px: real, start: real) returns (k: int)
    ensures Raised(px, start) == px + 360.0 * k as real
    decreases start - px
  {
    k := 0;
    if px < start {
      k := RaisedTurns(px + 360.0, start);
      k := k + 1;
    }
  }

  /** The columns go once round, at equal distances. */
  predicate FullCircle(m: Message) {
    m.di > 0.0 && m.ni > 0 && m.lon1 + m.di == m.lon0 + 360.0 && m.di * m.ni as real == 360.0
  }

  lemma NormalizedInCircle(m: Message, px: real) returns (k: int)
    requires FullCircle(m)
    ensures Normalized(m, px) == px + 360.0 * k as real
    ensures m.lon0 <= Normalized(m, px) <= m.lon0 + 360.0
  {
    var a := LoweredTurns(px, m.lon1 + m.di);
    var b := RaisedTurns(Lowered(px, m.lon1 + m.di), m.lon0);
    k := a + b;
  }

  /** The query is on the meridian where the data begin and end. */
  predicate OnClosingMeridian(m: Message, px: real) {
    Normalized(m, px) == m.lon0 || Normalized(m, px) == m.lon0 + 360.0
  }

  /** Off the closing meridian the place in the data does not depend on the
      number of turns in the query. */
  lemma NormalizedPeriodic(m: Message, px: real, turns: int)
    requires FullCircle(m) && !OnClosingMeridian(m, px)
    ensures Normalized(m, px + 360.0 * turns as real) == Normalized(m, px)
  {
    var k := NormalizedInCircle(m, px);
    var l := NormalizedInCircle(m, px + 360.0 * turns as real);
    var n := turns + l - k;
    assert Normalized(m, px + 360.0 * turns as real) == Normalized(m, px) + 360.0 * n as real;
    assert n == 0;
  }

  /** On it, the query is brought to its beginning or to its end. */
  lemma ClosingMeridian(m: Message, turns: int)
    requires FullCircle(m)
    ensures Normalized(m, m.lon0 + 360.0 * turns as real) == if turns <= 0 then m.lon0 else m.lon0 + 360.0
  {
    var px := m.lon0 + 360.0 * turns as real;
    var k := NormalizedInCircle(m, px);
    assert Normalized(m, px) == m.lon0 + 360.0 * (turns + k) as real;
    if turns <= 0 {
      assert Lowered(px, m.lon0 + 360.0) == px;
    } else {
      assert Lowered(px, m.lon0 + 360.0) > m.lon0;
    }
  }

  method Normalize(m: Message, lon: real) returns (px: real)
    ensures px == Normalized(m, lon)
  {
    px := lon;
    var end := m.lon1 + m.di;
    while px > end
      invariant Lowered(px, end) == Lowered(lon, end)
      decreases px - end
    {
      px := px - 360.0;
    }
    while px < m.lon0
      invariant Raised(px, m.lon0) == Normalized(m, lon)
      decreases m.lon0 - px
    {
      px := px + 360.0;
    }
  }

  // ------------------------------------------------------------ the cell

  /** Index parameters are unsigned: a negative index is a very large one. */
  function Unsigned(i: int): int {
    if i < 0 then i + 0x1_0000_0000 else i
  }

  predicate HasValue(g: Values, nj: nat, ni: nat, lon: int, lat: int)
    requires Rectangle(g, nj, ni) && nj <= 0x8000_0000 && ni <= 0x8000_0000
    requires -0x8000_0000 <= lon && -0x8000_0000 <= lat
  {
    && 0 <= Unsigned(lat) < nj && 0 <= Unsigned(lon) < ni
    && g[Unsigned(lat)][Unsigned(lon)] != NOTDEF
  }

  datatype Cell = Cell(i0: int, i1: int, j0: int, dx: real, dy: real)

  /** Columns i0 and i1 and rows j0 and j0 + 1, with the offsets from the first. */
  function CellFrom(m: Message, pi: real, pj: real): (c: Cell)
    ensures c.i1 == 0 || c.i1 == c.i0 || c.i1 == c.i0 + 1
  {
    var i0, j0 := Truncated(pi), Truncated(pj);
    var i1 := if i0 + 1 >= m.ni then (if Wraps(m) then 0 else i0) else i0 + 1;
    Cell(i0, i1, j0, pi - i0 as real, pj - j0 as real)
  }

  function CellOf(m: Message, px: real, py: real): Cell
    requires m.di != 0.0 && m.dj != 0.0
  {
    CellFrom(m, (px - m.lon0) / m.di, (py - m.lat0) / m.dj)
  }

  /** Indices of the program's integer type. */
  predicate Representable(m: Message, c: Cell) {
    && m.ni < 0x8000_0000 && m.nj < 0x8000_0000
    && -0x8000_0000 <= c.i0 < 0x7FFF_FFFF && -0x8000_0000 <= c.j0 < 0x7FFF_FFFF
  }

  function Count(b: bool): nat { if b then 1 else 0 }

  /** How many of the corners of the cell have values. */
  function Valued(m: Message, g: Values, c: Cell): nat
    requires Rectangle(g, m.nj, m.ni) && Representable(m, c) && -0x8000_0000 <= c.i1
  {
    Count(HasValue(g, m.nj, m.ni, c.i0, c.j0)) + Count(HasValue(g, m.nj, m.ni, c.i1, c.j0))
    + Count(HasValue(g, m.nj, m.ni, c.i0, c.j0 + 1)) + Count(HasValue(g, m.nj, m.ni, c.i1, c.j0 + 1))
  }

  /** With values at three corners, all four are places of the grid. */
  lemma ThreeValuesInBounds(m: Message, g: Values, c: Cell)
    requires Rectangle(g, m.nj, m.ni) && Representable(m, c) && -0x8000_0000 <= c.i1
    requires Valued(m, g, c) >= 3
    ensures 0 <= c.i0 < m.ni && 0 <= c.i1 < m.ni && 0 <= c.j0 && c.j0 + 1 < m.nj
  {
  }

  // ------------------------------------------------------------ blending

  /** Corner values; the first digit counts columns, the second rows. */
  datatype Corners = Corners(x00: real, x01: real, x10: real, x11: real)

  function CornersAt(g: Values, c: Cell): Corners
    requires |g| > 0 && Rectangle(g, |g|, |g[0]|)
    requires 0 <= c.i0 < |g[0]| && 0 <= c.i1 < |g[0]| && 0 <= c.j0 && c.j0 + 1 < |g|
  {
    Corners(g[c.j0][c.i0], g[c.j0 + 1][c.i0], g[c.j0][c.i1], g[c.j0 + 1][c.i1])
  }

  /** The corners seen as angles: four comparisons, each after those before it. */
  function Unwound(c: Corners): Corners {
    var c1 := if c.x10 - c.x11 > 90.0 then c.(x11 := c.x11 + 360.0)
              else if c.x11 - c.x10 > 90.0 then c.(x10 := c.x10 + 360.0) else c;
    var c2 := if c1.x00 - c1.x01 > 90.0 then c1.(x01 := c1.x01 + 360.0)
              else if c1.x01 - c1.x00 > 90.0 then c1.(x00 := c1.x00 + 360.0) else c1;
    var c3 := if c2.x00 - c2.x10 > 90.0 then c2.(x10 := c2.x10 + 360.0)
              else if c2.x10 - c2.x00 > 90.0 then c2.(x00 := c2.x00 + 360.0) else c2;
    if c3.x01 - c3.x11 > 90.0 then c3.(x11 := c3.x11 + 360.0)
    else if c3.x11 - c3.x01 > 90.0 then c3.(x01 := c3.x01 + 360.0) else c3
  }

  /** Neighbouring corners differ by no more than a right angle. */
  predicate Close(c: Corners) {
    && -90.0 <= c.x10 - c.x11 <= 90.0 && -90.0 <= c.x00 - c.x01 <= 90.0
    && -90.0 <= c.x00 - c.x10 <= 90.0 && -90.0 <= c.x01 - c.x11 <= 90.0
  }

  function Hermite(d: real): real { (3.0 - 2.0 * d) * d * d }

  function Mix(a: real, b: real, t: real): real { (1.0 - t) * a + t * b }

  function Blend(c: Corners, dx: real, dy: real): real {
    Mix(Mix(c.x00, c.x10, Hermite(dx)), Mix(c.x01, c.x11, Hermite(dx)), Hermite(dy))
  }

  /** The value in a cell. */
  function LookupIn(m: Message, g: Values, c: Cell, numerical: bool): real
    requires Rectangle(g, m.nj, m.ni) && Representable(m, c) && -0x8000_0000 <= c.i1
  {
    if Valued(m, g, c) < 3 then NOTDEF
    else
      ThreeValuesInBounds(m, g, c);
      if !numerical then g[if c.dy < 0.5 then c.j0 else c.j0 + 1][if c.dx < 0.5 then c.i0 else c.i1]
      else if Valued(m, g, c) == 4 then Blend(Unwound(CornersAt(g, c)), c.dx, c.dy)
      else NOTDEF
  }

  /** The value at a position in the data. */
  function Lookup(m: Message, g: Values, px: real, py: real, numerical: bool): real
    requires m.di != 0.0 && m.dj != 0.0 && Rectangle(g, m.nj, m.ni) && Representable(m, CellOf(m, px, py))
  {
    LookupIn(m, g, CellOf(m, px, py), numerical)
  }

  /** The query brought within reach of the map: as it is, a turn to the right of
      it, or a turn to the left. */
  function Reaching(m: Message, px: real, py: real): real {
    if InMap(m, px, py) then px else if InMap(m, px + 360.0, py) then px + 360.0 else px - 360.0
  }

  /** The increments are far enough from zero to divide by. */
  predicate Spaced(m: Message) { Abs(m.di) >= 0.0000000001 && Abs(m.dj) >= 0.0000000001 }

  function Interpolated(m: Message, g: Values, px: real, py: real, numerical: bool): real
    requires Rectangle(g, m.nj, m.ni)
    requires Spaced(m) ==> Representable(m, CellOf(m, Normalized(m, Reaching(m, px, py)), py))
  {
    if !InMap(m, Reaching(m, px, py), py) || !Spaced(m) then NOTDEF
    else Lookup(m, g, Normalized(m, Reaching(m, px, py)), py, numerical)
  }

  method GetInterpolatedValue(m: Message, grid: array2<real>, lon: real, py: real, numerical: bool)
    returns (val: real)
    requires grid.Length0 == m.nj && grid.Length1 == m.ni
    requires Spaced(m) ==> Representable(m, CellOf(m, Normalized(m, Reaching(m, lon, py)), py))
    ensures val == Interpolated(m, Rows(grid), lon, py, numerical)
  {
    hide LookupIn, Normalized, InMap, CellFrom, Rows;
    var px := lon;
    if !InMap(m, px, py) {
      px := px + 360.0;
      if !InMap(m, px, py) {
        px := px - 2.0 * 360.0;
        if !InMap(m, px, py) {
          return NOTDEF;
        }
      }
    }
    px := Normalize(m, px);
    if Abs(m.di) < 0.0000000001 || Abs(m.dj) < 0.0000000001 {
      return NOTDEF;
    }
    var c := CellOf(m, px, py);
    val := InterpolateIn(m, grid, c, numerical);
  }

  method InterpolateIn(m: Message, grid: array2<real>, c: Cell, numerical: bool) returns (val: real)
    requires grid.Length0 == m.nj && grid.Length1 == m.ni && Representable(m, c) && -0x8000_0000 <= c.i1
    ensures val == LookupIn(m, Rows(grid), c, numerical)
  {
    hide Blend, Unwound, Rows;
    ghost var g := Rows(grid);
    var h00 := Defined(grid, m, c.i0, c.j0);
    var h10 := Defined(grid, m, c.i1, c.j0);
    var h01 := Defined(grid, m, c.i0, c.j0 + 1);
    var h11 := Defined(grid, m, c.i1, c.j0 + 1);
    var nbval := Count(h00) + Count(h10) + Count(h01) + Count(h11);
    if nbval < 3 {
      return NOTDEF;
    }
    ThreeValuesInBounds(m, g, c);
    if !numerical {
      if c.dx < 0.5 {
        if c.dy < 0.5 {
          val := grid[c.j0, c.i0];
        } else {
          val := grid[c.j0 + 1, c.i0];
        }
      } else {
        if c.dy < 0.5 {
          val := grid[c.j0, c.i1];
        } else {
          val := grid[c.j0 + 1, c.i1];
        }
      }
      return;
    }
    if nbval == 4 {
      var x := Corners(grid[c.j0, c.i0], grid[c.j0 + 1, c.i0], grid[c.j0, c.i1], grid[c.j0 + 1, c.i1]);
      val := Blend(Unwound(x), c.dx, c.dy);
    } else {
      val := NOTDEF;
    }
  }

  method Defined(grid: array2<real>, m: Message, lon: int, lat: int) returns (has: bool)
    requires grid.Length0 == m.nj <= 0x8000_0000 && grid.Length1 == m.ni <= 0x8000_0000
    requires -0x8000_0000 <= lon && -0x8000_0000 <= lat
    ensures has <==> HasValue(Rows(grid), m.nj, m.ni, lon, lat)
  {
    var y, x := Unsigned(lat), Unsigned(lon);
    has := 0 <= y < m.nj && 0 <= x < m.ni && grid[y, x] != NOTDEF;
  }

  // ------------------------------------------------------------ what it means

  lemma HermiteInUnit(d: real)
    requires 0.0 <= d <= 1.0
    ensures 0.0 <= Hermite(d) <= 1.0
    ensures Hermite(0.0) == 0.0 && Hermite(1.0) == 1.0
  {
    var a := 3.0 - 2.0 * d;
    NonnegativeProduct(a, d);
    NonnegativeProduct(a * d, d);
    var b := 1.0 + 2.0 * d;
    var e := 1.0 - d;
    NonnegativeProduct(b, e);
    NonnegativeProduct(b * e, e);
    assert b * e == 1.0 + d - 2.0 * (d * d);
    assert (b * e) * e == 1.0 - a * d * d;
  }

  /** The weight runs from one node to the other the same way in both directions,
      and leaves a node with no slope. */
  lemma HermiteSmooth(d: real)
    requires 0.0 <= d <= 1.0
    ensures Hermite(1.0 - d) == 1.0 - Hermite(d)
    ensures 0.0 <= Hermite(d) <= 3.0 * d * d
  {
    HermiteInUnit(d);
    NonnegativeProduct(d, d);
    NonnegativeProduct(d * d, d);
    assert Hermite(d) == 3.0 * d * d - 2.0 * (d * d * d);
    var e := 1.0 - d;
    assert e * e == 1.0 - 2.0 * d + d * d;
    assert e * e * e == 1.0 - 3.0 * d + 3.0 * (d * d) - d * d * d;
    assert Hermite(e) == 3.0 * (e * e) - 2.0 * (e * e * e);
  }

  lemma MixBetween(a: real, b: real, t: real, low: real, high: real)
    requires 0.0 <= t <= 1.0 && low <= a <= high && low <= b <= high
    ensures low <= Mix(a, b, t) <= high
  {
    var u := 1.0 - t;
    NonnegativeProduct(u, a - low);
    NonnegativeProduct(t, b - low);
    NonnegativeProduct(u, high - a);
    NonnegativeProduct(t, high - b);
    assert u * (a - low) == u * a - u * low && t * (b - low) == t * b - t * low;
    assert u * (high - a) == u * high - u * a && t * (high - b) == t * high - t * b;
    assert u * low + t * low == low && u * high + t * high == high;
  }

  /** The blend lies between the corners. */
  lemma BlendBetween(c: Corners, dx: real, dy: real, low: real, high: real)
    requires 0.0 <= dx <= 1.0 && 0.0 <= dy <= 1.0
    requires low <= c.x00 <= high && low <= c.x01 <= high && low <= c.x10 <= high && low <= c.x11 <= high
    ensures low <= Blend(c, dx, dy) <= high
  {
    hide Mix, Hermite;
    HermiteInUnit(dx);
    HermiteInUnit(dy);
    MixBetween(c.x00, c.x10, Hermite(dx), low, high);
    MixBetween(c.x01, c.x11, Hermite(dx), low, high);
    MixBetween(Mix(c.x00, c.x10, Hermite(dx)), Mix(c.x01, c.x11, Hermite(dx)), Hermite(dy), low, high);
  }

  lemma MixEnds(a: real, b: real)
    ensures Mix(a, b, 0.0) == a && Mix(a, b, 1.0) == b
  {
  }

  /** On a side the blend does not look at the corners opposite, so that the
      formulas of the two cells that share the side agree on it. */
  lemma SharedVerticalSide(left: Corners, right: Corners, dy: real)
    requires left.x10 == right.x00 && left.x11 == right.x01
    ensures Blend(left, 1.0, dy) == Blend(right, 0.0, dy)
  {
    hide Mix, Hermite;
    HermiteInUnit(0.0);
    MixEnds(left.x00, left.x10);
    MixEnds(left.x01, left.x11);
    MixEnds(right.x00, right.x10);
    MixEnds(right.x01, right.x11);
  }

  lemma SharedHorizontalSide(upper: Corners, lower: Corners, dx: real)
    requires upper.x01 == lower.x00 && upper.x11 == lower.x10
    ensures Blend(upper, dx, 1.0) == Blend(lower, dx, 0.0)
  {
    hide Mix, Hermite;
    HermiteInUnit(0.0);
    MixEnds(Mix(upper.x00, upper.x10, Hermite(dx)), Mix(upper.x01, upper.x11, Hermite(dx)));
    MixEnds(Mix(lower.x00, lower.x10, Hermite(dx)), Mix(lower.x01, lower.x11, Hermite(dx)));
  }

  lemma CloseUnwound(c: Corners)
    requires Close(c)
    ensures Unwound(c) == c
  {
  }

  lemma TruncatedOffset(r: real)
    requires r >= 0.0
    ensures Truncated(r) >= 0 && 0.0 <= r - Truncated(r) as real < 1.0
  {
  }

  /** Between four values that are close to each other the result lies between
      the least and the greatest of them. */
  lemma LookupBetween(m: Message, g: Values, px: real, py: real, low: real, high: real)
    requires m.di > 0.0 && m.dj != 0.0 && Rectangle(g, m.nj, m.ni) && Representable(m, CellOf(m, px, py))
    requires m.lon0 <= px && YInMap(m, py)
    requires Valued(m, g, CellOf(m, px, py)) == 4
    requires 0 <= CellOf(m, px, py).i0 < m.ni && 0 <= CellOf(m, px, py).i1 < m.ni
    requires 0 <= CellOf(m, px, py).j0 && CellOf(m, px, py).j0 + 1 < m.nj
    requires var x := CornersAt(g, CellOf(m, px, py));
             && Close(x)
             && low <= x.x00 <= high && low <= x.x01 <= high && low <= x.x10 <= high && low <= x.x11 <= high
    ensures low <= Lookup(m, g, px, py, true) <= high
  {
    hide Blend, Unwound, CellOf;
    var c := CellOf(m, px, py);
    OffsetsInUnit(m, px, py);
    CloseUnwound(CornersAt(g, c));
    BlendBetween(CornersAt(g, c), c.dx, c.dy, low, high);
  }

  lemma OffsetsInUnit(m: Message, px: real, py: real)
    requires m.di > 0.0 && m.dj != 0.0 && m.lon0 <= px && YInMap(m, py)
    ensures 0.0 <= CellOf(m, px, py).dx < 1.0 && 0.0 <= CellOf(m, px, py).dy < 1.0
    ensures 0 <= CellOf(m, px, py).i0 && 0 <= CellOf(m, px, py).j0
  {
    var pi, pj := (px - m.lon0) / m.di, (py - m.lat0) / m.dj;
    QuotientOrder(px - m.lon0, m.di, 0.0);
    if m.dj > 0.0 {
      QuotientOrder(py - m.lat0, m.dj, 0.0);
    } else {
      FlipQuotient(py - m.lat0, m.dj);
      QuotientOrder(-(py - m.lat0), -m.dj, 0.0);
    }
    TruncatedOffset(pi);
    TruncatedOffset(pj);
  }

  /** At a node the cell is that of the node, with no offset. */
  lemma CellAtNode(m: Message, px: real, py: real, i: nat, j: nat)
    requires m.di != 0.0 && m.dj != 0.0
    requires px == m.lon0 + i as real * m.di && py == m.lat0 + j as real * m.dj
    ensures CellOf(m, px, py).i0 == i && CellOf(m, px, py).j0 == j
    ensures CellOf(m, px, py).dx == 0.0 && CellOf(m, px, py).dy == 0.0
  {
    hide CellFrom;
    NodeQuotient(px, m.lon0, i, m.di);
    NodeQuotient(py, m.lat0, j, m.dj);
    WholeCell(m, i, j);
  }

  lemma WholeCell(m: Message, i: nat, j: nat)
    ensures var c := CellFrom(m, i as real, j as real);
            c.i0 == i && c.j0 == j && c.dx == 0.0 && c.dy == 0.0
  {
  }

  lemma NodeQuotient(p: real, start: real, i: nat, step: real)
    requires step != 0.0 && p == start + i as real * step
    ensures (p - start) / step == i as real
  {
    var n := p - start;
    Quotient(n, step);
    assert (n / step - i as real) * step == 0.0;
    NonzeroProduct(n / step - i as real, step);
  }

  /** At a node of four close values the result is the value of the node. */
  lemma LookupAtNode(m: Message, g: Values, px: real, py: real, i: nat, j: nat)
    requires m.di != 0.0 && m.dj != 0.0 && Rectangle(g, m.nj, m.ni)
    requires px == m.lon0 + i as real * m.di && py == m.lat0 + j as real * m.dj && i < m.ni && j + 1 < m.nj
    requires var c := CellOf(m, px, py);
             && Representable(m, c) && Valued(m, g, c) == 4
             && 0 <= c.i0 < m.ni && 0 <= c.i1 < m.ni && 0 <= c.j0 && c.j0 + 1 < m.nj
             && Close(CornersAt(g, c))
    ensures Lookup(m, g, px, py, true) == g[j][i]
  {
    hide Blend, Unwound, CellOf;
    var c := CellOf(m, px, py);
    CellAtNode(m, px, py, i, j);
    CloseUnwound(CornersAt(g, c));
    BlendAtCorner(CornersAt(g, c));
  }

  /** So it is for the nearest value, with a value at any three corners. */
  lemma NearestAtNode(m: Message, g: Values, px: real, py: real, i: nat, j: nat)
    requires m.di != 0.0 && m.dj != 0.0 && Rectangle(g, m.nj, m.ni)
    requires px == m.lon0 + i as real * m.di && py == m.lat0 + j as real * m.dj && i < m.ni && j < m.nj
    requires Representable(m, CellOf(m, px, py)) && -0x8000_0000 <= CellOf(m, px, py).i1
    requires Valued(m, g, CellOf(m, px, py)) >= 3
    ensures Lookup(m, g, px, py, false) == g[j][i]
  {
    hide CellFrom;
    CellAtNode(m, px, py, i, j);
  }

  lemma BlendAtCorner(c: Corners)
    ensures Blend(c, 0.0, 0.0) == c.x00
  {
    hide Mix, Hermite;
    HermiteInUnit(0.0);
    MixEnds(c.x00, c.x10);
    MixEnds(c.x00, Mix(c.x01, c.x11, Hermite(0.0)));
  }

  /** Beyond the last column the data go on with column 0. */
  lemma LastColumnBlendsIntoFirst(m: Message, px: real, py: real)
    requires FullCircle(m) && m.dj != 0.0
    requires m.lon0 + (m.ni - 1) as real * m.di <= px < m.lon0 + 360.0
    ensures CellOf(m, px, py).i0 == m.ni - 1 && CellOf(m, px, py).i1 == 0
  {
    var pi := (px - m.lon0) / m.di;
    QuotientOrder(px - m.lon0, m.di, (m.ni - 1) as real);
    QuotientOrder(px - m.lon0, m.di, m.ni as real);
    assert (m.ni - 1) as real <= pi < m.ni as real;
  }

  /** At the far end of the circle there is no column, and so no value. */
  lemma NothingAtFarEnd(m: Message, g: Values, py: real, numerical: bool)
    requires FullCircle(m) && m.dj != 0.0 && Rectangle(g, m.nj, m.ni)
    requires Representable(m, CellOf(m, m.lon0 + 360.0, py))
    ensures Lookup(m, g, m.lon0 + 360.0, py, numerical) == NOTDEF
  {
    assert m.ni as real * m.di == m.di * m.ni as real;
    NodeQuotient(m.lon0 + 360.0, m.lon0, m.ni, m.di);
  }

  lemma FullCircleWraps(m: Message, px: real, py: real)
    requires FullCircle(m)
    ensures Wraps(m) && (InMap(m, px, py) <==> YInMap(m, py))
    ensures Reaching(m, px, py) == if YInMap(m, py) then px else px - 360.0
  {
  }

  ghost predicate Usable(m: Message, g: Values, px: real, py: real) {
    && Rectangle(g, m.nj, m.ni)
    && (Spaced(m) ==> Representable(m, CellOf(m, Normalized(m, Reaching(m, px, py)), py)))
  }

  /** On a full circle the interpolated value does not change with the number of
      turns in the query, off the closing meridian. */
  lemma InterpolatedPeriodic(m: Message, g: Values, px: real, py: real, numerical: bool, turns: int)
    requires FullCircle(m) && !OnClosingMeridian(m, px)
    requires Usable(m, g, px, py) && Usable(m, g, px + 360.0 * turns as real, py)
    ensures Interpolated(m, g, px + 360.0 * turns as real, py, numerical) == Interpolated(m, g, px, py, numerical)
  {
    hide LookupIn, Normalized, CellFrom;
    FullCircleWraps(m, px, py);
    FullCircleWraps(m, px + 360.0 * turns as real, py);
    NormalizedPeriodic(m, px, turns);
  }

  /** On the closing meridian it is that of the first column for a query at the
      beginning of the data or turns before it, and none for one turns after. */
  lemma InterpolatedOnClosingMeridian(m: Message, g: Values, py: real, numerical: bool, turns: int)
    requires FullCircle(m) && Spaced(m) && YInMap(m, py)
    requires Usable(m, g, m.lon0 + 360.0 * turns as real, py)
    requires Representable(m, CellOf(m, m.lon0, py)) && Representable(m, CellOf(m, m.lon0 + 360.0, py))
    ensures Interpolated(m, g, m.lon0 + 360.0 * turns as real, py, numerical) ==
            if turns <= 0 then Lookup(m, g, m.lon0, py, numerical) else NOTDEF
  {
    hide LookupIn, Normalized, CellFrom;
    FullCircleWraps(m, m.lon0 + 360.0 * turns as real, py);
    ClosingMeridian(m, turns);
    NothingAtFarEnd(m, g, py, numerical);
  }

  /** Nor is there a value on the last row of the grid: a cell needs the row
      after it. */
  lemma NothingOnLastRow(m: Message, g: Values, px: real, py: real, numerical: bool)
    requires m.di != 0.0 && m.dj != 0.0 && m.nj > 0 && Rectangle(g, m.nj, m.ni)
    requires py == m.lat0 + (m.nj - 1) as real * m.dj && Representable(m, CellOf(m, px, py))
    ensures Lookup(m, g, px, py, numerical) == NOTDEF
  {
    NodeQuotient(py, m.lat0, m.nj - 1, m.dj);
  }
}
