/** Marching squares over a longitude/latitude grid with missing cells: which
    grid edges the level crosses, where it crosses them, and which pairs of
    crossed edges each cell joins. */
module MarchingSquares {
  import opened Undefined

  datatype Point = Point(x: real, y: real)

  /** A grid edge, as the ordered pair of its end nodes (i,j) and (k,l). */
  datatype Edge = Edge(i: int, j: int, k: int, l: int)

  /** The two edges that one extracted segment joins. */
  datatype Link = Link(e1: Edge, e2: Edge)

  /** The corner letters handed to the segment constructor. */
  datatype Cut = Cut(c1: char, c2: char, c3: char, c4: char)

  /** `ni` columns by `nj` rows of values with an origin and a step per axis. */
  datatype Grid = Grid(ni: nat, nj: nat, rows: seq<seq<real>>,
                       lonMin: real, latMin: real, di: real, dj: real)
  {
    ghost predicate Valid() {
      |rows| == nj && forall j :: 0 <= j < nj ==> |rows[j]| == ni
    }

    function Value(i: int, j: int): real
      requires Valid() && 0 <= i < ni && 0 <= j < nj
    {
      rows[j][i]
    }

    function Lon(i: int): real { Along(lonMin, i as real, di) }

    function Lat(j: int): real { Along(latMin, j as real, dj) }

    function LonMax(): real { Lon(ni - 1) }
  }

  function Along(origin: real, steps: real, d: real): real { origin + steps * d }

  // ---------------------------------------------------------------- cells

  /** The node behind a corner letter of cell (I,J); column 0 is the seam cell. */
  function Corner(I: int, w: int, J: int, c: char): (int, int) {
    var left := if I != 0 then I - 1 else w - 1;
    match c
    case 'a' => (left, J - 1)
    case 'b' => (I, J - 1)
    case 'c' => (left, J)
    case 'd' => (I, J)
    case _ => (I, J)
  }

  function SideEdge(I: int, w: int, J: int, c1: char, c2: char): Edge {
    var p, q := Corner(I, w, J, c1), Corner(I, w, J, c2);
    Edge(p.0, p.1, q.0, q.1)
  }

  /** The case analysis of the extractors: the segments crossing a cell
      with corner values
        a  b
        c  d  */
  function CellCuts(a: real, b: real, c: real, d: real, v: real): seq<Cut> {
    if (a <= v && b <= v && c <= v && d > v) || (a > v && b > v && c > v && d <= v) then
      [Cut('c', 'd', 'b', 'd')]
    else if (a <= v && c <= v && d <= v && b > v) || (a > v && c > v && d > v && b <= v) then
      [Cut('a', 'b', 'b', 'd')]
    else if (c <= v && d <= v && b <= v && a > v) || (c > v && d > v && b > v && a <= v) then
      [Cut('a', 'b', 'a', 'c')]
    else if (a <= v && b <= v && d <= v && c > v) || (a > v && b > v && d > v && c <= v) then
      [Cut('a', 'c', 'c', 'd')]
    else if (a <= v && b <= v && c > v && d > v) || (a > v && b > v && c <= v && d <= v) then
      [Cut('a', 'c', 'b', 'd')]
    else if (a <= v && c <= v && b > v && d > v) || (a > v && c > v && b <= v && d <= v) then
      [Cut('a', 'b', 'c', 'd')]
    else if a <= v && d <= v && c > v && b > v then
      [Cut('a', 'b', 'b', 'd'), Cut('a', 'c', 'c', 'd')]
    else if a > v && d > v && c <= v && b <= v then
      [Cut('a', 'b', 'a', 'c'), Cut('b', 'd', 'c', 'd')]
    else
      []
  }

  function CutLink(I: int, w: int, J: int, cut: Cut): Link {
    Link(SideEdge(I, w, J, cut.c1, cut.c2), SideEdge(I, w, J, cut.c3, cut.c4))
  }

  function CutLinks(I: int, w: int, J: int, cuts: seq<Cut>): seq<Link> {
    seq(|cuts|, n requires 0 <= n < |cuts| => CutLink(I, w, J, cuts[n]))
  }

  predicate IsCell(g: Grid, I: int, J: int) { 0 <= I < g.ni && 1 <= J < g.nj }

  /** All four corners of the cell carry a value. */
  predicate Defined(g: Grid, I: int, J: int)
    requires g.Valid() && IsCell(g, I, J)
  {
    var left := if I != 0 then I - 1 else g.ni - 1;
    && g.Value(left, J - 1) != NOTDEF && g.Value(I, J - 1) != NOTDEF
    && g.Value(left, J) != NOTDEF && g.Value(I, J) != NOTDEF
  }

  function CellLinks(g: Grid, v: real, I: int, J: int): seq<Link>
    requires g.Valid() && IsCell(g, I, J)
  {
    var left := if I != 0 then I - 1 else g.ni - 1;
    if Defined(g, I, J) then
      CutLinks(I, g.ni, J, CellCuts(g.Value(left, J - 1), g.Value(I, J - 1), g.Value(left, J), g.Value(I, J), v))
    else []
  }

  /** The cell column at scan position n: position ni is the seam cell 0. */
  function CellColumn(g: Grid, n: int): int { if n == g.ni then 0 else n }

  /** The cells i = 1..n-1 of row j in scan order; i = ni is the seam cell 0. */
  function RowLinks(g: Grid, v: real, j: int, n: int): seq<Link>
    requires g.Valid() && 1 <= j < g.nj && n <= g.ni + 1
    decreases n
  {
    if n <= 1 then []
    else RowLinks(g, v, j, n - 1) + CellLinks(g, v, CellColumn(g, n - 1), j)
  }

  /** Rows 1..m-1, each up to column bound `we`: everything an extractor emits. */
  function GridLinks(g: Grid, v: real, we: int, m: int): seq<Link>
    requires g.Valid() && we <= g.ni + 1 && m <= g.nj
    decreases m
  {
    if m <= 1 then [] else GridLinks(g, v, we, m - 1) + RowLinks(g, v, m - 1, we)
  }

  // ------------------------------------------------------- edge degrees

  /** How many segment ends lie on edge `e`. */
  ghost function Degree(links: seq<Link>, e: Edge): nat {
    if links == [] then 0
    else Degree(links[..|links| - 1], e) + LinkDegree(links[|links| - 1], e)
  }

  ghost function LinkDegree(l: Link, e: Edge): nat {
    Ind(l.e1 == e) + Ind(l.e2 == e)
  }

  ghost function Ind(b: bool): nat { if b then 1 else 0 }

  lemma {:induction false} DegreeConcat(a: seq<Link>, b: seq<Link>, e: Edge)
    ensures Degree(a + b, e) == Degree(a, e) + Degree(b, e)
  {
    if b == [] {
      assert a + b == a;
    } else {
      assert (a + b)[..|a + b| - 1] == a + b[..|b| - 1];
      DegreeConcat(a, b[..|b| - 1], e);
    }
  }

  /** Exactly one end of the edge is above the level. */
  predicate Straddles(g: Grid, v: real, e: Edge)
    requires g.Valid() && OnGrid(g, e)
  {
    (g.Value(e.i, e.j) > v) != (g.Value(e.k, e.l) > v)
  }

  predicate OnGrid(g: Grid, e: Edge) {
    0 <= e.i < g.ni && 0 <= e.j < g.nj && 0 <= e.k < g.ni && 0 <= e.l < g.nj
  }

  function RowEdge(g: Grid, I: int, J: int): Edge { Edge(if I != 0 then I - 1 else g.ni - 1, J, I, J) }

  function ColumnEdge(i: int, J: int): Edge { Edge(i, J - 1, i, J) }

  lemma DegreeOfPair(l1: Link, l2: Link, e: Edge)
    ensures Degree([l1, l2], e) == LinkDegree(l1, e) + LinkDegree(l2, e)
  {
    DegreeConcat([l1], [l2], e);
    assert [l1, l2] == [l1] + [l2] && [l1][..0] == [] && [l2][..0] == [];
  }

  /** The heart: the case analysis puts one segment end on each side of the
      cell whose corners lie on different sides of the level, and no other. */
  lemma CutsDegree(I: int, w: int, J: int, a: real, b: real, c: real, d: real, v: real, e: Edge)
    ensures Degree(CutLinks(I, w, J, CellCuts(a, b, c, d, v)), e) ==
            Ind((a > v) != (b > v) && SideEdge(I, w, J, 'a', 'b') == e)
            + Ind((c > v) != (d > v) && SideEdge(I, w, J, 'c', 'd') == e)
            + Ind((a > v) != (c > v) && SideEdge(I, w, J, 'a', 'c') == e)
            + Ind((b > v) != (d > v) && SideEdge(I, w, J, 'b', 'd') == e)
  {
    var ls := CutLinks(I, w, J, CellCuts(a, b, c, d, v));
    hide SideEdge;
    if |ls| == 1 {
      DegreeConcat([], [ls[0]], e);
      assert ls == [] + [ls[0]];
    } else if |ls| == 2 {
      DegreeOfPair(ls[0], ls[1], e);
      assert ls == [ls[0], ls[1]];
    }
  }

  predicate HasCorner(c1: char, c2: char, c: char) { c == c1 || c == c2 }

  /** The value at a corner, by its letter. */
  function CornerValue(a: real, b: real, c: real, d: real, letter: char): real {
    if letter == 'a' then a else if letter == 'b' then b else if letter == 'c' then c else d
  }

  /** The segment cuts off the corner: it joins the two sides that meet there, and
      no others. */
  predicate CutsOff(cut: Cut, corner: char) {
    && corner in {'a', 'b', 'c', 'd'}
    && cut.c1 != cut.c2 && cut.c3 != cut.c4
    && HasCorner(cut.c1, cut.c2, corner) && HasCorner(cut.c3, cut.c4, corner)
    && forall other :: other in {'a', 'b', 'c', 'd'} && other != corner ==>
         !(HasCorner(cut.c1, cut.c2, other) && HasCorner(cut.c3, cut.c4, other))
  }

  /** A cell gets two segments exactly when opposite corners lie on the same side
      of the level and neighbours on different sides; then each cuts off one of
      the two corners above the level. */
  lemma SaddleCutsOffHighCorners(a: real, b: real, c: real, d: real, v: real)
    ensures var cuts := CellCuts(a, b, c, d, v);
            && (|cuts| == 2 <==> (a > v) == (d > v) && (b > v) == (c > v) && (a > v) != (b > v))
            && (|cuts| == 2 && a > v ==>
                  && CutsOff(cuts[0], 'a') && !CutsOff(cuts[0], 'd')
                  && CutsOff(cuts[1], 'd') && !CutsOff(cuts[1], 'a'))
            && (|cuts| == 2 && b > v ==>
                  && CutsOff(cuts[0], 'b') && !CutsOff(cuts[0], 'c')
                  && CutsOff(cuts[1], 'c') && !CutsOff(cuts[1], 'b'))
  {
  }

  /** The one segment of a cell begins on the first of the sides ab, ac and cd that
      the level crosses, and ends on the other side that it crosses. Of two, the first
      begins on ab and the second ends on cd. */
  lemma SegmentDirection(a: real, b: real, c: real, d: real, v: real)
    ensures var cuts := CellCuts(a, b, c, d, v);
            var ab, ac, cd := (a > v) != (b > v), (a > v) != (c > v), (c > v) != (d > v);
            && (|cuts| == 1 ==>
                  && (cuts[0].c1, cuts[0].c2) == (if ab then ('a', 'b') else if ac then ('a', 'c') else ('c', 'd'))
                  && (cuts[0].c3, cuts[0].c4) ==
                     (if ab && ac then ('a', 'c') else if (ab || ac) && cd then ('c', 'd') else ('b', 'd')))
            && (|cuts| == 2 ==>
                  && (cuts[0].c1, cuts[0].c2) == ('a', 'b') && (cuts[1].c3, cuts[1].c4) == ('c', 'd'))
  {
  }

  /** So of two segments in a cell, the sides of each meet in one corner, and the
      value there is above the level. */
  lemma TwoCutsMeetAtHighCorner(a: real, b: real, c: real, d: real, v: real, n: nat)
    requires |CellCuts(a, b, c, d, v)| == 2 && n < 2
    ensures exists corner :: CutsOff(CellCuts(a, b, c, d, v)[n], corner) && CornerValue(a, b, c, d, corner) > v
  {
    hide CellCuts, CutsOff;
    SaddleCutsOffHighCorners(a, b, c, d, v);
    var corner := if a > v then (if n == 0 then 'a' else 'd') else if n == 0 then 'b' else 'c';
    assert CutsOff(CellCuts(a, b, c, d, v)[n], corner);
  }

  /** The same for the links of a cell of the grid: of two, each runs around one
      node above the level, a corner of the cell on both of its edges. */
  lemma SaddleLinksAroundHighNode(g: Grid, v: real, I: int, J: int, n: nat)
    requires g.Valid() && IsCell(g, I, J) && g.ni >= 2
    requires |CellLinks(g, v, I, J)| == 2 && n < 2
    ensures exists i, j :: 0 <= i < g.ni && 0 <= j < g.nj && g.Value(i, j) > v
                           && EndsIn(CellLinks(g, v, I, J)[n].e1, i, j) && EndsIn(CellLinks(g, v, I, J)[n].e2, i, j)
  {
    hide CellCuts;
    var w := g.ni;
    var left := if I != 0 then I - 1 else w - 1;
    var a, b, c, d := g.Value(left, J - 1), g.Value(I, J - 1), g.Value(left, J), g.Value(I, J);
    TwoCutsMeetAtHighCorner(a, b, c, d, v, n);
    var corner :| CutsOff(CellCuts(a, b, c, d, v)[n], corner) && CornerValue(a, b, c, d, corner) > v;
    var node := Corner(I, w, J, corner);
    assert g.Value(node.0, node.1) > v;
    assert EndsIn(CellLinks(g, v, I, J)[n].e1, node.0, node.1);
  }

  predicate EndsIn(e: Edge, i: int, j: int) { (e.i == i && e.j == j) || (e.k == i && e.l == j) }

  lemma CellDegree(g: Grid, v: real, I: int, J: int, e: Edge)
    requires g.Valid() && IsCell(g, I, J) && OnGrid(g, e)
    ensures Degree(CellLinks(g, v, I, J), e) ==
            if Defined(g, I, J) && Straddles(g, v, e) then SideCount(g, I, J, e) else 0
  {
    hide CellCuts, CutLinks;
    if Defined(g, I, J) {
      var left := if I != 0 then I - 1 else g.ni - 1;
      CutsDegree(I, g.ni, J, g.Value(left, J - 1), g.Value(I, J - 1), g.Value(left, J), g.Value(I, J), v, e);
    }
  }

  ghost function SideCount(g: Grid, I: int, J: int, e: Edge): nat {
    var w := g.ni;
    Ind(SideEdge(I, w, J, 'a', 'b') == e) + Ind(SideEdge(I, w, J, 'c', 'd') == e)
    + Ind(SideEdge(I, w, J, 'a', 'c') == e) + Ind(SideEdge(I, w, J, 'b', 'd') == e)
  }

  /** The cell columns visited by a scan with column bound `n`. */
  predicate Visited(g: Grid, n: int, I: int) {
    (1 <= I < n && I < g.ni) || (I == 0 && n == g.ni + 1)
  }

  function NextColumn(g: Grid, i: int): int { if i == g.ni - 1 then 0 else i + 1 }

  /** The number of fully defined cells of a scan with column bound `we` that
      have the edge as a side: the cells above and below a row edge, the cells
      on either side of a column edge. */
  ghost function RowEdgeCells(g: Grid, we: int, I: int, J: int): nat
    requires g.Valid() && 0 <= I < g.ni && 0 <= J < g.nj
  {
    Ind(J >= 1 && Visited(g, we, I) && Defined(g, I, J))
    + Ind(J + 1 < g.nj && Visited(g, we, I) && Defined(g, I, J + 1))
  }

  ghost function ColumnEdgeCells(g: Grid, we: int, i: int, J: int): nat
    requires g.Valid() && 0 <= i < g.ni && 1 <= J < g.nj
  {
    Ind(Visited(g, we, i) && Defined(g, i, J))
    + Ind(Visited(g, we, NextColumn(g, i)) && Defined(g, NextColumn(g, i), J))
  }

  lemma CellRowEdgeDegree(g: Grid, v: real, c: int, j: int, I: int, J: int)
    requires g.Valid() && IsCell(g, c, j) && 0 <= I < g.ni && 0 <= J < g.nj
    ensures Degree(CellLinks(g, v, c, j), RowEdge(g, I, J)) ==
            Ind(Straddles(g, v, RowEdge(g, I, J)) && c == I && (j == J || j == J + 1) && Defined(g, c, j))
  {
    CellDegree(g, v, c, j, RowEdge(g, I, J));
  }

  lemma CellColumnEdgeDegree(g: Grid, v: real, c: int, j: int, i: int, J: int)
    requires g.Valid() && IsCell(g, c, j) && 0 <= i < g.ni && 1 <= J < g.nj
    ensures Degree(CellLinks(g, v, c, j), ColumnEdge(i, J)) ==
            if Straddles(g, v, ColumnEdge(i, J)) && j == J && Defined(g, c, j)
            then Ind(c == i) + Ind(c == NextColumn(g, i)) else 0
  {
    CellDegree(g, v, c, j, ColumnEdge(i, J));
  }

  /** Scan position n-1 visits exactly one new cell column. */
  lemma VisitedStep(g: Grid, n: int, I: int)
    requires 1 < n <= g.ni + 1 && 0 <= I < g.ni
    ensures Ind(Visited(g, n, I)) == Ind(Visited(g, n - 1, I)) + Ind(CellColumn(g, n - 1) == I)
  {
  }

  lemma RowLinksStart(g: Grid, v: real, j: int, n: int, e: Edge)
    requires g.Valid() && 1 <= j < g.nj && n <= 1 && n <= g.ni + 1
    ensures Degree(RowLinks(g, v, j, n), e) == 0
  {
  }

  lemma RowLinksStep(g: Grid, v: real, j: int, n: int, e: Edge)
    requires g.Valid() && 1 <= j < g.nj && 1 < n <= g.ni + 1
    ensures Degree(RowLinks(g, v, j, n), e) ==
            Degree(RowLinks(g, v, j, n - 1), e) + Degree(CellLinks(g, v, CellColumn(g, n - 1), j), e)
  {
    DegreeConcat(RowLinks(g, v, j, n - 1), CellLinks(g, v, CellColumn(g, n - 1), j), e);
  }

  lemma {:induction false} RowEdgeDegreeInRow(g: Grid, v: real, j: int, n: int, I: int, J: int)
    requires g.Valid() && 1 <= j < g.nj && 0 <= n <= g.ni + 1
    requires 0 <= I < g.ni && 0 <= J < g.nj
    ensures var e := RowEdge(g, I, J);
            Degree(RowLinks(g, v, j, n), e) ==
            Ind(Straddles(g, v, e) && (j == J || j == J + 1) && Visited(g, n, I) && Defined(g, I, j))
    decreases n
  {
    if n > 1 {
      VisitedStep(g, n, I);
      hide Degree, RowLinks, CellLinks, Defined, Straddles, Visited, CellColumn;
      RowEdgeDegreeInRow(g, v, j, n - 1, I, J);
      RowLinksStep(g, v, j, n, RowEdge(g, I, J));
      CellRowEdgeDegree(g, v, CellColumn(g, n - 1), j, I, J);
    }
  }

  lemma {:induction false} ColumnEdgeDegreeInRow(g: Grid, v: real, j: int, n: int, i: int, J: int)
    requires g.Valid() && 1 <= j < g.nj && 0 <= n <= g.ni + 1
    requires 0 <= i < g.ni && 1 <= J < g.nj
    ensures var e, k := ColumnEdge(i, J), NextColumn(g, i);
            Degree(RowLinks(g, v, j, n), e) ==
            if Straddles(g, v, e) && j == J
            then Ind(Visited(g, n, i) && Defined(g, i, J)) + Ind(Visited(g, n, k) && Defined(g, k, J))
            else 0
    decreases n
  {
    hide Degree, RowLinks, CellLinks, Defined, Straddles;
    if n > 1 {
      VisitedStep(g, n, i);
      VisitedStep(g, n, NextColumn(g, i));
      ColumnEdgeDegreeInRow(g, v, j, n - 1, i, J);
      RowLinksStep(g, v, j, n, ColumnEdge(i, J));
      CellColumnEdgeDegree(g, v, CellColumn(g, n - 1), j, i, J);
    } else {
      RowLinksStart(g, v, j, n, ColumnEdge(i, J));
    }
  }

  ghost function RowSum(f: int -> nat, m: int): nat
    decreases m
  {
    if m <= 1 then 0 else RowSum(f, m - 1) + f(m - 1)
  }

  lemma {:induction false} SumOfTwoRows(f: int -> nat, m: int, J: int)
    requires forall j :: 1 <= j < m && j != J && j != J + 1 ==> f(j) == 0
    ensures RowSum(f, m) == (if 1 <= J < m then f(J) else 0) + (if 1 <= J + 1 < m then f(J + 1) else 0)
    decreases m
  {
    if m > 1 {
      SumOfTwoRows(f, m - 1, J);
    }
  }

  ghost function RowDegrees(g: Grid, v: real, we: int, e: Edge): int -> nat
    requires g.Valid() && we <= g.ni + 1
  {
    j => if 1 <= j < g.nj then Degree(RowLinks(g, v, j, we), e) else 0
  }

  lemma {:induction false} DegreeIsRowSum(g: Grid, v: real, we: int, m: int, e: Edge)
    requires g.Valid() && we <= g.ni + 1 && m <= g.nj
    ensures Degree(GridLinks(g, v, we, m), e) == RowSum(RowDegrees(g, v, we, e), m)
    decreases m
  {
    if m > 1 {
      DegreeIsRowSum(g, v, we, m - 1, e);
      DegreeConcat(GridLinks(g, v, we, m - 1), RowLinks(g, v, m - 1, we), e);
    }
  }

  /** Extraction puts on each row edge as many segment ends as it has fully
      defined incident cells if it straddles the level, and none otherwise. */
  lemma RowEdgeDegree(g: Grid, v: real, we: int, I: int, J: int)
    requires g.Valid() && 0 <= we <= g.ni + 1 && 0 <= I < g.ni && 0 <= J < g.nj
    ensures var e := RowEdge(g, I, J);
            Degree(GridLinks(g, v, we, g.nj), e) == if Straddles(g, v, e) then RowEdgeCells(g, we, I, J) else 0
  {
    hide CellLinks, RowLinks, GridLinks;
    var e := RowEdge(g, I, J);
    var f := RowDegrees(g, v, we, e);
    forall j | 1 <= j < g.nj && j != J && j != J + 1
      ensures f(j) == 0
    {
      RowEdgeDegreeInRow(g, v, j, we, I, J);
    }
    DegreeIsRowSum(g, v, we, g.nj, e);
    if 1 <= J { RowEdgeDegreeInRow(g, v, J, we, I, J); }
    if J + 1 < g.nj { RowEdgeDegreeInRow(g, v, J + 1, we, I, J); }
    SumOfTwoRows(f, g.nj, J);
  }

  lemma ColumnEdgeDegree(g: Grid, v: real, we: int, i: int, J: int)
    requires g.Valid() && 0 <= we <= g.ni + 1 && 0 <= i < g.ni && 1 <= J < g.nj
    ensures var e := ColumnEdge(i, J);
            Degree(GridLinks(g, v, we, g.nj), e) == if Straddles(g, v, e) then ColumnEdgeCells(g, we, i, J) else 0
  {
    hide CellLinks, RowLinks, GridLinks;
    var e := ColumnEdge(i, J);
    var f := RowDegrees(g, v, we, e);
    forall j | 1 <= j < g.nj && j != J && j != J + 1
      ensures f(j) == 0
    {
      ColumnEdgeDegreeInRow(g, v, j, we, i, J);
    }
    DegreeIsRowSum(g, v, we, g.nj, e);
    if 1 <= J { ColumnEdgeDegreeInRow(g, v, J, we, i, J); }
    if J + 1 < g.nj { ColumnEdgeDegreeInRow(g, v, J + 1, we, i, J); }
    SumOfTwoRows(f, g.nj, J);
  }

  // ------------------------------------------------------ which edges occur

  /** The edges a scan with column bound `we` can cross: the seam edges of the
      rows only when the scan includes the seam cell. */
  predicate ScanEdge(g: Grid, we: int, e: Edge) {
    && OnGrid(g, e)
    && (|| (e == RowEdge(g, e.k, e.l) && (e.k == 0 ==> we == g.ni + 1))
        || (e.l >= 1 && e == ColumnEdge(e.k, e.l)))
  }

  /** The number of fully defined visited cells that have the edge as a side. */
  ghost function EdgeCells(g: Grid, we: int, e: Edge): nat
    requires g.Valid() && ScanEdge(g, we, e)
  {
    if e.j == e.l then RowEdgeCells(g, we, e.k, e.l) else ColumnEdgeCells(g, we, e.k, e.l)
  }

  /** Both edge kinds at once: degree = number of fully defined incident cells
      when the edge straddles the level, and 0 otherwise. */
  lemma EdgeDegree(g: Grid, v: real, we: int, e: Edge)
    requires g.Valid() && 0 <= we <= g.ni + 1 && ScanEdge(g, we, e)
    ensures Degree(GridLinks(g, v, we, g.nj), e) == if Straddles(g, v, e) then EdgeCells(g, we, e) else 0
  {
    hide Degree, GridLinks;
    if e.j == e.l {
      RowEdgeDegree(g, v, we, e.k, e.l);
    } else {
      ColumnEdgeDegree(g, v, we, e.k, e.l);
    }
  }

  /** Every extracted segment joins two straddling edges of the scan. */
  ghost predicate AllCrossed(g: Grid, v: real, we: int, links: seq<Link>)
    requires g.Valid()
  {
    forall n :: 0 <= n < |links| ==> Crossed(g, v, we, links[n].e1) && Crossed(g, v, we, links[n].e2)
  }

  ghost predicate Crossed(g: Grid, v: real, we: int, e: Edge)
    requires g.Valid()
  {
    ScanEdge(g, we, e) && Straddles(g, v, e)
  }

  lemma CellLinksCrossed(g: Grid, v: real, we: int, I: int, J: int)
    requires g.Valid() && IsCell(g, I, J) && (I == 0 ==> we == g.ni + 1)
    ensures AllCrossed(g, v, we, CellLinks(g, v, I, J))
  {
    var w := g.ni;
    assert SideEdge(I, w, J, 'a', 'b') == RowEdge(g, I, J - 1);
    assert SideEdge(I, w, J, 'c', 'd') == RowEdge(g, I, J);
    assert SideEdge(I, w, J, 'a', 'c') == ColumnEdge(if I != 0 then I - 1 else w - 1, J);
    assert SideEdge(I, w, J, 'b', 'd') == ColumnEdge(I, J);
  }

  lemma {:induction false} RowLinksCrossed(g: Grid, v: real, we: int, j: int, n: int)
    requires g.Valid() && 1 <= j < g.nj && n <= we <= g.ni + 1
    ensures AllCrossed(g, v, we, RowLinks(g, v, j, n))
    decreases n
  {
    if n > 1 {
      RowLinksCrossed(g, v, we, j, n - 1);
      CellLinksCrossed(g, v, we, CellColumn(g, n - 1), j);
      hide CellLinks, Crossed;
    }
  }

  lemma {:induction false} GridLinksCrossed(g: Grid, v: real, we: int, m: int)
    requires g.Valid() && we <= g.ni + 1 && m <= g.nj
    ensures AllCrossed(g, v, we, GridLinks(g, v, we, m))
    decreases m
  {
    if m > 1 {
      GridLinksCrossed(g, v, we, m - 1);
      RowLinksCrossed(g, v, we, m - 1, we);
      hide RowLinks, Crossed;
    }
  }

  // ------------------------------------------------------------ wrap-around

  /** The column bound of the cylindrical extractor: one more than the number
      of columns when the grid closes the full circle. */
  function ColumnBound(g: Grid): int {
    if g.LonMax() + g.di - g.lonMin == 360.0 then g.ni + 1 else g.ni
  }

  /** It takes in the seam cell exactly when the columns go round once. */
  lemma ColumnBoundOnCircle(g: Grid)
    ensures ColumnBound(g) == if g.di * (g.ni as real) == 360.0 then g.ni + 1 else g.ni
  {
    assert ((g.ni - 1) as real) * g.di + g.di == g.di * (g.ni as real);
  }

  /** Where a cell has a segment: all its corners carry values, one of them above
      the level and one not. */
  lemma CellHasLinksIff(g: Grid, v: real, I: int, J: int)
    requires g.Valid() && 0 <= I < g.ni && 1 <= J < g.nj
    ensures var left := if I == 0 then g.ni - 1 else I - 1;
            var a, b, c, d := g.rows[J - 1][left], g.rows[J - 1][I], g.rows[J][left], g.rows[J][I];
            CellLinks(g, v, I, J) != [] <==>
              && a != NOTDEF && b != NOTDEF && c != NOTDEF && d != NOTDEF
              && (a > v || b > v || c > v || d > v) && (a <= v || b <= v || c <= v || d <= v)
  {
  }

  /** On a grid with all its values every edge that straddles the level has two
      segment ends, one on the four sides of a planar scan. */
  lemma PlanarDegree(g: Grid, v: real, e: Edge)
    requires g.Valid() && 0 <= e.i <= e.k < g.ni && 0 <= e.j <= e.l < g.nj && g.ni >= 2 && g.nj >= 2
    requires (e.k == e.i + 1 && e.l == e.j) || (e.k == e.i && e.l == e.j + 1)
    requires forall i, j :: 0 <= i < g.ni && 0 <= j < g.nj ==> g.rows[j][i] != NOTDEF
    ensures Degree(GridLinks(g, v, g.ni, g.nj), e) ==
            if (g.rows[e.j][e.i] > v) == (g.rows[e.l][e.k] > v) then 0
            else if e.l == e.j && (e.j == 0 || e.j == g.nj - 1) then 1
            else if e.k == e.i && (e.i == 0 || e.i == g.ni - 1) then 1
            else 2
  {
    hide Degree, GridLinks;
    EdgeDegree(g, v, g.ni, e);
  }

  /** On a grid with all its values that goes round, every edge that straddles the
      level has degree 2, seam edges included, except row edges on the first or
      last row. */
  lemma CylinderDegree(g: Grid, v: real, e: Edge)
    requires g.Valid() && ScanEdge(g, g.ni + 1, e)
    requires g.di * (g.ni as real) == 360.0 && g.nj >= 2
    requires forall i, j :: 0 <= i < g.ni && 0 <= j < g.nj ==> g.rows[j][i] != NOTDEF
    ensures ColumnBound(g) == g.ni + 1
    ensures Degree(GridLinks(g, v, ColumnBound(g), g.nj), e) ==
            if (g.rows[e.j][e.i] > v) == (g.rows[e.l][e.k] > v) then 0
            else if e.j == e.l && (e.j == 0 || e.j == g.nj - 1) then 1
            else 2
  {
    hide Degree, GridLinks, ColumnBound;
    ColumnBoundOnCircle(g);
    EdgeDegree(g, v, ColumnBound(g), e);
  }
}
