/** Filling the holes of grids in place, one grid at a time or four in one go. */
module GridFill {
  import opened Grids
  import opened Undefined

  function Everywhere(): (nat, nat) -> bool { (y, x) => true }

  /** The vertical pass, then the horizontal one; grids with a side below three
      are left alone. */
  function Filled(g: Values): Values
    requires Grid(g)
  {
    if |g| < 3 || |g[0]| < 3 then g
    else
      var v := Fill(Vertical, g, Everywhere());
      Fill(Horizontal, v, Everywhere())
  }

  /** What a pass over the columns does to a cell: a hole with values above and below
      gets the value half way between them, every other cell stays as it is. */
  lemma ColumnHole(g: Values, y: nat, x: nat)
    requires Grid(g) && y < |g| && x < |g[0]|
    ensures var r := Fill(Vertical, g, Everywhere())[y][x];
            if 0 < y < |g| - 1 && g[y][x] == NOTDEF && g[y - 1][x] != NOTDEF && g[y + 1][x] != NOTDEF
            then r - g[y - 1][x] == g[y + 1][x] - r
            else r == g[y][x]
  {
  }

  lemma RowHole(g: Values, y: nat, x: nat)
    requires Grid(g) && y < |g| && x < |g[0]|
    ensures var r := Fill(Horizontal, g, Everywhere())[y][x];
            if 0 < x < |g[0]| - 1 && g[y][x] == NOTDEF && g[y][x - 1] != NOTDEF && g[y][x + 1] != NOTDEF
            then r - g[y][x - 1] == g[y][x + 1] - r
            else r == g[y][x]
  {
  }

  /** The columns come first: a hole with values above and below gets the value half
      way between them, whatever is beside it; one without gets that between the
      values beside it; a cell with a value keeps it. */
  lemma ColumnsFirst(g: Values, y: nat, x: nat)
    requires Grid(g) && |g| >= 3 && |g[0]| >= 3 && y < |g| && x < |g[0]|
    ensures g[y][x] != NOTDEF ==> Filled(g)[y][x] == g[y][x]
    ensures 0 < y < |g| - 1 && g[y][x] == NOTDEF && g[y - 1][x] != NOTDEF && g[y + 1][x] != NOTDEF
            && (g[y - 1][x] + g[y + 1][x]) / 2.0 != NOTDEF
            ==> 2.0 * Filled(g)[y][x] == g[y - 1][x] + g[y + 1][x]
    ensures 0 < x < |g[0]| - 1 && g[y][x] == NOTDEF && g[y][x - 1] != NOTDEF && g[y][x + 1] != NOTDEF
            && (y == 0 || y == |g| - 1 || g[y - 1][x] == NOTDEF || g[y + 1][x] == NOTDEF)
            ==> 2.0 * Filled(g)[y][x] == g[y][x - 1] + g[y][x + 1]
  {
    hide FilledAt;
    var v := Fill(Vertical, g, Everywhere());
    ColumnHole(g, y, x);
    RowHole(v, y, x);
    if 0 < x < |g[0]| - 1 {
      ColumnHole(g, y, x - 1);
      ColumnHole(g, y, x + 1);
    }
  }

  /** A grid with a side below 3 is not touched, though one of its directions might
      have room for a hole between two values. */
  lemma SmallGridKept(g: Values)
    requires Grid(g) && (|g| < 3 || |g[0]| < 3)
    ensures Filled(g) == g
  {
  }

  function NonNull(g: array2?<real>): set<array2<real>> {
    if g == null then {} else var a: array2<real> := g; {a}
  }

  function Present(u: array2?<real>, v: array2?<real>, sst: array2?<real>, salinity: array2?<real>): set<array2<real>> {
    NonNull(u) + NonNull(v) + NonNull(sst) + NonNull(salinity)
  }

  method FillCell(d: Direction, g: array2?<real>, y: nat, x: nat)
    requires g != null ==> Inner(d, g.Length0, g.Length1, y, x)
    modifies NonNull(g)
    ensures g != null ==> Rows(g) == CellFilled(d, old(Rows(g)), y, x)
  {
    if g != null && g[y, x] == NOTDEF {
      var dy, dx := if d == Vertical then 1 else 0, if d == Vertical then 0 else 1;
      var acc, count := 0.0, 0;
      if g[y - dy, x - dx] != NOTDEF {
        acc := acc + g[y - dy, x - dx];
        count := count + 1;
      }
      if g[y + dy, x + dx] != NOTDEF {
        acc := acc + g[y + dy, x + dx];
        count := count + 1;
      }
      ghost var before := Rows(g);
      if count >= 2 {
        g[y, x] := acc / count as real;
      }
      SameRows(Rows(g), CellFilled(d, before, y, x));
    } else if g != null {
      SameRows(Rows(g), CellFilled(d, Rows(g), y, x));
    }
  }

  lemma SameRows(a: Values, b: Values)
    requires Grid(a) && Rectangle(b, |a|, |a[0]|)
    requires forall y, x :: 0 <= y < |a| && 0 <= x < |a[0]| ==> a[y][x] == b[y][x]
    ensures a == b
  {
    forall y | 0 <= y < |a|
      ensures a[y] == b[y]
    {
    }
  }

  /** Each of the grids has had the cells in done filled, from what it was. */
  ghost predicate AllUnderway(d: Direction, grids: set<array2<real>>, before: map<array2<real>, Values>,
                              done: set<(nat, nat)>)
    reads grids
    requires grids <= before.Keys
  {
    forall g :: g in grids ==> Underway(d, before[g], Rows(g), done)
  }

  ghost predicate Sized(grids: set<array2<real>>, nj: nat, ni: nat) {
    forall g :: g in grids ==> g.Length0 == nj && g.Length1 == ni
  }

  /** The same cell of the four grids, which may be the same grid. */
  method FillFour(d: Direction, u: array2?<real>, v: array2?<real>, sst: array2?<real>, salinity: array2?<real>,
                  y: nat, x: nat, nj: nat, ni: nat,
                  ghost before: map<array2<real>, Values>, ghost done: set<(nat, nat)>)
    requires Present(u, v, sst, salinity) == before.Keys && Sized(before.Keys, nj, ni)
    requires Inner(d, nj, ni, y, x)
    requires AllUnderway(d, before.Keys, before, done)
    modifies Present(u, v, sst, salinity)
    ensures AllUnderway(d, before.Keys, before, done + {(y, x)})
  {
    hide Underway, Rows;
    FillNext(d, u, y, x, nj, ni, before, {}, done);
    FillNext(d, v, y, x, nj, ni, before, NonNull(u), done);
    FillNext(d, sst, y, x, nj, ni, before, NonNull(u) + NonNull(v), done);
    FillNext(d, salinity, y, x, nj, ni, before, NonNull(u) + NonNull(v) + NonNull(sst), done);
  }

  method FillNext(d: Direction, g: array2?<real>, y: nat, x: nat, nj: nat, ni: nat,
                  ghost before: map<array2<real>, Values>, ghost ahead: set<array2<real>>, ghost done: set<(nat, nat)>)
    requires NonNull(g) <= before.Keys && Sized(before.Keys, nj, ni) && Inner(d, nj, ni, y, x)
    requires forall o :: o in before.Keys ==>
               Underway(d, before[o], Rows(o), if o in ahead then done + {(y, x)} else done)
    modifies NonNull(g)
    ensures forall o :: o in before.Keys ==>
              Underway(d, before[o], Rows(o), if o in ahead + NonNull(g) then done + {(y, x)} else done)
  {
    hide Rows, CellFilled, FilledAt;
    ghost var was := if g == null then [] else Rows(g);
    FillCell(d, g, y, x);
    if g != null {
      ghost var done' := if g in ahead then done + {(y, x)} else done;
      assert Underway(d, before[g], was, done');
      InPlace(d, before[g], was, done', y, x);
      assert done' + {(y, x)} == done + {(y, x)};
    }
  }

  /** The pass over the columns. */
  method FillColumns(u: array2?<real>, v: array2?<real>, sst: array2?<real>, salinity: array2?<real>,
                     ni: nat, nj: nat, ghost before: map<array2<real>, Values>)
    requires ni >= 3 && nj >= 3 && Present(u, v, sst, salinity) == before.Keys && Sized(before.Keys, nj, ni)
    requires forall g :: g in before.Keys ==> Rows(g) == before[g]
    modifies Present(u, v, sst, salinity)
    ensures forall g :: g in before.Keys ==>
              Grid(before[g]) && Rows(g) == Fill(Vertical, before[g], Everywhere())
  {
    hide Underway, Rows;
    ghost var done: set<(nat, nat)> := {};
    UnderwayStarts(Vertical, before, nj, ni);
    var i := 0;
    while i < ni
      invariant 0 <= i <= ni
      invariant AllUnderway(Vertical, before.Keys, before, done)
      invariant forall y, x :: 0 < y < nj - 1 && 0 <= x < i ==> (y, x) in done
      invariant forall c :: c in done ==> Inner(Vertical, nj, ni, c.0, c.1)
    {
      var j := 1;
      while j < nj - 1
        invariant 1 <= j <= nj - 1
        invariant AllUnderway(Vertical, before.Keys, before, done)
        invariant forall y, x :: 0 < y < nj - 1 && 0 <= x < i ==> (y, x) in done
        invariant forall y :: 0 < y < j ==> (y, i) in done
        invariant forall c :: c in done ==> Inner(Vertical, nj, ni, c.0, c.1)
      {
        FillFour(Vertical, u, v, sst, salinity, j, i, nj, ni, before, done);
        done := done + {(j, i)};
        j := j + 1;
      }
      i := i + 1;
    }
    assert forall y: nat, x: nat :: Inner(Vertical, nj, ni, y, x) ==> (y, x) in done;
    PassEnds(Vertical, before, done, nj, ni);
  }

  /** The pass over the rows. */
  method FillRows(u: array2?<real>, v: array2?<real>, sst: array2?<real>, salinity: array2?<real>,
                  ni: nat, nj: nat, ghost before: map<array2<real>, Values>)
    requires ni >= 3 && nj >= 3 && Present(u, v, sst, salinity) == before.Keys && Sized(before.Keys, nj, ni)
    requires forall g :: g in before.Keys ==> Rows(g) == before[g]
    modifies Present(u, v, sst, salinity)
    ensures forall g :: g in before.Keys ==>
              Grid(before[g]) && Rows(g) == Fill(Horizontal, before[g], Everywhere())
  {
    hide Underway, Rows;
    ghost var done: set<(nat, nat)> := {};
    UnderwayStarts(Horizontal, before, nj, ni);
    var j := 0;
    while j < nj
      invariant 0 <= j <= nj
      invariant AllUnderway(Horizontal, before.Keys, before, done)
      invariant forall y, x :: 0 <= y < j && 0 < x < ni - 1 ==> (y, x) in done
      invariant forall c :: c in done ==> Inner(Horizontal, nj, ni, c.0, c.1)
    {
      var i := 1;
      while i < ni - 1
        invariant 1 <= i <= ni - 1
        invariant AllUnderway(Horizontal, before.Keys, before, done)
        invariant forall y, x :: 0 <= y < j && 0 < x < ni - 1 ==> (y, x) in done
        invariant forall x :: 0 < x < i ==> (j, x) in done
        invariant forall c :: c in done ==> Inner(Horizontal, nj, ni, c.0, c.1)
      {
        FillFour(Horizontal, u, v, sst, salinity, j, i, nj, ni, before, done);
        done := done + {(j, i)};
        i := i + 1;
      }
      j := j + 1;
    }
    assert forall y: nat, x: nat :: Inner(Horizontal, nj, ni, y, x) ==> (y, x) in done;
    PassEnds(Horizontal, before, done, nj, ni);
  }

  lemma UnderwayStarts(d: Direction, before: map<array2<real>, Values>, nj: nat, ni: nat)
    requires nj >= 1 && ni >= 1 && Sized(before.Keys, nj, ni)
    requires forall g :: g in before.Keys ==> Rows(g) == before[g]
    ensures AllUnderway(d, before.Keys, before, {})
  {
  }

  lemma PassEnds(d: Direction, before: map<array2<real>, Values>, done: set<(nat, nat)>, nj: nat, ni: nat)
    requires Sized(before.Keys, nj, ni) && AllUnderway(d, before.Keys, before, done)
    requires forall c :: c in done ==> Inner(d, nj, ni, c.0, c.1)
    requires forall y: nat, x: nat :: Inner(d, nj, ni, y, x) ==> (y, x) in done
    ensures forall g :: g in before.Keys ==> Grid(before[g]) && Rows(g) == Fill(d, before[g], Everywhere())
  {
    forall g | g in before.Keys
      ensures Grid(before[g]) && Rows(g) == Fill(d, before[g], Everywhere())
    {
      PassIsFill(d, before[g], Rows(g), done, Everywhere());
    }
  }

  /** Filling one grid: a null grid or a small one is left alone. */
  method FillGrid(grid: array2?<real>, ni: nat, nj: nat)
    requires grid != null ==> grid.Length0 == nj && grid.Length1 == ni && nj > 0
    modifies NonNull(grid)
    ensures grid != null ==> Rows(grid) == Filled(old(Rows(grid)))
  {
    if grid == null || ni < 3 || nj < 3 {
      return;
    }
    ghost var g: array2<real> := grid;
    FillColumns(grid, null, null, null, ni, nj, map[g := Rows(g)]);
    FillRows(grid, null, null, null, ni, nj, map[g := Rows(g)]);
  }

  /** Filling four grids in one go leaves each as filling it alone would, even
      where several of them are the same grid. */
  method FillAllGrids(u: array2?<real>, v: array2?<real>, sst: array2?<real>, salinity: array2?<real>, ni: nat, nj: nat)
    requires nj > 0 && Sized(Present(u, v, sst, salinity), nj, ni)
    modifies Present(u, v, sst, salinity)
    ensures forall g :: g in Present(u, v, sst, salinity) ==> Rows(g) == Filled(old(Rows(g)))
  {
    if ni < 3 || nj < 3 {
      return;
    }
    hide Rows, Fill;
    ghost var grids := Present(u, v, sst, salinity);
    FillColumns(u, v, sst, salinity, ni, nj, map g | g in grids :: Rows(g));
    FillRows(u, v, sst, salinity, ni, nj, map g | g in grids :: Rows(g));
  }

  /** After the vertical pass and the horizontal one, (y, x) is a hole between two
      vertical neighbours that have values with a mean that is a value. The
      condition looks at the grid v after the vertical pass: the neighbours got
      or kept their values in the horizontal one. */
  predicate HoleOpened(v: Values, y: nat, x: nat)
    requires Grid(v) && y < |v| && x < |v[0]|
  {
    && Inner(Vertical, |v|, |v[0]|, y, x)
    && FilledAt(Horizontal, v, y, x) == NOTDEF
    && FilledAt(Horizontal, v, y - 1, x) != NOTDEF
    && FilledAt(Horizontal, v, y + 1, x) != NOTDEF
    && (FilledAt(Horizontal, v, y - 1, x) + FilledAt(Horizontal, v, y + 1, x)) / 2.0 != NOTDEF
  }

  /** Filling a grid a second time changes nothing if and only if the horizontal
      pass opened no hole between vertical neighbours; a grid with a side below 3
      never changes. */
  lemma FilledIdempotentIff(g: Values)
    requires Grid(g)
    ensures Grid(Filled(g)) && Grid(Fill(Vertical, g, Everywhere()))
    ensures var v := Fill(Vertical, g, Everywhere());
            Filled(Filled(g)) == Filled(g) <==>
            (|g| < 3 || |g[0]| < 3 || forall y, x :: 0 <= y < |v| && 0 <= x < |v[0]| ==> !HoleOpened(v, y, x))
  {
    hide FilledAt;
    if |g| >= 3 && |g[0]| >= 3 {
      var v := Fill(Vertical, g, Everywhere());
      var r := Filled(g);
      var w := Fill(Vertical, r, Everywhere());
      forall y, x | 0 <= y < |g| && 0 <= x < |g[0]|
        ensures w[y][x] != r[y][x] <==> HoleOpened(v, y, x)
      {
        SecondVertical(v, r, y, x);
      }
      if y, x :| 0 <= y < |g| && 0 <= x < |g[0]| && w[y][x] != r[y][x] {
        SecondVertical(v, r, y, x);
        DefinedKept(Horizontal, w, Everywhere(), y, x);
        assert Filled(r)[y][x] != r[y][x];
      } else {
        SameRows(w, r);
        FillIdempotent(Horizontal, v, Everywhere());
      }
    }
  }

  lemma SecondVertical(v: Values, r: Values, y: nat, x: nat)
    requires Grid(v) && r == Fill(Horizontal, v, Everywhere()) && y < |v| && x < |v[0]|
    ensures Grid(r)
    ensures FilledAt(Vertical, r, y, x) != r[y][x] <==> HoleOpened(v, y, x)
    ensures HoleOpened(v, y, x) ==> FilledAt(Vertical, r, y, x) != NOTDEF
  {
  }

  /** There are such grids: what the second pass fills can make a vertical
      neighbour that the first then fills. */
  lemma FilledNotIdempotent()
    ensures exists g: Values :: Grid(g) && Grid(Filled(g)) && Filled(Filled(g)) != Filled(g)
  {
    var hole := -999999999.0;
    var g := [[0.0, hole, 0.0], [hole, hole, hole], [hole, 0.0, hole]];
    assert Grid(g);
    var v := Fill(Vertical, g, Everywhere());
    assert v[0] == g[0] && v[1] == g[1] && v[2] == g[2];
    assert HoleOpened(v, 1, 1);
    FilledIdempotentIff(g);
  }
}
