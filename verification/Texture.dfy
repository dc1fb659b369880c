/** The texture that shows a grid: where each node is stored, what the border
    holds, and where a position is sampled. */
module Textures {
  import opened RealArithmetic
  import opened Grids
  import opened GridFill
  import opened Undefined

  datatype Texel = Texel(red: int, green: int, blue: int, alpha: int)

  const BLANK := Texel(0, 0, 0, 0)

  /** The layout: numbers of columns and rows of the grid, whether it goes round
      the globe, and whether its first row is the southernmost. */
  datatype Layout = Layout(ni: nat, nj: nat, repeat: bool, ascending: bool)

  predicate Drawable(l: Layout) { l.ni >= 2 && l.nj >= 2 }

  function Width(l: Layout): nat { if l.repeat then l.ni + 1 else l.ni + 2 }

  function Height(l: Layout): nat { l.nj + 2 }

  function NodeColumn(l: Layout, i: nat): nat { if l.repeat then i else i + 1 }

  function NodeRow(l: Layout, j: nat): (y: nat)
    requires j < l.nj
    ensures 1 <= y <= l.nj
  {
    (if l.ascending then j else l.nj - 1 - j) + 1
  }

  /** The node whose colour a texel shows. */
  function ColumnNode(l: Layout, x: nat): (i: nat)
    requires Drawable(l) && x < Width(l)
    ensures i < l.ni
  {
    if l.repeat then (if x < l.ni then x else 0)
    else if x == 0 then 0 else if x > l.ni then l.ni - 1 else x - 1
  }

  function RowNode(l: Layout, y: nat): (j: nat)
    requires Drawable(l) && y < Height(l)
    ensures j < l.nj
  {
    var row := if y == 0 then 0 else if y > l.nj then l.nj - 1 else y - 1;
    if l.ascending then row else l.nj - 1 - row
  }

  predicate Border(l: Layout, y: nat, x: nat) {
    y == 0 || y == Height(l) - 1 || (!l.repeat && (x == 0 || x == Width(l) - 1))
  }

  // ------------------------------------------------------------ the colours

  /** The least value and the extent of the values. */
  datatype Scale = Scale(low: real, extent: real)

  function Clamped(r: real): real {
    if r <= 0.0 then 0.0 else if r >= 1.0 then 1.0 else r
  }

  function Encode(s: Scale, v: real): (t: Texel)
    requires s.extent > 0.0
    ensures 0 <= t.red <= 255
    ensures t.alpha == if v == NOTDEF then 0 else 255
  {
    if v == NOTDEF then BLANK
    else Texel((Clamped((v - s.low) / s.extent) * 255.0).Floor, 0, 0, 255)
  }

  /** What the shader makes of the stored byte. */
  function Decode(s: Scale, t: Texel): real { s.low + t.red as real / 255.0 * s.extent }

  /** The byte of a fraction q of the scale. */
  lemma ByteOf(q: real)
    requires 0.0 <= q <= 1.0
    ensures Clamped(q) == q
    ensures (q * 255.0).Floor as real / 255.0 <= q < (q * 255.0).Floor as real / 255.0 + 1.0 / 255.0
  {
    var r := (q * 255.0).Floor as real;
    assert r <= q * 255.0 < r + 1.0;
  }

  lemma DecodeBetween(s: Scale, t: Texel, q: real, offset: real)
    requires s.extent > 0.0 && q * s.extent == offset
    requires t.red as real / 255.0 <= q < t.red as real / 255.0 + 1.0 / 255.0
    ensures s.low + offset - s.extent / 255.0 < Decode(s, t) <= s.low + offset
  {
    var p, e := t.red as real / 255.0, s.extent;
    RealArithmetic.Scale(p, q, e);
    RealArithmetic.Scale(q, p + 1.0 / 255.0, e);
    Distribute(p, 1.0 / 255.0, e);
    Part(e);
  }

  lemma Part(e: real)
    ensures 1.0 / 255.0 * e == e / 255.0
  {
  }

  /** A value within the scale comes back to within one step of it, and never
      too large. */
  lemma EncodeDecode(s: Scale, v: real)
    requires s.extent > 0.0 && s.low <= v <= s.low + s.extent && v != NOTDEF
    ensures v - s.extent / 255.0 < Decode(s, Encode(s, v)) <= v
  {
    hide Decode, Clamped;
    var q := (v - s.low) / s.extent;
    QuotientOrder(v - s.low, s.extent, 0.0);
    QuotientOrder(v - s.low, s.extent, 1.0);
    Quotient(v - s.low, s.extent);
    ByteOf(q);
    DecodeBetween(s, Encode(s, v), q, v - s.low);
  }

  /** The byte is the part of the extent, in steps of 1/255; a value off the scale
      gets the byte of the nearer end. */
  lemma ByteOfValue(s: Scale, v: real)
    requires s.extent > 0.0 && v != NOTDEF
    ensures var red := Encode(s, v).red as real;
            if v <= s.low then red == 0.0
            else if v >= s.low + s.extent then red == 255.0
            else red / 255.0 <= (v - s.low) / s.extent < (red + 1.0) / 255.0
    ensures Encode(s, v) == Texel(Encode(s, v).red, 0, 0, 255)
    ensures Encode(s, NOTDEF) == Texel(0, 0, 0, 0)
  {
    hide Clamped;
    var q := (v - s.low) / s.extent;
    QuotientOrder(v - s.low, s.extent, 0.0);
    QuotientOrder(v - s.low, s.extent, 1.0);
    if v <= s.low || v >= s.low + s.extent {
      ClampedEnds(q);
    } else {
      ByteOf(q);
    }
  }

  lemma ClampedEnds(q: real)
    ensures q <= 0.0 ==> (Clamped(q) * 255.0).Floor == 0
    ensures q >= 1.0 ==> (Clamped(q) * 255.0).Floor == 255
  {
  }

  const HUGE := 1000000000000000000000000000000.0

  /** Every value of the grid lies between low and high. */
  ghost predicate Within(g: Values, low: real, high: real) {
    forall y, x :: 0 <= y < |g| && 0 <= x < |g[y]| && g[y][x] != NOTDEF ==> low <= g[y][x] <= high
  }

  ghost predicate Covers(s: Scale, g: Values) { Within(g, s.low, s.low + s.extent) }

  /** All values are the same, and not beyond where the search for the least and
      the greatest starts. */
  ghost predicate Flat(g: Values) { exists v :: Searched(v) && Within(g, v, v) }

  /** At most 1e30 from zero. */
  predicate Searched(v: real) {
    -1000000000000000000000000000000.0 <= v <= 1000000000000000000000000000000.0
  }

  ghost predicate AllSearched(g: Values) {
    forall y, x :: 0 <= y < |g| && 0 <= x < |g[y]| && g[y][x] != NOTDEF ==> Searched(g[y][x])
  }

  ghost predicate Attained(g: Values, v: real) {
    v != NOTDEF && exists y, x :: 0 <= y < |g| && 0 <= x < |g[y]| && g[y][x] == v
  }

  /** The values range from low to high. */
  ghost predicate Ranges(g: Values, low: real, high: real) {
    Attained(g, low) && Attained(g, high) && Within(g, low, high)
  }

  lemma AttainedAt(g: Values, y: nat, x: nat)
    requires y < |g| && x < |g[y]| && g[y][x] != NOTDEF
    ensures Attained(g, g[y][x])
  {
  }

  lemma EndsAttained(g: Values, low: real, high: real)
    requires Within(g, low, high) && AllSearched(g) && !Flat(g) && low <= HUGE && high >= -HUGE
    ensures low < HUGE && high > -HUGE
  {
    if low >= HUGE {
      assert Within(g, HUGE, HUGE);
    }
    if high <= -HUGE {
      assert Within(g, -HUGE, -HUGE);
    }
  }

  /** The search for the least and the greatest value. */
  method FindRange(grid: array2<real>) returns (low: real, high: real)
    ensures Within(Rows(grid), low, high)
    ensures Flat(Rows(grid)) ==> high <= low
    ensures low <= HUGE && high >= -HUGE
    ensures (low < HUGE ==> Attained(Rows(grid), low)) && (high > -HUGE ==> Attained(Rows(grid), high))
  {
    hide Attained;
    ghost var g := Rows(grid);
    ghost var common := 0.0;
    if Flat(g) {
      common :| Searched(common) && Within(g, common, common);
    }
    low, high := HUGE, -HUGE;
    var j := 0;
    while j < grid.Length0
      invariant 0 <= j <= grid.Length0
      invariant low <= HUGE && high >= -HUGE
      invariant (low < HUGE ==> Attained(g, low)) && (high > -HUGE ==> Attained(g, high))
      invariant forall y, x :: 0 <= y < j && 0 <= x < |g[y]| && g[y][x] != NOTDEF ==> low <= g[y][x] <= high
      invariant Flat(g) ==> high <= common <= low
    {
      var i := 0;
      while i < grid.Length1
        invariant 0 <= i <= grid.Length1
        invariant low <= HUGE && high >= -HUGE
        invariant (low < HUGE ==> Attained(g, low)) && (high > -HUGE ==> Attained(g, high))
        invariant forall y, x :: 0 <= y < j && 0 <= x < |g[y]| && g[y][x] != NOTDEF ==> low <= g[y][x] <= high
        invariant forall x :: 0 <= x < i && g[j][x] != NOTDEF ==> low <= g[j][x] <= high
        invariant Flat(g) ==> high <= common <= low
      {
        var v := grid[j, i];
        assert g[j][i] == v;
        if v != NOTDEF {
          AttainedAt(g, j, i);
          if v < low {
            low := v;
          }
          if v > high {
            high := v;
          }
        }
        i := i + 1;
      }
      j := j + 1;
    }
  }

  /** The scale of a grid covers its values, except when they are all the same:
      then it is the scale from 0 to 1, and covers them only if they lie there.
      Otherwise it runs from the least value to the greatest, or over 1 if these
      are less than 1e-10 apart. */
  method FindScale(grid: array2<real>) returns (s: Scale)
    ensures s.extent > 0.0
    ensures Flat(Rows(grid)) ==> s == Scale(0.0, 1.0)
    ensures Covers(s, Rows(grid)) <==> !Flat(Rows(grid)) || Within(Rows(grid), 0.0, 1.0)
    ensures !Flat(Rows(grid)) && AllSearched(Rows(grid)) ==>
              exists high :: Ranges(Rows(grid), s.low, high)
                             && s.extent == if high - s.low < 0.0000000001 then 1.0 else high - s.low
  {
    hide Attained;
    var low, high := FindRange(grid);
    ghost var g := Rows(grid);
    if !Flat(g) && AllSearched(g) {
      EndsAttained(g, low, high);
      assert Ranges(g, low, high);
    }
    if high <= low {
      assert Within(g, low, low);
      low, high := 0.0, 1.0;
    }
    var extent := high - low;
    if extent < 0.0000000001 {
      extent := 1.0;
    }
    s := Scale(low, extent);
  }

  // ------------------------------------------------------------ the texture

  /** The whole texture: each texel shows its node, transparent on the border. */
  function TexelAt(l: Layout, s: Scale, g: Values, y: nat, x: nat): Texel
    requires Drawable(l) && s.extent > 0.0 && Rectangle(g, l.nj, l.ni) && y < Height(l) && x < Width(l)
  {
    var t := Encode(s, g[RowNode(l, y)][ColumnNode(l, x)]);
    if Border(l, y, x) then t.(alpha := 0) else t
  }

  /** No node is dropped, and no two share a texel; the texel of a node is not on
      the border and shows that node. */
  lemma NodeTexel(l: Layout, s: Scale, g: Values, j: nat, i: nat)
    requires Drawable(l) && s.extent > 0.0 && Rectangle(g, l.nj, l.ni) && j < l.nj && i < l.ni
    ensures NodeRow(l, j) < Height(l) && NodeColumn(l, i) < Width(l)
    ensures RowNode(l, NodeRow(l, j)) == j && ColumnNode(l, NodeColumn(l, i)) == i
    ensures TexelAt(l, s, g, NodeRow(l, j), NodeColumn(l, i)) == Encode(s, g[j][i])
  {
  }

  /** The sizes, and where the nodes are: the rows run from the southernmost to the
      northernmost between two border rows; the columns lie between two border columns,
      or, if the grid goes round, before a copy of the first one. */
  lemma NodePlaces(l: Layout, s: Scale, g: Values, j: nat, i: nat)
    requires Drawable(l) && s.extent > 0.0 && Rectangle(g, l.nj, l.ni) && j < l.nj && i < l.ni
    ensures Height(l) == l.nj + 2 && Width(l) == if l.repeat then l.ni + 1 else l.ni + 2
    ensures TexelAt(l, s, g, if l.ascending then j + 1 else l.nj - j, if l.repeat then i else i + 1)
            == Encode(s, g[j][i])
    ensures l.repeat ==> TexelAt(l, s, g, if l.ascending then j + 1 else l.nj - j, l.ni) == Encode(s, g[j][0])
  {
  }

  /** The first and the last row, and where the grid does not go round the first and
      the last column, have the colours of their neighbours and are transparent. */
  lemma BorderFades(l: Layout, s: Scale, g: Values, y: nat, x: nat)
    requires Drawable(l) && s.extent > 0.0 && Rectangle(g, l.nj, l.ni) && y < Height(l) && x < Width(l)
    ensures y == 0 || y == l.nj + 1 || (!l.repeat && (x == 0 || x == l.ni + 1)) ==>
              TexelAt(l, s, g, y, x).alpha == 0
    ensures y == 0 ==> TexelAt(l, s, g, y, x).red == TexelAt(l, s, g, 1, x).red
    ensures y == l.nj + 1 ==> TexelAt(l, s, g, y, x).red == TexelAt(l, s, g, l.nj, x).red
    ensures !l.repeat && x == 0 ==> TexelAt(l, s, g, y, x).red == TexelAt(l, s, g, y, 1).red
    ensures !l.repeat && x == l.ni + 1 ==> TexelAt(l, s, g, y, x).red == TexelAt(l, s, g, y, l.ni).red
  {
  }

  /** The texture while it is made: shown(y, x) are the texels that already show
      their node, blank those still blank. */
  ghost predicate Holds(l: Layout, s: Scale, g: Values, tex: array2<Texel>, y: nat, x: nat)
    requires Drawable(l) && s.extent > 0.0 && Rectangle(g, l.nj, l.ni)
    requires tex.Length0 == Height(l) && tex.Length1 == Width(l) && y < Height(l) && x < Width(l)
    reads tex
  {
    tex[y, x] == Encode(s, g[RowNode(l, y)][ColumnNode(l, x)])
  }

  ghost predicate Made(l: Layout, s: Scale, tex: array2<Texel>)
  {
    Drawable(l) && s.extent > 0.0 && tex.Length0 == Height(l) && tex.Length1 == Width(l)
  }

  method PlaceNodes(l: Layout, s: Scale, grid: array2<real>, tex: array2<Texel>, ghost g: Values)
    requires Made(l, s, tex) && grid.Length0 == l.nj && grid.Length1 == l.ni && g == Rows(grid)
    modifies tex
    ensures forall j, i :: 0 <= j < l.nj && 0 <= i < l.ni ==>
              tex[NodeRow(l, j), NodeColumn(l, i)] == Encode(s, g[j][i])
  {
    hide Encode, Rows;
    var tw, th := Width(l), Height(l);
    var j := 0;
    while j < l.nj
      invariant 0 <= j <= l.nj
      invariant forall b, a :: 0 <= b < j && 0 <= a < l.ni ==>
                  tex[NodeRow(l, b), NodeColumn(l, a)] == Encode(s, g[b][a])
    {
      var texRow := if l.ascending then j else l.nj - 1 - j;
      var i := 0;
      while i < l.ni
        invariant 0 <= i <= l.ni
        invariant forall b, a :: 0 <= b < j && 0 <= a < l.ni ==>
                    tex[NodeRow(l, b), NodeColumn(l, a)] == Encode(s, g[b][a])
        invariant forall a :: 0 <= a < i ==> tex[NodeRow(l, j), NodeColumn(l, a)] == Encode(s, g[j][a])
      {
        var x, y := if l.repeat then i else i + 1, texRow + 1;
        if x < tw - 1 && y < th - 1 {
          tex[y, x] := Encode(s, grid[j, i]);
        }
        i := i + 1;
      }
      j := j + 1;
    }
  }

  /** The extra column of a grid that goes round the globe repeats the first. */
  method RepeatFirstColumn(l: Layout, s: Scale, tex: array2<Texel>)
    requires Made(l, s, tex) && l.repeat
    modifies tex
    ensures forall y, x :: 0 <= y < Height(l) && 0 <= x < Width(l) ==>
              tex[y, x] == if 1 <= y <= l.nj && x == l.ni then old(tex[y, 0]) else old(tex[y, x])
  {
    var j := 0;
    while j < l.nj
      invariant 0 <= j <= l.nj
      invariant forall y, x :: 0 <= y < Height(l) && 0 <= x < Width(l) ==>
                  tex[y, x] == if x == l.ni && 1 <= y <= l.nj && RowNode(l, y) < j then old(tex[y, 0])
                               else old(tex[y, x])
    {
      var texRow := if l.ascending then j else l.nj - 1 - j;
      var y := texRow + 1;
      if y < Height(l) - 1 {
        tex[y, l.ni] := tex[y, 0];
      }
      j := j + 1;
    }
  }

  method CopyRow(tex: array2<Texel>, to: nat, from: nat)
    requires to < tex.Length0 && from < tex.Length0 && to != from
    modifies tex
    ensures forall y, x :: 0 <= y < tex.Length0 && 0 <= x < tex.Length1 ==>
              tex[y, x] == old(tex[if y == to then from else y, x])
  {
    var n := 0;
    while n < tex.Length1
      invariant 0 <= n <= tex.Length1
      invariant forall y, x :: 0 <= y < tex.Length0 && 0 <= x < tex.Length1 ==>
                  tex[y, x] == old(tex[if y == to && x < n then from else y, x])
    {
      tex[to, n] := tex[from, n];
      n := n + 1;
    }
  }

  method ClearRows(l: Layout, s: Scale, tex: array2<Texel>)
    requires Made(l, s, tex)
    modifies tex
    ensures forall y, x :: 0 <= y < Height(l) && 0 <= x < Width(l) ==>
              tex[y, x] == if y == 0 || y == Height(l) - 1 then old(tex[y, x]).(alpha := 0) else old(tex[y, x])
  {
    var x := 0;
    while x < Width(l)
      invariant 0 <= x <= Width(l)
      invariant forall b, a :: 0 <= b < Height(l) && 0 <= a < Width(l) ==>
                  tex[b, a] == if a < x && (b == 0 || b == Height(l) - 1) then old(tex[b, a]).(alpha := 0)
                               else old(tex[b, a])
    {
      tex[0, x] := tex[0, x].(alpha := 0);
      tex[Height(l) - 1, x] := tex[Height(l) - 1, x].(alpha := 0);
      x := x + 1;
    }
  }

  /** Column 0 and the last column take their neighbours' colours, transparent. */
  method BorderColumns(l: Layout, s: Scale, tex: array2<Texel>)
    requires Made(l, s, tex) && !l.repeat
    modifies tex
    ensures forall y, x :: 0 <= y < Height(l) && 0 <= x < Width(l) ==>
              tex[y, x] == if x == 0 then old(tex[y, 1]).(alpha := 0)
                           else if x == Width(l) - 1 then old(tex[y, Width(l) - 2]).(alpha := 0)
                           else old(tex[y, x])
  {
    var tw := Width(l);
    var y := 0;
    while y < Height(l)
      invariant 0 <= y <= Height(l)
      invariant forall b, a :: 0 <= b < Height(l) && 0 <= a < tw ==>
                  tex[b, a] == old(tex[b, if b < y && a == 0 then 1 else if b < y && a == tw - 1 then tw - 2 else a])
    {
      tex[y, 0] := tex[y, 1];
      tex[y, tw - 1] := tex[y, tw - 2];
      y := y + 1;
    }
    y := 0;
    while y < Height(l)
      invariant 0 <= y <= Height(l)
      invariant forall b, a :: 0 <= b < Height(l) && 0 <= a < tw ==>
                  var t := old(tex[b, if a == 0 then 1 else if a == tw - 1 then tw - 2 else a]);
                  tex[b, a] == if b < y && (a == 0 || a == tw - 1) then t.(alpha := 0) else t
    {
      tex[y, 0] := tex[y, 0].(alpha := 0);
      tex[y, tw - 1] := tex[y, tw - 1].(alpha := 0);
      y := y + 1;
    }
  }

  /** All the texels of rows a to b that are not in a border column show their node. */
  ghost predicate Shown(l: Layout, s: Scale, g: Values, tex: array2<Texel>, a: nat, b: nat)
    requires Made(l, s, tex) && Rectangle(g, l.nj, l.ni) && b < Height(l)
    reads tex
  {
    forall y, x :: a <= y <= b && 0 <= x < Width(l) && !BorderColumn(l, x) ==> Holds(l, s, g, tex, y, x)
  }

  predicate BorderColumn(l: Layout, x: nat) { !l.repeat && (x == 0 || x == Width(l) - 1) }

  method ShowNodes(l: Layout, s: Scale, grid: array2<real>, tex: array2<Texel>, ghost g: Values)
    requires Made(l, s, tex) && grid.Length0 == l.nj && grid.Length1 == l.ni && g == Rows(grid)
    modifies tex
    ensures Shown(l, s, g, tex, 1, l.nj)
  {
    hide Encode, Rows;
    PlaceNodes(l, s, grid, tex, g);
    InnerShown(l, s, g, tex);
    if l.repeat {
      label nodes:
      RepeatFirstColumn(l, s, tex);
      forall y, x | 1 <= y <= l.nj && 0 <= x < Width(l)
        ensures Holds(l, s, g, tex, y, x)
      {
        assert old@nodes(Holds(l, s, g, tex, y, if x == l.ni then 0 else x));
      }
    }
  }

  /** The first and the last row repeat their neighbours. */
  method ShowRows(l: Layout, s: Scale, tex: array2<Texel>, ghost g: Values)
    requires Made(l, s, tex) && Rectangle(g, l.nj, l.ni) && Shown(l, s, g, tex, 1, l.nj)
    modifies tex
    ensures Shown(l, s, g, tex, 0, Height(l) - 1)
  {
    hide Encode;
    CopyRow(tex, 0, 1);
    CopyRow(tex, Height(l) - 1, Height(l) - 2);
    forall y, x | 0 <= y < Height(l) && 0 <= x < Width(l) && !BorderColumn(l, x)
      ensures Holds(l, s, g, tex, y, x)
    {
      assert old(Holds(l, s, g, tex, if y == 0 then 1 else if y == Height(l) - 1 then y - 1 else y, x));
    }
  }

  method BuildTexture(l: Layout, s: Scale, grid: array2<real>) returns (tex: array2<Texel>)
    requires Drawable(l) && s.extent > 0.0 && grid.Length0 == l.nj && grid.Length1 == l.ni
    ensures fresh(tex) && tex.Length0 == Height(l) && tex.Length1 == Width(l)
    ensures forall y, x :: 0 <= y < Height(l) && 0 <= x < Width(l) ==>
              tex[y, x] == TexelAt(l, s, Rows(grid), y, x)
  {
    hide Encode, Rows;
    ghost var g := Rows(grid);
    tex := new Texel[Height(l), Width(l)]((y, x) => BLANK);
    ShowNodes(l, s, grid, tex, g);
    ShowRows(l, s, tex, g);
    label shown:
    ClearRows(l, s, tex);
    forall y, x | 0 <= y < Height(l) && 0 <= x < Width(l) && !BorderColumn(l, x)
      ensures tex[y, x] == TexelAt(l, s, g, y, x)
    {
      assert old@shown(Holds(l, s, g, tex, y, x));
    }
    label cleared:
    if !l.repeat {
      BorderColumns(l, s, tex);
      forall y, x | 0 <= y < Height(l) && 0 <= x < Width(l)
        ensures tex[y, x] == TexelAt(l, s, g, y, x)
      {
        var inner := if x == 0 then 1 else if x == Width(l) - 1 then x - 1 else x;
        assert old@cleared(tex[y, inner]) == TexelAt(l, s, g, y, inner);
      }
    }
  }

  /** Columns that hold nodes of their own. */
  predicate InnerColumn(l: Layout, x: nat) { if l.repeat then x < l.ni else 1 <= x <= l.ni }

  lemma InnerShown(l: Layout, s: Scale, g: Values, tex: array2<Texel>)
    requires Made(l, s, tex) && Rectangle(g, l.nj, l.ni)
    requires forall j, i :: 0 <= j < l.nj && 0 <= i < l.ni ==>
               tex[NodeRow(l, j), NodeColumn(l, i)] == Encode(s, g[j][i])
    ensures forall y, x :: 1 <= y <= l.nj && 0 <= x < Width(l) && InnerColumn(l, x) ==> Holds(l, s, g, tex, y, x)
  {
    forall y, x | 1 <= y <= l.nj && 0 <= x < Width(l) && InnerColumn(l, x)
      ensures Holds(l, s, g, tex, y, x)
    {
      var j, i := RowNode(l, y), ColumnNode(l, x);
      assert NodeRow(l, j) == y && NodeColumn(l, i) == x;
      assert tex[NodeRow(l, j), NodeColumn(l, i)] == Encode(s, g[j][i]);
    }
  }

  // ------------------------------------------------------------ sampling

  /** The texture coordinates of a position; a texel is 1 wide before scaling. */
  function SampleU(l: Layout, lonMin: real, step: real, lon: real): real
    requires step > 0.0 && Drawable(l)
  {
    ((lon - lonMin) / step - (if l.repeat then 1.0 else 0.0) + 1.5) / Width(l) as real
  }

  function SampleV(l: Layout, latMin: real, step: real, lat: real): real
    requires step > 0.0 && Drawable(l)
  {
    ((lat - latMin) / step + 1.5) / Height(l) as real
  }

  /** The centre of texel t of n. */
  function Centre(t: int, n: nat): real
    requires n > 0
  {
    (t as real + 0.5) / n as real
  }

  lemma Steps(start: real, n: int, step: real, p: real)
    requires step > 0.0 && p == start + n as real * step
    ensures (p - start) / step == n as real
  {
    QuotientOrder(p - start, step, n as real);
  }

  /** A node is sampled at the centre of the texel that stores it, in both
      orientations of the rows and both modes. */
  lemma NodeSampledAtItsTexel(l: Layout, lonMin: real, lonStep: real, latMin: real, latStep: real,
                              i: nat, j: nat, lon: real, lat: real)
    requires Drawable(l) && lonStep > 0.0 && latStep > 0.0 && i < l.ni && j < l.nj
    requires lon == lonMin + i as real * lonStep
    requires lat == latMin + (if l.ascending then j else l.nj - 1 - j) as real * latStep
    ensures SampleU(l, lonMin, lonStep, lon) == Centre(NodeColumn(l, i), Width(l))
    ensures SampleV(l, latMin, latStep, lat) == Centre(NodeRow(l, j), Height(l))
    ensures SampleU(l, lonMin, lonStep, lon) ==
            if l.repeat then (i as real + 0.5) / (l.ni + 1) as real else (i as real + 1.5) / (l.ni + 2) as real
    ensures SampleV(l, latMin, latStep, lat) ==
            ((if l.ascending then j else l.nj - 1 - j) as real + 1.5) / (l.nj + 2) as real
  {
    Steps(lonMin, i, lonStep, lon);
    Steps(latMin, if l.ascending then j else l.nj - 1 - j, latStep, lat);
  }

  /** The longitude brought within half a turn of the middle of the data. */
  function Adjusted(lonMin: real, lonMax: real, lon: real): real {
    var middle := (lonMin + lonMax) / 2.0;
    if middle - lon > 180.0 then lon + 360.0 else if lon - middle > 180.0 then lon - 360.0 else lon
  }

  /** On a grid that does not go round, a node is found also when the position
      names it one turn to the left or to the right. */
  lemma AdjustedNode(lonMin: real, lonMax: real, lon: real, turns: int)
    requires lonMin <= lon <= lonMax && lonMax - lonMin < 360.0 && -1 <= turns <= 1
    ensures Adjusted(lonMin, lonMax, lon + 360.0 * turns as real) == lon
  {
  }

  /** On a grid that goes round, a position k turns away from node i is sampled
      that many columns further, and the texture repeats after its own width. */
  lemma RepeatSamples(l: Layout, lonMin: real, step: real, i: nat, k: int, lon: real)
    requires Drawable(l) && l.repeat && step > 0.0 && step * l.ni as real == 360.0 && i < l.ni
    requires lon == lonMin + i as real * step + 360.0 * k as real
    ensures SampleU(l, lonMin, step, lon) == Centre(i + k * l.ni, Width(l))
  {
    var n := i + k * l.ni;
    assert n as real == i as real + k as real * l.ni as real;
    assert (k as real * l.ni as real) * step == k as real * (step * l.ni as real);
    Distribute(i as real, k as real * l.ni as real, step);
    Steps(lonMin, n, step, lon);
  }

  /** The width is one column more than a turn: a position k turns away is shown
      with the colour of its node if and only if the turns make up a whole
      number of widths, or, for the first node, one turn more. */
  lemma RepeatShowsNodeIff(l: Layout, i: nat, k: int)
    requires Drawable(l) && l.repeat && i < l.ni
    ensures 0 <= (i + k * l.ni) % Width(l) < Width(l)
    ensures ColumnNode(l, (i + k * l.ni) % Width(l)) == i <==>
            k % Width(l) == 0 || (i == 0 && k % Width(l) == 1)
  {
    var w := Width(l);
    var q, r := k / w, k % w;
    var c := if i >= r then i - r else i - r + w;
    var turns := if i >= r then k - q else k - q - 1;
    assert k == q * w + r;
    assert k * l.ni == k * w - k;
    assert i + k * l.ni == turns * w + c by {
      assert k * w - q * w == (k - q) * w;
      assert (k - q) * w - w == (k - q - 1) * w;
    }
    Remainder(i + k * l.ni, turns, c, w);
  }

  lemma Remainder(a: int, q: int, r: int, w: nat)
    requires w > 0 && 0 <= r < w && a == q * w + r
    ensures a % w == r
  {
    var q', r' := a / w, a % w;
    Minus(q, q', w);
    SmallMultiple(q - q', w);
  }

  lemma Minus(q: int, p: int, w: int)
    ensures (q - p) * w == q * w - p * w
  {
  }

  lemma SmallMultiple(d: int, w: int)
    requires w > 0 && -w < d * w < w
    ensures d == 0
  {
    if d >= 1 {
      Minus(d, 1, w);
      Nonnegative(d - 1, w);
    } else if d <= -1 {
      Minus(-1, d, w);
      Nonnegative(-1 - d, w);
    }
  }

  lemma Nonnegative(a: int, b: int)
    requires a >= 0 && b >= 0
    ensures a * b >= 0
  {
  }
}
