/** Grids with undefined cells, and the pass that gives an undefined cell the
    mean of two opposite neighbours. */
module Grids {
  import opened Undefined

  type Values = seq<seq<real>>

  datatype Direction = Vertical | Horizontal

  predicate Rectangle(g: Values, nj: nat, ni: nat) {
    |g| == nj && forall y :: 0 <= y < nj ==> |g[y]| == ni
  }

  function Rows(a: array2<real>): (g: Values)
    reads a
    ensures Rectangle(g, a.Length0, a.Length1)
    ensures forall y, x :: 0 <= y < a.Length0 && 0 <= x < a.Length1 ==> g[y][x] == a[y, x]
  {
    seq(a.Length0, y requires 0 <= y < a.Length0 reads a =>
      seq(a.Length1, x requires 0 <= x < a.Length1 reads a => a[y, x]))
  }

  /** Opposite neighbours exist in this direction. */
  predicate Inner(d: Direction, nj: nat, ni: nat, y: int, x: int) {
    0 <= y < nj && 0 <= x < ni && match d case Vertical => 0 < y < nj - 1 case Horizontal => 0 < x < ni - 1
  }

  function Mean(before: real, cell: real, after: real): real {
    if cell == NOTDEF && before != NOTDEF && after != NOTDEF then (before + after) / 2.0 else cell
  }

  /** The value of a cell when it is filled from the grid g. */
  function FilledAt(d: Direction, g: Values, y: nat, x: nat): real
    requires |g| > 0 && Rectangle(g, |g|, |g[0]|) && y < |g| && x < |g[0]|
  {
    if !Inner(d, |g|, |g[0]|, y, x) then g[y][x]
    else
      match d
      case Vertical => Mean(g[y - 1][x], g[y][x], g[y + 1][x])
      case Horizontal => Mean(g[y][x - 1], g[y][x], g[y][x + 1])
  }

  predicate Grid(g: Values) { |g| > 0 && Rectangle(g, |g|, |g[0]|) }

  /** Every cell that may be filled is filled, all from the same grid. */
  function Fill(d: Direction, g: Values, may: (nat, nat) -> bool): (r: Values)
    requires Grid(g)
    ensures Rectangle(r, |g|, |g[0]|)
    ensures forall y, x :: 0 <= y < |g| && 0 <= x < |g[0]| ==>
              r[y][x] == if may(y, x) then FilledAt(d, g, y, x) else g[y][x]
  {
    seq(|g|, y requires 0 <= y < |g| =>
      seq(|g[0]|, x requires 0 <= x < |g[0]| => if may(y, x) then FilledAt(d, g, y, x) else g[y][x]))
  }

  /** One cell is filled in place. */
  function CellFilled(d: Direction, g: Values, y: nat, x: nat): (r: Values)
    requires Grid(g) && y < |g| && x < |g[0]|
    ensures Rectangle(r, |g|, |g[0]|)
    ensures forall b, a :: 0 <= b < |g| && 0 <= a < |g[0]| ==>
              r[b][a] == if b == y && a == x then FilledAt(d, g, y, x) else g[b][a]
  {
    g[y := g[y][x := FilledAt(d, g, y, x)]]
  }

  /** The cells in done have been filled in place, in whatever order. */
  ghost predicate Underway(d: Direction, before: Values, now: Values, done: set<(nat, nat)>) {
    && Grid(before)
    && Rectangle(now, |before|, |before[0]|)
    && forall y, x :: 0 <= y < |before| && 0 <= x < |before[0]| ==>
         now[y][x] == if (y, x) in done then FilledAt(d, before, y, x) else before[y][x]
  }

  /** No cascade: filling one more cell in place, or one again, gives it the value
      it has when filled from the grid as it was at the start. */
  lemma InPlace(d: Direction, before: Values, now: Values, done: set<(nat, nat)>, y: nat, x: nat)
    requires Underway(d, before, now, done) && y < |before| && x < |before[0]|
    ensures Grid(now) && Underway(d, before, CellFilled(d, now, y, x), done + {(y, x)})
  {
  }

  /** A pass that deals with all the cells that may be filled, and with no others
      that change, is the simultaneous fill. */
  lemma PassIsFill(d: Direction, before: Values, now: Values, done: set<(nat, nat)>, may: (nat, nat) -> bool)
    requires Underway(d, before, now, done)
    requires forall y: nat, x: nat :: y < |before| && x < |before[0]| ==>
               if may(y, x) && Inner(d, |before|, |before[0]|, y, x) then (y, x) in done
               else (y, x) in done ==> FilledAt(d, before, y, x) == before[y][x] || may(y, x)
    ensures now == Fill(d, before, may)
  {
    var r := Fill(d, before, may);
    forall y | 0 <= y < |before|
      ensures now[y] == r[y]
    {
      assert forall x :: 0 <= x < |before[0]| ==> now[y][x] == r[y][x];
    }
  }

  /** A cell that has a value keeps it. */
  lemma DefinedKept(d: Direction, g: Values, may: (nat, nat) -> bool, y: nat, x: nat)
    requires Grid(g) && y < |g| && x < |g[0]| && g[y][x] != NOTDEF
    ensures Fill(d, g, may)[y][x] == g[y][x]
  {
  }

  /** A second pass changes nothing. */
  lemma FillIdempotent(d: Direction, g: Values, may: (nat, nat) -> bool)
    requires Grid(g)
    ensures Grid(Fill(d, g, may)) && Fill(d, Fill(d, g, may), may) == Fill(d, g, may)
  {
    var r := Fill(d, g, may);
    var rr := Fill(d, r, may);
    forall y | 0 <= y < |g|
      ensures r[y] == rr[y]
    {
      forall x | 0 <= x < |g[0]|
        ensures r[y][x] == rr[y][x]
      {
        FilledAgain(d, g, may, y, x);
      }
    }
  }

  lemma FilledAgain(d: Direction, g: Values, may: (nat, nat) -> bool, y: nat, x: nat)
    requires Grid(g) && y < |g| && x < |g[0]|
    ensures Grid(Fill(d, g, may)) && Fill(d, Fill(d, g, may), may)[y][x] == Fill(d, g, may)[y][x]
  {
  }
}
