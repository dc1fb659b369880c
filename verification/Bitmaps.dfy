/** Unpacking the data section of a GRIB message by its bitmap (WMO FM 92 GRIB
    edition 2, Section 6), and the two passes that fill holes afterwards. */
module Bitmaps {
  import opened Grids
  import opened GridFill
  import opened Undefined

  type Octet = bv8

  /** Bit 7 of an octet comes first. */
  predicate TestBit(o: Octet, bit: nat)
    requires bit < 8
  {
    o & (1 << bit) != 0
  }

  predicate Bit(mask: seq<Octet>, k: nat)
    requires k < 8 * |mask|
  {
    TestBit(mask[k / 8], 7 - k % 8)
  }

  /** The bits of an octet, the first one the most significant. */
  const MASKS: seq<Octet> := [0x80, 0x40, 0x20, 0x10, 0x08, 0x04, 0x02, 0x01]

  /** Bit k is bit k % 8 of octet k / 8, counted from the most significant one. */
  lemma BitInOctet(mask: seq<Octet>, k: nat)
    requires k < 8 * |mask|
    ensures Bit(mask, k) <==> mask[k / 8] & MASKS[k % 8] != 0
  {
    ShiftIsMask(mask[k / 8], k % 8);
  }

  lemma ShiftIsMask(o: Octet, n: nat)
    requires n < 8
    ensures TestBit(o, 7 - n) <==> o & MASKS[n] != 0
  {
    var one: Octet := 1;
    assert one << 7 == 0x80 && one << 6 == 0x40 && one << 5 == 0x20 && one << 4 == 0x10;
    assert one << 3 == 0x08 && one << 2 == 0x04 && one << 1 == 0x02 && one << 0 == 0x01;
  }

  /** The number of set bits before bit k. */
  function Rank(mask: seq<Octet>, k: nat): (r: nat)
    requires k <= 8 * |mask|
    ensures r <= k
  {
    if k == 0 then 0 else Rank(mask, k - 1) + if Bit(mask, k - 1) then 1 else 0
  }

  ghost function SetBefore(mask: seq<Octet>, k: nat): set<nat>
    requires k <= 8 * |mask|
  {
    set i: nat | i < k && mask[i / 8] & MASKS[i % 8] != 0
  }

  /** It counts them, read from the octets themselves. */
  lemma {:induction false} RankIsCount(mask: seq<Octet>, k: nat)
    requires k <= 8 * |mask|
    ensures Rank(mask, k) == |SetBefore(mask, k)|
  {
    hide Bit;
    if k > 0 {
      RankIsCount(mask, k - 1);
      BitInOctet(mask, k - 1);
      var before, now := SetBefore(mask, k - 1), SetBefore(mask, k);
      if Bit(mask, k - 1) {
        assert now == before + {k - 1};
      } else {
        assert now == before;
      }
    }
  }

  lemma {:induction false} RankMonotone(mask: seq<Octet>, k: nat, m: nat)
    requires k <= m <= 8 * |mask|
    ensures Rank(mask, k) <= Rank(mask, m)
    decreases m
  {
    if k < m {
      RankMonotone(mask, k, m - 1);
    }
  }

  predicate Enough(mask: seq<Octet>, data: seq<real>, n: nat) {
    n <= 8 * |mask| && Rank(mask, n) <= |data|
  }

  /** The value of cell k: the datum whose number is the rank of k. */
  function CellAt(mask: seq<Octet>, data: seq<real>, n: nat, k: nat): real
    requires Enough(mask, data, n) && k < n
  {
    RankMonotone(mask, k + 1, n);
    if Bit(mask, k) then data[Rank(mask, k)] else NOTDEF
  }

  function Unpacked(mask: seq<Octet>, data: seq<real>, n: nat): (r: seq<real>)
    requires Enough(mask, data, n)
    ensures |r| == n
  {
    seq(n, k requires 0 <= k < n => CellAt(mask, data, n, k))
  }

  /** The cells whose bit is set, in order. */
  function Packed(mask: seq<Octet>, cells: seq<real>): (r: seq<real>)
    requires |cells| <= 8 * |mask|
    ensures |r| == Rank(mask, |cells|)
  {
    if cells == [] then []
    else
      var n := |cells| - 1;
      Packed(mask, cells[..n]) + if Bit(mask, n) then [cells[n]] else []
  }

  lemma {:induction false} PackedAt(mask: seq<Octet>, cells: seq<real>, k: nat)
    requires |cells| <= 8 * |mask| && k < |cells| && Bit(mask, k)
    ensures Rank(mask, k) < Rank(mask, |cells|)
    ensures Packed(mask, cells)[Rank(mask, k)] == cells[k]
    decreases |cells|
  {
    hide Bit;
    var n := |cells| - 1;
    RankMonotone(mask, k + 1, |cells|);
    if k < n {
      RankMonotone(mask, k + 1, n);
      PackedAt(mask, cells[..n], k);
    }
  }

  /** Unpacking gives back every grid whose cells without a bit are undefined. */
  lemma UnpackPack(mask: seq<Octet>, cells: seq<real>)
    requires |cells| <= 8 * |mask|
    requires forall k :: 0 <= k < |cells| && !Bit(mask, k) ==> cells[k] == NOTDEF
    ensures Unpacked(mask, Packed(mask, cells), |cells|) == cells
  {
    forall k | 0 <= k < |cells|
      ensures CellAt(mask, Packed(mask, cells), |cells|, k) == cells[k]
    {
      if Bit(mask, k) {
        PackedAt(mask, cells, k);
      }
    }
  }

  /** Every datum is used once and in order: packing gives back the data. */
  lemma {:induction false} PackUnpack(mask: seq<Octet>, data: seq<real>, n: nat)
    requires Enough(mask, data, n)
    ensures Packed(mask, Unpacked(mask, data, n)) == data[..Rank(mask, n)]
    decreases n
  {
    hide Bit;
    if n > 0 {
      var cells := Unpacked(mask, data, n);
      RankMonotone(mask, n - 1, n);
      PackUnpack(mask, data, n - 1);
      assert cells[..n - 1] == Unpacked(mask, data, n - 1);
    }
  }

  /** The number of cells of ny rows of nx, which is also the index of the first
      cell of row ny. */
  function Start(ny: nat, nx: nat): nat {
    if ny == 0 then 0 else Start(ny - 1, nx) + nx
  }

  lemma {:induction false} StartIsProduct(ny: nat, nx: nat)
    ensures Start(ny, nx) == ny * nx
  {
    if ny > 0 {
      StartIsProduct(ny - 1, nx);
      assert (ny - 1) * nx + nx == ny * nx;
    }
  }

  lemma {:induction false} RowFits(ny: nat, nx: nat, y: nat)
    requires y < ny
    ensures Start(y, nx) + nx <= Start(ny, nx)
    decreases ny
  {
    if y < ny - 1 {
      RowFits(ny - 1, nx, y);
    }
  }

  /** The grid of the unpacked cells, row after row. */
  function Laid(mask: seq<Octet>, data: seq<real>, ny: nat, nx: nat): (g: Values)
    requires Enough(mask, data, Start(ny, nx))
    ensures Rectangle(g, ny, nx)
  {
    seq(ny, y requires 0 <= y < ny =>
      seq(nx, x requires 0 <= x < nx => (RowFits(ny, nx, y); CellAt(mask, data, Start(ny, nx), Start(y, nx) + x))))
  }

  /** Reads the bit at the cursor, moving to the next octet when this one is used up. */
  method IsInBmpMask(mask: seq<Octet>, index: nat, bit: int, ghost k: nat)
    returns (isIn: bool, index': nat, bit': int)
    requires k < 8 * |mask| && -1 <= bit <= 7 && 8 * index + 7 - bit == k
    ensures isIn <==> Bit(mask, k)
    ensures 0 <= bit' <= 7 && 8 * index' + 7 - bit' == k
  {
    index', bit' := index, bit;
    if bit' < 0 {
      bit' := 7;
      index' := index' + 1;
    }
    assert k / 8 == index' && 7 - k % 8 == bit';
    isIn := TestBit(mask[index'], bit');
  }

  /** The double loop that lays the data out on the grid. */
  method Unpack(mask: seq<Octet>, data: seq<real>, ny: nat, nx: nat) returns (grid: array2<real>)
    requires Enough(mask, data, Start(ny, nx)) && ny > 0 && nx > 0
    ensures fresh(grid) && grid.Length0 == ny && grid.Length1 == nx
    ensures Rows(grid) == Laid(mask, data, ny, nx)
  {
    hide CellAt, Bit, Start, Rank;
    grid := new real[ny, nx];
    var count, index: nat, bit := 0, 0, 7;
    ghost var cells := Laid(mask, data, ny, nx);
    ghost var k := 0;
    Beginning(mask, nx);
    RowFits(ny, nx, 0);
    var lat := 0;
    while lat < ny
      invariant 0 <= lat <= ny && k == Start(lat, nx)
      invariant lat < ny ==> k + nx <= Start(ny, nx)
      invariant 0 <= k <= 8 * |mask| && count == Rank(mask, k) && -1 <= bit <= 7 && 8 * index + 7 - bit == k
      invariant forall y, x :: 0 <= y < lat && 0 <= x < nx ==> grid[y, x] == cells[y][x]
    {
      var lon := 0;
      RowFits(ny, nx, lat);
      while lon < nx
        invariant 0 <= lon <= nx && k == Start(lat, nx) + lon <= 8 * |mask|
        invariant count == Rank(mask, k) && -1 <= bit <= 7 && 8 * index + 7 - bit == k
        invariant forall y, x :: 0 <= y < lat && 0 <= x < nx ==> grid[y, x] == cells[y][x]
        invariant forall x :: 0 <= x < lon ==> grid[lat, x] == cells[lat][x]
      {
        CellValue(mask, data, Start(ny, nx), k);
        var isIn;
        isIn, index, bit := IsInBmpMask(mask, index, bit, k);
        if isIn {
          grid[lat, lon] := data[count];
          count := count + 1;
        } else {
          grid[lat, lon] := NOTDEF;
        }
        bit := bit - 1;
        k := k + 1;
        lon := lon + 1;
      }
      NextRow(nx, lat);
      if lat + 1 < ny {
        RowFits(ny, nx, lat + 1);
      }
      lat := lat + 1;
    }
    SameRows(Rows(grid), cells);
  }

  lemma Beginning(mask: seq<Octet>, nx: nat)
    ensures Start(0, nx) == 0 && Rank(mask, 0) == 0
  {
  }

  lemma NextRow(nx: nat, y: nat)
    ensures Start(y + 1, nx) == Start(y, nx) + nx
  {
  }

  lemma CellValue(mask: seq<Octet>, data: seq<real>, n: nat, k: nat)
    requires Enough(mask, data, n) && k < n
    ensures Bit(mask, k) ==> Rank(mask, k) < |data| && CellAt(mask, data, n, k) == data[Rank(mask, k)]
    ensures !Bit(mask, k) ==> CellAt(mask, data, n, k) == NOTDEF
    ensures Rank(mask, k + 1) == Rank(mask, k) + if Bit(mask, k) then 1 else 0
  {
    hide Bit;
    RankMonotone(mask, k + 1, n);
  }

  // ------------------------------------------------------------ filling holes

  /** No cell without a bit has a value. */
  ghost predicate Masked(mask: seq<Octet>, g: Values, nx: nat) {
    && Grid(g) && |g[0]| == nx && Start(|g|, nx) <= 8 * |mask|
    && forall y, x :: 0 <= y < |g| && 0 <= x < nx ==> CellMasked(mask, g, nx, y, x)
  }

  ghost predicate CellMasked(mask: seq<Octet>, g: Values, nx: nat, y: nat, x: nat)
    requires Grid(g) && |g[0]| == nx && y < |g| && x < nx
  {
    Start(y, nx) + x < 8 * |mask| && !Bit(mask, Start(y, nx) + x) ==> g[y][x] == NOTDEF
  }

  lemma LaidIsMasked(mask: seq<Octet>, data: seq<real>, ny: nat, nx: nat)
    requires Enough(mask, data, Start(ny, nx)) && ny > 0 && nx > 0
    ensures Masked(mask, Laid(mask, data, ny, nx), nx)
  {
    hide Bit;
    var g := Laid(mask, data, ny, nx);
    forall y, x | 0 <= y < ny && 0 <= x < nx
      ensures CellMasked(mask, g, nx, y, x)
    {
      RowFits(ny, nx, y);
      CellValue(mask, data, Start(ny, nx), Start(y, nx) + x);
    }
  }

  /** What the cells passed so far have done: those whose right, or lower,
      neighbour is an inner cell of the direction have dealt with that one. */
  ghost predicate Dealt(d: Direction, done: set<(nat, nat)>, ny: nat, nx: nat, lat: nat, lon: nat) {
    && (forall c :: c in done ==> Inner(d, ny, nx, c.0, c.1))
    && (forall y: nat, x: nat :: Inner(d, ny, nx, y, x) && Reached(d, y, x, lat, lon) ==> (y, x) in done)
  }

  /** The cell before (y, x) comes before (lat, lon) in row order. */
  predicate Reached(d: Direction, y: nat, x: nat, lat: nat, lon: nat) {
    match d
    case Horizontal => y < lat || (y == lat && x < lon + 1)
    case Vertical => y < lat + 1 || (y == lat + 1 && x < lon)
  }

  lemma NextReached(d: Direction, done: set<(nat, nat)>, ny: nat, nx: nat, lat: nat, lon: nat)
    requires lat < ny && lon < nx && Dealt(d, done, ny, nx, lat, lon)
    ensures var (y, x) := if d == Horizontal then (lat, lon + 1) else (lat + 1, lon);
            var done' := if Inner(d, ny, nx, y, x) then done + {(y, x)} else done;
            && Dealt(d, done', ny, nx, lat, lon + 1)
            && (lon + 1 == nx ==> Dealt(d, done', ny, nx, lat + 1, 0))
  {
  }

  /** A hole between two values gets their mean. */
  method FillHole(d: Direction, grid: array2<real>, y: nat, x: nat)
    requires Inner(d, grid.Length0, grid.Length1, y, x)
    modifies grid
    ensures Rows(grid) == CellFilled(d, old(Rows(grid)), y, x)
  {
    ghost var before := Rows(grid);
    var dy, dx := if d == Vertical then 1 else 0, if d == Vertical then 0 else 1;
    if grid[y + dy, x + dx] != NOTDEF && grid[y - dy, x - dx] != NOTDEF && grid[y, x] == NOTDEF {
      grid[y, x] := (grid[y - dy, x - dx] + grid[y + dy, x + dx]) / 2.0;
    }
    SameRows(Rows(grid), CellFilled(d, before, y, x));
  }

  lemma HolesBegin(d: Direction, g: Values, ny: nat, nx: nat)
    requires ny > 0 && nx > 0 && Rectangle(g, ny, nx)
    ensures Underway(d, g, g, {}) && Dealt(d, {}, ny, nx, 0, 0)
  {
  }

  lemma HolesEnd(d: Direction, before: Values, now: Values, done: set<(nat, nat)>, ny: nat, nx: nat)
    requires Underway(d, before, now, done) && ny > 0 && nx > 0 && Rectangle(before, ny, nx)
    requires Dealt(d, done, ny, nx, ny, 0)
    ensures now == Fill(d, before, Everywhere())
  {
    PassIsFill(d, before, now, done, Everywhere());
  }

  /** A hole beside a cell without a bit is not filled by the plain fill either. */
  lemma SkippedHole(mask: seq<Octet>, before: Values, now: Values, done: set<(nat, nat)>, nx: nat, y: nat, x: nat)
    requires Masked(mask, before, nx) && Underway(Horizontal, before, now, done)
    requires y < |before| && x + 2 < nx && Start(y, nx) + x < 8 * |mask| && !Bit(mask, Start(y, nx) + x)
    ensures Underway(Horizontal, before, now, done + {(y, x + 1)})
  {
    hide Bit, Start;
    assert CellMasked(mask, before, nx, y, x);
    assert FilledAt(Horizontal, before, y, x + 1) == before[y][x + 1];
  }

  /** The row pass: where the bit of a cell is set, the hole to its right is
      filled. As only cells with a bit have values, it is the plain row fill. */
  method FillRowHoles(mask: seq<Octet>, grid: array2<real>, ny: nat, nx: nat)
    requires grid.Length0 == ny > 0 && grid.Length1 == nx > 0 && Masked(mask, Rows(grid), nx)
    modifies grid
    ensures Rows(grid) == Fill(Horizontal, old(Rows(grid)), Everywhere())
  {
    hide Bit, Underway, Rows, Fill, Start, CellFilled, FilledAt, Dealt;
    ghost var before := Rows(grid);
    ghost var done: set<(nat, nat)> := {};
    HolesBegin(Horizontal, before, ny, nx);
    var count, index: nat, bit, lat, lon := 0, 0, 7, 0, 0;
    Beginning(mask, nx);
    MaskCovers(mask, ny, nx);
    while count < 8 * |mask|
      invariant 0 <= lat < ny && 0 <= lon < nx && count == Start(lat, nx) + lon <= 8 * |mask|
      invariant -1 <= bit <= 7 && 8 * index + 7 - bit == count
      invariant Underway(Horizontal, before, Rows(grid), done) && Dealt(Horizontal, done, ny, nx, lat, lon)
      invariant count < 8 * |mask|
      decreases 8 * |mask| - count
    {
      NextReached(Horizontal, done, ny, nx, lat, lon);
      var isIn;
      isIn, index, bit := IsInBmpMask(mask, index, bit, count);
      if isIn {
        if lon + 2 < nx {
          InPlace(Horizontal, before, Rows(grid), done, lat, lon + 1);
          FillHole(Horizontal, grid, lat, lon + 1);
        }
      } else if lon + 2 < nx {
        SkippedHole(mask, before, Rows(grid), done, nx, lat, lon);
      }
      done := if lon + 2 < nx then done + {(lat, lon + 1)} else done;
      bit := bit - 1;
      NextRow(nx, lat);
      lon := lon + 1;
      if lon == nx {
        lat := lat + 1;
        lon := 0;
      }
      if lat == ny {
        break;
      }
      RowFits(ny, nx, lat);
      count := count + 1;
    }
    HolesEnd(Horizontal, before, Rows(grid), done, ny, nx);
  }

  lemma MaskCovers(mask: seq<Octet>, ny: nat, nx: nat)
    requires ny > 0 && nx > 0 && Start(ny, nx) <= 8 * |mask|
    ensures 0 < 8 * |mask|
  {
    RowFits(ny, nx, 0);
  }

  /** The column pass, which no longer looks at the bitmap. */
  method FillColumnHoles(bits: nat, grid: array2<real>, ny: nat, nx: nat)
    requires grid.Length0 == ny > 0 && grid.Length1 == nx > 0 && Start(ny, nx) <= bits
    modifies grid
    ensures Rows(grid) == Fill(Vertical, old(Rows(grid)), Everywhere())
  {
    hide Underway, Rows, Fill, Start, CellFilled, FilledAt, Dealt;
    ghost var before := Rows(grid);
    ghost var done: set<(nat, nat)> := {};
    HolesBegin(Vertical, before, ny, nx);
    var count, lat, lon := 0, 0, 0;
    Beginning([], nx);
    RowFits(ny, nx, 0);
    while count < bits
      invariant 0 <= lat < ny && 0 <= lon < nx && count == Start(lat, nx) + lon < bits
      invariant Underway(Vertical, before, Rows(grid), done) && Dealt(Vertical, done, ny, nx, lat, lon)
      decreases bits - count
    {
      NextReached(Vertical, done, ny, nx, lat, lon);
      if lat + 2 < ny {
        InPlace(Vertical, before, Rows(grid), done, lat + 1, lon);
        FillHole(Vertical, grid, lat + 1, lon);
      }
      done := if lat + 2 < ny then done + {(lat + 1, lon)} else done;
      NextRow(nx, lat);
      lon := lon + 1;
      if lon == nx {
        lat := lat + 1;
        lon := 0;
      }
      if lat == ny {
        break;
      }
      RowFits(ny, nx, lat);
      count := count + 1;
    }
    HolesEnd(Vertical, before, Rows(grid), done, ny, nx);
  }

  /** The grid of a record with a bitmap: unpacked, then its holes filled along
      the rows, then along the columns. */
  method AddRecord(mask: seq<Octet>, data: seq<real>, ny: nat, nx: nat) returns (grid: array2<real>)
    requires Enough(mask, data, Start(ny, nx)) && ny > 0 && nx > 0
    ensures fresh(grid) && grid.Length0 == ny && grid.Length1 == nx
    ensures Rows(grid) == Fill(Vertical, Fill(Horizontal, Laid(mask, data, ny, nx), Everywhere()), Everywhere())
  {
    hide Rows, Fill, Laid, Masked;
    grid := Unpack(mask, data, ny, nx);
    LaidIsMasked(mask, data, ny, nx);
    FillRowHoles(mask, grid, ny, nx);
    FillColumnHoles(8 * |mask|, grid, ny, nx);
  }

  /** Where a record's value is put, written out: cell (y, x) has bit y * nx + x, and
      if that is set, the datum that as many data precede as bits are set before it. */
  lemma LaidAt(mask: seq<Octet>, data: seq<real>, ny: nat, nx: nat, y: nat, x: nat)
    requires Enough(mask, data, Start(ny, nx)) && y < ny && x < nx
    ensures var k := y * nx + x;
            && k < 8 * |mask|
            && (if mask[k / 8] & MASKS[k % 8] == 0 then Laid(mask, data, ny, nx)[y][x] == NOTDEF
                else && |SetBefore(mask, k)| < |data|
                     && Laid(mask, data, ny, nx)[y][x] == data[|SetBefore(mask, k)|])
  {
    hide Bit, Rank, CellAt, Start, SetBefore;
    StartIsProduct(y, nx);
    RowFits(ny, nx, y);
    var k := Start(y, nx) + x;
    BitInOctet(mask, k);
    RankIsCount(mask, k);
    CellValue(mask, data, Start(ny, nx), k);
  }

  /** Holes between two values of a row are filled before columns are looked at: such
      a hole gets the mean of the two, whatever is above and below it. */
  lemma RowsFirst(g: Values, y: nat, x: nat)
    requires Grid(g) && y < |g| && 0 < x < |g[0]| - 1
    requires g[y][x] == NOTDEF && g[y][x - 1] != NOTDEF && g[y][x + 1] != NOTDEF
    requires (g[y][x - 1] + g[y][x + 1]) / 2.0 != NOTDEF
    ensures var r := Fill(Horizontal, g, Everywhere());
            && Grid(r)
            && 2.0 * Fill(Vertical, r, Everywhere())[y][x] == g[y][x - 1] + g[y][x + 1]
  {
    RowHole(g, y, x);
    DefinedKept(Vertical, Fill(Horizontal, g, Everywhere()), Everywhere(), y, x);
  }

  /** The values of the record keep their places. */
  lemma RecordKeepsData(mask: seq<Octet>, data: seq<real>, ny: nat, nx: nat, y: nat, x: nat)
    requires Enough(mask, data, Start(ny, nx)) && y < ny && x < nx
    requires Start(y, nx) + x < Start(ny, nx) && Bit(mask, Start(y, nx) + x)
    requires Rank(mask, Start(y, nx) + x) < |data| && data[Rank(mask, Start(y, nx) + x)] != NOTDEF
    ensures var laid := Laid(mask, data, ny, nx);
            && Grid(laid) && Grid(Fill(Horizontal, laid, Everywhere()))
            && Fill(Vertical, Fill(Horizontal, laid, Everywhere()), Everywhere())[y][x]
               == data[Rank(mask, Start(y, nx) + x)]
  {
    hide Bit, Rank;
    CellValue(mask, data, Start(ny, nx), Start(y, nx) + x);
    DefinedKept(Horizontal, Laid(mask, data, ny, nx), Everywhere(), y, x);
    DefinedKept(Vertical, Fill(Horizontal, Laid(mask, data, ny, nx), Everywhere()), Everywhere(), y, x);
  }
}
