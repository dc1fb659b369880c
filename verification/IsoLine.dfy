/** The isoline object: extraction pushes segments onto a trace, stitching joins
    them end to end by flagging and reversing them in place. */
module IsoLines {
  import opened MarchingSquares
  import opened Crossings
  import opened Chains
  import opened Boundary
  import opened Stitching
  import opened Undefined

  class IsoLine {
    var value: real
    var grid: Grid
    var trace: seq<Segment>
    var m_seglist: seq<Segment>
    var m_SegListList: seq<seq<Segment>>

    /** The master list's segments have these end points and used flags. */
    ghost predicate View(ends: map<Segment, Span>, used: set<Segment>)
      reads this, m_seglist
    {
      && ends.Keys == SetOf(m_seglist) && used <= ends.Keys
      && forall s :: s in m_seglist ==> s.Ends() == ends[s] && (s.bUsed <==> s in used)
    }

    /** Search the list for an unused segment that continues `tseg` at its
        "2" end, reversing it where it fits the other way round. */
    method JoinAtEnd2(tseg: Segment, ghost ends: map<Segment, Span>, ghost used: set<Segment>)
      returns (found: Segment?, ghost ends': map<Segment, Span>)
      requires View(ends, used) && tseg in used
      modifies m_seglist
      ensures found == null ==> ends' == ends && View(ends, used) && FreeOf(ends, used, ends[tseg].q)
      ensures found != null ==>
                && Joins(found, ends, ends', used) && View(ends', used + {found})
                && ends'[found].p == ends[tseg].q
    {
      ends' := ends;
      var n := 0;
      while n < |m_seglist|
        invariant 0 <= n <= |m_seglist| && View(ends, used)
        invariant forall k :: 0 <= k < n && m_seglist[k] !in used ==> !Touches(ends[m_seglist[k]], ends[tseg].q)
      {
        var seg := m_seglist[n];
        if !seg.bUsed && seg.py1 == tseg.py2 && seg.px1 == tseg.px2 {
          seg.bUsed := true;
          return seg, ends;
        } else if !seg.bUsed && seg.py2 == tseg.py2 && seg.px2 == tseg.px2 {
          seg.bUsed := true;
          var a := seg.px2; seg.px2 := seg.px1; seg.px1 := a;
          var b := seg.py2; seg.py2 := seg.py1; seg.py1 := b;
          return seg, ends[seg := ends[seg].Flip()];
        }
        n := n + 1;
      }
      return null, ends;
    }

    /** The same at the "1" end. */
    method JoinAtEnd1(tseg: Segment, ghost ends: map<Segment, Span>, ghost used: set<Segment>)
      returns (found: Segment?, ghost ends': map<Segment, Span>)
      requires View(ends, used) && tseg in used
      modifies m_seglist
      ensures found == null ==> ends' == ends && View(ends, used) && FreeOf(ends, used, ends[tseg].p)
      ensures found != null ==>
                && Joins(found, ends, ends', used) && View(ends', used + {found})
                && ends'[found].q == ends[tseg].p
    {
      ends' := ends;
      var n := 0;
      while n < |m_seglist|
        invariant 0 <= n <= |m_seglist| && View(ends, used)
        invariant forall k :: 0 <= k < n && m_seglist[k] !in used ==> !Touches(ends[m_seglist[k]], ends[tseg].p)
      {
        var seg := m_seglist[n];
        if !seg.bUsed && seg.py2 == tseg.py1 && seg.px2 == tseg.px1 {
          seg.bUsed := true;
          return seg, ends;
        } else if !seg.bUsed && seg.py1 == tseg.py1 && seg.px1 == tseg.px1 {
          seg.bUsed := true;
          var a := seg.px2; seg.px2 := seg.px1; seg.px1 := a;
          var b := seg.py2; seg.py2 := seg.py1; seg.py1 := b;
          return seg, ends[seg := ends[seg].Flip()];
        }
        n := n + 1;
      }
      return null, ends;
    }

    /** Follow the "2" end of the first segment until nothing fits any more. */
    method GrowAtEnd2(seg0: Segment, ghost was: map<Segment, Span>)
      returns (segjoin2: seq<Segment>, ghost ends: map<Segment, Span>, ghost used: set<Segment>)
      requires View(was, {seg0})
      modifies m_seglist
      ensures View(ends, used) && GrowingForward(segjoin2, ends, was, used) && segjoin2[0] == seg0
      ensures FreeOf(ends, used, ends[segjoin2[|segjoin2| - 1]].q)
    {
      segjoin2, ends, used := [seg0], was, {seg0};
      var tseg: Segment? := seg0;
      assert GrowingForward(segjoin2, ends, was, used);
      hide GrowingForward, FreeOf, Joins;
      while tseg != null
        invariant View(ends, used) && GrowingForward(segjoin2, ends, was, used)
        invariant |segjoin2| > 0 && segjoin2[0] == seg0 && segjoin2[|segjoin2| - 1] in ends
        invariant tseg != null ==> tseg == segjoin2[|segjoin2| - 1]
        invariant tseg == null ==> FreeOf(ends, used, ends[segjoin2[|segjoin2| - 1]].q)
        decreases was.Keys - used, tseg != null
      {
        LastForward(segjoin2, ends, was, used);
        ghost var ends';
        tseg, ends' := JoinAtEnd2(tseg, ends, used);
        if tseg != null {
          ExtendForward(segjoin2, ends, was, used, tseg, ends');
          segjoin2 := segjoin2 + [tseg];
          used := used + {tseg};
        }
        ends := ends';
        LastForward(segjoin2, ends, was, used);
      }
    }

    /** Follow the "1" end of the first segment, past the segments taken before. */
    method GrowAtEnd1(seg0: Segment, ghost was: map<Segment, Span>, ghost taken: set<Segment>)
      returns (segjoin1: seq<Segment>, ghost ends: map<Segment, Span>, ghost used: set<Segment>)
      requires View(was, taken) && seg0 in taken
      modifies m_seglist
      ensures View(ends, used) && GrowingBackward(segjoin1, ends, was, taken, used) && segjoin1[0] == seg0
      ensures FreeOf(ends, used, ends[segjoin1[|segjoin1| - 1]].p)
    {
      segjoin1, ends, used := [seg0], was, taken;
      var tseg: Segment? := seg0;
      assert GrowingBackward(segjoin1, ends, was, taken, used);
      hide GrowingBackward, FreeOf, Joins;
      while tseg != null
        invariant View(ends, used) && GrowingBackward(segjoin1, ends, was, taken, used)
        invariant |segjoin1| > 0 && segjoin1[0] == seg0 && segjoin1[|segjoin1| - 1] in ends
        invariant tseg != null ==> tseg == segjoin1[|segjoin1| - 1]
        invariant tseg == null ==> FreeOf(ends, used, ends[segjoin1[|segjoin1| - 1]].p)
        decreases was.Keys - used, tseg != null
      {
        LastBackward(segjoin1, ends, was, taken, used);
        ghost var ends';
        tseg, ends' := JoinAtEnd1(tseg, ends, used);
        if tseg != null {
          ExtendBackward(segjoin1, ends, was, taken, used, tseg, ends');
          segjoin1 := segjoin1 + [tseg];
          used := used + {tseg};
        }
        ends := ends';
        LastBackward(segjoin1, ends, was, taken, used);
      }
    }

    /** The "1" side list backwards without its first segment, then the "2" side list. */
    method Assemble(segjoin1: seq<Segment>, segjoin2: seq<Segment>) returns (ret_list: seq<Segment>)
      requires |segjoin1| > 0
      ensures ret_list == Backwards(segjoin1[1..]) + segjoin2
    {
      ret_list := [];
      var i := |segjoin1| - 1;
      while i > 0
        invariant 0 <= i < |segjoin1| && ret_list == Backwards(segjoin1[i + 1..])
      {
        assert segjoin1[i..][1..] == segjoin1[i + 1..];
        ret_list := ret_list + [segjoin1[i]];
        i := i - 1;
      }
      i := 0;
      while i < |segjoin2|
        invariant 0 <= i <= |segjoin2| && ret_list == Backwards(segjoin1[1..]) + segjoin2[..i]
      {
        ret_list := ret_list + [segjoin2[i]];
        i := i + 1;
      }
    }

    /** Grow one maximal chain from the first segment of the master list. */
    method BuildContinuousSegment(ghost was: map<Segment, Span>)
      returns (ret_list: seq<Segment>, ghost ends: map<Segment, Span>)
      requires |m_seglist| > 0 && View(was, {})
      modifies m_seglist
      ensures m_seglist[0] in ret_list && MaximalChain(ret_list, ends, was) && View(ends, SetOf(ret_list))
    {
      var seg0 := m_seglist[0];
      seg0.bUsed := true;
      hide GrowingForward, GrowingBackward, FreeOf, MaximalChain;
      var segjoin2, segjoin1;
      ghost var ends2, used2, used;
      segjoin2, ends2, used2 := GrowAtEnd2(seg0, was);
      LastForward(segjoin2, ends2, was, used2);
      FirstForward(segjoin2, ends2, was, used2);
      segjoin1, ends, used := GrowAtEnd1(seg0, ends2, used2);
      ret_list := Assemble(segjoin1, segjoin2);
      JoinedLists(segjoin1, segjoin2, ends, ends2, was, used, used2);
    }

    /** Recreate the master list without the used segments; the scan restarts
        after every removal. */
    method EraseUsed(ghost used: set<Segment>)
      requires Distinct(m_seglist) && forall s :: s in m_seglist ==> (s.bUsed <==> s in used)
      modifies this`m_seglist
      ensures m_seglist == Unused(old(m_seglist), used)
      ensures Distinct(m_seglist) && SetOf(m_seglist) == old(SetOf(m_seglist)) - used
      ensures forall s :: s in m_seglist ==> s in old(m_seglist) && !s.bUsed
    {
      hide Unused;
      ghost var all := SetOf(m_seglist);
      var n := 0;
      while n < |m_seglist|
        invariant 0 <= n <= |m_seglist| && Distinct(m_seglist)
        invariant Unused(m_seglist, used) == Unused(old(m_seglist), used)
        invariant all - used <= SetOf(m_seglist) <= all
        invariant forall s :: s in m_seglist ==> (s.bUsed <==> s in used)
        invariant forall k :: 0 <= k < n ==> m_seglist[k] !in used
        decreases |m_seglist|, |m_seglist| - n
      {
        if m_seglist[n].bUsed {
          RemovalKeepsRest(m_seglist, n);
          UnusedWithout(m_seglist, n, used);
          m_seglist := m_seglist[..n] + m_seglist[n + 1..];
          n := 0;
        } else {
          n := n + 1;
        }
      }
      AllUnused(m_seglist, used);
      assert forall s :: s in m_seglist ==> s !in used && s in SetOf(m_seglist);
    }

    ghost function CurrentEnds(): map<Segment, Span>
      reads this`trace, trace
    {
      map s | s in trace :: s.Ends()
    }

    /** The trace's current end points are `ends`, and what the master list
        still holds is unused. */
    ghost predicate Stitching(ends: map<Segment, Span>)
      reads this, trace, m_seglist
    {
      && Progress(m_SegListList, ends, m_seglist) && ends == CurrentEnds()
      && forall s :: s in m_seglist ==> !s.bUsed
    }

    /** The unused segments as the chain builder sees them. */
    lemma RestView(ends: map<Segment, Span>) returns (was: map<Segment, Span>)
      requires Stitching(ends)
      ensures View(was, {}) && Distinct(m_seglist)
      ensures forall s :: s in was ==> s in ends && was[s] == ends[s]
      ensures forall s :: s in ends ==> s in trace && s.Ends() == ends[s]
      ensures forall s :: s in trace ==> s in ends
    {
      ProgressRest(m_SegListList, ends, m_seglist);
      hide Progress, Distinct;
      was := map s | s in m_seglist :: s.Ends();
    }

    method TakeChain(ghost ends: map<Segment, Span>)
      returns (ps: seq<Segment>, ghost was: map<Segment, Span>, ghost chained: map<Segment, Span>)
      requires Stitching(ends) && |m_seglist| > 0
      modifies m_seglist
      ensures forall s :: s in chained ==> s in ends
      ensures was.Keys == SetOf(m_seglist) && forall s :: s in was ==> s in ends && was[s] == ends[s]
      ensures m_seglist[0] in ps && MaximalChain(ps, chained, was)
      ensures Distinct(m_seglist) && forall s :: s in m_seglist ==> (s.bUsed <==> s in SetOf(ps))
      ensures CurrentEnds() == ends + chained
    {
      hide Progress, MaximalChain, Distinct, SameEnds;
      was := RestView(ends);
      ps, chained := BuildContinuousSegment(was);
      forall s | s in trace
        ensures s in ends && s.Ends() == (ends + chained)[s]
      {
        if s in m_seglist { assert s in SetOf(m_seglist); }
      }
    }

    /** One round of the constructor's loop: take a chain out of the master list. */
    method NextRound(ghost ends: map<Segment, Span>) returns (ghost ends': map<Segment, Span>)
      requires Stitching(ends) && |m_seglist| > 0
      modifies this`m_seglist, this`m_SegListList, m_seglist
      ensures Stitching(ends') && |m_seglist| < old(|m_seglist|)
      ensures forall s :: s in m_seglist ==> s in old(m_seglist)
      ensures exists ps :: m_SegListList == old(m_SegListList) + [ps] && m_seglist == Unused(old(m_seglist), SetOf(ps))
      ensures ends'.Keys == ends.Keys && forall s :: s in ends ==> SameEnds(ends'[s], ends[s])
    {
      ghost var lists, rest := m_SegListList, m_seglist;
      hide Progress, MaximalChain, SameEnds, View, Distinct, SetOf;
      var ps;
      ghost var was, chained;
      ps, was, chained := TakeChain(ends);
      EraseUsed(SetOf(ps));
      ends' := ends + chained;
      NextProgress(lists, ends, rest, was, ps, chained, m_seglist);
      m_SegListList := m_SegListList + [ps];
    }

    /** Join the trace into maximal chains: every segment in exactly one of them. */
    method Stitch()
      requires |trace| > 0 && Distinct(trace) && m_seglist == [] && m_SegListList == []
      modifies this`m_seglist, this`m_SegListList, trace
      ensures Progress(m_SegListList, CurrentEnds(), [])
      ensures forall s :: s in trace ==> SameEnds(s.Ends(), old(s.Ends()))
    {
      ghost var orig := CurrentEnds();
      assert forall s :: s in orig ==> SameEnds(orig[s], orig[s]);
      var i := 0;
      while i < |trace|
        invariant 0 <= i <= |trace| && m_seglist == trace[..i] && m_SegListList == []
        invariant forall k :: 0 <= k < i ==> !trace[k].bUsed
        invariant CurrentEnds() == orig
      {
        var seg := trace[i];
        seg.bUsed := false;
        m_seglist := m_seglist + [seg];
        i := i + 1;
      }
      ghost var ends := orig;
      assert Stitching(ends) by { assert m_seglist == trace; InitialProgress(trace, orig); }
      hide Progress, SameEnds;
      var bdone := false;
      while !bdone
        invariant Stitching(ends) && (bdone <==> m_seglist == [])
        invariant forall s :: s in m_seglist ==> s in trace
        invariant ends.Keys == orig.Keys && forall s :: s in ends ==> SameEnds(ends[s], orig[s])
        decreases |m_seglist|
      {
        ghost var ends' := NextRound(ends);
        SameEndsTransitive(orig, ends, ends');
        ends := ends';
        bdone := 0 == |m_seglist|;
      }
      assert forall s :: s in trace ==> s in ends;
    }

    // ------------------------------------------------------------ extraction

    /** The trace holds exactly these links, freshly crossed. */
    ghost predicate Emitted(links: seq<Link>)
      reads this`trace, this`grid, this`value, trace
    {
      && grid.Valid() && LinksOnGrid(grid, links)
      && |trace| == |links| && Distinct(trace)
      && forall n :: 0 <= n < |trace| ==>
          Link(trace[n].e1, trace[n].e2) == links[n] && trace[n].Ends() == CrossSpan(grid, value, links[n])
    }

    method PushSegment(I: int, J: int, cut: Cut, ghost links: seq<Link>)
      requires Emitted(links)
      requires OnGrid(grid, CutLink(I, grid.ni, J, cut).e1) && OnGrid(grid, CutLink(I, grid.ni, J, cut).e2)
      modifies this`trace
      ensures Emitted(links + [CutLink(I, grid.ni, J, cut)])
      ensures forall s :: s in trace ==> s in old(trace) || fresh(s)
    {
      hide Cross, CutLink, SideEdge;
      var seg := new Segment(I, grid.ni, J, cut, grid, value);
      trace := trace + [seg];
    }

    /** Push the segments of one cell. */
    method PushCell(I: int, J: int, a: real, b: real, c: real, d: real, ghost links: seq<Link>)
      requires Emitted(links) && IsCell(grid, I, J) && Defined(grid, I, J)
      requires var left := if I != 0 then I - 1 else grid.ni - 1;
               && a == grid.Value(left, J - 1) && b == grid.Value(I, J - 1)
               && c == grid.Value(left, J) && d == grid.Value(I, J)
      modifies this`trace
      ensures Emitted(links + CellLinks(grid, value, I, J))
      ensures forall s :: s in trace ==> s in old(trace) || fresh(s)
    {
      var cuts := CellCuts(a, b, c, d, value);
      CellLinksOnGrid(grid, value, I, J);
      assert CellLinks(grid, value, I, J) == CutLinks(I, grid.ni, J, cuts);
      hide CellCuts, CellLinks, Emitted, CutLink, Defined;
      ghost var ls := CutLinks(I, grid.ni, J, cuts);
      var n := 0;
      assert links + ls[..0] == links;
      while n < |cuts|
        invariant 0 <= n <= |cuts| && Emitted(links + ls[..n])
        invariant forall s :: s in trace ==> s in old(trace) || fresh(s)
      {
        assert ls[n] == CutLink(I, grid.ni, J, cuts[n]);
        PushSegment(I, J, cuts[n], links + ls[..n]);
        assert links + ls[..n] + [ls[n]] == links + ls[..n + 1];
        n := n + 1;
      }
      assert links + ls[..|ls|] == links + ls;
    }

    lemma NothingEmitted()
      requires grid.Valid() && trace == []
      ensures Emitted([])
    {
    }

    /** One row of the extractor that reads all four corners of every cell. */
    method ScanRowPlanar(j: int, ghost done: seq<Link>)
      requires grid.Valid() && Emitted(done) && 1 <= j < grid.nj
      modifies this`trace
      ensures Emitted(done + RowLinks(grid, value, j, grid.ni))
      ensures forall s :: s in trace ==> s in old(trace) || fresh(s)
    {
      var W := grid.ni;
      hide Emitted, CellLinks, Defined;
      assert done + RowLinks(grid, value, j, 1) == done;
      if W == 0 { assert done + RowLinks(grid, value, j, 0) == done; return; }
      hide RowLinks;
      var i := 1;
      while i < W
        invariant 1 <= i <= W && Emitted(done + RowLinks(grid, value, j, i))
        invariant forall s :: s in trace ==> s in old(trace) || fresh(s)
      {
        var a, b := grid.Value(i - 1, j - 1), grid.Value(i, j - 1);
        var c, d := grid.Value(i - 1, j), grid.Value(i, j);
        NextCell(grid, value, i, j, a, b, c, d, done);
        if !(a == NOTDEF || b == NOTDEF || c == NOTDEF || d == NOTDEF) {
          PushCell(i, j, a, b, c, d, done + RowLinks(grid, value, j, i));
        }
        i := i + 1;
      }
    }

    /** The extractor that visits the inner cells only. */
    method ExtractPlanar()
      requires grid.Valid() && trace == []
      modifies this`trace
      ensures Emitted(GridLinks(grid, value, grid.ni, grid.nj))
      ensures forall s :: s in trace ==> fresh(s)
    {
      hide *;
      var H := grid.nj;
      NothingEmitted();
      NoRows(grid, value, grid.ni);
      if H == 0 { return; }
      var j := 1;
      while j < H
        invariant 1 <= j <= H && Emitted(GridLinks(grid, value, grid.ni, j))
        invariant forall s :: s in trace ==> fresh(s)
      {
        NextRow(grid, value, grid.ni, j);
        ScanRowPlanar(j, GridLinks(grid, value, grid.ni, j));
        j := j + 1;
      }
    }

    /** One row of the extractor for grids that may close the full circle: it
        carries the right corners of a cell over as the left corners of the
        next one and skips cells on one side of the level early. */
    method ScanRowCylindrical(j: int, We: int, ghost done: seq<Link>)
      requires grid.Valid() && Emitted(done) && 1 <= j < grid.nj && grid.ni >= 1 && grid.ni <= We <= grid.ni + 1
      modifies this`trace
      ensures Emitted(done + RowLinks(grid, value, j, We))
      ensures forall s :: s in trace ==> s in old(trace) || fresh(s)
    {
      var W := grid.ni;
      hide Emitted, CellLinks, Defined;
      assert done + RowLinks(grid, value, j, 1) == done;
      hide RowLinks;
      var a, c := grid.Value(0, j - 1), grid.Value(0, j);
      var i := 1;
      while i < We
        invariant 1 <= i <= We && Emitted(done + RowLinks(grid, value, j, i))
        invariant i <= W ==> a == grid.Value(i - 1, j - 1) && c == grid.Value(i - 1, j)
        invariant forall s :: s in trace ==> s in old(trace) || fresh(s)
      {
        var ni := i;
        if i == W { ni := 0; }
        var b, d := grid.Value(ni, j - 1), grid.Value(ni, j);
        NextCell(grid, value, i, j, a, b, c, d, done);
        if a == NOTDEF || b == NOTDEF || c == NOTDEF || d == NOTDEF {
        } else if (a < value && b < value && c < value && d < value)
                  || (a > value && b > value && c > value && d > value) {
        } else {
          PushCell(ni, j, a, b, c, d, done + RowLinks(grid, value, j, i));
        }
        i, a, c := i + 1, b, d;
      }
    }

    /** The extractor that also visits the seam cells of a full circle. */
    method ExtractCylindrical()
      requires grid.Valid() && trace == [] && (grid.nj >= 2 ==> grid.ni >= 1)
      modifies this`trace
      ensures Emitted(GridLinks(grid, value, ColumnBound(grid), grid.nj))
      ensures forall s :: s in trace ==> fresh(s)
    {
      hide *;
      var H := grid.nj;
      ColumnBoundRange(grid);
      var We := ColumnBound(grid);
      NothingEmitted();
      NoRows(grid, value, We);
      if H == 0 { return; }
      var j := 1;
      while j < H
        invariant 1 <= j <= H && Emitted(GridLinks(grid, value, We, j))
        invariant forall s :: s in trace ==> fresh(s)
      {
        NextRow(grid, value, We, j);
        ScanRowCylindrical(j, We, GridLinks(grid, value, We, j));
        j := j + 1;
      }
    }

    // ----------------------------------------------------------- the isoline

    /** The state a constructor leaves: the trace is what the scan extracts, up
        to the orientation of its segments, and it is stitched. */
    ghost predicate Finished(we: int)
      reads this, trace
    {
      && grid.Valid() && 0 <= we <= grid.ni + 1
      && var links := GridLinks(grid, value, we, grid.nj);
      && LinksOnGrid(grid, links) && |trace| == |links| && Distinct(trace)
      && (forall n :: 0 <= n < |trace| ==>
            && Link(trace[n].e1, trace[n].e2) == links[n]
            && SameEnds(trace[n].Ends(), CrossSpan(grid, value, links[n])))
      && Progress(m_SegListList, CurrentEnds(), [])
    }

    /** The common part of both constructors. */
    method Finish(ghost we: int)
      requires 0 <= we <= grid.ni + 1 && grid.Valid() && Emitted(GridLinks(grid, value, we, grid.nj))
      requires m_seglist == [] && m_SegListList == []
      modifies this, trace
      ensures Finished(we) && unchanged(`value) && unchanged(`grid)
    {
      hide Progress, GridLinks, LinksOnGrid, Cross, CrossSpan;
      assert forall s :: s in trace ==> SameEnds(s.Ends(), s.Ends());
      if |trace| == 0 {
        EmptyProgress(CurrentEnds());
        return;
      }
      Stitch();
    }

    constructor Planar(val: real, rec: Grid)
      requires rec.Valid()
      ensures value == val && grid == rec && Finished(rec.ni)
    {
      value, grid := val, rec;
      trace, m_seglist, m_SegListList := [], [], [];
      new;
      hide Emitted, Finished;
      ExtractPlanar();
      forall n | 0 <= n < |trace|
        ensures fresh(trace[n])
      {
        assert trace[n] in trace;
      }
      Finish(rec.ni);
    }

    constructor Cylindrical(val: real, rec: Grid)
      requires rec.Valid() && (rec.nj >= 2 ==> rec.ni >= 1)
      ensures value == val && grid == rec && Finished(ColumnBound(rec))
    {
      value, grid := val, rec;
      trace, m_seglist, m_SegListList := [], [], [];
      new;
      hide Emitted, Finished;
      ExtractCylindrical();
      forall n | 0 <= n < |trace|
        ensures fresh(trace[n])
      {
        assert trace[n] in trace;
      }
      Finish(ColumnBound(rec));
    }
  }

  lemma ColumnBoundRange(g: Grid)
    ensures g.ni <= ColumnBound(g) <= g.ni + 1
  {
  }

  lemma NoRows(g: Grid, v: real, we: int)
    requires g.Valid() && we <= g.ni + 1
    ensures GridLinks(g, v, we, 0) == [] && (g.nj >= 1 ==> GridLinks(g, v, we, 1) == [])
  {
  }

  lemma NextRow(g: Grid, v: real, we: int, j: int)
    requires g.Valid() && we <= g.ni + 1 && 1 <= j < g.nj
    ensures GridLinks(g, v, we, j + 1) == GridLinks(g, v, we, j) + RowLinks(g, v, j, we)
  {
  }

  /** What one more cell adds to a row: nothing if a corner is missing or if all
      corners lie on one side of the level. */
  lemma NextCell(g: Grid, v: real, i: int, j: int, a: real, b: real, c: real, d: real, done: seq<Link>)
    requires g.Valid() && 1 <= j < g.nj && 1 <= i <= g.ni
    requires var I := CellColumn(g, i);
             && a == g.Value(i - 1, j - 1) && b == g.Value(I, j - 1)
             && c == g.Value(i - 1, j) && d == g.Value(I, j)
    ensures var I := CellColumn(g, i);
            && IsCell(g, I, j)
            && (Defined(g, I, j) <==> !(a == NOTDEF || b == NOTDEF || c == NOTDEF || d == NOTDEF))
            && done + RowLinks(g, v, j, i + 1) == (done + RowLinks(g, v, j, i)) + CellLinks(g, v, I, j)
            && (!Defined(g, I, j)
                || (a < v && b < v && c < v && d < v) || (a > v && b > v && c > v && d > v)
                ==> done + RowLinks(g, v, j, i + 1) == done + RowLinks(g, v, j, i))
  {
  }
}
