/** What a finished isoline is: extraction and stitching put together. */
module IsoLineTheorems {
  import opened Undefined
  import opened MarchingSquares
  import opened Crossings
  import opened Chains
  import opened Boundary
  import opened Stitching
  import opened IsoLines

  ghost function Images(lists: seq<seq<Segment>>, ends: map<Segment, Span>): seq<seq<Span>>
    requires forall k :: 0 <= k < |lists| ==> InMap(lists[k], ends)
  {
    seq(|lists|, k requires 0 <= k < |lists| => Image(lists[k], ends))
  }

  lemma WellLinkedImages(lists: seq<seq<Segment>>, ends: map<Segment, Span>)
    requires WellLinked(lists, ends) && LaterFree(lists, ends)
    ensures forall k :: 0 <= k < |lists| ==> InMap(lists[k], ends)
    ensures Stitched(Images(lists, ends))
  {
    forall k, m, n | 0 <= k < m < |lists| && 0 <= n < |lists[m]|
      ensures EndsFree(lists[k], ends, lists[m][n])
    {
    }
  }

  lemma {:induction false} FlatInMap(lists: seq<seq<Segment>>, ends: map<Segment, Span>)
    requires forall k :: 0 <= k < |lists| ==> InMap(lists[k], ends)
    ensures InMap(Flat(lists), ends) && Flat(Images(lists, ends)) == Image(Flat(lists), ends)
  {
    if lists != [] {
      var front := lists[..|lists| - 1];
      FlatInMap(front, ends);
      assert Images(lists, ends)[..|lists| - 1] == Images(front, ends);
    }
  }

  lemma {:induction false} DistinctMultiset<T>(s: seq<T>)
    requires Distinct(s)
    ensures multiset(s) == multiset(SetOf(s))
  {
    if s != [] {
      SplitLast(s);
      DistinctMultiset(s[..|s| - 1]);
      assert s == s[..|s| - 1] + [s[|s| - 1]];
    }
  }

  lemma OriginalSpans(trace: seq<Segment>, spans: seq<Span>, ends: map<Segment, Span>)
    returns (orig: map<Segment, Span>)
    requires Distinct(trace) && ends.Keys == SetOf(trace) && |spans| == |trace|
    requires forall n :: 0 <= n < |trace| ==> trace[n] in ends && SameEnds(ends[trace[n]], spans[n])
    ensures InMap(trace, orig) && Image(trace, orig) == spans
    ensures InMap(trace, ends) && Reoriented(trace, ends, orig)
  {
    orig := map n | 0 <= n < |trace| :: trace[n] := spans[n];
    assert forall n :: 0 <= n < |trace| ==> trace[n] in orig && orig[trace[n]] == spans[n];
  }

  lemma FlatIsTrace(lists: seq<seq<Segment>>, ends: map<Segment, Span>, trace: seq<Segment>)
    requires Progress(lists, ends, []) && Distinct(trace) && ends.Keys == SetOf(trace)
    ensures multiset(Flat(lists)) == multiset(trace)
  {
    var flat := Flat(lists);
    assert SetOf(flat) == SetOf(trace);
    DistinctMultiset(flat);
    DistinctMultiset(trace);
  }

  /** Counting ends over the chains is counting them over the extracted spans. */
  lemma ChainEndsAreTraceEnds(lists: seq<seq<Segment>>, ends: map<Segment, Span>, trace: seq<Segment>,
                              spans: seq<Span>, P: Point)
    requires Progress(lists, ends, []) && Distinct(trace) && ends.Keys == SetOf(trace) && |spans| == |trace|
    requires forall n :: 0 <= n < |trace| ==> trace[n] in ends && SameEnds(ends[trace[n]], spans[n])
    ensures Stitched(Images(lists, ends)) && EndsAt(Flat(Images(lists, ends)), P) == EndsAt(spans, P)
  {
    WellLinkedImages(lists, ends);
    FlatInMap(lists, ends);
    FlatIsTrace(lists, ends, trace);
    hide *;
    var orig := OriginalSpans(trace, spans, ends);
    EndsAtInvariant(Flat(lists), trace, ends, orig, P);
  }

  /** The closing theorem: a chain of a finished isoline is a closed loop, or
      each of its ends lies on an edge that straddles the level and belongs to
      exactly one fully defined cell. No chain stops in the interior. */
  lemma OpenChainsEndOnBoundary(il: IsoLine, we: int, k: nat, P: Point)
    requires il.Finished(we) && k < |il.m_SegListList|
    ensures var c := il.m_SegListList[k];
            && |c| > 0
            && (P == c[0].P1() || P == c[|c| - 1].P2() ==>
                  || c[0].P1() == c[|c| - 1].P2()
                  || exists e :: OnGrid(il.grid, e) && Cross(il.grid, il.value, e) == P
                                 && BoundaryEdge(il.grid, il.value, we, e))
  {
    hide Cross, GridLinks, EndsAt, EdgeCells, Straddles, ScanEdge, Flat, Maximal, IsChain;
    var g, v, lists, ends := il.grid, il.value, il.m_SegListList, il.CurrentEnds();
    var links := GridLinks(g, v, we, g.nj);
    var spans := CrossSpans(g, v, links);
    ChainEndsAreTraceEnds(lists, ends, il.trace, spans, P);
    WellLinkedImages(lists, ends);
    var c := lists[k];
    assert Images(lists, ends)[k] == Image(c, ends);
    if (P == c[0].P1() || P == c[|c| - 1].P2()) && c[0].P1() != c[|c| - 1].P2() {
      OpenChainEndsAreOdd(Images(lists, ends), k, P);
      var e := OddPointOnBoundary(g, v, we, P);
    }
  }

  /** Every chain with its starting point fits a buffer of one point more than
      there are segments. */
  lemma ChainFitsBuffer(il: IsoLine, we: int, k: nat)
    requires il.Finished(we) && k < |il.m_SegListList|
    ensures |il.m_SegListList[k]| + 1 <= |il.trace| + 1
  {
    var lists, ends := il.m_SegListList, il.CurrentEnds();
    CardinalityOfDistinct(Flat(lists));
    CardinalityOfDistinct(il.trace);
    assert SetOf(Flat(lists)) == SetOf(il.trace);
    ChainNoLongerThanFlat(lists, k);
  }

  lemma {:induction false} ChainNoLongerThanFlat<T>(lists: seq<seq<T>>, k: nat)
    requires k < |lists|
    ensures |lists[k]| <= |Flat(lists)|
  {
    if k < |lists| - 1 {
      ChainNoLongerThanFlat(lists[..|lists| - 1], k);
    }
  }

  /** The end point of an extracted segment is the crossing of one of its edges. */
  lemma EndOnOwnEdge(il: IsoLine, we: int, s: Segment, P: Point)
    requires il.Finished(we) && s in il.trace && Touches(s.Ends(), P)
    ensures Crossed(il.grid, il.value, we, s.e1) && Crossed(il.grid, il.value, we, s.e2)
    ensures P == Cross(il.grid, il.value, s.e1) || P == Cross(il.grid, il.value, s.e2)
  {
    var n :| 0 <= n < |il.trace| && il.trace[n] == s;
    GridLinksCrossed(il.grid, il.value, we, il.grid.nj);
    hide Cross, GridLinks, Progress;
    assert Link(s.e1, s.e2) == GridLinks(il.grid, il.value, we, il.grid.nj)[n];
  }

  /** If no node value equals the level, the end segment's own edge is the
      boundary edge: an open chain runs between two such edges. */
  lemma OpenChainEndEdges(il: IsoLine, we: int, k: nat)
    requires il.Finished(we) && k < |il.m_SegListList|
    requires OffNodes(il.grid, il.value) && Separated(il.grid, we)
    ensures var c, g, v := il.m_SegListList[k], il.grid, il.value;
            && |c| > 0
            && (c[0].P1() == c[|c| - 1].P2()
                || (EndsOnBoundary(g, v, we, c[0], c[0].P1()) && EndsOnBoundary(g, v, we, c[|c| - 1], c[|c| - 1].P2())))
  {
    var c := il.m_SegListList[k];
    ChainInTrace(il, we, k);
    OpenChainsEndOnBoundary(il, we, k, c[0].P1());
    OpenChainsEndOnBoundary(il, we, k, c[|c| - 1].P2());
    if c[0].P1() != c[|c| - 1].P2() {
      OwnEdgeIsBoundary(il, we, c[0], c[0].P1());
      OwnEdgeIsBoundary(il, we, c[|c| - 1], c[|c| - 1].P2());
    }
  }

  ghost predicate EndsOnBoundary(g: Grid, v: real, we: int, s: Segment, P: Point)
    requires g.Valid()
  {
    || (BoundaryEdge(g, v, we, s.e1) && Cross(g, v, s.e1) == P)
    || (BoundaryEdge(g, v, we, s.e2) && Cross(g, v, s.e2) == P)
  }

  lemma OwnEdgeIsBoundary(il: IsoLine, we: int, s: Segment, P: Point)
    requires il.Finished(we) && s in il.trace && Touches(s.Ends(), P)
    requires OffNodes(il.grid, il.value) && Separated(il.grid, we)
    requires exists e :: OnGrid(il.grid, e) && Cross(il.grid, il.value, e) == P
                         && BoundaryEdge(il.grid, il.value, we, e)
    ensures EndsOnBoundary(il.grid, il.value, we, s, P)
  {
    EndOnOwnEdge(il, we, s, P);
    hide Cross, OffNodes, Separated, GridLinks, Progress, EdgeCells, ScanEdge;
    var e :| OnGrid(il.grid, e) && Cross(il.grid, il.value, e) == P && BoundaryEdge(il.grid, il.value, we, e);
    if P == Cross(il.grid, il.value, s.e1) {
      CrossInjective(il.grid, il.value, we, e, s.e1);
    } else {
      CrossInjective(il.grid, il.value, we, e, s.e2);
    }
  }

  lemma ChainInTrace(il: IsoLine, we: int, k: nat)
    requires il.Finished(we) && k < |il.m_SegListList|
    ensures |il.m_SegListList[k]| > 0 && forall s :: s in il.m_SegListList[k] ==> s in il.trace
  {
    var c := il.m_SegListList[k];
    forall n | 0 <= n < |c|
      ensures c[n] in il.trace
    {
      InFlat(il.m_SegListList, k, n);
      assert c[n] in SetOf(Flat(il.m_SegListList));
    }
  }

  /** On a fully defined grid that closes the full circle, an open chain can
      only end on the first or the last row: never at the seam. */
  lemma CylinderChainsEndOnOuterRows(il: IsoLine, k: nat, P: Point)
    requires il.grid.Valid() && il.Finished(ColumnBound(il.grid)) && k < |il.m_SegListList|
    requires il.grid.di * (il.grid.ni as real) == 360.0
    requires forall i, j :: 0 <= i < il.grid.ni && 0 <= j < il.grid.nj ==> il.grid.rows[j][i] != NOTDEF
    ensures var c := il.m_SegListList[k];
            && |c| > 0
            && (P == c[0].P1() || P == c[|c| - 1].P2() ==>
                  || c[0].P1() == c[|c| - 1].P2()
                  || exists e :: OnGrid(il.grid, e) && Cross(il.grid, il.value, e) == P
                                 && e.j == e.l && (e.j == 0 || e.j == il.grid.nj - 1))
  {
    hide ColumnBound, Cross, GridLinks, Progress, BoundaryEdge;
    var g, v, we := il.grid, il.value, ColumnBound(il.grid);
    var c := il.m_SegListList[k];
    OpenChainsEndOnBoundary(il, we, k, P);
    if (P == c[0].P1() || P == c[|c| - 1].P2()) && c[0].P1() != c[|c| - 1].P2() {
      var e :| OnGrid(g, e) && Cross(g, v, e) == P && BoundaryEdge(g, v, we, e);
      BoundaryOnOuterRows(g, v, e);
    }
  }

  lemma BoundaryOnOuterRows(g: Grid, v: real, e: Edge)
    requires g.Valid() && g.di * (g.ni as real) == 360.0 && BoundaryEdge(g, v, ColumnBound(g), e)
    requires forall i, j :: 0 <= i < g.ni && 0 <= j < g.nj ==> g.rows[j][i] != NOTDEF
    ensures e.j == e.l && (e.j == 0 || e.j == g.nj - 1)
  {
    hide Degree, GridLinks, ColumnBound;
    ColumnBoundOnCircle(g);
    EdgeDegree(g, v, ColumnBound(g), e);
    BoundaryNeedsTwoRows(g, v, ColumnBound(g), e);
    CylinderDegree(g, v, e);
  }

  lemma BoundaryNeedsTwoRows(g: Grid, v: real, we: int, e: Edge)
    requires g.Valid() && BoundaryEdge(g, v, we, e)
    ensures g.nj >= 2
  {
  }

  /** On a grid that does not wrap, the cylindrical extractor's carried corners
      and early skip change nothing: both objects hold the same edge pairs. */
  lemma SameEdgePairsWithoutWrap(g: Grid, planar: IsoLine, cylindrical: IsoLine)
    requires planar.grid == g && cylindrical.grid == g && planar.value == cylindrical.value
    requires planar.Finished(g.ni) && cylindrical.Finished(ColumnBound(g))
    requires g.di * (g.ni as real) != 360.0
    ensures |planar.trace| == |cylindrical.trace|
    ensures forall n :: 0 <= n < |planar.trace| ==>
              planar.trace[n].e1 == cylindrical.trace[n].e1 && planar.trace[n].e2 == cylindrical.trace[n].e2
  {
    hide *;
    ColumnBoundOnCircle(g);
    SameEdgePairs(planar, cylindrical, g.ni);
  }

  lemma SameEdgePairs(il: IsoLine, il': IsoLine, we: int)
    requires il.grid == il'.grid && il.value == il'.value && il.Finished(we) && il'.Finished(we)
    ensures |il.trace| == |il'.trace|
    ensures forall n :: 0 <= n < |il.trace| ==>
              il.trace[n].e1 == il'.trace[n].e1 && il.trace[n].e2 == il'.trace[n].e2
  {
    hide GridLinks, Progress, Cross;
    var links := GridLinks(il.grid, il.value, we, il.grid.nj);
    assert forall n :: 0 <= n < |links| ==>
        && Link(il.trace[n].e1, il.trace[n].e2) == links[n]
        && Link(il'.trace[n].e1, il'.trace[n].e2) == links[n];
  }
}
