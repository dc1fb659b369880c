/** From odd points to boundary edges: a point where an odd number of extracted
    segment ends meet lies on an edge of exactly one fully defined cell. */
module Boundary {
  import opened MarchingSquares
  import opened Crossings
  import opened Chains

  ghost predicate LinksOnGrid(g: Grid, links: seq<Link>) {
    forall n :: 0 <= n < |links| ==> OnGrid(g, links[n].e1) && OnGrid(g, links[n].e2)
  }

  lemma CellLinksOnGrid(g: Grid, v: real, I: int, J: int)
    requires g.Valid() && IsCell(g, I, J)
    ensures LinksOnGrid(g, CellLinks(g, v, I, J))
  {
    CellLinksCrossed(g, v, g.ni + 1, I, J);
    hide CellLinks;
  }

  ghost function CrossSpan(g: Grid, v: real, l: Link): Span
    requires g.Valid() && OnGrid(g, l.e1) && OnGrid(g, l.e2)
  {
    Span(Cross(g, v, l.e1), Cross(g, v, l.e2))
  }

  ghost function CrossSpans(g: Grid, v: real, links: seq<Link>): seq<Span>
    requires g.Valid() && LinksOnGrid(g, links)
  {
    seq(|links|, n requires 0 <= n < |links| => CrossSpan(g, v, links[n]))
  }

  ghost function EdgeAt(g: Grid, v: real, e: Edge, P: Point): multiset<Edge>
    requires g.Valid() && OnGrid(g, e)
  {
    if Cross(g, v, e) == P then multiset{e} else multiset{}
  }

  /** The edges whose crossing points are P, as often as segments end on them. */
  ghost function EdgesAt(g: Grid, v: real, links: seq<Link>, P: Point): multiset<Edge>
    requires g.Valid() && LinksOnGrid(g, links)
  {
    if links == [] then multiset{}
    else
      var l := links[|links| - 1];
      EdgesAt(g, v, links[..|links| - 1], P) + EdgeAt(g, v, l.e1, P) + EdgeAt(g, v, l.e2, P)
  }

  lemma EdgeAtSize(g: Grid, v: real, e: Edge, P: Point)
    requires g.Valid() && OnGrid(g, e)
    ensures |EdgeAt(g, v, e, P)| == Ind(Cross(g, v, e) == P)
    ensures forall x :: x in EdgeAt(g, v, e, P) ==> x == e
  {
  }

  lemma LastLinkEnds(g: Grid, v: real, links: seq<Link>, P: Point)
    requires g.Valid() && LinksOnGrid(g, links) && links != []
    ensures var front, l := links[..|links| - 1], links[|links| - 1];
            && LinksOnGrid(g, front)
            && EndsAt(CrossSpans(g, v, links), P) ==
               EndsAt(CrossSpans(g, v, front), P) + Ind(Cross(g, v, l.e1) == P) + Ind(Cross(g, v, l.e2) == P)
  {
    hide Cross;
    assert CrossSpans(g, v, links)[..|links| - 1] == CrossSpans(g, v, links[..|links| - 1]);
  }

  lemma {:induction false} EdgesAtSize(g: Grid, v: real, links: seq<Link>, P: Point)
    requires g.Valid() && LinksOnGrid(g, links)
    ensures |EdgesAt(g, v, links, P)| == EndsAt(CrossSpans(g, v, links), P)
    ensures forall e :: e in EdgesAt(g, v, links, P) ==> OnGrid(g, e)
  {
    hide Cross, EdgeAt, EndsAt, CrossSpans;
    if links == [] {
      NoEnds(g, v, P);
    } else {
      LastLinkEnds(g, v, links, P);
      EdgesAtSize(g, v, links[..|links| - 1], P);
      EdgeAtSize(g, v, links[|links| - 1].e1, P);
      EdgeAtSize(g, v, links[|links| - 1].e2, P);
    }
  }

  lemma NoEnds(g: Grid, v: real, P: Point)
    requires g.Valid()
    ensures EndsAt(CrossSpans(g, v, []), P) == 0
  {
  }

  lemma {:induction false} EdgesAtMultiplicity(g: Grid, v: real, links: seq<Link>, P: Point, e: Edge)
    requires g.Valid() && LinksOnGrid(g, links) && OnGrid(g, e)
    ensures EdgesAt(g, v, links, P)[e] == if Cross(g, v, e) == P then Degree(links, e) else 0
  {
    if links != [] {
      hide Cross;
      EdgesAtMultiplicity(g, v, links[..|links| - 1], P, e);
    }
  }

  lemma {:induction false} OddMultiset(m: multiset<Edge>) returns (e: Edge)
    requires Odd(|m|)
    ensures e in m && Odd(m[e])
    decreases |m|
  {
    e :| e in m;
    if !Odd(m[e]) {
      var e' := OddMultiset(m[e := 0]);
      e := e';
    }
  }

  lemma DegreeInEnds(g: Grid, v: real, we: int, e: Edge)
    requires g.Valid() && 0 <= we <= g.ni + 1
    requires OnGrid(g, e) && Degree(GridLinks(g, v, we, g.nj), e) > 0
    ensures Crossed(g, v, we, e)
  {
    GridLinksCrossed(g, v, we, g.nj);
    var n := ReachedEdge(GridLinks(g, v, we, g.nj), e);
  }

  lemma {:induction false} ReachedEdge(links: seq<Link>, e: Edge) returns (n: nat)
    requires Degree(links, e) > 0
    ensures n < |links| && (links[n].e1 == e || links[n].e2 == e)
  {
    if LinkDegree(links[|links| - 1], e) > 0 {
      n := |links| - 1;
    } else {
      n := ReachedEdge(links[..|links| - 1], e);
    }
  }

  /** An edge that straddles the level and belongs to exactly one fully defined cell. */
  ghost predicate BoundaryEdge(g: Grid, v: real, we: int, e: Edge)
    requires g.Valid()
  {
    Crossed(g, v, we, e) && EdgeCells(g, we, e) == 1
  }

  lemma OddPointHasOddEdge(g: Grid, v: real, links: seq<Link>, P: Point) returns (e: Edge)
    requires g.Valid() && LinksOnGrid(g, links)
    requires Odd(EndsAt(CrossSpans(g, v, links), P))
    ensures OnGrid(g, e) && Cross(g, v, e) == P && Odd(Degree(links, e))
  {
    EdgesAtSize(g, v, links, P);
    hide Cross, EdgesAt, CrossSpans, EndsAt, Degree;
    e := OddMultiset(EdgesAt(g, v, links, P));
    EdgesAtMultiplicity(g, v, links, P, e);
    assert !Odd(0);
  }

  lemma AtMostTwoCells(g: Grid, we: int, e: Edge)
    requires g.Valid() && ScanEdge(g, we, e)
    ensures EdgeCells(g, we, e) <= 2
  {
  }

  /** Where an odd number of ends meet there is a boundary edge, whatever other
      edges happen to be crossed at the same point. */
  lemma OddPointOnBoundary(g: Grid, v: real, we: int, P: Point) returns (e: Edge)
    requires g.Valid() && 0 <= we <= g.ni + 1
    requires LinksOnGrid(g, GridLinks(g, v, we, g.nj))
    requires Odd(EndsAt(CrossSpans(g, v, GridLinks(g, v, we, g.nj)), P))
    ensures OnGrid(g, e) && BoundaryEdge(g, v, we, e) && Cross(g, v, e) == P
  {
    hide Cross, CrossSpans, EndsAt, Degree, GridLinks, ScanEdge, Straddles;
    e := OddPointHasOddEdge(g, v, GridLinks(g, v, we, g.nj), P);
    OddDegree(g, v, we, e);
  }

  lemma OddDegree(g: Grid, v: real, we: int, e: Edge)
    requires g.Valid() && 0 <= we <= g.ni + 1 && OnGrid(g, e)
    requires Odd(Degree(GridLinks(g, v, we, g.nj), e))
    ensures BoundaryEdge(g, v, we, e)
  {
    hide EdgeCells, Degree, GridLinks, ScanEdge, Straddles;
    DegreeInEnds(g, v, we, e);
    EdgeDegree(g, v, we, e);
    AtMostTwoCells(g, we, e);
  }
}
