/** The reasoning behind the stitcher: lists of segments that grow at one end,
    chains that cannot be extended, and the list of finished chains. */
module Stitching {
  import opened Cardinality
  import opened MarchingSquares
  import opened Crossings
  import opened Chains

  class Segment {
    const e1: Edge
    const e2: Edge
    var px1: real
    var py1: real
    var px2: real
    var py2: real
    var bUsed: bool

    function P1(): Point reads this { Point(px1, py1) }

    function P2(): Point reads this { Point(px2, py2) }

    function Ends(): Span reads this { Span(P1(), P2()) }

    constructor (I: int, w: int, J: int, cut: Cut, g: Grid, v: real)
      requires g.Valid() && OnGrid(g, CutLink(I, w, J, cut).e1) && OnGrid(g, CutLink(I, w, J, cut).e2)
      ensures Link(e1, e2) == CutLink(I, w, J, cut)
      ensures Ends() == Span(Cross(g, v, e1), Cross(g, v, e2))
    {
      var link := CutLink(I, w, J, cut);
      e1, e2 := link.e1, link.e2;
      var p, q := Cross(g, v, link.e1), Cross(g, v, link.e2);
      px1, py1 := p.x, p.y;
      px2, py2 := q.x, q.y;
    }
  }

  ghost predicate Distinct<T>(s: seq<T>) {
    forall i, j :: 0 <= i < j < |s| ==> s[i] != s[j]
  }

  ghost function SetOf<T>(s: seq<T>): set<T> { set x | x in s }

  function Backwards<T>(s: seq<T>): (r: seq<T>)
    ensures |r| == |s|
  {
    if s == [] then [] else Backwards(s[1..]) + [s[0]]
  }

  lemma {:induction false} BackwardsAt<T>(s: seq<T>, k: nat)
    requires k < |s|
    ensures Backwards(s)[k] == s[|s| - 1 - k]
  {
    if k < |s| - 1 {
      BackwardsAt(s[1..], k);
    }
  }

  // The reasoning below is about `ends`, the current end points of the listed
  // segments, and `used`, the segments already taken.

  ghost predicate Kept(ends: map<Segment, Span>, was: map<Segment, Span>, used: set<Segment>) {
    && ends.Keys == was.Keys
    && (forall s :: s in ends ==> SameEnds(ends[s], was[s]))
    && (forall s :: s in ends && s !in used ==> ends[s] == was[s])
  }

  ghost predicate FreeOf(ends: map<Segment, Span>, used: set<Segment>, P: Point) {
    forall s :: s in ends && s !in used ==> !Touches(ends[s], P)
  }

  ghost predicate Listed(segs: seq<Segment>, ends: map<Segment, Span>) {
    forall k :: 0 <= k < |segs| ==> segs[k] in ends
  }

  ghost predicate LinkedForward(segs: seq<Segment>, ends: map<Segment, Span>)
    requires Listed(segs, ends)
  {
    forall k :: 0 <= k < |segs| - 1 ==> ends[segs[k]].q == ends[segs[k + 1]].p
  }

  ghost predicate LinkedBackward(segs: seq<Segment>, ends: map<Segment, Span>)
    requires Listed(segs, ends)
  {
    forall k :: 0 <= k < |segs| - 1 ==> ends[segs[k]].p == ends[segs[k + 1]].q
  }

  /** The "2" side list: distinct segments, each starting where the one before
      it stops; nothing else was touched. */
  ghost predicate GrowingForward(segs: seq<Segment>, ends: map<Segment, Span>, was: map<Segment, Span>,
                                 used: set<Segment>)
  {
    && |segs| > 0 && Distinct(segs) && used == SetOf(segs)
    && Kept(ends, was, used) && Listed(segs, ends) && LinkedForward(segs, ends)
  }

  /** The "1" side list, beside the segments taken before. */
  ghost predicate GrowingBackward(segs: seq<Segment>, ends: map<Segment, Span>, was: map<Segment, Span>,
                                  taken: set<Segment>, used: set<Segment>)
  {
    && |segs| > 0 && Distinct(segs) && used == SetOf(segs) + taken
    && (forall k :: 1 <= k < |segs| ==> segs[k] !in taken)
    && (forall s :: s in taken ==> s in ends && s in was && ends[s] == was[s])
    && Kept(ends, was, used) && Listed(segs, ends) && LinkedBackward(segs, ends)
  }

  /** `seg` was unused and is now turned the way it fits. */
  ghost predicate Joins(seg: Segment, ends: map<Segment, Span>, ends': map<Segment, Span>, used: set<Segment>) {
    && seg in ends && seg !in used && seg in ends' && ends' == ends[seg := ends'[seg]]
    && SameEnds(ends'[seg], ends[seg])
  }

  lemma ExtendForward(segs: seq<Segment>, ends: map<Segment, Span>, was: map<Segment, Span>,
                      used: set<Segment>, seg: Segment, ends': map<Segment, Span>)
    requires GrowingForward(segs, ends, was, used) && Joins(seg, ends, ends', used)
    requires ends'[seg].p == ends[segs[|segs| - 1]].q
    ensures GrowingForward(segs + [seg], ends', was, used + {seg})
    ensures was.Keys - (used + {seg}) < was.Keys - used
  {
    assert forall k :: 0 <= k < |segs| ==> segs[k] in SetOf(segs);
    assert seg in was.Keys - used;
  }

  lemma ExtendBackward(segs: seq<Segment>, ends: map<Segment, Span>, was: map<Segment, Span>, taken: set<Segment>,
                       used: set<Segment>, seg: Segment, ends': map<Segment, Span>)
    requires GrowingBackward(segs, ends, was, taken, used) && Joins(seg, ends, ends', used)
    requires ends'[seg].q == ends[segs[|segs| - 1]].p
    ensures GrowingBackward(segs + [seg], ends', was, taken, used + {seg})
    ensures was.Keys - (used + {seg}) < was.Keys - used
  {
    assert forall k :: 0 <= k < |segs| ==> segs[k] in SetOf(segs);
    assert seg in was.Keys - used;
  }

  lemma LastForward(segs: seq<Segment>, ends: map<Segment, Span>, was: map<Segment, Span>, used: set<Segment>)
    requires GrowingForward(segs, ends, was, used)
    ensures |segs| > 0 && segs[|segs| - 1] in used && segs[|segs| - 1] in ends
  {
  }

  lemma LastBackward(segs: seq<Segment>, ends: map<Segment, Span>, was: map<Segment, Span>, taken: set<Segment>,
                     used: set<Segment>)
    requires GrowingBackward(segs, ends, was, taken, used)
    ensures |segs| > 0 && segs[|segs| - 1] in used && segs[|segs| - 1] in ends
  {
    assert segs[|segs| - 1] in SetOf(segs);
  }

  /** A chain that cannot be extended at either end by an unchained segment. */
  ghost predicate MaximalChain(c: seq<Segment>, ends: map<Segment, Span>, was: map<Segment, Span>) {
    && |c| > 0 && Distinct(c) && Listed(c, ends) && LinkedForward(c, ends) && Kept(ends, was, SetOf(c))
    && FreeOf(ends, SetOf(c), ends[c[0]].p) && FreeOf(ends, SetOf(c), ends[c[|c| - 1]].q)
  }

  // ---------------------------------------------------------- the chain list

  ghost predicate EndsFree(c: seq<Segment>, ends: map<Segment, Span>, s: Segment)
    requires |c| > 0 && Listed(c, ends) && s in ends
  {
    !Touches(ends[s], ends[c[0]].p) && !Touches(ends[s], ends[c[|c| - 1]].q)
  }

  ghost predicate WellLinked(lists: seq<seq<Segment>>, ends: map<Segment, Span>) {
    forall k :: 0 <= k < |lists| ==> |lists[k]| > 0 && Listed(lists[k], ends) && LinkedForward(lists[k], ends)
  }

  ghost predicate LaterFree(lists: seq<seq<Segment>>, ends: map<Segment, Span>)
    requires WellLinked(lists, ends)
  {
    forall k, m, n :: 0 <= k < m < |lists| && 0 <= n < |lists[m]| ==> EndsFree(lists[k], ends, lists[m][n])
  }

  ghost predicate RestFree(lists: seq<seq<Segment>>, ends: map<Segment, Span>, rest: seq<Segment>)
    requires WellLinked(lists, ends) && Listed(rest, ends)
  {
    forall k, n :: 0 <= k < |lists| && 0 <= n < |rest| ==> EndsFree(lists[k], ends, rest[n])
  }

  /** The chains built so far and the segments still to be chained make up the
      whole trace, and no segment outside a finished chain fits its ends. */
  ghost predicate Progress(lists: seq<seq<Segment>>, ends: map<Segment, Span>, rest: seq<Segment>) {
    && Distinct(Flat(lists)) && Distinct(rest) && SetOf(Flat(lists)) !! SetOf(rest)
    && SetOf(Flat(lists)) + SetOf(rest) == ends.Keys
    && Listed(rest, ends) && WellLinked(lists, ends)
    && LaterFree(lists, ends) && RestFree(lists, ends, rest)
  }

  lemma {:induction false} InFlat<T>(lists: seq<seq<T>>, k: nat, n: nat)
    requires k < |lists| && n < |lists[k]|
    ensures lists[k][n] in Flat(lists)
  {
    if k < |lists| - 1 {
      InFlat(lists[..|lists| - 1], k, n);
    }
  }

  /** What one round of the outer loop does: a maximal chain of the rest. */
  ghost predicate NextChain(ends: map<Segment, Span>, rest: seq<Segment>,
                            chain: seq<Segment>, chained: map<Segment, Span>, rest': seq<Segment>)
  {
    && |chain| > 0 && Distinct(chain) && Listed(chain, chained) && LinkedForward(chain, chained)
    && chained.Keys == SetOf(rest) && SetOf(chain) <= SetOf(rest) && SetOf(rest) <= ends.Keys
    && (forall s :: s in chained ==> SameEnds(chained[s], ends[s]))
    && FreeOf(chained, SetOf(chain), chained[chain[0]].p)
    && FreeOf(chained, SetOf(chain), chained[chain[|chain| - 1]].q)
    && Distinct(rest') && SetOf(rest') == SetOf(rest) - SetOf(chain)
  }

  lemma AddChainKeepsPartition(lists: seq<seq<Segment>>, ends: map<Segment, Span>, rest: seq<Segment>,
                               chain: seq<Segment>, chained: map<Segment, Span>, rest': seq<Segment>)
    requires Progress(lists, ends, rest) && NextChain(ends, rest, chain, chained, rest')
    ensures var flat := Flat(lists + [chain]);
            && Distinct(flat) && SetOf(flat) !! SetOf(rest')
            && SetOf(flat) + SetOf(rest') == (ends + chained).Keys && Listed(rest', ends + chained)
  {
    FlatAppend(lists, chain);
    var flat := Flat(lists);
    assert forall n :: 0 <= n < |flat| ==> flat[n] in SetOf(flat);
    assert forall k :: 0 <= k < |chain| ==> chain[k] in SetOf(chain);
    assert SetOf(flat + chain) == SetOf(flat) + SetOf(chain);
    assert forall k :: 0 <= k < |rest'| ==> rest'[k] in SetOf(rest');
  }

  /** Finished chains are not touched again. */
  lemma AddChainKeepsLinks(lists: seq<seq<Segment>>, ends: map<Segment, Span>, rest: seq<Segment>,
                           chain: seq<Segment>, chained: map<Segment, Span>, rest': seq<Segment>)
    requires Progress(lists, ends, rest) && NextChain(ends, rest, chain, chained, rest')
    ensures forall k, n :: 0 <= k < |lists| && 0 <= n < |lists[k]| ==>
              lists[k][n] in ends && (ends + chained)[lists[k][n]] == ends[lists[k][n]]
    ensures WellLinked(lists + [chain], ends + chained)
  {
    var ends', lists' := ends + chained, lists + [chain];
    forall k, n | 0 <= k < |lists| && 0 <= n < |lists[k]|
      ensures lists[k][n] in ends && lists[k][n] !in chained
    {
      InFlat(lists, k, n);
      assert lists[k][n] in SetOf(Flat(lists));
    }
    forall k | 0 <= k < |lists'|
      ensures |lists'[k]| > 0 && Listed(lists'[k], ends') && LinkedForward(lists'[k], ends')
    {
      if k < |lists| {
        assert Listed(lists[k], ends) && LinkedForward(lists[k], ends);
        assert forall n :: 0 <= n < |lists[k]| ==> ends'[lists[k][n]] == ends[lists[k][n]];
      } else {
        assert lists'[k] == chain;
      }
    }
  }

  lemma RestStaysFree(lists: seq<seq<Segment>>, ends: map<Segment, Span>, rest: seq<Segment>,
                      chained: map<Segment, Span>, k: nat, s: Segment)
    requires Progress(lists, ends, rest) && k < |lists| && s in SetOf(rest)
    requires s in chained && SameEnds(chained[s], ends[s])
    requires forall n :: 0 <= n < |lists[k]| ==>
              lists[k][n] in ends && (ends + chained)[lists[k][n]] == ends[lists[k][n]]
    ensures EndsFree(lists[k], ends + chained, s)
  {
    var n :| 0 <= n < |rest| && rest[n] == s;
    assert EndsFree(lists[k], ends, rest[n]);
  }

  lemma AddChainKeepsLaterFree(lists: seq<seq<Segment>>, ends: map<Segment, Span>, rest: seq<Segment>,
                               chain: seq<Segment>, chained: map<Segment, Span>, rest': seq<Segment>)
    requires Progress(lists, ends, rest) && NextChain(ends, rest, chain, chained, rest')
    requires WellLinked(lists + [chain], ends + chained)
    ensures LaterFree(lists + [chain], ends + chained)
  {
    var ends', lists' := ends + chained, lists + [chain];
    AddChainKeepsLinks(lists, ends, rest, chain, chained, rest');
    forall k, m, n | 0 <= k < m < |lists'| && 0 <= n < |lists'[m]|
      ensures EndsFree(lists'[k], ends', lists'[m][n])
    {
      if m < |lists| {
        assert EndsFree(lists[k], ends, lists[m][n]);
      } else {
        assert lists'[m] == chain && chain[n] in SetOf(chain);
        RestStaysFree(lists, ends, rest, chained, k, chain[n]);
      }
    }
  }

  lemma AddChainKeepsRestFree(lists: seq<seq<Segment>>, ends: map<Segment, Span>, rest: seq<Segment>,
                              chain: seq<Segment>, chained: map<Segment, Span>, rest': seq<Segment>)
    requires Progress(lists, ends, rest) && NextChain(ends, rest, chain, chained, rest')
    requires WellLinked(lists + [chain], ends + chained) && Listed(rest', ends + chained)
    ensures RestFree(lists + [chain], ends + chained, rest')
  {
    var ends', lists' := ends + chained, lists + [chain];
    AddChainKeepsLinks(lists, ends, rest, chain, chained, rest');
    forall k, n | 0 <= k < |lists'| && 0 <= n < |rest'|
      ensures EndsFree(lists'[k], ends', rest'[n])
    {
      assert rest'[n] in SetOf(rest');
      if k < |lists| {
        RestStaysFree(lists, ends, rest, chained, k, rest'[n]);
      } else {
        assert lists'[k] == chain;
      }
    }
  }

  /** One more chain, and the rest without it. */
  lemma AddChain(lists: seq<seq<Segment>>, ends: map<Segment, Span>, rest: seq<Segment>,
                 chain: seq<Segment>, chained: map<Segment, Span>, rest': seq<Segment>)
    requires Progress(lists, ends, rest) && NextChain(ends, rest, chain, chained, rest')
    ensures Progress(lists + [chain], ends + chained, rest')
  {
    AddChainKeepsPartition(lists, ends, rest, chain, chained, rest');
    AddChainKeepsLinks(lists, ends, rest, chain, chained, rest');
    AddChainKeepsLaterFree(lists, ends, rest, chain, chained, rest');
    AddChainKeepsRestFree(lists, ends, rest, chain, chained, rest');
    hide NextChain, Flat, WellLinked, LaterFree, RestFree, Listed;
  }

  lemma EmptyProgress(ends: map<Segment, Span>)
    requires ends.Keys == {}
    ensures Progress([], ends, [])
  {
  }

  lemma InitialProgress(trace: seq<Segment>, ends: map<Segment, Span>)
    requires Distinct(trace) && ends.Keys == SetOf(trace)
    ensures Progress([], ends, trace)
  {
  }

  lemma SameEndsTransitive(a: map<Segment, Span>, b: map<Segment, Span>, c: map<Segment, Span>)
    requires a.Keys == b.Keys == c.Keys
    requires forall s :: s in a ==> SameEnds(b[s], a[s])
    requires forall s :: s in a ==> SameEnds(c[s], b[s])
    ensures forall s :: s in a ==> SameEnds(c[s], a[s])
  {
  }

  lemma ProgressRest(lists: seq<seq<Segment>>, ends: map<Segment, Span>, rest: seq<Segment>)
    requires Progress(lists, ends, rest)
    ensures Distinct(rest) && forall s :: s in rest ==> s in ends
  {
    assert forall s :: s in rest ==> s in SetOf(rest);
  }

  lemma BuiltChainIsNext(lists: seq<seq<Segment>>, ends: map<Segment, Span>, rest: seq<Segment>,
                         was: map<Segment, Span>, chain: seq<Segment>, chained: map<Segment, Span>, rest': seq<Segment>)
    requires Progress(lists, ends, rest) && |rest| > 0 && rest[0] in chain
    requires was.Keys == SetOf(rest) && forall s :: s in was ==> s in ends && was[s] == ends[s]
    requires MaximalChain(chain, chained, was)
    requires Distinct(rest') && SetOf(rest') == SetOf(rest) - SetOf(chain)
    ensures NextChain(ends, rest, chain, chained, rest')
    ensures (ends + chained).Keys == ends.Keys
    ensures forall s :: s in ends ==> SameEnds((ends + chained)[s], ends[s])
    ensures Distinct(rest) && SetOf(rest') <= SetOf(rest) - {rest[0]} && rest[0] in SetOf(rest)
  {
    hide LinkedForward, FreeOf, Flat, WellLinked, LaterFree, RestFree;
  }

  lemma NextProgress(lists: seq<seq<Segment>>, ends: map<Segment, Span>, rest: seq<Segment>, was: map<Segment, Span>,
                     chain: seq<Segment>, chained: map<Segment, Span>, rest': seq<Segment>)
    requires Progress(lists, ends, rest) && |rest| > 0 && rest[0] in chain
    requires was.Keys == SetOf(rest) && forall s :: s in was ==> s in ends && was[s] == ends[s]
    requires MaximalChain(chain, chained, was)
    requires Distinct(rest') && SetOf(rest') == SetOf(rest) - SetOf(chain)
    ensures Progress(lists + [chain], ends + chained, rest') && |rest'| < |rest|
    ensures (ends + chained).Keys == ends.Keys
    ensures forall s :: s in ends ==> SameEnds((ends + chained)[s], ends[s])
  {
    hide *;
    BuiltChainIsNext(lists, ends, rest, was, chain, chained, rest');
    AddChain(lists, ends, rest, chain, chained, rest');
    SmallerSet(rest', rest, rest[0]);
  }

  lemma RemovalKeepsRest<T>(s: seq<T>, n: nat)
    requires n < |s| && Distinct(s)
    ensures Distinct(s[..n] + s[n + 1..])
    ensures SetOf(s[..n] + s[n + 1..]) == SetOf(s) - {s[n]}
  {
    assert s == s[..n] + [s[n]] + s[n + 1..];
  }

  /** The elements not used, in their order. */
  ghost function Unused<T>(s: seq<T>, used: set<T>): seq<T> {
    if s == [] then []
    else Unused(s[..|s| - 1], used) + if s[|s| - 1] in used then [] else [s[|s| - 1]]
  }

  lemma {:induction false} UnusedConcat<T>(a: seq<T>, b: seq<T>, used: set<T>)
    ensures Unused(a + b, used) == Unused(a, used) + Unused(b, used)
    decreases |b|
  {
    if b == [] {
      assert a + b == a;
    } else {
      assert (a + b)[..|a + b| - 1] == a + b[..|b| - 1];
      UnusedConcat(a, b[..|b| - 1], used);
    }
  }

  lemma UnusedWithout<T>(s: seq<T>, n: nat, used: set<T>)
    requires n < |s| && s[n] in used
    ensures Unused(s[..n] + s[n + 1..], used) == Unused(s, used)
  {
    assert s == s[..n] + ([s[n]] + s[n + 1..]);
    UnusedConcat(s[..n], [s[n]] + s[n + 1..], used);
    UnusedConcat([s[n]], s[n + 1..], used);
    UnusedConcat(s[..n], s[n + 1..], used);
    assert [s[n]][..0] == [];
  }

  lemma {:induction false} AllUnused<T>(s: seq<T>, used: set<T>)
    requires forall k :: 0 <= k < |s| ==> s[k] !in used
    ensures Unused(s, used) == s
    decreases |s|
  {
    if s != [] {
      AllUnused(s[..|s| - 1], used);
    }
  }

  lemma SplitLast<T>(s: seq<T>)
    requires |s| > 0 && Distinct(s)
    ensures var front, last := s[..|s| - 1], s[|s| - 1];
            Distinct(front) && last !in SetOf(front) && SetOf(s) == SetOf(front) + {last}
  {
    assert s == s[..|s| - 1] + [s[|s| - 1]];
  }

  lemma {:induction false} CardinalityOfDistinct<T>(s: seq<T>)
    requires Distinct(s)
    ensures |SetOf(s)| == |s|
  {
    if s != [] {
      SplitLast(s);
      hide SetOf, Distinct;
      CardinalityOfDistinct(s[..|s| - 1]);
    }
  }

  lemma SmallerSet<T>(a: seq<T>, b: seq<T>, x: T)
    requires Distinct(a) && Distinct(b) && SetOf(a) <= SetOf(b) - {x} && x in SetOf(b)
    ensures |a| < |b|
  {
    CardinalityOfDistinct(a);
    CardinalityOfDistinct(b);
    SubsetSize(SetOf(a), SetOf(b) - {x});
  }

  /** The assembled list, position by position. */
  lemma AssembledAt(segjoin1: seq<Segment>, segjoin2: seq<Segment>, k: nat)
    requires |segjoin1| > 0 && k < |segjoin1| - 1 + |segjoin2|
    ensures (Backwards(segjoin1[1..]) + segjoin2)[k] ==
            if k < |segjoin1| - 1 then segjoin1[|segjoin1| - 1 - k] else segjoin2[k - (|segjoin1| - 1)]
  {
    if k < |segjoin1| - 1 { BackwardsAt(segjoin1[1..], k); }
  }

  lemma FirstForward(segs: seq<Segment>, ends: map<Segment, Span>, was: map<Segment, Span>, used: set<Segment>)
    requires GrowingForward(segs, ends, was, used)
    ensures |segs| > 0 && segs[0] in used
  {
  }

  /** Two lists grown from the same segment join into one maximal chain. */
  lemma JoinedLists(segjoin1: seq<Segment>, segjoin2: seq<Segment>, ends: map<Segment, Span>, ends2: map<Segment, Span>,
                    was: map<Segment, Span>, used: set<Segment>, used2: set<Segment>)
    requires GrowingForward(segjoin2, ends2, was, used2) && GrowingBackward(segjoin1, ends, ends2, used2, used)
    requires segjoin1[0] == segjoin2[0]
    requires FreeOf(ends2, used2, ends2[segjoin2[|segjoin2| - 1]].q)
    requires FreeOf(ends, used, ends[segjoin1[|segjoin1| - 1]].p)
    ensures var ret := Backwards(segjoin1[1..]) + segjoin2;
            MaximalChain(ret, ends, was) && SetOf(ret) == used && segjoin1[0] in ret
  {
    hide Distinct, LinkedForward, LinkedBackward, FreeOf, Kept, Backwards;
    var ret := Backwards(segjoin1[1..]) + segjoin2;
    LastForward(segjoin2, ends2, was, used2);
    LastBackward(segjoin1, ends, ends2, used2, used);
    AssembledPositions(segjoin1, segjoin2);
    JoinedListsMaximal(segjoin1, segjoin2, ends, ends2, was, used, used2);
    JoinedListsLinked(segjoin1, segjoin2, ends, ends2, ret);
    assert ret[0] == segjoin1[|segjoin1| - 1] && ret[|ret| - 1] == segjoin2[|segjoin2| - 1];
  }

  ghost predicate IsAssembly(ret: seq<Segment>, segjoin1: seq<Segment>, segjoin2: seq<Segment>) {
    && |segjoin1| > 0 && |ret| == |segjoin1| - 1 + |segjoin2|
    && forall k :: 0 <= k < |ret| ==>
        ret[k] == if k < |segjoin1| - 1 then segjoin1[|segjoin1| - 1 - k] else segjoin2[k - (|segjoin1| - 1)]
  }

  lemma AssembledPositions(segjoin1: seq<Segment>, segjoin2: seq<Segment>)
    requires |segjoin1| > 0
    ensures IsAssembly(Backwards(segjoin1[1..]) + segjoin2, segjoin1, segjoin2)
  {
    var ret := Backwards(segjoin1[1..]) + segjoin2;
    forall k | 0 <= k < |ret|
      ensures ret[k] == if k < |segjoin1| - 1 then segjoin1[|segjoin1| - 1 - k] else segjoin2[k - (|segjoin1| - 1)]
    {
      AssembledAt(segjoin1, segjoin2, k);
    }
  }

  lemma JoinedListsMaximal(segjoin1: seq<Segment>, segjoin2: seq<Segment>, ends: map<Segment, Span>,
                           ends2: map<Segment, Span>, was: map<Segment, Span>, used: set<Segment>, used2: set<Segment>)
    requires GrowingForward(segjoin2, ends2, was, used2) && GrowingBackward(segjoin1, ends, ends2, used2, used)
    requires FreeOf(ends2, used2, ends2[segjoin2[|segjoin2| - 1]].q)
    ensures ends.Keys == ends2.Keys && Kept(ends, was, used) && FreeOf(ends, used, ends2[segjoin2[|segjoin2| - 1]].q)
    ensures segjoin2[|segjoin2| - 1] in ends
    ensures ends[segjoin2[|segjoin2| - 1]] == ends2[segjoin2[|segjoin2| - 1]]
  {
    hide LinkedForward, LinkedBackward, Distinct;
    LastForward(segjoin2, ends2, was, used2);
  }

  lemma JoinedListsLinked(segjoin1: seq<Segment>, segjoin2: seq<Segment>, ends: map<Segment, Span>,
                          ends2: map<Segment, Span>, ret: seq<Segment>)
    requires |segjoin1| > 0 && |segjoin2| > 0 && segjoin1[0] == segjoin2[0]
    requires Distinct(segjoin1) && Distinct(segjoin2)
    requires forall k :: 1 <= k < |segjoin1| ==> segjoin1[k] !in SetOf(segjoin2)
    requires Listed(segjoin1, ends) && LinkedBackward(segjoin1, ends)
    requires Listed(segjoin2, ends2) && LinkedForward(segjoin2, ends2)
    requires ends.Keys == ends2.Keys && forall s :: s in SetOf(segjoin2) ==> s in ends && ends[s] == ends2[s]
    requires IsAssembly(ret, segjoin1, segjoin2)
    ensures Distinct(ret) && Listed(ret, ends) && LinkedForward(ret, ends)
    ensures SetOf(ret) == SetOf(segjoin1) + SetOf(segjoin2) && segjoin1[0] in ret
  {
    var n := |segjoin1| - 1;
    assert forall k :: 0 <= k < |segjoin2| ==> segjoin2[k] in SetOf(segjoin2);
    forall s | s in SetOf(segjoin1) + SetOf(segjoin2)
      ensures s in ret
    {
      if s in SetOf(segjoin2) {
        var k :| 0 <= k < |segjoin2| && segjoin2[k] == s;
        assert ret[n + k] == s;
      } else {
        var k :| 0 <= k < |segjoin1| && segjoin1[k] == s;
        assert ret[n - k] == s;
      }
    }
    assert segjoin1[0] in SetOf(segjoin1);
  }
}
