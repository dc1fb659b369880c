/** Chains of point-to-point spans: the counting behind the stitcher. */
module Chains {
  import opened MarchingSquares

  /** A segment as the stitcher sees it: two end points. */
  datatype Span = Span(p: Point, q: Point)
  {
    function Flip(): Span { Span(q, p) }
  }

  predicate Touches(s: Span, P: Point) { s.p == P || s.q == P }

  predicate SameEnds(s: Span, t: Span) { s == t || s == t.Flip() }

  /** Each span starts where its predecessor stops. */
  ghost predicate IsChain(c: seq<Span>) {
    forall k :: 0 <= k < |c| - 1 ==> c[k].q == c[k + 1].p
  }

  ghost predicate Closed(c: seq<Span>)
    requires |c| > 0
  {
    c[0].p == c[|c| - 1].q
  }

  /** How many span ends lie at point P. */
  ghost function EndsAt(spans: seq<Span>, P: Point): nat {
    if spans == [] then 0
    else EndsAt(spans[..|spans| - 1], P) + SpanEnds(spans[|spans| - 1], P)
  }

  ghost function SpanEnds(s: Span, P: Point): nat { Ind(s.p == P) + Ind(s.q == P) }

  lemma {:induction false} EndsAtConcat(a: seq<Span>, b: seq<Span>, P: Point)
    ensures EndsAt(a + b, P) == EndsAt(a, P) + EndsAt(b, P)
  {
    if b == [] {
      assert a + b == a;
    } else {
      assert (a + b)[..|a + b| - 1] == a + b[..|b| - 1];
      EndsAtConcat(a, b[..|b| - 1], P);
    }
  }

  lemma {:induction false} UntouchedHasNoEnds(spans: seq<Span>, P: Point)
    requires forall n :: 0 <= n < |spans| ==> !Touches(spans[n], P)
    ensures EndsAt(spans, P) == 0
  {
    if spans != [] {
      UntouchedHasNoEnds(spans[..|spans| - 1], P);
    }
  }

  /** Along a chain every inner point is left as often as it is reached. */
  lemma {:induction false} ChainParity(c: seq<Span>, P: Point)
    requires |c| > 0 && IsChain(c)
    ensures EndsAt(c, P) % 2 == (Ind(c[0].p == P) + Ind(c[|c| - 1].q == P)) % 2
  {
    var front := c[..|c| - 1];
    if front != [] {
      ChainParity(front, P);
      assert front[|front| - 1].q == c[|c| - 1].p;
    }
  }

  ghost function Flat<T>(chains: seq<seq<T>>): seq<T> {
    if chains == [] then [] else Flat(chains[..|chains| - 1]) + chains[|chains| - 1]
  }

  lemma FlatAppend<T>(chains: seq<seq<T>>, c: seq<T>)
    ensures Flat(chains + [c]) == Flat(chains) + c
  {
    assert (chains + [c])[..|chains|] == chains;
  }

  /** No span of a later chain touches the ends of a finished one. */
  ghost predicate Maximal(chains: seq<seq<Span>>) {
    forall k, m, n :: 0 <= k < m < |chains| && 0 <= n < |chains[m]| && |chains[k]| > 0 ==>
      !Touches(chains[m][n], chains[k][0].p) && !Touches(chains[m][n], chains[k][|chains[k]| - 1].q)
  }

  ghost predicate Stitched(chains: seq<seq<Span>>) {
    && (forall k :: 0 <= k < |chains| ==> |chains[k]| > 0 && IsChain(chains[k]))
    && Maximal(chains)
  }

  ghost predicate IsEnd(c: seq<Span>, P: Point)
    requires |c| > 0
  {
    P == c[0].p || P == c[|c| - 1].q
  }

  /** At an end point of the open chain k, chain k itself contributes oddly,
      every other chain evenly. */
  lemma ChainContribution(chains: seq<seq<Span>>, k: int, m: int, P: Point)
    requires Stitched(chains) && 0 <= k < |chains| && 0 <= m < |chains|
    requires !Closed(chains[k]) && IsEnd(chains[k], P)
    ensures Odd(EndsAt(chains[m], P)) <==> m == k
  {
    hide EndsAt;
    ChainParity(chains[m], P);
    if m < k {
      EarlierChainsEndElsewhere(chains, m, k, P);
    } else if k < m {
      UntouchedHasNoEnds(chains[m], P);
    }
  }

  ghost predicate Odd(n: nat) { n % 2 == 1 }

  lemma OddSum(a: nat, b: nat)
    ensures Odd(a + b) <==> Odd(a) != Odd(b)
  {
  }

  lemma FlatStep(chains: seq<seq<Span>>, n: int, P: Point)
    requires 0 < n <= |chains|
    ensures EndsAt(Flat(chains[..n]), P) == EndsAt(Flat(chains[..n - 1]), P) + EndsAt(chains[n - 1], P)
  {
    assert chains[..n][..n - 1] == chains[..n - 1];
    EndsAtConcat(Flat(chains[..n - 1]), chains[n - 1], P);
  }

  lemma {:induction false} EndParity(chains: seq<seq<Span>>, k: int, n: int, P: Point)
    requires Stitched(chains) && 0 <= k < |chains| && 0 <= n <= |chains|
    requires !Closed(chains[k]) && IsEnd(chains[k], P)
    ensures Odd(EndsAt(Flat(chains[..n]), P)) <==> k < n
    decreases n
  {
    if n == 0 {
      assert chains[..0] == [];
    } else {
      hide Stitched, EndsAt, Flat, IsEnd, Odd;
      EndParity(chains, k, n - 1, P);
      FlatStep(chains, n, P);
      ChainContribution(chains, k, n - 1, P);
      OddSum(EndsAt(Flat(chains[..n - 1]), P), EndsAt(chains[n - 1], P));
    }
  }

  lemma EarlierChainsEndElsewhere(chains: seq<seq<Span>>, m: int, k: int, P: Point)
    requires Stitched(chains) && 0 <= m < k < |chains| && IsEnd(chains[k], P)
    ensures !IsEnd(chains[m], P)
  {
    var c := chains[k];
    assert Touches(c[0], P) || Touches(c[|c| - 1], P);
  }

  /** A finished chain is a closed loop or both its ends are points where an
      odd number of all the spans' ends meet. */
  lemma OpenChainEndsAreOdd(chains: seq<seq<Span>>, k: int, P: Point)
    requires Stitched(chains) && 0 <= k < |chains| && IsEnd(chains[k], P)
    ensures Closed(chains[k]) || Odd(EndsAt(Flat(chains), P))
  {
    if !Closed(chains[k]) {
      EndParity(chains, k, |chains|, P);
      assert chains[..|chains|] == chains;
    }
  }

  // -------------------------------------------------- reordering and flipping

  ghost predicate InMap<S>(items: seq<S>, m: map<S, Span>) { forall s :: s in items ==> s in m }

  ghost function Image<S>(items: seq<S>, m: map<S, Span>): seq<Span>
    requires InMap(items, m)
  {
    seq(|items|, n requires 0 <= n < |items| => m[items[n]])
  }

  ghost function Without<S>(items: seq<S>, i: nat): seq<S>
    requires i < |items|
  {
    items[..i] + items[i + 1..]
  }

  lemma ImageWithout<S>(items: seq<S>, i: nat, m: map<S, Span>, P: Point)
    requires i < |items| && InMap(items, m)
    ensures InMap(Without(items, i), m)
    ensures EndsAt(Image(items, m), P) == EndsAt(Image(Without(items, i), m), P) + SpanEnds(m[items[i]], P)
  {
    var x, l, r := items[i], items[..i], items[i + 1..];
    assert items == l + [x] + r;
    assert Image(items, m) == Image(l, m) + [m[x]] + Image(r, m);
    assert Image(l + r, m) == Image(l, m) + Image(r, m);
    EndsAtConcat(Image(l, m) + [m[x]], Image(r, m), P);
    EndsAtConcat(Image(l, m), [m[x]], P);
    EndsAtConcat(Image(l, m), Image(r, m), P);
    assert [m[x]][..0] == [];
  }

  lemma MultisetWithout<S>(items: seq<S>, i: nat)
    requires i < |items|
    ensures multiset(Without(items, i)) == multiset(items) - multiset{items[i]}
    ensures |Without(items, i)| == |items| - 1
    ensures forall s :: s in Without(items, i) ==> s in items
  {
    assert items == items[..i] + [items[i]] + items[i + 1..];
  }

  ghost predicate Reoriented<S>(items: seq<S>, m: map<S, Span>, m': map<S, Span>) {
    forall s :: s in items ==> s in m && s in m' && SameEnds(m'[s], m[s])
  }

  /** Neither the order of the segments nor their orientation changes how many
      ends meet at a point. */
  lemma {:induction false} EndsAtInvariant<S>(a: seq<S>, b: seq<S>, m: map<S, Span>, m': map<S, Span>, P: Point)
    requires multiset(a) == multiset(b)
    requires InMap(a, m) && InMap(b, m') && Reoriented(b, m, m')
    ensures EndsAt(Image(a, m), P) == EndsAt(Image(b, m'), P)
    decreases |b|
  {
    if b == [] {
      assert |a| == |multiset(a)| == 0;
      assert Image(a, m) == Image(b, m') == [];
    } else {
      var x := b[0];
      assert x in multiset(a);
      var i :| 0 <= i < |a| && a[i] == x;
      assert SpanEnds(m'[x], P) == SpanEnds(m[x], P);
      MultisetWithout(a, i);
      MultisetWithout(b, 0);
      assert Reoriented(Without(b, 0), m, m');
      hide EndsAt, Image, InMap, Without, Reoriented;
      ImageWithout(a, i, m, P);
      ImageWithout(b, 0, m', P);
      EndsAtInvariant(Without(a, i), Without(b, 0), m, m', P);
    }
  }
}
