/** The subdivision loop with its fixed stack, and the driver over a polyline. */
module SplineStack {
  import opened Splines
  import opened SplineCurve

  /** The points still to come from a stack whose top is its last element. */
  ghost function Pending(stack: seq<Piece>): seq<Vec> {
    if stack == [] then []
    else Flatten(stack[|stack| - 1]) + Pending(stack[..|stack| - 1])
  }

  /** Every piece on the stack fits with the room left above it. */
  ghost predicate Fits(stack: seq<Piece>) {
    forall k :: 0 <= k < |stack| ==> k + Slots(stack[k]) <= STACK_DEPTH
  }

  class Spline {
    const stack: array<Piece>
    var count: nat
    var points: seq<Pixel>

    ghost predicate Valid() reads this`count { stack.Length == STACK_DEPTH && count <= STACK_DEPTH }

    /** The used part of the stack. */
    ghost function Stack(): seq<Piece>
      requires Valid()
      reads this`count, stack
    {
      stack[..count]
    }

    constructor ()
      ensures Valid() && fresh(stack) && stack.Length == 20 && count == 0 && points == []
    {
      var none := Vec(0.0, 0.0);
      stack := new Piece[STACK_DEPTH](_ => Piece(none, none, none, none));
      count, points := 0, [];
    }

    method ClearStack()
      requires Valid()
      modifies this`count
      ensures Valid() && Stack() == []
    {
      count := 0;
    }

    method Push(q: Piece)
      requires Valid() && count < STACK_DEPTH
      modifies this`count, stack
      ensures Valid() && Stack() == old(Stack()) + [q]
    {
      stack[count] := q;
      count := count + 1;
    }

    method Pop() returns (more: bool, q: Piece)
      requires Valid()
      modifies this`count
      ensures Valid() && (more <==> old(count) > 0)
      ensures more ==> old(Stack()) == Stack() + [q]
      ensures !more ==> Stack() == old(Stack())
    {
      if count == 0 {
        var none := Vec(0.0, 0.0);
        return false, Piece(none, none, none, none);
      }
      count := count - 1;
      return true, stack[count];
    }

    method AddPoint(v: Vec)
      modifies this`points
      ensures points == old(points) + [ToPixel(v)]
    {
      points := points + [ToPixel(v)];
    }

    /** Emit a piece. The stack suffices exactly when the piece needs no more
        than its 20 slots. */
    method QuadraticSpline(q: Piece)
      requires Valid() && Slots(q) <= 20
      modifies this, stack
      ensures Valid() && points == old(points) + ToPixels(Flatten(q))
    {
      hide Flatten, Slots, Flat, Rounds, AllRounds, Pending, Fits, ToPixels, ToPixel;
      ClearStack();
      Push(q);
      ghost var st := [q];
      StartsWith(q, points);
      while true
        invariant Valid() && st == Stack() && Fits(st)
        invariant points + ToPixels(Pending(st)) == old(points) + ToPixels(Flatten(q))
        decreases AllRounds(st)
      {
        var more, top := Pop();
        if !more {
          NothingPending(points, st);
          break;
        }
        ghost var front := Stack();
        assert st == front + [top];
        RunStep(front, top, points);
        if Flat(top) {
          AddPoint(top.p1);
          AddPoint(Mid(top));
          st := front;
        } else {
          Push(Right(top));
          Push(Left(top));
          st := (front + [Right(top)]) + [Left(top)];
        }
      }
    }

    /** Emit the smooth line of a polyline: nothing for no points, and any
        number of points but one. */
    method GenSpline(pts: seq<Pixel>)
      requires Valid() && |pts| != 1
      requires forall i :: 1 <= i < |pts| - 1 ==> Slots(CornerAt(pts, i)) <= 20
      modifies this, stack
      ensures Valid() && points == old(points) + if pts == [] then [] else ToPixels(SmoothLine(pts))
    {
      hide Flatten, Slots, ToPixel, ToPixels, Corners, SmoothLine, Emitted;
      if |pts| == 0 {
        return;
      }
      var p1, p2 := ToVec(pts[0]), ToVec(pts[1]);
      var c1 := Half(p1, p2);
      var c2 := Half(c1, p2);
      AddPoint(p1);
      EmittedFirst(pts);
      var i := 2;
      while i < |pts|
        invariant 2 <= i <= |pts| && Valid()
        invariant p1 == ToVec(pts[i - 2]) && p2 == ToVec(pts[i - 1])
        invariant c1 == Half(p1, p2) && c2 == Half(c1, p2)
        invariant points == old(points) + Emitted(pts, i - 2)
      {
        p1, p2 := p2, ToVec(pts[i]);
        var c4 := Half(p1, p2);
        var c3 := Half(p1, c4);
        assert Piece(c1, c2, c3, c4) == CornerAt(pts, i - 1);
        QuadraticSpline(Piece(c1, c2, c3, c4));
        EmittedNext(pts, i - 1);
        c1 := c4;
        c2 := Half(c1, p2);
        i := i + 1;
      }
      AddPoint(c1);
      AddPoint(p2);
      EmittedAll(pts);
    }
  }

  /** The pixels emitted up to and including corner n. */
  ghost function Emitted(pts: seq<Pixel>, n: int): seq<Pixel>
    requires 0 <= n < |pts| - 1
  {
    ToPixels([ToVec(pts[0])] + Corners(pts, n))
  }

  lemma EmittedFirst(pts: seq<Pixel>)
    requires |pts| >= 2
    ensures Emitted(pts, 0) == [ToPixel(ToVec(pts[0]))]
  {
  }

  lemma EmittedNext(pts: seq<Pixel>, n: int)
    requires 1 <= n < |pts| - 1
    ensures Emitted(pts, n) == Emitted(pts, n - 1) + ToPixels(Flatten(CornerAt(pts, n)))
  {
    hide Flatten, CornerAt, ToPixel;
    var first := [ToVec(pts[0])];
    assert first + Corners(pts, n) == (first + Corners(pts, n - 1)) + Flatten(CornerAt(pts, n));
    ToPixelsConcat(first + Corners(pts, n - 1), Flatten(CornerAt(pts, n)));
  }

  lemma EmittedAll(pts: seq<Pixel>)
    requires |pts| >= 2
    ensures var n := |pts|;
            ToPixels(SmoothLine(pts)) == Emitted(pts, n - 2)
              + [ToPixel(Half(ToVec(pts[n - 2]), ToVec(pts[n - 1])))] + [ToPixel(ToVec(pts[n - 1]))]
  {
    hide Corners, ToPixel;
    var n := |pts|;
    var tail := [Half(ToVec(pts[n - 2]), ToVec(pts[n - 1])), ToVec(pts[n - 1])];
    ToPixelsConcat([ToVec(pts[0])] + Corners(pts, n - 2), tail);
    assert ToPixels(tail) == [ToPixel(tail[0])] + [ToPixel(tail[1])];
  }

  // ------------------------------------------------------- steps of the run

  lemma ToPixelsConcat(a: seq<Vec>, b: seq<Vec>)
    ensures ToPixels(a + b) == ToPixels(a) + ToPixels(b)
  {
  }

  lemma Associative(a: seq<Vec>, b: seq<Vec>, c: seq<Vec>)
    ensures (a + b) + c == a + (b + c)
  {
  }

  lemma TwoPixels(a: Vec, b: Vec)
    ensures ToPixels([a, b]) == [ToPixel(a)] + [ToPixel(b)]
  {
  }

  lemma PendingOnTop(front: seq<Piece>, q: Piece)
    ensures Pending(front + [q]) == Flatten(q) + Pending(front)
  {
    assert (front + [q])[..|front|] == front;
  }

  lemma StartsWith(q: Piece, points: seq<Pixel>)
    requires Slots(q) <= STACK_DEPTH
    ensures Fits([q]) && points + ToPixels(Pending([q])) == points + ToPixels(Flatten(q))
  {
    assert [] + [q] == [q] && Flatten(q) + [] == Flatten(q);
    PendingOnTop([], q);
  }

  lemma NothingPending(points: seq<Pixel>, stack: seq<Piece>)
    requires stack == []
    ensures points + ToPixels(Pending(stack)) == points
  {
  }

  /** One round of the loop keeps what has been and will be emitted, and the
      stack never grows past its depth. */
  lemma RunStep(front: seq<Piece>, top: Piece, points: seq<Pixel>)
    requires Fits(front + [top])
    ensures if Flat(top)
            then && Fits(front) && AllRounds(front) < AllRounds(front + [top])
                 && points + ToPixels(Pending(front + [top]))
                    == (points + [ToPixel(top.p1)] + [ToPixel(Mid(top))]) + ToPixels(Pending(front))
            else var next := (front + [Right(top)]) + [Left(top)];
                 && Fits(next) && |next| <= STACK_DEPTH && AllRounds(next) < AllRounds(front + [top])
                 && points + ToPixels(Pending(front + [top])) == points + ToPixels(Pending(next))
  {
    hide Slots, Flatten, AllRounds, Level, ToPixel, Flat, Left, Right, Mid, Pending, ToPixels;
    var stack := front + [top];
    assert stack[..|front|] == front && stack[|front|] == top;
    RoundLowersRounds(stack);
    PendingOnTop(front, top);
    FlattenStep(top);
    SlotsStep(top);
    SlotsWithinLevel(Left(top));
    assert forall k :: 0 <= k < |front| ==> stack[k] == front[k];
    if Flat(top) {
      assert Round(stack) == front;
      ToPixelsConcat([top.p1, Mid(top)], Pending(front));
      TwoPixels(top.p1, Mid(top));
    } else {
      var next := (front + [Right(top)]) + [Left(top)];
      assert Round(stack) == next;
      PendingOnTop(front, Right(top));
      PendingOnTop(front + [Right(top)], Left(top));
      Associative(Flatten(Left(top)), Flatten(Right(top)), Pending(front));
      assert Pending(next) == Pending(stack);
    }
  }
}
