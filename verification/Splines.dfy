/** Flattening a polyline into a smooth one: adaptive subdivision of quadratic
    spline pieces with an explicit stack of fixed depth. */
module Splines {
  import opened RealArithmetic

  const THRESHOLD: real := 5.0
  const STACK_DEPTH: nat := 20

  datatype Vec = Vec(x: real, y: real)

  /** The four control values of a piece, as the stack stores them. */
  datatype Piece = Piece(p1: Vec, p2: Vec, p3: Vec, p4: Vec)

  function Max(a: real, b: real): real { if a < b then b else a }

  function Half(a: Vec, b: Vec): Vec { Vec((a.x + b.x) / 2.0, (a.y + b.y) / 2.0) }

  function Mid(q: Piece): Vec { Half(q.p2, q.p3) }

  predicate Near(a: Vec, b: Vec) { Abs(a.x - b.x) < THRESHOLD && Abs(a.y - b.y) < THRESHOLD }

  predicate Flat(q: Piece) { Near(q.p1, Mid(q)) && Near(Mid(q), q.p4) }

  /** The test compares both halves of the piece, on both axes. */
  lemma FlatIff(q: Piece)
    ensures var mx, my := (q.p2.x + q.p3.x) / 2.0, (q.p2.y + q.p3.y) / 2.0;
            Flat(q) <==>
              && -5.0 < q.p1.x - mx < 5.0 && -5.0 < q.p1.y - my < 5.0
              && -5.0 < mx - q.p4.x < 5.0 && -5.0 < my - q.p4.y < 5.0
  {
  }

  function Left(q: Piece): Piece { Piece(q.p1, Half(q.p1, q.p2), Half(q.p2, Mid(q)), Mid(q)) }

  function Right(q: Piece): Piece { Piece(Mid(q), Half(Mid(q), q.p3), Half(q.p3, q.p4), q.p4) }

  // ------------------------------------------------------ why it terminates

  function AxisNorm(a: real, b: real, c: real, d: real): real {
    Max(Abs(b - a), Max(Abs(c - b) / 2.0, Abs(d - c)))
  }

  /** The weighted size of the control differences. */
  function Norm(q: Piece): real {
    Max(AxisNorm(q.p1.x, q.p2.x, q.p3.x, q.p4.x), AxisNorm(q.p1.y, q.p2.y, q.p3.y, q.p4.y))
  }

  lemma AxisHalves(a: real, b: real, c: real, d: real)
    ensures var m := (b + c) / 2.0;
            && AxisNorm(a, (a + b) / 2.0, (b + m) / 2.0, m) <= AxisNorm(a, b, c, d) / 2.0
            && AxisNorm(m, (m + c) / 2.0, (c + d) / 2.0, d) <= AxisNorm(a, b, c, d) / 2.0
            && Abs(a - m) <= 2.0 * AxisNorm(a, b, c, d) && Abs(m - d) <= 2.0 * AxisNorm(a, b, c, d)
  {
  }

  /** Each split halves the norm, and a piece of norm below 2.5 is flat. */
  lemma SplitHalves(q: Piece)
    ensures Norm(Left(q)) <= Norm(q) / 2.0 && Norm(Right(q)) <= Norm(q) / 2.0
    ensures Norm(q) < 2.5 ==> Flat(q)
  {
    AxisHalves(q.p1.x, q.p2.x, q.p3.x, q.p4.x);
    AxisHalves(q.p1.y, q.p2.y, q.p3.y, q.p4.y);
    hide AxisNorm;
  }

  /** How often a norm can be halved before it is below 2.5. */
  function Halvings(n: real): nat
    decreases n.Floor
  {
    if n < 2.5 then 0 else 1 + Halvings(n / 2.0)
  }

  lemma {:induction false} HalvingsMonotone(m: real, n: real)
    requires m <= n
    ensures Halvings(m) <= Halvings(n)
    decreases n.Floor
  {
    if n >= 2.5 && m >= 2.5 {
      HalvingsMonotone(m / 2.0, n / 2.0);
    }
  }

  function Level(q: Piece): nat { Halvings(Norm(q)) }

  lemma SplitLowersLevel(q: Piece)
    requires !Flat(q)
    ensures Level(Left(q)) < Level(q) && Level(Right(q)) < Level(q)
  {
    SplitHalves(q);
    HalvingsMonotone(Norm(Left(q)), Norm(q) / 2.0);
    HalvingsMonotone(Norm(Right(q)), Norm(q) / 2.0);
    hide Norm, Flat;
  }

  // ------------------------------------------------ what a run of it produces

  /** The points a piece contributes, before they are truncated. */
  function Flatten(q: Piece): seq<Vec>
    decreases Level(q)
  {
    if Flat(q) then [q.p1, Mid(q)]
    else SplitLowersLevel(q); Flatten(Left(q)) + Flatten(Right(q))
  }

  /** The stack slots that processing a piece takes. */
  function Slots(q: Piece): nat
    decreases Level(q)
  {
    if Flat(q) then 1
    else
      SplitLowersLevel(q);
      var l, r := 1 + Slots(Left(q)), Slots(Right(q));
      if l < r then r else l
  }

  /** The loop rounds that processing a piece takes. */
  function Rounds(q: Piece): nat
    decreases Level(q)
  {
    if Flat(q) then 1 else SplitLowersLevel(q); 1 + Rounds(Left(q)) + Rounds(Right(q))
  }

  // ------------------------------------------------------- the stack bound

  lemma {:induction false} SlotsWithinLevel(q: Piece)
    ensures 1 <= Slots(q) <= Level(q) + 1
    decreases Level(q)
  {
    if !Flat(q) {
      SplitLowersLevel(q);
      SlotsWithinLevel(Left(q));
      SlotsWithinLevel(Right(q));
      hide Flat, Level;
    }
  }

  /** 2.5 times 2 to the power of l. */
  function Size(l: nat): real { if l == 0 then 2.5 else 2.0 * Size(l - 1) }

  lemma {:induction false} HalvingsBelow(n: real, l: nat)
    requires n < Size(l)
    ensures Halvings(n) <= l
    decreases l
  {
    if n >= 2.5 {
      HalvingsBelow(n / 2.0, l - 1);
    }
  }

  // ------------------------------------------------------------ polylines

  datatype Pixel = Pixel(x: int, y: int)

  function ToVec(p: Pixel): Vec { Vec(p.x as real, p.y as real) }

  /** The piece that rounds the corner at `b`. */
  function Corner(a: Vec, b: Vec, c: Vec): Piece {
    var p1, p4 := Half(a, b), Half(b, c);
    Piece(p1, Half(p1, b), Half(b, p4), p4)
  }

  function CornerAt(pts: seq<Pixel>, i: int): Piece
    requires 1 <= i < |pts| - 1
  {
    Corner(ToVec(pts[i - 1]), ToVec(pts[i]), ToVec(pts[i + 1]))
  }

  /** All points emitted for the corners 1..n. */
  function Corners(pts: seq<Pixel>, n: int): seq<Vec>
    requires n < |pts| - 1
    decreases n
  {
    if n < 1 then [] else Corners(pts, n - 1) + Flatten(CornerAt(pts, n))
  }

  /** The whole smooth line, before truncation: the first point, the corners,
      the middle of the last link and the last point. */
  function SmoothLine(pts: seq<Pixel>): seq<Vec>
    requires |pts| >= 2
  {
    var n := |pts|;
    [ToVec(pts[0])] + Corners(pts, n - 2) + [Half(ToVec(pts[n - 2]), ToVec(pts[n - 1])), ToVec(pts[n - 1])]
  }

  /** Steps of less than `d` per axis. */
  predicate Steps(a: Vec, b: Vec, d: real) { Abs(a.x - b.x) < d && Abs(a.y - b.y) < d }

  lemma AxisCorner(a: real, b: real, c: real, d: real)
    requires Abs(a - b) < d && Abs(b - c) < d
    ensures var p, q := (a + b) / 2.0, (b + c) / 2.0; AxisNorm(p, (p + b) / 2.0, (b + q) / 2.0, q) < d / 4.0
  {
  }

  /** A polyline whose consecutive points differ by less than 5 * 2^20 per axis
      never needs more than the 20 slots. */
  lemma StackSuffices(a: Vec, b: Vec, c: Vec)
    requires Steps(a, b, 5242880.0) && Steps(b, c, 5242880.0)
    ensures Slots(Corner(a, b, c)) <= 20
  {
    var q := Corner(a, b, c);
    AxisCorner(a.x, b.x, c.x, 5242880.0);
    AxisCorner(a.y, b.y, c.y, 5242880.0);
    SizeNineteen();
    HalvingsBelow(Norm(q), 19);
    SlotsWithinLevel(q);
  }

  /** Consecutive points differ by less than d per axis. */
  predicate ShortSteps(pts: seq<Pixel>, d: real) {
    forall i :: 0 <= i < |pts| - 1 ==> Steps(ToVec(pts[i]), ToVec(pts[i + 1]), d)
  }

  /** So every corner of such a polyline fits the stack, which is what the driver
      over a whole polyline asks for. */
  lemma PolylineFits(pts: seq<Pixel>)
    requires ShortSteps(pts, 5242880.0)
    ensures forall i :: 1 <= i < |pts| - 1 ==> Slots(CornerAt(pts, i)) <= 20
  {
    hide Slots, Steps;
    forall i | 1 <= i < |pts| - 1
      ensures Slots(CornerAt(pts, i)) <= 20
    {
      assert Steps(ToVec(pts[i - 1]), ToVec(pts[i - 1 + 1]), 5242880.0);
      StackSuffices(ToVec(pts[i - 1]), ToVec(pts[i]), ToVec(pts[i + 1]));
    }
  }

  lemma SizeNineteen()
    ensures Size(19) == 1310720.0
  {
    assert Size(4) == 40.0;
    assert Size(8) == 640.0;
    assert Size(12) == 10240.0;
    assert Size(16) == 163840.0;
  }

  /** A straight level piece: three steps of h, 2h and h. */
  function Straight(a: real, h: real): Piece {
    Piece(Vec(a, 0.0), Vec(a + h, 0.0), Vec(a + 3.0 * h, 0.0), Vec(a + 4.0 * h, 0.0))
  }

  lemma StraightSplits(a: real, h: real)
    requires h >= 0.0
    ensures Left(Straight(a, h)) == Straight(a, h / 2.0)
    ensures Right(Straight(a, h)) == Straight(a + 2.0 * h, h / 2.0)
    ensures Flat(Straight(a, h)) <==> h < 2.5
  {
  }

  lemma SlotsStep(q: Piece)
    ensures Slots(q) == if Flat(q) then 1 else MaxNat(1 + Slots(Left(q)), Slots(Right(q)))
  {
  }

  lemma {:induction false} StraightSlots(a: real, l: nat)
    ensures Slots(Straight(a, Size(l))) == l + 2
    decreases l
  {
    hide Slots, Flat, Left, Right, Straight;
    var h := Size(l);
    SizePositive(l);
    StraightSplits(a, h);
    SlotsStep(Straight(a, h));
    if l == 0 {
      StraightSplits(a, h / 2.0);
      StraightSplits(a + 2.0 * h, h / 2.0);
      SlotsStep(Straight(a, h / 2.0));
      SlotsStep(Straight(a + 2.0 * h, h / 2.0));
    } else {
      StraightSlots(a, l - 1);
      StraightSlots(a + 2.0 * h, l - 1);
    }
  }

  lemma {:induction false} SizePositive(l: nat)
    ensures Size(l) >= 2.5
  {
    if l > 0 { SizePositive(l - 1); }
  }

  /** The bound is tight: three points 5 * 2^20 pixels apart on a level line
      need a 21st slot. */
  lemma StackBoundIsTight()
    ensures Slots(CornerAt([Pixel(0, 0), Pixel(5242880, 0), Pixel(10485760, 0)], 1)) == 21
  {
    hide Slots, Size;
    SizeNineteen();
    StraightSlots(2621440.0, 19);
    LevelCorner();
  }

  lemma LevelCorner()
    ensures CornerAt([Pixel(0, 0), Pixel(5242880, 0), Pixel(10485760, 0)], 1) == Straight(2621440.0, 1310720.0)
  {
  }

  /** The piece with its axes exchanged. */
  function Transposed(q: Piece): Piece {
    Piece(Flipped(q.p1), Flipped(q.p2), Flipped(q.p3), Flipped(q.p4))
  }

  function Flipped(v: Vec): Vec { Vec(v.y, v.x) }

  lemma TransposedStep(q: Piece)
    ensures Flat(Transposed(q)) <==> Flat(q)
    ensures Left(Transposed(q)) == Transposed(Left(q)) && Right(Transposed(q)) == Transposed(Right(q))
    ensures Mid(Transposed(q)) == Flipped(Mid(q)) && Transposed(q).p1 == Flipped(q.p1)
  {
  }

  /** Neither the stack that a piece needs nor the points it contributes depend on
      which axis is which. */
  lemma {:induction false} AxesAlike(q: Piece)
    ensures Slots(Transposed(q)) == Slots(q)
    ensures |Flatten(Transposed(q))| == |Flatten(q)|
    ensures forall k :: 0 <= k < |Flatten(q)| ==> Flatten(Transposed(q))[k] == Flipped(Flatten(q)[k])
    decreases Level(q)
  {
    hide Level, Flat, Left, Right, Mid, Transposed;
    TransposedStep(q);
    if !Flat(q) {
      SplitLowersLevel(q);
      AxesAlike(Left(q));
      AxesAlike(Right(q));
    }
  }

  /** So three points as far apart on an upright line need a 21st slot too. */
  lemma UprightBoundIsTight()
    ensures Slots(CornerAt([Pixel(0, 0), Pixel(0, 5242880), Pixel(0, 10485760)], 1)) == 21
  {
    hide *;
    StackBoundIsTight();
    LevelCorner();
    UprightCorner();
    AxesAlike(Straight(2621440.0, 1310720.0));
  }

  lemma UprightCorner()
    ensures CornerAt([Pixel(0, 0), Pixel(0, 5242880), Pixel(0, 10485760)], 1)
            == Transposed(Straight(2621440.0, 1310720.0))
  {
  }

  // ----------------------------------------------- the height of a whole run

  /** One loop round on a stack whose top is its last element. */
  function Round(stack: seq<Piece>): seq<Piece>
    requires stack != []
  {
    var front, q := stack[..|stack| - 1], stack[|stack| - 1];
    if Flat(q) then front else front + [Right(q), Left(q)]
  }

  function AllRounds(stack: seq<Piece>): nat {
    if stack == [] then 0 else AllRounds(stack[..|stack| - 1]) + Rounds(stack[|stack| - 1])
  }

  lemma RoundLowersRounds(stack: seq<Piece>)
    requires stack != []
    ensures AllRounds(Round(stack)) < AllRounds(stack)
  {
    var front, q := stack[..|stack| - 1], stack[|stack| - 1];
    RoundsPositive(q);
    if !Flat(q) {
      assert Round(stack)[..|front| + 1] == front + [Right(q)];
      assert (front + [Right(q)])[..|front|] == front;
      assert AllRounds(front + [Right(q)]) == AllRounds(front) + Rounds(Right(q));
    }
  }

  lemma RoundsPositive(q: Piece)
    ensures Rounds(q) > 0
  {
  }

  /** The greatest height the stack reaches in a run from `stack`. */
  function Peak(stack: seq<Piece>): nat
    decreases AllRounds(stack)
  {
    if stack == [] then 0
    else
      RoundLowersRounds(stack);
      var later := Peak(Round(stack));
      if later < |stack| then |stack| else later
  }

  function MaxNat(a: nat, b: nat): nat { if a < b then b else a }

  lemma PeakStep(front: seq<Piece>, q: Piece)
    ensures Peak(front + [q]) == MaxNat(|front| + 1,
              Peak(if Flat(q) then front else (front + [Right(q)]) + [Left(q)]))
  {
    var stack := front + [q];
    assert stack[..|front|] == front;
    RoundLowersRounds(stack);
    assert Round(stack) == if Flat(q) then front else (front + [Right(q)]) + [Left(q)];
  }

  lemma {:induction false} PeakOnTop(front: seq<Piece>, q: Piece)
    ensures Peak(front + [q]) == MaxNat(|front| + Slots(q), Peak(front))
    decreases Level(q)
  {
    hide Peak, Slots, Flat, Left, Right, Level;
    PeakStep(front, q);
    SlotsStep(q);
    if Flat(q) {
      PeakAtLeastHeight(front);
    } else {
      SplitLowersLevel(q);
      SlotsWithinLevel(Left(q));
      PeakOnTop(front + [Right(q)], Left(q));
      PeakOnTop(front, Right(q));
    }
  }

  lemma PeakAtLeastHeight(stack: seq<Piece>)
    ensures Peak(stack) >= |stack|
  {
  }

  /** The slot count is exact: it is the height the run really reaches, so a
      stack of 20 overflows if and only if it exceeds 20. */
  lemma SlotsIsPeak(q: Piece)
    ensures Peak([q]) == Slots(q)
  {
    hide Peak, Slots;
    NoPeak();
    PeakOnTop([], q);
    assert [] + [q] == [q];
  }

  lemma NoPeak()
    ensures Peak([]) == 0
  {
  }
}
