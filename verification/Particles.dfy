/** The particle animation: one pass over the particles, the control of their
    number, and the ring buffers of past positions that make their trails. */
module Particles {
  const MAX_HISTORY := 8
  const RUN_COUNT := 6
  const MAX_DURATION := 50
  const NOWHERE := -10000.0

  datatype Position = Position(x: real, y: real)

  /** history is a fixed-size buffer; size counts its live slots; pos is the
      newest one. */
  datatype Particle = Particle(duration: int, pos: nat, size: nat, run: nat, history: seq<Position>)

  /** What the flow, the viewport and chance decide for a particle: it moves, it
      has left the viewport and is put elsewhere, or it fades. */
  datatype Fate = Move(to: Position) | Respawn(to: Position) | Fade

  /** The buffer of a particle while it is drawn with h slots. */
  predicate Ring(p: Particle, h: nat) {
    && 1 <= h <= 8 == |p.history|
    && 1 <= p.size <= h
    && p.pos < h
    && (p.size == h || p.pos == p.size - 1)
  }

  ghost predicate Alive(p: Particle, h: nat) {
    && Ring(p, h) && p.run < RUN_COUNT && 0 <= p.duration <= MAX_DURATION + 1
    && Fading(p, h)
  }

  // ------------------------------------------------------------ one particle

  function Cleared(history: seq<Position>): (r: seq<Position>)
    ensures |r| == |history| && forall k :: 0 <= k < |r| ==> r[k] == Position(NOWHERE, history[k].y)
  {
    seq(|history|, k requires 0 <= k < |history| => Position(NOWHERE, history[k].y))
  }

  /** The particle after an update that decides its fate. */
  function Advanced(p: Particle, fate: Fate, h: nat): Particle
    requires Ring(p, h)
  {
    var n := if p.pos + 1 >= h then 0 else p.pos + 1;
    var q := p.(duration := p.duration + 1, run := 0, size := if p.size + 1 > h then h else p.size + 1, pos := n);
    match fate
    case Move(to) => q.(history := p.history[n := to])
    case Fade => q.(history := p.history[n := Position(NOWHERE, p.history[n].y)])
    case Respawn(to) => q.(size := 1, pos := 0, history := Cleared(p.history[n := to]))
  }

  /** Towards the end of its life a particle always fades. */
  predicate Possible(p: Particle, fate: Fate, h: nat) {
    p.duration + 1 >= MAX_DURATION - h ==> fate.Fade?
  }

  predicate Retires(p: Particle) {
    p.run + 1 >= RUN_COUNT && p.duration > MAX_DURATION
  }

  /** What one pass makes of a particle that stays: five times out of six it only
      waits; else it is updated, and fades from the time when its age and the length
      of its trail come to 50, whatever would have been its fate. */
  function PassedWith(p: Particle, fate: Fate, h: nat): Particle
    requires Ring(p, h)
  {
    if p.run + 1 < 6 then p.(run := p.run + 1)
    else Advanced(p, if p.duration + 1 + h >= 50 then Fade else fate, h)
  }

  ghost predicate Passed(p: Particle, q: Particle, h: nat)
    requires Ring(p, h)
  {
    exists fate :: q == PassedWith(p, fate, h)
  }

  lemma FatePasses(p: Particle, fate: Fate, h: nat)
    requires Ring(p, h)
    ensures Passed(p, PassedWith(p, fate, h), h)
  {
  }

  /** The update as the program does it: the new slot is written through a
      reference into the buffer, before the buffer is cleared. */
  method Advance(p: Particle, fate: Fate, h: nat) returns (q: Particle)
    requires Ring(p, h)
    ensures q == Advanced(p, fate, h)
  {
    q := p.(run := 0, duration := p.duration + 1, size := p.size + 1);
    if q.size > h {
      q := q.(size := h);
    }
    q := q.(pos := q.pos + 1);
    if q.pos >= h {
      q := q.(pos := 0);
    }
    var n := q.pos;
    match fate
    case Move(to) =>
      q := q.(history := q.history[n := to]);
    case Fade =>
      q := q.(history := q.history[n := q.history[n].(x := NOWHERE)]);
    case Respawn(to) =>
      q := q.(history := q.history[n := to]);
      ghost var placed := q.history;
      var k := 0;
      while k < MAX_HISTORY
        invariant 0 <= k <= MAX_HISTORY == |q.history|
        invariant q == Advanced(p, fate, h).(history := q.history, size := q.size, pos := q.pos)
        invariant forall i :: 0 <= i < |placed| ==>
                    q.history[i] == if i < k then Position(NOWHERE, placed[i].y) else placed[i]
      {
        q := q.(history := q.history[k := q.history[k].(x := NOWHERE)]);
        k := k + 1;
      }
      q := q.(size := 1, pos := 0);
      q := q.(history := q.history[n := Position(q.history[n].x, q.history[n].y)]);
      assert q.history == Cleared(placed);
  }

  /** A particle put elsewhere in the viewport loses its new place: the clearing
      of the old trail goes over it, and no slot holds a position. */
  lemma RespawnLosesPlace(p: Particle, to: Position, h: nat)
    requires Ring(p, h)
    ensures forall k :: 0 <= k < 8 ==> Advanced(p, Respawn(to), h).history[k].x == -10000.0
  {
  }

  /** After an update the newest slot holds a position if and only if the particle
      moved, to a position. In particular one put elsewhere shows nothing there. */
  lemma NewestShownIff(p: Particle, fate: Fate, h: nat)
    requires Ring(p, h)
    ensures var q := Advanced(p, fate, h);
            q.pos < |q.history| && (q.history[q.pos].x != -10000.0 <==> fate.Move? && fate.to.x != -10000.0)
  {
  }

  // ------------------------------------------------------------ the trail

  /** The live positions of a particle, newest first. */
  function Trail(p: Particle, h: nat): (t: seq<Position>)
    requires Ring(p, h)
  {
    seq(p.size, k requires 0 <= k < p.size => p.history[SlotOfAge(p, h, k)])
  }

  function SlotOfAge(p: Particle, h: nat, k: nat): (slot: nat)
    requires Ring(p, h) && k < p.size
    ensures slot < p.size
  {
    if k <= p.pos then p.pos - k else p.pos - k + h
  }

  /** The buffer is a queue of bounded length: an update puts the new position in
      front and drops the oldest when there are h already. */
  lemma UpdateExtendsTrail(p: Particle, fate: Fate, h: nat)
    requires Ring(p, h) && !fate.Respawn?
    ensures var q := Advanced(p, fate, h);
            && Ring(q, h)
            && (fate.Move? ==> q.history[q.pos] == fate.to)
            && Trail(q, h) == [q.history[q.pos]] + Trail(p, h)[..q.size - 1]
  {
    var q := Advanced(p, fate, h);
    var t := [q.history[q.pos]] + Trail(p, h)[..q.size - 1];
    forall k | 0 <= k < q.size
      ensures Trail(q, h)[k] == t[k]
    {
      if k > 0 {
        assert SlotOfAge(q, h, k) == SlotOfAge(p, h, k - 1);
        assert SlotOfAge(q, h, k) != q.pos;
      }
    }
  }

  lemma RespawnEndsTrail(p: Particle, to: Position, h: nat)
    requires Ring(p, h)
    ensures var q := Advanced(p, Respawn(to), h);
            Ring(q, h) && |Trail(q, h)| == 1 && Trail(q, h)[0].x == NOWHERE
  {
  }

  /** The newest positions, as many as there were updates at the end of life,
      are gone. */
  ghost predicate Fading(p: Particle, h: nat)
    requires Ring(p, h)
  {
    forall k :: 0 <= k < p.size && k <= p.duration - (MAX_DURATION - h) ==> Trail(p, h)[k].x == NOWHERE
  }

  lemma FadingKept(p: Particle, fate: Fate, h: nat)
    requires Ring(p, h) && Fading(p, h) && Possible(p, fate, h)
    ensures Ring(Advanced(p, fate, h), h) && Fading(Advanced(p, fate, h), h)
  {
    if fate.Respawn? {
      RespawnEndsTrail(p, fate.to, h);
    } else {
      UpdateExtendsTrail(p, fate, h);
    }
  }

  /** A particle that retires has no position left to draw. */
  lemma RetiresInvisible(p: Particle, h: nat)
    requires Alive(p, h) && Retires(p)
    ensures forall k :: 0 <= k < p.size ==> Trail(p, h)[k].x == NOWHERE
  {
  }

  /** The number of passes a particle still has before the one that retires it. */
  function Remaining(p: Particle): int {
    (51 - p.duration) * 6 + (5 - p.run)
  }

  /** A particle retires in exactly the pass its count foretells. */
  lemma LifetimeForetold(p: Particle, q: Particle, h: nat)
    requires Alive(p, h)
    ensures Retires(p) <==> Remaining(p) == 0
    ensures !Retires(p) && Passed(p, q, h) ==> Alive(q, h) && Remaining(q) == Remaining(p) - 1
  {
    if !Retires(p) && Passed(p, q, h) {
      if p.run + 1 < RUN_COUNT {
        assert forall k :: 0 <= k < p.size ==> Trail(q, h)[k] == Trail(p, h)[k];
      } else {
        var fate :| q == PassedWith(p, fate, h);
        FadingKept(p, if p.duration + 1 + h >= 50 then Fade else fate, h);
      }
    }
  }

  datatype Walk = At(slot: int) | Ended

  /** The step from one visited slot to the next. */
  function NextSlot(p: Particle, h: nat, i: int): Walk {
    if i - 1 < 0 then
      if h - 1 >= p.size || h - 1 == p.pos then Ended else At(h - 1)
    else if i - 1 == p.pos then Ended
    else At(i - 1)
  }

  /** The loop that draws a trail visits each live slot once, newest to oldest. */
  method WalkTrail(p: Particle, h: nat) returns (visited: seq<nat>)
    requires Ring(p, h)
    ensures |visited| == p.size
    ensures forall k :: 0 <= k < p.size ==> visited[k] == SlotOfAge(p, h, k)
    ensures forall k, m :: 0 <= k < m < p.size ==> visited[k] != visited[m]
  {
    visited := [];
    var i: int := p.pos;
    while true
      invariant |visited| < p.size && i == SlotOfAge(p, h, |visited|)
      invariant forall k :: 0 <= k < |visited| ==> visited[k] == SlotOfAge(p, h, k)
      decreases p.size - |visited|
    {
      visited := visited + [i];
      i := i - 1;
      if i < 0 {
        i := h - 1;
        if i >= p.size {
          break;
        }
      }
      if i == p.pos {
        break;
      }
    }
  }

  /** Where the walk is after n steps. */
  function WalkAfter(p: Particle, h: nat, n: nat): Walk {
    if n == 0 then At(p.pos)
    else
      match WalkAfter(p, h, n - 1)
      case Ended => Ended
      case At(i) => NextSlot(p, h, i)
  }

  /** Whatever the buffer holds, the walk ends if and only if the newest slot is
      below the history length or the buffer is not yet full; so it is the
      constant history length that makes drawing terminate. */
  lemma WalkEndsIff(p: Particle, h: nat)
    requires h > 0
    ensures (exists n: nat :: WalkAfter(p, h, n).Ended?) <==> p.pos < h || p.size < h
  {
    WalkDown(p, h, p.pos);
    if p.size < h {
      assert WalkAfter(p, h, p.pos + 1).Ended?;
    } else if p.pos < h {
      if p.pos == h - 1 {
        assert WalkAfter(p, h, p.pos + 1).Ended?;
      } else {
        WalkFromTop(p, h, h - 1 - p.pos);
        assert WalkAfter(p, h, p.pos + 1 + (h - 1 - p.pos)).Ended?;
      }
    } else {
      forall n: nat
        ensures !WalkAfter(p, h, n).Ended?
      {
        WalkNeverEnds(p, h, n);
      }
    }
  }

  lemma {:induction false} WalkDown(p: Particle, h: nat, n: nat)
    requires n <= p.pos
    ensures WalkAfter(p, h, n) == At(p.pos - n)
  {
    if n > 0 {
      WalkDown(p, h, n - 1);
    }
  }

  lemma {:induction false} WalkFromTop(p: Particle, h: nat, n: nat)
    requires p.pos < h - 1 && h <= p.size && 1 <= n <= h - 1 - p.pos
    ensures WalkAfter(p, h, p.pos + 1 + n) == if n == h - 1 - p.pos then Ended else At(h - 1 - n)
    decreases n
  {
    WalkDown(p, h, p.pos);
    assert WalkAfter(p, h, p.pos + 1) == At(h - 1);
    if n > 1 {
      WalkFromTop(p, h, n - 1);
    }
  }

  lemma {:induction false} WalkNeverEnds(p: Particle, h: nat, n: nat)
    requires h > 0 && p.pos >= h && p.size >= h
    ensures WalkAfter(p, h, n).At? && 0 <= WalkAfter(p, h, n).slot
    ensures WalkAfter(p, h, n).slot == p.pos - n || WalkAfter(p, h, n).slot < h
  {
    if n > 0 {
      WalkNeverEnds(p, h, n - 1);
    }
  }

  // ------------------------------------------------------------ all particles

  /** Integer division as the program's language does it, towards zero. */
  function Divide(a: int, b: int): int
    requires b > 0
  {
    if a >= 0 then a / b else -((-a) / b)
  }

  /** The population after one control step in which every spawn succeeds. */
  function Controlled(count: int, target: int): int {
    var removed := Divide(count - target, 16);
    var left := if removed > 0 then count - removed else count;
    var spawned := Divide(target - left, 64);
    if spawned > 0 then left + spawned else left
  }

  /** The control never overshoots the target, and leaves the population as it is
      exactly in the band from 63 below to 15 above the target. */
  lemma ControlApproaches(count: int, target: int)
    ensures count >= target ==> target <= Controlled(count, target) <= count
    ensures count <= target ==> count <= Controlled(count, target) <= target
    ensures Controlled(count, target) == count <==> -64 < count - target < 16
  {
  }

  function ControlledTimes(count: int, target: int, n: nat): int
    decreases n
  {
    if n == 0 then count else ControlledTimes(Controlled(count, target), target, n - 1)
  }

  function Distance(count: int, target: int): nat {
    if count >= target then count - target else target - count
  }

  /** Repeated control brings every population into that band, and no further
      than its distance from the target in steps. */
  lemma {:induction false} ControlConverges(count: int, target: int, n: nat)
    requires n >= Distance(count, target)
    ensures -64 < ControlledTimes(count, target, n) - target < 16
    decreases n
  {
    ControlApproaches(count, target);
    var next := Controlled(count, target);
    if n > 0 {
      if next == count {
        ControlSettled(count, target, n);
      } else {
        ControlConverges(next, target, n - 1);
      }
    }
  }

  lemma {:induction false} ControlSettled(count: int, target: int, n: nat)
    requires Controlled(count, target) == count
    ensures ControlledTimes(count, target, n) == count
    decreases n
  {
    if n > 0 {
      ControlSettled(count, target, n - 1);
    }
  }

  /** How many of these particles are updated in the pass. */
  ghost function Updates(before: seq<Particle>, origin: seq<nat>): nat
    requires forall i :: 0 <= i < |origin| ==> origin[i] < |before|
  {
    if origin == [] then 0
    else
      var n := |origin| - 1;
      Updates(before, origin[..n]) + if before[origin[n]].run + 1 >= 6 then 1 else 0
  }

  /** Each particle that was there and does not retire is here once, having gone
      through exactly one pass, the updated ones with the fates in turn; nothing else
      is here. */
  ghost predicate OnePass(before: seq<Particle>, after: seq<Particle>, origin: seq<nat>, fates: nat -> Fate, h: nat)
    requires forall k :: 0 <= k < |before| ==> Ring(before[k], h)
  {
    && |origin| == |after|
    && (forall i :: 0 <= i < |origin| ==> origin[i] < |before|)
    && (forall i :: 0 <= i < |origin| ==> HasPassed(before, after, origin, fates, h, i))
    && (forall i, m :: 0 <= i < m < |origin| ==> origin[i] != origin[m])
    && (forall k :: 0 <= k < |before| && !Retires(before[k]) ==> k in origin)
  }

  ghost predicate HasPassed(before: seq<Particle>, after: seq<Particle>, origin: seq<nat>, fates: nat -> Fate,
                            h: nat, i: nat)
    requires i < |origin| && i < |after| && forall k :: 0 <= k < |origin| ==> origin[k] < |before|
    requires forall k :: 0 <= k < |before| ==> Ring(before[k], h)
  {
    && !Retires(before[origin[i]])
    && after[i] == PassedWith(before[origin[i]], fates(Updates(before, origin[..i])), h)
  }

  /** What a try to add a particle finds: a place, a random number for its age, and
      where the flow leads from there. */
  datatype Start = Start(at: Position, seed: nat, path: nat -> Position, garbage: nat -> Position)

  datatype Try = Fails | Finds(start: Start)

  /** The number of tries before the n-th that find a place. */
  function Successes(tries: nat -> Try, n: nat): nat {
    if n == 0 then 0 else Successes(tries, n - 1) + if tries(n - 1).Finds? then 1 else 0
  }

  lemma {:induction false} SuccessesMonotone(tries: nat -> Try, m: nat, n: nat)
    requires m < n && tries(m).Finds?
    ensures Successes(tries, m) < Successes(tries, n)
    decreases n
  {
    if m < n - 1 {
      SuccessesMonotone(tries, m, n - 1);
    }
  }

  lemma {:induction false} SuccessesBound(tries: nat -> Try, n: nat)
    ensures Successes(tries, n) <= n
    ensures (forall m: nat :: m < n ==> tries(m).Finds?) ==> Successes(tries, n) == n
  {
    if n > 0 {
      SuccessesBound(tries, n - 1);
    }
  }

  /** The particle is new: as old as the random number says, its trail complete, its
      turn to be updated given by its number. */
  ghost predicate Begins(q: Particle, start: Start, number: nat, h: nat) {
    && Alive(q, h) && q.size == h && q.duration == start.seed % 25 && q.run == number % 6
    && Trail(q, h)[h - 1] == start.at
    && forall k :: 0 <= k < h - 1 ==> Trail(q, h)[k] == start.path(h - 1 - k)
  }

  /** The runs that new particles begin with go round from 0 to 5. */
  predicate Turn(run: nat, number: nat) { run == number % 6 }

  lemma NextTurn(run: nat, number: nat)
    requires Turn(run, number)
    ensures run < 6 && Turn(if run + 1 == 6 then 0 else run + 1, number + 1)
  {
  }

  /** A new particle, its buffer filled by going through the flow h - 1 times. */
  method Spawn(start: Start, run: nat, h: nat, ghost number: nat) returns (q: Particle)
    requires 1 <= h <= MAX_HISTORY && Turn(run, number)
    ensures Begins(q, start, number, h) && Alive(q, h)
  {
    var p := start.at;
    var duration := start.seed % (MAX_DURATION / 2);
    q := Particle(duration, 0, 1, run, seq(MAX_HISTORY, start.garbage)[0 := p]);
    var k := 1;
    while k < h && k < MAX_HISTORY
      invariant 1 <= k <= h
      invariant q == Particle(duration, k - 1, k, run, q.history) && |q.history| == MAX_HISTORY
      invariant q.history[0] == p && forall i :: 1 <= i < k ==> q.history[i] == start.path(i)
    {
      q := q.(history := q.history[k := start.path(k)], size := k + 1, pos := k);
      k := k + 1;
    }
  }

  /** The vector after n tries: what was there, and behind it, in order, a new
      particle for each try that found a place. */
  ghost predicate Added(before: seq<Particle>, now: seq<Particle>, tries: nat -> Try, n: nat, h: nat) {
    && |now| == |before| + Successes(tries, n)
    && now[..|before|] == before
    && forall m :: 0 <= m < n && tries(m).Finds? ==>
         && |before| + Successes(tries, m) < |now|
         && Begins(now[|before| + Successes(tries, m)], tries(m).start, Successes(tries, m), h)
  }

  class ParticleMap {
    var particles: seq<Particle>

    ghost predicate Valid(h: nat)
      reads this
    {
      forall k :: 0 <= k < |particles| ==> Alive(particles[k], h)
    }

    constructor ()
      ensures particles == []
    {
      particles := [];
    }

    /** One pass: particles that retire are replaced by the last of the vector,
        which is then looked at in their place. */
    method UpdateAll(h: nat, fates: nat -> Fate) returns (ghost origin: seq<nat>)
      requires Valid(h)
      modifies this
      ensures Valid(h)
      ensures OnePass(old(particles), particles, origin, fates, h)
    {
      hide Underway, Updates;
      ghost var before := particles;
      origin := seq(|before|, k => k);
      UnderwayStarts(before, origin, fates, h);
      var i, turn := 0, 0;
      while i < |particles|
        invariant 0 <= i <= |particles| == |origin|
        invariant Underway(before, particles, origin, fates, i, turn, h)
        decreases |particles| - i
      {
        UnderwayNext(before, particles, origin, fates, i, turn, h);
        var it := particles[i];
        it := it.(run := it.run + 1);
        if it.run < RUN_COUNT {
          UnderwayStays(before, particles, origin, fates, i, turn, it, h);
          particles := particles[i := it];
          i := i + 1;
        } else if it.duration > MAX_DURATION {
          var last := |particles| - 1;
          UnderwayRemoves(before, particles, origin, fates, i, turn, h);
          particles := particles[i := particles[last]];
          particles := particles[..last];
          origin := origin[i := origin[last]][..last];
        } else {
          var fate := fates(turn);
          if particles[i].duration + 1 >= MAX_DURATION - h {
            fate := Fade;
          }
          it := Advance(particles[i], fate, h);
          UnderwayStays(before, particles, origin, fates, i, turn, it, h);
          particles := particles[i := it];
          turn := turn + 1;
          i := i + 1;
        }
      }
      UnderwayEnds(before, particles, origin, fates, turn, h);
    }

    /** Takes particles off the end of the vector. */
    method Remove(remove: int)
      requires remove <= |particles|
      modifies this
      ensures particles == old(particles)[..|old(particles)| - if remove > 0 then remove else 0]
    {
      var n := 0;
      while n < remove
        invariant 0 <= n && (n <= remove || n == 0)
        invariant n <= |old(particles)| && particles == old(particles)[..|old(particles)| - n]
      {
        particles := particles[..|particles| - 1];
        n := n + 1;
      }
    }

    /** Adds a particle at the end of it for each try that finds a place. */
    method SpawnSome(newCount: int, h: nat, tries: nat -> Try)
      requires Valid(h) && 1 <= h <= MAX_HISTORY
      modifies this
      ensures Valid(h)
      ensures Added(old(particles), particles, tries, if newCount > 0 then newCount else 0, h)
    {
      hide Alive, Begins, Added, Successes, Turn;
      var run := 0;
      var npi := 0;
      AddedNone(particles, tries, h);
      while npi < newCount
        invariant 0 <= npi && (npi <= newCount || npi == 0)
        invariant Turn(run, Successes(tries, npi))
        invariant Valid(h) && Added(old(particles), particles, tries, npi, h)
      {
        match tries(npi) {
          case Fails =>
            AddedFails(old(particles), particles, tries, npi, h);
          case Finds(start) =>
            var np := Spawn(start, run, h, Successes(tries, npi));
            AddedFinds(old(particles), particles, tries, npi, np, h);
            NextTurn(run, Successes(tries, npi));
            run := run + 1;
            if run == RUN_COUNT {
              run := 0;
            }
            particles := particles + [np];
        }
        npi := npi + 1;
      }
    }

    /** The number of particles is steered to the target. */
    method Control(total: nat, h: nat, tries: nat -> Try)
      requires Valid(h) && 1 <= h <= MAX_HISTORY
      modifies this
      ensures Valid(h)
      ensures |particles| <= if |old(particles)| >= total then |old(particles)| else total
      ensures |particles| <= Controlled(|old(particles)|, total)
      ensures var count := |old(particles)|;
              var kept := if count >= total + 16 then count - (count - total) / 16 else count;
              var news := if total >= kept + 64 then (total - kept) / 64 else 0;
              Added(old(particles)[..kept], particles, tries, news, h)
    {
      hide Alive, Begins, Successes;
      Remove(Divide(|particles| - total, 16));
      var newCount := Divide(total - |particles|, 64);
      SpawnSome(newCount, h, tries);
      SuccessesBound(tries, if newCount > 0 then newCount else 0);
    }
  }

  lemma AddedNone(before: seq<Particle>, tries: nat -> Try, h: nat)
    ensures Added(before, before, tries, 0, h) && Turn(0, Successes(tries, 0))
  {
  }

  lemma AddedFails(before: seq<Particle>, now: seq<Particle>, tries: nat -> Try, n: nat, h: nat)
    requires Added(before, now, tries, n, h) && tries(n).Fails?
    ensures Added(before, now, tries, n + 1, h) && Successes(tries, n + 1) == Successes(tries, n)
  {
  }

  lemma AddedFinds(before: seq<Particle>, now: seq<Particle>, tries: nat -> Try, n: nat, q: Particle, h: nat)
    requires Added(before, now, tries, n, h) && tries(n).Finds?
    requires Begins(q, tries(n).start, Successes(tries, n), h)
    ensures Added(before, now + [q], tries, n + 1, h) && Successes(tries, n + 1) == Successes(tries, n) + 1
  {
    hide Begins;
  }

  /** The pass has dealt with the first i places of the vector. */
  ghost predicate Underway(before: seq<Particle>, now: seq<Particle>, origin: seq<nat>, fates: nat -> Fate,
                           i: nat, turn: nat, h: nat)
    requires i <= |now| == |origin|
  {
    && (forall k :: 0 <= k < |before| ==> Alive(before[k], h))
    && (forall k :: 0 <= k < |origin| ==> origin[k] < |before|)
    && (forall k :: 0 <= k < i ==> HasPassed(before, now, origin, fates, h, k))
    && turn == Updates(before, origin[..i])
    && (forall k :: i <= k < |now| ==> now[k] == before[origin[k]])
    && (forall a, b :: 0 <= a < b < |origin| ==> origin[a] != origin[b])
    && (forall k :: 0 <= k < |before| && !Retires(before[k]) ==> k in origin)
  }

  lemma UnderwayStarts(before: seq<Particle>, origin: seq<nat>, fates: nat -> Fate, h: nat)
    requires forall k :: 0 <= k < |before| ==> Alive(before[k], h)
    requires |origin| == |before| && forall k :: 0 <= k < |before| ==> origin[k] == k
    ensures Underway(before, before, origin, fates, 0, 0, h)
  {
    assert forall k :: 0 <= k < |before| ==> origin[k] in origin;
    assert origin[..0] == [];
  }

  lemma UnderwayNext(before: seq<Particle>, now: seq<Particle>, origin: seq<nat>, fates: nat -> Fate,
                     i: nat, turn: nat, h: nat)
    requires i < |now| == |origin| && Underway(before, now, origin, fates, i, turn, h)
    ensures Alive(now[i], h)
  {
  }

  lemma UnderwayStays(before: seq<Particle>, now: seq<Particle>, origin: seq<nat>, fates: nat -> Fate,
                      i: nat, turn: nat, q: Particle, h: nat)
    requires i < |now| == |origin| && Underway(before, now, origin, fates, i, turn, h)
    requires Ring(now[i], h) && !Retires(now[i]) && q == PassedWith(now[i], fates(turn), h)
    ensures Underway(before, now[i := q], origin, fates, i + 1, if now[i].run + 1 >= 6 then turn + 1 else turn, h)
  {
    hide PassedWith, Retires, Fading;
    assert origin[..i + 1][..i] == origin[..i];
    var next := now[i := q];
    forall k | 0 <= k < i + 1
      ensures HasPassed(before, next, origin, fates, h, k)
    {
      if k < i {
        assert HasPassed(before, now, origin, fates, h, k);
      }
    }
  }

  /** Moving the last element into the place of one that retires removes just it. */
  lemma UnderwayRemoves(before: seq<Particle>, now: seq<Particle>, origin: seq<nat>, fates: nat -> Fate,
                        i: nat, turn: nat, h: nat)
    requires i < |now| == |origin| && Underway(before, now, origin, fates, i, turn, h) && Retires(now[i])
    ensures var last := |now| - 1;
            Underway(before, now[i := now[last]][..last], origin[i := origin[last]][..last], fates, i, turn, h)
  {
    hide PassedWith, Retires, Fading;
    var last := |now| - 1;
    var rest, left := origin[i := origin[last]][..last], now[i := now[last]][..last];
    assert rest[..i] == origin[..i];
    forall k | 0 <= k < i
      ensures HasPassed(before, left, rest, fates, h, k)
    {
      assert HasPassed(before, now, origin, fates, h, k);
      assert rest[..k] == origin[..k];
    }
    forall k | 0 <= k < |before| && !Retires(before[k])
      ensures k in rest
    {
      var a :| 0 <= a < |origin| && origin[a] == k;
      assert rest[if a == last then i else a] == k;
    }
  }

  lemma UnderwayEnds(before: seq<Particle>, after: seq<Particle>, origin: seq<nat>, fates: nat -> Fate,
                     turn: nat, h: nat)
    requires |after| == |origin| && Underway(before, after, origin, fates, |after|, turn, h)
    ensures OnePass(before, after, origin, fates, h)
    ensures forall k :: 0 <= k < |after| ==> Alive(after[k], h)
  {
    hide PassedWith, Fading;
    forall k | 0 <= k < |after|
      ensures Alive(after[k], h)
    {
      assert HasPassed(before, after, origin, fates, h, k);
      FatePasses(before[origin[k]], fates(Updates(before, origin[..k])), h);
      LifetimeForetold(before[origin[k]], after[k], h);
    }
  }
}
