/**
  The physics of the disc game in js/main.js, as values: one disc record, the
  wall-bouncing position step (`calculate_pos`), the absorption rule
  (`handle_collision`) and the fixed-order collision sweep (`detect_collision`).
  The class in game.dfy updates an array of these records in place and is
  proved against the functions here.

  Coordinates and velocities are exact reals. Every `Math.sqrt` comparison of
  the source is replaced by the comparison of the squares (see
  SquaredTestsAgree).
*/
module Physics {

  /** The arena is [0, Wall] on both axes, in percent of the board. */
  const Wall: real := 100.0

  /** `collision_sensitivity`: two discs collide when strictly closer than this. */
  const CollisionSensitivity: real := 5.0

  /** The board always holds exactly this many discs, with fixed identities. */
  const DiscCount: nat := 4

  /** One record of `g_state`. */
  datatype Disc = Disc(x: real, y: real, xv: real, yv: real, alive: bool)

  /** The simulated part of the game: the four records and `alive_count`. */
  datatype Board = Board(discs: seq<Disc>, aliveCount: int)

  function Abs(r: real): real
  {
    if r < 0.0 then -r else r
  }

  predicate InArena(d: Disc)
  {
    0.0 <= d.x <= Wall && 0.0 <= d.y <= Wall
  }

  predicate AllInArena(s: seq<Disc>)
  {
    forall k :: 0 <= k < |s| ==> InArena(s[k])
  }

  /** Two records are at the same place (velocity and flag may differ). */
  predicate SamePlace(a: Disc, b: Disc)
  {
    a.x == b.x && a.y == b.y
  }

  /** The number of alive discs, recomputed by a full scan. */
  function CountAlive(s: seq<Disc>): (n: nat)
    ensures n <= |s|
  {
    if s == [] then 0 else (if s[0].alive then 1 else 0) + CountAlive(s[1..])
  }

  /** Replacing one record changes the count by the change of its flag. */
  lemma {:induction false} CountAliveUpdate(s: seq<Disc>, k: nat, d: Disc)
    requires k < |s|
    ensures CountAlive(s[k := d]) ==
            CountAlive(s) - (if s[k].alive then 1 else 0) + (if d.alive then 1 else 0)
  {
    if k == 0 {
      assert s[k := d][1..] == s[1..];
    } else {
      assert s[k := d][1..] == s[1..][k - 1 := d];
      CountAliveUpdate(s[1..], k - 1, d);
    }
  }

  /** The count depends on the alive flags only. */
  lemma {:induction false} CountAliveFlags(s: seq<Disc>, t: seq<Disc>)
    requires |s| == |t|
    requires forall k :: 0 <= k < |s| ==> s[k].alive == t[k].alive
    ensures CountAlive(s) == CountAlive(t)
  {
    if s != [] {
      CountAliveFlags(s[1..], t[1..]);
    }
  }

  /** One alive record is enough for a positive count. */
  lemma {:induction false} CountAliveOne(s: seq<Disc>, k: nat)
    requires k < |s| && s[k].alive
    ensures CountAlive(s) >= 1
  {
    if k > 0 {
      CountAliveOne(s[1..], k - 1);
    }
  }

  // ---------------------------------------------------------------------
  // Position step: calculate_pos
  // ---------------------------------------------------------------------

  /**
    One axis of `calculate_pos`: when the move would reach or cross a wall,
    the velocity is negated and the position stays; otherwise the position
    moves by the velocity.
  */
  function Advance(p: real, v: real): (r: (real, real))
    // exactly one of the two outcomes, chosen by the wall test
    ensures r == (p, -v) || r == (p + v, v)
    ensures v != 0.0 ==> (r == (p, -v) <==> (p + v >= Wall || p + v <= 0.0))
    // a position inside the arena stays inside, and the speed is kept
    ensures 0.0 <= p <= Wall ==> 0.0 <= r.0 <= Wall
    ensures Abs(r.1) == Abs(v)
  {
    if p + v >= Wall || p + v <= 0.0 then (p, -v) else (p + v, v)
  }

  /** `calculate_pos` for one record; the two axes are independent. */
  function StepDisc(d: Disc): (r: Disc)
    ensures !d.alive ==> r == d
    ensures r.alive == d.alive
    ensures d.alive ==> (r.x, r.xv) == Advance(d.x, d.xv) && (r.y, r.yv) == Advance(d.y, d.yv)
    ensures InArena(d) ==> InArena(r)
    ensures Abs(r.xv) == Abs(d.xv) && Abs(r.yv) == Abs(d.yv)
  {
    if !d.alive then d
    else
      var (x, xv) := Advance(d.x, d.xv);
      var (y, yv) := Advance(d.y, d.yv);
      Disc(x, y, xv, yv, true)
  }

  /** `calculate_pos` over the whole state. */
  function Step(s: seq<Disc>): (r: seq<Disc>)
    ensures |r| == |s|
    ensures forall k :: 0 <= k < |s| ==> r[k] == StepDisc(s[k])
    ensures forall k :: 0 <= k < |s| && !s[k].alive ==> r[k] == s[k]
    ensures AllInArena(s) ==> AllInArena(r)
    ensures CountAlive(r) == CountAlive(s)
  {
    var r := seq(|s|, k requires 0 <= k < |s| => StepDisc(s[k]));
    CountAliveFlags(s, r);
    r
  }

  // ---------------------------------------------------------------------
  // Absorption rule: handle_collision
  // ---------------------------------------------------------------------

  predicate OppositeX(w: Disc, l: Disc)
  {
    (w.xv > 0.0 && l.xv < 0.0) || (w.xv < 0.0 && l.xv > 0.0)
  }

  /**
    The winner's new record in `handle_collision(w, l)`. The x-test runs
    first and may negate the winner's y-velocity; the y-test then reads the
    updated value. Its second disjunct compares the winner's y-velocity with
    itself, as the source does, and so is never true.
    The ensures give the outcome in terms of the two records before the call.
  */
  function Absorb(w: Disc, l: Disc): (r: Disc)
    ensures r.x == w.x && r.y == w.y && r.alive == w.alive
    ensures OppositeX(w, l) && w.yv > 0.0 && l.yv < 0.0 ==>
              r.xv == w.xv + l.xv && r.yv == w.yv + l.yv
    ensures OppositeX(w, l) && !(w.yv > 0.0 && l.yv < 0.0) ==>
              r.xv == -(w.xv + l.xv) && r.yv == w.yv
    ensures !OppositeX(w, l) && w.yv < 0.0 && l.yv < 0.0 ==>
              r.xv == w.xv && r.yv == l.yv - w.yv
    ensures !OppositeX(w, l) && !(w.yv < 0.0 && l.yv < 0.0) ==>
              r.xv == -w.xv && r.yv == -w.yv
  {
    var d1 := if OppositeX(w, l) then w.(xv := w.xv + l.xv) else w.(yv := -w.yv);
    if (d1.yv > 0.0 && l.yv < 0.0) || (d1.yv < 0.0 && d1.yv > 0.0) then
      d1.(yv := d1.yv + l.yv)
    else
      d1.(xv := -d1.xv)
  }

  /**
    `handle_collision(d1, d2)` on the board, with `w` and `l` the indices of
    `d1` and `d2`: the winner's velocity is updated, the loser is killed with
    its position and velocity left as they were, and `alive_count` drops by
    exactly one.
  */
  function HandleCollision(b: Board, w: nat, l: nat): (r: Board)
    requires |b.discs| == DiscCount && w < DiscCount && l < DiscCount && w != l
    ensures |r.discs| == DiscCount
    ensures r.aliveCount == b.aliveCount - 1
    ensures r.discs[l] == b.discs[l].(alive := false)
    ensures r.discs[w] == Absorb(b.discs[w], b.discs[l])
    ensures forall k :: 0 <= k < DiscCount && k != w && k != l ==> r.discs[k] == b.discs[k]
    ensures b.discs[l].alive ==> CountAlive(r.discs) == CountAlive(b.discs) - 1
  {
    var s1 := b.discs[w := Absorb(b.discs[w], b.discs[l])];
    var s2 := s1[l := b.discs[l].(alive := false)];
    CountAliveUpdate(b.discs, w, s1[w]);
    CountAliveUpdate(s1, l, s2[l]);
    Board(s2, b.aliveCount - 1)
  }

  // ---------------------------------------------------------------------
  // Collision sweep: detect_collision
  // ---------------------------------------------------------------------

  /** Squared distance between two discs. */
  function DistSq(a: Disc, b: Disc): real
  {
    (a.x - b.x) * (a.x - b.x) + (a.y - b.y) * (a.y - b.y)
  }

  /** Squared speed of a disc. */
  function SpeedSq(d: Disc): real
  {
    d.xv * d.xv + d.yv * d.yv
  }

  /**
    The collision test `dist < collision_sensitivity`, on squares. It does not
    depend on which of the two discs is named first.
  */
  predicate Near(a: Disc, b: Disc)
    ensures Near(a, b) <==> DistSq(b, a) < CollisionSensitivity * CollisionSensitivity
  {
    DistSq(a, b) < CollisionSensitivity * CollisionSensitivity
  }

  /**
    The squared tests decide what the source's square-root tests decide:
    for any non-negative roots of the squared distance and speeds, the
    comparisons agree.
  */
  lemma SquaredTestsAgree(a: Disc, b: Disc, dist: real, sa: real, sb: real)
    requires dist >= 0.0 && dist * dist == DistSq(a, b)
    requires sa >= 0.0 && sa * sa == SpeedSq(a)
    requires sb >= 0.0 && sb * sb == SpeedSq(b)
    ensures (dist < CollisionSensitivity) <==> Near(a, b)
    ensures (sa >= sb) <==> (SpeedSq(a) >= SpeedSq(b))
  {
    RootsCompare(dist, CollisionSensitivity);
    RootsCompare(sa, sb);
  }

  /** For non-negative reals, `p < q` exactly when `p * p < q * q`. */
  lemma RootsCompare(p: real, q: real)
    requires p >= 0.0 && q >= 0.0
    ensures p < q <==> p * p < q * q
  {
    if p < q {
      assert q - p > 0.0;
      assert p * (q - p) >= 0.0;
      assert p * q - p * p == p * (q - p);
      assert q * q - p * q == q * (q - p) > 0.0;
    } else {
      assert p * q - q * q == q * (p - q) >= 0.0;
      assert p * p - p * q == p * (p - q) >= 0.0;
    }
  }

  predicate Colliding(b: Board, i: nat, j: nat)
    requires |b.discs| == DiscCount && i < DiscCount && j < DiscCount
  {
    b.discs[i].alive && b.discs[j].alive && Near(b.discs[i], b.discs[j])
  }

  /**
    One pass of the inner loop of `detect_collision`, on the pair (i, j):
    when both are alive and near, the disc whose speed is at least the
    other's absorbs it, so a tie goes to i, the lower index.
  */
  function Collide(b: Board, i: nat, j: nat): (r: Board)
    requires |b.discs| == DiscCount && i < j < DiscCount
    ensures |r.discs| == DiscCount
    ensures !Colliding(b, i, j) ==> r == b
    ensures Colliding(b, i, j) && SpeedSq(b.discs[i]) >= SpeedSq(b.discs[j]) ==>
              r == HandleCollision(b, i, j) && r.discs[i].alive && !r.discs[j].alive
    ensures Colliding(b, i, j) && SpeedSq(b.discs[i]) < SpeedSq(b.discs[j]) ==>
              r == HandleCollision(b, j, i) && !r.discs[i].alive && r.discs[j].alive
  {
    if Colliding(b, i, j) then
      if SpeedSq(b.discs[i]) >= SpeedSq(b.discs[j]) then HandleCollision(b, i, j)
      else HandleCollision(b, j, i)
    else
      b
  }

  /**
    One pair step changes no position, brings no disc back to life, leaves
    dead discs exactly as they were, kills only i or j and only when they
    collide, and keeps `alive_count` in step with the alive flags.
  */
  lemma CollideKeeps(b: Board, i: nat, j: nat)
    requires |b.discs| == DiscCount && i < j < DiscCount
    ensures var r := Collide(b, i, j);
      && (forall k :: 0 <= k < DiscCount ==> SamePlace(r.discs[k], b.discs[k]))
      && (forall k :: 0 <= k < DiscCount && r.discs[k].alive ==> b.discs[k].alive)
      && (forall k :: 0 <= k < DiscCount && !b.discs[k].alive ==> r.discs[k] == b.discs[k])
      && (forall k :: 0 <= k < DiscCount && b.discs[k].alive && !r.discs[k].alive ==>
            (k == i || k == j) && Colliding(b, i, j))
      && r.aliveCount - CountAlive(r.discs) == b.aliveCount - CountAlive(b.discs)
      && (CountAlive(b.discs) >= 1 ==> CountAlive(r.discs) >= 1)
  {
    if Colliding(b, i, j) {
      var w := if SpeedSq(b.discs[i]) >= SpeedSq(b.discs[j]) then i else j;
      CountAliveOne(Collide(b, i, j).discs, w);
    }
  }

  /**
    The rest of `detect_collision` from the pair (i, j) on: the rest of row
    i, then the rows i + 1, i + 2, ... up to the pair (2, 3), each row in
    ascending j.
  */
  function SweepFrom(b: Board, i: nat, j: nat): (r: Board)
    requires |b.discs| == DiscCount && i < j
    ensures |r.discs| == DiscCount
    decreases DiscCount - i, DiscCount - j
  {
    if i >= DiscCount - 1 then b
    else if j >= DiscCount then SweepFrom(b, i + 1, i + 2)
    else SweepFrom(Collide(b, i, j), i, j + 1)
  }

  /**
    What every pair step keeps holds for the rest of the sweep: positions
    are not changed, no disc comes back to life, dead discs are left exactly
    as they were, `alive_count` drops exactly when a disc dies, and a
    positive count stays positive.
  */
  lemma {:induction false} SweepFromKeeps(b: Board, i: nat, j: nat)
    requires |b.discs| == DiscCount && i < j
    ensures var r := SweepFrom(b, i, j);
      && (forall k :: 0 <= k < DiscCount ==> SamePlace(r.discs[k], b.discs[k]))
      && (forall k :: 0 <= k < DiscCount && r.discs[k].alive ==> b.discs[k].alive)
      && (forall k :: 0 <= k < DiscCount && !b.discs[k].alive ==> r.discs[k] == b.discs[k])
      && r.aliveCount - CountAlive(r.discs) == b.aliveCount - CountAlive(b.discs)
      && (CountAlive(b.discs) >= 1 ==> CountAlive(r.discs) >= 1)
    decreases DiscCount - i, DiscCount - j
  {
    if i >= DiscCount - 1 {
    } else if j >= DiscCount {
      SweepFromKeeps(b, i + 1, i + 2);
    } else {
      CollideKeeps(b, i, j);
      SweepFromKeeps(Collide(b, i, j), i, j + 1);
    }
  }

  /**
    The whole of `detect_collision`, from the pair (0, 1) on: no position
    changes, no disc comes back to life, dead discs are left exactly as they
    were, and `alive_count` falls by exactly the number of discs that die.
  */
  function Sweep(b: Board): (r: Board)
    requires |b.discs| == DiscCount
    ensures |r.discs| == DiscCount
    ensures forall k :: 0 <= k < DiscCount ==> SamePlace(r.discs[k], b.discs[k])
    ensures forall k :: 0 <= k < DiscCount && r.discs[k].alive ==> b.discs[k].alive
    ensures forall k :: 0 <= k < DiscCount && !b.discs[k].alive ==> r.discs[k] == b.discs[k]
    ensures r.aliveCount - CountAlive(r.discs) == b.aliveCount - CountAlive(b.discs)
  {
    SweepFromKeeps(b, 0, 1);
    SweepFrom(b, 0, 1)
  }

  /**
    The sweep visits the six pairs in the fixed order
    (0,1), (0,2), (0,3), (1,2), (1,3), (2,3).
  */
  lemma SweepOrder(b: Board)
    requires |b.discs| == DiscCount
    ensures Sweep(b) ==
      Collide(Collide(Collide(Collide(Collide(Collide(b, 0, 1), 0, 2), 0, 3), 1, 2), 1, 3), 2, 3)
  {
  }

  /** Disc k of `s` has another alive disc within the collision distance. */
  predicate HasNearPartner(s: seq<Disc>, k: nat)
    requires |s| == DiscCount && k < DiscCount
  {
    exists m :: 0 <= m < DiscCount && m != k && s[m].alive && Near(s[k], s[m])
  }

  /** The distance test reads only the positions. */
  lemma NearDependsOnPlace(a: Disc, b: Disc, a': Disc, b': Disc)
    requires SamePlace(a, a') && SamePlace(b, b')
    ensures Near(a, b) == Near(a', b')
  {
  }

  /** A partner that is alive after one pair step was alive, at the same place, before it. */
  lemma PartnerBeforeCollide(b: Board, i: nat, j: nat, k: nat)
    requires |b.discs| == DiscCount && i < j < DiscCount && k < DiscCount
    requires HasNearPartner(Collide(b, i, j).discs, k)
    ensures HasNearPartner(b.discs, k)
  {
    var c := Collide(b, i, j);
    CollideKeeps(b, i, j);
    var m :| 0 <= m < DiscCount && m != k && c.discs[m].alive && Near(c.discs[k], c.discs[m]);
    NearDependsOnPlace(c.discs[k], c.discs[m], b.discs[k], b.discs[m]);
    assert b.discs[m].alive;
  }

  /** A disc killed by one pair step was killed by an alive disc near it. */
  lemma KilledByCollide(b: Board, i: nat, j: nat, k: nat)
    requires |b.discs| == DiscCount && i < j < DiscCount && k < DiscCount
    requires b.discs[k].alive && !Collide(b, i, j).discs[k].alive
    ensures HasNearPartner(b.discs, k)
  {
  }

  /**
    A disc that the sweep kills was alive before the sweep and lies within
    the collision distance of another disc that was alive before the sweep.
  */
  lemma {:induction false} SweepKillsOnlyNear(b: Board, i: nat, j: nat, k: nat)
    requires |b.discs| == DiscCount && i < j && k < DiscCount
    ensures b.discs[k].alive && !SweepFrom(b, i, j).discs[k].alive ==> HasNearPartner(b.discs, k)
    decreases DiscCount - i, DiscCount - j
  {
    if i >= DiscCount - 1 {
    } else if j >= DiscCount {
      SweepKillsOnlyNear(b, i + 1, i + 2, k);
    } else {
      var c := Collide(b, i, j);
      SweepKillsOnlyNear(c, i, j + 1, k);
      if b.discs[k].alive && !SweepFrom(b, i, j).discs[k].alive {
        if !c.discs[k].alive {
          KilledByCollide(b, i, j, k);
        } else {
          PartnerBeforeCollide(b, i, j, k);
        }
      }
    }
  }

  /**
    Over the whole sweep: positions are never changed, dead discs are left
    exactly as they were, no disc comes back to life, and a counter that
    matched the alive flags before still matches them and stays at least 1.
  */
  lemma SweepKeepsInvariants(b: Board)
    requires |b.discs| == DiscCount
    requires AllInArena(b.discs) && b.aliveCount == CountAlive(b.discs) && b.aliveCount >= 1
    ensures |Sweep(b).discs| == DiscCount && AllInArena(Sweep(b).discs)
    ensures Sweep(b).aliveCount == CountAlive(Sweep(b).discs) && Sweep(b).aliveCount >= 1
  {
    var r := Sweep(b);
    SweepFromKeeps(b, 0, 1);
    forall k | 0 <= k < DiscCount ensures InArena(r.discs[k]) {
      assert SamePlace(r.discs[k], b.discs[k]);
      assert InArena(b.discs[k]);
    }
  }

  /**
    A dead disc is left exactly as it was by a whole tick (position step then
    sweep), and a disc alive after the tick was alive before it.
  */
  lemma TickFreezesDead(b: Board, k: nat)
    requires |b.discs| == DiscCount && k < DiscCount
    ensures var r := Sweep(Board(Step(b.discs), b.aliveCount));
      && (!b.discs[k].alive ==> r.discs[k] == b.discs[k])
      && (r.discs[k].alive ==> b.discs[k].alive)
  {
  }

}
