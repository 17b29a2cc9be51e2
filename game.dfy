/**
  The game session of js/main.js: the global state `g_state` (an array of four
  disc records updated in place), `alive_count`, `enabled`, the countdown
  value of the timer, and the `saved_state` snapshot, with the handlers that
  change them. The methods that move discs are proved against the functions
  of Physics; the session handlers state their effect directly.
*/
module Game {
  import opened Physics

  /** The countdown length `setup` gives the timer at load (`timer.max_value`, js/main.js:117). */
  const DefaultTimerMax: int := 60

  /** The number of `Math.random()` draws the initial layout takes. */
  const DrawCount: nat := 12

  /** `r * 90 + 5`: the offset of a disc along the edge it starts on. */
  function EdgeOffset(r: real): (p: real)
    requires 0.0 <= r < 1.0
    ensures 5.0 <= p < 95.0
  {
    r * 90.0 + 5.0
  }

  /**
    The initial `g_state`, given the random draws in the order the source
    calls `Math.random()`: per disc, its offset along its edge, then xv,
    then yv. Disc 0 starts on the left edge, disc 1 on the top, disc 2 on the
    right and disc 3 on the bottom.
  */
  function InitialState(draws: seq<real>): (s: seq<Disc>)
    requires |draws| == DrawCount
    requires forall k :: 0 <= k < |draws| ==> 0.0 <= draws[k] < 1.0
    ensures |s| == DiscCount && CountAlive(s) == DiscCount && AllInArena(s)
    ensures s[0].x == 0.0 && s[1].y == 0.0 && s[2].x == Wall && s[3].y == Wall
    ensures 5.0 <= s[0].y < 95.0 && 5.0 <= s[1].x < 95.0
    ensures 5.0 <= s[2].y < 95.0 && 5.0 <= s[3].x < 95.0
    ensures forall k :: 0 <= k < DiscCount ==>
              0.0 <= s[k].xv < 1.0 && 0.0 <= s[k].yv < 1.0
  {
    var s := [ Disc(0.0, EdgeOffset(draws[0]), draws[1], draws[2], true),
               Disc(EdgeOffset(draws[3]), 0.0, draws[4], draws[5], true),
               Disc(Wall, EdgeOffset(draws[6]), draws[7], draws[8], true),
               Disc(EdgeOffset(draws[9]), Wall, draws[10], draws[11], true) ];
    assert CountAlive(s[3..]) == 1;
    assert CountAlive(s[2..]) == 2 by { assert s[2..][1..] == s[3..]; }
    assert CountAlive(s[1..]) == 3 by { assert s[1..][1..] == s[2..]; }
    s
  }

  class Session {
    /** `g_state`. */
    var discs: array<Disc>
    /** `alive_count`. */
    var aliveCount: int
    /** `enabled`: whether ticks and the countdown do anything. */
    var enabled: bool
    /** `timer.value`: seconds left on the countdown. */
    var timer: int
    /** `timer.max_value`: what a reset puts back on the countdown. */
    var timerMax: int
    /** `saved_state`: a deep copy of the initial `g_state`. */
    const saved: seq<Disc>

    /** The simulated part of the state, as a value. */
    function Current(): Board
      reads this, discs
    {
      Board(discs[..], aliveCount)
    }

    /**
      The board part of the invariant: four records, all inside the arena,
      `alive_count` equal to the number of alive discs and at least 1, and a
      snapshot of four alive records inside the arena.
    */
    ghost predicate BoardOk()
      reads this, discs
    {
      && discs.Length == DiscCount
      && |saved| == DiscCount && AllInArena(saved) && CountAlive(saved) == DiscCount
      && AllInArena(discs[..])
      && aliveCount == CountAlive(discs[..])
      && aliveCount >= 1
    }

    /** The whole invariant: a running game has at least two discs alive. */
    ghost predicate Valid()
      reads this, discs
    {
      BoardOk() && (enabled ==> aliveCount > 1)
    }

    /** Page load: the random initial layout, its snapshot, and a stopped game. */
    constructor (draws: seq<real>, timerValue: int)
      requires |draws| == DrawCount
      requires forall k :: 0 <= k < |draws| ==> 0.0 <= draws[k] < 1.0
      ensures Valid() && fresh(discs)
      ensures discs[..] == InitialState(draws) && saved == InitialState(draws)
      ensures aliveCount == DiscCount && !enabled
      ensures timer == timerValue && timerMax == DefaultTimerMax
    {
      var s := InitialState(draws);
      discs := new Disc[DiscCount](k requires 0 <= k < DiscCount => s[k]);
      saved := s;
      aliveCount := DiscCount;
      enabled := false;
      timer := timerValue;
      timerMax := DefaultTimerMax;
      new;
      assert discs[..] == s;
    }

    /**
      `calculate_pos`: every alive record moves in place by its velocity, or
      bounces off a wall, each axis on its own; dead records are skipped.
    */
    method CalculatePos()
      requires BoardOk()
      modifies discs
      ensures BoardOk()
      ensures discs[..] == Step(old(discs[..]))
    {
      ghost var before := discs[..];
      for k := 0 to discs.Length
        invariant forall m :: 0 <= m < k ==> discs[m] == StepDisc(before[m])
        invariant forall m :: k <= m < discs.Length ==> discs[m] == before[m]
      {
        var d := discs[k];
        if d.alive {
          if d.x + d.xv >= Wall || d.x + d.xv <= 0.0 {
            d := d.(xv := -d.xv);
          } else {
            d := d.(x := d.x + d.xv);
          }
          if d.y + d.yv >= Wall || d.y + d.yv <= 0.0 {
            d := d.(yv := -d.yv);
          } else {
            d := d.(y := d.y + d.yv);
          }
          discs[k] := d;
        }
      }
      assert discs[..] == Step(before);
    }

    /**
      `handle_collision(d1, d2)` with `w` and `l` the indices of `d1` and
      `d2`: the winner's velocity is updated, the loser is killed, and
      `alive_count` is decremented.
    */
    method HandleCollision(w: nat, l: nat)
      requires discs.Length == DiscCount && w < DiscCount && l < DiscCount && w != l
      modifies this`aliveCount, discs
      ensures Current() == Physics.HandleCollision(old(Current()), w, l)
    {
      ghost var before := Current();
      var d1 := discs[w];
      var d2 := discs[l];
      if (d1.xv > 0.0 && d2.xv < 0.0) || (d1.xv < 0.0 && d2.xv > 0.0) {
        d1 := d1.(xv := d1.xv + d2.xv);
      } else {
        d1 := d1.(yv := -d1.yv);
      }
      if (d1.yv > 0.0 && d2.yv < 0.0) || (d1.yv < 0.0 && d1.yv > 0.0) {
        d1 := d1.(yv := d1.yv + d2.yv);
      } else {
        d1 := d1.(xv := -d1.xv);
      }
      discs[w] := d1;
      discs[l] := d2.(alive := false);
      aliveCount := aliveCount - 1;
      assert discs[..] == Physics.HandleCollision(before, w, l).discs;
    }

    /**
      `detect_collision`: the pairs i < j in ascending order; in each pair of
      alive discs closer than the collision distance, the faster absorbs the
      slower, the lower index winning a tie.
    */
    method DetectCollision()
      requires BoardOk()
      modifies this`aliveCount, discs
      ensures BoardOk()
      ensures Current() == Sweep(old(Current()))
    {
      ghost var start := Current();
      for i := 0 to DiscCount - 1
        invariant discs.Length == DiscCount
        invariant SweepFrom(Current(), i, i + 1) == Sweep(start)
      {
        for j := i + 1 to DiscCount
          invariant discs.Length == DiscCount
          invariant SweepFrom(Current(), i, j) == Sweep(start)
        {
          var di, dj := discs[i], discs[j];
          if di.alive && dj.alive && Near(di, dj) {
            if SpeedSq(di) >= SpeedSq(dj) {
              HandleCollision(i, j);
            } else {
              HandleCollision(j, i);
            }
          }
        }
      }
      SweepKeepsInvariants(start);
    }

    /** `handle_game_over`: the game stops. */
    method HandleGameOver()
      requires BoardOk()
      modifies this`enabled
      ensures Valid() && !enabled
    {
      enabled := false;
    }

    /**
      `handle_tick`: nothing unless enabled; otherwise one position step, one
      collision sweep, and a stop when the countdown is at 0 or one disc is
      left.
    */
    method Tick()
      requires Valid()
      modifies this`enabled, this`aliveCount, discs
      ensures Valid()
      ensures !old(enabled) ==> unchanged(this) && unchanged(discs)
      ensures old(enabled) ==> Current() == Sweep(Board(Step(old(discs[..])), old(aliveCount)))
      ensures old(enabled) ==> (enabled <==> !(timer == 0 || aliveCount == 1))
    {
      if enabled {
        ghost var stepped := Board(Step(discs[..]), aliveCount);
        CalculatePos();
        DetectCollision();
        assert Current() == Sweep(stepped);
        if timer == 0 || aliveCount == 1 {
          HandleGameOver();
        }
      }
    }

    /** `handle_timer_tick`: the countdown goes down by one second while enabled. */
    method TimerTick()
      requires Valid()
      modifies this`timer
      ensures Valid()
      ensures timer == if enabled then old(timer) - 1 else old(timer)
    {
      if enabled {
        timer := timer - 1;
      }
    }

    /** `handle_start`: the game runs again only if more than one disc is alive. */
    method Start()
      requires Valid()
      modifies this`enabled
      ensures Valid()
      ensures enabled == (old(enabled) || aliveCount > 1)
    {
      if aliveCount > 1 {
        enabled := true;
      }
    }

    /** `handle_pause`: the game stops. */
    method Pause()
      requires Valid()
      modifies this`enabled
      ensures Valid() && !enabled
    {
      enabled := false;
    }

    /**
      `handle_reset`, whatever the state before: a fresh copy of the snapshot,
      four alive discs, a stopped game and a full countdown.
    */
    method Reset()
      requires Valid()
      modifies this`discs, this`aliveCount, this`enabled, this`timer
      ensures Valid() && fresh(discs)
      ensures discs[..] == saved && aliveCount == DiscCount && !enabled && timer == timerMax
    {
      enabled := false;
      aliveCount := DiscCount;
      var copy := saved;
      discs := new Disc[DiscCount](k requires 0 <= k < DiscCount => copy[k]);
      assert discs[..] == saved;
      timer := timerMax;
    }
  }
}
