/** Hydraulic erosion: every tick each droplet steers along the terrain
    gradient, moves one unit, and trades sediment with the ground it left
    according to its carrying capacity. */
module Erosion {
  import opened Vectors
  import opened Grid
  import opened Droplets

  const EvaporationRate: real := 0.05
  const Inertia: real := 0.1
  const MinSlope: real := 0.0
  const Capacity: real := 800.0
  const DepositionRate: real := 0.1
  const ErosionRate: real := 0.01

  /** The heading before normalisation: the previous heading weighted by
      inertia times speed, minus the gradient weighted by the remainder. */
  function Steer(dir: Vec2, vel: real, g: Vec2): Vec2 {
    Minus(Scale(Scale(dir, Inertia), vel), Scale(g, 1.0 - Inertia * vel))
  }

  /** A droplet at rest ignores its previous heading and moves straight
      down the slope: its new heading points against the gradient. */
  lemma RestingDropletGoesDownhill(normalize: Vec2 -> Vec2, dir: Vec2, g: Vec2)
    requires IsNormalize(normalize) && g != Zero
    ensures var n := normalize(Steer(dir, 0.0, g));
            n.x * g.x + n.y * g.y < 0.0
  {
    var s := Steer(dir, 0.0, g);
    assert s == Vec2(-g.x, -g.y);
    assert s != Zero;
    var n := normalize(s);
    assert n.x * s.x + n.y * s.y > 0.0;
  }

  /** How much more sediment the droplet could carry (negative when it
      carries more than its capacity). */
  function CapacityDiff(hdif: real, vel: real, water: real, sediment: real): real {
    Max(hdif, MinSlope) * vel * water * Capacity - sediment
  }

  /** The sediment exchanged by one step: dropped onto the ground, picked up
      from it, or nothing. */
  datatype Transfer = Deposit(amount: real) | Erode(amount: real) | Idle

  /** The exchange chosen after a move with height drop `hdif` onto a cell of
      height `h`: a droplet above capacity deposits a tenth of its excess; one
      below capacity erodes a hundredth of its spare capacity, never more than
      the height drop, unless it landed on a cell below zero. */
  function Exchange(hdif: real, h: real, vel: real, water: real, sediment: real): (t: Transfer)
    ensures t.Deposit? <==> CapacityDiff(hdif, vel, water, sediment) < 0.0
    ensures t.Erode? <==> CapacityDiff(hdif, vel, water, sediment) >= 0.0 && h >= 0.0
    ensures t.Deposit? ==> t.amount == -DepositionRate * CapacityDiff(hdif, vel, water, sediment) > 0.0
    ensures t.Erode? ==> t.amount <= hdif && t.amount <= ErosionRate * CapacityDiff(hdif, vel, water, sediment)
    ensures t.Erode? ==> t.amount == hdif || t.amount == ErosionRate * CapacityDiff(hdif, vel, water, sediment)
  {
    var cdif := CapacityDiff(hdif, vel, water, sediment);
    if cdif < 0.0 then Deposit(-cdif * DepositionRate)
    else if h >= 0.0 then Erode(Min(cdif * ErosionRate, hdif))
    else Idle
  }

  /** The height the exchange adds around the droplet's previous position
      (and takes from its load). */
  function Settled(t: Transfer): real {
    match t
    case Deposit(a) => a
    case Erode(a) => -a
    case Idle => 0.0
  }

  /** For a droplet with non-negative speed, water and load, a deposit drops
      at most a tenth of the load, so the load stays non-negative. */
  lemma DepositBounded(hdif: real, h: real, vel: real, water: real, sediment: real)
    requires vel >= 0.0 && water >= 0.0 && sediment >= 0.0
    ensures var t := Exchange(hdif, h, vel, water, sediment);
            t.Deposit? ==> 0.0 < t.amount <= DepositionRate * sediment &&
                           sediment - t.amount >= (1.0 - DepositionRate) * sediment
  {
  }

  /** Erosion takes material away (a positive amount) exactly when the droplet
      moved downhill or along the level. */
  lemma ErosionSign(hdif: real, h: real, vel: real, water: real, sediment: real)
    requires vel >= 0.0 && water >= 0.0
    ensures var t := Exchange(hdif, h, vel, water, sediment);
            t.Erode? ==> (t.amount >= 0.0 <==> hdif >= 0.0)
  {
  }

  /** A droplet that climbs onto a non-negative cell while carrying nothing
      takes the "erosion" branch with a negative amount: it deposits the
      height difference and its load becomes negative. */
  lemma ClimbingDropletLoadNegative(hdif: real, h: real, vel: real, water: real)
    requires hdif < 0.0 && h >= 0.0
    ensures Exchange(hdif, h, vel, water, 0.0) == Erode(hdif)
    ensures 0.0 - Settled(Exchange(hdif, h, vel, water, 0.0)) < 0.0
  {
  }

  /** The factor the water is multiplied by after a step at speed `vel`. */
  function WaterFactor(vel: real): real {
    1.0 - EvaporationRate * (1.0 - vel)
  }

  /** Multiplying by a positive factor keeps the order. */
  lemma ScaleMono(a: real, b: real, c: real)
    requires a > 0.0
    ensures b >= c ==> a * b >= a * c
    ensures b > c ==> a * b > a * c
    ensures b <= c ==> a * b <= a * c
  {
  }

  /** The water left after a step that ends at speed `vel`. */
  function Evaporated(water: real, vel: real): real {
    water * WaterFactor(vel)
  }

  /** Evaporation never removes more than five percent of the water, so a
      droplet holding water keeps some; a droplet faster than one unit per
      tick gains water instead. */
  lemma EvaporatedBounds(water: real, vel: real)
    requires water > 0.0 && vel >= 0.0
    ensures Evaporated(water, vel) >= water * (1.0 - EvaporationRate) > 0.0
    ensures vel <= 1.0 ==> Evaporated(water, vel) <= water
    ensures vel > 1.0 ==> Evaporated(water, vel) > water
  {
    var f := WaterFactor(vel);
    assert f == 0.95 + 0.05 * vel;
    ScaleMono(water, f, 1.0 - EvaporationRate);
    ScaleMono(water, f, 1.0);
    assert water * 1.0 == water;
    assert Evaporated(water, vel) == water * f;
    ScaleMono(water, 1.0 - EvaporationRate, 0.0);
  }

  /** The speed after a step with height drop `hdif`. */
  function Speed(sqrt: real -> real, vel: real, hdif: real): real {
    sqrt(Max(vel * vel + hdif, 0.0))
  }

  /** The squared speed gains the height drop, and is clamped at zero when
      the droplet climbs higher than its speed allows. */
  lemma SpeedEnergy(sqrt: real -> real, vel: real, hdif: real)
    requires IsSqrt(sqrt)
    ensures Speed(sqrt, vel, hdif) >= 0.0
    ensures Speed(sqrt, vel, hdif) * Speed(sqrt, vel, hdif) == Max(vel * vel + hdif, 0.0)
  {
  }

  /** The sediment exchange of one step, between a droplet that moved from
      `oldPos` and the ground around `oldPos`. */
  method Trade(e: Elevation, d: Droplet, oldPos: Vec2, hdif: real, h: real) returns (ghost t: Transfer)
    requires e.Valid() && e.size >= 2
    modifies d`sediment, e.data
    ensures t == Exchange(hdif, h, d.vel, d.water, old(d.sediment))
    ensures e.data[..] == if t.Idle? then old(e.data[..])
                          else Spread(old(e.data[..]), Targets(oldPos, e.size), Settled(t), 9)
    ensures d.sediment == old(d.sediment) - Settled(t)
    ensures Sum(e.data[..]) + d.sediment == old(Sum(e.data[..])) + old(d.sediment)
  {
    t := Exchange(hdif, h, d.vel, d.water, d.sediment);
    var cdif := CapacityDiff(hdif, d.vel, d.water, d.sediment);
    if cdif < 0.0 {
      var deposit := -cdif * DepositionRate;
      d.sediment := d.sediment - deposit;
      e.Add(oldPos, deposit);
    } else if h >= 0.0 {
      var erosion := Min(cdif * ErosionRate, hdif);
      d.sediment := d.sediment + erosion;
      e.Add(oldPos, -erosion);
    }
  }

  /** Speed and water after a step with height drop `hdif`: the squared speed
      gains the drop (never below zero) and the water evaporates at a rate
      that falls as the speed grows. */
  method Slow(d: Droplet, hdif: real, sqrt: real -> real)
    requires IsSqrt(sqrt)
    modifies d`vel, d`water
    ensures d.vel == Speed(sqrt, old(d.vel), hdif) && d.vel >= 0.0
    ensures d.water == Evaporated(old(d.water), d.vel)
  {
    SpeedEnergy(sqrt, d.vel, hdif);
    d.vel := Speed(sqrt, d.vel, hdif);
    d.water := Evaporated(d.water, d.vel);
  }

  /** The state of a droplet, as a value. */
  datatype State = State(pos: Vec2, dir: Vec2, vel: real, water: real, sediment: real)

  function StateOf(d: Droplet): State
    reads d
  {
    State(d.pos, d.dir, d.vel, d.water, d.sediment)
  }

  /** One droplet step, from the grid `g0` and droplet state `s0` to `g1` and
      `s1`: the droplet steers by the gradient at its cell, moves one heading,
      trades sediment with the ground it left according to the height drop,
      then its speed and water are updated. */
  ghost predicate StepSpec(size: nat, sqrt: real -> real, normalize: Vec2 -> Vec2,
                           g0: seq<real>, s0: State, g1: seq<real>, s1: State)
  {
    size >= 2 && |g0| == size * size &&
    var dir := normalize(Steer(s0.dir, s0.vel, Gradient(g0, size, Unroll(s0.pos, size))));
    var pos := Plus(s0.pos, dir);
    var h := HeightIn(g0, size, pos);
    var drop := HeightIn(g0, size, s0.pos) - h;
    var t := Exchange(drop, h, s0.vel, s0.water, s0.sediment);
    s1.dir == dir && s1.pos == pos &&
    g1 == (if t.Idle? then g0 else Spread(g0, Targets(s0.pos, size), Settled(t), 9)) &&
    s1.sediment == s0.sediment - Settled(t) &&
    s1.vel == Speed(sqrt, s0.vel, drop) &&
    s1.water == Evaporated(s0.water, s1.vel)
  }

  /** A step moves sediment between the droplet and the ground only: terrain
      total plus load is unchanged. */
  lemma StepConserves(size: nat, sqrt: real -> real, normalize: Vec2 -> Vec2,
                      g0: seq<real>, s0: State, g1: seq<real>, s1: State)
    requires StepSpec(size, sqrt, normalize, g0, s0, g1, s1)
    ensures Sum(g1) + s1.sediment == Sum(g0) + s0.sediment
  {
    var t :| t == Exchange(HeightIn(g0, size, s0.pos) - HeightIn(g0, size, s1.pos), HeightIn(g0, size, s1.pos),
                           s0.vel, s0.water, s0.sediment);
    if !t.Idle? {
      SpreadConserves(g0, Targets(s0.pos, size), Settled(t));
    }
  }

  /** After a step the speed is non-negative and a droplet holding water still
      holds some. */
  lemma StepBounds(size: nat, sqrt: real -> real, normalize: Vec2 -> Vec2,
                   g0: seq<real>, s0: State, g1: seq<real>, s1: State)
    requires IsSqrt(sqrt) && StepSpec(size, sqrt, normalize, g0, s0, g1, s1)
    ensures s1.vel >= 0.0
    ensures s0.water > 0.0 ==> s1.water > 0.0
  {
    SpeedEnergy(sqrt, s0.vel, HeightIn(g0, size, s0.pos) - HeightIn(g0, size, s1.pos));
    if s0.water > 0.0 {
      EvaporatedBounds(s0.water, s1.vel);
    }
  }

  /** One step of one droplet over the elevation grid. */
  method Step(e: Elevation, d: Droplet, sqrt: real -> real, normalize: Vec2 -> Vec2)
    requires e.Valid() && e.size >= 2
    requires IsSqrt(sqrt)
    modifies d, e.data
    ensures StepSpec(e.size, sqrt, normalize, old(e.data[..]), old(StateOf(d)), e.data[..], StateOf(d))
  {
    ghost var g0, s0 := e.data[..], StateOf(d);
    var g := e.Grad(Unroll(d.pos, e.size));
    d.dir := normalize(Steer(d.dir, d.vel, g));
    var oldPos := d.pos;
    d.pos := Plus(d.pos, d.dir);
    var h := e.data[Unroll(d.pos, e.size)];
    var hdif := e.data[Unroll(oldPos, e.size)] - h;
    assert h == HeightIn(g0, e.size, d.pos) && hdif == HeightIn(g0, e.size, oldPos) - h;
    ghost var t := Trade(e, d, oldPos, hdif, h);
    Slow(d, hdif, sqrt);
    StepIntro(e.size, sqrt, normalize, g0, s0, e.data[..], StateOf(d), g, h, hdif, t);
  }

  /** The pieces of a step, computed one after another, make up `StepSpec`. */
  lemma StepIntro(size: nat, sqrt: real -> real, normalize: Vec2 -> Vec2,
                  g0: seq<real>, s0: State, g1: seq<real>, s1: State,
                  g: Vec2, h: real, hdif: real, t: Transfer)
    requires size >= 2 && |g0| == size * size
    requires g == Gradient(g0, size, Unroll(s0.pos, size))
    requires s1.dir == normalize(Steer(s0.dir, s0.vel, g)) && s1.pos == Plus(s0.pos, s1.dir)
    requires h == HeightIn(g0, size, s1.pos) && hdif == HeightIn(g0, size, s0.pos) - h
    requires t == Exchange(hdif, h, s0.vel, s0.water, s0.sediment)
    requires g1 == if t.Idle? then g0 else Spread(g0, Targets(s0.pos, size), Settled(t), 9)
    requires s1.sediment == s0.sediment - Settled(t)
    requires s1.vel == Speed(sqrt, s0.vel, hdif) && s1.water == Evaporated(s0.water, s1.vel)
    ensures StepSpec(size, sqrt, normalize, g0, s0, g1, s1)
  {
  }

  /** The states of a sequence of droplets. */
  ghost function States(droplets: seq<Droplet>): (s: seq<State>)
    reads set d | d in droplets
    ensures |s| == |droplets|
    ensures forall k :: 0 <= k < |droplets| ==> s[k] == StateOf(droplets[k])
  {
    seq(|droplets|, k reads set d | d in droplets requires 0 <= k < |droplets| => StateOf(droplets[k]))
  }

  /** The loads of a sequence of droplet states. */
  function Loads(states: seq<State>): (s: seq<real>)
    ensures |s| == |states|
    ensures forall k :: 0 <= k < |states| ==> s[k] == states[k].sediment
  {
    seq(|states|, k requires 0 <= k < |states| => states[k].sediment)
  }

  /** A tick: droplet k steps from `before[k]` to `after[k]` over the grid its
      predecessors left, `grids[k]`, leaving `grids[k + 1]`. */
  ghost predicate Tick(size: nat, sqrt: real -> real, normalize: Vec2 -> Vec2,
                       grids: seq<seq<real>>, before: seq<State>, after: seq<State>)
  {
    |grids| == |before| + 1 && |after| == |before| &&
    forall k :: 0 <= k < |before| ==> StepSpec(size, sqrt, normalize, grids[k], before[k], grids[k + 1], after[k])
  }

  /** The loads once the first n droplets have stepped. */
  function LoadsPart(before: seq<State>, after: seq<State>, n: nat): (s: seq<real>)
    requires |after| == |before|
    ensures |s| == |before|
  {
    seq(|before|, k requires 0 <= k < |before| => if k < n then after[k].sediment else before[k].sediment)
  }

  lemma {:induction false} TickConservesUpTo(size: nat, sqrt: real -> real, normalize: Vec2 -> Vec2,
                                             grids: seq<seq<real>>, before: seq<State>, after: seq<State>, n: nat)
    requires Tick(size, sqrt, normalize, grids, before, after) && n <= |before|
    ensures Sum(grids[n]) + Sum(LoadsPart(before, after, n)) == Sum(grids[0]) + Sum(Loads(before))
  {
    if n == 0 {
      assert LoadsPart(before, after, 0) == Loads(before);
    } else {
      var m := n - 1;
      TickConservesUpTo(size, sqrt, normalize, grids, before, after, m);
      StepConserves(size, sqrt, normalize, grids[m], before[m], grids[n], after[m]);
      var prev := LoadsPart(before, after, m);
      assert LoadsPart(before, after, n) == prev[m := after[m].sediment];
      SumUpdate(prev, m, after[m].sediment);
    }
  }

  /** Over a whole tick, terrain total plus all loads is unchanged. */
  lemma TickConserves(size: nat, sqrt: real -> real, normalize: Vec2 -> Vec2,
                      grids: seq<seq<real>>, before: seq<State>, after: seq<State>)
    requires Tick(size, sqrt, normalize, grids, before, after)
    ensures Sum(grids[|before|]) + Sum(Loads(after)) == Sum(grids[0]) + Sum(Loads(before))
  {
    TickConservesUpTo(size, sqrt, normalize, grids, before, after, |before|);
    assert LoadsPart(before, after, |before|) == Loads(after);
  }

  /** After a tick every speed is non-negative and no droplet that held water
      has run dry. */
  lemma TickBounds(size: nat, sqrt: real -> real, normalize: Vec2 -> Vec2,
                   grids: seq<seq<real>>, before: seq<State>, after: seq<State>)
    requires IsSqrt(sqrt) && Tick(size, sqrt, normalize, grids, before, after)
    ensures forall k :: 0 <= k < |after| ==> after[k].vel >= 0.0
    ensures forall k :: 0 <= k < |after| ==> before[k].water > 0.0 ==> after[k].water > 0.0
  {
    forall k | 0 <= k < |after|
      ensures after[k].vel >= 0.0 && (before[k].water > 0.0 ==> after[k].water > 0.0)
    {
      StepBounds(size, sqrt, normalize, grids[k], before[k], grids[k + 1], after[k]);
    }
  }

  /** One erosion tick: every droplet takes one step, in order, each over the
      grid the previous ones left. Terrain plus carried sediment is conserved,
      speeds are non-negative and no droplet holding water runs dry. */
  method HydraulicErosion(e: Elevation, droplets: seq<Droplet>, sqrt: real -> real, normalize: Vec2 -> Vec2)
    returns (ghost grids: seq<seq<real>>)
    requires e.Valid() && e.size >= 2
    requires IsSqrt(sqrt)
    requires Distinct(droplets)
    modifies e.data, set d | d in droplets
    ensures |grids| == |droplets| + 1 && grids[0] == old(e.data[..]) && grids[|droplets|] == e.data[..]
    ensures Tick(e.size, sqrt, normalize, grids, old(States(droplets)), States(droplets))
    ensures Sum(e.data[..]) + Sum(Loads(States(droplets))) == old(Sum(e.data[..]) + Sum(Loads(States(droplets))))
    ensures forall d :: d in droplets ==> d.vel >= 0.0
    ensures forall d :: d in droplets ==> old(d.water) > 0.0 ==> d.water > 0.0
  {
    ghost var before := States(droplets);
    grids := [e.data[..]];
    for i := 0 to |droplets|
      invariant Walked(e.size, sqrt, normalize, States(droplets), before, grids, i)
      invariant grids[0] == old(e.data[..]) && grids[i] == e.data[..]
    {
      grids := StepAt(e, droplets, i, sqrt, normalize, before, grids);
    }
    ghost var after := States(droplets);
    assert Tick(e.size, sqrt, normalize, grids, before, after);
    TickConserves(e.size, sqrt, normalize, grids, before, after);
    TickBounds(e.size, sqrt, normalize, grids, before, after);
  }

  /** The droplets, now in states `now`, are `i` steps into the tick: droplet
      k < i stepped over `grids[k]` from its state `before[k]` at the start of
      the tick, and the others are untouched. */
  ghost predicate Walked(size: nat, sqrt: real -> real, normalize: Vec2 -> Vec2, now: seq<State>,
                         before: seq<State>, grids: seq<seq<real>>, i: nat)
  {
    i <= |now| && |before| == |now| && |grids| == i + 1 &&
    (forall k :: 0 <= k < i ==> StepSpec(size, sqrt, normalize, grids[k], before[k], grids[k + 1], now[k])) &&
    (forall k :: i <= k < |now| ==> now[k] == before[k])
  }

  /** Droplet i's step takes the tick one droplet further. */
  lemma WalkedNext(size: nat, sqrt: real -> real, normalize: Vec2 -> Vec2, now: seq<State>,
                   before: seq<State>, grids: seq<seq<real>>, i: nat, g1: seq<real>, s1: State)
    requires Walked(size, sqrt, normalize, now, before, grids, i) && i < |now|
    requires StepSpec(size, sqrt, normalize, grids[i], now[i], g1, s1)
    ensures Walked(size, sqrt, normalize, now[i := s1], before, grids + [g1], i + 1)
  {
    var grids' := grids + [g1];
    assert forall k :: 0 <= k <= i ==> grids'[k] == grids[k];
  }

  /** The step of droplet `i` within the tick, over the grid its predecessors
      left. */
  method StepAt(e: Elevation, droplets: seq<Droplet>, i: nat, sqrt: real -> real, normalize: Vec2 -> Vec2,
                ghost before: seq<State>, ghost grids: seq<seq<real>>)
    returns (ghost grids': seq<seq<real>>)
    requires e.Valid() && e.size >= 2 && i < |droplets|
    requires IsSqrt(sqrt)
    requires Distinct(droplets)
    requires Walked(e.size, sqrt, normalize, States(droplets), before, grids, i) && grids[i] == e.data[..]
    modifies e.data, droplets[i]
    ensures StepSpec(e.size, sqrt, normalize, old(e.data[..]), old(StateOf(droplets[i])), e.data[..], StateOf(droplets[i]))
    ensures grids' == grids + [e.data[..]]
    ensures Walked(e.size, sqrt, normalize, States(droplets), before, grids', i + 1)
  {
    ghost var now := States(droplets);
    Step(e, droplets[i], sqrt, normalize);
    assert States(droplets) == now[i := StateOf(droplets[i])];
    WalkedNext(e.size, sqrt, normalize, now, before, grids, i, e.data[..], StateOf(droplets[i]));
    grids' := grids + [e.data[..]];
  }
}
