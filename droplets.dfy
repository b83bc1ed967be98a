/** Water droplets: their state, their removal once evaporated, and their
    emission from the river sources every tick. */
module Droplets {
  import opened Vectors
  import opened Sources

  /** `f32::EPSILON`, 2^-23: droplets holding less water than this are removed. */
  const Epsilon: real := 1.0 / 8388608.0

  /** A droplet travelling over the terrain. */
  class Droplet {
    var pos: Vec2
    var dir: Vec2
    var vel: real
    var water: real
    var sediment: real

    /** A droplet is born at rest, holding one unit of water and no sediment. */
    constructor (pos: Vec2)
      ensures this.pos == pos && Newborn()
    {
      this.pos := pos;
      dir := Zero;
      vel := 0.0;
      water := 1.0;
      sediment := 0.0;
    }

    ghost predicate Newborn()
      reads this
    {
      dir == Zero && vel == 0.0 && water == 1.0 && sediment == 0.0
    }
  }

  /** No object occurs twice. */
  predicate Distinct<T(==)>(s: seq<T>) {
    forall i, j :: 0 <= i < j < |s| ==> s[i] != s[j]
  }

  /** Two duplicate-free sequences with no element in common concatenate to a
      duplicate-free sequence. */
  lemma DistinctAppend<T>(a: seq<T>, b: seq<T>)
    requires Distinct(a) && Distinct(b)
    requires forall x :: x in a ==> x !in b
    ensures Distinct(a + b)
  {
    forall i, j | 0 <= i < j < |a + b|
      ensures (a + b)[i] != (a + b)[j]
    {
      if j < |a| {
        assert (a + b)[i] == a[i] && (a + b)[j] == a[j];
      } else if i < |a| {
        assert (a + b)[i] in a && (a + b)[j] == b[j - |a|];
      } else {
        assert (a + b)[i] == b[i - |a|] && (a + b)[j] == b[j - |a|];
      }
    }
  }

  /** The droplets that survive evaporation, in their original order. */
  ghost function Survivors(droplets: seq<Droplet>): seq<Droplet>
    reads set d | d in droplets
  {
    if droplets == [] then []
    else
      var last := droplets[|droplets| - 1];
      Survivors(droplets[..|droplets| - 1]) + (if last.water >= Epsilon then [last] else [])
  }

  /** A droplet survives exactly when it was there and holds at least
      `Epsilon` water; survivors are never duplicated. */
  lemma {:induction false} SurvivorsKeep(droplets: seq<Droplet>)
    ensures forall d :: d in Survivors(droplets) <==> d in droplets && d.water >= Epsilon
    ensures |Survivors(droplets)| <= |droplets|
    ensures Distinct(droplets) ==> Distinct(Survivors(droplets))
  {
    if droplets != [] {
      var init := droplets[..|droplets| - 1];
      var last := droplets[|droplets| - 1];
      SurvivorsKeep(init);
      assert droplets == init + [last];
      if Distinct(droplets) {
        assert Distinct(init);
        assert last !in init;
        DistinctAppend(Survivors(init), if last.water >= Epsilon then [last] else []);
      }
    }
  }

  /** Removes the droplets whose water fell below `Epsilon`, keeping the order
      of the others. */
  method Evaporation(droplets: seq<Droplet>) returns (kept: seq<Droplet>)
    ensures kept == Survivors(droplets)
  {
    kept := [];
    for i := 0 to |droplets|
      invariant kept == Survivors(droplets[..i])
    {
      assert droplets[..i + 1][..i] == droplets[..i];
      if !(droplets[i].water < Epsilon) {
        kept := kept + [droplets[i]];
      }
    }
    assert droplets[..|droplets|] == droplets;
  }

  /** `n` copies of one position. */
  function Repeat(p: Vec2, n: nat): (r: seq<Vec2>)
    ensures |r| == n && forall k :: 0 <= k < n ==> r[k] == p
  {
    seq(n, _ => p)
  }

  /** The positions at which the sources release droplets, source by source,
      `counts[k]` of them at the position of source `k`. */
  function Releases(sources: seq<Source>, counts: seq<nat>): (r: seq<Vec2>)
    requires |counts| == |sources|
    ensures forall p :: p in r ==> exists k :: 0 <= k < |sources| && counts[k] > 0 && sources[k].pos == p
  {
    if sources == [] then []
    else
      var n := |sources| - 1;
      Releases(sources[..n], counts[..n]) + Repeat(sources[n].pos, counts[n])
  }

  lemma ReleasesNext(sources: seq<Source>, counts: seq<nat>, i: nat)
    requires i < |sources| && i < |counts|
    ensures Releases(sources[..i + 1], counts[..i + 1]) ==
            Releases(sources[..i], counts[..i]) + Repeat(sources[i].pos, counts[i])
  {
    assert sources[..i + 1][..i] == sources[..i];
    assert counts[..i + 1][..i] == counts[..i];
  }

  /** The droplets `ds` are newborn, one at each of the positions `sites`. */
  ghost predicate Spawned(ds: seq<Droplet>, sites: seq<Vec2>)
    reads set d | d in ds
  {
    |ds| == |sites| && forall k :: 0 <= k < |ds| ==> ds[k].Newborn() && ds[k].pos == sites[k]
  }

  lemma SpawnedAppend(a: seq<Droplet>, b: seq<Droplet>, sa: seq<Vec2>, sb: seq<Vec2>)
    requires Spawned(a, sa) && Spawned(b, sb)
    ensures Spawned(a + b, sa + sb)
  {
    assert forall k :: 0 <= k < |b| ==> (a + b)[|a| + k] == b[k];
  }

  /** Appends `n` newborn droplets at `pos` to the pool. */
  method Spawn(pos: Vec2, n: nat, pool: seq<Droplet>) returns (r: seq<Droplet>, ghost born: seq<Droplet>)
    ensures r == pool + born
    ensures forall d :: d in born ==> fresh(d)
    ensures Distinct(born)
    ensures Spawned(born, Repeat(pos, n))
  {
    r := pool;
    born := [];
    for j := 0 to n
      invariant r == pool + born
      invariant forall d :: d in born ==> fresh(d)
      invariant Distinct(born)
      invariant Spawned(born, Repeat(pos, j))
    {
      var d := new Droplet(pos);
      SpawnedAppend(born, [d], Repeat(pos, j), [pos]);
      assert Repeat(pos, j) + [pos] == Repeat(pos, j + 1);
      r := r + [d];
      born := born + [d];
    }
  }

  /** One source's part of a tick: it flows, and the drops it releases join
      the pool as newborn droplets at its position. */
  method Release(s: Source, pool: seq<Droplet>) returns (r: seq<Droplet>, ghost count: nat, ghost born: seq<Droplet>)
    modifies s
    ensures s.stock == Emit(old(s.stock), s.flux).stock
    ensures count == SaturateU32(Emit(old(s.stock), s.flux).drops)
    ensures r == pool + born
    ensures forall d :: d in born ==> fresh(d)
    ensures Distinct(born)
    ensures Spawned(born, Repeat(s.pos, count))
  {
    var drops := s.Flow();
    count := drops;
    r, born := Spawn(s.pos, drops, pool);
  }

  /** One tick of every source: each source's stock advances by one emission
      and the drops it releases, `counts[k]` for source `k`, join the pool as
      newborn droplets at its position, after the droplets already there. */
  method Flows(sources: seq<Source>, droplets: seq<Droplet>)
    returns (pool: seq<Droplet>, ghost counts: seq<nat>, ghost born: seq<Droplet>)
    requires forall i, j :: 0 <= i < j < |sources| ==> sources[i] != sources[j]
    modifies set s | s in sources
    ensures |counts| == |sources|
    ensures forall k :: 0 <= k < |sources| ==>
              var e := Emit(old(sources[k].stock), sources[k].flux);
              sources[k].stock == e.stock && counts[k] == SaturateU32(e.drops)
    ensures pool == droplets + born
    ensures forall d :: d in born ==> fresh(d)
    ensures Distinct(born) && (Distinct(droplets) ==> Distinct(pool))
    ensures Spawned(born, Releases(sources, counts))
  {
    ghost var stocks := Stocks(sources);
    pool := droplets;
    counts := [];
    born := [];
    for i := 0 to |sources|
      invariant Flowed(sources, stocks, counts, i)
      invariant pool == droplets + born
      invariant forall d :: d in born ==> fresh(d)
      invariant Distinct(born)
      invariant Spawned(born, Releases(sources[..i], counts))
    {
      ghost var more: seq<Droplet>;
      pool, counts, more := FlowAt(sources, i, stocks, counts, born, pool);
      born := born + more;
    }
    assert sources[..|sources|] == sources;
    if Distinct(droplets) {
      DistinctAppend(droplets, born);
    }
  }

  /** The stock of each source. */
  ghost function Stocks(sources: seq<Source>): (s: seq<real>)
    reads set x | x in sources
    ensures |s| == |sources|
    ensures forall k :: 0 <= k < |sources| ==> s[k] == sources[k].stock
  {
    seq(|sources|, k reads set x | x in sources requires 0 <= k < |sources| => sources[k].stock)
  }

  /** The first `i` sources have flowed once from the stocks `stocks`,
      releasing `counts`; the others still hold their stock. */
  ghost predicate Flowed(sources: seq<Source>, stocks: seq<real>, counts: seq<nat>, i: nat)
    reads set x | x in sources
    requires |stocks| == |sources|
  {
    i <= |sources| && |counts| == i &&
    (forall k :: 0 <= k < i ==>
       var e := Emit(stocks[k], sources[k].flux);
       sources[k].stock == e.stock && counts[k] == SaturateU32(e.drops)) &&
    (forall k :: i <= k < |sources| ==> sources[k].stock == stocks[k])
  }

  /** Source `i`'s turn within the tick. */
  method FlowAt(sources: seq<Source>, i: nat, ghost stocks: seq<real>, ghost counts: seq<nat>,
                ghost born: seq<Droplet>, pool: seq<Droplet>)
    returns (r: seq<Droplet>, ghost counts': seq<nat>, ghost more: seq<Droplet>)
    requires i < |sources| && |stocks| == |sources|
    requires forall i, j :: 0 <= i < j < |sources| ==> sources[i] != sources[j]
    requires Flowed(sources, stocks, counts, i)
    requires Spawned(born, Releases(sources[..i], counts))
    requires Distinct(born)
    modifies sources[i]
    ensures Flowed(sources, stocks, counts', i + 1)
    ensures r == pool + more
    ensures forall d :: d in more ==> fresh(d)
    ensures Distinct(born + more)
    ensures Spawned(born + more, Releases(sources[..i + 1], counts'))
  {
    ghost var count: nat;
    r, count, more := Release(sources[i], pool);
    DistinctAppend(born, more);
    Extend(sources, counts, count, i, born, more);
    counts' := counts + [count];
  }

  /** The droplets born up to source `i`, followed by those source `i` released,
      are those its predecessors released followed by its own. */
  lemma Extend(sources: seq<Source>, counts: seq<nat>, count: nat, i: nat, born: seq<Droplet>, more: seq<Droplet>)
    requires i < |sources| && |counts| == i
    requires Spawned(born, Releases(sources[..i], counts))
    requires Spawned(more, Repeat(sources[i].pos, count))
    ensures Spawned(born + more, Releases(sources[..i + 1], counts + [count]))
  {
    ReleasesNext(sources, counts + [count], i);
    assert (counts + [count])[..i] == counts;
    assert (counts + [count])[..i + 1] == counts + [count];
    SpawnedAppend(born, more, Releases(sources[..i], counts), Repeat(sources[i].pos, count));
  }
}
