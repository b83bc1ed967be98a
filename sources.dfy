/** River sources: fixed springs that accumulate a fractional flow every tick
    and emit one droplet per whole unit accumulated. */
module Sources {
  import opened Vectors
  import opened Grid

  const U32Max: int := 4294967295

  /** Rust's `as u32` on a float saturates at both ends. */
  function SaturateU32(d: int): (r: nat)
    ensures r <= U32Max
    ensures 0 <= d <= U32Max ==> r == d
    ensures d < 0 ==> r == 0
    ensures d > U32Max ==> r == U32Max
  {
    if d < 0 then 0 else if d > U32Max then U32Max else d
  }

  /** Outcome of one tick of an emitter: the whole drops released and the
      fractional stock carried over. */
  datatype Emission = Emission(drops: int, stock: real)

  /** One tick of the fractional-rate emitter: the stock plus the flux splits
      into a whole number of drops and a remainder in [0, 1). */
  function Emit(stock: real, flux: real): (e: Emission)
    ensures 0.0 <= e.stock < 1.0
    ensures e.drops as real + e.stock == stock + flux
  {
    var acc := stock + flux;
    var drops := acc.Floor;
    Emission(drops, acc - drops as real)
  }

  /** The drops are the floor of stock plus flux, and never negative for a
      non-negative flux and stock. */
  lemma EmitDrops(stock: real, flux: real)
    requires 0.0 <= stock && 0.0 <= flux
    ensures Emit(stock, flux).drops == (stock + flux).Floor
    ensures Emit(stock, flux).drops >= 0
    ensures 0.0 <= stock < 1.0 && flux < 1.0 ==> Emit(stock, flux).drops <= 1
  {
  }

  /** T consecutive ticks from a given stock: total drops and final stock. */
  function Run(stock: real, flux: real, t: nat): (r: Emission)
    ensures t > 0 ==> 0.0 <= r.stock < 1.0
  {
    if t == 0 then Emission(0, stock)
    else
      var prev := Run(stock, flux, t - 1);
      var e := Emit(prev.stock, flux);
      Emission(prev.drops + e.drops, e.stock)
  }

  /** Nothing is lost: over T ticks the drops emitted plus the stock left equal
      the initial stock plus T times the flux, and the stock stays in [0, 1). */
  lemma {:induction false} RunConserves(stock: real, flux: real, t: nat)
    requires 0.0 <= stock < 1.0
    ensures Run(stock, flux, t).drops as real + Run(stock, flux, t).stock == stock + Inflow(flux, t)
    ensures 0.0 <= Run(stock, flux, t).stock < 1.0
  {
    if t > 0 {
      RunConserves(stock, flux, t - 1);
      MoreTicks(t, flux);
      var prev := Run(stock, flux, t - 1);
      var e := Emit(prev.stock, flux);
      assert Run(stock, flux, t) == Emission(prev.drops + e.drops, e.stock);
    }
  }

  /** The flow received over `t` ticks. */
  function Inflow(flux: real, t: nat): real {
    t as real * flux
  }

  lemma MoreTicks(t: nat, flux: real)
    requires t > 0
    ensures Inflow(flux, t) == Inflow(flux, t - 1) + flux
  {
  }

  /** A source created with an empty stock has emitted exactly floor(T * flux)
      drops after T ticks: the long-run rate is exactly the flux. */
  lemma RunFromEmpty(flux: real, t: nat)
    ensures Run(0.0, flux, t).drops == (t as real * flux).Floor
  {
    RunConserves(0.0, flux, t);
  }

  /** A spring: fixed position and flux, and a stock updated every tick. */
  class Source {
    const pos: Vec2
    const flux: real
    var stock: real

    constructor (pos: Vec2, flux: real)
      ensures this.pos == pos && this.flux == flux && stock == 0.0
    {
      this.pos := pos;
      this.flux := flux;
      stock := 0.0;
    }

    /** Adds the flux to the stock, releases its whole part as drops and keeps
        the fraction. */
    method Flow() returns (drops: nat)
      modifies this
      ensures stock == Emit(old(stock), flux).stock
      ensures drops == SaturateU32(Emit(old(stock), flux).drops)
      ensures 0.0 <= stock < 1.0
    {
      stock := stock + flux;
      var whole := stock.Floor;
      stock := stock - whole as real;
      drops := SaturateU32(whole);
    }
  }

  /** Candidate positions kept as springs: those whose cell lies above 0.3. */
  function Springs(heights: seq<real>, size: nat, candidates: seq<Vec2>): (r: seq<Vec2>)
    requires size >= 1 && |heights| == size * size
    ensures |r| <= |candidates|
    ensures forall k :: 0 <= k < |r| ==> r[k] in candidates && HeightIn(heights, size, r[k]) > 0.3
  {
    if candidates == [] then []
    else
      var last := candidates[|candidates| - 1];
      Springs(heights, size, candidates[..|candidates| - 1]) +
        (if HeightIn(heights, size, last) > 0.3 then [last] else [])
  }

  /** A position is a spring exactly when it is a candidate above 0.3. */
  lemma {:induction false} SpringsKeep(heights: seq<real>, size: nat, candidates: seq<Vec2>, p: Vec2)
    requires size >= 1 && |heights| == size * size
    ensures p in Springs(heights, size, candidates) <==> p in candidates && HeightIn(heights, size, p) > 0.3
  {
    if candidates != [] {
      var init := candidates[..|candidates| - 1];
      SpringsKeep(heights, size, init, p);
      assert candidates == init + [candidates[|candidates| - 1]];
    }
  }

  /** Source placement at startup, over candidate positions given as input:
      a new source entity of flux 0.01 at every candidate whose cell lies
      above 0.3, so no two returned sources are the same object. */
  method SetupSources(e: Elevation, candidates: seq<Vec2>) returns (sources: seq<Source>)
    requires e.Valid() && e.size >= 1
    ensures |sources| == |Springs(e.data[..], e.size, candidates)|
    ensures forall k :: 0 <= k < |sources| ==>
              fresh(sources[k]) && sources[k].pos == Springs(e.data[..], e.size, candidates)[k] &&
              sources[k].flux == 0.01 && sources[k].stock == 0.0
  ensures forall i, j :: 0 <= i < j < |sources| ==> sources[i] != sources[j]
  {
    sources := [];
    for i := 0 to |candidates|
      invariant |sources| == |Springs(e.data[..], e.size, candidates[..i])|
      invariant forall k :: 0 <= k < |sources| ==>
                  fresh(sources[k]) && sources[k].pos == Springs(e.data[..], e.size, candidates[..i])[k] &&
                  sources[k].flux == 0.01 && sources[k].stock == 0.0
      invariant forall i, j :: 0 <= i < j < |sources| ==> sources[i] != sources[j]
    {
      assert candidates[..i + 1][..i] == candidates[..i];
      var pos := candidates[i];
      if e.data[Unroll(pos, e.size)] > 0.3 {
        var s := new Source(pos, 0.01);
        sources := sources + [s];
      }
    }
    assert candidates[..|candidates|] == candidates;
  }
}
