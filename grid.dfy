/** The elevation grid: a square heightmap of `size * size` cells stored flat
    in row-major order (cell (x, y) lives at index x + y * size), the
    projection of continuous positions onto it, its finite-difference
    gradient and the 3x3 stencil through which droplets add or remove height. */
module Grid {
  import opened Vectors

  function Abs(n: int): nat {
    if n < 0 then -n else n
  }

  /** Sum of a sequence of heights: the total mass of the terrain. */
  function Sum(s: seq<real>): real {
    if |s| == 0 then 0.0 else Sum(s[..|s| - 1]) + s[|s| - 1]
  }

  /** Replacing one height changes the total by exactly the difference. */
  lemma {:induction false} SumUpdate(s: seq<real>, i: nat, x: real)
    requires i < |s|
    ensures Sum(s[i := x]) == Sum(s) - s[i] + x
  {
    var t := s[i := x];
    if i < |s| - 1 {
      assert t[..|t| - 1] == s[..|s| - 1][i := x];
      SumUpdate(s[..|s| - 1], i, x);
    } else {
      assert t[..|t| - 1] == s[..|s| - 1];
    }
  }

  // ---------------------------------------------------------------------------
  // Projection of a continuous position onto a flat cell index

  /** One coordinate clamped to the column (or row) range [0, size - 1]; inside
      the grid the `as usize` conversion truncates, which for a non-negative
      value is the floor. */
  function Axis(c: real, size: nat): (k: nat)
    requires size >= 1
    ensures k < size
  {
    if c < 0.0 then 0
    else if c >= size as real then size - 1
    else c.Floor
  }

  /** Flat row-major index of the cell containing `pos`; the column is reduced
      modulo `size` as the source does, which is a no-op after clamping. */
  function Unroll(pos: Vec2, size: nat): (i: nat)
    requires size >= 1
    ensures i < size * size
  {
    var x := Axis(pos.x, size);
    var y := Axis(pos.y, size);
    CellIndexBound(x % size, y, size);
    x % size + y * size
  }

  lemma CellIndexBound(x: nat, y: nat, size: nat)
    requires x < size && y < size
    ensures x + y * size < size * size
  {
    assert y * size <= (size - 1) * size;
  }

  /** Multiplying by a natural number preserves order. */
  lemma MulMono(a: int, b: int, n: nat)
    ensures a <= b ==> a * n <= b * n
  {
    if a <= b {
      assert b * n - a * n == (b - a) * n;
    }
  }

  /** The cell at column x and row y has column i % size and row i / size. */
  lemma CellCoords(x: nat, y: nat, size: nat)
    requires x < size
    ensures (x + y * size) % size == x && (x + y * size) / size == y
  {
    var i := x + y * size;
    var q, r := i / size, i % size;
    assert i == q * size + r;
    assert (y - q) * size == r - x;
    MulMono(1, y - q, size);
    MulMono(y - q, -1, size);
  }

  /** Clamping at every border, and plain truncation inside the grid. */
  lemma UnrollClamp(pos: Vec2, size: nat)
    requires size >= 1
    ensures pos.x < 0.0 ==> Unroll(pos, size) % size == 0
    ensures pos.x >= size as real ==> Unroll(pos, size) % size == size - 1
    ensures pos.y < 0.0 ==> Unroll(pos, size) / size == 0
    ensures pos.y >= size as real ==> Unroll(pos, size) / size == size - 1
    ensures 0.0 <= pos.x < size as real && 0.0 <= pos.y < size as real ==>
              Unroll(pos, size) == pos.x.Floor + pos.y.Floor * size
  {
    var x, y := Axis(pos.x, size), Axis(pos.y, size);
    assert x % size == x;
    CellCoords(x, y, size);
  }

  // ---------------------------------------------------------------------------
  // The 2x2 gradient window

  /** The top-left corner of the 2x2 window used by the gradient at cell `i`:
      shifted one column left on the last column and one row up on the last
      row (the source compares with the data length, which is size * size). */
  function Window(i: nat, size: nat): (j: nat)
    requires size >= 2 && i < size * size
    ensures j % size < size - 1
    ensures j + 1 + size < size * size
    ensures i == j || i == j + 1 || i == j + size || i == j + 1 + size
  {
    var i1 := if i % size == size - 1 then i - 1 else i;
    var j := if i1 + size >= size * size then i1 - size else i1;
    WindowBounds(i, size, i1, j);
    j
  }

  lemma WindowBounds(i: nat, size: nat, i1: int, j: int)
    requires size >= 2 && i < size * size
    requires i1 == if i % size == size - 1 then i - 1 else i
    requires j == if i1 + size >= size * size then i1 - size else i1
    ensures 0 <= j && j % size < size - 1 && j + 1 + size < size * size
  {
    var q, r := i / size, i % size;
    SplitIndex(i, size);
    var r1 := if r == size - 1 then size - 2 else r;
    var q1 := if q == size - 1 then size - 2 else q;
    assert i1 == r1 + q * size by {
      if r == size - 1 {
        assert i1 == i - 1;
      } else {
        assert i1 == i;
      }
    }
    WindowRow(r1, q, q1, size, i1, j);
    CellCoords(r1, q1, size);
  }

  /** A cell index splits into its column and a row below size. */
  lemma SplitIndex(i: nat, size: nat)
    requires size >= 1 && i < size * size
    ensures i == i % size + (i / size) * size && 0 <= i / size < size
  {
    MulMono(size, i / size, size);
  }

  /** The row shift of the window, in column/row coordinates. */
  lemma WindowRow(r1: nat, q: nat, q1: nat, size: nat, i1: int, j: int)
    requires size >= 2 && r1 <= size - 2 && q < size
    requires q1 == if q == size - 1 then size - 2 else q
    requires i1 == r1 + q * size
    requires j == if i1 + size >= size * size then i1 - size else i1
    ensures j == r1 + q1 * size && j + 1 + size < size * size
  {
    assert (size - 1) * size == size * size - size;
    assert (size - 2) * size == size * size - 2 * size;
    MulMono(q, size - 2, size);
  }

  // ---------------------------------------------------------------------------
  // The 3x3 stencil of `add`, visited in the source's loop order (dx outer,
  // dy inner): visit n of the nine is at offset (OffsetX(n), OffsetY(n)),
  // the column offset stepping every three visits and the row offset cycling
  // through -1, 0, 1 within each column.

  function OffsetX(n: nat): int {
    if n < 3 then -1 else if n < 6 then 0 else 1
  }

  function OffsetY(n: nat): int {
    n - 3 * (OffsetX(n) + 1) - 1
  }

  /** Share of the added value given to a neighbour at offset (dx, dy). */
  function Weight(dx: int, dy: int): real {
    var dist := Abs(dx) + Abs(dy);
    if dist == 2 then 0.05 else if dist == 1 then 0.1 else 0.4
  }

  /** The cell written at visit n: the neighbour position, clamped. */
  function Target(pos: Vec2, size: nat, n: nat): (t: nat)
    requires size >= 1
    ensures t < size * size
  {
    Unroll(Plus(pos, Vec2(OffsetX(n) as real, OffsetY(n) as real)), size)
  }

  /** What visit n of `add(pos, v)` adds to its target cell. */
  function Amount(v: real, n: nat): real {
    v * Weight(OffsetX(n), OffsetY(n))
  }

  /** The nine cells `add(pos, _)` writes, in visit order. */
  function Targets(pos: Vec2, size: nat): (ts: seq<nat>)
    requires size >= 1
    ensures |ts| == 9 && forall n :: 0 <= n < 9 ==> ts[n] < size * size
  {
    seq(9, n requires 0 <= n => Target(pos, size, n))
  }

  /** Total added to cell k by the first n visits to the cells `targets`. */
  function Gain(targets: seq<nat>, v: real, k: int, n: nat): real
    requires n <= |targets|
  {
    if n == 0 then 0.0
    else Gain(targets, v, k, n - 1) + (if targets[n - 1] == k then Amount(v, n - 1) else 0.0)
  }

  /** Total added to the grid by the first n visits. */
  function Poured(v: real, n: nat): real {
    if n == 0 then 0.0 else Poured(v, n - 1) + Amount(v, n - 1)
  }

  /** Visit n of the source's nested loops is the offset (dx, dy). */
  lemma VisitOffset(v: real, dx: int, dy: int, n: nat)
    requires -1 <= dx <= 1 && -1 <= dy <= 1 && n == 3 * (dx + 1) + (dy + 1)
    ensures OffsetX(n) == dx && OffsetY(n) == dy && Amount(v, n) == v * Weight(dx, dy)
  {
  }

  /** The nine weights 4 * 0.05 + 4 * 0.1 + 0.4 add up to one, so the nine
      visits together pour exactly v. */
  lemma PouredAll(v: real)
    ensures Poured(v, 9) == v
  {
    assert Amount(v, 0) == v * 0.05 && Amount(v, 1) == v * 0.1 && Amount(v, 2) == v * 0.05;
    assert Amount(v, 3) == v * 0.1 && Amount(v, 4) == v * 0.4 && Amount(v, 5) == v * 0.1;
    assert Amount(v, 6) == v * 0.05 && Amount(v, 7) == v * 0.1 && Amount(v, 8) == v * 0.05;
    assert Poured(v, 1) == v * 0.05;
    assert Poured(v, 2) == v * 0.15;
    assert Poured(v, 3) == v * 0.2;
    assert Poured(v, 4) == v * 0.3;
    assert Poured(v, 5) == v * 0.7;
    assert Poured(v, 6) == v * 0.8;
    assert Poured(v, 7) == v * 0.85;
    assert Poured(v, 8) == v * 0.95;
  }

  /** A cell that none of the nine visits writes receives nothing. */
  lemma {:induction false} GainOutside(targets: seq<nat>, v: real, k: int, n: nat)
    requires n <= |targets|
    requires k !in targets
    ensures Gain(targets, v, k, n) == 0.0
  {
    if n > 0 {
      GainOutside(targets, v, k, n - 1);
    }
  }

  /** A position whose whole 3x3 neighbourhood lies inside the grid. */
  predicate Interior(pos: Vec2, size: nat) {
    1.0 <= pos.x < size as real - 1.0 && 1.0 <= pos.y < size as real - 1.0
  }

  /** Away from the borders the visits hit nine distinct cells around the
      centre, visit n landing at offset (OffsetX(n), OffsetY(n)). */
  lemma TargetInterior(pos: Vec2, size: nat, n: nat)
    requires size >= 1 && Interior(pos, size) && n < 9
    ensures Target(pos, size, n) == Unroll(pos, size) + OffsetX(n) + OffsetY(n) * size
  {
    var ox, oy := OffsetX(n), OffsetY(n);
    AxisInterior(pos.x, size, ox);
    AxisInterior(pos.y, size, oy);
    AxisInterior(pos.x, size, 0);
    AxisInterior(pos.y, size, 0);
    var x, y := pos.x.Floor, pos.y.Floor;
    ColumnMod(x, size);
    ColumnMod(x + ox, size);
    assert Unroll(pos, size) == x + y * size;
    assert Target(pos, size, n) == (x + ox) + (y + oy) * size;
    Shift(x, y, ox, oy, size);
  }

  lemma ColumnMod(x: int, size: nat)
    requires 0 <= x < size
    ensures x % size == x
  {
    CellCoords(x, 0, size);
  }

  lemma Shift(x: int, y: int, ox: int, oy: int, size: nat)
    ensures (x + ox) + (y + oy) * size == (x + y * size) + ox + oy * size
  {
  }

  /** Inside the grid with a one-cell margin, a neighbouring coordinate is
      truncated to the neighbouring column. */
  lemma AxisInterior(c: real, size: nat, o: int)
    requires 1.0 <= c < size as real - 1.0 && -1 <= o <= 1
    ensures size >= 1 && Axis(c + o as real, size) == c.Floor + o
  {
    assert (c + o as real).Floor == c.Floor + o;
  }

  /** Two offsets of the stencil are told apart by their flat displacement. */
  lemma OffsetsDistinct(a: int, b: int, c: int, d: int, size: nat)
    requires size >= 3 && -1 <= a <= 1 && -1 <= b <= 1 && -1 <= c <= 1 && -1 <= d <= 1
    requires a + b * size == c + d * size
    ensures a == c && b == d
  {
    assert (b - d) * size == c - a;
    MulMono(1, b - d, size);
    MulMono(b - d, -1, size);
  }

  /** Inside the grid, visit m writes the cell at offset (dx, dy) from the
      centre exactly when m is the visit of that offset. */
  lemma VisitHits(pos: Vec2, size: nat, dx: int, dy: int, m: nat)
    requires size >= 1 && Interior(pos, size) && m < 9
    requires -1 <= dx <= 1 && -1 <= dy <= 1
    ensures Targets(pos, size)[m] == Unroll(pos, size) + dx + dy * size <==> m == 3 * (dx + 1) + (dy + 1)
  {
    TargetInterior(pos, size, m);
    if Targets(pos, size)[m] == Unroll(pos, size) + dx + dy * size {
      OffsetsDistinct(OffsetX(m), OffsetY(m), dx, dy, size);
    }
  }

  lemma {:induction false} GainInteriorUpTo(pos: Vec2, size: nat, v: real, dx: int, dy: int, n: nat)
    requires size >= 1 && Interior(pos, size) && n <= 9
    requires -1 <= dx <= 1 && -1 <= dy <= 1
    ensures Gain(Targets(pos, size), v, Unroll(pos, size) + dx + dy * size, n) ==
              if 3 * (dx + 1) + (dy + 1) < n then v * Weight(dx, dy) else 0.0
  {
    if n > 0 {
      var m := n - 1;
      GainInteriorUpTo(pos, size, v, dx, dy, m);
      VisitHits(pos, size, dx, dy, m);
      if m == 3 * (dx + 1) + (dy + 1) {
        VisitOffset(v, dx, dy, m);
      }
    }
  }

  /** For a position inside the grid, `add(pos, v)` gives 0.4 v to the centre
      cell, 0.1 v to each orthogonal neighbour and 0.05 v to each diagonal
      neighbour. */
  lemma GainInterior(pos: Vec2, size: nat, v: real, dx: int, dy: int)
    requires size >= 1 && Interior(pos, size)
    requires -1 <= dx <= 1 && -1 <= dy <= 1
    ensures Gain(Targets(pos, size), v, Unroll(pos, size) + dx + dy * size, 9) ==
              if dx == 0 && dy == 0 then 0.4 * v else if dx == 0 || dy == 0 then 0.1 * v else 0.05 * v
  {
    GainInteriorUpTo(pos, size, v, dx, dy, 9);
  }

  /** The heights after the first n visits, visit m adding Amount(v, m) to
      the cell targets[m]. */
  function Spread(heights: seq<real>, targets: seq<nat>, v: real, n: nat): (r: seq<real>)
    requires n <= |targets| && forall m :: 0 <= m < |targets| ==> targets[m] < |heights|
    ensures |r| == |heights|
  {
    if n == 0 then heights
    else
      var prev := Spread(heights, targets, v, n - 1);
      var t := targets[n - 1];
      prev[t := prev[t] + Amount(v, n - 1)]
  }

  /** The visits so far raise the terrain mass by what they poured. */
  lemma {:induction false} SpreadSum(heights: seq<real>, targets: seq<nat>, v: real, n: nat)
    requires n <= |targets| && forall m :: 0 <= m < |targets| ==> targets[m] < |heights|
    ensures Sum(Spread(heights, targets, v, n)) == Sum(heights) + Poured(v, n)
  {
    if n > 0 {
      SpreadSum(heights, targets, v, n - 1);
      var prev := Spread(heights, targets, v, n - 1);
      var t := targets[n - 1];
      SumUpdate(prev, t, prev[t] + Amount(v, n - 1));
    }
  }

  /** Each cell has gained what the visits so far added to it. */
  lemma {:induction false} SpreadAt(heights: seq<real>, targets: seq<nat>, v: real, n: nat, k: nat)
    requires n <= |targets| && forall m :: 0 <= m < |targets| ==> targets[m] < |heights|
    requires k < |heights|
    ensures Spread(heights, targets, v, n)[k] == heights[k] + Gain(targets, v, k, n)
  {
    if n > 0 {
      SpreadAt(heights, targets, v, n - 1, k);
    }
  }

  /** A cell that none of the visits targets keeps its height. */
  lemma SpreadOutside(heights: seq<real>, targets: seq<nat>, v: real, n: nat, k: nat)
    requires n <= |targets| && forall m :: 0 <= m < |targets| ==> targets[m] < |heights|
    requires k < |heights| && k !in targets
    ensures Spread(heights, targets, v, n)[k] == heights[k]
  {
    SpreadAt(heights, targets, v, n, k);
    GainOutside(targets, v, k, n);
  }

  /** Nine visits with the stencil's weights raise the terrain mass by exactly
      v, whichever cells they land on (at the borders several land on one). */
  lemma SpreadConserves(heights: seq<real>, targets: seq<nat>, v: real)
    requires |targets| == 9 && forall m :: 0 <= m < 9 ==> targets[m] < |heights|
    ensures Sum(Spread(heights, targets, v, 9)) == Sum(heights) + v
  {
    SpreadSum(heights, targets, v, 9);
    PouredAll(v);
  }

  /** Visit n of `add(pos, v)`, at offset (dx, dy), extends Spread by one
      write. */
  lemma VisitStep(heights: seq<real>, pos: Vec2, size: nat, v: real, dx: int, dy: int, n: nat,
                  before: seq<real>, after: seq<real>)
    requires size >= 1 && |heights| == size * size
    requires -1 <= dx <= 1 && -1 <= dy <= 1 && n == 3 * (dx + 1) + (dy + 1)
    requires before == Spread(heights, Targets(pos, size), v, n)
    requires var t := Unroll(Plus(pos, Vec2(dx as real, dy as real)), size);
             after == before[t := before[t] + v * Weight(dx, dy)]
    ensures after == Spread(heights, Targets(pos, size), v, n + 1)
  {
    VisitOffset(v, dx, dy, n);
    assert Targets(pos, size)[n] == Unroll(Plus(pos, Vec2(dx as real, dy as real)), size);
  }

  /** Finite-difference gradient at cell i of the heights: each component
      averages the two differences of the 2x2 window along that axis. */
  function Gradient(heights: seq<real>, size: nat, i: nat): Vec2
    requires size >= 2 && |heights| == size * size && i < |heights|
  {
    var j := Window(i, size);
    Vec2((heights[j + 1] - heights[j]) * 0.5 + (heights[j + 1 + size] - heights[j + size]) * 0.5,
         (heights[j + size] - heights[j]) * 0.5 + (heights[j + 1 + size] - heights[j + 1]) * 0.5)
  }

  /** Height of the cell containing `pos`, read from a snapshot of the grid. */
  function HeightIn(heights: seq<real>, size: nat, pos: Vec2): real
    requires size >= 1 && |heights| == size * size
  {
    heights[Unroll(pos, size)]
  }

  // ---------------------------------------------------------------------------

  /** The terrain heightmap. Its cells are updated in place; the array and the
      side length never change after construction. */
  class Elevation {
    const size: nat
    const data: array<real>

    ghost predicate Valid() {
      data.Length == size * size
    }

    /** The initial heights are an input of the model (the fractal-noise
        terrain generator is not part of it). */
    constructor (size: nat, heights: seq<real>)
      requires |heights| == size * size
      ensures Valid() && this.size == size && data[..] == heights && fresh(data)
    {
      this.size := size;
      data := new real[|heights|](k requires 0 <= k < |heights| => heights[k]);
    }

    /** Height of the cell at column x and row y. */
    function At(x: nat, y: nat): real
      reads data
      requires Valid() && x < size && y < size
    {
      CellIndexBound(x, y, size);
      data[x + y * size]
    }

    /** The gradient of the current heights at cell i. */
    function Grad(i: nat): Vec2
      reads data
      requires Valid() && size >= 2 && i < data.Length
    {
      Gradient(data[..], size, i)
    }

    /** Adds `v` to the grid around `pos`, spread over the 3x3 neighbourhood;
        neighbours off the grid are clamped onto the border cells. */
    method Add(pos: Vec2, v: real)
      requires Valid() && size >= 1
      modifies data
      ensures data[..] == Spread(old(data[..]), Targets(pos, size), v, 9)
      ensures Sum(data[..]) == old(Sum(data[..])) + v
    {
      ghost var heights := data[..];
      ghost var n: nat := 0;
      for dx := -1 to 2
        invariant n == 3 * (dx + 1)
        invariant data[..] == Spread(heights, Targets(pos, size), v, n)
      {
        for dy := -1 to 2
          invariant n == 3 * (dx + 1) + (dy + 1)
          invariant data[..] == Spread(heights, Targets(pos, size), v, n)
        {
          Visit(pos, v, dx, dy, heights, n);
          n := n + 1;
        }
      }
      SpreadConserves(heights, Targets(pos, size), v);
    }

    /** One pass of the inner loop of `Add`: the write at offset (dx, dy). */
    method Visit(pos: Vec2, v: real, dx: int, dy: int, ghost heights: seq<real>, ghost n: nat)
      requires Valid() && size >= 1 && |heights| == size * size
      requires -1 <= dx <= 1 && -1 <= dy <= 1 && n == 3 * (dx + 1) + (dy + 1)
      requires data[..] == Spread(heights, Targets(pos, size), v, n)
      modifies data
      ensures data[..] == Spread(heights, Targets(pos, size), v, n + 1)
    {
      var delta := Vec2(dx as real, dy as real);
      var t := Unroll(Plus(pos, delta), size);
      var share := v * Weight(dx, dy);
      ghost var before := data[..];
      Raise(t, share);
      VisitStep(heights, pos, size, v, dx, dy, n, before, data[..]);
    }

    /** Raises the cell at index `t` by `share`, leaving the others alone. */
    method Raise(t: nat, share: real)
      requires t < data.Length
      modifies data
      ensures data[..] == old(data[..])[t := old(data[..])[t] + share]
    {
      data[t] := data[t] + share;
    }
  }

  /** On a grid whose heights form a plane a * x + b * y + c, the gradient at
      every cell, borders included, is (a, b). */
  lemma GradPlane(e: Elevation, i: nat, a: real, b: real, c: real)
    requires e.Valid() && e.size >= 2 && i < e.data.Length
    requires forall x: nat, y: nat :: x < e.size && y < e.size ==>
               e.At(x, y) == a * x as real + b * y as real + c
    ensures e.Grad(i) == Vec2(a, b)
  {
    var x, y := GradWindow(e, i);
    PlaneSteps(e, a, b, c, x, y);
    PlaneSteps(e, a, b, c, x, y + 1);
    PlaneSteps(e, a, b, c, x + 1, y);
  }

  /** On a plane grid, one step right adds a and one step down adds b. */
  lemma PlaneSteps(e: Elevation, a: real, b: real, c: real, x: nat, y: nat)
    requires e.Valid() && x < e.size && y < e.size
    requires forall x: nat, y: nat :: x < e.size && y < e.size ==>
               e.At(x, y) == a * x as real + b * y as real + c
    ensures x + 1 < e.size ==> e.At(x + 1, y) - e.At(x, y) == a
    ensures y + 1 < e.size ==> e.At(x, y + 1) - e.At(x, y) == b
  {
    assert a * (x + 1) as real == a * x as real + a;
    assert b * (y + 1) as real == b * y as real + b;
  }

  /** The gradient at cell i in terms of the four heights of its window. */
  lemma GradWindow(e: Elevation, i: nat) returns (x: nat, y: nat)
    requires e.Valid() && e.size >= 2 && i < e.data.Length
    ensures x + 1 < e.size && y + 1 < e.size
    ensures x + y * e.size == Window(i, e.size)
    ensures e.Grad(i) == Vec2((e.At(x + 1, y) - e.At(x, y)) * 0.5 + (e.At(x + 1, y + 1) - e.At(x, y + 1)) * 0.5,
                              (e.At(x, y + 1) - e.At(x, y)) * 0.5 + (e.At(x + 1, y + 1) - e.At(x + 1, y)) * 0.5)
  {
    x, y := WindowCorner(Window(i, e.size), e.size);
  }

  /** The column and row of the top-left corner of a gradient window; the
      whole 2x2 window lies on the grid. */
  lemma WindowCorner(j: nat, size: nat) returns (x: nat, y: nat)
    requires size >= 2 && j % size < size - 1 && j + 1 + size < size * size
    ensures x + 1 < size && y + 1 < size
    ensures j == x + y * size && j + 1 == (x + 1) + y * size
    ensures j + size == x + (y + 1) * size && j + 1 + size == (x + 1) + (y + 1) * size
  {
    x, y := j % size, j / size;
    SplitIndex(j, size);
    assert (y + 1) * size == y * size + size;
    MulMono(size, y + 1, size);
  }

  /** If no row varies from one column to the next, the gradient has no
      x component. */
  lemma GradRowFlat(e: Elevation, i: nat)
    requires e.Valid() && e.size >= 2 && i < e.data.Length
    requires forall x: nat, y: nat :: x + 1 < e.size && y < e.size ==> e.At(x + 1, y) == e.At(x, y)
    ensures e.Grad(i).x == 0.0
  {
    var x, y := GradWindow(e, i);
    assert e.At(x + 1, y) == e.At(x, y) && e.At(x + 1, y + 1) == e.At(x, y + 1);
  }

  /** On a constant grid the gradient vanishes. */
  lemma GradFlat(e: Elevation, i: nat, c: real)
    requires e.Valid() && e.size >= 2 && i < e.data.Length
    requires forall k :: 0 <= k < e.data.Length ==> e.data[k] == c
    ensures e.Grad(i) == Zero
  {
    FlatPlane(e, c);
    GradPlane(e, i, 0.0, 0.0, c);
  }

  lemma FlatPlane(e: Elevation, c: real)
    requires e.Valid()
    requires forall k :: 0 <= k < e.data.Length ==> e.data[k] == c
    ensures forall x: nat, y: nat :: x < e.size && y < e.size ==>
              e.At(x, y) == 0.0 * x as real + 0.0 * y as real + c
  {
    forall x: nat, y: nat | x < e.size && y < e.size
      ensures e.At(x, y) == c
    {
      CellIndexBound(x, y, e.size);
    }
  }
}
