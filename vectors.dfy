/** Two-dimensional vectors over the reals, standing in for the f32 `Vec2` of
    the simulation, and the two floating-point library operations the erosion
    step relies on (`sqrt` and `normalize`), which enter the model as function
    parameters constrained by the predicates below. */
module Vectors {

  datatype Vec2 = Vec2(x: real, y: real)

  const Zero: Vec2 := Vec2(0.0, 0.0)

  function Plus(a: Vec2, b: Vec2): Vec2 {
    Vec2(a.x + b.x, a.y + b.y)
  }

  function Minus(a: Vec2, b: Vec2): Vec2 {
    Vec2(a.x - b.x, a.y - b.y)
  }

  function Scale(a: Vec2, k: real): Vec2 {
    Vec2(a.x * k, a.y * k)
  }

  function LengthSquared(a: Vec2): real {
    a.x * a.x + a.y * a.y
  }

  function Max(a: real, b: real): (m: real)
    ensures m >= a && m >= b && (m == a || m == b)
  {
    if a >= b then a else b
  }

  function Min(a: real, b: real): (m: real)
    ensures m <= a && m <= b && (m == a || m == b)
  {
    if a <= b then a else b
  }

  /** What the model assumes of `f32::sqrt`: on non-negative arguments it
      returns the non-negative square root. */
  ghost predicate IsSqrt(sqrt: real -> real) {
    forall x {:trigger sqrt(x)} :: x >= 0.0 ==> sqrt(x) >= 0.0 && sqrt(x) * sqrt(x) == x
  }

  /** What the model assumes of `Vec2::normalize`: a non-zero vector is sent to
      the unit vector pointing the same way. The zero vector (for which the
      library yields NaN components) is left unconstrained. */
  ghost predicate IsNormalize(normalize: Vec2 -> Vec2) {
    forall v {:trigger normalize(v)} :: v != Zero ==>
      var n := normalize(v);
      LengthSquared(n) == 1.0 &&
      n.x * v.y == n.y * v.x &&
      n.x * v.x + n.y * v.y > 0.0
  }
}
