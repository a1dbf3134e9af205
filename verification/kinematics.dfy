/** The per-point arithmetic of the integration loop, shared by both physics
    engines: semi-implicit Euler with linear drag, reflection at the walls of the
    square [-1, 1] x [-1, 1] shrunk by the player radius, and the collision flag. */
module Kinematics {
  import opened Common

  /** The dimension both engines are built with. */
  const Dim: nat := 2

  function Abs(x: real): real {
    if x < 0.0 then -x else x
  }

  function Min(a: real, b: real): real {
    if a <= b then a else b
  }

  function Max(a: real, b: real): real {
    if a >= b then a else b
  }

  /** The result of one axis of one integration step. `hit` records that the
      unclamped position overshot the wall. */
  datatype AxisStep = AxisStep(position: real, velocity: real, hit: bool)

  /** The unclamped velocity after one step: the drag update `v + (a - gamma v) dt`. */
  function DraggedVelocity(v: real, a: real, dt: real, gamma: real): real {
    v + (a - gamma * v) * dt
  }

  /** One unclamped step of one axis: the new velocity first, then the position
      moved with the new velocity. Returns (position, velocity). */
  function FreeStep(p: real, v: real, a: real, dt: real, gamma: real): (real, real) {
    (p + DraggedVelocity(v, a, dt, gamma) * dt, DraggedVelocity(v, a, dt, gamma))
  }

  /** One axis of the integration loop body: update the velocity, then move the
      position with the NEW velocity; on overshoot reflect the velocity, and clamp
      the position to [-bound, bound]. */
  function StepAxis(p: real, v: real, a: real, dt: real, gamma: real, bound: real): AxisStep {
    var v1 := v + a * dt - gamma * v * dt;
    var p1 := p + v1 * dt;
    var hit := Abs(p1) > bound;
    AxisStep(Max(-bound, Min(bound, p1)), if hit then -v1 else v1, hit)
  }

  /** One axis step against the unclamped step: a hit exactly when the free
      position overshoots, the velocity reflected exactly then, and the position
      clamped into the walls — equal to the free one when nothing was hit and on
      the wall it overshot otherwise. */
  lemma StepAxisFacts(p: real, v: real, a: real, dt: real, gamma: real, bound: real)
    ensures var r := StepAxis(p, v, a, dt, gamma, bound);
            var f := FreeStep(p, v, a, dt, gamma);
            && (r.hit <==> Abs(f.0) > bound)
            && r.velocity == (if r.hit then -f.1 else f.1)
            && (0.0 <= bound ==> -bound <= r.position <= bound)
            && (0.0 <= bound && !r.hit ==> r.position == f.0)
            && (0.0 <= bound && r.hit ==> r.position == (if f.0 > 0.0 then bound else -bound))
  {
    assert v + a * dt - gamma * v * dt == DraggedVelocity(v, a, dt, gamma);
  }

  /** One integration step of a whole point. */
  datatype RowStep = RowStep(position: Vec2, velocity: Vec2, hit: bool)

  function StepRow(pos: Vec2, vel: Vec2, acc: Vec2, dt: real, gamma: real, radius: real): RowStep {
    var sx := StepAxis(pos.x, vel.x, acc.x, dt, gamma, 1.0 - radius);
    var sy := StepAxis(pos.y, vel.y, acc.y, dt, gamma, 1.0 - radius);
    RowStep(Vec2(sx.position, sy.position), Vec2(sx.velocity, sy.velocity), sx.hit || sy.hit)
  }

  /** A point lies inside the walls for a player of radius `radius`. */
  predicate InBounds(p: Vec2, radius: real) {
    -(1.0 - radius) <= p.x <= 1.0 - radius && -(1.0 - radius) <= p.y <= 1.0 - radius
  }

  lemma StepRowFacts(pos: Vec2, vel: Vec2, acc: Vec2, dt: real, gamma: real, radius: real)
    requires radius <= 1.0
    ensures var r := StepRow(pos, vel, acc, dt, gamma, radius);
            var fx := FreeStep(pos.x, vel.x, acc.x, dt, gamma);
            var fy := FreeStep(pos.y, vel.y, acc.y, dt, gamma);
            && InBounds(r.position, radius)
            && (r.hit <==> Abs(fx.0) > 1.0 - radius || Abs(fy.0) > 1.0 - radius)
            && r.velocity.x == (if Abs(fx.0) > 1.0 - radius then -fx.1 else fx.1)
            && r.velocity.y == (if Abs(fy.0) > 1.0 - radius then -fy.1 else fy.1)
  {
    StepAxisFacts(pos.x, vel.x, acc.x, dt, gamma, 1.0 - radius);
    StepAxisFacts(pos.y, vel.y, acc.y, dt, gamma, 1.0 - radius);
  }

  /** JavaScript's `array > 0` on a typed array of the given length whose first
      element is `first`: the array converts to the comma-joined string of its
      elements, which converts to NaN once there are two or more elements (and to 0
      when the array is empty), so only a one-element array can compare above zero. */
  function TypedArrayAboveZero(length: nat, first: real): bool {
    length == 1 && first > 0.0
  }

  /** The collision flag as computed by the loop body: `1 << (2 * dim + (pos > 0 ? 1 : 0))`,
      where `pos` is the whole position array and `dim` the dimension, not the axis. */
  function CollisionFlagAsWritten(positionsLength: nat, first: real): (r: u32)
    ensures positionsLength >= 2 ==> r == CollisionFlag
    ensures r == 16 || r == 32
  {
    if TypedArrayAboveZero(positionsLength, first) then 32 else 16
  }

  /** The value every `collisions` entry of an overshooting point ends with. */
  const CollisionFlag: u32 := 16

  /** `x | flag` on a `Uint32Array` entry, for the two single-bit flags the loop
      body can compute: the bit is added unless it is already set. */
  function OrFlag(x: u32, flag: u32): (r: u32)
    requires flag == 16 || flag == 32
    ensures x <= r && (r == x || r == x + flag)
    ensures r != 0
  {
    if flag == 16 then (if (x / 16) % 2 == 1 then x else OrBitRoom(x, 16); x + 16)
    else (if (x / 32) % 2 == 1 then x else OrBitRoom(x, 32); x + 32)
  }

  /** Setting a clear bit of a 32-bit value stays within 32 bits. */
  lemma OrBitRoom(x: u32, flag: nat)
    requires flag == 16 || flag == 32
    requires (x / flag) % 2 == 0
    ensures x + flag < 0x1_0000_0000
  {
    var q := x / flag;
    assert x == q * flag + x % flag;
    if flag == 16 {
      assert q < 0x1000_0000;
    } else {
      assert q < 0x800_0000;
    }
  }

  /** Or-ing the same flag twice is or-ing it once. */
  lemma OrFlagTwice(x: u32, flag: u32)
    requires flag == 16 || flag == 32
    ensures OrFlag(OrFlag(x, flag), flag) == OrFlag(x, flag)
  {
  }

  /** `collisions[i] |= flag` when `hit`. */
  function MarkCollision(c: seq<u32>, i: nat, flag: u32, hit: bool): (r: seq<u32>)
    requires i < |c| && (flag == 16 || flag == 32)
    ensures |r| == |c|
  {
    if hit then c[i := OrFlag(c[i], flag)] else c
  }

  /** `n` unclamped steps of one axis with constant acceleration: the reference
      trajectory of semi-implicit Euler with drag. Returns (position, velocity). */
  function FreeRun(p: real, v: real, a: real, dt: real, gamma: real, n: nat): (real, real)
    decreases n
  {
    if n == 0 then (p, v)
    else FreeRun(FreeStep(p, v, a, dt, gamma).0, FreeStep(p, v, a, dt, gamma).1, a, dt, gamma, n - 1)
  }

  /** `n` steps of `StepAxis` with constant acceleration and bound. */
  function Run(p: real, v: real, a: real, dt: real, gamma: real, bound: real, n: nat): (real, real)
    decreases n
  {
    if n == 0 then (p, v)
    else Run(StepAxis(p, v, a, dt, gamma, bound).position, StepAxis(p, v, a, dt, gamma, bound).velocity, a, dt, gamma, bound, n - 1)
  }

  /** The free trajectory stays inside the walls for steps 1..n. */
  predicate StaysInside(p: real, v: real, a: real, dt: real, gamma: real, bound: real, n: nat)
    decreases n
  {
    n == 0 ||
    (Abs(FreeStep(p, v, a, dt, gamma).0) <= bound
     && StaysInside(FreeStep(p, v, a, dt, gamma).0, FreeStep(p, v, a, dt, gamma).1, a, dt, gamma, bound, n - 1))
  }

  /** While no wall is reached, the clamped integrator follows the free trajectory. */
  lemma {:induction false} RunIsFreeInside(p: real, v: real, a: real, dt: real, gamma: real, bound: real, n: nat)
    requires 0.0 <= bound
    requires StaysInside(p, v, a, dt, gamma, bound, n)
    ensures Run(p, v, a, dt, gamma, bound, n) == FreeRun(p, v, a, dt, gamma, n)
    decreases n
  {
    if n > 0 {
      var f := FreeStep(p, v, a, dt, gamma);
      StepAxisFacts(p, v, a, dt, gamma, bound);
      RunIsFreeInside(f.0, f.1, a, dt, gamma, bound, n - 1);
    }
  }

  /** Running n + 1 free steps is running n and then one more. */
  lemma {:induction false} FreeRunShift(p: real, v: real, a: real, dt: real, gamma: real, n: nat)
    ensures var s := FreeRun(p, v, a, dt, gamma, n);
            FreeRun(p, v, a, dt, gamma, n + 1) == FreeStep(s.0, s.1, a, dt, gamma)
    decreases n
  {
    if n > 0 {
      var f := FreeStep(p, v, a, dt, gamma);
      FreeRunShift(f.0, f.1, a, dt, gamma, n - 1);
    }
  }

  /** Without drag and from rest, n steps give velocity `a n dt` and position
      `p0 + a dt^2 n (n + 1) / 2`, the closed form of semi-implicit Euler. */
  lemma {:induction false} FreeRunClosedForm(p: real, v: real, a: real, dt: real, gamma: real, n: nat)
    requires v == 0.0 && gamma == 0.0
    ensures FreeRun(p, v, a, dt, gamma, n).0 == p + a * dt * dt * Triangle(n) / 2.0
    ensures FreeRun(p, v, a, dt, gamma, n).1 == a * (n as real) * dt
    decreases n
  {
    if n > 0 {
      FreeRunShift(p, v, a, dt, gamma, n - 1);
      FreeRunClosedForm(p, v, a, dt, gamma, n - 1);
      var x := (n - 1) as real;
      var m := FreeRun(p, v, a, dt, gamma, n - 1);
      assert m.0 == p + a * dt * dt * (x * (x + 1.0)) / 2.0;
      assert (n as real) == x + 1.0;
      ClosedFormVelocity(a, dt, x);
      ClosedFormPosition(p, a, dt, x);
      var d := DraggedVelocity(m.1, a, dt, gamma);
      assert d == a * (x + 1.0) * dt;
      assert FreeStep(m.0, m.1, a, dt, gamma).0 == m.0 + d * dt;
      assert Triangle(n) == (x + 1.0) * (x + 2.0);
    } else {
      assert Triangle(n) == 0.0;
    }
  }

  /** `n (n + 1)`, twice the n-th triangular number. */
  function Triangle(n: nat): real {
    (n as real) * ((n as real) + 1.0)
  }

  lemma ClosedFormVelocity(a: real, dt: real, x: real)
    ensures a * x * dt + (a - 0.0 * (a * x * dt)) * dt == a * (x + 1.0) * dt
  {
  }

  lemma ClosedFormPosition(p: real, a: real, dt: real, x: real)
    ensures p + a * dt * dt * (x * (x + 1.0)) / 2.0 + a * (x + 1.0) * dt * dt
         == p + a * dt * dt * ((x + 1.0) * (x + 2.0)) / 2.0
  {
  }
}
