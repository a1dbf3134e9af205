/** The input subsystem: a table of controller slots (pointer-driven or
    computer-driven) that the roster reads every tick, and the pointer joystick
    whose axes the pointer slots copy. The DOM geometry (the canvas's bounding
    rectangle), the clock (`performance.now`) and `Math.random` are parameters. */
module Input {
  import opened Common
  import Kinematics

  /** The slot type tags of the `types` column. */
  const Cpu: u8 := 1
  const Pointer: u8 := 2

  /** `InputState`: `count` slots in use out of a capacity of `|types|`; a slot is
      connected when its `connected` entry is nonzero. The `type` and `action`
      columns are allocated but never read or written, so they are not carried. */
  datatype InputState = InputState(count: nat, types: seq<u8>, connected: seq<u8>, playerIds: seq<u32>,
                                   inputX: seq<real>, inputY: seq<real>, time: real)
  {
    predicate Valid() {
      |connected| == |types| && |playerIds| == |types| && |inputX| == |types| && |inputY| == |types|
      && count <= |types|
    }

    function Capacity(): nat {
      |types|
    }

    /** Every input axis of every slot lies in [-1, 1]. */
    predicate AxesBounded() {
      && (forall i | 0 <= i < |inputX| :: -1.0 <= inputX[i] <= 1.0)
      && (forall i | 0 <= i < |inputY| :: -1.0 <= inputY[i] <= 1.0)
    }
  }

  /** A freshly allocated `InputState`: every column zero. */
  function EmptyInput(capacity: nat): (s: InputState)
    ensures s.Valid() && s.count == 0 && s.Capacity() == capacity && s.AxesBounded()
  {
    InputState(0, Zeros(capacity, 0), Zeros(capacity, 0), Zeros(capacity, 0), Zeros(capacity, 0.0), Zeros(capacity, 0.0), 0.0)
  }

  /** `Input.init`: the first `players` slots are pointer slots, the next `cpus`
      are computer slots, all connected with a zero input and the id drawn for
      that slot; the remaining rows stay as allocated. */
  function Init(capacity: nat, players: nat, cpus: nat, idDraw: nat -> u32, time: real): (s: InputState)
    requires players + cpus <= capacity
    ensures s.Valid() && s.Capacity() == capacity && s.count == players + cpus && s.time == time
    ensures forall i | 0 <= i < s.count ::
              && s.types[i] == (if i < players then Pointer else Cpu)
              && s.connected[i] == 1 && s.playerIds[i] == idDraw(i)
              && s.inputX[i] == 0.0 && s.inputY[i] == 0.0
    ensures forall i | s.count <= i < capacity :: s.types[i] == 0 && s.connected[i] == 0 && s.playerIds[i] == 0
    ensures s.AxesBounded()
  {
    var n := players + cpus;
    InputState(n,
               seq(capacity, i => if i < players then Pointer else if i < n then Cpu else 0),
               seq(capacity, i => if i < n then 1 else 0),
               seq(capacity, i => if 0 <= i < n then idDraw(i) else 0),
               Zeros(capacity, 0.0), Zeros(capacity, 0.0), time)
  }

  /** The three `Math.random()` draws a computer slot may consume in one tick:
      the trigger `u` and the two fresh axes, each in [0, 1). */
  datatype CpuDraw = CpuDraw(u: real, rx: real, ry: real)
  {
    predicate Valid() {
      0.0 <= u < 1.0 && 0.0 <= rx < 1.0 && 0.0 <= ry < 1.0
    }
  }

  /** The new input of slot `i`: a pointer slot copies the joystick axes, a
      computer slot redraws both axes as `2 (r - 0.5)` when its trigger draw is
      below `dt` and keeps them otherwise, any other slot keeps them. */
  function SlotInput(s: InputState, i: nat, dt: real, axes: Vec2, draw: CpuDraw): (v: Vec2)
    requires s.Valid() && i < s.Capacity()
    ensures s.types[i] == Pointer ==> v == axes
    ensures s.types[i] != Cpu && s.types[i] != Pointer ==> v == Vec2(s.inputX[i], s.inputY[i])
  {
    if s.types[i] == Cpu then
      if draw.u < dt then Vec2(2.0 * (draw.rx - 0.5), 2.0 * (draw.ry - 0.5)) else Vec2(s.inputX[i], s.inputY[i])
    else if s.types[i] == Pointer then axes
    else Vec2(s.inputX[i], s.inputY[i])
  }

  /** `Input.evolve`: copy the committed table, stamp the time and update the
      inputs of the slots in use, with `dt` the time since the committed state. */
  function Evolve(s: InputState, time: real, axes: Vec2, draw: nat -> CpuDraw): (r: InputState)
    requires s.Valid()
    ensures r.Valid() && r.time == time
    ensures r.count == s.count && r.types == s.types && r.connected == s.connected && r.playerIds == s.playerIds
    ensures forall i | 0 <= i < s.count && s.types[i] == Pointer :: r.inputX[i] == axes.x && r.inputY[i] == axes.y
    ensures forall i | 0 <= i < s.count && s.types[i] == Cpu && draw(i).u < time - s.time ::
              r.inputX[i] == 2.0 * (draw(i).rx - 0.5) && r.inputY[i] == 2.0 * (draw(i).ry - 0.5)
    ensures forall i | 0 <= i < s.count && s.types[i] == Cpu && draw(i).u >= time - s.time ::
              r.inputX[i] == s.inputX[i] && r.inputY[i] == s.inputY[i]
    ensures forall i | 0 <= i < s.Capacity() && (i >= s.count || (s.types[i] != Cpu && s.types[i] != Pointer)) ::
              r.inputX[i] == s.inputX[i] && r.inputY[i] == s.inputY[i]
  {
    var v := NewInputs(s, time - s.time, axes, draw);
    s.(time := time, inputX := Xs(v), inputY := Ys(v))
  }

  /** The loop of `Input.evolve` over the slots in use; rows past `count` keep their inputs. */
  function NewInputs(s: InputState, dt: real, axes: Vec2, draw: nat -> CpuDraw): (v: seq<Vec2>)
    requires s.Valid()
    ensures |v| == s.Capacity()
    ensures forall i | 0 <= i < |v| ::
              v[i] == (if i < s.count then SlotInput(s, i, dt, axes, draw(i)) else Vec2(s.inputX[i], s.inputY[i]))
  {
    seq(s.Capacity(), i requires 0 <= i < s.Capacity() =>
          if i < s.count then SlotInput(s, i, dt, axes, draw(i)) else Vec2(s.inputX[i], s.inputY[i]))
  }

  function Xs(v: seq<Vec2>): (xs: seq<real>)
    ensures |xs| == |v| && forall i | 0 <= i < |v| :: xs[i] == v[i].x
  {
    seq(|v|, i requires 0 <= i < |v| => v[i].x)
  }

  function Ys(v: seq<Vec2>): (ys: seq<real>)
    ensures |ys| == |v| && forall i | 0 <= i < |v| :: ys[i] == v[i].y
  {
    seq(|v|, i requires 0 <= i < |v| => v[i].y)
  }

  /** With valid draws and joystick axes in [-1, 1], every input stays in
      [-1, 1]: a redrawn axis `2 (r - 0.5)` lies in [-1, 1). */
  lemma EvolveKeepsAxesBounded(s: InputState, time: real, axes: Vec2, draw: nat -> CpuDraw)
    requires s.Valid() && s.AxesBounded()
    requires -1.0 <= axes.x <= 1.0 && -1.0 <= axes.y <= 1.0
    requires forall i :: draw(i).Valid()
    ensures Evolve(s, time, axes, draw).AxesBounded()
  {
    var r := Evolve(s, time, axes, draw);
    forall i | 0 <= i < s.Capacity()
      ensures -1.0 <= r.inputX[i] <= 1.0 && -1.0 <= r.inputY[i] <= 1.0
    {
      assert draw(i).Valid();
    }
  }

  // ---------------------------------------------------------------- joystick

  /** The joystick's radius in pixels when none is given to the constructor. */
  const Radius: real := 64.0

  /** A timestamp of `performance.now()` or the initial `-Infinity`. */
  datatype Stamp = NegInfinity | At(ms: real)

  /** `now - t > limit` with `-Infinity` handled as JavaScript does. */
  predicate ElapsedOver(now: real, t: Stamp, limit: real) {
    t.NegInfinity? || now - t.ms > limit
  }

  /** `now - t < limit`: never true for `t == -Infinity`. */
  predicate ElapsedUnder(now: real, t: Stamp, limit: real) {
    t.At? && now - t.ms < limit
  }

  /** The canvas's bounding rectangle as far as the joystick reads it. */
  datatype Rect = Rect(left: real, top: real)

  /** `PointerJoystick`'s state. `origin` is None until the first `start` that
      records one. */
  datatype Joystick = Joystick(active: bool, tap: bool, moved: bool, startTime: Stamp, stopTime: Stamp,
                               axes: Vec2, lastOffset: Vec2, origin: Option<Vec2>)
  {
    predicate AxesBounded() {
      -1.0 <= axes.x <= 1.0 && -1.0 <= axes.y <= 1.0
    }
  }

  /** `PointerJoystick.init`. */
  function JoystickInit(): (j: Joystick)
    ensures !j.active && !j.tap && !j.moved && j.axes == Zero && j.origin.None? && j.AxesBounded()
  {
    Joystick(false, false, false, NegInfinity, NegInfinity, Zero, Zero, None)
  }

  /** `max(min(a, radius), -radius) / radius`. */
  function ClampAxis(a: real): (r: real)
    ensures -1.0 <= r <= 1.0
    ensures -Radius <= a <= Radius ==> r == a / Radius
    ensures a >= Radius ==> r == 1.0
    ensures a <= -Radius ==> r == -1.0
  {
    Kinematics.Max(Kinematics.Min(a, Radius), -Radius) / Radius
  }

  /** `move`: while active, the axes become the clamped offset from the origin,
      with the y axis pointing up, and `moved` latches once the axes leave the
      unit disc. Inactive, nothing changes. With no origin recorded the source
      throws before writing any field, which is modelled as no change. */
  function Move(j: Joystick, clientX: real, clientY: real, rect: Rect): (r: Joystick)
    ensures !j.active ==> r == j
    ensures r.active == j.active && r.tap == j.tap && r.startTime == j.startTime && r.stopTime == j.stopTime
    ensures r.lastOffset == j.lastOffset && r.origin == j.origin
    ensures j.active && j.origin.Some? ==> r.AxesBounded()
    ensures j.active && j.origin.Some? ==>
              r.moved == (j.moved || r.axes.x * r.axes.x + r.axes.y * r.axes.y > 1.0)
    ensures j.moved ==> r.moved
  {
    if !j.active || j.origin.None? then j
    else
      var x := clientX - rect.left;
      var y := clientY - rect.top;
      var axes := Vec2(ClampAxis(x - j.origin.value.x), ClampAxis(j.origin.value.y - y));
      j.(axes := axes, moved := j.moved || axes.x * axes.x + axes.y * axes.y > 1.0)
  }

  /** `start`: ignored while active. Otherwise the press is stamped; more than
      10 ms after the last release it records a new origin (and clears `moved`),
      within 10 ms it registers a tap; then the joystick is active and moves to
      the pressed point. */
  function Start(j: Joystick, clientX: real, clientY: real, rect: Rect, now: real): (r: Joystick)
    ensures j.active ==> r == j
    ensures !j.active ==> r.active && r.startTime == At(now) && r.stopTime == j.stopTime
    ensures !j.active && ElapsedOver(now, j.stopTime, 10.0) ==>
              var o := Vec2(clientX - rect.left, clientY - rect.top);
              && r.origin == Some(o) && r.lastOffset == o && r.tap == j.tap
              && r.axes == Zero
              && !r.moved
    ensures !j.active && !ElapsedOver(now, j.stopTime, 10.0) ==>
              r.tap && r.origin == j.origin && r.lastOffset == j.lastOffset && (j.moved ==> r.moved)
  {
    if j.active then j
    else
      var j1 := j.(startTime := At(now));
      var j2 := if ElapsedOver(now, j.stopTime, 10.0) then
                  var o := Vec2(clientX - rect.left, clientY - rect.top);
                  j1.(origin := Some(o), lastOffset := o, moved := false)
                else j1.(tap := true);
      Move(j2.(active := true), clientX, clientY, rect)
  }

  /** `stop`: inactive, axes zeroed and the release stamped; a release less
      than 1000 ms after the press without having moved registers a tap, and
      otherwise `tap` is left as it was. */
  function Stop(j: Joystick, now: real): (r: Joystick)
    ensures !r.active && r.axes == Zero && r.stopTime == At(now) && r.AxesBounded()
    ensures r.tap <==> j.tap || (ElapsedUnder(now, j.startTime, 1000.0) && !j.moved)
    ensures r.moved == j.moved && r.origin == j.origin && r.startTime == j.startTime && r.lastOffset == j.lastOffset
  {
    var r := j.(active := false, axes := Zero, stopTime := At(now));
    if ElapsedUnder(now, j.startTime, 1000.0) && !j.moved then r.(tap := true) else r
  }

  /** `reset`: clears `tap` and nothing else. */
  function Reset(j: Joystick): (r: Joystick)
    ensures !r.tap && r == j.(tap := false)
  {
    j.(tap := false)
  }

  /** Every joystick operation keeps the axes in [-1, 1], so a pointer slot's
      input never leaves that range. */
  lemma JoystickAxesStayBounded(j: Joystick, clientX: real, clientY: real, rect: Rect, now: real)
    requires j.AxesBounded()
    ensures Move(j, clientX, clientY, rect).AxesBounded()
    ensures Start(j, clientX, clientY, rect, now).AxesBounded()
    ensures Stop(j, now).AxesBounded() && Reset(j).AxesBounded()
  {
  }

  /** A press and release at the same point within 1000 ms registers a tap:
      the axes stay at the origin, so `moved` is not latched. */
  lemma QuickClickIsTap(j: Joystick, x: real, y: real, rect: Rect, t0: real, t1: real)
    requires !j.active && ElapsedOver(t0, j.stopTime, 10.0)
    requires t1 - t0 < 1000.0
    ensures Stop(Start(j, x, y, rect, t0), t1).tap
  {
    var s := Start(j, x, y, rect, t0);
    assert !s.moved;
    assert s.startTime == At(t0);
  }

  /** Dragging at least one radius right and up latches `moved`, so the
      release that follows is not a tap unless one was already pending. */
  lemma DragIsNotTap(j: Joystick, x: real, y: real, rect: Rect, t0: real, dx: real, dy: real, t1: real)
    requires !j.active && ElapsedOver(t0, j.stopTime, 10.0) && !j.tap
    requires dx >= Radius && dy >= Radius
    ensures var s := Move(Start(j, x, y, rect, t0), x + dx, y - dy, rect);
            && s.moved && s.axes == Vec2(1.0, 1.0)
            && !Stop(s, t1).tap
  {
    var s0 := Start(j, x, y, rect, t0);
    var s := Move(s0, x + dx, y - dy, rect);
    assert s.axes.x == ClampAxis((x + dx - rect.left) - (x - rect.left));
    assert (x + dx - rect.left) - (x - rect.left) == dx;
    assert s.axes.y == ClampAxis((y - rect.top) - (y - dy - rect.top));
    assert (y - rect.top) - (y - dy - rect.top) == dy;
  }
}
