/** The first physics engine, kept beside the wired-in one: the same five passes
    without rectangles, over flat columns where component `k` of point `i` sits at
    index `2 * i + k`. Each pass is defined on the flat columns as the loops
    index them, and its contract ties it to the corresponding pass of the wired-in
    engine through `PointsOf`, the view that pairs the components up; the two
    engines therefore agree on points, collisions, time and outgoing messages. */
module PhysicsAdhoc {
  import opened Common
  import opened Kinematics
  import PbdStore
  import PbdPhysics

  /** `PhysicsState` of this engine. The columns are as long as `maxPoints`
      (twice that for the vector columns); `outgoing` is `outgoingNetworkMessages`. */
  datatype PhysicsState = PhysicsState(
    pointCount: nat, pointIds: seq<u32>,
    pointPositions: seq<real>, pointVelocities: seq<real>, pointAccelerations: seq<real>,
    collisions: seq<u32>, time: real, outgoing: seq<Message>)
  {
    predicate Valid() {
      && pointCount <= |pointIds| && |collisions| == |pointIds|
      && |pointPositions| == 2 * |pointIds| && |pointVelocities| == 2 * |pointIds|
      && |pointAccelerations| == 2 * |pointIds|
    }

    function Capacity(): nat {
      |pointIds|
    }
  }

  /** The vectors of a flat column: entry `i` pairs the components at `2 i` and `2 i + 1`. */
  function Pairs(flat: seq<real>, n: nat): (r: seq<Vec2>)
    requires |flat| == 2 * n
    ensures |r| == n && forall i | 0 <= i < n :: r[i] == Vec2(flat[2 * i], flat[2 * i + 1])
  {
    seq(n, i requires 0 <= i < n => Vec2(flat[2 * i], flat[2 * i + 1]))
  }

  /** Writes both components of vector `i` of a flat column. */
  function SetPair(flat: seq<real>, i: nat, v: Vec2): (r: seq<real>)
    requires 2 * i + 1 < |flat|
    ensures |r| == |flat|
  {
    flat[2 * i := v.x][2 * i + 1 := v.y]
  }

  /** Writing both components of vector `i` writes entry `i` of the paired view
      and nothing else. */
  lemma PairsSetPair(flat: seq<real>, n: nat, i: nat, v: Vec2)
    requires |flat| == 2 * n && i < n
    ensures Pairs(SetPair(flat, i, v), n) == Pairs(flat, n)[i := v]
  {
    var a := Pairs(SetPair(flat, i, v), n);
    var b := Pairs(flat, n)[i := v];
    forall j | 0 <= j < n ensures a[j] == b[j] {
      if j != i {
        assert 2 * j != 2 * i + 1 && 2 * j + 1 != 2 * i;
      }
    }
  }

  /** The point columns of this engine seen as the point store of the wired-in one. */
  function PointsOf(s: PhysicsState): (p: PbdStore.Points)
    requires s.Valid()
    ensures p.Valid() && p.Capacity() == s.Capacity() && p.count == s.pointCount && p.ids == s.pointIds
  {
    var n := s.Capacity();
    PbdStore.Points(s.pointCount, s.pointIds, Pairs(s.pointPositions, n), Pairs(s.pointVelocities, n),
                    Pairs(s.pointAccelerations, n))
  }

  /** A wired-in state with the same points, collisions, time and outgoing list;
      its rectangles are placeholders centred on the points. */
  function Lift(s: PhysicsState): (t: PbdStore.PhysicsState)
    requires s.Valid()
    ensures t.Valid() && t.points == PointsOf(s)
  {
    var n := s.Capacity();
    PbdStore.PhysicsState(PointsOf(s), PbdStore.Rectangles(s.pointCount, Zeros(n, 0), s.pointIds, Zeros(n, Zero)),
                          s.collisions, s.time, s.outgoing)
  }

  /** `s` and the wired-in state `t` agree on everything this engine keeps. */
  predicate Agrees(s: PhysicsState, t: PbdStore.PhysicsState) {
    && s.Valid() && t.Valid() && PointsOf(s) == t.points
    && s.collisions == t.collisions && s.time == t.time && s.outgoing == t.outgoing
  }

  // ---------------------------------------------------------------- getters

  /** The shared body of the three getters over one flat column. */
  function ReadFlat(s: PhysicsState, flat: seq<real>, id: u32, out: seq<real>, ofs: nat): (r: (bool, seq<real>))
    requires s.Valid() && |flat| == 2 * s.Capacity()
    ensures r.0 <==> id in s.pointIds
    ensures !r.0 ==> r.1 == out
    ensures forall i | FirstIndex(s.pointIds, id, i) :: r.1 == PbdStore.WriteVec(out, ofs, Vec2(flat[2 * i], flat[2 * i + 1]))
  {
    var i := IndexOf(s.pointIds, id);
    if i < 0 then (false, out)
    else
      FirstIndexIsIndexOf(s.pointIds, id, i);
      (true, PbdStore.WriteVec(out, ofs, Vec2(flat[2 * i], flat[2 * i + 1])))
  }

  /** `getPlayerPosition`: false and no write for an absent id, otherwise the two
      components of the first row with that id at `out[ofs..ofs+1]`; the same
      answer as the wired-in store's `getPosition`. */
  function GetPlayerPosition(s: PhysicsState, id: u32, out: seq<real>, ofs: nat): (r: (bool, seq<real>))
    requires s.Valid()
    ensures r.0 <==> id in s.pointIds
    ensures !r.0 ==> r.1 == out
    ensures forall i | FirstIndex(s.pointIds, id, i) ::
              r.1 == PbdStore.WriteVec(out, ofs, Vec2(s.pointPositions[2 * i], s.pointPositions[2 * i + 1]))
    ensures r == PbdStore.GetPosition(PointsOf(s), id, out, ofs)
  {
    ReadFlat(s, s.pointPositions, id, out, ofs)
  }

  /** `getPlayerVelocity`. */
  function GetPlayerVelocity(s: PhysicsState, id: u32, out: seq<real>, ofs: nat): (r: (bool, seq<real>))
    requires s.Valid()
    ensures r.0 <==> id in s.pointIds
    ensures !r.0 ==> r.1 == out
    ensures forall i | FirstIndex(s.pointIds, id, i) ::
              r.1 == PbdStore.WriteVec(out, ofs, Vec2(s.pointVelocities[2 * i], s.pointVelocities[2 * i + 1]))
    ensures r == PbdStore.GetVelocity(PointsOf(s), id, out, ofs)
  {
    ReadFlat(s, s.pointVelocities, id, out, ofs)
  }

  /** `getPlayerAcceleration`. */
  function GetPlayerAcceleration(s: PhysicsState, id: u32, out: seq<real>, ofs: nat): (r: (bool, seq<real>))
    requires s.Valid()
    ensures r.0 <==> id in s.pointIds
    ensures !r.0 ==> r.1 == out
    ensures forall i | FirstIndex(s.pointIds, id, i) ::
              r.1 == PbdStore.WriteVec(out, ofs, Vec2(s.pointAccelerations[2 * i], s.pointAccelerations[2 * i + 1]))
    ensures r == PbdStore.GetAcceleration(PointsOf(s), id, out, ofs)
  {
    ReadFlat(s, s.pointAccelerations, id, out, ofs)
  }

  // ---------------------------------------------------------------- spawning

  /** The spawn pass of the wired-in engine only looks at the points: two states
      with the same points spawn the same points. */
  lemma {:induction false} SpawnSeesOnlyPoints(a: PbdStore.PhysicsState, b: PbdStore.PhysicsState, ins: PbdPhysics.Inputs, i: nat)
    requires a.Valid() && b.Valid() && ins.Valid() && i <= ins.rosterCount && a.points == b.points
    ensures PbdPhysics.SpawnFrom(a, ins, i).Some? == PbdPhysics.SpawnFrom(b, ins, i).Some?
    ensures PbdPhysics.SpawnFrom(a, ins, i).Some? ==>
              PbdPhysics.SpawnFrom(a, ins, i).value.points == PbdPhysics.SpawnFrom(b, ins, i).value.points
    decreases ins.rosterCount - i
  {
    if i < ins.rosterCount {
      var id := ins.rosterIds[i];
      if IndexOf(a.points.ids, id) != -1 {
        SpawnSeesOnlyPoints(a, b, ins, i + 1);
      } else if a.points.count < a.Capacity() {
        var radius := ins.params.playerRadius;
        var d := ins.spawn(id);
        var a1 := PbdStore.AddRectangle(a, Vec2(radius, radius), d.position, Zero, Zero, Some(id), 0, d.rectangleId).0;
        var b1 := PbdStore.AddRectangle(b, Vec2(radius, radius), d.position, Zero, Zero, Some(id), 0, d.rectangleId).0;
        SpawnSeesOnlyPoints(a1, b1, ins, i + 1);
      }
    }
  }

  /** The spawn loop from roster index `i`: a roster id absent from the id column
      is written at `pointCount` with the drawn position and zero velocity and
      acceleration. None: an append found the columns full. The result has the
      points the wired-in spawn pass produces from the same points. */
  function SpawnFrom(s: PhysicsState, ins: PbdPhysics.Inputs, i: nat): (r: Option<PhysicsState>)
    requires s.Valid() && ins.Valid() && i <= ins.rosterCount
    ensures var t := PbdPhysics.SpawnFrom(Lift(s), ins, i);
            && (r.Some? <==> t.Some?)
            && (r.Some? ==> Agrees(r.value, t.value))
    decreases ins.rosterCount - i
  {
    if i == ins.rosterCount then Some(s)
    else
      var id := ins.rosterIds[i];
      if IndexOf(s.pointIds, id) != -1 then SpawnFrom(s, ins, i + 1)
      else if s.pointCount == s.Capacity() then None
      else
        var j := s.pointCount;
        var d := ins.spawn(id);
        var s1 := s.(pointCount := j + 1, pointIds := s.pointIds[j := id],
                     pointPositions := SetPair(s.pointPositions, j, d.position),
                     pointVelocities := SetPair(s.pointVelocities, j, Zero),
                     pointAccelerations := SetPair(s.pointAccelerations, j, Zero));
        var r := SpawnFrom(s1, ins, i + 1);
        SpawnStep(s, s1, ins, i);
        r
  }

  lemma SpawnStep(s: PhysicsState, s1: PhysicsState, ins: PbdPhysics.Inputs, i: nat)
    requires s.Valid() && ins.Valid() && i < ins.rosterCount
    requires IndexOf(s.pointIds, ins.rosterIds[i]) == -1 && s.pointCount < s.Capacity()
    requires var j := s.pointCount;
             var id := ins.rosterIds[i];
             s1 == s.(pointCount := j + 1, pointIds := s.pointIds[j := id],
                      pointPositions := SetPair(s.pointPositions, j, ins.spawn(id).position),
                      pointVelocities := SetPair(s.pointVelocities, j, Zero),
                      pointAccelerations := SetPair(s.pointAccelerations, j, Zero))
    ensures s1.Valid()
    ensures var t := PbdPhysics.SpawnFrom(Lift(s), ins, i);
            var t1 := PbdPhysics.SpawnFrom(Lift(s1), ins, i + 1);
            && (t.Some? <==> t1.Some?)
            && (t.Some? ==> t.value.points == t1.value.points && t.value.collisions == t1.value.collisions
                            && t.value.time == t1.value.time && t.value.outgoing == t1.value.outgoing)
  {
    var n := s.Capacity();
    var j := s.pointCount;
    var id := ins.rosterIds[i];
    var d := ins.spawn(id);
    var radius := ins.params.playerRadius;
    var a1 := PbdStore.AddRectangle(Lift(s), Vec2(radius, radius), d.position, Zero, Zero, Some(id), 0, d.rectangleId).0;
    PairsSetPair(s.pointPositions, n, j, d.position);
    PairsSetPair(s.pointVelocities, n, j, Zero);
    PairsSetPair(s.pointAccelerations, n, j, Zero);
    assert a1.points == Lift(s1).points;
    SpawnSeesOnlyPoints(a1, Lift(s1), ins, i + 1);
  }

  // ---------------------------------------------------------------- driving

  /** The driving loop over rows `i..pointCount`, component by component: a
      driven row gets `acceleration * intent` and queues an `updatePoint` when a
      component changed. Only the acceleration column changes, and the result
      is the wired-in engine's driving pass on the paired view. */
  function DriveFrom(s: PhysicsState, ins: PbdPhysics.Inputs, i: nat): (r: (PhysicsState, seq<Message>))
    requires s.Valid() && ins.Valid() && i <= s.pointCount
    ensures DroveAlike(s, ins, i, r)
    decreases s.pointCount - i, 1
  {
    if i == s.pointCount then (s, [])
    else
      var id := s.pointIds[i];
      if IndexOf(ins.rosterIds, id) == -1 || IndexOf(ins.controllerIds, id) == -1 then
        var r := DriveFrom(s, ins, i + 1);
        DriveSkip(s, ins, i, r);
        r
      else DriveRowFrom(s, ins, i)
  }

  /** `acceleration * intent` for the driven row `i`, component by component. */
  function RowAcceleration(s: PhysicsState, ins: PbdPhysics.Inputs, i: nat): Vec2
    requires s.Valid() && ins.Valid() && i < s.pointCount && PbdPhysics.Driven(ins, s.pointIds[i])
  {
    var j := IndexOf(ins.rosterIds, s.pointIds[i]);
    Vec2(ins.params.acceleration * ins.intents[j].x, ins.params.acceleration * ins.intents[j].y)
  }

  /** The `updatePoint` queued for the driven row `i` when one component of its
      acceleration changed: the row's position and velocity and the new acceleration. */
  function RowMessages(s: PhysicsState, ins: PbdPhysics.Inputs, i: nat): seq<Message>
    requires s.Valid() && ins.Valid() && i < s.pointCount && PbdPhysics.Driven(ins, s.pointIds[i])
  {
    var a := RowAcceleration(s, ins, i);
    if a.x != s.pointAccelerations[2 * i] || a.y != s.pointAccelerations[2 * i + 1] then
      [UpdatePoint(s.pointIds[i], ins.systemId,
                   Vec2(s.pointPositions[2 * i], s.pointPositions[2 * i + 1]),
                   Vec2(s.pointVelocities[2 * i], s.pointVelocities[2 * i + 1]), a)]
    else []
  }

  /** The body of the driving loop for a driven row `i`, followed by the rest
      of the loop. */
  function DriveRowFrom(s: PhysicsState, ins: PbdPhysics.Inputs, i: nat): (r: (PhysicsState, seq<Message>))
    requires s.Valid() && ins.Valid() && i < s.pointCount && PbdPhysics.Driven(ins, s.pointIds[i])
    ensures DroveAlike(s, ins, i, r)
    decreases s.pointCount - i, 0
  {
    var rest := DriveFrom(s.(pointAccelerations := SetPair(s.pointAccelerations, i, RowAcceleration(s, ins, i))), ins, i + 1);
    DriveRow(s, ins, i, rest);
    (rest.0, RowMessages(s, ins, i) + rest.1)
  }

  /** The flat driving loop from row `i` changes only the acceleration column
      and agrees with the wired-in driving loop on the paired view. */
  ghost predicate DroveAlike(s: PhysicsState, ins: PbdPhysics.Inputs, i: nat, r: (PhysicsState, seq<Message>))
    requires s.Valid() && ins.Valid() && i <= s.pointCount
  {
    && r.0.Valid() && r.0 == s.(pointAccelerations := r.0.pointAccelerations)
    && var d := PbdPhysics.DriveFrom(PointsOf(s), ins, i);
       PointsOf(r.0) == d.0 && r.1 == d.1
  }

  lemma DriveSkip(s: PhysicsState, ins: PbdPhysics.Inputs, i: nat, r: (PhysicsState, seq<Message>))
    requires s.Valid() && ins.Valid() && i < s.pointCount
    requires !PbdPhysics.Driven(ins, s.pointIds[i])
    requires DroveAlike(s, ins, i + 1, r)
    ensures DroveAlike(s, ins, i, r)
  {
    assert PbdPhysics.DriveFrom(PointsOf(s), ins, i) == PbdPhysics.DriveFrom(PointsOf(s), ins, i + 1);
  }

  /** One driven row: the flat write is the wired-in write on the paired view,
      and the flat message and its condition are the wired-in ones. */
  lemma DriveRow(s: PhysicsState, ins: PbdPhysics.Inputs, i: nat, rest: (PhysicsState, seq<Message>))
    requires s.Valid() && ins.Valid() && i < s.pointCount && PbdPhysics.Driven(ins, s.pointIds[i])
    requires s.(pointAccelerations := SetPair(s.pointAccelerations, i, RowAcceleration(s, ins, i))).Valid()
    requires DroveAlike(s.(pointAccelerations := SetPair(s.pointAccelerations, i, RowAcceleration(s, ins, i))), ins, i + 1, rest)
    ensures DroveAlike(s, ins, i, (rest.0, RowMessages(s, ins, i) + rest.1))
  {
    var p := PointsOf(s);
    var id := s.pointIds[i];
    var a := RowAcceleration(s, ins, i);
    assert a == PbdPhysics.Target(ins, id);
    var s1 := s.(pointAccelerations := SetPair(s.pointAccelerations, i, a));
    PairsSetPair(s.pointAccelerations, s.Capacity(), i, a);
    var q := p.(accelerations := p.accelerations[i := a]);
    assert PointsOf(s1) == q;
    var d := PbdPhysics.DriveFrom(p, ins, i);
    var dq := PbdPhysics.DriveFrom(q, ins, i + 1);
    assert RowMessages(s, ins, i) == (if PbdPhysics.Changed(p, ins, i) then [PbdPhysics.UpdateFor(p, ins, i)] else []);
    assert d == (dq.0, (if PbdPhysics.Changed(p, ins, i) then [PbdPhysics.UpdateFor(p, ins, i)] else []) + dq.1);
  }

  // ---------------------------------------------------------------- incoming

  /** One iteration of the incoming loop on the flat columns. */
  function ApplyUpdate(s: PhysicsState, m: Message, own: u32): (r: PhysicsState)
    requires s.Valid()
    ensures r.Valid()
    ensures r == s.(pointPositions := r.pointPositions, pointVelocities := r.pointVelocities,
                    pointAccelerations := r.pointAccelerations)
    ensures PointsOf(r) == PbdPhysics.ApplyUpdate(PointsOf(s), m, own)
  {
    match m
    case UpdatePoint(id, systemId, position, velocity, acceleration) =>
      var i := IndexOf(s.pointIds, id);
      if i == -1 || systemId == own then s
      else
        var n := s.Capacity();
        PairsSetPair(s.pointPositions, n, i, position);
        PairsSetPair(s.pointVelocities, n, i, velocity);
        PairsSetPair(s.pointAccelerations, n, i, acceleration);
        s.(pointPositions := SetPair(s.pointPositions, i, position),
           pointVelocities := SetPair(s.pointVelocities, i, velocity),
           pointAccelerations := SetPair(s.pointAccelerations, i, acceleration))
    case _ => s
  }

  /** The incoming loop, in list order. */
  function ApplyAll(s: PhysicsState, msgs: seq<Message>, own: u32): (r: PhysicsState)
    requires s.Valid()
    ensures r.Valid()
    ensures r == s.(pointPositions := r.pointPositions, pointVelocities := r.pointVelocities,
                    pointAccelerations := r.pointAccelerations)
    ensures PointsOf(r) == PbdPhysics.ApplyAll(PointsOf(s), msgs, own)
    decreases |msgs|
  {
    if msgs == [] then s else ApplyAll(ApplyUpdate(s, msgs[0], own), msgs[1..], own)
  }

  // ---------------------------------------------------------------- integration

  /** One axis `k` of row `i` of the integration loop: new velocity, position
      moved with it, reflection and the collision flag on overshoot, clamp. The
      flag is computed from the whole position column as it stands after the
      unclamped write. */
  function IntegrateAxis(s: PhysicsState, ins: PbdPhysics.Inputs, dt: real, i: nat, k: nat): (r: PhysicsState)
    requires s.Valid() && i < s.Capacity() && k < 2
    ensures r.Valid() && r.pointIds == s.pointIds && r.pointCount == s.pointCount
    ensures var n := 2 * i + k;
            var st := StepAxis(s.pointPositions[n], s.pointVelocities[n], s.pointAccelerations[n], dt,
                               ins.params.gamma, 1.0 - ins.params.playerRadius);
            r == s.(pointPositions := s.pointPositions[n := st.position],
                    pointVelocities := s.pointVelocities[n := st.velocity],
                    collisions := MarkCollision(s.collisions, i, CollisionFlag, st.hit))
  {
    var n := 2 * i + k;
    var gamma := ins.params.gamma;
    var st := StepAxis(s.pointPositions[n], s.pointVelocities[n], s.pointAccelerations[n], dt, gamma, 1.0 - ins.params.playerRadius);
    var unclamped := s.pointPositions[n := FreeStep(s.pointPositions[n], s.pointVelocities[n], s.pointAccelerations[n], dt, gamma).0];
    var flag := CollisionFlagAsWritten(|unclamped|, unclamped[0]);
    s.(pointPositions := s.pointPositions[n := st.position],
       pointVelocities := s.pointVelocities[n := st.velocity],
       collisions := MarkCollision(s.collisions, i, flag, st.hit))
  }

  /** The integration loop over rows `i..pointCount`; the same positions,
      velocities and collisions as the wired-in integration pass. */
  function IntegrateFrom(s: PhysicsState, ins: PbdPhysics.Inputs, dt: real, i: nat): (r: PhysicsState)
    requires s.Valid() && i <= s.pointCount
    ensures r.Valid()
    ensures r == s.(pointPositions := r.pointPositions, pointVelocities := r.pointVelocities, collisions := r.collisions)
    ensures var t := PbdPhysics.IntegrateFrom(PointsOf(s), s.collisions, ins, dt, i);
            PointsOf(r) == t.0 && r.collisions == t.1
    decreases s.pointCount - i
  {
    if i == s.pointCount then s
    else if IndexOf(ins.rosterIds, s.pointIds[i]) == -1 then IntegrateFrom(s, ins, dt, i + 1)
    else
      var s2 := IntegrateAxis(IntegrateAxis(s, ins, dt, i, 0), ins, dt, i, 1);
      IntegrateRow(s, ins, dt, i);
      IntegrateFrom(s2, ins, dt, i + 1)
  }

  /** Two axis steps of row `i` are one `StepRow` of the paired view; the flag is
      or-ed once or twice, which is the same. */
  lemma IntegrateRow(s: PhysicsState, ins: PbdPhysics.Inputs, dt: real, i: nat)
    requires s.Valid() && i < s.pointCount
    ensures var s2 := IntegrateAxis(IntegrateAxis(s, ins, dt, i, 0), ins, dt, i, 1);
            var p := PointsOf(s);
            var st := StepRow(p.positions[i], p.velocities[i], p.accelerations[i], dt, ins.params.gamma, ins.params.playerRadius);
            && s2 == s.(pointPositions := s2.pointPositions, pointVelocities := s2.pointVelocities, collisions := s2.collisions)
            && PointsOf(s2) == p.(positions := p.positions[i := st.position], velocities := p.velocities[i := st.velocity])
            && s2.collisions == MarkCollision(s.collisions, i, CollisionFlag, st.hit)
  {
    var n := s.Capacity();
    var p := PointsOf(s);
    var s2 := IntegrateAxis(IntegrateAxis(s, ins, dt, i, 0), ins, dt, i, 1);
    var st := StepRow(p.positions[i], p.velocities[i], p.accelerations[i], dt, ins.params.gamma, ins.params.playerRadius);
    assert st == FlatStepRow(s, ins, dt, i);
    IntegrateRowColumns(s, ins, dt, i);
    PairsSetPair(s.pointPositions, n, i, st.position);
    PairsSetPair(s.pointVelocities, n, i, st.velocity);
  }

  /** `StepRow` on the two components of row `i` of the flat columns. */
  function FlatStepRow(s: PhysicsState, ins: PbdPhysics.Inputs, dt: real, i: nat): RowStep
    requires s.Valid() && i < s.Capacity()
  {
    StepRow(Vec2(s.pointPositions[2 * i], s.pointPositions[2 * i + 1]),
            Vec2(s.pointVelocities[2 * i], s.pointVelocities[2 * i + 1]),
            Vec2(s.pointAccelerations[2 * i], s.pointAccelerations[2 * i + 1]),
            dt, ins.params.gamma, ins.params.playerRadius)
  }

  lemma IntegrateRowColumns(s: PhysicsState, ins: PbdPhysics.Inputs, dt: real, i: nat)
    requires s.Valid() && i < s.pointCount
    ensures var s2 := IntegrateAxis(IntegrateAxis(s, ins, dt, i, 0), ins, dt, i, 1);
            var st := FlatStepRow(s, ins, dt, i);
            && s2 == s.(pointPositions := SetPair(s.pointPositions, i, st.position),
                        pointVelocities := SetPair(s.pointVelocities, i, st.velocity),
                        collisions := s2.collisions)
            && s2.collisions == MarkCollision(s.collisions, i, CollisionFlag, st.hit)
  {
    var gamma := ins.params.gamma;
    var bound := 1.0 - ins.params.playerRadius;
    var sx := StepAxis(s.pointPositions[2 * i], s.pointVelocities[2 * i], s.pointAccelerations[2 * i], dt, gamma, bound);
    var sy := StepAxis(s.pointPositions[2 * i + 1], s.pointVelocities[2 * i + 1], s.pointAccelerations[2 * i + 1], dt, gamma, bound);
    var c1 := MarkCollision(s.collisions, i, CollisionFlag, sx.hit);
    var s1 := IntegrateAxis(s, ins, dt, i, 0);
    assert s1 == s.(pointPositions := s.pointPositions[2 * i := sx.position],
                    pointVelocities := s.pointVelocities[2 * i := sx.velocity], collisions := c1);
    SecondAxis(s, ins, dt, i, sx.position, sx.velocity, c1);
    FlagTwice(s.collisions, i, sx.hit, sy.hit);
    RowOfAxes(s, ins, dt, i);
  }

  lemma RowOfAxes(s: PhysicsState, ins: PbdPhysics.Inputs, dt: real, i: nat)
    requires s.Valid() && i < s.pointCount
    ensures var gamma := ins.params.gamma;
            var bound := 1.0 - ins.params.playerRadius;
            var sx := StepAxis(s.pointPositions[2 * i], s.pointVelocities[2 * i], s.pointAccelerations[2 * i], dt, gamma, bound);
            var sy := StepAxis(s.pointPositions[2 * i + 1], s.pointVelocities[2 * i + 1], s.pointAccelerations[2 * i + 1], dt, gamma, bound);
            FlatStepRow(s, ins, dt, i) == RowStep(Vec2(sx.position, sy.position), Vec2(sx.velocity, sy.velocity), sx.hit || sy.hit)
  {
  }

  /** The second axis step of row `i` after the first has written index `2 i`. */
  lemma SecondAxis(s: PhysicsState, ins: PbdPhysics.Inputs, dt: real, i: nat, x: real, y: real, c: seq<u32>)
    requires s.Valid() && i < s.pointCount && |c| == |s.collisions|
    ensures var s1 := s.(pointPositions := s.pointPositions[2 * i := x], pointVelocities := s.pointVelocities[2 * i := y], collisions := c);
            var sy := StepAxis(s.pointPositions[2 * i + 1], s.pointVelocities[2 * i + 1], s.pointAccelerations[2 * i + 1], dt,
                               ins.params.gamma, 1.0 - ins.params.playerRadius);
            IntegrateAxis(s1, ins, dt, i, 1)
            == s1.(pointPositions := s1.pointPositions[2 * i + 1 := sy.position],
                   pointVelocities := s1.pointVelocities[2 * i + 1 := sy.velocity],
                   collisions := MarkCollision(c, i, CollisionFlag, sy.hit))
  {
    var s1 := s.(pointPositions := s.pointPositions[2 * i := x], pointVelocities := s.pointVelocities[2 * i := y], collisions := c);
    assert s1.pointPositions[2 * i + 1] == s.pointPositions[2 * i + 1];
    assert s1.pointVelocities[2 * i + 1] == s.pointVelocities[2 * i + 1];
  }

  /** Or-ing the flag in for each overshooting axis is or-ing it in once when
      either axis overshot. */
  lemma FlagTwice(c: seq<u32>, i: nat, hitX: bool, hitY: bool)
    requires i < |c|
    ensures MarkCollision(MarkCollision(c, i, CollisionFlag, hitX), i, CollisionFlag, hitY)
            == MarkCollision(c, i, CollisionFlag, hitX || hitY)
  {
    OrFlagTwice(c[i], CollisionFlag);
  }

  // ---------------------------------------------------------------- evolve

  /** `Physics.evolve` of this engine: copy, stamp the time, clear outgoing and
      collisions, then spawn, drive, apply incoming updates and integrate. None:
      spawning found the columns full. Whenever one engine yields a state, so does
      the other, and the two agree. */
  function Evolve(s: PhysicsState, ins: PbdPhysics.Inputs): (r: Option<PhysicsState>)
    requires s.Valid() && ins.Valid()
    ensures var t := PbdPhysics.Evolve(Lift(s), ins);
            && (r.Some? <==> t.Some?)
            && (r.Some? ==> Agrees(r.value, t.value))
  {
    var s0 := s.(time := ins.time, outgoing := [], collisions := Zeros(s.Capacity(), 0));
    EvolvePrepare(s, s0, ins);
    match SpawnFrom(s0, ins, 0)
    case None => None
    case Some(s1) =>
      var dt := ins.time - s.time;
      EvolveAgrees(s, ins, dt, s1);
      Some(Advance(s1, ins, dt))
  }

  lemma EvolvePrepare(s: PhysicsState, s0: PhysicsState, ins: PbdPhysics.Inputs)
    requires s.Valid() && ins.Valid()
    requires s0 == s.(time := ins.time, outgoing := [], collisions := Zeros(s.Capacity(), 0))
    ensures s0.Valid()
    ensures var t := PbdPhysics.Spawned(Lift(s), ins);
            && (SpawnFrom(s0, ins, 0).Some? <==> t.Some?)
            && (t.Some? ==> Agrees(SpawnFrom(s0, ins, 0).value, t.value))
            && (PbdPhysics.Evolve(Lift(s), ins).Some? <==> t.Some?)
  {
    assert Lift(s0) == PbdPhysics.Prepare(Lift(s), ins.time);
    PbdPhysics.EvolveAdvances(Lift(s), ins, ins.time - s.time);
  }

  /** The spawned states of the two engines agree, so their results do. */
  lemma EvolveAgrees(s: PhysicsState, ins: PbdPhysics.Inputs, dt: real, s1: PhysicsState)
    requires s.Valid() && ins.Valid() && dt == ins.time - s.time
    requires var t := PbdPhysics.Spawned(Lift(s), ins);
             t.Some? && Agrees(s1, t.value)
    ensures PbdPhysics.Evolve(Lift(s), ins).Some?
    ensures Agrees(Advance(s1, ins, dt), PbdPhysics.Evolve(Lift(s), ins).value)
  {
    var t1 := PbdPhysics.Spawned(Lift(s), ins).value;
    AdvanceAgrees(s1, t1, ins, dt);
    PbdPhysics.EvolveIs(Lift(s), ins, dt, t1);
    var e := PbdPhysics.Evolve(Lift(s), ins);
    assert e.Some?;
    assert e.value == PbdPhysics.Advance(t1, ins, dt);
    AgreesWithEqual(Advance(s1, ins, dt), PbdPhysics.Advance(t1, ins, dt), e.value);
  }

  lemma AgreesWithEqual(a: PhysicsState, b: PbdStore.PhysicsState, e: PbdStore.PhysicsState)
    requires Agrees(a, b) && e == b
    ensures Agrees(a, e)
  {
  }

  /** Driving, applying the incoming updates and integrating over `dt`; the
      driving loop's messages go out. */
  function Advance(s1: PhysicsState, ins: PbdPhysics.Inputs, dt: real): (r: PhysicsState)
    requires s1.Valid() && ins.Valid()
  {
    var (s2, msgs) := DriveFrom(s1, ins, 0);
    IntegrateFrom(ApplyAll(s2, ins.incoming, ins.systemId), ins, dt, 0).(outgoing := msgs)
  }

  /** From agreeing spawned states the last three passes of both engines end in
      agreeing states. */
  lemma AdvanceAgrees(s1: PhysicsState, t1: PbdStore.PhysicsState, ins: PbdPhysics.Inputs, dt: real)
    requires ins.Valid() && Agrees(s1, t1)
    ensures Agrees(Advance(s1, ins, dt), PbdPhysics.Advance(t1, ins, dt))
  {
    var (s2, msgs) := DriveFrom(s1, ins, 0);
    var d := PbdPhysics.DriveFrom(t1.points, ins, 0);
    assert PointsOf(s2) == d.0 && msgs == d.1;
    var s3 := ApplyAll(s2, ins.incoming, ins.systemId);
    var p3 := PbdPhysics.ApplyAll(d.0, ins.incoming, ins.systemId);
    assert PointsOf(s3) == p3 && s3.collisions == t1.collisions;
    var s4 := IntegrateFrom(s3, ins, dt, 0);
    var r := PbdPhysics.IntegrateFrom(p3, t1.collisions, ins, dt, 0);
    assert PointsOf(s4) == r.0 && s4.collisions == r.1 && s4.time == t1.time;
  }

  /** The guarantees of the wired-in `evolve` carry over to this engine. */
  lemma EvolveStepped(s: PhysicsState, ins: PbdPhysics.Inputs)
    requires s.Valid() && ins.Valid()
    ensures s.pointCount + ins.rosterCount <= s.Capacity() ==> Evolve(s, ins).Some?
    ensures var s1 := PbdPhysics.Spawned(Lift(s), ins);
            Evolve(s, ins).Some? ==> s1.Some? && PbdPhysics.Stepped(Lift(s), ins, s1.value, Lift(Evolve(s, ins).value))
  {
    var r := Evolve(s, ins);
    if r.Some? {
      var t := PbdPhysics.Evolve(Lift(s), ins).value;
      assert Agrees(r.value, t);
      PbdPhysics.EvolveSteps(Lift(s), ins);
      PbdPhysics.SteppedAlike(Lift(s), ins, PbdPhysics.Spawned(Lift(s), ins).value, t, Lift(r.value));
    }
  }
}
