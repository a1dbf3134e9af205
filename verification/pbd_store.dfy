/** The columnar stores of the wired-in physics engine: `PointDynamicsState`
    (point masses), `RectangleState` (collision rectangles bound to a point) and
    the `PhysicsState` that holds both. Every column is as long as the capacity
    given at construction; rows from `count` on are unused, and an unused id
    column entry is 0, as in a freshly allocated `Uint32Array`. */
module PbdStore {
  import opened Common

  /** One row of the point store. */
  datatype Point = Point(id: u32, position: Vec2, velocity: Vec2, acceleration: Vec2)

  datatype Points = Points(count: nat, ids: seq<u32>, positions: seq<Vec2>, velocities: seq<Vec2>, accelerations: seq<Vec2>)
  {
    predicate Valid() {
      |positions| == |ids| && |velocities| == |ids| && |accelerations| == |ids| && count <= |ids|
    }

    function Capacity(): nat {
      |ids|
    }

    function Row(i: nat): Point
      requires Valid() && i < Capacity()
    {
      Point(ids[i], positions[i], velocities[i], accelerations[i])
    }

    /** Unused rows still carry the id 0 they were allocated with. */
    predicate UnusedClear() {
      forall i | count <= i < |ids| :: ids[i] == 0
    }
  }

  /** A store of the given capacity with no rows, as the constructor builds it. */
  function EmptyPoints(capacity: nat): (p: Points)
    ensures p.Valid() && p.UnusedClear() && p.count == 0 && p.Capacity() == capacity
  {
    Points(0, Zeros(capacity, 0), Zeros(capacity, Zero), Zeros(capacity, Zero), Zeros(capacity, Zero))
  }

  /** `PointDynamicsState.add`: the row at `count` receives the given id (or the
      generated one when none is given) and the three vectors; `count` grows by
      one and the added id is returned. The source does not check the capacity. */
  function AddPoint(p: Points, position: Vec2, velocity: Vec2, acceleration: Vec2, id: Option<u32>, generated: u32): (r: (Points, u32))
    requires p.Valid() && p.count < p.Capacity()
    ensures r.0.Valid() && r.0.Capacity() == p.Capacity()
    ensures r.0.count == p.count + 1
    ensures id.Some? ==> r.1 == id.value
    ensures id.None? ==> r.1 == generated
    ensures r.0.Row(p.count) == Point(r.1, position, velocity, acceleration)
    ensures forall i | 0 <= i < p.Capacity() && i != p.count :: r.0.Row(i) == p.Row(i)
    ensures p.UnusedClear() ==> r.0.UnusedClear()
  {
    var i := p.count;
    var newId := if id.Some? then id.value else generated;
    var q := Points(i + 1, p.ids[i := newId], p.positions[i := position],
                    p.velocities[i := velocity], p.accelerations[i := acceleration]);
    (q, q.ids[i])
  }

  /** Writes `v` to `out[ofs]` and `out[ofs + 1]` of a typed array; a write past
      the end of a typed array is dropped. */
  function WriteVec(out: seq<real>, ofs: nat, v: Vec2): (r: seq<real>)
    ensures |r| == |out|
    ensures forall j | 0 <= j < |out| ::
              r[j] == (if j == ofs then v.x else if j == ofs + 1 then v.y else out[j])
  {
    var o := if ofs < |out| then out[ofs := v.x] else out;
    if ofs + 1 < |out| then o[ofs + 1 := v.y] else o
  }

  /** The three vector columns a getter can read. */
  datatype Column = Positions | Velocities | Accelerations

  function ColumnOf(p: Points, c: Column): seq<Vec2> {
    match c
    case Positions => p.positions
    case Velocities => p.velocities
    case Accelerations => p.accelerations
  }

  /** The shared body of the three getters: look the id up across the whole id
      column, return false without writing when it is absent, and otherwise copy
      that row's two components to `out[ofs..ofs+1]` and return true. */
  function Read(p: Points, c: Column, id: u32, out: seq<real>, ofs: nat): (r: (bool, seq<real>))
    requires p.Valid()
    ensures r.0 <==> id in p.ids
    ensures !r.0 ==> r.1 == out
    ensures forall i | FirstIndex(p.ids, id, i) :: r.1 == WriteVec(out, ofs, ColumnOf(p, c)[i])
  {
    var i := IndexOf(p.ids, id);
    if i < 0 then (false, out)
    else
      FirstIndexIsIndexOf(p.ids, id, i);
      (true, WriteVec(out, ofs, ColumnOf(p, c)[i]))
  }

  /** `PointDynamicsState.getPosition`. */
  function GetPosition(p: Points, id: u32, out: seq<real>, ofs: nat): (r: (bool, seq<real>))
    requires p.Valid()
    ensures r.0 <==> id in p.ids
    ensures !r.0 ==> r.1 == out
    ensures forall i | FirstIndex(p.ids, id, i) :: r.1 == WriteVec(out, ofs, p.positions[i])
  {
    Read(p, Positions, id, out, ofs)
  }

  /** `PointDynamicsState.getVelocity`. */
  function GetVelocity(p: Points, id: u32, out: seq<real>, ofs: nat): (r: (bool, seq<real>))
    requires p.Valid()
    ensures r.0 <==> id in p.ids
    ensures !r.0 ==> r.1 == out
    ensures forall i | FirstIndex(p.ids, id, i) :: r.1 == WriteVec(out, ofs, p.velocities[i])
  {
    Read(p, Velocities, id, out, ofs)
  }

  /** `PointDynamicsState.getAcceleration`. */
  function GetAcceleration(p: Points, id: u32, out: seq<real>, ofs: nat): (r: (bool, seq<real>))
    requires p.Valid()
    ensures r.0 <==> id in p.ids
    ensures !r.0 ==> r.1 == out
    ensures forall i | FirstIndex(p.ids, id, i) :: r.1 == WriteVec(out, ofs, p.accelerations[i])
  {
    Read(p, Accelerations, id, out, ofs)
  }

  /** Reading back a freshly added id: when the id does not occur among the rows
      in use, a lookup after `AddPoint` lands on the new row and returns exactly
      the vectors that were stored. */
  lemma {:induction false} AddThenRead(p: Points, position: Vec2, velocity: Vec2, acceleration: Vec2, id: u32, generated: u32, out: seq<real>, ofs: nat)
    requires p.Valid() && p.count < p.Capacity()
    requires id !in p.ids[..p.count]
    ensures var q := AddPoint(p, position, velocity, acceleration, Some(id), generated).0;
            && GetPosition(q, id, out, ofs) == (true, WriteVec(out, ofs, position))
            && GetVelocity(q, id, out, ofs) == (true, WriteVec(out, ofs, velocity))
            && GetAcceleration(q, id, out, ofs) == (true, WriteVec(out, ofs, acceleration))
  {
    var q := AddPoint(p, position, velocity, acceleration, Some(id), generated).0;
    assert q.ids[..p.count] == p.ids[..p.count] by {
      forall k | 0 <= k < p.count ensures q.ids[k] == p.ids[k] {
        assert q.Row(k) == p.Row(k);
      }
    }
    assert q.Row(p.count).id == id;
    assert FirstIndex(q.ids, id, p.count);
  }

  /** A collision rectangle: the id of the point that is its centre and its half extents. */
  datatype Rectangle = Rectangle(id: u32, center: u32, scale: Vec2)

  datatype Rectangles = Rectangles(count: nat, ids: seq<u32>, centers: seq<u32>, scales: seq<Vec2>)
  {
    predicate Valid() {
      |centers| == |ids| && |scales| == |ids| && count <= |ids|
    }

    function Row(i: nat): Rectangle
      requires Valid() && i < |ids|
    {
      Rectangle(ids[i], centers[i], scales[i])
    }
  }

  function EmptyRectangles(capacity: nat): (r: Rectangles)
    ensures r.Valid() && r.count == 0 && |r.ids| == capacity
  {
    Rectangles(0, Zeros(capacity, 0), Zeros(capacity, 0), Zeros(capacity, Zero))
  }

  /** `RectangleState.add`: the row at `count` gets a generated id, the point id
      as centre and the scale; the generated id is returned. */
  function AddRect(rs: Rectangles, pointId: u32, scale: Vec2, generated: u32): (r: (Rectangles, u32))
    requires rs.Valid() && rs.count < |rs.ids|
    ensures r.0.Valid() && |r.0.ids| == |rs.ids| && r.0.count == rs.count + 1
    ensures r.1 == generated
    ensures r.0.Row(rs.count) == Rectangle(generated, pointId, scale)
    ensures forall i | 0 <= i < |rs.ids| && i != rs.count :: r.0.Row(i) == rs.Row(i)
  {
    var i := rs.count;
    var q := Rectangles(i + 1, rs.ids[i := generated], rs.centers[i := pointId], rs.scales[i := scale]);
    (q, q.ids[i])
  }

  /** `PhysicsState`. `outgoing` is `outgoingNetworkMessages`; the first tick's
      `null` time is represented by 0. */
  datatype PhysicsState = PhysicsState(points: Points, rectangles: Rectangles, collisions: seq<u32>, time: real, outgoing: seq<Message>)
  {
    function Capacity(): nat {
      points.Capacity()
    }

    /** Both stores share one capacity, and every point in use has the
        rectangle in the same row centred on it: points are only ever created
        together with their rectangle. */
    predicate Valid() {
      && points.Valid() && rectangles.Valid()
      && |rectangles.ids| == Capacity() && |collisions| == Capacity()
      && rectangles.count == points.count
      && forall i | 0 <= i < points.count :: rectangles.centers[i] == points.ids[i]
    }
  }

  /** The state `new PhysicsState(N)` builds. */
  function EmptyState(capacity: nat): (s: PhysicsState)
    ensures s.Valid() && s.points.UnusedClear() && s.points.count == 0 && s.Capacity() == capacity
  {
    PhysicsState(EmptyPoints(capacity), EmptyRectangles(capacity), Zeros(capacity, 0 as u32), 0.0, [])
  }

  /** `PhysicsState.addRectangle`: one point and one rectangle centred on that
      point's id with the given scale; the rectangle id is returned. */
  function AddRectangle(s: PhysicsState, scale: Vec2, position: Vec2, velocity: Vec2, acceleration: Vec2,
                        id: Option<u32>, pointDraw: u32, rectangleDraw: u32): (r: (PhysicsState, u32))
    requires s.Valid() && s.points.count < s.Capacity()
    ensures r.0.Valid() && r.0.Capacity() == s.Capacity()
    ensures r.0.points.count == s.points.count + 1
    ensures r.0.collisions == s.collisions && r.0.time == s.time && r.0.outgoing == s.outgoing
    ensures var pid := if id.Some? then id.value else pointDraw;
            && r.0.points.Row(s.points.count) == Point(pid, position, velocity, acceleration)
            && r.0.rectangles.Row(s.points.count) == Rectangle(rectangleDraw, pid, scale)
    ensures r.1 == rectangleDraw
    ensures forall i | 0 <= i < s.Capacity() && i != s.points.count ::
              r.0.points.Row(i) == s.points.Row(i) && r.0.rectangles.Row(i) == s.rectangles.Row(i)
    ensures s.points.UnusedClear() ==> r.0.points.UnusedClear()
  {
    var (points, pointId) := AddPoint(s.points, position, velocity, acceleration, id, pointDraw);
    var (rectangles, rectangleId) := AddRect(s.rectangles, pointId, scale, rectangleDraw);
    assert forall i | 0 <= i < points.count :: rectangles.centers[i] == points.ids[i] by {
      forall i | 0 <= i < points.count ensures rectangles.centers[i] == points.ids[i] {
        if i != s.points.count {
          assert rectangles.Row(i) == s.rectangles.Row(i);
          assert points.Row(i) == s.points.Row(i);
        }
      }
    }
    (s.(points := points, rectangles := rectangles), rectangleId)
  }
}
