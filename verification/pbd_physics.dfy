/** `Physics.evolve` of the wired-in engine: from the committed physics state and
    the committed states of the roster, the controllers and the network, build the
    next physics state in five passes, in source order:
      1. copy the committed state, stamp the new time, clear the outgoing list and
         the collision column;
      2. spawn a point (with its rectangle) for every roster id that has none;
      3. recompute the acceleration of every locally driven point and queue an
         `updatePoint` for those whose acceleration changed;
      4. apply the peers' `updatePoint` messages;
      5. integrate every point whose id is in the roster, reflecting at the walls. */
module PbdPhysics {
  import opened Common
  import opened Kinematics
  import opened PbdStore

  /** `parameters.physics`: the acceleration scale, the drag coefficient `gamma`
      and the player radius. */
  datatype Params = Params(acceleration: real, gamma: real, playerRadius: real)

  /** The random draws for a point spawned for a roster id: its position (each
      coordinate `2 * (Math.random() - 0.5)`) and its rectangle's generated id. */
  datatype Spawn = Spawn(position: Vec2, rectangleId: u32)

  /** Everything `evolve` reads besides its own committed state:
      `game.time`, the committed roster (`count`, `ids`, `accelerations` of
      `game.players.state`, as capacity-sized columns), the committed controller
      id column `game.input.state.playerId`, the committed network incoming list,
      the parameters, this process's `systemId` and the random spawn draws. */
  datatype Inputs = Inputs(
    time: real,
    rosterCount: nat, rosterIds: seq<u32>, intents: seq<Vec2>,
    controllerIds: seq<u32>,
    incoming: seq<Message>,
    params: Params,
    systemId: u32,
    spawn: u32 -> Spawn)
  {
    predicate Valid() {
      rosterCount <= |rosterIds| && |intents| == |rosterIds|
    }
  }

  // ---------------------------------------------------------------- pass 1

  /** `state.set(this.state)` followed by the time stamp and the two resets. */
  function Prepare(s: PhysicsState, time: real): (r: PhysicsState)
    requires s.Valid()
    ensures r.Valid() && r.points == s.points && r.rectangles == s.rectangles
    ensures r.time == time && r.outgoing == []
    ensures forall k | 0 <= k < |r.collisions| :: r.collisions[k] == 0
  {
    s.(time := time, outgoing := [], collisions := Zeros(s.Capacity(), 0))
  }

  // ---------------------------------------------------------------- pass 2

  /** The row `k` of `t` is a point spawned for one of the roster ids from index
      `i` on: drawn position, zero velocity and acceleration, and a rectangle of
      half extent `[r, r]` centred on it. */
  ghost predicate SpawnedRow(s: PhysicsState, t: PhysicsState, ins: Inputs, i: nat, k: nat)
    requires s.Valid() && t.Valid() && ins.Valid() && i <= ins.rosterCount && k < t.Capacity()
  {
    var id := t.points.ids[k];
    var radius := ins.params.playerRadius;
    && id in ins.rosterIds[i..ins.rosterCount]
    && id !in s.points.ids[..s.points.count]
    && t.points.Row(k) == Point(id, ins.spawn(id).position, Zero, Zero)
    && t.rectangles.Row(k) == Rectangle(ins.spawn(id).rectangleId, id, Vec2(radius, radius))
  }

  /** What the spawn pass from roster index `i` guarantees about its result `t`. */
  ghost predicate SpawnedFrom(s: PhysicsState, t: PhysicsState, ins: Inputs, i: nat)
    requires s.Valid() && ins.Valid() && i <= ins.rosterCount
  {
    && t.Valid() && t.Capacity() == s.Capacity()
    && t.collisions == s.collisions && t.time == s.time && t.outgoing == s.outgoing
    && s.points.count <= t.points.count
    // rows already in use and rows still unused are untouched
    && (forall k | 0 <= k < s.Capacity() && !(s.points.count <= k < t.points.count) ::
          t.points.Row(k) == s.points.Row(k) && t.rectangles.Row(k) == s.rectangles.Row(k))
    // every appended row is a freshly spawned point for a roster id
    && (forall k | s.points.count <= k < t.points.count :: SpawnedRow(s, t, ins, i, k))
    // no id is spawned twice
    && (forall a, b | s.points.count <= a < b < t.points.count :: t.points.ids[a] != t.points.ids[b])
    // with unused ids clear, every non-zero roster id now has a point in use
    && (s.points.UnusedClear() ==>
          && t.points.UnusedClear()
          && forall j | i <= j < ins.rosterCount && ins.rosterIds[j] != 0 ::
               ins.rosterIds[j] in t.points.ids[..t.points.count])
  }

  /** The spawn loop from roster index `i`: a roster id absent from the whole id
      column gets a point at a drawn position with zero velocity and acceleration
      and a rectangle of scale `[r, r]`. None: an append found the store full
      (the source writes past its arrays there). What the rows of the result
      hold is `SpawnFromSpec`. */
  function SpawnFrom(s: PhysicsState, ins: Inputs, i: nat): (r: Option<PhysicsState>)
    requires s.Valid() && ins.Valid() && i <= ins.rosterCount
    ensures s.points.count + (ins.rosterCount - i) <= s.Capacity() ==> r.Some?
    ensures r.Some? ==> && r.value.Valid() && r.value.Capacity() == s.Capacity()
                        && r.value.collisions == s.collisions && r.value.time == s.time
                        && r.value.outgoing == s.outgoing
    decreases ins.rosterCount - i
  {
    if i == ins.rosterCount then Some(s)
    else
      var id := ins.rosterIds[i];
      if IndexOf(s.points.ids, id) != -1 then SpawnFrom(s, ins, i + 1)
      else if s.points.count == s.Capacity() then None
      else
        var radius := ins.params.playerRadius;
        var d := ins.spawn(id);
        SpawnFrom(AddRectangle(s, Vec2(radius, radius), d.position, Zero, Zero, Some(id), 0, d.rectangleId).0, ins, i + 1)
  }

  /** The spawn loop appends exactly the fresh points of the roster ids from
      `i` on, leaves every other row alone, spawns no id twice, and (with unused
      ids clear) leaves every non-zero roster id with a point in use. */
  lemma {:induction false} SpawnFromSpec(s: PhysicsState, ins: Inputs, i: nat)
    requires s.Valid() && ins.Valid() && i <= ins.rosterCount
    ensures SpawnFrom(s, ins, i).Some? ==> SpawnedFrom(s, SpawnFrom(s, ins, i).value, ins, i)
    decreases ins.rosterCount - i
  {
    if i < ins.rosterCount && SpawnFrom(s, ins, i).Some? {
      var id := ins.rosterIds[i];
      var r := SpawnFrom(s, ins, i).value;
      if IndexOf(s.points.ids, id) != -1 {
        SpawnFromSpec(s, ins, i + 1);
        SpawnedFromWeaken(s, r, ins, i);
        if s.points.UnusedClear() && id != 0 {
          assert id in s.points.ids[..s.points.count];
          SpawnedKeepsPrefix(s, r, ins, i + 1);
        }
      } else {
        var radius := ins.params.playerRadius;
        var d := ins.spawn(id);
        var s1 := AddRectangle(s, Vec2(radius, radius), d.position, Zero, Zero, Some(id), 0, d.rectangleId).0;
        SpawnFromSpec(s1, ins, i + 1);
        SpawnedFromAppend(s, s1, r, ins, i);
      }
    }
  }

  /** A result that is good from roster index `i + 1` is good from `i` when the
      id at `i` already had a row (stated for everything but the roster clause). */
  lemma SpawnedFromWeaken(s: PhysicsState, t: PhysicsState, ins: Inputs, i: nat)
    requires s.Valid() && ins.Valid() && i < ins.rosterCount
    requires SpawnedFrom(s, t, ins, i + 1)
    ensures forall k | s.points.count <= k < t.points.count :: SpawnedRow(s, t, ins, i, k)
  {
    forall k | s.points.count <= k < t.points.count
      ensures SpawnedRow(s, t, ins, i, k)
    {
      assert SpawnedRow(s, t, ins, i + 1, k);
      var id := t.points.ids[k];
      assert id in ins.rosterIds[i + 1..ins.rosterCount];
      assert ins.rosterIds[i + 1..ins.rosterCount] == ins.rosterIds[i..ins.rosterCount][1..];
    }
  }

  lemma SpawnedKeepsPrefix(s: PhysicsState, t: PhysicsState, ins: Inputs, i: nat)
    requires s.Valid() && ins.Valid() && i <= ins.rosterCount
    requires SpawnedFrom(s, t, ins, i)
    ensures t.points.ids[..s.points.count] == s.points.ids[..s.points.count]
  {
    forall k | 0 <= k < s.points.count ensures t.points.ids[k] == s.points.ids[k] {
      assert t.points.Row(k) == s.points.Row(k);
    }
  }

  /** Chaining one append at `s.points.count` with the rest of the loop. */
  lemma SpawnedFromAppend(s: PhysicsState, s1: PhysicsState, t: PhysicsState, ins: Inputs, i: nat)
    requires s.Valid() && ins.Valid() && i < ins.rosterCount
    requires s.points.count < s.Capacity()
    requires ins.rosterIds[i] !in s.points.ids
    requires var radius := ins.params.playerRadius;
             var id := ins.rosterIds[i];
             var d := ins.spawn(id);
             s1 == AddRectangle(s, Vec2(radius, radius), d.position, Zero, Zero, Some(id), 0, d.rectangleId).0
    requires SpawnedFrom(s1, t, ins, i + 1)
    ensures SpawnedFrom(s, t, ins, i)
  {
    var id := ins.rosterIds[i];
    var c := s.points.count;
    assert s1.points.Row(c).id == id;
    assert s1.points.ids[..c] == s.points.ids[..c] by {
      forall k | 0 <= k < c ensures s1.points.ids[k] == s.points.ids[k] {
        assert s1.points.Row(k) == s.points.Row(k);
      }
    }
    assert t.points.ids[..c + 1] == s1.points.ids[..c + 1] by {
      forall k | 0 <= k < c + 1 ensures t.points.ids[k] == s1.points.ids[k] {
        assert t.points.Row(k) == s1.points.Row(k);
      }
    }
    assert t.points.Row(c) == s1.points.Row(c);
    assert t.rectangles.Row(c) == s1.rectangles.Row(c);
    forall k | 0 <= k < s.Capacity() && !(c <= k < t.points.count)
      ensures t.points.Row(k) == s.points.Row(k) && t.rectangles.Row(k) == s.rectangles.Row(k)
    {
      assert t.points.Row(k) == s1.points.Row(k);
      assert t.rectangles.Row(k) == s1.rectangles.Row(k);
    }
    forall k | c <= k < t.points.count
      ensures SpawnedRow(s, t, ins, i, k)
    {
      if k == c {
        assert id == ins.rosterIds[i..ins.rosterCount][0];
        assert id !in s.points.ids[..c];
      } else {
        assert SpawnedRow(s1, t, ins, i + 1, k);
        var idk := t.points.ids[k];
        assert idk in ins.rosterIds[i + 1..ins.rosterCount];
        assert ins.rosterIds[i + 1..ins.rosterCount] == ins.rosterIds[i..ins.rosterCount][1..];
        assert idk !in s1.points.ids[..c + 1];
        assert s.points.ids[..c] == s1.points.ids[..c + 1][..c];
      }
    }
    forall a, b | c <= a < b < t.points.count
      ensures t.points.ids[a] != t.points.ids[b]
    {
      if a == c {
        assert SpawnedRow(s1, t, ins, i + 1, b);
        assert t.points.ids[b] !in s1.points.ids[..c + 1];
        assert s1.points.ids[..c + 1][c] == id;
      }
    }
    if s.points.UnusedClear() {
      assert s1.points.UnusedClear();
      forall j | i <= j < ins.rosterCount && ins.rosterIds[j] != 0
        ensures ins.rosterIds[j] in t.points.ids[..t.points.count]
      {
        if j == i {
          assert t.points.ids[..t.points.count][c] == id;
        }
      }
    }
  }

  // ---------------------------------------------------------------- pass 3

  /** `players.ids.indexOf(id) != -1`: the id has a roster slot (the lookup scans
      the whole capacity-sized column). */
  predicate InRoster(ins: Inputs, id: u32) {
    IndexOf(ins.rosterIds, id) != -1
  }

  /** A point is driven locally when its id has a roster slot and a controller slot. */
  predicate Driven(ins: Inputs, id: u32) {
    InRoster(ins, id) && IndexOf(ins.controllerIds, id) != -1
  }

  /** `parameters.physics.acceleration * players.accelerations[..]` of the id's roster slot. */
  function Target(ins: Inputs, id: u32): Vec2
    requires ins.Valid() && InRoster(ins, id)
  {
    Scale(ins.params.acceleration, ins.intents[IndexOf(ins.rosterIds, id)])
  }

  /** Row `k` is driven and its recomputed acceleration differs from the stored one. */
  predicate Changed(p: Points, ins: Inputs, k: nat)
    requires p.Valid() && ins.Valid() && k < p.Capacity()
  {
    Driven(ins, p.ids[k]) && Target(ins, p.ids[k]) != p.accelerations[k]
  }

  /** The `updatePoint` queued for row `k`: own system id, the row's position and
      velocity as they are before integration, and the new acceleration. */
  function UpdateFor(p: Points, ins: Inputs, k: nat): Message
    requires p.Valid() && ins.Valid() && k < p.Capacity() && InRoster(ins, p.ids[k])
  {
    UpdatePoint(p.ids[k], ins.systemId, p.positions[k], p.velocities[k], Target(ins, p.ids[k]))
  }

  /** The rows `i..count` whose acceleration changes, judged against the store
      before the loop writes anything. */
  function ChangedRows(p: Points, ins: Inputs, i: nat): (rows: seq<nat>)
    requires p.Valid() && ins.Valid() && i <= p.count
    ensures forall j | 0 <= j < |rows| :: i <= rows[j] < p.count && InRoster(ins, p.ids[rows[j]])
    decreases p.count - i
  {
    if i == p.count then []
    else (if Changed(p, ins, i) then [i] else []) + ChangedRows(p, ins, i + 1)
  }

  /** Each row is listed after every smaller one. */
  predicate Increasing(rows: seq<nat>) {
    forall j, j' | 0 <= j < j' < |rows| :: rows[j] < rows[j']
  }

  lemma IncreasingCons(i: nat, tail: seq<nat>)
    requires Increasing(tail) && forall j | 0 <= j < |tail| :: i < tail[j]
    ensures Increasing([i] + tail)
  {
    var rows := [i] + tail;
    forall j, j' | 0 <= j < j' < |rows|
      ensures rows[j] < rows[j']
    {
      assert rows[j'] == tail[j' - 1];
      if j > 0 {
        assert rows[j] == tail[j - 1];
      }
    }
  }

  /** The changed rows are listed in increasing row order. */
  lemma {:induction false} ChangedRowsOrdered(p: Points, ins: Inputs, i: nat)
    requires p.Valid() && ins.Valid() && i <= p.count
    ensures Increasing(ChangedRows(p, ins, i))
    decreases p.count - i
  {
    if i < p.count {
      ChangedRowsOrdered(p, ins, i + 1);
      var tail := ChangedRows(p, ins, i + 1);
      if Changed(p, ins, i) {
        assert ChangedRows(p, ins, i) == [i] + tail;
        IncreasingCons(i, tail);
      } else {
        assert ChangedRows(p, ins, i) == tail;
      }
    } else {
      assert ChangedRows(p, ins, i) == [];
    }
  }

  /** A row is listed exactly when it is in use from `i` on and changed. */
  lemma {:induction false} ChangedRowsExactly(p: Points, ins: Inputs, i: nat)
    requires p.Valid() && ins.Valid() && i <= p.count
    ensures forall k :: k in ChangedRows(p, ins, i) <==> i <= k < p.count && Changed(p, ins, k)
    decreases p.count - i
  {
    if i < p.count {
      ChangedRowsExactly(p, ins, i + 1);
      var tail := ChangedRows(p, ins, i + 1);
      assert ChangedRows(p, ins, i) == (if Changed(p, ins, i) then [i] else []) + tail;
    }
  }

  /** Rows whose accelerations from `i` on agree change alike. */
  lemma {:induction false} ChangedRowsAgree(p: Points, q: Points, ins: Inputs, i: nat)
    requires p.Valid() && q.Valid() && ins.Valid() && i <= p.count
    requires q.ids == p.ids && q.count == p.count
    requires forall k | i <= k < p.Capacity() :: q.accelerations[k] == p.accelerations[k]
    ensures ChangedRows(q, ins, i) == ChangedRows(p, ins, i)
    decreases p.count - i
  {
    if i < p.count {
      assert Changed(q, ins, i) == Changed(p, ins, i);
      ChangedRowsAgree(p, q, ins, i + 1);
    }
  }

  /** What the driving loop from row `i` guarantees about its result: the
      accelerations of the driven rows are set, and one update goes out per
      changed row, in row order. */
  ghost predicate DroveFrom(p: Points, ins: Inputs, i: nat, r: (Points, seq<Message>))
    requires p.Valid() && ins.Valid() && i <= p.count
  {
    && r.0.Valid() && r.0 == p.(accelerations := r.0.accelerations)
    && (forall k | 0 <= k < p.Capacity() ::
          r.0.accelerations[k] == (if i <= k < p.count && Driven(ins, p.ids[k]) then Target(ins, p.ids[k])
                                   else p.accelerations[k]))
    && var rows := ChangedRows(p, ins, i);
       && |r.1| == |rows|
       && (forall j | 0 <= j < |rows| :: r.1[j] == UpdateFor(p, ins, rows[j]))
  }

  /** The driving loop over rows `i..count`: returns the store with the new
      accelerations and the `updatePoint` messages, in row order. A driven row
      gets `acceleration * intent`; a message is queued for it exactly when one
      of the two components changed. What it computes is `DriveFromSpec`. */
  function DriveFrom(p: Points, ins: Inputs, i: nat): (r: (Points, seq<Message>))
    requires p.Valid() && ins.Valid() && i <= p.count
    ensures r.0.Valid() && r.0.ids == p.ids && r.0.count == p.count
    ensures r.0.positions == p.positions && r.0.velocities == p.velocities
    decreases p.count - i
  {
    if i == p.count then (p, [])
    else
      var id := p.ids[i];
      if IndexOf(ins.rosterIds, id) == -1 || IndexOf(ins.controllerIds, id) == -1 then DriveFrom(p, ins, i + 1)
      else
        var a := Target(ins, id);
        var updated := a.x != p.accelerations[i].x || a.y != p.accelerations[i].y;
        var rest := DriveFrom(p.(accelerations := p.accelerations[i := a]), ins, i + 1);
        (rest.0, (if updated then [UpdateFor(p, ins, i)] else []) + rest.1)
  }

  /** The driving loop sets the acceleration of exactly the driven rows from
      `i` on, and queues one update for each of them whose acceleration
      changed and nothing else. */
  lemma {:induction false} DriveFromSpec(p: Points, ins: Inputs, i: nat)
    requires p.Valid() && ins.Valid() && i <= p.count
    ensures DroveFrom(p, ins, i, DriveFrom(p, ins, i))
    decreases p.count - i
  {
    if i < p.count {
      var id := p.ids[i];
      if !Driven(ins, id) {
        DriveFromSpec(p, ins, i + 1);
        DroveSkip(p, ins, i, DriveFrom(p, ins, i + 1));
      } else {
        var q := p.(accelerations := p.accelerations[i := Target(ins, id)]);
        DriveFromSpec(q, ins, i + 1);
        var rest := DriveFrom(q, ins, i + 1);
        assert DriveFrom(p, ins, i) == (rest.0, (if Changed(p, ins, i) then [UpdateFor(p, ins, i)] else []) + rest.1);
        DroveRow(p, q, ins, i, rest, DriveFrom(p, ins, i));
      }
    }
  }

  lemma DroveSkip(p: Points, ins: Inputs, i: nat, rest: (Points, seq<Message>))
    requires p.Valid() && ins.Valid() && i < p.count && !Driven(ins, p.ids[i])
    requires DroveFrom(p, ins, i + 1, rest)
    ensures DroveFrom(p, ins, i, rest)
  {
    assert ChangedRows(p, ins, i) == [] + ChangedRows(p, ins, i + 1);
  }

  lemma DroveRow(p: Points, q: Points, ins: Inputs, i: nat, rest: (Points, seq<Message>), r: (Points, seq<Message>))
    requires p.Valid() && ins.Valid() && i < p.count && Driven(ins, p.ids[i])
    requires q == p.(accelerations := p.accelerations[i := Target(ins, p.ids[i])])
    requires DroveFrom(q, ins, i + 1, rest)
    requires r == (rest.0, (if Changed(p, ins, i) then [UpdateFor(p, ins, i)] else []) + rest.1)
    ensures DroveFrom(p, ins, i, r)
  {
    ChangedRowsAgree(p, q, ins, i + 1);
    DroveRowMessages(p, q, ins, i, rest.1, r.1);
  }

  lemma DroveRowMessages(p: Points, q: Points, ins: Inputs, i: nat, rest: seq<Message>, r: seq<Message>)
    requires p.Valid() && ins.Valid() && i < p.count && Driven(ins, p.ids[i])
    requires q == p.(accelerations := p.accelerations[i := Target(ins, p.ids[i])])
    requires ChangedRows(q, ins, i + 1) == ChangedRows(p, ins, i + 1)
    requires var tail := ChangedRows(q, ins, i + 1);
             |rest| == |tail| && forall j | 0 <= j < |tail| :: rest[j] == UpdateFor(q, ins, tail[j])
    requires r == (if Changed(p, ins, i) then [UpdateFor(p, ins, i)] else []) + rest
    ensures var rows := ChangedRows(p, ins, i);
            |r| == |rows| && forall j | 0 <= j < |rows| :: r[j] == UpdateFor(p, ins, rows[j])
  {
    var tail := ChangedRows(p, ins, i + 1);
    assert ChangedRows(p, ins, i) == (if Changed(p, ins, i) then [i] else []) + tail;
    forall j | 0 <= j < |tail|
      ensures rest[j] == UpdateFor(p, ins, tail[j])
    {
      assert rest[j] == UpdateFor(q, ins, tail[j]);
    }
  }

  // ---------------------------------------------------------------- pass 4

  /** An incoming message that `evolve` applies: an `updatePoint` from another
      system whose id has a row. */
  predicate Applies(p: Points, m: Message, own: u32) {
    m.UpdatePoint? && IndexOf(p.ids, m.id) != -1 && m.systemId != own
  }

  /** One iteration of the incoming loop: an applicable `updatePoint` overwrites
      position, velocity and acceleration of the first row with its id; anything
      else leaves the store as it is. */
  function ApplyUpdate(p: Points, m: Message, own: u32): (r: Points)
    requires p.Valid()
    ensures r.Valid() && r.ids == p.ids && r.count == p.count
    ensures !Applies(p, m, own) ==> r == p
    ensures Applies(p, m, own) ==>
              forall k | 0 <= k < p.Capacity() ::
                r.Row(k) == (if FirstIndex(p.ids, m.id, k) then Point(m.id, m.position, m.velocity, m.acceleration)
                             else p.Row(k))
  {
    match m
    case UpdatePoint(id, systemId, position, velocity, acceleration) =>
      var i := IndexOf(p.ids, id);
      if i == -1 || systemId == own then p
      else
        assert forall k | 0 <= k < p.Capacity() :: FirstIndex(p.ids, id, k) <==> k == i by {
          forall k | 0 <= k < p.Capacity() && FirstIndex(p.ids, id, k) ensures k == i {
            FirstIndexIsIndexOf(p.ids, id, k);
          }
        }
        p.(positions := p.positions[i := position], velocities := p.velocities[i := velocity],
           accelerations := p.accelerations[i := acceleration])
    case _ => p
  }

  /** The incoming loop: the messages are applied in list order. */
  function ApplyAll(p: Points, msgs: seq<Message>, own: u32): (r: Points)
    requires p.Valid()
    ensures r.Valid() && r.ids == p.ids && r.count == p.count
    decreases |msgs|
  {
    if msgs == [] then p else ApplyAll(ApplyUpdate(p, msgs[0], own), msgs[1..], own)
  }

  lemma {:induction false} ApplyAllSnoc(p: Points, msgs: seq<Message>, m: Message, own: u32)
    requires p.Valid()
    ensures ApplyAll(p, msgs + [m], own) == ApplyUpdate(ApplyAll(p, msgs, own), m, own)
    decreases |msgs|
  {
    if msgs == [] {
      assert msgs + [m] == [m];
    } else {
      assert (msgs + [m])[1..] == msgs[1..] + [m];
      ApplyAllSnoc(ApplyUpdate(p, msgs[0], own), msgs[1..], m, own);
    }
  }

  /** The last message of `msgs` that the incoming loop applies to row `k`. */
  function LastFor(ids: seq<u32>, msgs: seq<Message>, own: u32, k: nat): (r: Option<Message>)
    ensures r.Some? ==> r.value in msgs && r.value.UpdatePoint? && r.value.systemId != own && FirstIndex(ids, r.value.id, k)
    decreases |msgs|
  {
    if msgs == [] then None
    else
      var m := msgs[|msgs| - 1];
      if m.UpdatePoint? && m.systemId != own && FirstIndex(ids, m.id, k) then Some(m)
      else LastFor(ids, msgs[..|msgs| - 1], own, k)
  }

  /** Last writer wins: after the incoming loop, each row holds the position,
      velocity and acceleration of the LAST message from another system that
      names the row's id (the first row carrying it), and is unchanged when there
      is no such message. No version or time stamp is compared. */
  lemma {:induction false} LastWriterWins(p: Points, msgs: seq<Message>, own: u32, k: nat)
    requires p.Valid() && k < p.Capacity()
    ensures ApplyAll(p, msgs, own).Row(k)
         == match LastFor(p.ids, msgs, own, k)
            case None => p.Row(k)
            case Some(m) => Point(p.ids[k], m.position, m.velocity, m.acceleration)
    decreases |msgs|
  {
    if msgs != [] {
      var init := msgs[..|msgs| - 1];
      var m := msgs[|msgs| - 1];
      assert msgs == init + [m];
      ApplyAllSnoc(p, init, m, own);
      LastWriterWins(p, init, own, k);
      var q := ApplyAll(p, init, own);
      if m.UpdatePoint? && m.systemId != own && FirstIndex(p.ids, m.id, k) {
        FirstIndexIsIndexOf(p.ids, m.id, k);
        assert Applies(q, m, own);
      }
    }
  }

  /** The messages of `msgs` that did not originate at system `own`. */
  function Foreign(msgs: seq<Message>, own: u32): (r: seq<Message>)
    ensures forall m | m in r :: m in msgs && !(m.UpdatePoint? && m.systemId == own)
    decreases |msgs|
  {
    if msgs == [] then []
    else if msgs[0].UpdatePoint? && msgs[0].systemId == own then Foreign(msgs[1..], own)
    else [msgs[0]] + Foreign(msgs[1..], own)
  }

  /** Self-echo suppression: whatever they carry, the updates stamped with this
      process's own system id have no effect; dropping them changes nothing. */
  lemma {:induction false} SelfEchoIgnored(p: Points, msgs: seq<Message>, own: u32)
    requires p.Valid()
    ensures ApplyAll(p, msgs, own) == ApplyAll(p, Foreign(msgs, own), own)
    decreases |msgs|
  {
    if msgs != [] {
      var m := msgs[0];
      if m.UpdatePoint? && m.systemId == own {
        assert ApplyUpdate(p, m, own) == p;
        SelfEchoIgnored(p, msgs[1..], own);
      } else {
        var f := Foreign(msgs, own);
        assert f[0] == m && f[1..] == Foreign(msgs[1..], own);
        SelfEchoIgnored(ApplyUpdate(p, m, own), msgs[1..], own);
      }
    }
  }

  /** Unknown ids: when no message names an id that has a row (or every such
      message is an echo), the store comes out of the incoming loop unchanged. */
  lemma {:induction false} NothingApplicableChangesNothing(p: Points, msgs: seq<Message>, own: u32)
    requires p.Valid()
    requires forall m | m in msgs :: !Applies(p, m, own)
    ensures ApplyAll(p, msgs, own) == p
    decreases |msgs|
  {
    if msgs != [] {
      assert msgs[0] in msgs;
      assert ApplyUpdate(p, msgs[0], own) == p;
      assert forall m | m in msgs[1..] :: m in msgs;
      NothingApplicableChangesNothing(p, msgs[1..], own);
    }
  }

  // ---------------------------------------------------------------- pass 5

  /** Row `k` takes part in integration: it is in use and its id has a roster slot. */
  predicate Integrated(p: Points, ins: Inputs, k: nat)
    requires p.Valid() && k < p.Capacity()
  {
    k < p.count && InRoster(ins, p.ids[k])
  }

  /** The result of integrating row `k` (when it is integrated at all). */
  function Integrate(p: Points, coll: seq<u32>, ins: Inputs, dt: real, k: nat): (Point, u32)
    requires p.Valid() && |coll| == p.Capacity() && k < p.Capacity()
  {
    var st := StepRow(p.positions[k], p.velocities[k], p.accelerations[k], dt, ins.params.gamma, ins.params.playerRadius);
    (p.Row(k).(position := st.position, velocity := st.velocity), if st.hit then OrFlag(coll[k], CollisionFlag) else coll[k])
  }

  /** What the integration loop from row `i` guarantees about its result: rows
      from `i` whose id has a roster slot take one `StepRow`, and their collision
      entry is or-ed with the flag when an axis overshot; every other row and
      entry is left as it is. */
  ghost predicate IntegratedFrom(p: Points, coll: seq<u32>, ins: Inputs, dt: real, i: nat, r: (Points, seq<u32>))
    requires p.Valid() && |coll| == p.Capacity()
  {
    && r.0.Valid() && r.0.ids == p.ids && r.0.count == p.count && |r.1| == |coll|
    && forall k | 0 <= k < p.Capacity() ::
         if i <= k && Integrated(p, ins, k) then (r.0.Row(k), r.1[k]) == Integrate(p, coll, ins, dt, k)
         else r.0.Row(k) == p.Row(k) && r.1[k] == coll[k]
  }

  /** The integration loop over rows `i..count`. The flag or-ed in is the one
      computed from the position column. What it computes is `IntegrateFromSpec`. */
  function IntegrateFrom(p: Points, coll: seq<u32>, ins: Inputs, dt: real, i: nat): (r: (Points, seq<u32>))
    requires p.Valid() && |coll| == p.Capacity() && i <= p.count
    ensures r.0.Valid() && r.0.ids == p.ids && r.0.count == p.count && |r.1| == |coll|
    decreases p.count - i
  {
    if i == p.count then (p, coll)
    else if IndexOf(ins.rosterIds, p.ids[i]) == -1 then IntegrateFrom(p, coll, ins, dt, i + 1)
    else
      var st := StepRow(p.positions[i], p.velocities[i], p.accelerations[i], dt, ins.params.gamma, ins.params.playerRadius);
      var flag := CollisionFlagAsWritten(Dim * p.Capacity(), p.positions[0].x);
      var q := p.(positions := p.positions[i := st.position], velocities := p.velocities[i := st.velocity]);
      IntegrateFrom(q, MarkCollision(coll, i, flag, st.hit), ins, dt, i + 1)
  }

  /** Every row from `i` whose id has a roster slot takes one `StepRow` and has
      the flag or-ed into its collision entry when it overshot, and every other
      row and entry is left as it is. */
  lemma {:induction false} IntegrateFromSpec(p: Points, coll: seq<u32>, ins: Inputs, dt: real, i: nat)
    requires p.Valid() && |coll| == p.Capacity() && i <= p.count
    ensures IntegratedFrom(p, coll, ins, dt, i, IntegrateFrom(p, coll, ins, dt, i))
    decreases p.count - i
  {
    if i < p.count {
      if !InRoster(ins, p.ids[i]) {
        IntegrateFromSpec(p, coll, ins, dt, i + 1);
      } else {
        var st := StepRow(p.positions[i], p.velocities[i], p.accelerations[i], dt, ins.params.gamma, ins.params.playerRadius);
        var q := p.(positions := p.positions[i := st.position], velocities := p.velocities[i := st.velocity]);
        var c := MarkCollision(coll, i, CollisionFlagAsWritten(Dim * p.Capacity(), p.positions[0].x), st.hit);
        IntegrateFromSpec(q, c, ins, dt, i + 1);
        IntegratedRow(p, coll, ins, dt, i, q, c, IntegrateFrom(q, c, ins, dt, i + 1));
      }
    }
  }

  lemma IntegratedRow(p: Points, coll: seq<u32>, ins: Inputs, dt: real, i: nat, q: Points, c: seq<u32>, r: (Points, seq<u32>))
    requires p.Valid() && |coll| == p.Capacity() && i < p.count && Integrated(p, ins, i)
    requires var st := StepRow(p.positions[i], p.velocities[i], p.accelerations[i], dt, ins.params.gamma, ins.params.playerRadius);
             && q == p.(positions := p.positions[i := st.position], velocities := p.velocities[i := st.velocity])
             && c == MarkCollision(coll, i, CollisionFlagAsWritten(Dim * p.Capacity(), p.positions[0].x), st.hit)
    requires q.Valid() && |c| == q.Capacity() && IntegratedFrom(q, c, ins, dt, i + 1, r)
    ensures IntegratedFrom(p, coll, ins, dt, i, r)
  {
    assert CollisionFlagAsWritten(Dim * p.Capacity(), p.positions[0].x) == CollisionFlag;
    assert (r.0.Row(i), r.1[i]) == Integrate(p, coll, ins, dt, i) by {
      assert r.0.Row(i) == q.Row(i) && r.1[i] == c[i];
    }
    forall k | 0 <= k < p.Capacity() && k != i
      ensures if i <= k && Integrated(p, ins, k) then (r.0.Row(k), r.1[k]) == Integrate(p, coll, ins, dt, k)
              else r.0.Row(k) == p.Row(k) && r.1[k] == coll[k]
    {
      assert q.Row(k) == p.Row(k) && c[k] == coll[k];
      assert Integrated(q, ins, k) == Integrated(p, ins, k);
      if i <= k && Integrated(p, ins, k) {
        assert Integrate(q, c, ins, dt, k) == Integrate(p, coll, ins, dt, k);
      }
    }
  }

  // ---------------------------------------------------------------- evolve

  /** The guarantees of one `evolve` from `s` to `t`, where `s1` is the state
      after spawning: those of the shape, the walls and the roster, the messages
      announced for the spawned store, and the collision flags of the
      integration pass, which steps the store the driving and incoming passes
      leave behind. */
  ghost predicate Stepped(s: PhysicsState, ins: Inputs, s1: PhysicsState, t: PhysicsState)
    requires s.Valid() && ins.Valid() && s1.Valid()
  {
    && SteppedShape(s, ins, t)
    && t.Valid()
    && SteppedOutgoing(s1.points, ins, t)
    && SteppedCollisions(BeforeIntegration(s1.points, ins), ins, ins.time - s.time, t)
    && SteppedInside(ins, t)
    && SteppedRoster(s, ins, t)
  }

  /** The state stays well formed, takes the new time, and keeps the ids of the
      rows already in use. */
  ghost predicate SteppedShape(s: PhysicsState, ins: Inputs, t: PhysicsState)
    requires s.Valid()
  {
    && t.Valid() && t.Capacity() == s.Capacity() && t.time == ins.time
    && s.points.count <= t.points.count
    && t.points.ids[..s.points.count] == s.points.ids[..s.points.count]
  }

  /** Exactly one update goes out for each driven row of the spawned store `p`
      whose acceleration changes, in row order, stamped with this process's id. */
  ghost predicate SteppedOutgoing(p: Points, ins: Inputs, t: PhysicsState)
    requires p.Valid() && ins.Valid()
  {
    && (forall m | m in t.outgoing :: m.UpdatePoint? && m.systemId == ins.systemId && Driven(ins, m.id))
    && var rows := ChangedRows(p, ins, 0);
       && |t.outgoing| == |rows|
       && (forall j | 0 <= j < |rows| :: t.outgoing[j] == UpdateFor(p, ins, rows[j]))
  }

  /** The store the integration pass starts from: the spawned store after the
      driving and incoming passes. */
  ghost function BeforeIntegration(p: Points, ins: Inputs): (q: Points)
    requires p.Valid() && ins.Valid()
    ensures q.Valid() && q.ids == p.ids && q.count == p.count
  {
    ApplyAll(DriveFrom(p, ins, 0).0, ins.incoming, ins.systemId)
  }

  /** The collision column was cleared, and an entry holds the flag exactly
      when its row is integrated and the step from `pre` overshot on some axis;
      every other entry is 0. */
  ghost predicate SteppedCollisions(pre: Points, ins: Inputs, dt: real, t: PhysicsState)
    requires t.Valid()
  {
    && pre.Valid() && pre.ids == t.points.ids && pre.count == t.points.count
    && forall k | 0 <= k < t.Capacity() ::
         t.collisions[k] == (if Integrated(t.points, ins, k)
                                && StepRow(pre.positions[k], pre.velocities[k], pre.accelerations[k], dt,
                                           ins.params.gamma, ins.params.playerRadius).hit
                             then CollisionFlag else 0)
  }

  /** Integrated points end inside the walls. */
  ghost predicate SteppedInside(ins: Inputs, t: PhysicsState)
    requires t.Valid()
  {
    0.0 <= ins.params.playerRadius <= 1.0 ==>
      forall k | 0 <= k < t.Capacity() && Integrated(t.points, ins, k) ::
        InBounds(t.points.positions[k], ins.params.playerRadius)
  }

  /** With unused ids clear, every non-zero roster id has a point. */
  ghost predicate SteppedRoster(s: PhysicsState, ins: Inputs, t: PhysicsState)
    requires ins.Valid() && t.Valid()
  {
    s.points.UnusedClear() ==>
      && t.points.UnusedClear()
      && forall j | 0 <= j < ins.rosterCount && ins.rosterIds[j] != 0 ::
           ins.rosterIds[j] in t.points.ids[..t.points.count]
  }

  /** `Physics.evolve`: the next physics state, or None when spawning found the
      store full. */
  function Evolve(s: PhysicsState, ins: Inputs): (r: Option<PhysicsState>)
    requires s.Valid() && ins.Valid()
    ensures s.points.count + ins.rosterCount <= s.Capacity() ==> r.Some?
  {
    match Spawned(s, ins)
    case None => None
    case Some(s1) => Some(Advance(s1, ins, ins.time - s.time))
  }

  /** Passes 1 and 2: the prepared state with the roster's missing points spawned. */
  function Spawned(s: PhysicsState, ins: Inputs): (r: Option<PhysicsState>)
    requires s.Valid() && ins.Valid()
    ensures s.points.count + ins.rosterCount <= s.Capacity() ==> r.Some?
    ensures r.Some? ==> r.value.Valid() && r.value.Capacity() == s.Capacity()
  {
    SpawnFrom(Prepare(s, ins.time), ins, 0)
  }

  /** Passes 3 to 5 on the spawned state `s1`: drive, apply the incoming
      updates and integrate over `dt`; the driving pass's messages go out. */
  function Advance(s1: PhysicsState, ins: Inputs, dt: real): (t: PhysicsState)
    requires s1.Valid() && ins.Valid()
    ensures t.Valid() && t.points.ids == s1.points.ids && t.points.count == s1.points.count
    ensures t.rectangles == s1.rectangles && t.time == s1.time
  {
    var d := DriveFrom(s1.points, ins, 0);
    var r := IntegrateFrom(ApplyAll(d.0, ins.incoming, ins.systemId), s1.collisions, ins, dt, 0);
    s1.(points := r.0, collisions := r.1, outgoing := d.1)
  }

  /** `Evolve` yields the last three passes applied to the spawned state. */
  lemma EvolveAdvances(s: PhysicsState, ins: Inputs, dt: real)
    requires s.Valid() && ins.Valid() && dt == ins.time - s.time
    ensures var s1 := Spawned(s, ins);
            && (Evolve(s, ins).Some? <==> s1.Some?)
            && (s1.Some? ==> Evolve(s, ins).value == Advance(s1.value, ins, dt))
  {
  }

  lemma EvolveIs(s: PhysicsState, ins: Inputs, dt: real, s1: PhysicsState)
    requires s.Valid() && ins.Valid() && dt == ins.time - s.time
    requires Spawned(s, ins) == Some(s1)
    ensures Evolve(s, ins) == Some(Advance(s1, ins, dt))
  {
  }

  /** Every state `Evolve` yields meets the guarantees of one step from the
      spawned state. */
  lemma EvolveSteps(s: PhysicsState, ins: Inputs)
    requires s.Valid() && ins.Valid()
    ensures Evolve(s, ins).Some? ==> Spawned(s, ins).Some? && Stepped(s, ins, Spawned(s, ins).value, Evolve(s, ins).value)
  {
    if Spawned(s, ins).Some? {
      EvolveIs(s, ins, ins.time - s.time, Spawned(s, ins).value);
      AdvanceSteps(s, ins, Evolve(s, ins).value);
    }
  }

  lemma SpawnedSpec(s: PhysicsState, ins: Inputs)
    requires s.Valid() && ins.Valid()
    ensures Spawned(s, ins).Some? ==> SpawnedFrom(Prepare(s, ins.time), Spawned(s, ins).value, ins, 0)
    ensures Spawned(s, ins).Some? ==> Cleared(Spawned(s, ins).value.collisions)
  {
    SpawnFromSpec(Prepare(s, ins.time), ins, 0);
  }

  /** Every collision entry is 0. */
  predicate Cleared(coll: seq<u32>) {
    forall k | 0 <= k < |coll| :: coll[k] == 0
  }

  /** Passes 3 to 5 from the spawned state meet the guarantees of one step. */
  lemma AdvanceSteps(s: PhysicsState, ins: Inputs, t: PhysicsState)
    requires s.Valid() && ins.Valid() && Spawned(s, ins).Some?
    requires t == Advance(Spawned(s, ins).value, ins, ins.time - s.time)
    ensures Stepped(s, ins, Spawned(s, ins).value, t)
  {
    SpawnedSpec(s, ins);
    AdvanceShape(s, ins, Spawned(s, ins).value, t);
    AdvanceInside(Spawned(s, ins).value, ins, ins.time - s.time, t);
    AdvanceOutgoing(Spawned(s, ins).value, ins, ins.time - s.time, t);
    AdvanceCollisions(s, ins, Spawned(s, ins).value, t);
  }

  /** Passes 3 to 5 keep the shape and the roster coverage. */
  lemma AdvanceShape(s: PhysicsState, ins: Inputs, s1: PhysicsState, t: PhysicsState)
    requires s.Valid() && ins.Valid()
    requires s1.Valid() && SpawnedFrom(Prepare(s, ins.time), s1, ins, 0)
    requires t == Advance(s1, ins, ins.time - s.time)
    ensures t.Valid() && SteppedShape(s, ins, t) && SteppedRoster(s, ins, t)
  {
    SpawnedKeepsPrefix(Prepare(s, ins.time), s1, ins, 0);
  }

  /** Integrated points end inside the walls. */
  lemma AdvanceInside(s1: PhysicsState, ins: Inputs, dt: real, t: PhysicsState)
    requires ins.Valid() && s1.Valid() && t == Advance(s1, ins, dt)
    ensures t.Valid() && SteppedInside(ins, t)
  {
    var p3 := BeforeIntegration(s1.points, ins);
    assert t.points == IntegrateFrom(p3, s1.collisions, ins, dt, 0).0;
    IntegrateFromSpec(p3, s1.collisions, ins, dt, 0);
    forall k | 0 <= k < t.Capacity() && Integrated(t.points, ins, k) && 0.0 <= ins.params.playerRadius <= 1.0
      ensures InBounds(t.points.positions[k], ins.params.playerRadius)
    {
      assert Integrated(p3, ins, k);
      StepRowFacts(p3.positions[k], p3.velocities[k], p3.accelerations[k], dt, ins.params.gamma, ins.params.playerRadius);
    }
  }

  /** The driving pass's messages are what goes out. */
  lemma AdvanceOutgoing(s1: PhysicsState, ins: Inputs, dt: real, t: PhysicsState)
    requires ins.Valid() && s1.Valid() && t == Advance(s1, ins, dt)
    ensures SteppedOutgoing(s1.points, ins, t)
  {
    var d := DriveFrom(s1.points, ins, 0);
    assert t.outgoing == d.1;
    DriveFromSpec(s1.points, ins, 0);
    var rows := ChangedRows(s1.points, ins, 0);
    ChangedRowsExactly(s1.points, ins, 0);
    forall m | m in d.1
      ensures m.UpdatePoint? && m.systemId == ins.systemId && Driven(ins, m.id)
    {
      var j :| 0 <= j < |d.1| && d.1[j] == m;
      assert rows[j] in rows;
      assert Changed(s1.points, ins, rows[j]);
    }
  }

  /** The integration pass sets the flags on the cleared collision column. */
  lemma AdvanceCollisions(s: PhysicsState, ins: Inputs, s1: PhysicsState, t: PhysicsState)
    requires s.Valid() && ins.Valid() && s1.Valid() && Cleared(s1.collisions)
    requires t == Advance(s1, ins, ins.time - s.time)
    ensures t.Valid() && SteppedCollisions(BeforeIntegration(s1.points, ins), ins, ins.time - s.time, t)
  {
    ClearedCollisions(BeforeIntegration(s1.points, ins), s1.collisions, ins, ins.time - s.time, t);
  }

  /** A state whose points and collision column are those of the integration
      pass over a cleared column has the flags of that pass. */
  lemma ClearedCollisions(pre: Points, coll: seq<u32>, ins: Inputs, dt: real, t: PhysicsState)
    requires pre.Valid() && |coll| == pre.Capacity() && Cleared(coll)
    requires t.Valid() && t.points == IntegrateFrom(pre, coll, ins, dt, 0).0
    requires t.collisions == IntegrateFrom(pre, coll, ins, dt, 0).1
    ensures SteppedCollisions(pre, ins, dt, t)
  {
    IntegrateFromCleared(pre, coll, ins, dt);
  }

  /** Integrating over a cleared collision column leaves the flag exactly in the
      entries of integrated rows whose step overshot, and 0 everywhere else. */
  lemma IntegrateFromCleared(p: Points, coll: seq<u32>, ins: Inputs, dt: real)
    requires p.Valid() && |coll| == p.Capacity() && Cleared(coll)
    ensures var r := IntegrateFrom(p, coll, ins, dt, 0);
            forall k | 0 <= k < p.Capacity() ::
              r.1[k] == (if Integrated(p, ins, k)
                            && StepRow(p.positions[k], p.velocities[k], p.accelerations[k], dt,
                                       ins.params.gamma, ins.params.playerRadius).hit
                         then CollisionFlag else 0)
  {
    var r := IntegrateFrom(p, coll, ins, dt, 0);
    IntegrateFromSpec(p, coll, ins, dt, 0);
    forall k | 0 <= k < p.Capacity() && Integrated(p, ins, k)
      ensures r.1[k] == Integrate(p, coll, ins, dt, k).1
    {
      assert (r.0.Row(k), r.1[k]) == Integrate(p, coll, ins, dt, k);
    }
  }

  /** The guarantees of a step speak only of the points, the collision column,
      the time and the outgoing list. */
  lemma SteppedAlike(s: PhysicsState, ins: Inputs, s1: PhysicsState, t: PhysicsState, u: PhysicsState)
    requires s.Valid() && ins.Valid() && s1.Valid() && Stepped(s, ins, s1, t)
    requires u.Valid() && u.points == t.points && u.collisions == t.collisions
    requires u.time == t.time && u.outgoing == t.outgoing
    ensures Stepped(s, ins, s1, u)
  {
    assert SteppedShape(s, ins, u);
  }
}
