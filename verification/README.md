# PhysicsGame simulation core in Dafny

A model of the per-tick simulation and reconciliation engine of PhysicsGame,
a peer-replicated 2D arena game. Each subsystem of the game (input, players,
physics, network) keeps a committed `state` and a `nextState`. Its `evolve`
reads the committed states and writes `nextState`, and its `sync` swaps the
two. Here every `evolve` is a pure function from committed states to the next
state, and every swap is a replacement.

The typed arrays of the source are capacity-sized sequences. Unused rows hold
id 0 because `indexOf` scans the whole array. Kinematics is over `real`.
`Math.random`, `performance.now`, the DOM and the WebSocket become parameters:
spawn draws, skin draws, CPU draws and id draws are oracle functions, times
are arguments, and the socket's open state is a boolean.

- `common.dfy`: ids (`u32`), vectors, the network message kinds, and
  `Array.prototype.indexOf`.
- `pbd_store.dfy`: the columnar point and rectangle stores of the wired-in
  engine, with `add`, the getters and `addRectangle`.
- `kinematics.dfy`: one integration step per axis (drag, reflection, clamp),
  the collision flag as the source computes it, and multi-step trajectories.
- `pbd_physics.dfy`: `Physics.evolve` of the wired-in engine as five passes:
  prepare, spawn, drive, apply incoming updates, integrate.
- `physics_adhoc.dfy`: the first engine, which works on flat arrays. It is
  proved to agree with the wired-in engine.
- `players.dfy`: the roster. It covers local and remote joins, the rebroadcast
  and the collision-edge flags.
- `input.dfy`: the controller table and the pointer joystick.
- `network.dfy`: the incoming double buffer and the outgoing queue, replayed
  over event traces.
- `buffers.dfy`: the double buffer and its swap.
- `object_of_arrays.dfy`: `ObjectOfArrays.set`, the kind-directed copy that
  starts every `evolve`.

Points of the code's behaviour that a reader might not expect, and which the
model follows as written:

- **Collision flag.** The collision flag is always 16. The source computes it
  as `1 << (2*dim + (pos > 0 ? 1 : 0))`, where `pos` is the whole position
  array, so the comparison is false. The per-side bits named in the comment
  at src/physics-pbd.js:201 (left 1, right 2, bottom 4, top 8) are never
  produced.
- **Remote points are integrated.** Every point whose id has a roster slot is
  integrated, whether its player is local or remote.
- **New remote players trigger a rebroadcast.** When a remote `newPlayer`
  adds a player, the whole committed roster is broadcast again.
- **Outgoing messages are kept while disconnected.** The outgoing queue keeps
  its messages while the socket is closed and sends them once it is open.
- **Appends do not check capacity.** The source appends without a capacity
  check. An append to a full store is a precondition of the single-append
  functions. The loops that append return `None` when they would reach one.

## Model

| member | source | states |
|---|---|---|
| Common.IndexOf | src/physics-pbd.js:30-33 | `indexOf` returns -1 exactly when the id is absent; otherwise it returns the first row holding it |
| PbdStore.EmptyPoints | src/physics-pbd.js:4-12 | a new point store has no rows, the given capacity and all ids 0 |
| PbdStore.AddPoint | src/physics-pbd.js:18-28 | `add` fills row `count` with the given or generated id and the three vectors, returns that id, grows `count` by one and leaves every other row unchanged |
| PbdStore.GetPosition | src/physics-pbd.js:30-37 | returns false and writes nothing when the id is absent; otherwise returns true and writes the first matching row's position to `out[ofs..ofs+1]` |
| PbdStore.GetVelocity | src/physics-pbd.js:39-46 | the same for the velocity column |
| PbdStore.GetAcceleration | src/physics-pbd.js:48-55 | the same for the acceleration column |
| PbdStore.AddThenRead | src/physics-pbd.js:18-37 | reading a freshly added id that was not in the store returns the position it was added with |
| PbdStore.AddRect | src/physics-pbd.js:72-81 | `RectangleState.add` fills row `count` with a generated id, the point id as centre and the scale, returns the generated id and leaves other rows unchanged |
| PbdStore.EmptyState | src/physics-pbd.js:84-94 | a new physics state is well formed, has no points and has the given capacity |
| PbdStore.AddRectangle | src/physics-pbd.js:96-100 | `addRectangle` adds one point and one rectangle at the same row; the rectangle is centred on the point's id and has the given scale, and the rectangle id is returned |
| Kinematics.StepAxisFacts | src/physics-pbd.js:195-206 | one axis step: a hit happens exactly when the free position overshoots `1-r`; the velocity is negated exactly then; the position is clamped into the walls, unchanged from the free step without a hit and on the overshot wall with one |
| Kinematics.StepRowFacts | src/physics-pbd.js:192-206 | a whole point ends inside the walls; it is flagged iff some axis overshot, and each axis's velocity is reflected iff that axis overshot |
| Kinematics.CollisionFlagAsWritten | src/physics-pbd.js:202 | the flag expression evaluates to 16 whenever the position array has at least two entries |
| Kinematics.OrFlag | src/physics-pbd.js:203 | `collisions[i] \|= flag` never decreases the entry, adds the flag at most once and leaves it nonzero |
| Kinematics.OrFlagTwice | src/physics-adhoc.js:128-133 | or-ing the flag in for a second overshooting axis changes nothing |
| Kinematics.RunIsFreeInside | src/physics-pbd.js:192-206 | while a trajectory stays inside the walls, repeated clamped steps equal the unclamped semi-implicit Euler trajectory |
| Kinematics.FreeRunClosedForm | src/physics-pbd.js:197-198 | without drag and starting from rest, `n` steps give velocity `a n dt` and position `p + a dt^2 n(n+1)/2` |
| PbdPhysics.Prepare | src/physics-pbd.js:134-138 | the next state copies the points and rectangles, takes the new time, and has an empty outgoing list and every collision entry 0 |
| PbdPhysics.SpawnFrom | src/physics-pbd.js:139-149 | the spawn loop fails only when the store would overflow, and keeps collisions, time and outgoing |
| PbdPhysics.SpawnFromSpec | src/physics-pbd.js:139-149 | exactly the roster ids without a point get one, with the drawn position, zero velocity and acceleration, and a rectangle of scale `[r, r]` centred on it; no id is spawned twice; other rows are unchanged; every nonzero roster id ends with a point |
| PbdPhysics.DriveFrom | src/physics-pbd.js:155-179 | the driving pass changes only accelerations |
| PbdPhysics.DriveFromSpec | src/physics-pbd.js:155-179 | exactly the rows with both a roster slot and a controller slot get `acceleration * intent`, and the queued messages are exactly one `updatePoint` per changed row, in the order of `ChangedRows`; each carries this system's id, the position and velocity before integration, and the new acceleration |
| PbdPhysics.ChangedRowsOrdered | src/physics-pbd.js:155-167 | the loop visits rows in increasing order, so the changed rows are listed in increasing row order |
| PbdPhysics.ChangedRowsExactly | src/physics-pbd.js:155-167 | a row is listed exactly when it is in use, has a roster slot and a controller slot, and its recomputed acceleration differs from the stored one |
| PbdPhysics.ApplyUpdate | src/physics-pbd.js:180-188 | an `updatePoint` from another system for a known id overwrites that id's first row; an own or unknown update, or any other message, changes nothing |
| PbdPhysics.ApplyAll | src/physics-pbd.js:180-188 | the incoming loop keeps the ids and the count |
| PbdPhysics.ApplyAllSnoc | src/physics-pbd.js:180-188 | the messages are applied in list order |
| PbdPhysics.LastWriterWins | src/physics-pbd.js:180-188 | each row ends with the state of the last foreign update naming its id, or unchanged when there is none; nothing else is compared |
| PbdPhysics.SelfEchoIgnored | src/physics-pbd.js:183 | dropping every update stamped with this system's id gives the same result |
| PbdPhysics.NothingApplicableChangesNothing | src/physics-pbd.js:180-188 | when no message is a foreign update for a known id, the store is unchanged |
| PbdPhysics.IntegrateFrom | src/physics-pbd.js:192-207 | the integration loop keeps ids and count |
| PbdPhysics.IntegrateFromSpec | src/physics-pbd.js:190-207 | every row in use whose id has a roster slot takes one step and has the flag or-ed in when it overshot; every other row and collision entry is unchanged |
| PbdPhysics.Evolve | src/physics-pbd.js:131-208 | `evolve` succeeds whenever the roster fits into the free rows |
| PbdPhysics.Spawned | src/physics-pbd.js:134-149 | the prepared and spawned state is well formed and succeeds when the roster fits |
| PbdPhysics.Advance | src/physics-pbd.js:150-207 | driving, applying updates and integrating keep ids, count, rectangles and time |
| PbdPhysics.EvolveAdvances | src/physics-pbd.js:150-151 | `evolve` is the last three passes on the spawned state, with `dt` the new time minus the committed time |
| PbdPhysics.EvolveSteps | src/physics-pbd.js:131-208 | after `evolve`, the time is new and old rows keep their ids; the outgoing list is exactly one own `updatePoint` per changed driven row of the spawned store, in row order; each collision entry is 16 exactly when its row is integrated and its step from the store left by the driving and incoming passes overshot a wall, and 0 otherwise; integrated points are inside the walls; every nonzero roster id has a point |
| PbdPhysics.IntegrateFromCleared | src/physics-pbd.js:131-206 | integrating over the cleared collision column leaves 16 exactly in the entries of integrated rows whose step overshot, and 0 in every other entry |
| PhysicsAdhoc.GetPlayerPosition | src/physics-adhoc.js:18-25 | returns false with no write for an absent id; otherwise writes entries `2i` and `2i+1` of the flat column for the first matching row |
| PhysicsAdhoc.GetPlayerVelocity | src/physics-adhoc.js:27-34 | the same for velocities |
| PhysicsAdhoc.GetPlayerAcceleration | src/physics-adhoc.js:36-43 | the same for accelerations |
| PhysicsAdhoc.SpawnFrom | src/physics-adhoc.js:66-78 | the inline spawn loop appends exactly what the wired-in spawn pass appends, so `pointCount` grows by the number of roster ids without a point, each with zero velocity and acceleration |
| PhysicsAdhoc.DriveFrom | src/physics-adhoc.js:84-108 | the component-wise driving loop gives the accelerations and messages of the wired-in pass, so an update with own system id is emitted iff the acceleration changed |
| PhysicsAdhoc.ApplyUpdate | src/physics-adhoc.js:110-116 | an incoming update is skipped for an unknown id or own system id and overwrites the row otherwise, as in the wired-in engine |
| PhysicsAdhoc.ApplyAll | src/physics-adhoc.js:109-117 | the incoming loop on flat columns equals the wired-in incoming loop |
| PhysicsAdhoc.IntegrateFrom | src/physics-adhoc.js:121-136 | the axis-by-axis loop gives the wired-in positions, velocities and collision entries |
| PhysicsAdhoc.IntegrateRow | src/physics-adhoc.js:124-135 | the two axis steps of one row are one whole-point step; the flag is or-ed in once if either axis overshot |
| PhysicsAdhoc.FlagTwice | src/physics-adhoc.js:128-133 | or-ing the flag once per overshooting axis equals or-ing it once when any axis overshot |
| PhysicsAdhoc.Evolve | src/physics-adhoc.js:58-137 | this engine's `evolve` succeeds exactly when the wired-in one does, and the two results agree |
| PhysicsAdhoc.AdvanceAgrees | src/physics-adhoc.js:79-136 | from agreeing spawned states, the last three passes of both engines agree |
| PhysicsAdhoc.EvolveStepped | src/physics-adhoc.js:58-137 | this engine meets the same whole-step guarantees as the wired-in one: the exact announcement list, the collision flag exactly on overshooting integrated rows, the walls and roster coverage |
| Input.EmptyInput | src/input.js:8-20 | a new controller table has no slots and all axes 0 |
| Input.Init | src/input.js:29-45 | the first `players` slots are pointer slots, the next `cpus` are CPU slots, all connected with the drawn ids and zero input; `count` is their sum and the remaining slots stay zero |
| Input.Evolve | src/input.js:51-68 | pointer slots copy the axes; a CPU slot redraws both axes as `2 (r - 0.5)` when its trigger draw is below `dt` and keeps them otherwise; other slots and unused rows keep their inputs; ids, types and connections are unchanged |
| Input.EvolveKeepsAxesBounded | src/input.js:57-66 | with joystick axes and draws in range, every input stays in [-1, 1] |
| Input.JoystickInit | src/input.js:96-109 | the joystick starts inactive, with no tap, no move and zero axes |
| Input.ClampAxis | src/input.js:218 | an axis is the offset clamped to ±radius over the radius, so it lies in [-1, 1] |
| Input.Move | src/input.js:203-221 | `move` does nothing when inactive; otherwise the axes are the clamped offset from the origin; `moved` is set when their squared norm exceeds 1 and is never cleared |
| Input.Start | src/input.js:142-159 | `start` is ignored while active; otherwise it activates; more than 10 ms after the last stop it resets origin, last offset and `moved`, and otherwise it sets `tap`; then it moves |
| Input.Stop | src/input.js:175-184 | `stop` deactivates, zeroes the axes and stamps the release; `tap` is set exactly when it was set before or the press lasted under 1000 ms without moving |
| Input.Reset | src/input.js:231-233 | `reset` clears `tap` and nothing else |
| Input.JoystickAxesStayBounded | src/input.js:142-233 | every joystick operation keeps both axes in [-1, 1] |
| Input.QuickClickIsTap | src/input.js:142-184 | a press and release at one point within 1000 ms is a tap |
| Input.DragIsNotTap | src/input.js:142-221 | a drag of at least one radius on both axes latches `moved`, so the release is not a tap |
| Buffers.Swap | src/physics-pbd.js:247-251 | `swapBuffers` exchanges the committed and the next state |
| Buffers.TickCommits | src/game.js:61-66 | after an evolve and a sync, the computed state is committed and the old one becomes scratch; the result does not depend on the scratch buffer's old contents |
| Players.EmptyPlayers | src/players.js:3-14 | a new roster is empty, has the given capacity and has every id 0 |
| Players.AddPlayer | src/players.js:16-21 | `addPlayer` writes the id at row `count`, grows `count` by one, returns the old `count` and leaves other rows unchanged |
| Players.KnownIsOnRoster | src/players.js:45 | with unused ids 0, a nonzero id is found by the full-column `indexOf` exactly when it is on the roster |
| Players.JoinSlot | src/players.js:43-57 | a disconnected slot changes nothing. A known player only gets the slot's input as intent. An unknown player is appended with the skin draw and intent, and one `newPlayer{id, skin}` is queued. It fails only on a full roster |
| Players.JoinLocal | src/players.js:43-57 | the local loop adds at most one player per slot and fails only when the roster would overflow |
| Players.JoinLocalSpec | src/players.js:43-57 | the local loop appends exactly the announced players with their skins, keeps old rows, and queues exactly those announcements |
| Players.LocalJoinsFresh | src/players.js:45-47 | local joins never add an id twice |
| Players.LocalJoinsCover | src/players.js:43-54 | after the local loop every connected slot's player is on the roster |
| Players.ExtendsKeepsIntent | src/players.js:59-66 | appending players keeps each existing player's row and intent |
| Players.JoinSlotKeepsIntent | src/players.js:44-56 | a slot driving another player leaves this player's row and intent alone |
| Players.JoinSlotSetsIntent | src/players.js:55-56 | a connected slot sets its player's intent to the slot's `(inputX, inputY)` |
| Players.JoinLocalKeepsIntent | src/players.js:43-57 | later slots that do not drive a player keep that player's intent |
| Players.JoinLocalIntents | src/players.js:43-57 | after the local loop, a player's intent is the input of the last connected slot driving it |
| Players.EvolveIntents | src/players.js:35-81 | the same holds after the whole tick |
| Players.JoinMessage | src/players.js:59-66 | a `newPlayer` for an unknown id appends it with the message's skin and reports an addition; a known id or another message changes nothing |
| Players.JoinRemote | src/players.js:58-66 | the remote loop reports an addition exactly when the roster grew |
| Players.JoinRemoteSpec | src/players.js:58-66 | the remote loop appends exactly the newly announced players with their skins and reports an addition exactly when there is one |
| Players.RemoteJoinsFresh | src/players.js:60-62 | remote joins never add an id twice |
| Players.RemoteJoinsCover | src/players.js:59-66 | after the remote loop every announced player is on the roster |
| Players.Broadcast | src/players.js:83-91 | one `newPlayer` per committed player, in row order, with that player's skin |
| Players.FlagFor | src/players.js:70-80 | bit 1 is set exactly when the point is touching; bit 2 is set exactly when it is touching and the previous bit 1 was clear |
| Players.Evolve | src/players.js:35-81 | the tick succeeds when the roster has room for all joins. The roster never shrinks. Each player's bit 1 is set iff its physics point has a nonzero collision entry, and bit 2 iff that is new since the committed flags |
| Players.Finish | src/players.js:67-80 | the committed roster is rebroadcast exactly when a remote player was added, and the flags are recomputed |
| Players.EvolveRoster | src/players.js:35-91 | after a tick the roster is the committed roster, then the local joins, then the remote joins, with their skins; outgoing is the local announcements, followed by the rebroadcast when a remote player joined |
| Players.EvolveKeepsUnique | src/players.js:43-66 | a tick keeps roster ids unique |
| Players.EvolveCovers | src/players.js:43-66 | after a tick every connected local player and every announced remote player is on the roster |
| Players.CollisionEdgeOnce | src/players.js:74-79 | over consecutive ticks, bit 2 is set exactly at the ticks where contact starts |
| Players.ContactFlaggedOnce | src/players.js:76-78 | contact during ticks `a..b`, absent at `a-1`, sets bit 2 only at tick `a` |
| Network.Receive | src/network.js:18-19 | a received message is appended to the next incoming list |
| Network.CollectSkipsAbsent | src/network.js:27-31 | a system without outgoing messages contributes nothing; one with messages contributes exactly them, in system order |
| Network.Evolve | src/network.js:26-33 | the systems' outgoing messages are appended to the queue in order |
| Network.Sync | src/network.js:41-51 | messages received since the last sync become the incoming list, and the next list is empty. When connected, the whole queue is sent in order and emptied; when not, nothing is sent and the queue is kept |
| Network.RunDeliversOnce | src/network.js:18-43 | over any sequence of arrivals and ticks, each message is seen by exactly one tick, in arrival order, or is still queued |
| Network.ArrivalSeenNextTick | src/network.js:18-43 | a message arriving before a tick is seen by the tick after it |
| Network.RunSendsOnce | src/network.js:26-51 | every collected message is sent exactly once, in order, or is still queued |
| Network.OfflineKeepsQueue | src/network.js:41-51 | while the socket stays closed nothing is sent and every collected message stays queued |
| ObjectOfArrays.Lookup | src/utils.js:6 | `source[k]` is the first property with key `k`, or `undefined` |
| ObjectOfArrays.CopyItems | src/utils.js:7-10 | a plain array keeps its length; each slot takes the source's element, or `undefined` past the source's end |
| ObjectOfArrays.CopyNumbers | src/utils.js:8-9 | the same copy from a typed source |
| ObjectOfArrays.SetValue | src/utils.js:3-15 | by kind: primitives take the source value; typed arrays overwrite a prefix and fail on a longer or non-typed source; plain arrays copy element-wise; objects without `set` are left alone; nested `ObjectOfArrays` recurse |
| ObjectOfArrays.Set | src/utils.js:2-16 | the result has exactly the destination's properties |
| ObjectOfArrays.SetFieldsSpec | src/utils.js:3-15 | each destination property is copied from the source property of the same key; the copy fails exactly when one of those copies fails |
| ObjectOfArrays.SourceOnlyKeysIgnored | src/utils.js:3 | two sources that agree on the destination's keys give the same result |
| ObjectOfArrays.SameShapeCopies | src/utils.js:2-16 | copying into a destination of the same shape reproduces the source |
| ObjectOfArrays.SetSameShape | src/utils.js:2-16 | for same-shaped states, `dst.set(src)` makes `dst` equal to `src` |
| ObjectOfArrays.SetValueOnSelf | src/utils.js:2-16 | copying a value onto itself leaves it unchanged |
| ObjectOfArrays.SetValueIdempotent | src/utils.js:2-16 | repeating a copy from the same source changes nothing |
| ObjectOfArrays.SetIdempotent | src/utils.js:2-16 | `dst.set(src)` twice equals doing it once |

## Left out

- Rendering, shaders, glTF loading, audio playback, the page bootstrap and
  the `requestAnimationFrame` loop are outside the core. The evolve-then-sync
  order of a tick is modelled per subsystem, in `Buffers.Tick` and
  `Network.Run`. A whole-game tick composing all systems is not modelled.
- WebSocket construction, JSON encoding and decoding, and the asynchronous
  `onmessage` handler are not modelled. Receiving is an event with an
  already parsed message, and sending is the list `sync` returns.
- The stdin/stdout echo server is I/O only.
- `Physics.solveConstraints` is not modelled. It is an unused stub whose
  inner loop is empty.
- `ObjectOfArrays1` is neither exported nor used.
- Float32 and Uint8/Uint32 storage rounding is not modelled. Positions,
  velocities, accelerations and inputs are exact reals. Ids and skins are
  kept in range by their types.
- The joystick's canvas drawing, event listeners and DOM geometry are not
  modelled. The bounding rectangle is a parameter.
- The `type` and `action` columns of the controller table are never read,
  so they are not modelled.
- Input.Init requires `players + cpus <= capacity`. The source writes past
  the typed arrays there; writes past the end are lost and `count` is still
  set.
- Input.Move: a `move` with no origin is a no-op. This happens when a press
  follows a release within 10 ms before any origin was set. JavaScript would
  throw a TypeError there, before any field is written.
- Input.Evolve: the CPU draws are an oracle indexed by slot, not a stream
  of `Math.random` calls.
- Players.JoinLocal: skin draws are an oracle indexed by controller slot.
- PbdPhysics.SpawnFrom: spawn draws are an oracle indexed by the spawned id.
- PbdPhysics.SpawnFrom, Players.JoinLocal, Players.JoinRemote: `None`
  stands for an append the source would make past the end of its arrays.
- Players.JoinLocalSpec: its contract assumes the connected slots' player
  ids are nonzero. For id 0 the full-column `indexOf` finds an unused row,
  and the source then writes that row's intent without adding a player.
- Players.JoinRemoteSpec: its contract assumes the announced ids are
  nonzero, for the same reason.
- Players.EvolveRoster: assumes the nonzero ids above.
- Players.EvolveKeepsUnique: assumes the nonzero ids above.
- Players.EvolveCovers: assumes the nonzero ids above.
- Players.EvolveIntents: assumes the nonzero ids above.
- Players.JoinLocalIntents: covers players whose last connected slot is
  given. When two slots drive one player, the later slot wins.
- ObjectOfArrays.SetValue: these kind mismatches are errors (`None`):
  - a typed array copied from something that is not a typed array;
  - a plain array copied from something that is not an array;
  - a nested `ObjectOfArrays` copied from something that is not one.

  JavaScript would convert or throw in these cases. No state in the source
  reaches them.
- ObjectOfArrays.SetValue: a failed copy discards the partial writes made
  before the exception.
- ObjectOfArrays.SetValue: aliasing between source and destination objects
  is not modelled. Values are trees.
- ObjectOfArrays.SetValueOnSelf: requires distinct keys in every object.
  JavaScript objects always satisfy this.
- ObjectOfArrays.SetValueIdempotent: requires distinct keys in every object,
  for the same reason.
- ObjectOfArrays.SetIdempotent: requires distinct keys in every object, for
  the same reason.
- PbdStore.GetPosition, PbdStore.GetVelocity, PbdStore.GetAcceleration: `out`
  is a fixed-length typed array, and a write past its end is dropped. A plain
  JavaScript array passed as `out` would grow instead. The offset is a
  natural number. The source's `ofs ||= 0` default for a missing offset is
  not modelled, so callers always pass one.
- PbdStore.EmptyState: the source starts the physics state with `time` set
  to `null`. Here time is a real, and `null` is read as 0.
