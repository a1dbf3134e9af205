/** The player roster: which players exist, their skins, the intent each
    player's controller last gave, and the collision flags the audio consumes.
    Every tick it joins the players of the connected local controller slots and
    the players other peers announce, and recomputes the flags from the
    committed physics state. Skin draws (`Math.random`) are an oracle indexed by
    the controller slot. */
module Players {
  import opened Common
  import Input
  import PbdStore

  /** `PlayerState`. `intents` is the `accelerations` column read as one vector
      per row; the capacity is `|ids|` and rows from `count` on are unused. */
  datatype PlayerState = PlayerState(count: nat, ids: seq<u32>, skins: seq<u32>, flags: seq<u8>,
                                     intents: seq<Vec2>, time: real, outgoing: seq<Message>)
  {
    predicate Valid() {
      |skins| == |ids| && |flags| == |ids| && |intents| == |ids| && count <= |ids|
    }

    function Capacity(): nat {
      |ids|
    }

    /** The ids of the rows in use, in row order. */
    function Roster(): seq<u32>
      requires Valid()
    {
      ids[..count]
    }

    /** The skins of the rows in use, in row order. */
    function SkinRoster(): seq<u32>
      requires Valid()
    {
      skins[..count]
    }

    /** Unused rows still carry the id 0 they were allocated with. */
    predicate UnusedClear() {
      forall i | count <= i < |ids| :: ids[i] == 0
    }
  }

  /** No id occurs twice. */
  predicate Unique(s: seq<u32>) {
    forall i, j | 0 <= i < j < |s| :: s[i] != s[j]
  }

  /** The state `new PlayerState(N)` builds, stamped with the game time. */
  function EmptyPlayers(capacity: nat, time: real): (s: PlayerState)
    ensures s.Valid() && s.UnusedClear() && s.count == 0 && s.Capacity() == capacity && s.outgoing == []
    ensures s.Roster() == [] && Unique(s.Roster())
  {
    PlayerState(0, Zeros(capacity, 0), Zeros(capacity, 0), Zeros(capacity, 0), Zeros(capacity, Zero), time, [])
  }

  /** `PlayerState.addPlayer`: the id goes to row `count`, `count` grows by one
      and the new row's index is returned. The source does not check the capacity. */
  function AddPlayer(s: PlayerState, id: u32): (r: (PlayerState, nat))
    requires s.Valid() && s.count < s.Capacity()
    ensures r.0.Valid() && r.0.Capacity() == s.Capacity()
    ensures r.1 == s.count && r.0.count == s.count + 1
    ensures r.0.Roster() == s.Roster() + [id]
    ensures forall i | 0 <= i < s.Capacity() && i != s.count :: r.0.ids[i] == s.ids[i]
    ensures r.0.skins == s.skins && r.0.flags == s.flags && r.0.intents == s.intents
    ensures r.0.time == s.time && r.0.outgoing == s.outgoing
    ensures s.UnusedClear() ==> r.0.UnusedClear()
  {
    var q := s.(count := s.count + 1, ids := s.ids[s.count := id]);
    assert q.Roster() == s.Roster() + [id];
    (q, s.count)
  }

  /** A lookup of a nonzero id over the whole id column finds it exactly when
      it is on the roster. */
  lemma KnownIsOnRoster(s: PlayerState, id: u32)
    requires s.Valid() && s.UnusedClear() && id != 0
    ensures id in s.ids <==> id in s.Roster()
  {
    if id in s.ids {
      var i :| 0 <= i < |s.ids| && s.ids[i] == id;
      assert i < s.count;
      assert s.Roster()[i] == id;
    }
  }

  // ---------------------------------------------------------------- local joins

  /** One iteration of the local-join loop, for controller slot `k`: a
      disconnected slot is skipped; a connected slot whose player is unknown is
      added with the skin draw and announced with a `newPlayer` message; then the
      player's row takes the slot's input as its intent. None: the player would
      be added to a full roster. */
  function JoinSlot(s: PlayerState, input: Input.InputState, skin: u32, k: nat): (r: Option<PlayerState>)
    requires s.Valid() && input.Valid() && k < input.Capacity()
    ensures r.Some? ==> r.value.Valid() && r.value.Capacity() == s.Capacity()
    ensures r.Some? ==> r.value.time == s.time && r.value.flags == s.flags
    ensures r.Some? ==> s.count <= r.value.count <= s.count + 1
    ensures s.count < s.Capacity() ==> r.Some?
    ensures input.connected[k] == 0 ==> r == Some(s)
    ensures var id := input.playerIds[k];
            var intent := Vec2(input.inputX[k], input.inputY[k]);
            input.connected[k] != 0 && id in s.ids ==>
              r == Some(s.(intents := s.intents[IndexOf(s.ids, id) := intent]))
    ensures var id := input.playerIds[k];
            var intent := Vec2(input.inputX[k], input.inputY[k]);
            input.connected[k] != 0 && id !in s.ids && r.Some? ==>
              && r.value.count == s.count + 1
              && r.value.Roster() == s.Roster() + [id]
              && (forall i | 0 <= i < s.Capacity() && i != s.count :: r.value.ids[i] == s.ids[i])
              && r.value.skins == s.skins[s.count := skin]
              && r.value.intents == s.intents[s.count := intent]
              && r.value.outgoing == s.outgoing + [NewPlayer(id, skin)]
              && (s.UnusedClear() ==> r.value.UnusedClear())
  {
    if input.connected[k] == 0 then Some(s)
    else
      var id := input.playerIds[k];
      var intent := Vec2(input.inputX[k], input.inputY[k]);
      var i := IndexOf(s.ids, id);
      if i == -1 then
        if s.count == s.Capacity() then None
        else
          var (s1, j) := AddPlayer(s, id);
          Some(s1.(skins := s1.skins[j := skin], intents := s1.intents[j := intent],
                   outgoing := s1.outgoing + [NewPlayer(id, skin)]))
      else
        Some(s.(intents := s.intents[i := intent]))
  }

  /** The local-join loop over the slots `k..count` of the committed input table. */
  function JoinLocal(s: PlayerState, input: Input.InputState, skin: nat -> u32, k: nat): (r: Option<PlayerState>)
    requires s.Valid() && input.Valid() && k <= input.count
    ensures r.Some? ==> r.value.Valid() && r.value.Capacity() == s.Capacity()
    ensures r.Some? ==> r.value.time == s.time && r.value.flags == s.flags
    ensures r.Some? ==> s.count <= r.value.count <= s.count + (input.count - k)
    ensures s.count + (input.count - k) <= s.Capacity() ==> r.Some?
    decreases input.count - k
  {
    if k == input.count then Some(s)
    else
      var t := JoinSlot(s, input, skin(k), k);
      if t.None? then None
      else JoinLocal(t.value, input, skin, k + 1)
  }

  lemma JoinLocalStep(s: PlayerState, input: Input.InputState, skin: nat -> u32, k: nat, s1: PlayerState)
    requires s.Valid() && input.Valid() && k < input.count
    requires JoinSlot(s, input, skin(k), k) == Some(s1)
    ensures s1.Valid() && JoinLocal(s, input, skin, k) == JoinLocal(s1, input, skin, k + 1)
  {
  }

  /** The ids announced by a list of messages, in order. */
  function Announced(ms: seq<Message>): (ids: seq<u32>)
    ensures |ids| <= |ms|
  {
    if |ms| == 0 then []
    else if ms[0].NewPlayer? then [ms[0].id] + Announced(ms[1..])
    else Announced(ms[1..])
  }

  lemma {:induction false} AnnouncedAppend(a: seq<Message>, b: seq<Message>)
    ensures Announced(a + b) == Announced(a) + Announced(b)
  {
    if |a| == 0 {
      assert a + b == b;
    } else {
      assert (a + b)[0] == a[0];
      assert (a + b)[1..] == a[1..] + b;
      AnnouncedAppend(a[1..], b);
    }
  }

  /** The announcement slot `k` makes when its player is not in `known`. */
  function SlotJoin(known: seq<u32>, input: Input.InputState, skin: u32, k: nat): (a: seq<Message>)
    requires input.Valid() && k < input.count
  {
    var id := input.playerIds[k];
    if input.connected[k] == 0 || id in known then [] else [NewPlayer(id, skin)]
  }

  /** The skins announced by a list of messages, in order. */
  function Skins(ms: seq<Message>): (skins: seq<u32>)
    ensures |skins| == |Announced(ms)|
  {
    if |ms| == 0 then []
    else if ms[0].NewPlayer? then [ms[0].skin] + Skins(ms[1..])
    else Skins(ms[1..])
  }

  lemma {:induction false} SkinsAppend(a: seq<Message>, b: seq<Message>)
    ensures Skins(a + b) == Skins(a) + Skins(b)
  {
    if |a| == 0 {
      assert a + b == b;
    } else {
      assert (a + b)[0] == a[0];
      assert (a + b)[1..] == a[1..] + b;
      SkinsAppend(a[1..], b);
    }
  }

  /** The roster-level meaning of the local joins: starting from the roster
      `known`, each connected slot from `k` on whose id is not yet known is
      announced with its skin draw, in slot order. */
  function LocalJoins(known: seq<u32>, input: Input.InputState, skin: nat -> u32, k: nat): (a: seq<Message>)
    requires input.Valid() && k <= input.count
    ensures |Announced(a)| == |a| && |a| <= input.count - k
    decreases input.count - k
  {
    if k == input.count then []
    else
      var step := SlotJoin(known, input, skin(k), k);
      var rest := LocalJoins(known + Announced(step), input, skin, k + 1);
      AnnouncedAppend(step, rest);
      step + rest
  }

  /** Every connected slot from `k` on carries a nonzero player id. */
  predicate SlotIdsNonzero(input: Input.InputState, k: nat)
    requires input.Valid()
  {
    forall i | k <= i < input.count && input.connected[i] != 0 :: input.playerIds[i] != 0
  }

  /** `r` is `s` with the players `a` announces appended, in order, with the
      skins the announcements carry; the rows of `s` keep their ids and skins
      and the unused rows stay clear. */
  predicate Extends(s: PlayerState, r: PlayerState, a: seq<Message>)
    requires s.Valid() && r.Valid()
  {
    && r.UnusedClear()
    && r.count == s.count + |a|
    && r.Roster() == s.Roster() + Announced(a)
    && r.SkinRoster() == s.SkinRoster() + Skins(a)
  }

  lemma ExtendsNothing(s: PlayerState)
    requires s.Valid() && s.UnusedClear()
    ensures Extends(s, s, [])
  {
    assert s.Roster() + Announced([]) == s.Roster();
    assert s.SkinRoster() + Skins([]) == s.SkinRoster();
  }

  lemma ExtendsTrans(s: PlayerState, t: PlayerState, r: PlayerState, a: seq<Message>, b: seq<Message>)
    requires s.Valid() && t.Valid() && r.Valid()
    requires Extends(s, t, a) && Extends(t, r, b)
    ensures Extends(s, r, a + b)
  {
    AnnouncedAppend(a, b);
    SkinsAppend(a, b);
  }

  /** One slot of the local joins extends the roster by the slot's
      announcement, if any. */
  lemma JoinSlotExtends(s: PlayerState, input: Input.InputState, skin: u32, k: nat)
    requires s.Valid() && s.UnusedClear() && input.Valid() && k < input.count
    requires input.connected[k] != 0 ==> input.playerIds[k] != 0
    ensures var r := JoinSlot(s, input, skin, k);
            var step := SlotJoin(s.Roster(), input, skin, k);
            r.Some? ==> Extends(s, r.value, step) && r.value.outgoing == s.outgoing + step
  {
    var id := input.playerIds[k];
    if input.connected[k] != 0 {
      KnownIsOnRoster(s, id);
      if id !in s.ids {
        assert Announced([NewPlayer(id, skin)]) == [id];
        assert Skins([NewPlayer(id, skin)]) == [skin];
        var r := JoinSlot(s, input, skin, k);
        if r.Some? {
          assert r.value.SkinRoster() == s.SkinRoster() + [skin];
        }
      } else {
        ExtendsNothing(s);
      }
    } else {
      ExtendsNothing(s);
    }
  }

  /** The local-join loop from slot `k` appends exactly the players
      `LocalJoins` announces, with the skins it announces, and queues exactly
      those announcements. */
  predicate JoinsAsAnnounced(s: PlayerState, input: Input.InputState, skin: nat -> u32, k: nat)
    requires s.Valid() && input.Valid() && k <= input.count
  {
    var r := JoinLocal(s, input, skin, k);
    var a := LocalJoins(s.Roster(), input, skin, k);
    r.Some? ==> Extends(s, r.value, a) && r.value.outgoing == s.outgoing + a
  }

  /** The local-join loop appends exactly the players `LocalJoins` announces,
      with the skins it announces, and queues exactly those announcements;
      the rows already in use keep their ids and skins. */
  lemma {:induction false} JoinLocalSpec(s: PlayerState, input: Input.InputState, skin: nat -> u32, k: nat)
    requires s.Valid() && s.UnusedClear() && input.Valid() && k <= input.count
    requires SlotIdsNonzero(input, k)
    ensures JoinsAsAnnounced(s, input, skin, k)
    decreases input.count - k
  {
    if k == input.count {
      ExtendsNothing(s);
    } else {
      var t := JoinSlot(s, input, skin(k), k);
      if t.Some? {
        JoinLocalSpec(t.value, input, skin, k + 1);
      }
      JoinLocalSpecStep(s, input, skin, k);
    }
  }

  /** The inductive step of `JoinLocalSpec`. */
  lemma JoinLocalSpecStep(s: PlayerState, input: Input.InputState, skin: nat -> u32, k: nat)
    requires s.Valid() && s.UnusedClear() && input.Valid() && k < input.count
    requires input.connected[k] != 0 ==> input.playerIds[k] != 0
    requires var t := JoinSlot(s, input, skin(k), k);
             t.Some? ==> JoinsAsAnnounced(t.value, input, skin, k + 1)
    ensures JoinsAsAnnounced(s, input, skin, k)
  {
    var t := JoinSlot(s, input, skin(k), k);
    if t.Some? {
      var s1 := t.value;
      JoinSlotExtends(s, input, skin(k), k);
      JoinLocalStep(s, input, skin, k, s1);
      var r := JoinLocal(s1, input, skin, k + 1);
      if r.Some? {
        var step := SlotJoin(s.Roster(), input, skin(k), k);
        var rest := LocalJoins(s1.Roster(), input, skin, k + 1);
        LocalJoinsUnfold(s.Roster(), s1.Roster(), input, skin, k, step, rest);
        JoinLocalCompose(s, s1, r.value, step, rest, LocalJoins(s.Roster(), input, skin, k));
      }
    }
  }

  /** `LocalJoins` is slot `k`'s announcement followed by those of the later
      slots against the roster it produces. */
  lemma LocalJoinsUnfold(known: seq<u32>, known1: seq<u32>, input: Input.InputState, skin: nat -> u32, k: nat,
                         step: seq<Message>, rest: seq<Message>)
    requires input.Valid() && k < input.count
    requires step == SlotJoin(known, input, skin(k), k) && known1 == known + Announced(step)
    requires rest == LocalJoins(known1, input, skin, k + 1)
    ensures LocalJoins(known, input, skin, k) == step + rest
  {
  }

  /** The inductive step of `JoinLocalSpec`: slot `k`'s announcement followed
      by the announcements of the later slots. */
  lemma JoinLocalCompose(s: PlayerState, s1: PlayerState, r: PlayerState,
                         step: seq<Message>, rest: seq<Message>, a: seq<Message>)
    requires s.Valid() && s1.Valid() && r.Valid()
    requires Extends(s, s1, step) && s1.outgoing == s.outgoing + step
    requires Extends(s1, r, rest) && r.outgoing == s1.outgoing + rest
    requires a == step + rest
    ensures Extends(s, r, a) && r.outgoing == s.outgoing + a
  {
    ExtendsTrans(s, s1, r, step, rest);
  }

  /** The local joins keep the roster free of duplicates: an id is only
      announced while it is unknown. */
  lemma {:induction false} LocalJoinsFresh(known: seq<u32>, input: Input.InputState, skin: nat -> u32, k: nat)
    requires input.Valid() && k <= input.count && Unique(known)
    ensures Unique(known + Announced(LocalJoins(known, input, skin, k)))
    decreases input.count - k
  {
    if k < input.count {
      var step := SlotJoin(known, input, skin(k), k);
      var rest := LocalJoins(known + Announced(step), input, skin, k + 1);
      AnnouncedAppend(step, rest);
      if step != [] {
        assert Announced(step) == [input.playerIds[k]];
      }
      assert Unique(known + Announced(step));
      LocalJoinsFresh(known + Announced(step), input, skin, k + 1);
      assert known + Announced(step + rest) == (known + Announced(step)) + Announced(rest);
    }
  }

  /** Every connected slot from `k` on has its player in `roster`. */
  predicate CoversSlots(roster: seq<u32>, input: Input.InputState, k: nat)
    requires input.Valid()
  {
    forall i | k <= i < input.count && input.connected[i] != 0 :: input.playerIds[i] in roster
  }

  /** After the local joins every connected slot's player is on the roster. */
  lemma {:induction false} LocalJoinsCover(known: seq<u32>, input: Input.InputState, skin: nat -> u32, k: nat)
    requires input.Valid() && k <= input.count
    ensures CoversSlots(known + Announced(LocalJoins(known, input, skin, k)), input, k)
    decreases input.count - k
  {
    if k < input.count {
      var step := SlotJoin(known, input, skin(k), k);
      var known1 := known + Announced(step);
      var rest := LocalJoins(known1, input, skin, k + 1);
      LocalJoinsCover(known1, input, skin, k + 1);
      LocalJoinsUnfold(known, known1, input, skin, k, step, rest);
      CoverStep(known, input, skin(k), k, step, rest);
    }
  }

  /** The inductive step of `LocalJoinsCover`. */
  lemma CoverStep(known: seq<u32>, input: Input.InputState, skin: u32, k: nat, step: seq<Message>, rest: seq<Message>)
    requires input.Valid() && k < input.count && step == SlotJoin(known, input, skin, k)
    requires CoversSlots(known + Announced(step) + Announced(rest), input, k + 1)
    ensures CoversSlots(known + Announced(step + rest), input, k)
  {
    AnnouncedAppend(step, rest);
    var roster := known + Announced(step) + Announced(rest);
    assert known + Announced(step + rest) == roster;
    if input.connected[k] != 0 && input.playerIds[k] !in known {
      assert Announced(step) == [input.playerIds[k]];
      assert roster[|known|] == input.playerIds[k];
    }
  }

  // ---------------------------------------------------------------- intents

  /** The row a lookup of `id` lands on is a roster row holding intent `v`. */
  predicate HasIntent(s: PlayerState, id: u32, v: Vec2) {
    s.Valid() && 0 <= IndexOf(s.ids, id) < s.count && s.intents[IndexOf(s.ids, id)] == v
  }

  /** Rows only ever get appended, so a roster row keeps its place under a
      lookup, and extending the roster without touching intents keeps them. */
  lemma ExtendsKeepsIntent(s: PlayerState, r: PlayerState, a: seq<Message>, id: u32, v: Vec2)
    requires s.Valid() && r.Valid() && Extends(s, r, a) && r.intents == s.intents
    requires HasIntent(s, id, v)
    ensures HasIntent(r, id, v)
  {
    var i := IndexOf(s.ids, id);
    assert r.ids[..i] == r.Roster()[..i] == s.Roster()[..i] == s.ids[..i];
    assert r.ids[i] == r.Roster()[i] == s.Roster()[i];
    FirstIndexIsIndexOf(r.ids, id, i);
  }

  /** A slot driving another player leaves this player's row and intent alone. */
  lemma JoinSlotKeepsIntent(s: PlayerState, input: Input.InputState, skin: u32, k: nat, id: u32, v: Vec2)
    requires s.Valid() && input.Valid() && k < input.Capacity() && HasIntent(s, id, v)
    requires input.connected[k] != 0 ==> input.playerIds[k] != id
    requires JoinSlot(s, input, skin, k).Some?
    ensures HasIntent(JoinSlot(s, input, skin, k).value, id, v)
  {
    var r := JoinSlot(s, input, skin, k).value;
    var i := IndexOf(s.ids, id);
    if input.connected[k] != 0 && input.playerIds[k] !in s.ids {
      assert r.ids[..i] == s.ids[..i];
      FirstIndexIsIndexOf(r.ids, id, i);
    }
  }

  /** A connected slot gives its player's row the slot's input as intent. */
  lemma JoinSlotSetsIntent(s: PlayerState, input: Input.InputState, skin: u32, k: nat)
    requires s.Valid() && s.UnusedClear() && input.Valid() && k < input.Capacity()
    requires input.connected[k] != 0 && input.playerIds[k] != 0
    requires JoinSlot(s, input, skin, k).Some?
    ensures HasIntent(JoinSlot(s, input, skin, k).value, input.playerIds[k], Vec2(input.inputX[k], input.inputY[k]))
  {
    var r := JoinSlot(s, input, skin, k).value;
    var id := input.playerIds[k];
    if id in s.ids {
      var i := IndexOf(s.ids, id);
      assert i < s.count;
    } else {
      assert r.ids[..s.count] == s.ids[..s.count];
      FirstIndexIsIndexOf(r.ids, id, s.count);
    }
  }

  /** The slots after `k` keep an intent no later connected slot overrides. */
  lemma {:induction false} JoinLocalKeepsIntent(s: PlayerState, input: Input.InputState, skin: nat -> u32, k: nat,
                                                id: u32, v: Vec2)
    requires s.Valid() && input.Valid() && k <= input.count && HasIntent(s, id, v)
    requires forall p | k <= p < input.count && input.connected[p] != 0 :: input.playerIds[p] != id
    requires JoinLocal(s, input, skin, k).Some?
    ensures HasIntent(JoinLocal(s, input, skin, k).value, id, v)
    decreases input.count - k
  {
    if k < input.count {
      var t := JoinSlot(s, input, skin(k), k).value;
      JoinSlotKeepsIntent(s, input, skin(k), k, id, v);
      JoinLocalStep(s, input, skin, k, t);
      JoinLocalKeepsIntent(t, input, skin, k + 1, id, v);
    }
  }

  /** One slot of the local-join loop, stated without the slot join itself. */
  lemma JoinLocalAdvance(s: PlayerState, input: Input.InputState, skin: nat -> u32, k: nat) returns (t: PlayerState)
    requires s.Valid() && s.UnusedClear() && input.Valid() && k < input.count
    requires JoinLocal(s, input, skin, k).Some?
    ensures t.Valid() && t.UnusedClear() && JoinLocal(s, input, skin, k) == JoinLocal(t, input, skin, k + 1)
  {
    t := JoinSlot(s, input, skin(k), k).value;
    JoinLocalStep(s, input, skin, k, t);
  }

  /** The slot that drives a player last sets the intent the loop ends with. */
  lemma JoinLocalIntentsFrom(s: PlayerState, input: Input.InputState, skin: nat -> u32, q: nat)
    requires s.Valid() && s.UnusedClear() && input.Valid() && q < input.count
    requires input.connected[q] != 0 && input.playerIds[q] != 0
    requires forall p | q < p < input.count && input.connected[p] != 0 :: input.playerIds[p] != input.playerIds[q]
    requires JoinLocal(s, input, skin, q).Some?
    ensures HasIntent(JoinLocal(s, input, skin, q).value, input.playerIds[q], Vec2(input.inputX[q], input.inputY[q]))
  {
    var t := JoinSlot(s, input, skin(q), q).value;
    JoinLocalStep(s, input, skin, q, t);
    JoinSlotSetsIntent(s, input, skin(q), q);
    JoinLocalKeepsIntent(t, input, skin, q + 1, input.playerIds[q], Vec2(input.inputX[q], input.inputY[q]));
  }

  /** After the local joins, a player's intent is the input of the last
      connected slot that drives it. */
  lemma {:induction false} JoinLocalIntents(s: PlayerState, input: Input.InputState, skin: nat -> u32, k: nat, q: nat)
    requires s.Valid() && s.UnusedClear() && input.Valid() && k <= q < input.count
    requires input.connected[q] != 0 && input.playerIds[q] != 0
    requires forall p | q < p < input.count && input.connected[p] != 0 :: input.playerIds[p] != input.playerIds[q]
    requires JoinLocal(s, input, skin, k).Some?
    ensures HasIntent(JoinLocal(s, input, skin, k).value, input.playerIds[q], Vec2(input.inputX[q], input.inputY[q]))
    decreases input.count - k
  {
    if k < q {
      var t := JoinLocalAdvance(s, input, skin, k);
      JoinLocalIntents(t, input, skin, k + 1, q);
    } else {
      JoinLocalIntentsFrom(s, input, skin, q);
    }
  }

  // ---------------------------------------------------------------- remote joins

  /** One iteration of the remote-join loop: a `newPlayer` message for an
      unknown id adds that player with the announced skin; any other message,
      and a `newPlayer` for a known id, changes nothing. The flag reports an
      addition. None: the player would be added to a full roster. */
  function JoinMessage(s: PlayerState, m: Message): (r: Option<(PlayerState, bool)>)
    requires s.Valid()
    ensures r.Some? ==> r.value.0.Valid() && r.value.0.Capacity() == s.Capacity()
    ensures r.Some? ==> r.value.0.time == s.time && r.value.0.flags == s.flags
    ensures r.Some? ==> r.value.0.intents == s.intents && r.value.0.outgoing == s.outgoing
    ensures r.Some? ==> s.count <= r.value.0.count <= s.count + 1 && (r.value.1 <==> r.value.0.count > s.count)
    ensures s.count < s.Capacity() ==> r.Some?
    ensures !(m.NewPlayer? && m.id !in s.ids) ==> r == Some((s, false))
    ensures m.NewPlayer? && m.id !in s.ids && r.Some? ==>
              && r.value.1
              && r.value.0.count == s.count + 1
              && r.value.0.Roster() == s.Roster() + [m.id]
              && r.value.0.skins == s.skins[s.count := m.skin]
              && (s.UnusedClear() ==> r.value.0.UnusedClear())
  {
    if m.NewPlayer? && IndexOf(s.ids, m.id) == -1 then
      if s.count == s.Capacity() then None
      else
        var (s1, i) := AddPlayer(s, m.id);
        Some((s1.(skins := s1.skins[i := m.skin]), true))
    else Some((s, false))
  }

  /** The remote-join loop over the committed incoming messages `j..`; the flag
      reports whether any player was added. */
  function JoinRemote(s: PlayerState, incoming: seq<Message>, j: nat): (r: Option<(PlayerState, bool)>)
    requires s.Valid() && j <= |incoming|
    ensures r.Some? ==> r.value.0.Valid() && r.value.0.Capacity() == s.Capacity()
    ensures r.Some? ==> r.value.0.time == s.time && r.value.0.flags == s.flags
    ensures r.Some? ==> r.value.0.intents == s.intents && r.value.0.outgoing == s.outgoing
    ensures r.Some? ==> s.count <= r.value.0.count <= s.count + (|incoming| - j)
    ensures r.Some? ==> (r.value.1 <==> r.value.0.count > s.count)
    ensures s.count + (|incoming| - j) <= s.Capacity() ==> r.Some?
    decreases |incoming| - j
  {
    if j == |incoming| then Some((s, false))
    else
      var t := JoinMessage(s, incoming[j]);
      if t.None? then None
      else
        var r := JoinRemote(t.value.0, incoming, j + 1);
        if r.None? then None else Some((r.value.0, t.value.1 || r.value.1))
  }

  /** The announcement `m` contributes when it names a player not in `known`. */
  function MessageJoin(known: seq<u32>, m: Message): (b: seq<Message>)
  {
    if m.NewPlayer? && m.id !in known then [m] else []
  }

  /** The roster-level meaning of the remote joins: the `newPlayer` messages
      from `j` on whose id is not yet known, in arrival order. */
  function RemoteJoins(known: seq<u32>, incoming: seq<Message>, j: nat): (b: seq<Message>)
    requires j <= |incoming|
    ensures |Announced(b)| == |b| && |b| <= |incoming| - j
    decreases |incoming| - j
  {
    if j == |incoming| then []
    else
      var m := incoming[j];
      if m.NewPlayer? && m.id !in known then
        var rest := RemoteJoins(known + [m.id], incoming, j + 1);
        assert ([m] + rest)[1..] == rest;
        [m] + rest
      else RemoteJoins(known, incoming, j + 1)
  }

  /** Every `newPlayer` message from `j` on announces a nonzero id. */
  predicate MessageIdsNonzero(incoming: seq<Message>, j: nat) {
    forall i | j <= i < |incoming| && incoming[i].NewPlayer? :: incoming[i].id != 0
  }

  /** One message of the remote joins extends the roster by the player it
      announces, if that player is new. */
  lemma JoinMessageExtends(s: PlayerState, m: Message)
    requires s.Valid() && s.UnusedClear()
    requires m.NewPlayer? ==> m.id != 0
    ensures var r := JoinMessage(s, m);
            var step := MessageJoin(s.Roster(), m);
            r.Some? ==> Extends(s, r.value.0, step)
  {
    if m.NewPlayer? {
      KnownIsOnRoster(s, m.id);
      if m.id !in s.ids {
        assert Announced([m]) == [m.id];
        assert Skins([m]) == [m.skin];
        var r := JoinMessage(s, m);
        if r.Some? {
          assert r.value.0.SkinRoster() == s.SkinRoster() + [m.skin];
        }
        return;
      }
    }
    ExtendsNothing(s);
  }

  /** The remote-join loop appends exactly the players `RemoteJoins` selects,
      with the skins their messages carry, and reports an addition exactly when
      it selected one. */
  lemma {:induction false} JoinRemoteSpec(s: PlayerState, incoming: seq<Message>, j: nat)
    requires s.Valid() && s.UnusedClear() && j <= |incoming| && MessageIdsNonzero(incoming, j)
    ensures var r := JoinRemote(s, incoming, j);
            var b := RemoteJoins(s.Roster(), incoming, j);
            r.Some? ==> Extends(s, r.value.0, b) && (r.value.1 <==> |b| > 0)
    decreases |incoming| - j
  {
    if j == |incoming| {
      ExtendsNothing(s);
    } else {
      var m := incoming[j];
      var t := JoinMessage(s, m);
      if t.Some? {
        var s1 := t.value.0;
        JoinMessageExtends(s, m);
        JoinRemoteSpec(s1, incoming, j + 1);
        var r := JoinRemote(s1, incoming, j + 1);
        if r.Some? {
          var step := MessageJoin(s.Roster(), m);
          var rest := RemoteJoins(s1.Roster(), incoming, j + 1);
          assert RemoteJoins(s.Roster(), incoming, j) == step + rest;
          assert JoinRemote(s, incoming, j).value.0 == r.value.0;
          ExtendsTrans(s, s1, r.value.0, step, rest);
        }
      }
    }
  }

  /** The remote joins keep the roster free of duplicates. */
  lemma {:induction false} RemoteJoinsFresh(known: seq<u32>, incoming: seq<Message>, j: nat)
    requires j <= |incoming| && Unique(known)
    ensures Unique(known + Announced(RemoteJoins(known, incoming, j)))
    decreases |incoming| - j
  {
    if j < |incoming| {
      var m := incoming[j];
      if m.NewPlayer? && m.id !in known {
        var rest := RemoteJoins(known + [m.id], incoming, j + 1);
        AnnouncedAppend([m], rest);
        assert Announced([m]) == [m.id];
        assert Unique(known + [m.id]);
        RemoteJoinsFresh(known + [m.id], incoming, j + 1);
        assert known + Announced(RemoteJoins(known, incoming, j)) == (known + [m.id]) + Announced(rest);
      } else {
        RemoteJoinsFresh(known, incoming, j + 1);
      }
    }
  }

  /** After the remote joins every announced player is on the roster, known
      before or added now. */
  lemma {:induction false} RemoteJoinsCover(known: seq<u32>, incoming: seq<Message>, j: nat)
    requires j <= |incoming|
    ensures var roster := known + Announced(RemoteJoins(known, incoming, j));
            forall i | j <= i < |incoming| && incoming[i].NewPlayer? :: incoming[i].id in roster
    decreases |incoming| - j
  {
    if j < |incoming| {
      var m := incoming[j];
      if m.NewPlayer? && m.id !in known {
        var rest := RemoteJoins(known + [m.id], incoming, j + 1);
        AnnouncedAppend([m], rest);
        assert Announced([m]) == [m.id];
        RemoteJoinsCover(known + [m.id], incoming, j + 1);
        assert known + Announced(RemoteJoins(known, incoming, j)) == (known + [m.id]) + Announced(rest);
      } else {
        RemoteJoinsCover(known, incoming, j + 1);
      }
    }
  }

  // ---------------------------------------------------------------- broadcast

  /** `broadcastPlayerState`: one `newPlayer` per player of the committed
      roster, in row order, with that player's skin. */
  function Broadcast(prev: PlayerState): (ms: seq<Message>)
    requires prev.Valid()
    ensures |ms| == prev.count && Announced(ms) == prev.Roster()
    ensures forall i | 0 <= i < prev.count :: ms[i] == NewPlayer(prev.ids[i], prev.skins[i])
  {
    BroadcastFrom(prev, 0)
  }

  function BroadcastFrom(prev: PlayerState, i: nat): (ms: seq<Message>)
    requires prev.Valid() && i <= prev.count
    ensures |ms| == prev.count - i && Announced(ms) == prev.ids[i..prev.count]
    ensures forall j | i <= j < prev.count :: ms[j - i] == NewPlayer(prev.ids[j], prev.skins[j])
    decreases prev.count - i
  {
    if i == prev.count then []
    else
      var rest := BroadcastFrom(prev, i + 1);
      assert ([NewPlayer(prev.ids[i], prev.skins[i])] + rest)[1..] == rest;
      assert prev.ids[i..prev.count] == [prev.ids[i]] + prev.ids[i + 1..prev.count];
      [NewPlayer(prev.ids[i], prev.skins[i])] + rest
  }

  // ---------------------------------------------------------------- flags

  /** Bit 1 of a flags entry: the player is colliding now. */
  predicate Colliding(f: u8) {
    f % 2 == 1
  }

  /** Bit 2 of a flags entry: the collision started this tick. */
  predicate Collided(f: u8) {
    (f / 2) % 2 == 1
  }

  /** The player with id `id` has a physics point whose collisions entry is
      nonzero, looked up across the whole id column. */
  predicate Touching(physics: PbdStore.PhysicsState, id: u32)
    requires physics.Valid()
  {
    var k := IndexOf(physics.points.ids, id);
    k != -1 && physics.collisions[k] != 0
  }

  /** One entry of the flags loop: cleared, then `|= 1` when touching and also
      `|= 2` when the committed entry had bit 1 clear. */
  function FlagFor(previous: u8, touching: bool): (f: u8)
    ensures Colliding(f) <==> touching
    ensures Collided(f) <==> touching && !Colliding(previous)
    ensures f == 0 || f == 1 || f == 3
  {
    if touching then (if previous % 2 == 0 then 3 else 1) else 0
  }

  /** The flags loop over the rows in use; rows past `count` keep their flags. */
  function Flags(s: PlayerState, prev: PlayerState, physics: PbdStore.PhysicsState): (fs: seq<u8>)
    requires s.Valid() && prev.Valid() && prev.Capacity() == s.Capacity() && physics.Valid()
    ensures |fs| == s.Capacity()
    ensures forall i | 0 <= i < s.count :: fs[i] == FlagFor(prev.flags[i], Touching(physics, s.ids[i]))
    ensures forall i | s.count <= i < s.Capacity() :: fs[i] == s.flags[i]
  {
    seq(s.Capacity(), i requires 0 <= i < s.Capacity() =>
          if i < s.count then FlagFor(prev.flags[i], Touching(physics, s.ids[i])) else s.flags[i])
  }

  // ---------------------------------------------------------------- evolve

  /** `Players.evolve`: copy the committed roster with an empty outgoing list,
      join the local players, join the announced remote players, rebroadcast the
      committed roster when a remote player was added, and recompute the flags.
      None: a join would overflow the roster. */
  function Evolve(prev: PlayerState, input: Input.InputState, incoming: seq<Message>,
                  physics: PbdStore.PhysicsState, skin: nat -> u32): (r: Option<PlayerState>)
    requires prev.Valid() && input.Valid() && physics.Valid()
    ensures prev.count + input.count + |incoming| <= prev.Capacity() ==> r.Some?
    ensures r.Some? ==> r.value.Valid() && r.value.Capacity() == prev.Capacity() && r.value.time == prev.time
    ensures r.Some? ==> prev.count <= r.value.count
    ensures r.Some? ==> forall i | 0 <= i < r.value.count ::
              && (Colliding(r.value.flags[i]) <==> Touching(physics, r.value.ids[i]))
              && (Collided(r.value.flags[i]) <==> Touching(physics, r.value.ids[i]) && !Colliding(prev.flags[i]))
    ensures r.Some? ==> forall i | r.value.count <= i < r.value.Capacity() :: r.value.flags[i] == prev.flags[i]
  {
    var t1 := JoinLocal(prev.(outgoing := []), input, skin, 0);
    if t1.None? then None
    else
      var t2 := JoinRemote(t1.value, incoming, 0);
      if t2.None? then None
      else Some(Finish(prev, t2.value.0, t2.value.1, physics))
  }

  /** The end of `Players.evolve` once the joins are done: the rebroadcast of
      the committed roster when a remote player was added, then the flags. */
  function Finish(prev: PlayerState, s: PlayerState, added: bool, physics: PbdStore.PhysicsState): (r: PlayerState)
    requires prev.Valid() && s.Valid() && s.Capacity() == prev.Capacity() && physics.Valid()
    ensures r.Valid() && r.Capacity() == s.Capacity()
    ensures r.count == s.count && r.ids == s.ids && r.skins == s.skins && r.time == s.time && r.intents == s.intents
    ensures r.outgoing == s.outgoing + (if added then Broadcast(prev) else [])
    ensures r.flags == Flags(s, prev, physics)
  {
    var s1 := if added then s.(outgoing := s.outgoing + Broadcast(prev)) else s;
    assert Flags(s1, prev, physics) == Flags(s, prev, physics);
    s1.(flags := Flags(s1, prev, physics))
  }

  /** `Evolve` in terms of its stages. */
  lemma EvolveIs(prev: PlayerState, input: Input.InputState, incoming: seq<Message>,
                 physics: PbdStore.PhysicsState, skin: nat -> u32, s1: PlayerState, s2: PlayerState, added: bool)
    requires prev.Valid() && input.Valid() && physics.Valid()
    requires JoinLocal(prev.(outgoing := []), input, skin, 0) == Some(s1)
    requires s1.Valid() && JoinRemote(s1, incoming, 0) == Some((s2, added))
    ensures s2.Valid() && s2.Capacity() == prev.Capacity()
    ensures Evolve(prev, input, incoming, physics, skin) == Some(Finish(prev, s2, added, physics))
  {
  }

  /** After a tick, a local player's intent is the input of the last
      connected slot that drives it; the remote joins and the flags leave
      it alone. */
  lemma EvolveIntents(prev: PlayerState, input: Input.InputState, incoming: seq<Message>,
                      physics: PbdStore.PhysicsState, skin: nat -> u32, q: nat)
    requires prev.Valid() && prev.UnusedClear() && input.Valid() && physics.Valid()
    requires SlotIdsNonzero(input, 0) && MessageIdsNonzero(incoming, 0)
    requires q < input.count && input.connected[q] != 0
    requires forall p | q < p < input.count && input.connected[p] != 0 :: input.playerIds[p] != input.playerIds[q]
    requires Evolve(prev, input, incoming, physics, skin).Some?
    ensures HasIntent(Evolve(prev, input, incoming, physics, skin).value, input.playerIds[q],
                      Vec2(input.inputX[q], input.inputY[q]))
  {
    var id := input.playerIds[q];
    var v := Vec2(input.inputX[q], input.inputY[q]);
    var s0 := prev.(outgoing := []);
    JoinLocalSpec(s0, input, skin, 0);
    JoinLocalIntents(s0, input, skin, 0, q);
    var s1 := JoinLocal(s0, input, skin, 0).value;
    JoinRemoteSpec(s1, incoming, 0);
    var t2 := JoinRemote(s1, incoming, 0).value;
    ExtendsKeepsIntent(s1, t2.0, RemoteJoins(s1.Roster(), incoming, 0), id, v);
    EvolveIs(prev, input, incoming, physics, skin, s1, t2.0, t2.1);
  }

  /** The roster and outgoing messages one tick produces: the committed roster,
      then the local players `a` announces, then the remote players `b`
      selects, with the skins they were announced with; outgoing holds the
      local announcements followed, when `b` is not empty, by the rebroadcast
      of the committed roster. */
  lemma EvolveRoster(prev: PlayerState, input: Input.InputState, incoming: seq<Message>,
                     physics: PbdStore.PhysicsState, skin: nat -> u32)
    requires prev.Valid() && prev.UnusedClear() && input.Valid() && physics.Valid()
    requires SlotIdsNonzero(input, 0) && MessageIdsNonzero(incoming, 0)
    ensures var r := Evolve(prev, input, incoming, physics, skin);
            var a := LocalJoins(prev.Roster(), input, skin, 0);
            var b := RemoteJoins(prev.Roster() + Announced(a), incoming, 0);
            r.Some? ==>
              && r.value.UnusedClear()
              && r.value.Roster() == prev.Roster() + Announced(a) + Announced(b)
              && r.value.SkinRoster() == prev.SkinRoster() + Skins(a) + Skins(b)
              && r.value.outgoing == a + (if |b| > 0 then Broadcast(prev) else [])
  {
    var s0 := prev.(outgoing := []);
    JoinLocalSpec(s0, input, skin, 0);
    var t1 := JoinLocal(s0, input, skin, 0);
    if t1.Some? {
      var s1 := t1.value;
      JoinRemoteSpec(s1, incoming, 0);
      var t2 := JoinRemote(s1, incoming, 0);
      if t2.Some? {
        EvolveIs(prev, input, incoming, physics, skin, s1, t2.value.0, t2.value.1);
        var a := LocalJoins(s0.Roster(), input, skin, 0);
        var b := RemoteJoins(s1.Roster(), incoming, 0);
        RosterCompose(prev, s0, s1, t2.value.0, t2.value.1, physics, a, b);
      }
    }
  }

  /** The final step of `EvolveRoster`. */
  lemma RosterCompose(prev: PlayerState, s0: PlayerState, s1: PlayerState, s2: PlayerState, added: bool,
                      physics: PbdStore.PhysicsState, a: seq<Message>, b: seq<Message>)
    requires prev.Valid() && s0.Valid() && s1.Valid() && s2.Valid() && physics.Valid()
    requires s2.Capacity() == prev.Capacity()
    requires s0 == prev.(outgoing := [])
    requires Extends(s0, s1, a) && s1.outgoing == a
    requires Extends(s1, s2, b) && s2.outgoing == s1.outgoing && (added <==> |b| > 0)
    ensures var r := Finish(prev, s2, added, physics);
            && r.UnusedClear()
            && r.Roster() == prev.Roster() + Announced(a) + Announced(b)
            && r.SkinRoster() == prev.SkinRoster() + Skins(a) + Skins(b)
            && r.outgoing == a + (if |b| > 0 then Broadcast(prev) else [])
  {
    assert s0.Roster() == prev.Roster() && s0.SkinRoster() == prev.SkinRoster();
  }

  /** One tick keeps the roster free of duplicate ids. */
  lemma EvolveKeepsUnique(prev: PlayerState, input: Input.InputState, incoming: seq<Message>,
                          physics: PbdStore.PhysicsState, skin: nat -> u32)
    requires prev.Valid() && prev.UnusedClear() && input.Valid() && physics.Valid()
    requires SlotIdsNonzero(input, 0) && MessageIdsNonzero(incoming, 0)
    requires Unique(prev.Roster())
    ensures var r := Evolve(prev, input, incoming, physics, skin);
            r.Some? ==> Unique(r.value.Roster())
  {
    var r := Evolve(prev, input, incoming, physics, skin);
    if r.Some? {
      EvolveRoster(prev, input, incoming, physics, skin);
      var a := LocalJoins(prev.Roster(), input, skin, 0);
      LocalJoinsFresh(prev.Roster(), input, skin, 0);
      RemoteJoinsFresh(prev.Roster() + Announced(a), incoming, 0);
    }
  }

  /** After one tick every connected local player and every player announced
      by a peer is on the roster. */
  lemma EvolveCovers(prev: PlayerState, input: Input.InputState, incoming: seq<Message>,
                     physics: PbdStore.PhysicsState, skin: nat -> u32)
    requires prev.Valid() && prev.UnusedClear() && input.Valid() && physics.Valid()
    requires SlotIdsNonzero(input, 0) && MessageIdsNonzero(incoming, 0)
    ensures var r := Evolve(prev, input, incoming, physics, skin);
            r.Some? ==>
              && (forall k | 0 <= k < input.count && input.connected[k] != 0 :: input.playerIds[k] in r.value.Roster())
              && (forall j | 0 <= j < |incoming| && incoming[j].NewPlayer? :: incoming[j].id in r.value.Roster())
  {
    var r := Evolve(prev, input, incoming, physics, skin);
    if r.Some? {
      EvolveRoster(prev, input, incoming, physics, skin);
      var a := LocalJoins(prev.Roster(), input, skin, 0);
      var known := prev.Roster() + Announced(a);
      var b := RemoteJoins(known, incoming, 0);
      LocalJoinsCover(prev.Roster(), input, skin, 0);
      RemoteJoinsCover(known, incoming, 0);
      assert r.value.Roster() == known + Announced(b);
    }
  }

  /** One player's flags over consecutive ticks, given whether it touches a
      wall at each tick. */
  function FlagRun(previous: u8, touching: seq<bool>): (fs: seq<u8>)
    ensures |fs| == |touching|
    decreases |touching|
  {
    if |touching| == 0 then []
    else [FlagFor(previous, touching[0])] + FlagRun(FlagFor(previous, touching[0]), touching[1..])
  }

  /** Bit 2 marks the first tick of each contact and no other: it is set at
      tick `t` exactly when the player touches at `t` and did not at `t - 1`
      (or, at the first tick, had bit 1 clear). */
  lemma {:induction false} CollisionEdgeOnce(previous: u8, touching: seq<bool>)
    ensures var fs := FlagRun(previous, touching);
            && (|touching| > 0 ==> (Collided(fs[0]) <==> touching[0] && !Colliding(previous)))
            && forall t | 0 < t < |touching| :: Collided(fs[t]) <==> touching[t] && !touching[t - 1]
    decreases |touching|
  {
    if |touching| > 0 {
      var f := FlagFor(previous, touching[0]);
      CollisionEdgeOnce(f, touching[1..]);
      var fs := FlagRun(previous, touching);
      forall t | 0 < t < |touching|
        ensures Collided(fs[t]) <==> touching[t] && !touching[t - 1]
      {
        assert fs[t] == FlagRun(f, touching[1..])[t - 1];
        if t == 1 {
          assert Colliding(f) <==> touching[0];
        } else {
          assert touching[1..][t - 2] == touching[t - 1];
        }
      }
    }
  }

  /** A contact lasting ticks `a..b` with no contact at tick `a - 1` sets bit 2
      at tick `a` and at none of the ticks `a + 1..b`. */
  lemma ContactFlaggedOnce(previous: u8, touching: seq<bool>, a: nat, b: nat)
    requires 0 < a <= b < |touching| && !touching[a - 1]
    requires forall t | a <= t <= b :: touching[t]
    ensures var fs := FlagRun(previous, touching);
            Collided(fs[a]) && forall t | a < t <= b :: !Collided(fs[t])
  {
    CollisionEdgeOnce(previous, touching);
    var fs := FlagRun(previous, touching);
    forall t | a < t <= b
      ensures !Collided(fs[t])
    {
      assert touching[t - 1];
    }
  }
}
