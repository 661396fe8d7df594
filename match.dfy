/** The lobby-enabled match server: running games keyed by lobby slot, the
    round engine (spawn assignment, deaths, restarts), movement, bombs with
    their fuses, disconnects and the periodic position broadcast. */
module Match {
  import opened Entities

  /** A lobby slot as the lobby keeps it (a PendingGame). */
  datatype LobbySlot = LobbySlot(state: SlotState, mapName: string, playerIds: seq<ConnId>)

  /** The slot `new PendingGame()` builds: empty, no map, no players. */
  const FreshSlot: LobbySlot := LobbySlot(Empty, "", [])

  /** The contents of one running game. */
  datatype Round = Round(players: map<ConnId, Player>, bombs: BombTables, numPlayersAlive: int)

  /** What `Bomb.detonate` reports: the exploded tiles and the killed players. */
  datatype Blast = Blast(explosions: seq<Point>, killed: seq<ConnId>)

  predicate Distinct(ids: seq<ConnId>)
  {
    forall i, j :: 0 <= i < j < |ids| ==> ids[i] != ids[j]
  }

  // ---------------------------------------------------------------------------
  // Round engine, as functions of the game's contents

  /** The players one round start writes: `ids[i]` at spawn point `i`, a later
      duplicate id overwriting an earlier one. */
  function RoundPlayers(ids: seq<ConnId>, spawns: seq<Point>): map<ConnId, Player>
    requires |ids| <= |spawns|
    decreases |ids|
  {
    if ids == [] then map[]
    else
      var n := |ids| - 1;
      RoundPlayers(ids[..n], spawns)[ids[n] := SpawnPlayer(ids[n], spawns[n])]
  }

  /** An empty bomb table for every id. */
  function EmptyBombTables(ids: seq<ConnId>): BombTables
  {
    map id | id in ids :: map[]
  }

  /** The game after `beginRound(ids, mapName, game)`. */
  function NewRound(r: Round, ids: seq<ConnId>, spawns: seq<Point>): Round
    requires |ids| <= |spawns|
  {
    Round(r.players + RoundPlayers(ids, spawns), r.bombs + EmptyBombTables(ids), |ids|)
  }

  /** `game.players[k].alive = false`. */
  function MarkDead(r: Round, k: ConnId): Round
    requires k in r.players
  {
    r.(players := r.players[k := r.players[k].(alive := false)])
  }

  /** The game after `handlePlayerDeath`: one fewer alive, and a new round
      with the slot's players when exactly one is left. */
  function AfterDeath(r: Round, ids: seq<ConnId>, spawns: seq<Point>): Round
    requires |ids| <= |spawns|
  {
    var d := r.(numPlayersAlive := r.numPlayersAlive - 1);
    if d.numPlayersAlive == 1 then NewRound(d, ids, spawns) else d
  }

  /** What `handlePlayerDeath` emits to the match room. */
  function DeathEvents(r: Round, k: ConnId, room: SlotId): seq<Event>
  {
    [Emit(Room(room), KillPlayer(k))]
    + if r.numPlayersAlive - 1 == 1 then [Emit(Room(room), Restart)] else []
  }

  /** The fuse's kill loop: each killed id in list order is marked dead and
      its death handled. Returns the final game and the events emitted. */
  function ApplyKills(r: Round, ks: seq<ConnId>, ids: seq<ConnId>, spawns: seq<Point>, room: SlotId): (res: (Round, seq<Event>))
    requires |ids| <= |spawns|
    requires forall k :: k in ks ==> k in r.players
    ensures r.players.Keys <= res.0.players.Keys
    decreases |ks|
  {
    if ks == [] then (r, [])
    else
      var dead := MarkDead(r, ks[0]);
      var next := AfterDeath(dead, ids, spawns);
      var rest := ApplyKills(next, ks[1..], ids, spawns, room);
      (rest.0, DeathEvents(dead, ks[0], room) + rest.1)
  }

  /** The fuse's kill loop when the captured game `cap` is no longer the game
      `cur` running in its slot (a second `onStartGame` replaced it): each
      killed id is marked dead in the captured game, while its death is
      handled, counted and possibly restarting, in the running game. Returns
      both games and the events emitted. */
  function ApplyKillsApart(cap: Round, cur: Round, ks: seq<ConnId>, ids: seq<ConnId>, spawns: seq<Point>, room: SlotId)
    : (res: (Round, Round, seq<Event>))
    requires |ids| <= |spawns|
    requires forall k :: k in ks ==> k in cap.players
    ensures res.0.players.Keys == cap.players.Keys
    decreases |ks|
  {
    if ks == [] then (cap, cur, [])
    else
      var rest := ApplyKillsApart(MarkDead(cap, ks[0]), AfterDeath(cur, ids, spawns), ks[1..], ids, spawns, room);
      (rest.0, rest.1, DeathEvents(cur, ks[0], room) + rest.2)
  }

  // ---------------------------------------------------------------------------
  // Properties of the round engine

  /** A round start registers exactly the ids it is given. */
  lemma {:induction false} RoundPlayersKeys(ids: seq<ConnId>, spawns: seq<Point>)
    requires |ids| <= |spawns|
    ensures RoundPlayers(ids, spawns).Keys == set i | 0 <= i < |ids| :: ids[i]
  {
    if ids != [] {
      var n := |ids| - 1;
      RoundPlayersKeys(ids[..n], spawns);
      assert (set i | 0 <= i < |ids| :: ids[i]) == (set i | 0 <= i < n :: ids[..n][i]) + {ids[n]};
    }
  }

  /** Every player a round start writes is a fresh, alive player facing
      "down" under its own id, at the spawn point of one of that id's
      positions in the list. */
  lemma {:induction false} RoundPlayersFresh(ids: seq<ConnId>, spawns: seq<Point>)
    requires |ids| <= |spawns|
    ensures KeyedById(RoundPlayers(ids, spawns))
    ensures forall k :: k in RoundPlayers(ids, spawns) ==>
              exists j :: 0 <= j < |ids| && ids[j] == k && RoundPlayers(ids, spawns)[k] == SpawnPlayer(k, spawns[j])
  {
    if ids != [] {
      var n := |ids| - 1;
      RoundPlayersFresh(ids[..n], spawns);
      var prev := RoundPlayers(ids[..n], spawns);
      forall k | k in RoundPlayers(ids, spawns)
        ensures exists j :: 0 <= j < |ids| && ids[j] == k && RoundPlayers(ids, spawns)[k] == SpawnPlayer(k, spawns[j])
      {
        if k != ids[n] {
          var j :| 0 <= j < n && ids[..n][j] == k && prev[k] == SpawnPlayer(k, spawns[j]);
          assert ids[j] == k;
        }
      }
    }
  }

  /** With distinct ids, `ids[i]` gets exactly spawn point `i`. */
  lemma {:induction false} RoundPlayersAt(ids: seq<ConnId>, spawns: seq<Point>, i: nat)
    requires |ids| <= |spawns| && Distinct(ids) && i < |ids|
    ensures ids[i] in RoundPlayers(ids, spawns)
    ensures RoundPlayers(ids, spawns)[ids[i]] == SpawnPlayer(ids[i], spawns[i])
  {
    var n := |ids| - 1;
    if i < n {
      RoundPlayersAt(ids[..n], spawns, i);
    }
  }

  /** After a round start, listed id `ids[i]` holds a fresh player at spawn
      point `i` and an empty bomb table, and the alive count is the number
      of ids. */
  lemma NewRoundAt(r: Round, ids: seq<ConnId>, spawns: seq<Point>, i: nat)
    requires |ids| <= |spawns| && Distinct(ids) && i < |ids|
    ensures var r' := NewRound(r, ids, spawns);
            && r'.numPlayersAlive == |ids|
            && ids[i] in r'.players && r'.players[ids[i]] == SpawnPlayer(ids[i], spawns[i])
            && ids[i] in r'.bombs && r'.bombs[ids[i]] == map[]
  {
    RoundPlayersAt(ids, spawns, i);
  }

  /** A round start leaves the player and bomb table of an unlisted id as
      they were. */
  lemma NewRoundOthers(r: Round, ids: seq<ConnId>, spawns: seq<Point>, k: ConnId)
    requires |ids| <= |spawns| && k !in ids
    ensures var r' := NewRound(r, ids, spawns);
            && (k in r'.players <==> k in r.players) && (k in r.players ==> r'.players[k] == r.players[k])
            && (k in r'.bombs <==> k in r.bombs) && (k in r.bombs ==> r'.bombs[k] == r.bombs[k])
  {
    RoundPlayersKeys(ids, spawns);
    assert k !in RoundPlayers(ids, spawns);
  }

  /** Starting a round depends only on the ids and the map: two games that
      start a round with the same ids agree on every listed player and bomb
      table, and starting it again right away changes nothing. */
  lemma NewRoundDeterministic(r1: Round, r2: Round, ids: seq<ConnId>, spawns: seq<Point>)
    requires |ids| <= |spawns|
    ensures var a := NewRound(r1, ids, spawns);
            var b := NewRound(r2, ids, spawns);
            && a.numPlayersAlive == b.numPlayersAlive
            && (forall i :: 0 <= i < |ids| ==>
                  ids[i] in a.players && ids[i] in b.players && a.players[ids[i]] == b.players[ids[i]]
                  && ids[i] in a.bombs && ids[i] in b.bombs && a.bombs[ids[i]] == b.bombs[ids[i]])
    ensures NewRound(NewRound(r1, ids, spawns), ids, spawns) == NewRound(r1, ids, spawns)
  {
    RoundPlayersKeys(ids, spawns);
    var a := NewRound(r1, ids, spawns);
    var rp := RoundPlayers(ids, spawns);
    assert a.players + rp == r1.players + rp;
    assert a.bombs + EmptyBombTables(ids) == r1.bombs + EmptyBombTables(ids);
  }

  /** A death lowers the alive count by exactly one and changes nothing
      else, unless it leaves exactly one alive: then the round restarts and
      the count is back to the number of the slot's players, all alive. */
  lemma AfterDeathSpec(r: Round, ids: seq<ConnId>, spawns: seq<Point>)
    requires |ids| <= |spawns|
    ensures var r' := AfterDeath(r, ids, spawns);
            && (r.numPlayersAlive != 2 ==> r' == r.(numPlayersAlive := r.numPlayersAlive - 1))
            && (r.numPlayersAlive == 2 ==>
                  && r'.numPlayersAlive == |ids|
                  && forall i :: 0 <= i < |ids| ==> ids[i] in r'.players && r'.players[ids[i]].alive)
  {
    if r.numPlayersAlive == 2 {
      RoundPlayersKeys(ids, spawns);
      RoundPlayersFresh(ids, spawns);
    }
  }

  /** A killed player is only alive again after a full round restart that
      lists it; every other player keeps its state through the death unless
      the round restarts. */
  lemma KilledStaysDead(r: Round, k: ConnId, ids: seq<ConnId>, spawns: seq<Point>)
    requires |ids| <= |spawns| && k in r.players
    ensures var r' := AfterDeath(MarkDead(r, k), ids, spawns);
            && k in r'.players
            && (r'.players[k].alive ==> r.numPlayersAlive == 2 && k in ids)
            && (r.numPlayersAlive != 2 ==> forall j :: j in r.players && j != k ==> j in r'.players && r'.players[j] == r.players[j])
  {
    var d := MarkDead(r, k);
    if r.numPlayersAlive == 2 {
      RoundPlayersKeys(ids, spawns);
      var rp := RoundPlayers(ids, spawns);
      if k !in ids {
        assert k !in rp;
      }
    }
  }

  /** Kills applied one list after another are the kills of the joined list. */
  lemma {:induction false} ApplyKillsAppend(r: Round, a: seq<ConnId>, b: seq<ConnId>, ids: seq<ConnId>, spawns: seq<Point>, room: SlotId)
    requires |ids| <= |spawns|
    requires forall k :: k in a + b ==> k in r.players
    ensures var first := ApplyKills(r, a, ids, spawns, room);
            var second := ApplyKills(first.0, b, ids, spawns, room);
            ApplyKills(r, a + b, ids, spawns, room) == (second.0, first.1 + second.1)
    decreases |a|
  {
    if a == [] {
      assert a + b == b;
      var second := ApplyKills(r, b, ids, spawns, room);
      assert ApplyKills(r, a, ids, spawns, room) == (r, []);
      assert [] + second.1 == second.1;
    } else {
      var dead := MarkDead(r, a[0]);
      var next := AfterDeath(dead, ids, spawns);
      assert r.players.Keys <= next.players.Keys;
      assert (a + b)[0] == a[0];
      assert (a + b)[1..] == a[1..] + b;
      ApplyKillsAppend(next, a[1..], b, ids, spawns, room);
      var inner := ApplyKills(next, a[1..], ids, spawns, room);
      var second := ApplyKills(inner.0, b, ids, spawns, room);
      var d := DeathEvents(dead, a[0], room);
      assert d + (inner.1 + second.1) == (d + inner.1) + second.1;
    }
  }

  /** The usual fuse, whose game still runs in its slot: while no restart is
      due, the kill loop clears `alive` of exactly the killed players, lowers
      the alive count by one per killed id, leaves the bombs alone and sends
      the room one "kill player" per killed id, in order. */
  lemma {:induction false} ApplyKillsNoRestart(r: Round, ks: seq<ConnId>, ids: seq<ConnId>, spawns: seq<Point>, room: SlotId)
    requires |ids| <= |spawns|
    requires forall k :: k in ks ==> k in r.players
    requires r.numPlayersAlive > |ks| + 1
    ensures var res := ApplyKills(r, ks, ids, spawns, room);
            && res.0.numPlayersAlive == r.numPlayersAlive - |ks|
            && res.0.bombs == r.bombs
            && res.0.players.Keys == r.players.Keys
            && (forall k :: k in r.players ==>
                  res.0.players[k] == if k in ks then r.players[k].(alive := false) else r.players[k])
            && |res.1| == |ks|
            && forall i :: 0 <= i < |ks| ==> res.1[i] == Emit(Room(room), KillPlayer(ks[i]))
    decreases |ks|
  {
    if ks != [] {
      var dead := MarkDead(r, ks[0]);
      var next := AfterDeath(dead, ids, spawns);
      assert next == dead.(numPlayersAlive := r.numPlayersAlive - 1);
      ApplyKillsNoRestart(next, ks[1..], ids, spawns, room);
      var rest := ApplyKills(next, ks[1..], ids, spawns, room);
      assert DeathEvents(dead, ks[0], room) == [Emit(Room(room), KillPlayer(ks[0]))];
      forall k | k in r.players
        ensures ApplyKills(r, ks, ids, spawns, room).0.players[k]
                == if k in ks then r.players[k].(alive := false) else r.players[k]
      {
        assert k in ks <==> k == ks[0] || k in ks[1..];
      }
      forall i | 0 <= i < |ks|
        ensures ApplyKills(r, ks, ids, spawns, room).1[i] == Emit(Room(room), KillPlayer(ks[i]))
      {
        if i > 0 {
          assert rest.1[i - 1] == Emit(Room(room), KillPlayer(ks[1..][i - 1]));
        }
      }
    }
  }

  /** One more iteration of the round-start loop. */
  lemma RoundStep(ids: seq<ConnId>, spawns: seq<Point>, i: nat)
    requires |ids| <= |spawns| && i < |ids|
    ensures RoundPlayers(ids[..i + 1], spawns) == RoundPlayers(ids[..i], spawns)[ids[i] := SpawnPlayer(ids[i], spawns[i])]
    ensures EmptyBombTables(ids[..i + 1]) == EmptyBombTables(ids[..i])[ids[i] := map[]]
  {
    assert ids[..i + 1][..i] == ids[..i];
    assert ids[..i + 1] == ids[..i] + [ids[i]];
  }

  lemma UnionUpdate<K, V>(m: map<K, V>, n: map<K, V>, k: K, v: V)
    ensures (m + n)[k := v] == m + n[k := v]
  {
  }

  /** One more iteration of the fuse's kill loop. */
  lemma ApplyKillsSnoc(r: Round, ks: seq<ConnId>, i: nat, ids: seq<ConnId>, spawns: seq<Point>, room: SlotId)
    requires |ids| <= |spawns| && i < |ks|
    requires forall k :: k in ks ==> k in r.players
    ensures var prev := ApplyKills(r, ks[..i], ids, spawns, room);
            && ks[i] in prev.0.players
            && var dead := MarkDead(prev.0, ks[i]);
               ApplyKills(r, ks[..i + 1], ids, spawns, room)
               == (AfterDeath(dead, ids, spawns), prev.1 + DeathEvents(dead, ks[i], room))
  {
    assert ks[..i + 1] == ks[..i] + [ks[i]];
    ApplyKillsAppend(r, ks[..i], [ks[i]], ids, spawns, room);
    var prev := ApplyKills(r, ks[..i], ids, spawns, room);
    var dead := MarkDead(prev.0, ks[i]);
    var next := AfterDeath(dead, ids, spawns);
    assert [ks[i]][1..] == [];
    assert ApplyKills(next, [], ids, spawns, room) == (next, []);
    assert ApplyKills(prev.0, [ks[i]], ids, spawns, room) == (next, DeathEvents(dead, ks[i], room) + []);
    assert DeathEvents(dead, ks[i], room) + [] == DeathEvents(dead, ks[i], room);
  }

  /** A replaced game's kills applied one list after another are the kills
      of the joined list. */
  lemma {:induction false} ApplyKillsApartAppend(cap: Round, cur: Round, a: seq<ConnId>, b: seq<ConnId>,
                                                 ids: seq<ConnId>, spawns: seq<Point>, room: SlotId)
    requires |ids| <= |spawns|
    requires forall k :: k in a + b ==> k in cap.players
    ensures var first := ApplyKillsApart(cap, cur, a, ids, spawns, room);
            var second := ApplyKillsApart(first.0, first.1, b, ids, spawns, room);
            ApplyKillsApart(cap, cur, a + b, ids, spawns, room) == (second.0, second.1, first.2 + second.2)
    decreases |a|
  {
    if a == [] {
      assert a + b == b;
      var second := ApplyKillsApart(cap, cur, b, ids, spawns, room);
      assert [] + second.2 == second.2;
    } else {
      var cap' := MarkDead(cap, a[0]);
      var cur' := AfterDeath(cur, ids, spawns);
      assert (a + b)[0] == a[0];
      assert (a + b)[1..] == a[1..] + b;
      ApplyKillsApartAppend(cap', cur', a[1..], b, ids, spawns, room);
      var inner := ApplyKillsApart(cap', cur', a[1..], ids, spawns, room);
      var second := ApplyKillsApart(inner.0, inner.1, b, ids, spawns, room);
      var d := DeathEvents(cur, a[0], room);
      assert d + (inner.2 + second.2) == (d + inner.2) + second.2;
    }
  }

  /** One more iteration of the kill loop of a replaced game's fuse. */
  lemma ApplyKillsApartSnoc(cap: Round, cur: Round, ks: seq<ConnId>, i: nat,
                            ids: seq<ConnId>, spawns: seq<Point>, room: SlotId)
    requires |ids| <= |spawns| && i < |ks|
    requires forall k :: k in ks ==> k in cap.players
    ensures var prev := ApplyKillsApart(cap, cur, ks[..i], ids, spawns, room);
            && ks[i] in prev.0.players
            && ApplyKillsApart(cap, cur, ks[..i + 1], ids, spawns, room)
               == (MarkDead(prev.0, ks[i]), AfterDeath(prev.1, ids, spawns), prev.2 + DeathEvents(prev.1, ks[i], room))
  {
    assert ks[..i + 1] == ks[..i] + [ks[i]];
    ApplyKillsApartAppend(cap, cur, ks[..i], [ks[i]], ids, spawns, room);
    var prev := ApplyKillsApart(cap, cur, ks[..i], ids, spawns, room);
    var dead := MarkDead(prev.0, ks[i]);
    var next := AfterDeath(prev.1, ids, spawns);
    assert [ks[i]][1..] == [];
    assert ApplyKillsApart(dead, next, [], ids, spawns, room) == (dead, next, []);
    assert DeathEvents(prev.1, ks[i], room) + [] == DeathEvents(prev.1, ks[i], room);
  }

  /** A replaced game's fuse only marks its killed players dead in the
      captured game: the captured game's bombs, alive count and other players
      stay as they were. */
  lemma {:induction false} ApplyKillsApartCaptured(cap: Round, cur: Round, ks: seq<ConnId>,
                                                   ids: seq<ConnId>, spawns: seq<Point>, room: SlotId)
    requires |ids| <= |spawns|
    requires forall k :: k in ks ==> k in cap.players
    ensures var res := ApplyKillsApart(cap, cur, ks, ids, spawns, room).0;
            && res.bombs == cap.bombs && res.numPlayersAlive == cap.numPlayersAlive
            && forall k :: k in cap.players ==>
                 res.players[k] == if k in ks then cap.players[k].(alive := false) else cap.players[k]
    decreases |ks|
  {
    if ks != [] {
      var cap' := MarkDead(cap, ks[0]);
      ApplyKillsApartCaptured(cap', AfterDeath(cur, ids, spawns), ks[1..], ids, spawns, room);
      forall k | k in cap.players
        ensures ApplyKillsApart(cap, cur, ks, ids, spawns, room).0.players[k]
                == if k in ks then cap.players[k].(alive := false) else cap.players[k]
      {
        assert k in ks <==> k == ks[0] || k in ks[1..];
      }
    }
  }

  /** A replaced game's fuse counts its kills against the game now running
      in the slot: while no restart is due, that game's alive count drops by
      one per killed id, nothing else in it changes, and the room gets one
      "kill player" per killed id, in order. */
  lemma {:induction false} ApplyKillsApartRunning(cap: Round, cur: Round, ks: seq<ConnId>,
                                                  ids: seq<ConnId>, spawns: seq<Point>, room: SlotId)
    requires |ids| <= |spawns|
    requires forall k :: k in ks ==> k in cap.players
    requires cur.numPlayersAlive > |ks| + 1
    ensures var res := ApplyKillsApart(cap, cur, ks, ids, spawns, room);
            && res.1 == cur.(numPlayersAlive := cur.numPlayersAlive - |ks|)
            && |res.2| == |ks|
            && forall i :: 0 <= i < |ks| ==> res.2[i] == Emit(Room(room), KillPlayer(ks[i]))
    decreases |ks|
  {
    if ks != [] {
      var cur' := AfterDeath(cur, ids, spawns);
      assert cur' == cur.(numPlayersAlive := cur.numPlayersAlive - 1);
      ApplyKillsApartRunning(MarkDead(cap, ks[0]), cur', ks[1..], ids, spawns, room);
      var rest := ApplyKillsApart(MarkDead(cap, ks[0]), cur', ks[1..], ids, spawns, room);
      assert DeathEvents(cur, ks[0], room) == [Emit(Room(room), KillPlayer(ks[0]))];
      forall i | 0 <= i < |ks|
        ensures ApplyKillsApart(cap, cur, ks, ids, spawns, room).2[i] == Emit(Room(room), KillPlayer(ks[i]))
      {
        if i > 0 {
          assert rest.2[i - 1] == Emit(Room(room), KillPlayer(ks[1..][i - 1]));
        }
      }
    }
  }

  // ---------------------------------------------------------------------------
  // The fuse as the source writes it

  /** What the fuse callback's `game.bombs[playerId][bombId].detonate(...)`
      reaches: the bomb, or a TypeError when the owner's table or the entry
      is no longer there. */
  datatype FuseLookup = Found(bomb: Bomb) | TypeError

  function FuseLookupAsWritten(t: BombTables, owner: ConnId, bombId: BombId): FuseLookup
  {
    if owner in t && bombId in t[owner] then Found(t[owner][bombId]) else TypeError
  }

  /** Two players, A and B. A places bomb 1 and then bomb 2; bomb 1's blast
      kills B, which leaves one player alive and restarts the round, and the
      restart gives A a new, empty bomb table. Bomb 2's fuse then fires and
      the lookup it does as written fails, while the corrected lookup
      (`TakeBomb`) finds nothing and leaves the tables alone. */
  lemma RestartBeforeFuseAsWritten()
    ensures var ids := ["A", "B"];
            var spawns := [Point(1, 1), Point(13, 1)];
            var start := NewRound(Round(map[], map[], 0), ids, spawns);
            var placed1 := start.(bombs := PlaceBombIn(start.bombs, "A", Bomb(60, 60, 1)));
            var placed2 := placed1.(bombs := PlaceBombIn(placed1.bombs, "A", Bomb(100, 60, 2)));
            var fired1 := placed2.(bombs := TakeBomb(placed2.bombs, "A", 1).1);
            var after := ApplyKills(fired1, ["B"], ids, spawns, "0").0;
            && FuseLookupAsWritten(placed2.bombs, "A", 2) == Found(Bomb(100, 60, 2))
            && FuseLookupAsWritten(after.bombs, "A", 2) == TypeError
            && TakeBomb(after.bombs, "A", 2) == (None, after.bombs)
  {
    var ids := ["A", "B"];
    var spawns := [Point(1, 1), Point(13, 1)];
    var start := NewRound(Round(map[], map[], 0), ids, spawns);
    TwoPlayerRound(ids, spawns);
    var placed1 := start.(bombs := PlaceBombIn(start.bombs, "A", Bomb(60, 60, 1)));
    var placed2 := placed1.(bombs := PlaceBombIn(placed1.bombs, "A", Bomb(100, 60, 2)));
    var fired1 := placed2.(bombs := TakeBomb(placed2.bombs, "A", 1).1);
    var dead := MarkDead(fired1, "B");
    var next := AfterDeath(dead, ids, spawns);
    assert next.bombs["A"] == map[];
    assert ApplyKills(fired1, ["B"], ids, spawns, "0").0 == ApplyKills(next, [], ids, spawns, "0").0;
  }

  /** The round the scenario above starts: both players in, both alive, A
      with an empty bomb table. */
  lemma TwoPlayerRound(ids: seq<ConnId>, spawns: seq<Point>)
    requires ids == ["A", "B"] && |spawns| == 2
    ensures var start := NewRound(Round(map[], map[], 0), ids, spawns);
            && start.numPlayersAlive == 2
            && "B" in start.players
            && "A" in start.bombs && start.bombs["A"] == map[]
  {
    RoundPlayersKeys(ids, spawns);
    assert ids[1] == "B";
  }

  // ---------------------------------------------------------------------------
  // Objects

  /** One running game (entities/game). */
  class Game {
    var players: map<ConnId, Player>
    var bombs: BombTables
    var numPlayersAlive: int

    /** `new Game()`: no players, no bombs. */
    constructor ()
      ensures players == map[] && bombs == map[] && numPlayersAlive == 0
    {
      players, bombs, numPlayersAlive := map[], map[], 0;
    }

    function State(): Round
      reads this
    {
      Round(players, bombs, numPlayersAlive)
    }

    /** `beginRound(ids, mapName, game)`, with the map's spawn list given. */
    method BeginRound(ids: seq<ConnId>, spawns: seq<Point>)
      requires |ids| <= |spawns|
      modifies this
      ensures State() == NewRound(old(State()), ids, spawns)
      ensures old(KeyedById(players)) ==> KeyedById(players)
    {
      var i := 0;
      while i < |ids|
        invariant 0 <= i <= |ids|
        invariant players == old(players) + RoundPlayers(ids[..i], spawns)
        invariant bombs == old(bombs) + EmptyBombTables(ids[..i])
        invariant numPlayersAlive == old(numPlayersAlive)
      {
        var playerId := ids[i];
        var spawnPoint := spawns[i];
        RoundStep(ids, spawns, i);
        UnionUpdate(old(players), RoundPlayers(ids[..i], spawns), playerId, SpawnPlayer(playerId, spawnPoint));
        UnionUpdate(old(bombs), EmptyBombTables(ids[..i]), playerId, map[]);
        players := players[playerId := SpawnPlayer(playerId, spawnPoint)];
        bombs := bombs[playerId := map[]];
        i := i + 1;
      }
      assert ids[..i] == ids;
      numPlayersAlive := |ids|;
      RoundPlayersFresh(ids, spawns);
    }
  }

  /** A scheduled fuse: the closure's captured game object, the game's slot,
      the bomb's owner and the bomb id. */
  datatype Fuse = Fuse(game: Game, gameId: SlotId, owner: ConnId, bombId: BombId)

  /** The server: running games by slot, the lobby slots, the map catalogue
      (MapInfo: each map's spawn list) and everything emitted so far. */
  class Server {
    const mapInfo: map<string, seq<Point>>
    var games: map<SlotId, Game>
    var slots: map<SlotId, LobbySlot>
    var log: seq<Event>

    /** The slot names a known map with enough spawn points for its players. */
    predicate CanBeginRound(slot: LobbySlot)
    {
      slot.mapName in mapInfo && |slot.playerIds| <= |mapInfo[slot.mapName]|
    }

    /** A game runs exactly for the slots in progress, each with a playable
        map, and keeps its players under their own ids. */
    ghost predicate Valid()
      reads this, games.Values
    {
      && (forall s :: s in games ==> s in slots && slots[s].state == InProgress && CanBeginRound(slots[s]))
      && (forall s :: s in slots && slots[s].state == InProgress ==> s in games)
      && (forall s :: s in games ==> KeyedById(games[s].players))
    }

    /** The player list and spawn list a restart of slot `s` uses. */
    function RestartIds(s: SlotId): seq<ConnId>
      reads this
    {
      if s in slots && CanBeginRound(slots[s]) then slots[s].playerIds else []
    }

    function RestartSpawns(s: SlotId): (spawns: seq<Point>)
      reads this
      ensures |RestartIds(s)| <= |spawns|
    {
      if s in slots && CanBeginRound(slots[s]) then mapInfo[slots[s].mapName] else []
    }

    /** Lobby initialisation: the given slots, none of them in progress. */
    constructor (mapInfo: map<string, seq<Point>>, slots: map<SlotId, LobbySlot>)
      requires forall s :: s in slots ==> slots[s].state != InProgress
      ensures Valid()
      ensures this.mapInfo == mapInfo && this.slots == slots && games == map[] && log == []
    {
      this.mapInfo := mapInfo;
      this.slots := slots;
      games := map[];
      log := [];
    }

    /** `onClientDisconnect` for connection `id` whose slot is `gameId`. */
    method OnClientDisconnect(id: ConnId, gameId: Option<SlotId>)
      requires Valid()
      requires gameId.Some? ==> gameId.value in slots
      modifies this, games.Values
      ensures Valid()
      ensures gameId.None? || old(slots[gameId.value].state) in {Empty, Joinable, Full} ==>
                games == old(games) && slots == old(slots) && log == old(log)
                && forall g :: g in games.Values ==> unchanged(g)
      ensures gameId.Some? && old(slots[gameId.value].state) == SettingUp ==>
                var s := gameId.value;
                && slots == old(slots)[s := old(slots[s]).(state := Empty)]
                && games == old(games)
                && log == old(log) + [Emit(LobbyRoom, SlotStateUpdate(s, Empty))]
                && forall g :: g in games.Values ==> unchanged(g)
      ensures gameId.Some? && old(slots[gameId.value].state) == InProgress ==>
                var s := gameId.value;
                var game := old(games[s]);
                && game.players == old(game.players) - {id}
                && game.bombs == old(game.bombs) && game.numPlayersAlive == old(game.numPlayersAlive)
                && (forall g :: g in old(games.Values) && g != game ==> unchanged(g))
                && (game.players == map[] ==>
                      && games == old(games) - {s}
                      && slots == old(slots)[s := FreshSlot])
                && (game.players != map[] ==> games == old(games) && slots == old(slots))
                && log == old(log)
                          + (if id in old(game.players) then [Emit(Everyone, RemovePlayer(id))] else [])
                          + (if game.players == map[] then [Emit(LobbyRoom, SlotStateUpdate(s, Empty))] else [])
    {
      if gameId.None? {
        return;
      }
      var s := gameId.value;
      var slot := slots[s];
      if slot.state == Joinable || slot.state == Full {
        // leavePendingGame is not part of this model.
      } else if slot.state == SettingUp {
        slots := slots[s := slot.(state := Empty)];
        log := log + [Emit(LobbyRoom, SlotStateUpdate(s, Empty))];
      } else if slot.state == InProgress {
        LeaveRunningGame(id, s);
      }
    }

    /** The in-progress branch of `onClientDisconnect`: the player leaves the
        game running in slot `s`; a game left with no players is deleted and
        its slot replaced by a fresh one. */
    method LeaveRunningGame(id: ConnId, s: SlotId)
      requires Valid() && s in games
      modifies this, games[s]
      ensures Valid()
      ensures var game := old(games[s]);
              && game.players == old(game.players) - {id}
              && game.bombs == old(game.bombs) && game.numPlayersAlive == old(game.numPlayersAlive)
              && (game.players == map[] ==>
                    && games == old(games) - {s}
                    && slots == old(slots)[s := FreshSlot])
              && (game.players != map[] ==> games == old(games) && slots == old(slots))
              && log == old(log)
                        + (if id in old(game.players) then [Emit(Everyone, RemovePlayer(id))] else [])
                        + (if game.players == map[] then [Emit(LobbyRoom, SlotStateUpdate(s, Empty))] else [])
    {
      var game := games[s];
      RemoveFromGame(id, s);
      if game.players == map[] {
        RetireSlot(s);
      }
    }

    /** `delete game.players[id]`, announced to everyone, when the game has
        that player. */
    method RemoveFromGame(id: ConnId, s: SlotId)
      requires Valid() && s in games
      modifies this`log, games[s]
      ensures Valid()
      ensures var game := games[s];
              && game.players == old(game.players) - {id}
              && game.bombs == old(game.bombs) && game.numPlayersAlive == old(game.numPlayersAlive)
              && log == old(log) + if id in old(game.players) then [Emit(Everyone, RemovePlayer(id))] else []
    {
      var game := games[s];
      if id in game.players {
        game.players := game.players - {id};
        log := log + [Emit(Everyone, RemovePlayer(id))];
        assert forall t :: t in games ==> KeyedById(games[t].players);
      }
    }

    /** A game left with no players is deleted and its slot replaced by a
        fresh, empty one, which the lobby is told about. */
    method RetireSlot(s: SlotId)
      requires Valid() && s in games
      modifies this`games, this`slots, this`log
      ensures Valid()
      ensures games == old(games) - {s} && slots == old(slots)[s := FreshSlot]
      ensures log == old(log) + [Emit(LobbyRoom, SlotStateUpdate(s, Empty))]
    {
      games := games - {s};
      slots := slots[s := FreshSlot];
      log := log + [Emit(LobbyRoom, SlotStateUpdate(s, Empty))];
    }

    /** `onStartGame` from a connection in slot `gameId`. */
    method OnStartGame(gameId: SlotId)
      requires Valid()
      requires gameId in slots && CanBeginRound(slots[gameId])
      modifies this
      ensures Valid()
      ensures gameId in games && fresh(games[gameId])
      ensures games == old(games)[gameId := games[gameId]]
      ensures slots == old(slots)[gameId := old(slots[gameId]).(state := InProgress)]
      ensures var slot := old(slots[gameId]);
              && games[gameId].State() == NewRound(Round(map[], map[], 0), slot.playerIds, mapInfo[slot.mapName])
              && log == old(log) + [Emit(LobbyRoom, SlotStateUpdate(gameId, InProgress)),
                                    Emit(Room(gameId), StartGameOnClient(slot.mapName, games[gameId].players))]
    {
      var pendingGame := slots[gameId];
      var game := OpenGame(gameId);
      game.BeginRound(pendingGame.playerIds, mapInfo[pendingGame.mapName]);
      log := log + [Emit(Room(gameId), StartGameOnClient(pendingGame.mapName, game.players))];
    }

    /** The first half of `onStartGame`: a new, empty game is registered
        under the slot, which goes in progress, and the lobby is told. */
    method OpenGame(gameId: SlotId) returns (game: Game)
      requires Valid()
      requires gameId in slots && CanBeginRound(slots[gameId])
      modifies this
      ensures Valid() && fresh(game)
      ensures game.State() == Round(map[], map[], 0)
      ensures games == old(games)[gameId := game]
      ensures slots == old(slots)[gameId := old(slots[gameId]).(state := InProgress)]
      ensures log == old(log) + [Emit(LobbyRoom, SlotStateUpdate(gameId, InProgress))]
    {
      game := new Game();
      var pendingGame := slots[gameId];
      games, slots := games[gameId := game], slots[gameId := pendingGame.(state := InProgress)];
      log := log + [Emit(LobbyRoom, SlotStateUpdate(gameId, InProgress))];
      forall s | s in games
        ensures s in slots && slots[s].state == InProgress && CanBeginRound(slots[s])
        ensures KeyedById(games[s].players)
      {
        if s != gameId {
          assert games[s] == old(games[s]) && slots[s] == old(slots[s]);
        }
      }
    }

    /** `onMovePlayer` from connection `id` in slot `gameId`. */
    method OnMovePlayer(id: ConnId, gameId: SlotId, x: int, y: int, facing: string)
      requires Valid() && gameId in games
      modifies games[gameId]
      ensures Valid()
      ensures var game := games[gameId];
              && game.bombs == old(game.bombs) && game.numPlayersAlive == old(game.numPlayersAlive)
              && (id !in old(game.players) ==> game.players == old(game.players))
              && (id in old(game.players) ==> game.players == old(game.players)[id := Moved(old(game.players[id]), x, y, facing)])
    {
      var game := games[gameId];
      if id !in game.players {
        return;
      }
      var movingPlayer := game.players[id];
      game.players := game.players[id := Moved(movingPlayer, x, y, facing)];
    }

    /** `onPlaceBomb`: stores the bomb at the tile centre under (id, bombId),
        announces it to the room and returns the fuse to fire later. */
    method OnPlaceBomb(id: ConnId, gameId: SlotId, x: int, y: int, bombId: BombId) returns (fuse: Fuse)
      requires Valid() && gameId in games && id in games[gameId].bombs
      modifies this, games[gameId]
      ensures Valid() && games == old(games) && slots == old(slots)
      ensures var game := games[gameId];
              var c := NearestTileCenter(x, y);
              && game.bombs == PlaceBombIn(old(game.bombs), id, Bomb(c.x, c.y, bombId))
              && game.players == old(game.players) && game.numPlayersAlive == old(game.numPlayersAlive)
              && log == old(log) + [Emit(Room(gameId), PlaceBomb(c.x, c.y, bombId))]
              && fuse == Fuse(game, gameId, id, bombId)
    {
      var game := games[gameId];
      var normalized := NearestTileCenter(x, y);
      game.bombs := PlaceBombIn(game.bombs, id, Bomb(normalized.x, normalized.y, bombId));
      fuse := Fuse(game, gameId, id, bombId);
      log := log + [Emit(Room(gameId), PlaceBomb(normalized.x, normalized.y, bombId))];
    }

    /** `endRound`: a new round with the slot's players and map. */
    method EndRound(gameId: SlotId)
      requires Valid() && gameId in games
      modifies this, games[gameId]
      ensures Valid() && games == old(games) && slots == old(slots)
      ensures games[gameId].State() == NewRound(old(games[gameId].State()), slots[gameId].playerIds, mapInfo[slots[gameId].mapName])
      ensures log == old(log) + [Emit(Room(gameId), Restart)]
    {
      var game := games[gameId];
      var gameMetadata := slots[gameId];
      game.BeginRound(gameMetadata.playerIds, mapInfo[gameMetadata.mapName]);
      log := log + [Emit(Room(gameId), Restart)];
    }

    /** `handlePlayerDeath(id, gameId)`. */
    method HandlePlayerDeath(id: ConnId, gameId: SlotId)
      requires Valid() && gameId in games
      modifies this, games[gameId]
      ensures Valid() && games == old(games) && slots == old(slots)
      ensures games[gameId].State() == AfterDeath(old(games[gameId].State()), slots[gameId].playerIds, mapInfo[slots[gameId].mapName])
      ensures log == old(log) + DeathEvents(old(games[gameId].State()), id, gameId)
    {
      log := log + [Emit(Room(gameId), KillPlayer(id))];
      var game := games[gameId];
      game.numPlayersAlive := game.numPlayersAlive - 1;
      if game.numPlayersAlive == 1 {
        EndRound(gameId);
      }
    }

    /** The fuse callback, corrected: the bomb entry is deleted if it is still
        there and the detonation is announced; a bomb that has vanished (its
        owner's table was reset by a new round) detonates with no effect.
        `blast` is what the bomb's detonation over the captured game reports,
        so it names only players of that game. Each killed player is marked
        dead in the captured game, and its death is handled in the game
        running in the slot now, which is another game once a second
        `onStartGame` has replaced the captured one. */
    method FireFuse(f: Fuse, blast: Blast)
      requires Valid()
      requires forall k :: k in blast.killed ==> k in f.game.players
      requires |blast.killed| > 0 ==> f.gameId in games
      modifies this, f.game, if f.gameId in games then {games[f.gameId]} else {}
      ensures Valid() && games == old(games) && slots == old(slots)
      ensures var taken := TakeBomb(old(f.game.bombs), f.owner, f.bombId);
              taken.0.None? ==>
                && f.game.State() == old(f.game.State())
                && (f.gameId in games ==> unchanged(games[f.gameId]))
                && log == old(log) + [Emit(Room(f.gameId), Detonate([], f.bombId))]
      ensures var taken := TakeBomb(old(f.game.bombs), f.owner, f.bombId);
              var res := ApplyKills(old(f.game.State()).(bombs := taken.1), blast.killed,
                                    RestartIds(f.gameId), RestartSpawns(f.gameId), f.gameId);
              taken.0.Some? && (f.gameId !in games || games[f.gameId] == f.game) ==>
                && f.game.State() == res.0
                && log == old(log) + [Emit(Room(f.gameId), Detonate(blast.explosions, f.bombId))] + res.1
      ensures var taken := TakeBomb(old(f.game.bombs), f.owner, f.bombId);
              taken.0.Some? && f.gameId in games && games[f.gameId] != f.game ==>
                var res := ApplyKillsApart(old(f.game.State()).(bombs := taken.1), old(games[f.gameId].State()),
                                           blast.killed, RestartIds(f.gameId), RestartSpawns(f.gameId), f.gameId);
                && f.game.State() == res.0
                && games[f.gameId].State() == res.1
                && log == old(log) + [Emit(Room(f.gameId), Detonate(blast.explosions, f.bombId))] + res.2
    {
      var game := f.game;
      var taken := TakeBomb(game.bombs, f.owner, f.bombId);
      if taken.0.None? {
        log := log + [Emit(Room(f.gameId), Detonate([], f.bombId))];
        return;
      }
      game.bombs := taken.1;
      log := log + [Emit(Room(f.gameId), Detonate(blast.explosions, f.bombId))];
      KillAll(game, f.gameId, blast.killed, RestartIds(f.gameId), RestartSpawns(f.gameId));
    }

    /** `game.players[k].alive = false` on the game the fuse captured. */
    method MarkPlayerDead(game: Game, k: ConnId)
      requires Valid() && k in game.players
      modifies game
      ensures Valid()
      ensures game.State() == MarkDead(old(game.State()), k)
    {
      game.players := game.players[k := game.players[k].(alive := false)];
      assert forall s :: s in games ==> KeyedById(games[s].players);
    }

    /** One step of the fuse's kill loop: mark the player dead in the captured
        game, then handle its death in the game running in slot `gameId`. */
    method ApplyKill(game: Game, gameId: SlotId, k: ConnId, ghost ids: seq<ConnId>, ghost spawns: seq<Point>)
      requires Valid() && gameId in games && k in game.players
      requires ids == slots[gameId].playerIds && spawns == mapInfo[slots[gameId].mapName]
      modifies this, game, games[gameId]
      ensures Valid() && games == old(games) && slots == old(slots)
      ensures games[gameId] == game ==>
                var dead := MarkDead(old(game.State()), k);
                && game.State() == AfterDeath(dead, ids, spawns)
                && log == old(log) + DeathEvents(dead, k, gameId)
      ensures games[gameId] != game ==>
                && game.State() == MarkDead(old(game.State()), k)
                && games[gameId].State() == AfterDeath(old(games[gameId].State()), ids, spawns)
                && log == old(log) + DeathEvents(old(games[gameId].State()), k, gameId)
    {
      MarkPlayerDead(game, k);
      HandlePlayerDeath(k, gameId);
    }

    /** The fuse's `killedPlayers.forEach`: mark each dead, then handle the
        death, in list order; `ids` and `spawns` are the slot's restart plan.
        While `game` still runs in its slot both happen to it (`ApplyKills`);
        otherwise the deaths are handled in the slot's new game
        (`ApplyKillsApart`). */
    method KillAll(game: Game, gameId: SlotId, killed: seq<ConnId>, ghost ids: seq<ConnId>, ghost spawns: seq<Point>)
      requires Valid() && |ids| <= |spawns|
      requires forall k :: k in killed ==> k in game.players
      requires |killed| > 0 ==>
                 && gameId in games
                 && ids == slots[gameId].playerIds && spawns == mapInfo[slots[gameId].mapName]
      modifies this, game, if gameId in games then {games[gameId]} else {}
      ensures Valid() && games == old(games) && slots == old(slots)
      ensures gameId !in games || games[gameId] == game ==>
                var res := ApplyKills(old(game.State()), killed, ids, spawns, gameId);
                game.State() == res.0 && log == old(log) + res.1
      ensures gameId in games && games[gameId] != game ==>
                var res := ApplyKillsApart(old(game.State()), old(games[gameId].State()), killed, ids, spawns, gameId);
                game.State() == res.0 && games[gameId].State() == res.1 && log == old(log) + res.2
    {
      ghost var cap0 := game.State();
      ghost var same := gameId !in games || games[gameId] == game;
      ghost var cur0 := if same then cap0 else games[gameId].State();
      var i := 0;
      assert killed[..0] == [];
      while i < |killed|
        invariant 0 <= i <= |killed|
        invariant Valid() && games == old(games) && slots == old(slots)
        invariant KillsDone(game, gameId, killed[..i], ids, spawns, same, cap0, cur0, old(log))
      {
        KillNext(game, gameId, killed, i, ids, spawns, same, cap0, cur0, old(log));
        i := i + 1;
      }
      assert killed[..i] == killed;
    }

    /** The kill loop has handled the kills `ks`: by `ApplyKills` on `game`
        when `same` (it still runs in its slot), by `ApplyKillsApart` on
        `game` and the slot's game otherwise. */
    ghost predicate KillsDone(game: Game, gameId: SlotId, ks: seq<ConnId>, ids: seq<ConnId>, spawns: seq<Point>,
                              same: bool, cap0: Round, cur0: Round, log0: seq<Event>)
      reads this, game, games.Values
    {
      && |ids| <= |spawns| && (forall k :: k in ks ==> k in cap0.players)
      && (same ==>
            var done := ApplyKills(cap0, ks, ids, spawns, gameId);
            game.State() == done.0 && log == log0 + done.1)
      && (!same ==>
            && gameId in games
            && var done := ApplyKillsApart(cap0, cur0, ks, ids, spawns, gameId);
               game.State() == done.0 && games[gameId].State() == done.1 && log == log0 + done.2)
    }

    /** Body of the kill loop: the kills of `killed[..i]` are done; handle
        `killed[i]`. `cap0` and `cur0` are the captured and the running game
        before the loop. */
    method KillNext(game: Game, gameId: SlotId, killed: seq<ConnId>, i: nat,
                    ghost ids: seq<ConnId>, ghost spawns: seq<Point>, ghost same: bool,
                    ghost cap0: Round, ghost cur0: Round, ghost log0: seq<Event>)
      requires Valid() && |ids| <= |spawns| && i < |killed|
      requires forall k :: k in killed ==> k in cap0.players
      requires gameId in games && same == (games[gameId] == game)
      requires ids == slots[gameId].playerIds && spawns == mapInfo[slots[gameId].mapName]
      requires KillsDone(game, gameId, killed[..i], ids, spawns, same, cap0, cur0, log0)
      modifies this, game, games[gameId]
      ensures Valid() && games == old(games) && slots == old(slots)
      ensures KillsDone(game, gameId, killed[..i + 1], ids, spawns, same, cap0, cur0, log0)
    {
      if games[gameId] == game {
        KillNextInPlace(game, gameId, killed, i, ids, spawns, cap0, log0);
      } else {
        KillNextApart(game, gameId, killed, i, ids, spawns, cap0, cur0, log0);
      }
    }

    /** The loop body while the captured game still runs in its slot. */
    method KillNextInPlace(game: Game, gameId: SlotId, killed: seq<ConnId>, i: nat,
                           ghost ids: seq<ConnId>, ghost spawns: seq<Point>, ghost cap0: Round, ghost log0: seq<Event>)
      requires Valid() && |ids| <= |spawns| && i < |killed|
      requires forall k :: k in killed ==> k in cap0.players
      requires gameId in games && games[gameId] == game
      requires ids == slots[gameId].playerIds && spawns == mapInfo[slots[gameId].mapName]
      requires var done := ApplyKills(cap0, killed[..i], ids, spawns, gameId);
               game.State() == done.0 && log == log0 + done.1
      modifies this, game
      ensures Valid() && games == old(games) && slots == old(slots)
      ensures var done := ApplyKills(cap0, killed[..i + 1], ids, spawns, gameId);
              game.State() == done.0 && log == log0 + done.1
    {
      ghost var prev := ApplyKills(cap0, killed[..i], ids, spawns, gameId);
      ApplyKillsSnoc(cap0, killed, i, ids, spawns, gameId);
      ghost var dead := MarkDead(prev.0, killed[i]);
      ApplyKill(game, gameId, killed[i], ids, spawns);
      assert game.State() == AfterDeath(dead, ids, spawns) && log == log0 + (prev.1 + DeathEvents(dead, killed[i], gameId));
    }

    /** The loop body once a second `onStartGame` has replaced the captured
        game: the death is marked in `game` and handled in the slot's game. */
    method KillNextApart(game: Game, gameId: SlotId, killed: seq<ConnId>, i: nat,
                         ghost ids: seq<ConnId>, ghost spawns: seq<Point>,
                         ghost cap0: Round, ghost cur0: Round, ghost log0: seq<Event>)
      requires Valid() && |ids| <= |spawns| && i < |killed|
      requires forall k :: k in killed ==> k in cap0.players
      requires gameId in games && games[gameId] != game
      requires ids == slots[gameId].playerIds && spawns == mapInfo[slots[gameId].mapName]
      requires var done := ApplyKillsApart(cap0, cur0, killed[..i], ids, spawns, gameId);
               game.State() == done.0 && games[gameId].State() == done.1 && log == log0 + done.2
      modifies this, game, games[gameId]
      ensures Valid() && games == old(games) && slots == old(slots)
      ensures var done := ApplyKillsApart(cap0, cur0, killed[..i + 1], ids, spawns, gameId);
              game.State() == done.0 && games[gameId].State() == done.1 && log == log0 + done.2
    {
      ApplyKillsApartSnoc(cap0, cur0, killed, i, ids, spawns, gameId);
      ApplyKill(game, gameId, killed[i], ids, spawns);
    }

    /** All running games' players, by slot. */
    ghost function View(): map<SlotId, map<ConnId, Player>>
      reads this, games.Values
    {
      PlayersOf(games)
    }

    /** `broadcastingLoop`: one position snapshot per alive player of every
        running game, to that game's room, in unspecified order. */
    method BroadcastingLoop()
      requires Valid()
      modifies this
      ensures Valid() && games == old(games) && slots == old(slots)
      ensures |log| >= |old(log)| && log[..|old(log)|] == old(log)
      ensures multiset(log[|old(log)|..]) == multiset(AliveSnapshots(View()))
    {
      var emitted := SnapshotGames(games);
      log := log + emitted;
      assert log[..|old(log)|] == old(log);
      assert log[|old(log)|..] == emitted;
    }
  }

  /** The players of each game, by slot. */
  ghost function PlayersOf(gs: map<SlotId, Game>): map<SlotId, map<ConnId, Player>>
    reads gs.Values
  {
    map s | s in gs :: gs[s].players
  }

  /** The nested for-in loops of `broadcastingLoop`: games, then the players
      of each, emitting the alive ones' snapshots to the game's room. */
  method SnapshotGames(gs: map<SlotId, Game>) returns (emitted: seq<Event>)
    requires forall s :: s in gs ==> KeyedById(gs[s].players)
    ensures multiset(emitted) == multiset(AliveSnapshots(PlayersOf(gs)))
  {
    ghost var view := PlayersOf(gs);
    emitted := [];
    var rest := gs.Keys;
    while rest != {}
      invariant rest <= gs.Keys
      invariant multiset(emitted) == multiset(AliveSnapshots(view - rest))
      decreases rest
    {
      var g :| g in rest;
      var game := gs[g];
      var snapshots := EmitSnapshots(game.players, Room(g), true);
      assert view - (rest - {g}) == (view - rest)[g := game.players];
      AliveSnapshotsAdd(view - rest, g, game.players);
      emitted := emitted + snapshots;
      rest := rest - {g};
    }
    assert view - rest == view;
  }

  /** The snapshots of every alive player of every game, each to its room. */
  function AliveSnapshots(view: map<SlotId, map<ConnId, Player>>): set<Event>
  {
    set g, k | g in view && k in view[g] && view[g][k].alive :: MoveSnapshot(Room(g), view[g][k])
  }

  lemma AliveSnapshotsAdd(view: map<SlotId, map<ConnId, Player>>, g: SlotId, ps: map<ConnId, Player>)
    requires g !in view
    ensures multiset(AliveSnapshots(view[g := ps])) == multiset(AliveSnapshots(view)) + multiset(Snapshots(ps, Room(g), true))
  {
    var grown := view[g := ps];
    var a := AliveSnapshots(view);
    var b := Snapshots(ps, Room(g), true);
    forall e | e in AliveSnapshots(grown) ensures e in a + b {
      var h, k :| h in grown && k in grown[h] && grown[h][k].alive && e == MoveSnapshot(Room(h), grown[h][k]);
      if h == g { assert k in ps && e == MoveSnapshot(Room(g), ps[k]); }
      else { assert h in view && k in view[h]; }
    }
    forall e | e in a + b ensures e in AliveSnapshots(grown) {
      if e in a {
        var h, k :| h in view && k in view[h] && view[h][k].alive && e == MoveSnapshot(Room(h), view[h][k]);
        assert h in grown && grown[h] == view[h];
      } else {
        var k :| k in ps && ps[k].alive && e == MoveSnapshot(Room(g), ps[k]);
        assert g in grown && grown[g] == ps;
      }
    }
    assert AliveSnapshots(grown) == a + b;
    forall e | e in a ensures e !in b {
      var h, k :| h in view && k in view[h] && view[h][k].alive && e == MoveSnapshot(Room(h), view[h][k]);
      assert e.to == Room(h) && h != g;
    }
    DisjointUnionMultiset(a, b);
  }

  lemma DisjointUnionMultiset<T>(a: set<T>, b: set<T>)
    requires a !! b
    ensures multiset(a + b) == multiset(a) + multiset(b)
  {
    assert forall x :: multiset(a + b)[x] == (multiset(a) + multiset(b))[x];
  }

  /** Each alive player of each running game gets exactly one snapshot per
      broadcast, and a dead player none. */
  lemma BroadcastExactlyOnce(view: map<SlotId, map<ConnId, Player>>, emitted: seq<Event>, g: SlotId, k: ConnId)
    requires forall s :: s in view ==> KeyedById(view[s])
    requires g in view && k in view[g]
    requires multiset(emitted) == multiset(AliveSnapshots(view))
    ensures multiset(emitted)[MoveSnapshot(Room(g), view[g][k])] == if view[g][k].alive then 1 else 0
    ensures !view[g][k].alive ==> forall e :: e in emitted && e.to == Room(g) ==> !(e.msg.MovePlayer? && e.msg.id == k)
  {
    var all := AliveSnapshots(view);
    if view[g][k].alive {
      assert MoveSnapshot(Room(g), view[g][k]) in all;
    } else {
      forall e | e in emitted && e.to == Room(g) ensures !(e.msg.MovePlayer? && e.msg.id == k) {
        assert e in multiset(emitted);
        assert e in all;
        var h, j :| h in view && j in view[h] && view[h][j].alive && e == MoveSnapshot(Room(h), view[h][j]);
        assert h == g;
      }
      assert MoveSnapshot(Room(g), view[g][k]) !in all;
    }
  }
}
