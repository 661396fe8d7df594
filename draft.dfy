/** The older single-match server: one table of players, one of bombs, and
    the spawn points kept as a first-in first-out pool that joins take from
    the front and disconnects give back at the end. */
module Draft {
  import opened Entities

  /** The draft's one spawn list (`spawnLocations[1]`), in tiles. */
  const InitialSpawns: seq<Point> := [Point(2, 5), Point(13, 1), Point(2, 1), Point(12, 6)]

  /** The draft's tables as one value. */
  datatype Tables = Tables(players: map<ConnId, Player>, bombs: BombTables, spawnPool: seq<Point>)

  /** `onNewPlayer` for connection `id`: the front spawn point is shifted off
      the pool, a player is built there and registered with an empty bomb
      table. */
  function Join(t: Tables, id: ConnId): Tables
    requires |t.spawnPool| > 0
  {
    var spawnPoint := t.spawnPool[0];
    Tables(t.players[id := SpawnPlayer(id, spawnPoint)], t.bombs[id := map[]], t.spawnPool[1..])
  }

  /** `onClientDisconnect` for connection `id`: its spawn point is pushed
      back at the end of the pool and its player deleted; its bomb table
      stays. */
  function Leave(t: Tables, id: ConnId): Tables
    requires id in t.players
  {
    Tables(t.players - {id}, t.bombs, t.spawnPool + [t.players[id].spawnPoint])
  }

  /** The "new player" messages a joining connection receives, one per
      player already registered. */
  function Roster(ps: map<ConnId, Player>, to: ConnId): set<Event>
  {
    set k | k in ps :: Emit(Sender(to), NewPlayer(ps[k]))
  }

  // ---------------------------------------------------------------------------
  // Spawn points held by the players

  /** The spawn points the players hold, with repetition. */
  ghost function HeldSpawns(ps: map<ConnId, Player>): multiset<Point>
    decreases |ps|
  {
    if ps == map[] then multiset{}
    else
      var k :| k in ps;
      multiset{ps[k].spawnPoint} + HeldSpawns(ps - {k})
  }

  /** Every spawn point of the draft is either in the pool or held by a
      player, exactly once overall. */
  ghost predicate Conserved(t: Tables)
  {
    multiset(t.spawnPool) + HeldSpawns(t.players) == multiset(InitialSpawns)
  }

  /** Taking any one player out of the count. */
  lemma {:induction false} HeldSpawnsRemove(ps: map<ConnId, Player>, k: ConnId)
    requires k in ps
    ensures HeldSpawns(ps) == multiset{ps[k].spawnPoint} + HeldSpawns(ps - {k})
    decreases |ps|
  {
    var j :| j in ps && HeldSpawns(ps) == multiset{ps[j].spawnPoint} + HeldSpawns(ps - {j});
    if j != k {
      var sj, sk := ps[j].spawnPoint, ps[k].spawnPoint;
      var both := ps - {j} - {k};
      calc {
        HeldSpawns(ps);
        multiset{sj} + HeldSpawns(ps - {j});
        { assert |ps - {j}| < |ps|;
          HeldSpawnsRemove(ps - {j}, k); }
        multiset{sj} + (multiset{sk} + HeldSpawns(both));
        multiset{sk} + (multiset{sj} + HeldSpawns(both));
        { assert |ps - {k}| < |ps|;
          HeldSpawnsRemove(ps - {k}, j);
          assert ps - {k} - {j} == both; }
        multiset{sk} + HeldSpawns(ps - {k});
      }
    }
  }

  /** One held spawn point per player. */
  lemma {:induction false} HeldSpawnsSize(ps: map<ConnId, Player>)
    ensures |HeldSpawns(ps)| == |ps|
    decreases |ps|
  {
    if ps != map[] {
      var k :| k in ps;
      HeldSpawnsRemove(ps, k);
      assert |ps - {k}| == |ps| - 1;
      HeldSpawnsSize(ps - {k});
    }
  }

  /** Replacing a player by one with the same spawn point keeps the count. */
  lemma HeldSpawnsReplace(ps: map<ConnId, Player>, k: ConnId, p: Player)
    requires k in ps && p.spawnPoint == ps[k].spawnPoint
    ensures HeldSpawns(ps[k := p]) == HeldSpawns(ps)
  {
    calc {
      HeldSpawns(ps[k := p]);
      { HeldSpawnsRemove(ps[k := p], k); }
      multiset{p.spawnPoint} + HeldSpawns(ps[k := p] - {k});
      { assert ps[k := p] - {k} == ps - {k}; }
      multiset{ps[k].spawnPoint} + HeldSpawns(ps - {k});
      { HeldSpawnsRemove(ps, k); }
      HeldSpawns(ps);
    }
  }

  // ---------------------------------------------------------------------------
  // Properties of join and leave

  /** A join shifts exactly the front point off the pool and places the new
      player, facing "down", at that point scaled to pixels, with an empty
      bomb table; no other player entry changes. */
  lemma JoinTakesFront(t: Tables, id: ConnId)
    requires |t.spawnPool| > 0
    ensures var r := Join(t, id);
            var sp := t.spawnPool[0];
            && |r.spawnPool| == |t.spawnPool| - 1
            && t.spawnPool == [sp] + r.spawnPool
            && id in r.players
            && r.players[id] == Player(id, sp.x * 40, sp.y * 40, "down", true, sp)
            && id in r.bombs && r.bombs[id] == map[]
            && (forall k :: k != id ==> (k in r.players <==> k in t.players))
            && (forall k :: k in t.players && k != id ==> r.players[k] == t.players[k])
  {
    assert t.spawnPool == [t.spawnPool[0]] + t.spawnPool[1..];
  }

  /** A join keeps every spawn point accounted for, as long as the joining
      connection has no player yet. */
  lemma JoinConserves(t: Tables, id: ConnId)
    requires |t.spawnPool| > 0 && id !in t.players
    ensures Conserved(t) ==> Conserved(Join(t, id))
  {
    var r := Join(t, id);
    var sp := t.spawnPool[0];
    calc {
      multiset(r.spawnPool) + HeldSpawns(r.players);
      { HeldSpawnsRemove(r.players, id);
        assert r.players - {id} == t.players; }
      multiset(r.spawnPool) + (multiset{sp} + HeldSpawns(t.players));
      { assert t.spawnPool == [sp] + r.spawnPool; }
      multiset(t.spawnPool) + HeldSpawns(t.players);
    }
  }

  /** A disconnect removes only the leaving player and puts its spawn point
      at the back of the pool. */
  lemma LeaveReturnsSpawn(t: Tables, id: ConnId)
    requires id in t.players
    ensures var r := Leave(t, id);
            && |r.spawnPool| == |t.spawnPool| + 1
            && r.spawnPool[..|t.spawnPool|] == t.spawnPool
            && r.spawnPool[|t.spawnPool|] == t.players[id].spawnPoint
            && r.players.Keys == t.players.Keys - {id}
            && (forall k :: k in r.players ==> r.players[k] == t.players[k])
            && r.bombs == t.bombs
  {
    var r := Leave(t, id);
    assert r.spawnPool[..|t.spawnPool|] == t.spawnPool;
  }

  /** A disconnect keeps every spawn point accounted for. */
  lemma LeaveConserves(t: Tables, id: ConnId)
    requires id in t.players
    ensures Conserved(t) ==> Conserved(Leave(t, id))
  {
    var r := Leave(t, id);
    var sp := t.players[id].spawnPoint;
    calc {
      multiset(r.spawnPool) + HeldSpawns(r.players);
      multiset(t.spawnPool) + multiset{sp} + HeldSpawns(t.players - {id});
      { HeldSpawnsRemove(t.players, id); }
      multiset(t.spawnPool) + HeldSpawns(t.players);
    }
  }

  /** A join followed by the same connection's disconnect gives back the
      players as they were and a pool of the same length and the same
      points, the borrowed one moved from the front to the back; an empty
      bomb table is left behind. */
  lemma JoinThenLeave(t: Tables, id: ConnId)
    requires |t.spawnPool| > 0 && id !in t.players
    ensures var r := Leave(Join(t, id), id);
            && r.players == t.players
            && r.bombs == t.bombs[id := map[]]
            && r.spawnPool == t.spawnPool[1..] + [t.spawnPool[0]]
            && |r.spawnPool| == |t.spawnPool|
            && multiset(r.spawnPool) == multiset(t.spawnPool)
  {
    var j := Join(t, id);
    assert j.players - {id} == t.players;
    assert t.spawnPool == [t.spawnPool[0]] + t.spawnPool[1..];
  }

  /** Two distinct players both count towards the held spawn points. */
  lemma HeldSpawnsTwo(ps: map<ConnId, Player>, a: ConnId, b: ConnId)
    requires a in ps && b in ps && a != b
    ensures var sa, sb := ps[a].spawnPoint, ps[b].spawnPoint;
            HeldSpawns(ps)[sa] >= if sa == sb then 2 else 1
  {
    var rest := ps - {a};
    HeldSpawnsRemove(ps, a);
    HeldSpawnsRemove(rest, b);
    assert rest[b] == ps[b];
  }

  /** The initial spawn points are pairwise distinct. */
  lemma InitialSpawnsOnce(p: Point)
    ensures multiset(InitialSpawns)[p] <= 1
  {
    assert InitialSpawns == [Point(2, 5)] + [Point(13, 1)] + [Point(2, 1)] + [Point(12, 6)];
  }

  /** While every spawn point is accounted for, no two players share a spawn
      point. */
  lemma NoSharedSpawn(t: Tables, a: ConnId, b: ConnId)
    requires Conserved(t) && a in t.players && b in t.players && a != b
    ensures t.players[a].spawnPoint != t.players[b].spawnPoint
  {
    var sa := t.players[a].spawnPoint;
    HeldSpawnsTwo(t.players, a, b);
    InitialSpawnsOnce(sa);
    assert (multiset(t.spawnPool) + HeldSpawns(t.players))[sa] == multiset(InitialSpawns)[sa];
  }

  /** While every spawn point is accounted for, the pool is empty exactly
      when four players are registered: that is when a fifth join fails. */
  lemma PoolEmptyWhenFull(t: Tables)
    requires Conserved(t)
    ensures |t.spawnPool| + |t.players| == |InitialSpawns|
    ensures |t.spawnPool| == 0 <==> |t.players| == 4
  {
    HeldSpawnsSize(t.players);
    assert |multiset(t.spawnPool) + HeldSpawns(t.players)| == |multiset(InitialSpawns)|;
  }

  /** A move keeps every spawn point accounted for. */
  lemma MoveConserves(t: Tables, id: ConnId, x: int, y: int, facing: string)
    requires id in t.players && Conserved(t)
    ensures Conserved(t.(players := t.players[id := Moved(t.players[id], x, y, facing)]))
  {
    HeldSpawnsReplace(t.players, id, Moved(t.players[id], x, y, facing));
  }

  // ---------------------------------------------------------------------------
  // Loops over the player table

  /** The for-in loop of `onNewPlayer`: sends the joining connection `to`
      one "new player" message per registered player, in unspecified key
      order. */
  method AnnounceRoster(ps: map<ConnId, Player>, to: ConnId) returns (emitted: seq<Event>)
    requires KeyedById(ps)
    ensures multiset(emitted) == multiset(Roster(ps, to))
    ensures |emitted| == |ps|
  {
    emitted := [];
    var rest := ps.Keys;
    while rest != {}
      invariant rest <= ps.Keys
      invariant multiset(emitted) == multiset(Roster(ps - rest, to))
      invariant |emitted| == |ps - rest|
      decreases rest
    {
      var k :| k in rest;
      RosterStep(ps, rest, k, to);
      emitted := emitted + [Emit(Sender(to), NewPlayer(ps[k]))];
      rest := rest - {k};
    }
    assert ps - rest == ps;
  }

  /** Visiting one more key adds that player's message, which was not there. */
  lemma RosterStep(ps: map<ConnId, Player>, rest: set<ConnId>, k: ConnId, to: ConnId)
    requires KeyedById(ps) && k in rest && rest <= ps.Keys
    ensures multiset(Roster(ps - (rest - {k}), to))
         == multiset(Roster(ps - rest, to)) + multiset{Emit(Sender(to), NewPlayer(ps[k]))}
    ensures |ps - (rest - {k})| == |ps - rest| + 1
  {
    var done := ps - rest;
    var e := Emit(Sender(to), NewPlayer(ps[k]));
    assert ps - (rest - {k}) == done[k := ps[k]];
    assert k !in done;
    forall f | f in Roster(done[k := ps[k]], to) ensures f in Roster(done, to) + {e} {
      var j :| j in done[k := ps[k]] && f == Emit(Sender(to), NewPlayer(done[k := ps[k]][j]));
      if j != k { assert j in done; }
    }
    forall f | f in Roster(done, to) ensures f in Roster(done[k := ps[k]], to) && f != e {
      var j :| j in done && f == Emit(Sender(to), NewPlayer(done[j]));
      assert done[k := ps[k]][j] == done[j];
      assert f.msg.player.id == j;
    }
    assert e in Roster(done[k := ps[k]], to) by {
      assert k in done[k := ps[k]] && done[k := ps[k]][k] == ps[k];
    }
    assert Roster(ps - (rest - {k}), to) == Roster(done, to) + {e};
    MultisetAddFresh(Roster(done, to), e);
  }

  /** Every registered player is announced to the joining connection exactly
      once. */
  lemma RosterExactlyOnce(ps: map<ConnId, Player>, to: ConnId, emitted: seq<Event>, k: ConnId)
    requires k in ps
    requires multiset(emitted) == multiset(Roster(ps, to))
    ensures multiset(emitted)[Emit(Sender(to), NewPlayer(ps[k]))] == 1
  {
    assert Emit(Sender(to), NewPlayer(ps[k])) in Roster(ps, to);
  }

  // ---------------------------------------------------------------------------
  // The server

  /** A scheduled fuse of the draft: the bomb's owner and id. */
  datatype Fuse = Fuse(owner: ConnId, bombId: BombId)

  /** The draft server: its tables and everything emitted so far. */
  class Server {
    var players: map<ConnId, Player>
    var bombs: BombTables
    var spawnPool: seq<Point>
    var log: seq<Event>

    function State(): Tables
      reads this
    {
      Tables(players, bombs, spawnPool)
    }

    /** Players are stored under their own ids and each has a bomb table. */
    ghost predicate Valid()
      reads this
    {
      KeyedById(players) && players.Keys <= bombs.Keys
    }

    /** Start-up: no players or bombs, the full spawn list in the pool. */
    constructor ()
      ensures Valid() && Conserved(State())
      ensures players == map[] && bombs == map[] && spawnPool == InitialSpawns && log == []
    {
      players, bombs, spawnPool, log := map[], map[], InitialSpawns, [];
    }

    /** `onNewPlayer` from connection `id`; the pool must not be empty (the
        source leaves that case unhandled). */
    method OnNewPlayer(id: ConnId)
      requires Valid() && |spawnPool| > 0
      modifies this
      ensures Valid()
      ensures State() == Join(old(State()), id)
      ensures old(Conserved(State())) && id !in old(players) ==> Conserved(State())
      ensures var np := players[id];
              && |log| == |old(log)| + 2 + |old(players)|
              && log[..|old(log)| + 2] == old(log) + [Emit(Others(id), NewPlayer(np)), Emit(Sender(id), AssignId(np.x, np.y, id))]
              && multiset(log[|old(log)| + 2..]) == multiset(Roster(old(players), id))
    {
      ghost var before := State();
      if id !in players {
        JoinConserves(before, id);
      }
      var spawnPoint := spawnPool[0];
      var newPlayer := SpawnPlayer(id, spawnPoint);
      AnnounceJoin(id, newPlayer);
      players, bombs, spawnPool := players[id := newPlayer], bombs[id := map[]], spawnPool[1..];
      assert State() == Join(before, id);
    }

    /** The emits of `onNewPlayer`: the new player to the other connections,
        its id and position to the joining one, then the roster to it. */
    method AnnounceJoin(id: ConnId, newPlayer: Player)
      requires Valid()
      modifies this`log
      ensures |log| == |old(log)| + 2 + |players|
      ensures log[..|old(log)| + 2] == old(log) + [Emit(Others(id), NewPlayer(newPlayer)), Emit(Sender(id), AssignId(newPlayer.x, newPlayer.y, id))]
      ensures multiset(log[|old(log)| + 2..]) == multiset(Roster(players, id))
    {
      var announced := [Emit(Others(id), NewPlayer(newPlayer)), Emit(Sender(id), AssignId(newPlayer.x, newPlayer.y, id))];
      var roster := AnnounceRoster(players, id);
      log := log + announced + roster;
      assert log[..|old(log)| + 2] == old(log) + announced;
      assert log[|old(log)| + 2..] == roster;
    }

    /** `onClientDisconnect` of connection `id`, which must have joined. */
    method OnClientDisconnect(id: ConnId)
      requires Valid() && id in players
      modifies this
      ensures Valid()
      ensures State() == Leave(old(State()), id)
      ensures old(Conserved(State())) ==> Conserved(State())
      ensures log == old(log) + [Emit(Others(id), RemovePlayer(id))]
    {
      ghost var before := State();
      LeaveConserves(before, id);
      spawnPool, players := spawnPool + [players[id].spawnPoint], players - {id};
      assert State() == Leave(before, id);
      log := log + [Emit(Others(id), RemovePlayer(id))];
    }

    /** `onMovePlayer` from connection `id`, which must have joined: only the
        mover's position and facing change. */
    method OnMovePlayer(id: ConnId, x: int, y: int, facing: string)
      requires Valid() && id in players
      modifies this
      ensures Valid()
      ensures players == old(players)[id := Moved(old(players[id]), x, y, facing)]
      ensures bombs == old(bombs) && spawnPool == old(spawnPool) && log == old(log)
      ensures old(Conserved(State())) ==> Conserved(State())
    {
      ghost var before := State();
      var movingPlayer := players[id];
      players := players[id := Moved(movingPlayer, x, y, facing)];
      if Conserved(before) {
        MoveConserves(before, id, x, y, facing);
      }
    }

    /** `onPlaceBomb` from connection `id`: the bomb is stored at the centre
        of its tile under (id, bombId) and announced to everyone; the fuse to
        fire later is returned. */
    method OnPlaceBomb(id: ConnId, x: int, y: int, bombId: BombId) returns (fuse: Fuse)
      requires Valid() && id in bombs
      modifies this
      ensures Valid()
      ensures var c := NearestTileCenter(x, y);
              && bombs == PlaceBombIn(old(bombs), id, Bomb(c.x, c.y, bombId))
              && log == old(log) + [Emit(Everyone, PlaceBomb(c.x, c.y, bombId))]
      ensures players == old(players) && spawnPool == old(spawnPool)
      ensures fuse == Fuse(id, bombId)
    {
      var normalized := NearestTileCenter(x, y);
      bombs := PlaceBombIn(bombs, id, Bomb(normalized.x, normalized.y, bombId));
      fuse := Fuse(id, bombId);
      log := log + [Emit(Everyone, PlaceBomb(normalized.x, normalized.y, bombId))];
    }

    /** The fuse callback of `onPlaceBomb`: the bomb entry must still be
        there; it is deleted and the detonation, covering the tiles
        `explosions` that the bomb reports, is announced to everyone. */
    method FireFuse(f: Fuse, explosions: seq<Point>)
      requires Valid() && f.owner in bombs && f.bombId in bombs[f.owner]
      modifies this
      ensures Valid()
      ensures bombs == TakeBomb(old(bombs), f.owner, f.bombId).1
      ensures bombs.Keys == old(bombs).Keys && f.bombId !in bombs[f.owner]
      ensures players == old(players) && spawnPool == old(spawnPool)
      ensures log == old(log) + [Emit(Everyone, Detonate(explosions, f.bombId))]
    {
      bombs := bombs[f.owner := bombs[f.owner] - {f.bombId}];
      log := log + [Emit(Everyone, Detonate(explosions, f.bombId))];
    }

    /** `broadcastingLoop`: one position snapshot per registered player, to
        everyone, in unspecified order; no alive filter. */
    method BroadcastingLoop()
      requires Valid()
      modifies this`log
      ensures |log| >= |old(log)| && log[..|old(log)|] == old(log)
      ensures multiset(log[|old(log)|..]) == multiset(Snapshots(players, Everyone, false))
    {
      var emitted := EmitSnapshots(players, Everyone, false);
      log := log + emitted;
      assert log[..|old(log)|] == old(log);
      assert log[|old(log)|..] == emitted;
    }
  }
}
