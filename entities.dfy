/** Values shared by both versions of the bomb-arena server: players, bombs,
    spawn points, the tile geometry, per-owner bomb tables and the events the
    server emits to its socket connections. */
module Entities {

  /** Pixel size of one map tile. */
  const TILE_SIZE: int := 40

  /** Opaque id the transport gives each connection; also the player key. */
  type ConnId = string
  /** Key of a lobby slot (an object key, hence a string); also the socket
      room of the match it hosts. */
  type SlotId = string
  /** Bomb id chosen by the client that places it. */
  type BombId = int

  datatype Option<T> = None | Some(value: T)

  /** A spawn location, in tile coordinates. */
  datatype Point = Point(x: int, y: int)

  /** A player as the server keeps it; `x` and `y` are pixels. */
  datatype Player = Player(id: ConnId, x: int, y: int, facing: string, alive: bool, spawnPoint: Point)

  /** A placed bomb, at a tile centre in pixels. */
  datatype Bomb = Bomb(x: int, y: int, id: BombId)

  /** Bombs of one owner, by bomb id, and the tables of all owners. */
  type BombTable = map<BombId, Bomb>
  type BombTables = map<ConnId, BombTable>

  /** States of a lobby slot. */
  datatype SlotState = Empty | SettingUp | Joinable | Full | InProgress

  /** Who an emitted event goes to. */
  datatype Target =
    | Everyone                 // socket.sockets.emit
    | Room(slot: SlotId)       // socket.sockets.in(slot).emit
    | Others(conn: ConnId)     // client.broadcast.emit
    | Sender(conn: ConnId)     // client.emit
    | LobbyRoom                // Lobby.broadcastSlotStateUpdate

  /** Outbound wire messages. */
  datatype Message =
    | SlotStateUpdate(slot: SlotId, state: SlotState)
    | StartGameOnClient(mapName: string, players: map<ConnId, Player>)
    | NewPlayer(player: Player)
    | AssignId(x: int, y: int, id: ConnId)
    | RemovePlayer(id: ConnId)
    | MovePlayer(id: ConnId, x: int, y: int, facing: string)
    | PlaceBomb(bombX: int, bombY: int, bombId: BombId)
    | Detonate(explosions: seq<Point>, bombId: BombId)
    | KillPlayer(id: ConnId)
    | Restart

  datatype Event = Emit(to: Target, msg: Message)

  /** The player the `Player` constructor builds at a spawn point: the spawn
      tile scaled to pixels, facing "down", alive, remembering its spawn. */
  function SpawnPlayer(id: ConnId, sp: Point): Player
  {
    Player(id, sp.x * TILE_SIZE, sp.y * TILE_SIZE, "down", true, sp)
  }

  /** A "move player" update overwrites position and facing only. */
  function Moved(p: Player, x: int, y: int, facing: string): Player
  {
    p.(x := x, y := y, facing := facing)
  }

  /** Every player is stored under its own id. */
  predicate KeyedById(ps: map<ConnId, Player>)
  {
    forall k :: k in ps ==> ps[k].id == k
  }

  // ---------------------------------------------------------------------------
  // Tile geometry

  /** Centre of the tile containing pixel coordinate `px` (floor division). */
  function TileCenter(px: int): int
  {
    (px / TILE_SIZE) * TILE_SIZE + TILE_SIZE / 2
  }

  /** Map.findNearestTileCenter: the centre of the tile holding (px, py). */
  function NearestTileCenter(px: int, py: int): Point
  {
    Point(TileCenter(px), TileCenter(py))
  }

  /** The centre lies in the same tile as the pixel, half a tile in. */
  lemma TileCenterInTile(px: int)
    ensures TileCenter(px) / TILE_SIZE == px / TILE_SIZE
    ensures TileCenter(px) % TILE_SIZE == TILE_SIZE / 2
    ensures TileCenter(px) - TILE_SIZE / 2 <= px < TileCenter(px) + TILE_SIZE / 2
  {
    var q := px / TILE_SIZE;
    assert TileCenter(px) == q * TILE_SIZE + 20;
    assert q * TILE_SIZE <= px < q * TILE_SIZE + TILE_SIZE;
    DivOfTileOffset(q, 20);
  }

  /** Normalising an already normalised coordinate changes nothing. */
  lemma TileCenterIdempotent(px: int)
    ensures TileCenter(TileCenter(px)) == TileCenter(px)
  {
    TileCenterInTile(px);
  }

  /** Two pixels snap to the same centre exactly when they lie in the same tile. */
  lemma SameTileSameCenter(px: int, qx: int)
    ensures TileCenter(px) == TileCenter(qx) <==> px / TILE_SIZE == qx / TILE_SIZE
  {
    TileCenterInTile(px);
    TileCenterInTile(qx);
  }

  lemma DivOfTileOffset(q: int, r: int)
    requires 0 <= r < TILE_SIZE
    ensures (q * TILE_SIZE + r) / TILE_SIZE == q
    ensures (q * TILE_SIZE + r) % TILE_SIZE == r
  {
  }

  // ---------------------------------------------------------------------------
  // Bomb tables keyed by (owner, bomb id)

  /** `bombs[owner][b.id] = b`; the owner's table must exist. */
  function PlaceBombIn(t: BombTables, owner: ConnId, b: Bomb): BombTables
    requires owner in t
  {
    t[owner := t[owner][b.id := b]]
  }

  /** Looks the bomb up and deletes its entry if it is there; a vanished bomb
      or owner table leaves the tables as they are. */
  function TakeBomb(t: BombTables, owner: ConnId, id: BombId): (Option<Bomb>, BombTables)
  {
    if owner in t && id in t[owner] then (Some(t[owner][id]), t[owner := t[owner] - {id}])
    else (None, t)
  }

  /** Placing then taking a bomb hands back that bomb and leaves every other
      entry as it was; if the id was new the tables are restored exactly. */
  lemma TakeAfterPlace(t: BombTables, owner: ConnId, b: Bomb)
    requires owner in t
    ensures TakeBomb(PlaceBombIn(t, owner, b), owner, b.id) == (Some(b), t[owner := t[owner] - {b.id}])
    ensures b.id !in t[owner] ==> TakeBomb(PlaceBombIn(t, owner, b), owner, b.id).1 == t
  {
    var placed := PlaceBombIn(t, owner, b);
    assert placed[owner] - {b.id} == t[owner] - {b.id};
    assert placed[owner := t[owner] - {b.id}] == t[owner := t[owner] - {b.id}];
    if b.id !in t[owner] {
      assert t[owner] - {b.id} == t[owner];
    }
  }

  /** A bomb entry is deleted at most once: a second take finds nothing and
      changes nothing, and after a take the entry is gone. */
  lemma TakeBombOnce(t: BombTables, owner: ConnId, id: BombId)
    ensures var (_, rest) := TakeBomb(t, owner, id);
            !(owner in rest && id in rest[owner]) && TakeBomb(rest, owner, id) == (None, rest)
    ensures TakeBomb(t, owner, id).0.Some? <==> owner in t && id in t[owner]
    ensures forall o :: o in t && o != owner ==> o in TakeBomb(t, owner, id).1 && TakeBomb(t, owner, id).1[o] == t[o]
  {
  }

  // ---------------------------------------------------------------------------
  // Position snapshots

  /** The "move player" event for one player. */
  function MoveSnapshot(to: Target, p: Player): Event
  {
    Emit(to, MovePlayer(p.id, p.x, p.y, p.facing))
  }

  /** One snapshot per player of `ps` (only the alive ones when `aliveOnly`). */
  function Snapshots(ps: map<ConnId, Player>, to: Target, aliveOnly: bool): set<Event>
  {
    set k | k in ps && (ps[k].alive || !aliveOnly) :: MoveSnapshot(to, ps[k])
  }

  /** Emits the snapshots of `ps` in an unspecified key order (a for-in loop). */
  method EmitSnapshots(ps: map<ConnId, Player>, to: Target, aliveOnly: bool) returns (emitted: seq<Event>)
    requires KeyedById(ps)
    ensures multiset(emitted) == multiset(Snapshots(ps, to, aliveOnly))
  {
    emitted := [];
    var rest := ps.Keys;
    while rest != {}
      invariant rest <= ps.Keys
      invariant multiset(emitted) == multiset(Snapshots(ps - rest, to, aliveOnly))
      decreases rest
    {
      var k :| k in rest;
      var p := ps[k];
      SnapshotsStep(ps, rest, k, to, aliveOnly);
      if p.alive || !aliveOnly {
        emitted := emitted + [MoveSnapshot(to, p)];
      }
      rest := rest - {k};
    }
    assert ps - rest == ps;
  }

  /** Visiting one more key adds that player's snapshot, which was not there. */
  lemma SnapshotsStep(ps: map<ConnId, Player>, rest: set<ConnId>, k: ConnId, to: Target, aliveOnly: bool)
    requires KeyedById(ps) && k in rest && rest <= ps.Keys
    ensures var before := Snapshots(ps - rest, to, aliveOnly);
            var e := MoveSnapshot(to, ps[k]);
            && e !in before
            && multiset(Snapshots(ps - (rest - {k}), to, aliveOnly))
               == multiset(before) + (if ps[k].alive || !aliveOnly then multiset{e} else multiset{})
  {
    var done := ps - rest;
    var e := MoveSnapshot(to, ps[k]);
    assert ps - (rest - {k}) == done[k := ps[k]];
    SnapshotsAdd(done, k, ps[k], to, aliveOnly);
    forall f | f in Snapshots(done, to, aliveOnly) ensures f != e {
      var j :| j in done && (done[j].alive || !aliveOnly) && f == MoveSnapshot(to, done[j]);
      assert f.msg.id == j;
    }
    if ps[k].alive || !aliveOnly {
      MultisetAddFresh(Snapshots(done, to, aliveOnly), e);
    }
  }

  lemma SnapshotsAdd(ps: map<ConnId, Player>, k: ConnId, p: Player, to: Target, aliveOnly: bool)
    requires k !in ps
    ensures Snapshots(ps[k := p], to, aliveOnly)
         == Snapshots(ps, to, aliveOnly) + (if p.alive || !aliveOnly then {MoveSnapshot(to, p)} else {})
  {
    var grown := ps[k := p];
    forall e | e in Snapshots(grown, to, aliveOnly)
      ensures e in Snapshots(ps, to, aliveOnly) + (if p.alive || !aliveOnly then {MoveSnapshot(to, p)} else {})
    {
      var j :| j in grown && (grown[j].alive || !aliveOnly) && e == MoveSnapshot(to, grown[j]);
      if j != k { assert j in ps && e == MoveSnapshot(to, ps[j]); }
    }
    forall e | e in Snapshots(ps, to, aliveOnly) ensures e in Snapshots(grown, to, aliveOnly) {
      var j :| j in ps && (ps[j].alive || !aliveOnly) && e == MoveSnapshot(to, ps[j]);
      assert j in grown && grown[j] == ps[j];
    }
    if p.alive || !aliveOnly {
      assert k in grown && grown[k] == p;
    }
  }

  lemma MultisetAddFresh<T>(a: set<T>, e: T)
    requires e !in a
    ensures multiset(a + {e}) == multiset(a) + multiset{e}
  {
    assert forall x :: multiset(a + {e})[x] == (multiset(a) + multiset{e})[x];
  }

  /** Every player of `ps` gets exactly one snapshot if it qualifies and none
      otherwise. */
  lemma SnapshotsExactlyOnce(ps: map<ConnId, Player>, to: Target, aliveOnly: bool, emitted: seq<Event>, k: ConnId)
    requires KeyedById(ps) && k in ps
    requires multiset(emitted) == multiset(Snapshots(ps, to, aliveOnly))
    ensures multiset(emitted)[MoveSnapshot(to, ps[k])] == if ps[k].alive || !aliveOnly then 1 else 0
    ensures !(ps[k].alive || !aliveOnly) ==> forall e :: e in emitted ==> !(e.msg.MovePlayer? && e.msg.id == k)
  {
    var snaps := Snapshots(ps, to, aliveOnly);
    if !(ps[k].alive || !aliveOnly) {
      forall e | e in emitted ensures !(e.msg.MovePlayer? && e.msg.id == k) {
        assert e in multiset(emitted);
        assert e in snaps;
      }
      assert MoveSnapshot(to, ps[k]) !in snaps;
    } else {
      assert MoveSnapshot(to, ps[k]) in snaps;
    }
  }
}
