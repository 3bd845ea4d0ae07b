/** The mining tracker: damage records keyed by cell, accrued by
    DamageTile and aged by the sweep at the end of Update. */
module Mining {
  import opened Tiles
  import opened TileDatabase
  import opened Placement

  /** Health left on a tile being mined, and the time since it was last hit. */
  datatype DamagedTile = DamagedTile(health: int, time: real)

  /** Records idle for longer than this are dropped. */
  const MaxIdleTime: real := 5.0

  /** Every record is for a cell of a w by h world. */
  ghost predicate KeysInBounds(w: int, h: int, m: map<Point, DamagedTile>)
  {
    forall p :: p in m ==> 0 <= p.x < w && 0 <= p.y < h
  }

  /** Every stored record still has health left. */
  ghost predicate AllHealthy(m: map<Point, DamagedTile>)
  {
    forall p :: p in m ==> m[p].health > 0
  }

  /** DamageTile does something at p: the cell is in bounds, holds a tile,
      and that tile's rule lets it be damaged there. */
  predicate Hits(db: TileDb, g: Grid, p: Point)
    requires g.Valid()
  {
    g.InBounds(p.x, p.y) && g.At(p.x, p.y).id != 0 &&
    db.canBeDamaged(g.At(p.x, p.y).id, p.x, p.y, g)
  }

  /** Health before a hit: the existing record's, or the tile type's base
      health for a tile not yet being mined. */
  function HealthBefore(db: TileDb, g: Grid, m: map<Point, DamagedTile>, p: Point): int
    requires g.Valid() && g.InBounds(p.x, p.y)
  {
    if p in m then m[p].health else db.health(g.At(p.x, p.y).id)
  }

  /** DamageTile(p, damage): the board and the records afterwards. A tile
      whose health drops to 0 or below is removed (RemoveTile) and loses
      its record; otherwise the record is stored with the lower health and
      its idle time reset. Only a hit that destroys the tile needs the cell
      to lie fuel + 1 cells inside the border, as RemoveTile does. */
  function DamageF(db: TileDb, b: Board, m: map<Point, DamagedTile>, p: Point, damage: int, fuel: nat)
    : (r: (Board, map<Point, DamagedTile>))
    requires b.grid.Valid()
    requires Hits(db, b.grid, p) && HealthBefore(db, b.grid, m, p) - damage <= 0 ==> b.grid.Inside(p.x, p.y, fuel + 1)
    ensures SameShape(b, r.0)
    ensures !Hits(db, b.grid, p) ==> r == (b, m)
    ensures Hits(db, b.grid, p) ==> (p in r.1 <==> HealthBefore(db, b.grid, m, p) - damage > 0)
    ensures r.0 != b ==> Hits(db, b.grid, p) && p !in r.1
    ensures forall q :: q != p ==> (q in r.1 <==> q in m)
    ensures forall q :: q != p && q in m ==> r.1[q] == m[q]
  {
    if !b.grid.InBounds(p.x, p.y) then (b, m)
    else
      var id := b.grid.At(p.x, p.y).id;
      if id == 0 then (b, m)
      else if !db.canBeDamaged(id, p.x, p.y, b.grid) then (b, m)
      else
        var rec := if p in m then m[p] else DamagedTile(db.health(id), 0.0);
        var hit := rec.(health := rec.health - damage, time := 0.0);
        if hit.health <= 0 then (RemoveF(db, b, p.x, p.y, fuel), m - {p})
        else (b, m[p := hit])
  }

  /** A hit never raises health: a record left behind holds the health it
      had before (or the base health) minus the damage, with its idle time
      reset, and it is positive. */
  lemma DamageLowersHealth(db: TileDb, b: Board, m: map<Point, DamagedTile>, p: Point, damage: int, fuel: nat)
    requires b.grid.Valid()
    requires Hits(db, b.grid, p) && HealthBefore(db, b.grid, m, p) - damage <= 0 ==> b.grid.Inside(p.x, p.y, fuel + 1)
    requires damage >= 0 && Hits(db, b.grid, p)
    ensures var r := DamageF(db, b, m, p, damage, fuel);
      p in r.1 ==>
        && r.1[p].health == HealthBefore(db, b.grid, m, p) - damage
        && 0 < r.1[p].health <= HealthBefore(db, b.grid, m, p)
        && r.1[p].time == 0.0
  {
  }

  /** Damage that uses up the remaining health removes the tile in the
      same call and drops its record; a tile that is not large is then
      empty. */
  lemma DamageDestroys(db: TileDb, b: Board, m: map<Point, DamagedTile>, p: Point, damage: int, fuel: nat)
    requires b.grid.Valid()
    requires Hits(db, b.grid, p) && HealthBefore(db, b.grid, m, p) - damage <= 0 ==> b.grid.Inside(p.x, p.y, fuel + 1)
    requires Hits(db, b.grid, p) && HealthBefore(db, b.grid, m, p) <= damage
    requires !db.isOverlay(0) && !db.isLarge(0) && !db.isLarge(b.grid.At(p.x, p.y).id)
    ensures var r := DamageF(db, b, m, p, damage, fuel);
      p !in r.1 && r.0 == RemoveF(db, b, p.x, p.y, fuel) && r.0.grid.At(p.x, p.y).id == 0
  {
    RemoveLeavesAir(db, b, p.x, p.y, fuel);
  }

  /** Every stored record has health left, before and after a hit. */
  lemma DamageKeepsHealthy(db: TileDb, b: Board, m: map<Point, DamagedTile>, p: Point, damage: int, fuel: nat)
    requires b.grid.Valid()
    requires Hits(db, b.grid, p) && HealthBefore(db, b.grid, m, p) - damage <= 0 ==> b.grid.Inside(p.x, p.y, fuel + 1)
    requires AllHealthy(m) && KeysInBounds(b.grid.w, b.grid.h, m)
    ensures var r := DamageF(db, b, m, p, damage, fuel);
      AllHealthy(r.1) && KeysInBounds(r.0.grid.w, r.0.grid.h, r.1)
  {
  }

  /** A stored record decides the next hit, whatever tile the cell holds
      now: with less health left in the record than the damage, the hit
      destroys the tile even when the damage is below that tile's own
      health. Records outlive GenerateWorld, so one left from the previous
      world decides the first hit on the new tile. */
  lemma StaleRecordDecides(db: TileDb, b: Board, m: map<Point, DamagedTile>, p: Point, damage: int, fuel: nat)
    requires b.grid.Valid() && Hits(db, b.grid, p) && b.grid.Inside(p.x, p.y, fuel + 1)
    requires p in m && m[p].health <= damage < db.health(b.grid.At(p.x, p.y).id)
    ensures var r := DamageF(db, b, m, p, damage, fuel);
      p !in r.1 && r.0 == RemoveF(db, b, p.x, p.y, fuel)
  {
  }

  // ---------------------------------------------------------------------
  // The decay sweep

  /** A record survives a sweep of `delta` when its idle time stays within
      the limit and its tile still exists. */
  predicate Survives(rec: DamagedTile, delta: real, id: u16)
  {
    rec.time + delta <= MaxIdleTime && id != 0
  }

  /** The records after one sweep: each ages by `delta`; those idle too
      long or whose tile is gone are dropped. The tile buffer is only read. */
  function Decay(g: Grid, m: map<Point, DamagedTile>, delta: real): (r: map<Point, DamagedTile>)
    requires g.Valid() && KeysInBounds(g.w, g.h, m)
    ensures r.Keys <= m.Keys
  {
    map p | p in m && Survives(m[p], delta, g.At(p.x, p.y).id) :: m[p].(time := m[p].time + delta)
  }

  lemma DecayKeepsHealthy(g: Grid, m: map<Point, DamagedTile>, delta: real)
    requires g.Valid() && KeysInBounds(g.w, g.h, m) && AllHealthy(m)
    ensures AllHealthy(Decay(g, m, delta)) && KeysInBounds(g.w, g.h, Decay(g, m, delta))
  {
  }

  function Sum(ds: seq<real>): real
  {
    if ds == [] then 0.0 else Sum(ds[..|ds| - 1]) + ds[|ds| - 1]
  }

  /** Every buffer of the run is a well-formed w by h grid. */
  ghost predicate SizedAs(gs: seq<Grid>, w: int, h: int)
  {
    forall i :: 0 <= i < |gs| ==> gs[i].Valid() && gs[i].w == w && gs[i].h == h
  }

  /** The records after consecutive sweeps of the given lengths, sweep i
      reading the buffer gs[i] as it stands at that tick: tiles may be
      placed and removed between ticks. */
  function Sweeps(w: int, h: int, gs: seq<Grid>, m: map<Point, DamagedTile>, ds: seq<real>): (r: map<Point, DamagedTile>)
    requires |gs| == |ds| && SizedAs(gs, w, h) && KeysInBounds(w, h, m)
    ensures r.Keys <= m.Keys
    decreases |ds|
  {
    if ds == [] then m
    else
      var n := |ds| - 1;
      Decay(gs[n], Sweeps(w, h, gs[..n], m, ds[..n]), ds[n])
  }

  /** A record that survives a run of sweeps with no hit in between keeps
      its health and has aged by their total length, which is within the
      limit; so one idle for longer than the limit in total is gone,
      whatever happens to the buffer between the sweeps. */
  lemma {:induction false} SweepsAge(w: int, h: int, gs: seq<Grid>, m: map<Point, DamagedTile>, ds: seq<real>, p: Point)
    requires |gs| == |ds| && SizedAs(gs, w, h) && KeysInBounds(w, h, m)
    ensures p in Sweeps(w, h, gs, m, ds) ==>
      && p in m
      && Sweeps(w, h, gs, m, ds)[p] == m[p].(time := m[p].time + Sum(ds))
      && (ds != [] ==> m[p].time + Sum(ds) <= MaxIdleTime)
    decreases |ds|
  {
    if ds != [] {
      var n := |ds| - 1;
      SweepsAge(w, h, gs[..n], m, ds[..n], p);
    }
  }

  lemma IdleRecordExpires(w: int, h: int, gs: seq<Grid>, m: map<Point, DamagedTile>, ds: seq<real>, p: Point)
    requires |gs| == |ds| && SizedAs(gs, w, h) && KeysInBounds(w, h, m)
    requires ds != [] && p in m && m[p].time + Sum(ds) > MaxIdleTime
    ensures p !in Sweeps(w, h, gs, m, ds)
  {
    SweepsAge(w, h, gs, m, ds, p);
  }
}
