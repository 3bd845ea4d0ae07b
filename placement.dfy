/** The tile placement engine as functions on values: SetTile, its 3x3
    neighbour pass, RemoveTile and the large-tile footprint writes. The
    class in module WorldGen runs the same steps on its array and is proved
    to produce exactly these values. */
module Placement {
  import opened Tiles
  import opened TileDatabase

  /** An entry handed to the overlay tile updater. */
  datatype OverlayRequest = OverlayRequest(x: int, y: int, id: u16)

  /** Everything tile placement changes: the tile buffer and the two
      queues it feeds (liquid updates, overlay updates). */
  datatype Board = Board(grid: Grid, liquidQueue: seq<Point>, overlayQueue: seq<OverlayRequest>)

  /** The wall id, wall state and liquid of a cell. */
  predicate SameBackground(t: Tile, t': Tile)
  {
    t.wallId == t'.wallId && t.wallState == t'.wallState && t.liquid == t'.liquid
  }

  /** `r` has the size of `b` (and is well formed when `b` is). */
  ghost predicate SameShape(b: Board, r: Board)
  {
    r.grid.w == b.grid.w && r.grid.h == b.grid.h && (b.grid.Valid() ==> r.grid.Valid())
  }

  /** `r` differs from `b` only in tile ids and tile states, and extends
      both of its queues. */
  ghost predicate Keeps(b: Board, r: Board)
  {
    && BackgroundKept(b.grid, r.grid)
    && b.liquidQueue <= r.liquidQueue
    && b.overlayQueue <= r.overlayQueue
  }

  /** `g'` has the size of `g` and differs from it only in tile ids and
      tile states. */
  ghost predicate BackgroundKept(g: Grid, g': Grid)
  {
    && g'.w == g.w && g'.h == g.h && (g.Valid() ==> g'.Valid())
    && forall a, c :: g.Valid() && g.InBounds(a, c) ==> SameBackground(g.At(a, c), g'.At(a, c))
  }

  // ---------------------------------------------------------------------
  // Large tiles

  /** A footprint cell after a large-tile write: the given id, and either
      the position code row * 10 + col truncated to a byte (placement) or
      0 (removal). */
  function Painted(t: Tile, id: u16, coded: bool, col: int, row: int): Tile
  {
    t.(id := id, state := if coded then (row * 10 + col) % 256 else 0)
  }

  /** Cell (a, c) after writing the sx by sy footprint anchored at `tl`. */
  function PaintF(tl: Point, sx: int, sy: int, id: u16, coded: bool): (int, int, Tile) -> Tile
  {
    (a, c, t) => if tl.x <= a < tl.x + sx && tl.y <= c < tl.y + sy then Painted(t, id, coded, a - tl.x, c - tl.y) else t
  }

  /** The buffer after writing the sx by sy footprint anchored at `tl`. */
  function Paint(g: Grid, tl: Point, sx: int, sy: int, id: u16, coded: bool): (r: Grid)
    requires g.Valid()
    ensures r.Valid() && r.w == g.w && r.h == g.h
  {
    Remap(g, PaintF(tl, sx, sy, id, coded))
  }

  /** Cell (a, b) is painted iff it lies in the rectangle, with its own
      column and row inside the footprint; every other cell is unchanged.
      Only the tile id and state of a painted cell change. */
  lemma PaintAt(g: Grid, tl: Point, sx: int, sy: int, id: u16, coded: bool, a: int, b: int)
    requires g.Valid() && g.InBounds(a, b)
    ensures Paint(g, tl, sx, sy, id, coded).At(a, b) ==
      if tl.x <= a < tl.x + sx && tl.y <= b < tl.y + sy
      then Painted(g.At(a, b), id, coded, a - tl.x, b - tl.y)
      else g.At(a, b)
  {
  }

  lemma PaintKeepsBackground(g: Grid, tl: Point, sx: int, sy: int, id: u16, coded: bool)
    requires g.Valid()
    ensures BackgroundKept(g, Paint(g, tl, sx, sy, id, coded))
  {
    forall a, c | g.InBounds(a, c)
      ensures SameBackground(g.At(a, c), Paint(g, tl, sx, sy, id, coded).At(a, c))
    {
      PaintAt(g, tl, sx, sy, id, coded, a, c);
    }
  }

  /** SetLargeTile: a no-op unless the id's data is LargeTileData. */
  function PlaceLarge(db: TileDb, g: Grid, x: int, y: int, id: u16): (r: Grid)
    requires g.Valid()
    ensures r.Valid() && r.w == g.w && r.h == g.h
  {
    match db.largeData(id)
    case None => g
    case Some(d) => Paint(g, d.topLeft(x, y, g), d.sizeX, d.sizeY, id, true)
  }

  /** RemoveLargeTile: a no-op unless the id's data is LargeTileData. */
  function RemoveLarge(db: TileDb, g: Grid, x: int, y: int, id: u16): (r: Grid)
    requires g.Valid()
    ensures r.Valid() && r.w == g.w && r.h == g.h
  {
    match db.largeData(id)
    case None => g
    case Some(d) => Paint(g, d.topLeft(x, y, g), d.sizeX, d.sizeY, 0, false)
  }

  // ---------------------------------------------------------------------
  // SetTile, its neighbour pass, and RemoveTile

  /** The 3x3 pass visits offset (OffsetX[k], OffsetY[k]) at step k: the
      column offset in the outer loop, the row offset in the inner one. */
  const OffsetX: seq<int> := [-1, -1, -1, 0, 0, 0, 1, 1, 1]
  const OffsetY: seq<int> := [-1, 0, 1, -1, 0, 1, -1, 0, 1]

  lemma OffsetsInRange()
    ensures |OffsetX| == |OffsetY| == 9
    ensures forall m :: 0 <= m < 9 ==> -1 <= OffsetX[m] <= 1 && -1 <= OffsetY[m] <= 1
  {
  }

  /** A step whose rule keeps the tile: write its recomputed state and,
      for an overlay tile, revert it to its base tile when that state is
      255 or queue it for the overlay updater. */
  function Rewrite(db: TileDb, b: Board, cx: int, cy: int): (r: Board)
    requires b.grid.Valid() && b.grid.InBounds(cx, cy)
    ensures SameShape(b, r)
  {
    var g := b.grid;
    var t := g.At(cx, cy);
    var st := db.updatedState(t.id, cx, cy, g);
    if db.isOverlay(t.id) && st == 255 then
      b.(grid := g.Set(cx, cy, t.(state := st, id := db.baseTileId(t.id))))
    else if db.isOverlay(t.id) then
      b.(grid := g.Set(cx, cy, t.(state := st)),
         overlayQueue := b.overlayQueue + [OverlayRequest(cx, cy, t.id)])
    else
      b.(grid := g.Set(cx, cy, t.(state := st)))
  }

  /** One step of the neighbour pass at cell (cx, cy): queue a liquid
      update when the cell holds liquid; then remove the tile when its rule
      says so (while fuel lasts), or else rewrite it. */
  function Refresh(db: TileDb, b: Board, cx: int, cy: int, fuel: nat): (r: Board)
    requires b.grid.Valid() && b.grid.Inside(cx, cy, fuel)
    ensures SameShape(b, r)
    decreases fuel, 1, 0
  {
    var t := b.grid.At(cx, cy);
    var b1 := if t.liquid != 0 then b.(liquidQueue := b.liquidQueue + [Point(cx, cy)]) else b;
    if db.verifyTile(t.id, cx, cy, b.grid) == -1 then
      if fuel == 0 then b1 else RemoveF(db, b1, cx, cy, fuel - 1)
    else
      Rewrite(db, b1, cx, cy)
  }

  /** The board after the first k steps of the neighbour pass around (x, y). */
  function PassUpTo(db: TileDb, b: Board, x: int, y: int, fuel: nat, k: nat): (r: Board)
    requires b.grid.Valid() && b.grid.Inside(x, y, fuel + 1) && k <= 9
    ensures SameShape(b, r)
    decreases fuel, 2, k
  {
    if k == 0 then b
    else
      var prev := PassUpTo(db, b, x, y, fuel, k - 1);
      Refresh(db, prev, x + OffsetX[k - 1], y + OffsetY[k - 1], fuel)
  }

  /** Step (i + 1) * 3 + (j + 1) of the pass refreshes cell (x + i, y + j). */
  lemma PassStep(db: TileDb, b: Board, x: int, y: int, fuel: nat, i: int, j: int, k: nat)
    requires b.grid.Valid() && b.grid.Inside(x, y, fuel + 1) && -1 <= i <= 1 && -1 <= j <= 1
    requires k == (i + 1) * 3 + (j + 1)
    ensures k < 9 && PassUpTo(db, b, x, y, fuel, k).grid.Inside(x + i, y + j, fuel)
    ensures PassUpTo(db, b, x, y, fuel, k + 1) == Refresh(db, PassUpTo(db, b, x, y, fuel, k), x + i, y + j, fuel)
  {
    assert OffsetX[k] == i && OffsetY[k] == j;
  }

  /** SetTile: whether the tile was placed, and the board afterwards. A
      nonzero id whose rule does not answer 1 is refused and nothing
      changes; a large tile is written over its footprint with no
      neighbour pass; any other id is written at (x, y) and the 3x3 pass
      follows. */
  function SetTileF(db: TileDb, b: Board, x: int, y: int, id: u16, fuel: nat): (r: (bool, Board))
    requires b.grid.Valid() && b.grid.Inside(x, y, fuel + 1)
    ensures SameShape(b, r.1)
    ensures r.0 <==> id == 0 || db.verifyTile(id, x, y, b.grid) == 1
    ensures !r.0 ==> r.1 == b
    decreases fuel, 3, 0
  {
    if id != 0 && db.verifyTile(id, x, y, b.grid) != 1 then (false, b)
    else if db.isLarge(id) then (true, b.(grid := PlaceLarge(db, b.grid, x, y, id)))
    else
      var written := b.(grid := b.grid.Set(x, y, b.grid.At(x, y).(id := id)));
      (true, PassUpTo(db, written, x, y, fuel, 9))
  }

  /** RemoveTile: a large tile clears its whole footprint; any other tile
      is removed as SetTile(x, y, 0). */
  function RemoveF(db: TileDb, b: Board, x: int, y: int, fuel: nat): (r: Board)
    requires b.grid.Valid() && b.grid.Inside(x, y, fuel + 1)
    ensures SameShape(b, r)
    decreases fuel, 4, 0
  {
    var id := b.grid.At(x, y).id;
    if db.isLarge(id) then b.(grid := RemoveLarge(db, b.grid, x, y, id))
    else SetTileF(db, b, x, y, 0, fuel).1
  }

  // ---------------------------------------------------------------------
  // Properties

  /** An accepted large tile is written over its footprint and nowhere
      else, each cell getting the id and its position code; no queue is
      fed. When the id's data is not LargeTileData nothing changes. */
  lemma LargeSetTile(db: TileDb, b: Board, x: int, y: int, id: u16, fuel: nat)
    requires b.grid.Valid() && b.grid.Inside(x, y, fuel + 1)
    requires db.isLarge(id) && (id == 0 || db.verifyTile(id, x, y, b.grid) == 1)
    ensures var r := SetTileF(db, b, x, y, id, fuel);
      && r.0
      && r.1.liquidQueue == b.liquidQueue && r.1.overlayQueue == b.overlayQueue
      && (db.largeData(id).None? ==> r.1 == b)
      && (db.largeData(id).Some? ==>
            var d := db.largeData(id).value;
            var tl := d.topLeft(x, y, b.grid);
            forall a, c :: b.grid.InBounds(a, c) ==>
              r.1.grid.At(a, c) ==
                if tl.x <= a < tl.x + d.sizeX && tl.y <= c < tl.y + d.sizeY
                then b.grid.At(a, c).(id := id, state := ((c - tl.y) * 10 + (a - tl.x)) % 256)
                else b.grid.At(a, c))
  {
    if db.largeData(id).Some? {
      var d := db.largeData(id).value;
      var tl := d.topLeft(x, y, b.grid);
      forall a, c | b.grid.InBounds(a, c) {
        PaintAt(b.grid, tl, d.sizeX, d.sizeY, id, true, a, c);
      }
    }
  }

  /** Removing a large tile clears id and state over its whole footprint,
      leaves every other cell alone and feeds no queue. */
  lemma LargeRemoveTile(db: TileDb, b: Board, x: int, y: int, fuel: nat)
    requires b.grid.Valid() && b.grid.Inside(x, y, fuel + 1)
    requires db.isLarge(b.grid.At(x, y).id)
    ensures var r := RemoveF(db, b, x, y, fuel);
      var id := b.grid.At(x, y).id;
      && r.liquidQueue == b.liquidQueue && r.overlayQueue == b.overlayQueue
      && (db.largeData(id).None? ==> r == b)
      && (db.largeData(id).Some? ==>
            var d := db.largeData(id).value;
            var tl := d.topLeft(x, y, b.grid);
            forall a, c :: b.grid.InBounds(a, c) ==>
              r.grid.At(a, c) ==
                if tl.x <= a < tl.x + d.sizeX && tl.y <= c < tl.y + d.sizeY
                then b.grid.At(a, c).(id := 0, state := 0)
                else b.grid.At(a, c))
  {
    var id := b.grid.At(x, y).id;
    if db.largeData(id).Some? {
      var d := db.largeData(id).value;
      var tl := d.topLeft(x, y, b.grid);
      forall a, c | b.grid.InBounds(a, c) {
        PaintAt(b.grid, tl, d.sizeX, d.sizeY, 0, false, a, c);
      }
    }
  }

  /** A step whose rule does not ask for removal touches its own cell only:
      the new state is the rule's, an overlay tile whose new state is 255
      reverts to its base tile, and the queues get exactly the cell's
      liquid update and overlay update, if any. */
  lemma RefreshInPlace(db: TileDb, b: Board, cx: int, cy: int, fuel: nat)
    requires b.grid.Valid() && b.grid.Inside(cx, cy, fuel)
    requires db.verifyTile(b.grid.At(cx, cy).id, cx, cy, b.grid) != -1
    ensures var r := Refresh(db, b, cx, cy, fuel);
      var t := b.grid.At(cx, cy);
      var st := db.updatedState(t.id, cx, cy, b.grid);
      var overlay := db.isOverlay(t.id);
      && r.grid.At(cx, cy) == (if overlay && st == 255 then t.(state := st, id := db.baseTileId(t.id)) else t.(state := st))
      && (forall a, c :: b.grid.InBounds(a, c) && (a != cx || c != cy) ==> r.grid.At(a, c) == b.grid.At(a, c))
      && r.liquidQueue == b.liquidQueue + (if t.liquid != 0 then [Point(cx, cy)] else [])
      && r.overlayQueue == b.overlayQueue + (if overlay && st != 255 then [OverlayRequest(cx, cy, t.id)] else [])
  {
    var t := b.grid.At(cx, cy);
    var st := db.updatedState(t.id, cx, cy, b.grid);
    var t' := if db.isOverlay(t.id) && st == 255 then t.(state := st, id := db.baseTileId(t.id)) else t.(state := st);
    AtSetAll(b.grid, cx, cy, t');
  }

  /** After k steps, every visited cell that holds liquid has been queued
      for a liquid update. */
  lemma {:induction false} PassQueuesLiquid(db: TileDb, b: Board, x: int, y: int, fuel: nat, k: nat)
    requires b.grid.Valid() && b.grid.Inside(x, y, fuel + 1) && k <= 9
    ensures var r := PassUpTo(db, b, x, y, fuel, k);
      |b.liquidQueue| <= |r.liquidQueue| &&
      forall m :: 0 <= m < k && b.grid.At(x + OffsetX[m], y + OffsetY[m]).liquid != 0 ==>
        Point(x + OffsetX[m], y + OffsetY[m]) in r.liquidQueue[|b.liquidQueue|..]
  {
    OffsetsInRange();
    if k > 0 {
      PassQueuesLiquid(db, b, x, y, fuel, k - 1);
      var prev := PassUpTo(db, b, x, y, fuel, k - 1);
      var r := PassUpTo(db, b, x, y, fuel, k);
      var cx, cy := x + OffsetX[k - 1], y + OffsetY[k - 1];
      PassKeeps(db, b, x, y, fuel, k - 1);
      RefreshKeeps(db, prev, cx, cy, fuel);
      assert SameBackground(b.grid.At(cx, cy), prev.grid.At(cx, cy));
      forall m | 0 <= m < k && b.grid.At(x + OffsetX[m], y + OffsetY[m]).liquid != 0
        ensures Point(x + OffsetX[m], y + OffsetY[m]) in r.liquidQueue[|b.liquidQueue|..]
      {
        if m < k - 1 {
          QueuedStays(prev.liquidQueue, r.liquidQueue, |b.liquidQueue|, Point(x + OffsetX[m], y + OffsetY[m]));
        } else {
          QueuedAt(r.liquidQueue, |b.liquidQueue|, |prev.liquidQueue|);
        }
      }
    }
  }

  /** An entry queued after position n is still there once the queue has
      grown. */
  lemma QueuedStays<T>(q: seq<T>, q': seq<T>, n: nat, p: T)
    requires n <= |q| && q <= q' && p in q[n..]
    ensures p in q'[n..]
  {
    var i :| n <= i < |q| && q[i] == p;
    assert q'[n..][i - n] == p;
  }

  lemma QueuedAt<T>(q: seq<T>, n: nat, i: nat)
    requires n <= i < |q|
    ensures q[i] in q[n..]
  {
    assert q[n..][i - n] == q[i];
  }

  /** SetTile of a non-large id that is accepted queues a liquid update for
      every cell of the 3x3 neighbourhood that holds liquid. */
  lemma SetTileQueuesLiquid(db: TileDb, b: Board, x: int, y: int, id: u16, fuel: nat)
    requires b.grid.Valid() && b.grid.Inside(x, y, fuel + 1)
    requires !db.isLarge(id) && (id == 0 || db.verifyTile(id, x, y, b.grid) == 1)
    ensures var r := SetTileF(db, b, x, y, id, fuel);
      r.0 && |b.liquidQueue| <= |r.1.liquidQueue| &&
      forall a, c :: x - 1 <= a <= x + 1 && y - 1 <= c <= y + 1 && b.grid.At(a, c).liquid != 0 ==>
        Point(a, c) in r.1.liquidQueue[|b.liquidQueue|..]
  {
    var written := b.(grid := b.grid.Set(x, y, b.grid.At(x, y).(id := id)));
    AtSetAll(b.grid, x, y, b.grid.At(x, y).(id := id));
    PassQueuesLiquid(db, written, x, y, fuel, 9);
    forall a, c | x - 1 <= a <= x + 1 && y - 1 <= c <= y + 1 && b.grid.At(a, c).liquid != 0
      ensures Point(a, c) in SetTileF(db, b, x, y, id, fuel).1.liquidQueue[|b.liquidQueue|..]
    {
      var m := (a - x + 1) * 3 + (c - y + 1);
      assert a == x + OffsetX[m] && c == y + OffsetY[m];
    }
  }

  /** A database none of whose rules ever asks for a tile's removal. */
  ghost predicate NoRemoval(db: TileDb)
  {
    forall t, a, c, g :: db.verifyTile(t, a, c, g) != -1
  }

  /** Without removals, the neighbour pass rewrites only states, except
      that an overlay tile may revert to its base tile: a cell holding a
      tile that is not an overlay keeps its id through the first k steps. */
  lemma {:induction false} PassKeepsIds(db: TileDb, b: Board, x: int, y: int, fuel: nat, k: nat, a: int, c: int)
    requires b.grid.Valid() && b.grid.Inside(x, y, fuel + 1) && k <= 9
    requires NoRemoval(db) && b.grid.InBounds(a, c) && !db.isOverlay(b.grid.At(a, c).id)
    ensures PassUpTo(db, b, x, y, fuel, k).grid.At(a, c).id == b.grid.At(a, c).id
  {
    if k > 0 {
      PassKeepsIds(db, b, x, y, fuel, k - 1, a, c);
      OffsetsInRange();
      var prev := PassUpTo(db, b, x, y, fuel, k - 1);
      RefreshInPlace(db, prev, x + OffsetX[k - 1], y + OffsetY[k - 1], fuel);
    }
  }

  /** SetTile places what it accepts: with no rule asking for a removal, an
      accepted id that is neither large nor an overlay is at (x, y) once
      the neighbour pass is over. (An overlay may revert to its base tile,
      and a rule asking for removal may take the new tile out again, so
      neither is covered.) */
  lemma SetTilePlaces(db: TileDb, b: Board, x: int, y: int, id: u16, fuel: nat)
    requires b.grid.Valid() && b.grid.Inside(x, y, fuel + 1)
    requires !db.isLarge(id) && !db.isOverlay(id) && (id == 0 || db.verifyTile(id, x, y, b.grid) == 1)
    requires NoRemoval(db)
    ensures var r := SetTileF(db, b, x, y, id, fuel);
      r.0 && r.1.grid.At(x, y).id == id
  {
    var written := b.(grid := b.grid.Set(x, y, b.grid.At(x, y).(id := id)));
    AtSet(b.grid, x, y, b.grid.At(x, y).(id := id), x, y);
    PassKeepsIds(db, written, x, y, fuel, 9, x, y);
  }

  // Air stays air: with a database in which air (id 0) is neither an
  // overlay nor a large tile, every write of a removal cascade stores id 0
  // or reverts an overlay tile, so no empty cell is ever filled.

  ghost predicate AirKept(g: Grid, g': Grid)
  {
    g'.w == g.w && g'.h == g.h && (g.Valid() ==> g'.Valid()) &&
    forall a, c :: g.Valid() && g.InBounds(a, c) && g.At(a, c).id == 0 ==> g'.At(a, c).id == 0
  }

  lemma {:induction false} RefreshKeepsAir(db: TileDb, b: Board, cx: int, cy: int, fuel: nat)
    requires b.grid.Valid() && b.grid.Inside(cx, cy, fuel)
    requires !db.isOverlay(0) && !db.isLarge(0)
    ensures AirKept(b.grid, Refresh(db, b, cx, cy, fuel).grid)
    decreases fuel, 1, 0
  {
    var t := b.grid.At(cx, cy);
    var b1 := if t.liquid != 0 then b.(liquidQueue := b.liquidQueue + [Point(cx, cy)]) else b;
    if db.verifyTile(t.id, cx, cy, b.grid) == -1 {
      if fuel > 0 {
        RemoveKeepsAir(db, b1, cx, cy, fuel - 1);
      }
    }
  }

  lemma {:induction false} PassKeepsAir(db: TileDb, b: Board, x: int, y: int, fuel: nat, k: nat)
    requires b.grid.Valid() && b.grid.Inside(x, y, fuel + 1) && k <= 9
    requires !db.isOverlay(0) && !db.isLarge(0)
    ensures AirKept(b.grid, PassUpTo(db, b, x, y, fuel, k).grid)
    decreases fuel, 2, k
  {
    if k > 0 {
      PassKeepsAir(db, b, x, y, fuel, k - 1);
      var prev := PassUpTo(db, b, x, y, fuel, k - 1);
      RefreshKeepsAir(db, prev, x + OffsetX[k - 1], y + OffsetY[k - 1], fuel);
    }
  }

  /** SetTile(x, y, 0) keeps air, and leaves (x, y) itself empty. */
  lemma {:induction false} ClearKeepsAir(db: TileDb, b: Board, x: int, y: int, fuel: nat)
    requires b.grid.Valid() && b.grid.Inside(x, y, fuel + 1)
    requires !db.isOverlay(0) && !db.isLarge(0)
    ensures var r := SetTileF(db, b, x, y, 0, fuel).1;
      AirKept(b.grid, r.grid) && r.grid.Valid() && r.grid.At(x, y).id == 0
    decreases fuel, 3, 0
  {
    var written := b.(grid := b.grid.Set(x, y, b.grid.At(x, y).(id := 0)));
    AtSet(b.grid, x, y, b.grid.At(x, y).(id := 0), x, y);
    PassKeepsAir(db, written, x, y, fuel, 9);
  }

  lemma {:induction false} RemoveKeepsAir(db: TileDb, b: Board, x: int, y: int, fuel: nat)
    requires b.grid.Valid() && b.grid.Inside(x, y, fuel + 1)
    requires !db.isOverlay(0) && !db.isLarge(0)
    ensures AirKept(b.grid, RemoveF(db, b, x, y, fuel).grid)
    decreases fuel, 4, 0
  {
    var id := b.grid.At(x, y).id;
    if !db.isLarge(id) {
      ClearKeepsAir(db, b, x, y, fuel);
    } else if db.largeData(id).Some? {
      var d := db.largeData(id).value;
      forall a, c | b.grid.InBounds(a, c) {
        PaintAt(b.grid, d.topLeft(x, y, b.grid), d.sizeX, d.sizeY, 0, false, a, c);
      }
    }
  }

  /** RemoveTile on a tile that is not large leaves (x, y) empty, whatever
      the neighbour pass and its cascade of removals do. */
  lemma RemoveLeavesAir(db: TileDb, b: Board, x: int, y: int, fuel: nat)
    requires b.grid.Valid() && b.grid.Inside(x, y, fuel + 1)
    requires !db.isOverlay(0) && !db.isLarge(0)
    requires !db.isLarge(b.grid.At(x, y).id)
    ensures RemoveF(db, b, x, y, fuel).grid.At(x, y).id == 0
  {
    ClearKeepsAir(db, b, x, y, fuel);
  }

  // Walls, wall states and liquid: placement writes tile ids and states
  // only, and its queues only grow, so Keeps holds across a whole cascade.

  lemma KeepsTrans(b: Board, b1: Board, b2: Board)
    requires b.grid.Valid() && Keeps(b, b1) && Keeps(b1, b2)
    ensures Keeps(b, b2)
  {
  }

  lemma RewriteKeeps(db: TileDb, b: Board, cx: int, cy: int)
    requires b.grid.Valid() && b.grid.InBounds(cx, cy)
    ensures Keeps(b, Rewrite(db, b, cx, cy))
  {
    var t := b.grid.At(cx, cy);
    var st := db.updatedState(t.id, cx, cy, b.grid);
    var t' := if db.isOverlay(t.id) && st == 255 then t.(state := st, id := db.baseTileId(t.id)) else t.(state := st);
    AtSetAll(b.grid, cx, cy, t');
  }

  /** A step keeps the board, and queues its own cell first when that cell
      holds liquid. */
  lemma {:induction false} RefreshKeeps(db: TileDb, b: Board, cx: int, cy: int, fuel: nat)
    requires b.grid.Valid() && b.grid.Inside(cx, cy, fuel)
    ensures var r := Refresh(db, b, cx, cy, fuel);
      && Keeps(b, r)
      && (b.grid.At(cx, cy).liquid != 0 ==>
            |b.liquidQueue| < |r.liquidQueue| && r.liquidQueue[|b.liquidQueue|] == Point(cx, cy))
    decreases fuel, 1, 0
  {
    var t := b.grid.At(cx, cy);
    var b1 := if t.liquid != 0 then b.(liquidQueue := b.liquidQueue + [Point(cx, cy)]) else b;
    var r := Refresh(db, b, cx, cy, fuel);
    assert Keeps(b, b1);
    if db.verifyTile(t.id, cx, cy, b.grid) == -1 {
      if fuel > 0 {
        RemoveKeeps(db, b1, cx, cy, fuel - 1);
        KeepsTrans(b, b1, r);
      }
    } else {
      RewriteKeeps(db, b1, cx, cy);
      KeepsTrans(b, b1, r);
    }
    if t.liquid != 0 {
      assert b1.liquidQueue <= r.liquidQueue;
      assert b1.liquidQueue[|b.liquidQueue|] == Point(cx, cy);
    }
  }

  lemma {:induction false} PassKeeps(db: TileDb, b: Board, x: int, y: int, fuel: nat, k: nat)
    requires b.grid.Valid() && b.grid.Inside(x, y, fuel + 1) && k <= 9
    ensures Keeps(b, PassUpTo(db, b, x, y, fuel, k))
    decreases fuel, 2, k
  {
    if k > 0 {
      PassKeeps(db, b, x, y, fuel, k - 1);
      var prev := PassUpTo(db, b, x, y, fuel, k - 1);
      RefreshKeeps(db, prev, x + OffsetX[k - 1], y + OffsetY[k - 1], fuel);
      KeepsTrans(b, prev, PassUpTo(db, b, x, y, fuel, k));
    }
  }

  lemma {:induction false} SetTileKeeps(db: TileDb, b: Board, x: int, y: int, id: u16, fuel: nat)
    requires b.grid.Valid() && b.grid.Inside(x, y, fuel + 1)
    ensures Keeps(b, SetTileF(db, b, x, y, id, fuel).1)
    decreases fuel, 3, 0
  {
    if id != 0 && db.verifyTile(id, x, y, b.grid) != 1 {
    } else if db.isLarge(id) {
      if db.largeData(id).Some? {
        var d := db.largeData(id).value;
        PaintKeepsBackground(b.grid, d.topLeft(x, y, b.grid), d.sizeX, d.sizeY, id, true);
      }
    } else {
      var written := b.(grid := b.grid.Set(x, y, b.grid.At(x, y).(id := id)));
      AtSetAll(b.grid, x, y, b.grid.At(x, y).(id := id));
      PassKeeps(db, written, x, y, fuel, 9);
      KeepsTrans(b, written, PassUpTo(db, written, x, y, fuel, 9));
    }
  }

  lemma {:induction false} RemoveKeeps(db: TileDb, b: Board, x: int, y: int, fuel: nat)
    requires b.grid.Valid() && b.grid.Inside(x, y, fuel + 1)
    ensures Keeps(b, RemoveF(db, b, x, y, fuel))
    decreases fuel, 4, 0
  {
    var id := b.grid.At(x, y).id;
    if db.isLarge(id) {
      if db.largeData(id).Some? {
        var d := db.largeData(id).value;
        PaintKeepsBackground(b.grid, d.topLeft(x, y, b.grid), d.sizeX, d.sizeY, 0, false);
      }
    } else {
      SetTileKeeps(db, b, x, y, 0, fuel);
    }
  }
}
