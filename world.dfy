/** The world object: the flat tile buffer it owns and updates in place,
    the mining tracker, the tile inventories and the generation passes.
    Each method is proved to leave the state the functions of modules
    Placement, Mining and Generation describe. */
module WorldGen {
  import opened Tiles
  import opened TileDatabase
  import opened Placement
  import opened Mining
  import opened Generation

  /** An inventory item. Items are defined outside the world and are only
      stored and handed back here. */
  type Item

  /** (a, b) is among the first n cells of the 3x3 block around (x, y),
      visited column by column, top to bottom. */
  predicate InBlock(x: int, y: int, n: int, a: int, b: int)
  {
    -1 <= a - x <= 1 && -1 <= b - y <= 1 && (a - x + 1) * 3 + (b - y + 1) < n
  }

  /** The buffer after `g` with the wall states of the first n cells of
      the block around (x, y) recomputed from the walls of g, and nothing
      else changed. */
  ghost predicate WallStatesFrom(g: Grid, r: Grid, x: int, y: int, n: int)
    requires g.Valid() && r.Valid() && g.Inside(x, y, 2)
  {
    && r.w == g.w && r.h == g.h
    && forall a, b {:trigger r.At(a, b)} :: g.InBounds(a, b) ==>
      var t, u := g.At(a, b), r.At(a, b);
      && u.id == t.id && u.state == t.state && u.liquid == t.liquid && u.wallId == t.wallId
      && u.wallState == if InBlock(x, y, n, a, b) then WallMask(g, a, b) else t.wallState
  }

  /** One UpdateWallState call of SetWall's pass extends the prefix. */
  lemma WallStep(g: Grid, r: Grid, x: int, y: int, i: int, j: int)
    requires g.Valid() && r.Valid() && g.Inside(x, y, 2) && -1 <= i <= 1 && -1 <= j <= 1
    requires WallStatesFrom(g, r, x, y, (i + 1) * 3 + (j + 1))
    ensures r.Inside(x + i, y + j, 1)
    ensures WallStatesFrom(g, r.Set(x + i, y + j, r.At(x + i, y + j).(wallState := WallMask(r, x + i, y + j))),
                           x, y, (i + 1) * 3 + (j + 1) + 1)
  {
    var t := r.At(x + i, y + j).(wallState := WallMask(r, x + i, y + j));
    WallMaskLocal(g, r, x + i, y + j);
    var r' := r.Set(x + i, y + j, t);
    forall a, b | g.InBounds(a, b)
      ensures var t0, u := g.At(a, b), r'.At(a, b);
        && u.id == t0.id && u.state == t0.state && u.liquid == t0.liquid && u.wallId == t0.wallId
        && u.wallState == if InBlock(x, y, (i + 1) * 3 + (j + 1) + 1, a, b) then WallMask(g, a, b) else t0.wallState
    {
      AtSet(r, x + i, y + j, t, a, b);
      InBlockNext(x, y, i, j, a, b);
      assert r.At(a, b) == r.At(a, b);
    }
  }

  /** The block prefix grows by the cell at offset (i, j). */
  lemma InBlockNext(x: int, y: int, i: int, j: int, a: int, b: int)
    requires -1 <= i <= 1 && -1 <= j <= 1
    ensures InBlock(x, y, (i + 1) * 3 + (j + 1) + 1, a, b) <==>
      InBlock(x, y, (i + 1) * 3 + (j + 1), a, b) || (a == x + i && b == y + j)
  {
  }

  /** After the whole pass the nine wall states agree with the walls. */
  lemma WallStatesDone(g: Grid, r: Grid, x: int, y: int)
    requires g.Valid() && r.Valid() && g.Inside(x, y, 2)
    requires WallStatesFrom(g, r, x, y, 9)
    ensures forall a, b :: -1 <= a - x <= 1 && -1 <= b - y <= 1 ==>
      r.At(a, b).wallState == WallMask(r, a, b)
  {
    forall a, b | -1 <= a - x <= 1 && -1 <= b - y <= 1
      ensures r.At(a, b).wallState == WallMask(r, a, b)
    {
      WallMaskLocal(g, r, a, b);
    }
  }

  /** (a, b) lies in the first i full columns of the sx by sy footprint at
      tl, or in the first j rows of column i. */
  predicate InFootprint(tl: Point, sy: int, i: int, j: int, a: int, b: int)
  {
    (tl.x <= a < tl.x + i && tl.y <= b < tl.y + sy) || (a == tl.x + i && tl.y <= b < tl.y + j)
  }

  /** r is g with the footprint cells written so far painted. */
  ghost predicate PaintedSoFar(g: Grid, r: Grid, tl: Point, sy: int, id: u16, coded: bool, i: int, j: int)
    requires g.Valid() && r.Valid()
  {
    && r.w == g.w && r.h == g.h
    && forall a, b :: g.InBounds(a, b) ==>
      r.At(a, b) == if InFootprint(tl, sy, i, j, a, b) then Painted(g.At(a, b), id, coded, a - tl.x, b - tl.y) else g.At(a, b)
  }

  lemma PaintStep(g: Grid, r: Grid, tl: Point, sy: int, id: u16, coded: bool, i: int, j: int)
    requires g.Valid() && r.Valid() && PaintedSoFar(g, r, tl, sy, id, coded, i, j)
    requires 0 <= i && 0 <= j < sy && g.InBounds(tl.x + i, tl.y + j)
    ensures var t := r.At(tl.x + i, tl.y + j);
      var r1 := r.Set(tl.x + i, tl.y + j, t.(id := id));
      var r2 := r1.Set(tl.x + i, tl.y + j, r1.At(tl.x + i, tl.y + j).(state := if coded then (j * 10 + i) % 256 else 0));
      PaintedSoFar(g, r2, tl, sy, id, coded, i, j + 1)
  {
    var t := r.At(tl.x + i, tl.y + j);
    var r1 := r.Set(tl.x + i, tl.y + j, t.(id := id));
    AtSetAll(r, tl.x + i, tl.y + j, t.(id := id));
    var u := r1.At(tl.x + i, tl.y + j).(state := if coded then (j * 10 + i) % 256 else 0);
    AtSetAll(r1, tl.x + i, tl.y + j, u);
  }

  lemma PaintDone(g: Grid, r: Grid, tl: Point, sx: int, sy: int, id: u16, coded: bool)
    requires g.Valid() && r.Valid()
    requires sy > 0 ==> PaintedSoFar(g, r, tl, sy, id, coded, if sx > 0 then sx else 0, 0)
    requires sy <= 0 ==> r == g
    ensures r == Paint(g, tl, sx, sy, id, coded)
  {
    var p := Paint(g, tl, sx, sy, id, coded);
    forall a, b | g.InBounds(a, b)
      ensures r.At(a, b) == p.At(a, b)
    {
      PaintAt(g, tl, sx, sy, id, coded, a, b);
    }
    GridExt(r, p);
  }

  /** Step k of the neighbour pass visits offset (i, j). */
  lemma Offsets(i: int, j: int)
    requires -1 <= i <= 1 && -1 <= j <= 1
    ensures 0 <= (i + 1) * 3 + (j + 1) < 9
    ensures OffsetX[(i + 1) * 3 + (j + 1)] == i && OffsetY[(i + 1) * 3 + (j + 1)] == j
  {
  }

  // ---------------------------------------------------------------------
  // Progress of a generation pass

  /** r is g with f applied to the cells of columns lo .. hi - 1. */
  ghost predicate ColumnsDone(g: Grid, r: Grid, f: (int, int, Tile) -> Tile, lo: int, hi: int)
    requires g.Valid() && r.Valid()
  {
    && r.w == g.w && r.h == g.h
    && forall a, b :: g.InBounds(a, b) ==>
      r.At(a, b) == if lo <= a < hi then f(a, b, g.At(a, b)) else g.At(a, b)
  }

  /** r is g with f applied to the cells of column i above row j. */
  ghost predicate RowsDone(g: Grid, r: Grid, f: (int, int, Tile) -> Tile, i: int, j: int)
    requires g.Valid() && r.Valid()
  {
    && r.w == g.w && r.h == g.h
    && forall a, b :: g.InBounds(a, b) ==>
      r.At(a, b) == if a == i && b < j then f(a, b, g.At(a, b)) else g.At(a, b)
  }

  lemma ColumnsExtend(g: Grid, r1: Grid, r2: Grid, f: (int, int, Tile) -> Tile, i: int)
    requires g.Valid() && r1.Valid() && r2.Valid()
    requires ColumnsDone(g, r1, f, 0, i) && ColumnsDone(r1, r2, f, i, i + 1)
    ensures ColumnsDone(g, r2, f, 0, i + 1)
  {
  }

  lemma ColumnsAll(g: Grid, r: Grid, f: (int, int, Tile) -> Tile)
    requires g.Valid() && r.Valid() && ColumnsDone(g, r, f, 0, g.w)
    ensures r == Remap(g, f)
  {
    GridExt(r, Remap(g, f));
  }

  /** A column whose remaining rows f leaves alone is finished. */
  lemma RowsFinish(g: Grid, r: Grid, f: (int, int, Tile) -> Tile, i: int, j: int)
    requires g.Valid() && r.Valid() && RowsDone(g, r, f, i, j)
    requires forall b :: 0 <= i < g.w && 0 <= b < g.h && j <= b ==> f(i, b, g.At(i, b)) == g.At(i, b)
    ensures ColumnsDone(g, r, f, i, i + 1)
  {
  }

  /** Writing f's value into the next row, or skipping a row f leaves
      alone, extends the finished rows by one. */
  lemma RowsStep(g: Grid, r: Grid, f: (int, int, Tile) -> Tile, i: int, j: int, r': Grid)
    requires g.Valid() && r.Valid() && r'.Valid() && RowsDone(g, r, f, i, j) && g.InBounds(i, j)
    requires r' == r.Set(i, j, f(i, j, g.At(i, j))) || (r' == r && f(i, j, g.At(i, j)) == g.At(i, j))
    ensures RowsDone(g, r', f, i, j + 1)
  {
    AtSetAll(r, i, j, f(i, j, g.At(i, j)));
  }

  /** Column i of the dirt pass after its first j steps. */
  function DirtSoFar(t: Tile, line: int, j: int, b: int): Tile
  {
    var t1 := if b == line && j > 5 then t.(wallId := 0) else t;
    if line <= b < line + j then t1.(id := Dirt) else t1
  }

  ghost predicate DirtDone(g: Grid, r: Grid, i: int, line: int, j: int)
    requires g.Valid() && r.Valid()
  {
    && r.w == g.w && r.h == g.h
    && forall a, b :: g.InBounds(a, b) ==>
      r.At(a, b) == if a == i then DirtSoFar(g.At(a, b), line, j, b) else g.At(a, b)
  }

  lemma DirtStep(g: Grid, r: Grid, i: int, line: int, j: int)
    requires g.Valid() && r.Valid() && DirtDone(g, r, i, line, j)
    requires 0 <= j && g.InBounds(i, line) && g.InBounds(i, line + j)
    ensures var r1 := if j > 4 then r.Set(i, line, r.At(i, line).(wallId := 0)) else r;
      DirtDone(g, r1.Set(i, line + j, r1.At(i, line + j).(id := Dirt)), i, line, j + 1)
  {
    var r1 := if j > 4 then r.Set(i, line, r.At(i, line).(wallId := 0)) else r;
    AtSetAll(r, i, line, r.At(i, line).(wallId := 0));
    AtSetAll(r1, i, line + j, r1.At(i, line + j).(id := Dirt));
  }

  /** The records partway through a sweep: the keys still to visit hold
      their old records, the visited ones are aged or dropped as Decay says. */
  ghost function SweptBut(g: Grid, m: map<Point, DamagedTile>, keys: set<Point>, delta: real): map<Point, DamagedTile>
    requires g.Valid() && KeysInBounds(g.w, g.h, m)
  {
    map q | q in m && (q in keys || Survives(m[q], delta, g.At(q.x, q.y).id)) ::
      if q in keys then m[q] else m[q].(time := m[q].time + delta)
  }

  class World {
    /** WorldSize */
    var sizeX: nat
    var sizeY: nat
    /** _tiles: cell (x, y) at index y * sizeX + x */
    var tiles: array<Tile>
    /** The tile database the world consults. */
    const db: TileDb
    /** _spawnTile */
    var spawnTile: Point
    /** _surfaceHeight */
    var surfaceHeight: int
    /** _minedTiles */
    var minedTiles: map<Point, DamagedTile>
    /** _tileInventories */
    var tileInventories: map<Point, seq<Item>>
    /** What has been handed to the liquid updater and the overlay tile
        updater since they were created. */
    ghost var liquidQueue: seq<Point>
    ghost var overlayQueue: seq<OverlayRequest>

    /** The buffer as a grid value. */
    function GridOf(): Grid
      reads this, tiles
    {
      FromFlat(sizeX, sizeY, tiles[..])
    }

    ghost function State(): Board
      reads this, tiles
    {
      Board(GridOf(), liquidQueue, overlayQueue)
    }

    /** The buffer holds one tile per cell, and every mining record is for a
        cell of the world and has health left. */
    ghost predicate Valid()
      reads this, tiles
    {
      && tiles.Length == sizeX * sizeY
      && KeysInBounds(sizeX, sizeY, minedTiles)
      && AllHealthy(minedTiles)
    }

    /** A world before generation: no cells, no records. */
    constructor (db: TileDb)
      ensures Valid() && this.db == db
      ensures sizeX == 0 && sizeY == 0 && minedTiles == map[] && tileInventories == map[]
      ensures liquidQueue == [] && overlayQueue == []
    {
      this.db := db;
      sizeX, sizeY := 0, 0;
      tiles := new Tile[0];
      spawnTile := Point(0, 0);
      surfaceHeight := 0;
      minedTiles := map[];
      tileInventories := map[];
      liquidQueue, overlayQueue := [], [];
    }

    /** IsTileInBounds: exactly the cells whose flat index is a position of
        the buffer with the column inside the row, so each such cell has a
        slot of its own. */
    function IsTileInBounds(x: int, y: int): (r: bool)
      reads this, tiles
      ensures tiles.Length == sizeX * sizeY ==>
        (r <==> 0 <= x < sizeX && 0 <= Idx(sizeX, x, y) < tiles.Length)
    {
      if 0 <= x < sizeX then IdxInRangeIff(sizeX, sizeY, x, y); GridOf().InBounds(x, y)
      else false
    }

    /** The tile stored at flat index y * sizeX + x; for a cell in bounds,
        that cell (for other positions see FlatCell). */
    function TileAt(x: int, y: int): (t: Tile)
      reads this, tiles
      requires Valid() && 0 <= Idx(sizeX, x, y) < tiles.Length
      ensures GridOf().InBounds(x, y) ==> t == GridOf().At(x, y)
    {
      if GridOf().InBounds(x, y) then
        FromFlatAt(sizeX, sizeY, tiles[..], x, y);
        tiles[Idx(sizeX, x, y)]
      else
        tiles[Idx(sizeX, x, y)]
    }

    function GetTileID(x: int, y: int): (id: u16)
      reads this, tiles
      requires Valid() && 0 <= Idx(sizeX, x, y) < tiles.Length
      ensures GridOf().InBounds(x, y) ==> id == GridOf().At(x, y).id
    {
      TileAt(x, y).id
    }

    function GetWallID(x: int, y: int): (id: u8)
      reads this, tiles
      requires Valid() && 0 <= Idx(sizeX, x, y) < tiles.Length
      ensures GridOf().InBounds(x, y) ==> id == GridOf().At(x, y).wallId
    {
      TileAt(x, y).wallId
    }

    function GetTileState(x: int, y: int): (s: u8)
      reads this, tiles
      requires Valid() && 0 <= Idx(sizeX, x, y) < tiles.Length
      ensures GridOf().InBounds(x, y) ==> s == GridOf().At(x, y).state
    {
      TileAt(x, y).state
    }

    function GetWallState(x: int, y: int): (s: u8)
      reads this, tiles
      requires Valid() && 0 <= Idx(sizeX, x, y) < tiles.Length
      ensures GridOf().InBounds(x, y) ==> s == GridOf().At(x, y).wallState
    {
      TileAt(x, y).wallState
    }

    function GetLiquid(x: int, y: int): (amount: u8)
      reads this, tiles
      requires Valid() && 0 <= Idx(sizeX, x, y) < tiles.Length
      ensures GridOf().InBounds(x, y) ==> amount == GridOf().At(x, y).liquid
    {
      TileAt(x, y).liquid
    }

    /** Replaces the tile stored at flat index y * sizeX + x. */
    method Store(x: int, y: int, t: Tile)
      requires Valid() && 0 <= Idx(sizeX, x, y) < tiles.Length
      modifies tiles
      ensures Valid()
      ensures tiles[..] == old(tiles[..])[Idx(sizeX, x, y) := t]
      ensures GridOf().InBounds(x, y) ==> GridOf() == old(GridOf()).Set(x, y, t)
    {
      if 0 <= x < sizeX && 0 <= y < sizeY {
        FromFlatSet(sizeX, sizeY, tiles[..], x, y, t);
      }
      tiles[Idx(sizeX, x, y)] := t;
    }

    method SetInitialTile(x: int, y: int, id: u16)
      requires Valid() && 0 <= Idx(sizeX, x, y) < tiles.Length
      modifies tiles
      ensures Valid()
      ensures tiles[..] == old(tiles[..])[Idx(sizeX, x, y) := old(TileAt(x, y)).(id := id)]
      ensures GridOf().InBounds(x, y) ==> GridOf() == old(GridOf()).Set(x, y, old(GridOf()).At(x, y).(id := id))
    {
      Store(x, y, TileAt(x, y).(id := id));
    }

    method SetInitialWall(x: int, y: int, wallId: u8)
      requires Valid() && 0 <= Idx(sizeX, x, y) < tiles.Length
      modifies tiles
      ensures Valid()
      ensures tiles[..] == old(tiles[..])[Idx(sizeX, x, y) := old(TileAt(x, y)).(wallId := wallId)]
      ensures GridOf().InBounds(x, y) ==> GridOf() == old(GridOf()).Set(x, y, old(GridOf()).At(x, y).(wallId := wallId))
    {
      Store(x, y, TileAt(x, y).(wallId := wallId));
    }

    method RemoveInitialTile(x: int, y: int)
      requires Valid() && 0 <= Idx(sizeX, x, y) < tiles.Length
      modifies tiles
      ensures Valid()
      ensures tiles[..] == old(tiles[..])[Idx(sizeX, x, y) := old(TileAt(x, y)).(id := 0)]
      ensures GridOf().InBounds(x, y) ==> GridOf() == old(GridOf()).Set(x, y, old(GridOf()).At(x, y).(id := 0))
    {
      Store(x, y, TileAt(x, y).(id := 0));
    }

    method SetTileState(x: int, y: int, state: u8)
      requires Valid() && 0 <= Idx(sizeX, x, y) < tiles.Length
      modifies tiles
      ensures Valid()
      ensures tiles[..] == old(tiles[..])[Idx(sizeX, x, y) := old(TileAt(x, y)).(state := state)]
      ensures GridOf().InBounds(x, y) ==> GridOf() == old(GridOf()).Set(x, y, old(GridOf()).At(x, y).(state := state))
    {
      Store(x, y, TileAt(x, y).(state := state));
    }

    /** SetLiquid: stores the amount; a positive amount also queues a
        liquid update for the cell. */
    method SetLiquid(x: int, y: int, amount: u8)
      requires Valid() && 0 <= Idx(sizeX, x, y) < tiles.Length
      modifies tiles, this`liquidQueue
      ensures Valid()
      ensures tiles[..] == old(tiles[..])[Idx(sizeX, x, y) := old(TileAt(x, y)).(liquid := amount)]
      ensures liquidQueue == old(liquidQueue) + if amount > 0 then [Point(x, y)] else []
    {
      if amount > 0 {
        liquidQueue := liquidQueue + [Point(x, y)];
      }
      Store(x, y, TileAt(x, y).(liquid := amount));
    }

    /** UpdateWallState: the cell's wall state becomes the wall mask of its
        neighbourhood; nothing else changes. */
    method UpdateWallState(x: int, y: int)
      requires Valid() && GridOf().Inside(x, y, 1)
      modifies tiles
      ensures Valid()
      ensures GridOf() == old(GridOf()).Set(x, y, old(GridOf()).At(x, y).(wallState := WallMask(old(GridOf()), x, y)))
    {
      ghost var g := GridOf();
      IdxInRangeAll(sizeX, sizeY);
      var t := TileAt(x, y);
      if GetWallID(x, y) == 0 {
        Store(x, y, t.(wallState := 0));
        return;
      }
      var top := GetWallID(x, y - 1);
      var right := GetWallID(x + 1, y);
      var bottom := GetWallID(x, y + 1);
      var left := GetWallID(x - 1, y);
      assert t == g.At(x, y);
      assert Sign(top) * 2 + Sign(right) * 8 + Sign(bottom) * 32 + Sign(left) * 128 == WallMask(g, x, y);
      Store(x, y, t.(wallState := Sign(top) * 2 + Sign(right) * 8 + Sign(bottom) * 32 + Sign(left) * 128));
    }

    /** SetWall: the wall is written at (x, y), then every wall state in the
        3x3 block around it is recomputed from the walls; so afterwards each
        of those nine cells has the wall mask of the new walls. */
    method SetWall(x: int, y: int, wallId: u8)
      requires Valid() && GridOf().Inside(x, y, 2)
      modifies tiles
      ensures Valid()
      ensures var g := old(GridOf()).Set(x, y, old(GridOf()).At(x, y).(wallId := wallId));
        WallStatesFrom(g, GridOf(), x, y, 9)
      ensures forall a, b :: -1 <= a - x <= 1 && -1 <= b - y <= 1 ==>
        GridOf().At(a, b).wallState == WallMask(GridOf(), a, b)
    {
      IdxInRangeAll(sizeX, sizeY);
      Store(x, y, TileAt(x, y).(wallId := wallId));
      ghost var g := GridOf();
      for i := -1 to 2
        invariant Valid() && GridOf().Valid()
        invariant WallStatesFrom(g, GridOf(), x, y, (i + 1) * 3)
      {
        for j := -1 to 2
          invariant Valid() && GridOf().Valid()
          invariant WallStatesFrom(g, GridOf(), x, y, (i + 1) * 3 + (j + 1))
        {
          UpdateBlockCell(g, x, y, i, j);
        }
      }
      WallStatesDone(g, GridOf(), x, y);
    }

    /** One step of SetWall's pass: UpdateWallState(x + i, y + j). */
    method UpdateBlockCell(ghost g: Grid, x: int, y: int, i: int, j: int)
      requires Valid() && g.Valid() && GridOf().Valid() && g.Inside(x, y, 2) && -1 <= i <= 1 && -1 <= j <= 1
      requires WallStatesFrom(g, GridOf(), x, y, (i + 1) * 3 + (j + 1))
      modifies tiles
      ensures Valid() && GridOf().Valid()
      ensures WallStatesFrom(g, GridOf(), x, y, (i + 1) * 3 + (j + 1) + 1)
    {
      WallStep(g, GridOf(), x, y, i, j);
      UpdateWallState(x + i, y + j);
    }

    // -------------------------------------------------------------------
    // Large tiles, SetTile and RemoveTile

    /** The loops of SetLargeTile and RemoveLargeTile: each cell of the sx by
        sy footprint at tl gets the id, then its position code (or 0) as
        state. The footprint must lie in the buffer. */
    method WriteFootprint(tl: Point, sx: int, sy: int, id: u16, coded: bool)
      requires Valid()
      requires sx <= 0 || sy <= 0 || (0 <= tl.x && tl.x + sx <= sizeX && 0 <= tl.y && tl.y + sy <= sizeY)
      modifies tiles
      ensures Valid()
      ensures GridOf() == Paint(old(GridOf()), tl, sx, sy, id, coded)
    {
      ghost var g := GridOf();
      var i := 0;
      while i < sx
        invariant Valid() && GridOf().Valid()
        invariant 0 <= i && (i <= sx || i == 0)
        invariant sy > 0 ==> PaintedSoFar(g, GridOf(), tl, sy, id, coded, i, 0)
        invariant sy <= 0 ==> GridOf() == g
      {
        var j := 0;
        while j < sy
          invariant Valid() && GridOf().Valid()
          invariant 0 <= j && (j <= sy || j == 0)
          invariant sy > 0 ==> PaintedSoFar(g, GridOf(), tl, sy, id, coded, i, j)
          invariant sy <= 0 ==> GridOf() == g
        {
          PaintCell(g, tl, sy, id, coded, i, j);
          j := j + 1;
        }
        i := i + 1;
        assert sy > 0 ==> PaintedSoFar(g, GridOf(), tl, sy, id, coded, i, 0);
      }
      PaintDone(g, GridOf(), tl, sx, sy, id, coded);
    }

    /** One footprint cell: `_tiles[...].ID = id`, then SetTileState. */
    method PaintCell(ghost g: Grid, tl: Point, sy: int, id: u16, coded: bool, i: int, j: int)
      requires Valid() && g.Valid() && GridOf().Valid() && PaintedSoFar(g, GridOf(), tl, sy, id, coded, i, j)
      requires 0 <= i && 0 <= j < sy && GridOf().InBounds(tl.x + i, tl.y + j)
      modifies tiles
      ensures Valid() && GridOf().Valid() && PaintedSoFar(g, GridOf(), tl, sy, id, coded, i, j + 1)
    {
      PaintStep(g, GridOf(), tl, sy, id, coded, i, j);
      IdxInRangeAll(sizeX, sizeY);
      SetInitialTile(tl.x + i, tl.y + j, id);
      SetTileState(tl.x + i, tl.y + j, if coded then (j * 10 + i) % 256 else 0);
    }

    /** SetLargeTile: the footprint the database anchors at (x, y) gets the
        id with position codes; nothing happens for an id without large
        tile data. */
    method SetLargeTile(x: int, y: int, id: u16)
      requires Valid() && GridOf().InBounds(x, y) && AnchorFits(db, id, x, y, GridOf())
      modifies tiles
      ensures Valid()
      ensures GridOf() == PlaceLarge(db, old(GridOf()), x, y, id)
    {
      match db.largeData(id)
      case None =>
      case Some(d) =>
        var tl := d.topLeft(x, y, GridOf());
        WriteFootprint(tl, d.sizeX, d.sizeY, id, true);
    }

    /** RemoveLargeTile: the footprint the database anchors at (x, y) is
        cleared to air with state 0. */
    method RemoveLargeTile(x: int, y: int, id: u16)
      requires Valid() && GridOf().InBounds(x, y) && AnchorFits(db, id, x, y, GridOf())
      modifies tiles
      ensures Valid()
      ensures GridOf() == RemoveLarge(db, old(GridOf()), x, y, id)
    {
      match db.largeData(id)
      case None =>
      case Some(d) =>
        var tl := d.topLeft(x, y, GridOf());
        WriteFootprint(tl, d.sizeX, d.sizeY, 0, false);
    }

    /** SetTile with a recursion budget: whether the tile was placed, and the
        buffer and queues SetTileF describes. */
    method SetTile(x: int, y: int, id: u16, fuel: nat) returns (placed: bool)
      requires Valid() && GridOf().Inside(x, y, fuel + 1) && LargeFitsNear(db, sizeX, sizeY, x, y, fuel)
      modifies tiles, this`liquidQueue, this`overlayQueue
      ensures Valid()
      ensures (placed, State()) == SetTileF(db, old(State()), x, y, id, fuel)
      decreases fuel, 1, 0
    {
      IdxInRangeAll(sizeX, sizeY);
      if id != 0 && db.verifyTile(id, x, y, GridOf()) != 1 {
        return false;
      }
      if db.isLarge(id) {
        LargeFitsAnchor(db, id, x, y, fuel, GridOf());
        SetLargeTile(x, y, id);
        return true;
      }
      SetInitialTile(x, y, id);
      RefreshAround(x, y, fuel);
      return true;
    }

    /** SetTile's 3x3 pass around (x, y): columns x - 1 .. x + 1, each top
        to bottom. */
    method RefreshAround(x: int, y: int, fuel: nat)
      requires Valid() && GridOf().Inside(x, y, fuel + 1) && LargeFitsNear(db, sizeX, sizeY, x, y, fuel)
      modifies tiles, this`liquidQueue, this`overlayQueue
      ensures Valid()
      ensures State() == PassUpTo(db, old(State()), x, y, fuel, 9)
      decreases fuel, 0, 3
    {
      ghost var start := State();
      for i := -1 to 2
        invariant Valid() && start.grid.Valid() && start.grid.Inside(x, y, fuel + 1)
        invariant State() == PassUpTo(db, start, x, y, fuel, (i + 1) * 3)
      {
        RefreshColumn(start, x, y, i, fuel);
      }
    }

    /** The inner loop of the 3x3 pass: column x + i, rows y - 1 .. y + 1. */
    method RefreshColumn(ghost start: Board, x: int, y: int, i: int, fuel: nat)
      requires Valid() && start.grid.Valid() && start.grid.Inside(x, y, fuel + 1) && LargeFitsNear(db, sizeX, sizeY, x, y, fuel)
      requires -1 <= i <= 1 && State() == PassUpTo(db, start, x, y, fuel, (i + 1) * 3)
      modifies tiles, this`liquidQueue, this`overlayQueue
      ensures Valid()
      ensures State() == PassUpTo(db, start, x, y, fuel, (i + 1) * 3 + 3)
      decreases fuel, 0, 2
    {
      for j := -1 to 2
        invariant Valid()
        invariant State() == PassUpTo(db, start, x, y, fuel, (i + 1) * 3 + (j + 1))
      {
        LargeFitsWithin(db, sizeX, sizeY, x, y, fuel, x + i, y + j, fuel - 1);
        RefreshStep(start, x, y, i, j, (i + 1) * 3 + (j + 1), fuel);
      }
    }

    /** Step (i + 1) * 3 + (j + 1) of the pass refreshes cell (x + i, y + j). */
    method RefreshStep(ghost start: Board, x: int, y: int, i: int, j: int, ghost k: nat, fuel: nat)
      requires Valid() && start.grid.Valid() && start.grid.Inside(x, y, fuel + 1)
      requires LargeFitsNear(db, sizeX, sizeY, x + i, y + j, fuel - 1)
      requires -1 <= i <= 1 && -1 <= j <= 1 && k == (i + 1) * 3 + (j + 1)
      requires State() == PassUpTo(db, start, x, y, fuel, k)
      modifies tiles, this`liquidQueue, this`overlayQueue
      ensures Valid()
      ensures State() == PassUpTo(db, start, x, y, fuel, k + 1)
      decreases fuel, 0, 1
    {
      PassStep(db, start, x, y, fuel, i, j, k);
      RefreshCell(x + i, y + j, fuel);
    }

    /** One step of SetTile's 3x3 pass, at (cx, cy). */
    method RefreshCell(cx: int, cy: int, fuel: nat)
      requires Valid() && GridOf().Inside(cx, cy, fuel) && LargeFitsNear(db, sizeX, sizeY, cx, cy, fuel - 1)
      modifies tiles, this`liquidQueue, this`overlayQueue
      ensures Valid()
      ensures State() == Refresh(db, old(State()), cx, cy, fuel)
      decreases fuel, 0, 0
    {
      IdxInRangeAll(sizeX, sizeY);
      if GetLiquid(cx, cy) != 0 {
        liquidQueue := liquidQueue + [Point(cx, cy)];
      }
      var tileID := GetTileID(cx, cy);
      if db.verifyTile(tileID, cx, cy, GridOf()) == -1 {
        if fuel > 0 {
          RemoveTile(cx, cy, fuel - 1);
        }
        return;
      }
      RewriteCell(cx, cy);
    }

    /** The step when the tile's rule keeps it: its new state, then the
        overlay handling. */
    method RewriteCell(cx: int, cy: int)
      requires Valid() && GridOf().InBounds(cx, cy)
      modifies tiles, this`overlayQueue
      ensures Valid()
      ensures State() == Rewrite(db, old(State()), cx, cy)
    {
      IdxInRangeAll(sizeX, sizeY);
      var tileID := GetTileID(cx, cy);
      ghost var g := GridOf();
      var state := db.updatedState(tileID, cx, cy, GridOf());
      SetTileState(cx, cy, state);
      if db.isOverlay(tileID) {
        if state == 255 {
          AtSet(g, cx, cy, g.At(cx, cy).(state := state), cx, cy);
          SetTwice(g, cx, cy, g.At(cx, cy).(state := state), g.At(cx, cy).(state := state, id := db.baseTileId(tileID)));
          SetInitialTile(cx, cy, db.baseTileId(tileID));
        } else {
          overlayQueue := overlayQueue + [OverlayRequest(cx, cy, tileID)];
        }
      }
    }

    /** RemoveTile with a recursion budget: a large tile clears its
        footprint, any other tile is replaced by air through SetTile. */
    method RemoveTile(x: int, y: int, fuel: nat)
      requires Valid() && GridOf().Inside(x, y, fuel + 1) && LargeFitsNear(db, sizeX, sizeY, x, y, fuel)
      modifies tiles, this`liquidQueue, this`overlayQueue
      ensures Valid()
      ensures State() == RemoveF(db, old(State()), x, y, fuel)
      decreases fuel, 2, 0
    {
      IdxInRangeAll(sizeX, sizeY);
      var tileID := GetTileID(x, y);
      if db.isLarge(tileID) {
        LargeFitsAnchor(db, tileID, x, y, fuel, GridOf());
        RemoveLargeTile(x, y, tileID);
      } else {
        var _ := SetTile(x, y, 0, fuel);
      }
    }

    // -------------------------------------------------------------------
    // Mining

    /** DamageTile, with the recursion budget its removal passes on. */
    method DamageTile(p: Point, damage: int, fuel: nat)
      requires Valid()
      requires Hits(db, GridOf(), p) && HealthBefore(db, GridOf(), minedTiles, p) - damage <= 0 ==>
        GridOf().Inside(p.x, p.y, fuel + 1) && LargeFitsNear(db, sizeX, sizeY, p.x, p.y, fuel)
      modifies tiles, this`minedTiles, this`liquidQueue, this`overlayQueue
      ensures Valid()
      ensures (State(), minedTiles) == DamageF(db, old(State()), old(minedTiles), p, damage, fuel)
    {
      ghost var b := State();
      ghost var m := minedTiles;
      DamageKeepsHealthy(db, b, m, p, damage, fuel);
      if !IsTileInBounds(p.x, p.y) {
        return;
      }
      IdxInRangeAll(sizeX, sizeY);
      var tileID := GetTileID(p.x, p.y);
      if tileID == 0 {
        return;
      }
      if !db.canBeDamaged(tileID, p.x, p.y, GridOf()) {
        return;
      }
      var rec := if p in minedTiles then minedTiles[p] else DamagedTile(db.health(tileID), 0.0);
      rec := rec.(health := rec.health - damage);
      rec := rec.(time := 0.0);
      if rec.health <= 0 {
        RemoveTile(p.x, p.y, fuel);
        minedTiles := minedTiles - {p};
      } else {
        minedTiles := minedTiles[p := rec];
      }
    }

    /** The record sweep at the end of Update: every record ages by delta
        and those idle too long or whose tile is gone are dropped. The
        sweep walks a snapshot of the keys. */
    method Update(delta: real)
      requires Valid()
      modifies this`minedTiles
      ensures Valid()
      ensures minedTiles == Decay(GridOf(), old(minedTiles), delta)
    {
      ghost var m := minedTiles;
      var keys := minedTiles.Keys;
      while keys != {}
        invariant keys <= m.Keys && Valid() && KeysInBounds(sizeX, sizeY, m)
        invariant minedTiles == SweptBut(GridOf(), m, keys, delta)
        decreases keys
      {
        var p :| p in keys;
        SweepRecord(m, keys, p, delta);
        keys := keys - {p};
      }
    }

    /** One key of the sweep: its record ages, or is dropped. */
    method SweepRecord(ghost m: map<Point, DamagedTile>, ghost keys: set<Point>, p: Point, delta: real)
      requires Valid() && KeysInBounds(sizeX, sizeY, m) && keys <= m.Keys && p in keys
      requires minedTiles == SweptBut(GridOf(), m, keys, delta)
      modifies this`minedTiles
      ensures Valid() && minedTiles == SweptBut(GridOf(), m, keys - {p}, delta)
    {
      IdxInRangeAll(sizeX, sizeY);
      var rec := minedTiles[p];
      rec := rec.(time := rec.time + delta);
      if rec.time > MaxIdleTime || GetTileID(p.x, p.y) == 0 {
        minedTiles := minedTiles - {p};
      } else {
        minedTiles := minedTiles[p := rec];
      }
    }

    // -------------------------------------------------------------------
    // World generation passes

    /** The stone loop of GenerateWorld: stone tile and wall from each
        column's stone top down; returns surfaceTerrain and sets
        _surfaceHeight. */
    method PlaceStone(noise: seq<int>) returns (terrain: seq<int>)
      requires Valid() && |noise| == sizeX
      requires forall i :: 0 <= i < sizeX ==> StoneTop(sizeY, noise[i]) >= 0
      modifies tiles, this`surfaceHeight
      ensures Valid()
      ensures GridOf() == StonePass(old(GridOf()), noise)
      ensures terrain == TerrainLines(sizeY, noise)
      ensures surfaceHeight == SurfaceHeight(sizeY, noise)
    {
      ghost var g := GridOf();
      terrain := seq(sizeX, _ => 0);
      surfaceHeight := sizeY;
      for i := 0 to sizeX
        invariant Valid() && GridOf().Valid()
        invariant ColumnsDone(g, GridOf(), StoneF(sizeY, noise), 0, i)
        invariant |terrain| == sizeX
        invariant forall k :: 0 <= k < sizeX ==> terrain[k] == if k < i then TerrainLine(sizeY, noise[k]) else 0
        invariant surfaceHeight == SurfaceHeightUpTo(sizeY, noise, i)
      {
        ghost var before := GridOf();
        terrain := StoneColumn(i, noise, terrain);
        ColumnsExtend(g, before, GridOf(), StoneF(sizeY, noise), i);
      }
      ColumnsAll(g, GridOf(), StoneF(sizeY, noise));
    }

    /** Column i of the stone loop. */
    method StoneColumn(i: int, noise: seq<int>, terrain: seq<int>) returns (terrain': seq<int>)
      requires Valid() && 0 <= i < sizeX && |noise| == sizeX && StoneTop(sizeY, noise[i]) >= 0
      requires |terrain| == sizeX && terrain[i] == 0 && surfaceHeight == SurfaceHeightUpTo(sizeY, noise, i)
      modifies tiles, this`surfaceHeight
      ensures Valid() && GridOf().Valid()
      ensures ColumnsDone(old(GridOf()), GridOf(), StoneF(sizeY, noise), i, i + 1)
      ensures terrain' == terrain[i := TerrainLine(sizeY, noise[i])]
      ensures surfaceHeight == SurfaceHeightUpTo(sizeY, noise, i + 1)
    {
      ghost var g := GridOf();
      ghost var f := StoneF(sizeY, noise);
      var top := sizeY / 2 - sizeY / 4 + noise[i];
      terrain' := terrain;
      var j := top;
      while j < sizeY
        invariant Valid() && GridOf().Valid()
        invariant top <= j && (j <= sizeY || j == top)
        invariant RowsDone(g, GridOf(), f, i, j)
        invariant terrain' == if j > top then terrain[i := top] else terrain
        invariant surfaceHeight == SurfaceHeightUpTo(sizeY, noise, if j > top then i + 1 else i)
      {
        IdxInRangeAll(sizeX, sizeY);
        ghost var before := GridOf();
        SetInitialTile(i, j, Stone);
        SetInitialWall(i, j, StoneWall);
        SetTwice(before, i, j, before.At(i, j).(id := Stone), before.At(i, j).(id := Stone, wallId := StoneWall));
        RowsStep(g, before, f, i, j, GridOf());
        terrain' := terrain'[i := top];
        if sizeY - terrain'[i] < surfaceHeight {
          surfaceHeight := sizeY - terrain'[i];
        }
        j := j + 1;
      }
      RowsFinish(g, GridOf(), f, i, j);
    }

    /** The dirt loop: 20 rows of dirt from each column's terrain line,
        whose wall is cleared. */
    method PlaceDirt(lines: seq<int>)
      requires Valid() && |lines| == sizeX
      requires forall i :: 0 <= i < sizeX ==> 0 <= lines[i] && lines[i] + DirtDepth <= sizeY
      modifies tiles
      ensures Valid()
      ensures GridOf() == DirtPass(old(GridOf()), lines)
    {
      ghost var g := GridOf();
      for i := 0 to sizeX
        invariant Valid() && GridOf().Valid()
        invariant ColumnsDone(g, GridOf(), DirtF(lines), 0, i)
      {
        ghost var before := GridOf();
        DirtColumn(i, lines);
        ColumnsExtend(g, before, GridOf(), DirtF(lines), i);
      }
      ColumnsAll(g, GridOf(), DirtF(lines));
    }

    /** Column i of the dirt loop. */
    method DirtColumn(i: int, lines: seq<int>)
      requires Valid() && 0 <= i < sizeX && |lines| == sizeX
      requires 0 <= lines[i] && lines[i] + DirtDepth <= sizeY
      modifies tiles
      ensures Valid() && GridOf().Valid()
      ensures ColumnsDone(old(GridOf()), GridOf(), DirtF(lines), i, i + 1)
    {
      ghost var g := GridOf();
      var line := lines[i];
      for j := 0 to DirtDepth
        invariant Valid() && GridOf().Valid()
        invariant DirtDone(g, GridOf(), i, line, j)
      {
        IdxInRangeAll(sizeX, sizeY);
        DirtStep(g, GridOf(), i, line, j);
        if j > 4 {
          SetInitialWall(i, line, 0);
        }
        SetInitialTile(i, line + j, Dirt);
      }
    }

    /** The cave loop: air wherever the carve mask is set, in the rows from
        size_y - _surfaceHeight + 20 on. */
    method CarveCaves(carve: (int, int) -> bool)
      requires Valid() && DirtDepth < surfaceHeight <= sizeY
      modifies tiles
      ensures Valid()
      ensures GridOf() == CavePass(old(GridOf()), carve, surfaceHeight)
    {
      ghost var g := GridOf();
      for x := 0 to sizeX
        invariant Valid() && GridOf().Valid()
        invariant ColumnsDone(g, GridOf(), CaveF(carve, sizeY, surfaceHeight), 0, x)
      {
        ghost var before := GridOf();
        CaveColumn(x, carve);
        ColumnsExtend(g, before, GridOf(), CaveF(carve, sizeY, surfaceHeight), x);
      }
      ColumnsAll(g, GridOf(), CaveF(carve, sizeY, surfaceHeight));
    }

    /** Column x of the cave loop. */
    method CaveColumn(x: int, carve: (int, int) -> bool)
      requires Valid() && 0 <= x < sizeX && surfaceHeight <= sizeY
      modifies tiles
      ensures Valid() && GridOf().Valid()
      ensures ColumnsDone(old(GridOf()), GridOf(), CaveF(carve, sizeY, surfaceHeight), x, x + 1)
    {
      ghost var g := GridOf();
      ghost var f := CaveF(carve, sizeY, surfaceHeight);
      var top := sizeY - surfaceHeight + DirtDepth;
      var y := 0;
      while y < surfaceHeight - DirtDepth - 1
        invariant Valid() && GridOf().Valid() && 0 <= y
        invariant RowsDone(g, GridOf(), f, x, top + y)
      {
        IdxInRangeAll(sizeX, sizeY);
        ghost var before := GridOf();
        if carve(x, y) {
          RemoveInitialTile(x, top + y);
        }
        RowsStep(g, before, f, x, top + y, GridOf());
        y := y + 1;
      }
      RowsFinish(g, GridOf(), f, x, top + y);
    }

    /** The grass loop: dirt in the 8 rows from each column's terrain line
        turns to grass unless its state is 255. */
    method SpreadGrass(lines: seq<int>)
      requires Valid() && |lines| == sizeX
      requires forall i :: 0 <= i < sizeX ==> 0 <= lines[i] && lines[i] + GrassDepth <= sizeY
      modifies tiles
      ensures Valid()
      ensures GridOf() == GrassPass(old(GridOf()), lines)
    {
      ghost var g := GridOf();
      for i := 0 to sizeX
        invariant Valid() && GridOf().Valid()
        invariant ColumnsDone(g, GridOf(), GrassF(lines), 0, i)
      {
        ghost var before := GridOf();
        GrassColumn(i, lines);
        ColumnsExtend(g, before, GridOf(), GrassF(lines), i);
      }
      ColumnsAll(g, GridOf(), GrassF(lines));
    }

    /** Column i of the grass loop. */
    method GrassColumn(i: int, lines: seq<int>)
      requires Valid() && 0 <= i < sizeX && |lines| == sizeX
      requires 0 <= lines[i] && lines[i] + GrassDepth <= sizeY
      modifies tiles
      ensures Valid() && GridOf().Valid()
      ensures ColumnsDone(old(GridOf()), GridOf(), GrassF(lines), i, i + 1)
    {
      ghost var g := GridOf();
      ghost var f := GrassF(lines);
      var line := lines[i];
      for j := 0 to GrassDepth
        invariant Valid() && GridOf().Valid()
        invariant RowsDone(g, GridOf(), f, i, line + j)
      {
        IdxInRangeAll(sizeX, sizeY);
        ghost var before := GridOf();
        if GetTileID(i, line + j) == Dirt && GetTileState(i, line + j) != 255 {
          SetInitialTile(i, line + j, Grass);
        }
        RowsStep(g, before, f, i, line + j, GridOf());
      }
      RowsFinish(g, GridOf(), f, i, line + GrassDepth);
    }

    /** The state loop: every interior cell, column by column, gets the
        state its tile's rule picks, then its wall state. */
    method ComputeStates()
      requires Valid()
      modifies tiles
      ensures Valid()
      ensures GridOf() == StatesPass(db, old(GridOf()))
    {
      ghost var g := GridOf();
      var i := 1;
      while i < sizeX - 1
        invariant Valid() && GridOf().Valid() && 1 <= i && (i <= sizeX - 1 || i == 1)
        invariant GridOf() == VisitColumns(db, g, i - 1)
      {
        StatesColumn(i);
        i := i + 1;
      }
    }

    /** Column i of the state loop. */
    method StatesColumn(i: int)
      requires Valid() && 1 <= i < sizeX - 1
      modifies tiles
      ensures Valid()
      ensures GridOf() == VisitColumn(db, old(GridOf()), i, Interior(sizeY))
    {
      ghost var g := GridOf();
      var j := 1;
      while j < sizeY - 1
        invariant Valid() && GridOf().Valid() && 1 <= j <= Interior(sizeY) + 1
        invariant GridOf() == VisitColumn(db, g, i, j - 1)
      {
        StatesCell(g, i, j);
        j := j + 1;
      }
    }

    /** One visit of the state pass: the tile's rule sets its state, then
        the wall state is recomputed; row j of column i is then done. */
    method StatesCell(ghost g: Grid, i: int, j: int)
      requires Valid() && g.Valid() && g.w == sizeX && g.h == sizeY
      requires 1 <= i < sizeX - 1 && 1 <= j <= Interior(sizeY)
      requires GridOf() == VisitColumn(db, g, i, j - 1)
      modifies tiles
      ensures Valid() && GridOf() == VisitColumn(db, g, i, j)
    {
      IdxInRangeAll(sizeX, sizeY);
      SetTileState(i, j, db.updatedState(GetTileID(i, j), i, j, GridOf()));
      UpdateWallState(i, j);
    }

    /** The tree loop: from column 10 to size_x - 11, a tree wherever the
        column's coin came up and the last tree is more than 5 columns
        back, standing on the terrain line. */
    method PlantTrees(lines: seq<int>, draws: seq<TreeDraw>)
      requires Valid() && |draws| == sizeX
      requires ForestFits(GridOf(), lines, draws, Plantings(draws))
      modifies tiles
      ensures Valid()
      ensures GridOf() == Forest(old(GridOf()), lines, draws, Plantings(draws))
    {
      ghost var g := GridOf();
      ghost var planted: seq<int> := [];
      var lastTreeX := TreeBorder;
      var i := TreeBorder;
      while i < sizeX - TreeBorder
        invariant Valid() && GridOf().Valid() && 0 <= i && lastTreeX <= i
        invariant planted + PlantingsFrom(draws, i, lastTreeX) == Plantings(draws)
        invariant ForestFits(g, lines, draws, planted)
        invariant GridOf() == Forest(g, lines, draws, planted)
        decreases sizeX - i
      {
        planted, lastTreeX := PlantColumn(g, lines, draws, planted, i, lastTreeX);
        i := i + 1;
      }
      assert PlantingsFrom(draws, i, lastTreeX) == [];
      assert planted == Plantings(draws);
    }

    /** One column of the tree loop. */
    method PlantColumn(ghost g: Grid, lines: seq<int>, draws: seq<TreeDraw>, ghost planted: seq<int>, i: int, last: int)
      returns (ghost planted': seq<int>, last': int)
      requires Valid() && g.Valid() && g.w == sizeX && g.h == sizeY && |draws| == sizeX
      requires 0 <= i < sizeX - TreeBorder && last <= i
      requires ForestFits(g, lines, draws, Plantings(draws))
      requires planted + PlantingsFrom(draws, i, last) == Plantings(draws)
      requires ForestFits(g, lines, draws, planted)
      requires GridOf() == Forest(g, lines, draws, planted)
      modifies tiles
      ensures Valid() && last' <= i + 1
      ensures planted' + PlantingsFrom(draws, i + 1, last') == Plantings(draws)
      ensures ForestFits(g, lines, draws, planted')
      ensures GridOf() == Forest(g, lines, draws, planted')
    {
      if draws[i].sprout && i - last > MinTreeDistance {
        PlantingStep(g, lines, draws, planted, i, last);
        GenerateTree(i, lines[i] - 1, draws[i]);
        planted', last' := planted + [i], i;
      } else {
        PlantingsNext(draws, planted, i, last);
        planted', last' := planted, last;
      }
    }

    /** SetInitialTile then SetTileState on one cell. */
    method WriteTile(x: int, y: int, id: u16, state: u8)
      requires Valid() && GridOf().InBounds(x, y)
      modifies tiles
      ensures Valid()
      ensures GridOf() == old(GridOf()).Set(x, y, old(GridOf()).At(x, y).(id := id, state := state))
    {
      IdxInRangeAll(sizeX, sizeY);
      ghost var g := GridOf();
      SetInitialTile(x, y, id);
      SetTileState(x, y, state);
      SetTwice(g, x, y, g.At(x, y).(id := id), g.At(x, y).(id := id, state := state));
    }

    /** GenerateTree(x, y) with the column's draws. */
    method GenerateTree(x: int, y: int, d: TreeDraw)
      requires Valid() && TreeFits(GridOf(), x, y, d)
      modifies tiles
      ensures Valid()
      ensures GridOf() == PlantTree(old(GridOf()), x, y, d)
    {
      ghost var g := GridOf();
      PlaceTreeBase(x, y);
      ghost var g3 := GridOf();
      var height := d.height;
      for h := 1 to height
        invariant Valid() && GridOf().Valid()
        invariant GridOf() == Trunk(g3, x, y, d, h - 1)
      {
        WriteTile(x, y - h, Wood, TrunkStates[d.trunk[h - 1]]);
      }
      WriteTile(x, y - height, TreeTop, 0);
      TreeWritten(g, x, y, d);
    }

    /** The base of GenerateTree: the base cell, then a side piece into
        each empty cell beside it. */
    method PlaceTreeBase(x: int, y: int)
      requires Valid() && 1 <= x < sizeX - 1 && 0 <= y < sizeY
      modifies tiles
      ensures Valid()
      ensures GridOf() == TreeBase(old(GridOf()), x, y)
    {
      IdxInRangeAll(sizeX, sizeY);
      WriteTile(x, y, Wood, 128);
      if GetTileID(x - 1, y) == 0 {
        WriteTile(x - 1, y, Wood, 62);
      }
      if GetTileID(x + 1, y) == 0 {
        WriteTile(x + 1, y, Wood, 130);
      }
    }

    /** GenerateWorld(size_x, size_y) with its noise and random draws as
        inputs: a fresh buffer, then the stone, dirt, cave, state, grass and
        tree passes; the spawn point is the middle column's terrain line. */
    method GenerateWorld(w: nat, h: nat, noise: seq<int>, carve: (int, int) -> bool, draws: seq<TreeDraw>)
      requires Valid() && Generable(w, h, noise, draws)
      requires forall p :: p in minedTiles ==> 0 <= p.x < w && 0 <= p.y < h
      modifies this, tiles
      ensures Valid() && fresh(tiles)
      ensures sizeX == w && sizeY == h
      ensures GridOf() == Generated(db, w, h, noise, carve, draws)
      ensures spawnTile == Point(w / 2, TerrainLine(h, noise[w / 2]))
      ensures surfaceHeight == SurfaceHeight(h, noise)
      ensures tileInventories == map[]
      ensures minedTiles == old(minedTiles)
      ensures liquidQueue == old(liquidQueue) && overlayQueue == old(overlayQueue)
    {
      ResetBuffer(w, h);
      var terrain := BuildLandscape(noise, carve);
      ForestFitsResize(EmptyGrid(w, h), GridOf(), terrain, draws, Plantings(draws));
      PlantTrees(terrain, draws);
    }

    /** GenerateWorld that also forgets the mining records of the world it
        replaces, so the first hit on each cell of the new world starts
        from the health of the tile generated there. */
    method GenerateFreshWorld(w: nat, h: nat, noise: seq<int>, carve: (int, int) -> bool, draws: seq<TreeDraw>)
      requires Valid() && Generable(w, h, noise, draws)
      modifies this, tiles
      ensures Valid() && sizeX == w && sizeY == h
      ensures GridOf() == Generated(db, w, h, noise, carve, draws)
      ensures minedTiles == map[]
      ensures forall p: Point :: GridOf().InBounds(p.x, p.y) ==>
        HealthBefore(db, GridOf(), minedTiles, p) == db.health(GridOf().At(p.x, p.y).id)
    {
      minedTiles := map[];
      GenerateWorld(w, h, noise, carve, draws);
    }

    /** The start of GenerateWorld: the new size, an empty buffer and no
        tile inventories. */
    method ResetBuffer(w: nat, h: nat)
      requires Valid() && forall p :: p in minedTiles ==> 0 <= p.x < w && 0 <= p.y < h
      modifies this
      ensures Valid() && fresh(tiles)
      ensures sizeX == w && sizeY == h && GridOf() == EmptyGrid(w, h)
      ensures tileInventories == map[]
      ensures minedTiles == old(minedTiles) && surfaceHeight == old(surfaceHeight) && spawnTile == old(spawnTile)
      ensures liquidQueue == old(liquidQueue) && overlayQueue == old(overlayQueue)
    {
      sizeX, sizeY := w, h;
      tiles := new Tile[w * h](_ => Tile(0, 0, 0, 0, 0));
      tileInventories := map[];
      forall a, b | 0 <= a < w && 0 <= b < h
        ensures GridOf().At(a, b) == EmptyGrid(w, h).At(a, b)
      {
        FromFlatAt(w, h, tiles[..], a, b);
      }
      GridExt(GridOf(), EmptyGrid(w, h));
    }

    /** The passes of GenerateWorld before the trees: stone, dirt, the
        spawn point, caves, states and grass. */
    method BuildLandscape(noise: seq<int>, carve: (int, int) -> bool) returns (terrain: seq<int>)
      requires Valid() && sizeX > 0 && Terrain(sizeX, sizeY, noise)
      requires GridOf() == EmptyGrid(sizeX, sizeY)
      modifies tiles, this`surfaceHeight, this`spawnTile
      ensures Valid()
      ensures GridOf() == Landscape(db, sizeX, sizeY, noise, carve)
      ensures terrain == TerrainLines(sizeY, noise)
      ensures spawnTile == Point(sizeX / 2, TerrainLine(sizeY, noise[sizeX / 2]))
      ensures surfaceHeight == SurfaceHeight(sizeY, noise)
    {
      terrain := PlaceStone(noise);
      SurfaceHeightIsMinimum(sizeY, noise, |noise|);
      CavesSpareDirt(sizeX, sizeY, noise, carve, 0, 0);
      PlaceDirt(terrain);
      spawnTile := Point(sizeX / 2, terrain[sizeX / 2]);
      CarveCaves(carve);
      ComputeStates();
      SpreadGrass(terrain);
    }

    // -------------------------------------------------------------------
    // Tile inventories

    /** GetTileInventory: the items stored for the cell, or none. */
    function GetTileInventory(p: Point): (r: Option<seq<Item>>)
      reads this
      ensures r.Some? <==> p in tileInventories
      ensures r.Some? ==> r.value == tileInventories[p]
    {
      if p in tileInventories then Some(tileInventories[p]) else None
    }

    /** AddTileInventory: the cell's items are now `items`, whatever was
        stored before; other cells keep theirs. */
    method AddTileInventory(p: Point, items: seq<Item>)
      modifies this`tileInventories
      ensures GetTileInventory(p) == Some(items)
      ensures forall q :: q != p ==> GetTileInventory(q) == old(GetTileInventory(q))
    {
      tileInventories := tileInventories[p := items];
    }

    /** RemoveTileInventory: the cell has no items afterwards (also when it
        had none); other cells keep theirs. */
    method RemoveTileInventory(p: Point)
      modifies this`tileInventories
      ensures GetTileInventory(p) == None
      ensures forall q :: q != p ==> GetTileInventory(q) == old(GetTileInventory(q))
    {
      tileInventories := tileInventories - {p};
    }

    /** InitializeGameUpdates: fresh liquid and overlay updaters, with
        nothing queued. */
    method InitializeGameUpdates()
      modifies this`liquidQueue, this`overlayQueue
      ensures liquidQueue == [] && overlayQueue == []
    {
      liquidQueue, overlayQueue := [], [];
    }
  }
}
