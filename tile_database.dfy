/** The tile-type rule table the world consults. Its rules are external to
    the world, so they are kept uninterpreted: a database is any record of
    total functions, and every property of the model holds for all of them.
    Rules that look at the world receive the current grid. */
module TileDatabase {
  import opened Tiles

  /** VerifyTile's answer: 1 valid, 0 invalid, -1 must be removed. */
  type Verdict = v: int | -1 <= v <= 1

  /** LargeTileData: the footprint size in cells and the rule that maps a
      cell of a placed large tile to its top-left anchor. */
  datatype LargeTileData = LargeTileData(
    sizeX: int,
    sizeY: int,
    topLeft: (int, int, Grid) -> Point)

  datatype TileDb = TileDb(
    /** GetTileData(id).VerifyTile(x, y) */
    verifyTile: (u16, int, int, Grid) -> Verdict,
    /** GetTileData(id).GetUpdatedTileState(x, y) */
    updatedState: (u16, int, int, Grid) -> u8,
    /** GetTileData(id).CanTileBeDamaged(x, y) */
    canBeDamaged: (u16, int, int, Grid) -> bool,
    /** GetTileData(id).Health */
    health: u16 -> int,
    /** TileHasProperty(id, TileProperty.LargeTile) */
    isLarge: u16 -> bool,
    /** TileHasProperty(id, TileProperty.Overlay) */
    isOverlay: u16 -> bool,
    /** GetTileData(id).BaseTileID */
    baseTileId: u16 -> u16,
    /** Some(data) when GetTileData(id) is a LargeTileData */
    largeData: u16 -> Option<LargeTileData>)

  /** A footprint of `d`'s size anchored at `tl` lies inside a w by h grid
      (an empty footprint always does). */
  predicate FitsAt(d: LargeTileData, tl: Point, w: int, h: int)
  {
    d.sizeX <= 0 || d.sizeY <= 0 ||
    (0 <= tl.x && tl.x + d.sizeX <= w && 0 <= tl.y && tl.y + d.sizeY <= h)
  }

  /** The footprint that large tile `id` anchors from (x, y) on grid `g`
      lies inside `g`; trivially so when the id has no large tile data.
      SetLargeTile and RemoveLargeTile write that footprint without a
      bounds check, so this is what a call to them needs. */
  predicate AnchorFits(db: TileDb, id: u16, x: int, y: int, g: Grid)
  {
    db.largeData(id).Some? ==>
      FitsAt(db.largeData(id).value, db.largeData(id).value.topLeft(x, y, g), g.w, g.h)
  }

  /** Every large tile anchored from a cell of a w by h grid at most r
      columns and r rows away from (x, y) fits, whatever the grid holds.
      A SetTile with recursion budget r can reach a large-tile write at
      any such cell, on a grid the cascade has changed in ways not known
      before the call. */
  ghost predicate LargeFitsNear(db: TileDb, w: int, h: int, x: int, y: int, r: int)
  {
    forall id: u16, a: int, c: int, g: Grid
      {:trigger FitsAt(db.largeData(id).value, db.largeData(id).value.topLeft(a, c, g), w, h)} ::
      0 <= a < w && 0 <= c < h && x - r <= a <= x + r && y - r <= c <= y + r &&
      db.isLarge(id) && db.largeData(id).Some? ==>
        FitsAt(db.largeData(id).value, db.largeData(id).value.topLeft(a, c, g), w, h)
  }

  /** The condition for a window carries over to any window inside it. */
  lemma LargeFitsWithin(db: TileDb, w: int, h: int, x: int, y: int, r: int, x': int, y': int, r': int)
    requires LargeFitsNear(db, w, h, x, y, r)
    requires x - r <= x' - r' && x' + r' <= x + r && y - r <= y' - r' && y' + r' <= y + r
    ensures LargeFitsNear(db, w, h, x', y', r')
  {
  }

  /** At the window's centre, a large tile's own footprint fits. */
  lemma LargeFitsAnchor(db: TileDb, id: u16, x: int, y: int, r: int, g: Grid)
    requires LargeFitsNear(db, g.w, g.h, x, y, r) && r >= 0 && 0 <= x < g.w && 0 <= y < g.h
    requires db.isLarge(id)
    ensures AnchorFits(db, id, x, y, g)
  {
  }
}
