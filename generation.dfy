/** The integer part of world generation: the per-column terrain line and
    surface height, what each generation pass does to one cell, where trees
    are planted and the shape of a tree. Noise and random draws are
    inputs. */
module Generation {
  import opened Tiles
  import opened TileDatabase

  const DirtDepth: int := 20
  const GrassDepth: int := 8
  const MinTreeDistance: int := 5
  /** Columns this close to either edge never get a tree. */
  const TreeBorder: int := 10

  const Stone: u16 := 4
  const Dirt: u16 := 1
  const Grass: u16 := 2
  const Wood: u16 := 5
  const TreeTop: u16 := 6
  const StoneWall: u8 := 4

  // ---------------------------------------------------------------------
  // Terrain line and surface height

  /** The first stone row of a column: size_y / 2 - size_y / 4 + noise. */
  function StoneTop(sizeY: nat, noise: int): int
  {
    sizeY / 2 - sizeY / 4 + noise
  }

  /** surfaceTerrain[i]. It is assigned inside the stone loop only, so a
      column whose stone would start at or below the bottom row keeps the
      array's initial 0. */
  function TerrainLine(sizeY: nat, noise: int): int
  {
    if StoneTop(sizeY, noise) < sizeY then StoneTop(sizeY, noise) else 0
  }

  function TerrainLines(sizeY: nat, noise: seq<int>): (r: seq<int>)
    ensures |r| == |noise|
    ensures forall i :: 0 <= i < |noise| ==> r[i] == TerrainLine(sizeY, noise[i])
  {
    seq(|noise|, i requires 0 <= i < |noise| => TerrainLine(sizeY, noise[i]))
  }

  /** _surfaceHeight after the stone loop has run over the first n columns. */
  function SurfaceHeightUpTo(sizeY: nat, noise: seq<int>, n: nat): int
    requires n <= |noise|
  {
    if n == 0 then sizeY
    else
      var sh := SurfaceHeightUpTo(sizeY, noise, n - 1);
      var top := StoneTop(sizeY, noise[n - 1]);
      if top < sizeY && sizeY - top < sh then sizeY - top else sh
  }

  function SurfaceHeight(sizeY: nat, noise: seq<int>): int
  {
    SurfaceHeightUpTo(sizeY, noise, |noise|)
  }

  /** The surface height is the least of size_y - surfaceTerrain[i] over
      the columns (and never more than size_y). */
  lemma {:induction false} SurfaceHeightIsMinimum(sizeY: nat, noise: seq<int>, n: nat)
    requires n <= |noise|
    ensures var r := SurfaceHeightUpTo(sizeY, noise, n);
      && r <= sizeY
      && (forall i :: 0 <= i < n ==> r <= sizeY - TerrainLine(sizeY, noise[i]))
      && (r == sizeY || exists i :: 0 <= i < n && r == sizeY - TerrainLine(sizeY, noise[i]))
  {
    if n > 0 {
      SurfaceHeightIsMinimum(sizeY, noise, n - 1);
    }
  }

  // ---------------------------------------------------------------------
  // What each pass does to one cell (a, b)

  /** Stone pass: stone tile and stone wall from the stone top down. */
  function StoneCell(t: Tile, top: int, b: int): Tile
  {
    if top <= b then t.(id := Stone, wallId := StoneWall) else t
  }

  /** Dirt pass: dirt in the 20 rows from the terrain line down; the wall
      is cleared on the terrain line only (the source clears row
      surfaceTerrain[i] each time its depth exceeds 4, not row j). */
  function DirtCell(t: Tile, line: int, b: int): Tile
  {
    var t1 := if b == line then t.(wallId := 0) else t;
    if line <= b < line + DirtDepth then t1.(id := Dirt) else t1
  }

  /** First world row of the cave window: size_y - surfaceHeight + dirtDepth. */
  function CaveTop(sizeY: nat, surfaceHeight: int): int
  {
    sizeY - surfaceHeight + DirtDepth
  }

  /** Number of noise rows: surfaceHeight - dirtDepth - 1. */
  function CaveRows(surfaceHeight: int): int
  {
    surfaceHeight - DirtDepth - 1
  }

  /** Cave pass: air wherever the carve mask (noise below -0.1) is set,
      inside the cave window; the mask is indexed by column and noise row. */
  function CaveCell(t: Tile, carve: (int, int) -> bool, sizeY: nat, surfaceHeight: int, a: int, b: int): Tile
  {
    var row := b - CaveTop(sizeY, surfaceHeight);
    if 0 <= row < CaveRows(surfaceHeight) && carve(a, row) then t.(id := 0) else t
  }

  /** Grass pass: dirt within 8 rows of the terrain line turns to grass
      unless its state is the isolation sentinel 255. */
  function GrassCell(t: Tile, line: int, b: int): Tile
  {
    if line <= b < line + GrassDepth && t.id == Dirt && t.state != 255 then t.(id := Grass) else t
  }

  // ---------------------------------------------------------------------
  // The passes over the whole buffer

  /** A fresh buffer: `new Tile[size_x * size_y]`, every field 0. */
  function EmptyGrid(w: nat, h: nat): (g: Grid)
    ensures g.Valid() && g.w == w && g.h == h
    ensures forall a, b :: g.InBounds(a, b) ==> g.At(a, b) == Tile(0, 0, 0, 0, 0)
  {
    Grid(w, h, seq(w, _ => seq(h, _ => Tile(0, 0, 0, 0, 0))))
  }

  function StoneF(h: nat, noise: seq<int>): (int, int, Tile) -> Tile
  {
    (a, b, t) => if 0 <= a < |noise| then StoneCell(t, StoneTop(h, noise[a]), b) else t
  }

  function DirtF(lines: seq<int>): (int, int, Tile) -> Tile
  {
    (a, b, t) => if 0 <= a < |lines| then DirtCell(t, lines[a], b) else t
  }

  function CaveF(carve: (int, int) -> bool, h: nat, surfaceHeight: int): (int, int, Tile) -> Tile
  {
    (a, b, t) => CaveCell(t, carve, h, surfaceHeight, a, b)
  }

  function GrassF(lines: seq<int>): (int, int, Tile) -> Tile
  {
    (a, b, t) => if 0 <= a < |lines| then GrassCell(t, lines[a], b) else t
  }

  function StonePass(g: Grid, noise: seq<int>): (r: Grid)
    requires g.Valid()
    ensures r.Valid() && r.w == g.w && r.h == g.h
  {
    Remap(g, StoneF(g.h, noise))
  }

  function DirtPass(g: Grid, lines: seq<int>): (r: Grid)
    requires g.Valid()
    ensures r.Valid() && r.w == g.w && r.h == g.h
  {
    Remap(g, DirtF(lines))
  }

  function CavePass(g: Grid, carve: (int, int) -> bool, surfaceHeight: int): (r: Grid)
    requires g.Valid()
    ensures r.Valid() && r.w == g.w && r.h == g.h
  {
    Remap(g, CaveF(carve, g.h, surfaceHeight))
  }

  function GrassPass(g: Grid, lines: seq<int>): (r: Grid)
    requires g.Valid()
    ensures r.Valid() && r.w == g.w && r.h == g.h
  {
    Remap(g, GrassF(lines))
  }

  /** The number of interior rows (or columns) of a side of length n. */
  function Interior(n: int): nat
  {
    if n >= 2 then n - 2 else 0
  }

  /** One visit of the state pass at (i, j): the tile's rule picks its
      state from the current buffer, then the wall state is recomputed. */
  function Visit(db: TileDb, g: Grid, i: int, j: int): (r: Grid)
    requires g.Valid() && g.Inside(i, j, 1)
    ensures r.Valid() && r.w == g.w && r.h == g.h
  {
    var t := g.At(i, j);
    var g1 := g.Set(i, j, t.(state := db.updatedState(t.id, i, j, g)));
    g1.Set(i, j, g1.At(i, j).(wallState := WallMask(g1, i, j)))
  }

  /** The state pass over rows 1 .. n of column i. */
  function VisitColumn(db: TileDb, g: Grid, i: int, n: nat): (r: Grid)
    requires g.Valid() && 1 <= i < g.w - 1 && n <= Interior(g.h)
    ensures r.Valid() && r.w == g.w && r.h == g.h
  {
    if n == 0 then g else Visit(db, VisitColumn(db, g, i, n - 1), i, n)
  }

  /** The state pass over columns 1 .. m, each top to bottom. */
  function VisitColumns(db: TileDb, g: Grid, m: nat): (r: Grid)
    requires g.Valid() && m <= Interior(g.w)
    ensures r.Valid() && r.w == g.w && r.h == g.h
  {
    if m == 0 then g else VisitColumn(db, VisitColumns(db, g, m - 1), m, Interior(g.h))
  }

  function StatesPass(db: TileDb, g: Grid): (r: Grid)
    requires g.Valid()
    ensures r.Valid() && r.w == g.w && r.h == g.h
  {
    VisitColumns(db, g, Interior(g.w))
  }

  /** Cell (a, b) of r is cell (a, b) of g up to the state pass: the id,
      wall and liquid are the same; a visited cell's wall state is the
      wall mask of g there; a cell not visited is untouched. */
  ghost predicate Restated(g: Grid, r: Grid, a: int, b: int, visited: bool)
    requires g.Valid() && r.Valid() && g.InBounds(a, b) && r.w == g.w && r.h == g.h
  {
    var t, u := g.At(a, b), r.At(a, b);
    && u.id == t.id && u.wallId == t.wallId && u.liquid == t.liquid
    && (visited ==> g.Inside(a, b, 1) && u.wallState == WallMask(g, a, b))
    && (!visited ==> u == t)
  }

  lemma VisitAt(db: TileDb, g: Grid, i: int, j: int, a: int, b: int)
    requires g.Valid() && g.Inside(i, j, 1) && g.InBounds(a, b)
    ensures Restated(g, Visit(db, g, i, j), a, b, a == i && b == j)
  {
    var t := g.At(i, j);
    var g1 := g.Set(i, j, t.(state := db.updatedState(t.id, i, j, g)));
    AtSet(g, i, j, t.(state := db.updatedState(t.id, i, j, g)), a, b);
    AtSet(g1, i, j, g1.At(i, j).(wallState := WallMask(g1, i, j)), a, b);
    if a == i && b == j {
      AtSet(g, i, j, t.(state := db.updatedState(t.id, i, j, g)), i, j - 1);
      AtSet(g, i, j, t.(state := db.updatedState(t.id, i, j, g)), i + 1, j);
      AtSet(g, i, j, t.(state := db.updatedState(t.id, i, j, g)), i, j + 1);
      AtSet(g, i, j, t.(state := db.updatedState(t.id, i, j, g)), i - 1, j);
      WallMaskLocal(g, g1, i, j);
    }
  }

  /** Restated composes when the second step visits cells the first did
      not and keeps the walls around them. */
  lemma RestatedTrans(g: Grid, g1: Grid, g2: Grid, a: int, b: int, v1: bool, v2: bool)
    requires g.Valid() && g1.Valid() && g2.Valid() && g.InBounds(a, b)
    requires g1.w == g.w && g1.h == g.h && g2.w == g.w && g2.h == g.h
    requires Restated(g, g1, a, b, v1) && Restated(g1, g2, a, b, v2) && !(v1 && v2)
    requires v2 ==> (g.Inside(a, b, 1) &&
      g1.At(a, b - 1).wallId == g.At(a, b - 1).wallId && g1.At(a + 1, b).wallId == g.At(a + 1, b).wallId &&
      g1.At(a, b + 1).wallId == g.At(a, b + 1).wallId && g1.At(a - 1, b).wallId == g.At(a - 1, b).wallId)
    ensures Restated(g, g2, a, b, v1 || v2)
  {
    if v2 {
      WallMaskLocal(g, g1, a, b);
    }
  }

  lemma {:induction false} VisitColumnAt(db: TileDb, g: Grid, i: int, n: nat, a: int, b: int)
    requires g.Valid() && 1 <= i < g.w - 1 && n <= Interior(g.h) && g.InBounds(a, b)
    ensures Restated(g, VisitColumn(db, g, i, n), a, b, a == i && 1 <= b <= n)
    decreases n, 0
  {
    if n > 0 {
      var g1 := VisitColumn(db, g, i, n - 1);
      VisitColumnAt(db, g, i, n - 1, a, b);
      VisitAt(db, g1, i, n, a, b);
      if a == i && b == n {
        VisitColumnWalls(db, g, i, n - 1, a, b);
      }
      RestatedTrans(g, g1, Visit(db, g1, i, n), a, b, a == i && 1 <= b <= n - 1, a == i && b == n);
    }
  }

  /** The pass over a column keeps the walls around every interior cell. */
  lemma {:induction false} VisitColumnWalls(db: TileDb, g: Grid, i: int, n: nat, a: int, b: int)
    requires g.Valid() && 1 <= i < g.w - 1 && n <= Interior(g.h) && g.Inside(a, b, 1)
    ensures var g1 := VisitColumn(db, g, i, n);
      g1.At(a, b - 1).wallId == g.At(a, b - 1).wallId && g1.At(a + 1, b).wallId == g.At(a + 1, b).wallId &&
      g1.At(a, b + 1).wallId == g.At(a, b + 1).wallId && g1.At(a - 1, b).wallId == g.At(a - 1, b).wallId
    decreases n, 1
  {
    VisitColumnAt(db, g, i, n, a, b - 1);
    VisitColumnAt(db, g, i, n, a + 1, b);
    VisitColumnAt(db, g, i, n, a, b + 1);
    VisitColumnAt(db, g, i, n, a - 1, b);
  }

  lemma {:induction false} VisitColumnsAt(db: TileDb, g: Grid, m: nat, a: int, b: int)
    requires g.Valid() && m <= Interior(g.w) && g.InBounds(a, b)
    ensures Restated(g, VisitColumns(db, g, m), a, b, 1 <= a <= m && 1 <= b <= Interior(g.h))
  {
    if m > 0 {
      var g1 := VisitColumns(db, g, m - 1);
      VisitColumnsAt(db, g, m - 1, a, b);
      VisitColumnAt(db, g1, m, Interior(g.h), a, b);
      if a == m && 1 <= b <= Interior(g.h) {
        VisitColumnsAt(db, g, m - 1, a, b - 1);
        VisitColumnsAt(db, g, m - 1, a + 1, b);
        VisitColumnsAt(db, g, m - 1, a, b + 1);
        VisitColumnsAt(db, g, m - 1, a - 1, b);
      }
      RestatedTrans(g, g1, VisitColumn(db, g1, m, Interior(g.h)), a, b,
        1 <= a <= m - 1 && 1 <= b <= Interior(g.h), a == m && 1 <= b <= Interior(g.h));
    }
  }

  /** The state pass changes states and wall states only, and only away
      from the border; every interior wall state ends up as the wall mask
      of the buffer it started from. */
  lemma StatesPassAt(db: TileDb, g: Grid, a: int, b: int)
    requires g.Valid() && g.InBounds(a, b)
    ensures Restated(g, StatesPass(db, g), a, b, g.Inside(a, b, 1))
  {
    VisitColumnsAt(db, g, Interior(g.w), a, b);
  }

  // ---------------------------------------------------------------------
  // Trees

  /** The random draws a column would use for a tree: the coin
      (NextDouble() < 0.2), the height (Next(5, 20)) and, per trunk row, an
      index into the trunk state palette (Next(0, 4)). */
  datatype TreeDraw = TreeDraw(sprout: bool, height: int, trunk: seq<int>)

  predicate DrawInRange(d: TreeDraw)
  {
    5 <= d.height < 20 && |d.trunk| == d.height - 1 &&
    forall k :: 0 <= k < |d.trunk| ==> 0 <= d.trunk[k] < 4
  }

  /** _randTreeTileStates */
  const TrunkStates: seq<u8> := [0, 2, 8, 10]

  /** The columns the tree loop plants in, scanning from column i with the
      last tree at column `last`. */
  function PlantingsFrom(draws: seq<TreeDraw>, i: int, last: int): seq<int>
    requires 0 <= i
    decreases |draws| - i
  {
    if i >= |draws| - TreeBorder then []
    else if draws[i].sprout && i - last > MinTreeDistance then [i] + PlantingsFrom(draws, i + 1, i)
    else PlantingsFrom(draws, i + 1, last)
  }

  function Plantings(draws: seq<TreeDraw>): seq<int>
  {
    PlantingsFrom(draws, TreeBorder, TreeBorder)
  }

  /** Columns in [lo, |draws| - 10), each more than 5 past `last` and
      where the coin came up, increasing with gaps above 5. */
  predicate Spaced(ps: seq<int>, draws: seq<TreeDraw>, lo: int, last: int)
  {
    && (forall k :: 0 <= k < |ps| ==>
          0 <= lo <= ps[k] < |draws| - TreeBorder && ps[k] - last > MinTreeDistance && draws[ps[k]].sprout)
    && (forall k :: 0 < k < |ps| ==> ps[k] - ps[k - 1] > MinTreeDistance)
  }

  lemma {:induction false} PlantingsFromSpaced(draws: seq<TreeDraw>, i: int, last: int)
    requires 0 <= i && last <= i
    ensures Spaced(PlantingsFrom(draws, i, last), draws, i, last)
    decreases |draws| - i
  {
    if i < |draws| - TreeBorder {
      var ps := PlantingsFrom(draws, i, last);
      if draws[i].sprout && i - last > MinTreeDistance {
        var rest := PlantingsFrom(draws, i + 1, i);
        PlantingsFromSpaced(draws, i + 1, i);
        assert ps == [i] + rest;
        forall k | 0 < k < |ps|
          ensures ps[k] - ps[k - 1] > MinTreeDistance
        {
          if k > 1 {
            assert ps[k] == rest[k - 1] && ps[k - 1] == rest[k - 2];
          }
        }
      } else {
        PlantingsFromSpaced(draws, i + 1, last);
      }
    }
  }

  /** Trees stand in columns 16 .. size_x - 11 only, each where the coin
      came up, in increasing order and more than 5 columns apart. */
  lemma PlantingsSpaced(draws: seq<TreeDraw>)
    ensures Spaced(Plantings(draws), draws, TreeBorder + MinTreeDistance + 1, TreeBorder)
  {
    PlantingsFromSpaced(draws, TreeBorder, TreeBorder);
  }

  /** A tree fits at column x with its base on row y. */
  predicate TreeFits(g: Grid, x: int, y: int, d: TreeDraw)
  {
    DrawInRange(d) && 1 <= x < g.w - 1 && d.height <= y < g.h
  }

  /** The trunk rows y - 1 .. y - n: wood with the drawn palette state. */
  function Trunk(g: Grid, x: int, y: int, d: TreeDraw, n: nat): (r: Grid)
    requires g.Valid() && TreeFits(g, x, y, d) && n < d.height
    ensures r.Valid() && r.w == g.w && r.h == g.h
  {
    if n == 0 then g
    else
      var prev := Trunk(g, x, y, d, n - 1);
      prev.Set(x, y - n, prev.At(x, y - n).(id := Wood, state := TrunkStates[d.trunk[n - 1]]))
  }

  /** The base of a tree at (x, y), and side pieces into the empty cells
      beside it. */
  function TreeBase(g: Grid, x: int, y: int): (r: Grid)
    requires g.Valid() && 1 <= x < g.w - 1 && 0 <= y < g.h
    ensures r.Valid() && r.w == g.w && r.h == g.h
  {
    var g1 := g.Set(x, y, g.At(x, y).(id := Wood, state := 128));
    var g2 := if g1.At(x - 1, y).id == 0 then g1.Set(x - 1, y, g1.At(x - 1, y).(id := Wood, state := 62)) else g1;
    if g2.At(x + 1, y).id == 0 then g2.Set(x + 1, y, g2.At(x + 1, y).(id := Wood, state := 130)) else g2
  }

  /** Cell (a, c), holding t, once GenerateTree(x, y) has run: the base
      (wood, state 128), a trunk of height - 1 wood rows with palette
      states, a top (id 6, state 0) at y - height, and side pieces (states
      62 and 130) only into empty cells beside the base. */
  function TreeF(x: int, y: int, d: TreeDraw): (int, int, Tile) -> Tile
    requires DrawInRange(d)
  {
    (a: int, c: int, t: Tile) =>
      if a == x && c == y then t.(id := Wood, state := 128)
      else if a == x && y - d.height < c < y then t.(id := Wood, state := TrunkStates[d.trunk[y - c - 1]])
      else if a == x && c == y - d.height then t.(id := TreeTop, state := 0)
      else if a == x - 1 && c == y && t.id == 0 then t.(id := Wood, state := 62)
      else if a == x + 1 && c == y && t.id == 0 then t.(id := Wood, state := 130)
      else t
  }

  /** GenerateTree(x, y): every cell of the buffer as TreeF leaves it. */
  function PlantTree(g: Grid, x: int, y: int, d: TreeDraw): (r: Grid)
    requires g.Valid() && TreeFits(g, x, y, d)
    ensures r.Valid() && r.w == g.w && r.h == g.h
  {
    Remap(g, TreeF(x, y, d))
  }

  /** What cell (a, c) holds after a tree with base (x, y) is planted. */
  function TreeCell(g: Grid, x: int, y: int, d: TreeDraw, a: int, c: int): Tile
    requires g.Valid() && TreeFits(g, x, y, d) && g.InBounds(a, c)
  {
    TreeF(x, y, d)(a, c, g.At(a, c))
  }

  lemma {:induction false} TrunkAt(g: Grid, x: int, y: int, d: TreeDraw, n: nat, a: int, c: int)
    requires g.Valid() && TreeFits(g, x, y, d) && n < d.height && g.InBounds(a, c)
    ensures Trunk(g, x, y, d, n).At(a, c) ==
      if a == x && y - n <= c < y then g.At(a, c).(id := Wood, state := TrunkStates[d.trunk[y - c - 1]])
      else g.At(a, c)
  {
    if n > 0 {
      var prev := Trunk(g, x, y, d, n - 1);
      TrunkAt(g, x, y, d, n - 1, a, c);
      AtSet(prev, x, y - n, prev.At(x, y - n).(id := Wood, state := TrunkStates[d.trunk[n - 1]]), a, c);
      TrunkAt(g, x, y, d, n - 1, x, y - n);
    }
  }

  lemma TreeBaseAt(g: Grid, x: int, y: int, a: int, c: int)
    requires g.Valid() && 1 <= x < g.w - 1 && 0 <= y < g.h && g.InBounds(a, c)
    ensures var t := g.At(a, c);
      TreeBase(g, x, y).At(a, c) ==
        if a == x && c == y then t.(id := Wood, state := 128)
        else if a == x - 1 && c == y && t.id == 0 then t.(id := Wood, state := 62)
        else if a == x + 1 && c == y && t.id == 0 then t.(id := Wood, state := 130)
        else t
  {
  }

  /** The writes of GenerateTree in their order (base, side pieces, trunk
      rows, top) leave cell (a, c) as TreeF says. */
  lemma TreeWrittenAt(g: Grid, x: int, y: int, d: TreeDraw, a: int, c: int)
    requires g.Valid() && TreeFits(g, x, y, d) && g.InBounds(a, c)
    ensures var g4 := Trunk(TreeBase(g, x, y), x, y, d, d.height - 1);
      g4.Set(x, y - d.height, g4.At(x, y - d.height).(id := TreeTop, state := 0)).At(a, c) == TreeCell(g, x, y, d, a, c)
  {
    var g3 := TreeBase(g, x, y);
    TreeBaseAt(g, x, y, a, c);
    TreeBaseAt(g, x, y, x, y - d.height);
    var g4 := Trunk(g3, x, y, d, d.height - 1);
    TrunkAt(g3, x, y, d, d.height - 1, a, c);
    TrunkAt(g3, x, y, d, d.height - 1, x, y - d.height);
    var top := g4.At(x, y - d.height).(id := TreeTop, state := 0);
    AtSet(g4, x, y - d.height, top, a, c);
  }

  /** The writes of GenerateTree in their order plant exactly PlantTree. */
  lemma TreeWritten(g: Grid, x: int, y: int, d: TreeDraw)
    requires g.Valid() && TreeFits(g, x, y, d)
    ensures var g4 := Trunk(TreeBase(g, x, y), x, y, d, d.height - 1);
      g4.Set(x, y - d.height, g4.At(x, y - d.height).(id := TreeTop, state := 0)) == PlantTree(g, x, y, d)
  {
    var g4 := Trunk(TreeBase(g, x, y), x, y, d, d.height - 1);
    var g5 := g4.Set(x, y - d.height, g4.At(x, y - d.height).(id := TreeTop, state := 0));
    var p := PlantTree(g, x, y, d);
    forall a, c | g5.InBounds(a, c)
      ensures g5.At(a, c) == p.At(a, c)
    {
      TreeWrittenAt(g, x, y, d, a, c);
      PlantTreeAt(g, x, y, d, a, c);
    }
    GridExt(g5, p);
  }

  /** Planting changes each cell as TreeCell says. */
  lemma PlantTreeAt(g: Grid, x: int, y: int, d: TreeDraw, a: int, c: int)
    requires g.Valid() && TreeFits(g, x, y, d) && g.InBounds(a, c)
    ensures PlantTree(g, x, y, d).At(a, c) == TreeCell(g, x, y, d, a, c)
  {
  }

  /** A planted tree: the base (x, y) is wood with state 128; each trunk
      row above it is wood with a state from the palette {0, 2, 8, 10};
      the top, id 6 with state 0, sits 5 to 19 rows above the base; a side
      piece (wood, state 62 on the left, 130 on the right) is added beside
      the base exactly where that cell was empty; only ids and states
      change, and every other cell is unchanged. */
  lemma TreeShape(g: Grid, x: int, y: int, d: TreeDraw)
    requires g.Valid() && TreeFits(g, x, y, d)
    ensures var r := PlantTree(g, x, y, d);
      && r.At(x, y) == g.At(x, y).(id := Wood, state := 128)
      && (forall c :: y - d.height < c < y ==>
            r.At(x, c).id == Wood && r.At(x, c).state in {0, 2, 8, 10} &&
            r.At(x, c) == g.At(x, c).(id := Wood, state := r.At(x, c).state))
      && 5 <= d.height <= 19
      && r.At(x, y - d.height) == g.At(x, y - d.height).(id := TreeTop, state := 0)
      && r.At(x - 1, y) == (if g.At(x - 1, y).id == 0 then g.At(x - 1, y).(id := Wood, state := 62) else g.At(x - 1, y))
      && r.At(x + 1, y) == (if g.At(x + 1, y).id == 0 then g.At(x + 1, y).(id := Wood, state := 130) else g.At(x + 1, y))
      && (forall a, c :: g.InBounds(a, c) && !(a == x && y - d.height <= c <= y) && !(a == x - 1 && c == y) && !(a == x + 1 && c == y) ==>
            r.At(a, c) == g.At(a, c))
  {
    var r := PlantTree(g, x, y, d);
    forall c | y - d.height < c < y
      ensures r.At(x, c).id == Wood && r.At(x, c).state in {0, 2, 8, 10}
      ensures r.At(x, c) == g.At(x, c).(id := Wood, state := r.At(x, c).state)
    {
      assert 0 <= d.trunk[y - c - 1] < 4;
    }
  }

  /** A tree's cells depend on the grid only through the cell itself. */
  lemma TreeCellLocal(g: Grid, g': Grid, x: int, y: int, d: TreeDraw, a: int, c: int)
    requires g.Valid() && TreeFits(g, x, y, d) && g.InBounds(a, c)
    requires g'.Valid() && g'.w == g.w && g'.h == g.h && g'.At(a, c) == g.At(a, c)
    ensures TreeCell(g', x, y, d, a, c) == TreeCell(g, x, y, d, a, c)
  {
  }

  /** Cells more than one column away from the trunk are untouched. */
  lemma TreeCellFar(g: Grid, x: int, y: int, d: TreeDraw, a: int, c: int)
    requires g.Valid() && TreeFits(g, x, y, d) && g.InBounds(a, c)
    requires a < x - 1 || x + 1 < a
    ensures TreeCell(g, x, y, d, a, c) == g.At(a, c)
  {
  }

  /** Every planted column has in-range draws and room for its tree, whose
      base sits on row surfaceTerrain[c] - 1. */
  predicate ForestFits(g: Grid, lines: seq<int>, draws: seq<TreeDraw>, cols: seq<int>)
  {
    |lines| == |draws| &&
    forall k :: 0 <= k < |cols| ==>
      0 <= cols[k] < |draws| && TreeFits(g, cols[k], lines[cols[k]] - 1, draws[cols[k]])
  }

  /** The tree loop: a tree at each planted column, left to right. */
  function Forest(g: Grid, lines: seq<int>, draws: seq<TreeDraw>, cols: seq<int>): (r: Grid)
    requires g.Valid() && ForestFits(g, lines, draws, cols)
    ensures r.Valid() && r.w == g.w && r.h == g.h
    decreases |cols|
  {
    if cols == [] then g
    else
      var c := cols[|cols| - 1];
      var front := Forest(g, lines, draws, cols[..|cols| - 1]);
      PlantTree(front, c, lines[c] - 1, draws[c])
  }

  /** The forest is the forest of all but the last column with that
      column's tree planted on top. */
  lemma ForestFront(g: Grid, lines: seq<int>, draws: seq<TreeDraw>, cols: seq<int>)
    requires g.Valid() && ForestFits(g, lines, draws, cols) && cols != []
    ensures ForestFits(g, lines, draws, cols[..|cols| - 1])
    ensures 0 <= cols[|cols| - 1] < |draws|
    ensures TreeFits(Forest(g, lines, draws, cols[..|cols| - 1]), cols[|cols| - 1], lines[cols[|cols| - 1]] - 1, draws[cols[|cols| - 1]])
    ensures Forest(g, lines, draws, cols) ==
      PlantTree(Forest(g, lines, draws, cols[..|cols| - 1]), cols[|cols| - 1], lines[cols[|cols| - 1]] - 1, draws[cols[|cols| - 1]])
  {
    ForestFitsPrefix(g, lines, draws, cols[..|cols| - 1], [cols[|cols| - 1]]);
  }

  /** Columns more than one away from every planted column are untouched. */
  lemma {:induction false} ForestFrame(g: Grid, lines: seq<int>, draws: seq<TreeDraw>, cols: seq<int>, a: int, c: int)
    requires g.Valid() && ForestFits(g, lines, draws, cols) && g.InBounds(a, c)
    requires forall k :: 0 <= k < |cols| ==> a < cols[k] - 1 || cols[k] + 1 < a
    ensures Forest(g, lines, draws, cols).At(a, c) == g.At(a, c)
    decreases |cols|
  {
    if cols != [] {
      var n := |cols| - 1;
      var x := cols[n];
      ForestFront(g, lines, draws, cols);
      ForestFrame(g, lines, draws, cols[..n], a, c);
      PlantTreeAt(Forest(g, lines, draws, cols[..n]), x, lines[x] - 1, draws[x], a, c);
    }
  }

  /** With planted columns more than two apart, every cell of the three
      columns around a planted column is what planting that one tree into
      the original buffer gives. */
  lemma {:induction false} ForestTrees(g: Grid, lines: seq<int>, draws: seq<TreeDraw>, cols: seq<int>, k: int, a: int, c: int)
    requires g.Valid() && ForestFits(g, lines, draws, cols) && g.InBounds(a, c)
    requires forall i, j :: 0 <= i < j < |cols| ==> cols[j] - cols[i] > 2
    requires 0 <= k < |cols| && cols[k] - 1 <= a <= cols[k] + 1
    ensures Forest(g, lines, draws, cols).At(a, c) == TreeCell(g, cols[k], lines[cols[k]] - 1, draws[cols[k]], a, c)
    decreases |cols|
  {
    var n := |cols| - 1;
    var x := cols[n];
    var front := Forest(g, lines, draws, cols[..n]);
    ForestFront(g, lines, draws, cols);
    PlantTreeAt(front, x, lines[x] - 1, draws[x], a, c);
    if k == n {
      ForestFrame(g, lines, draws, cols[..n], a, c);
      TreeCellLocal(g, front, x, lines[x] - 1, draws[x], a, c);
    } else {
      ForestTrees(g, lines, draws, cols[..n], k, a, c);
      TreeCellFar(front, x, lines[x] - 1, draws[x], a, c);
    }
  }

  /** Gaps above 5 between neighbours make every pair more than two apart. */
  lemma {:induction false} SpacedApart(ps: seq<int>, draws: seq<TreeDraw>, lo: int, last: int)
    requires Spaced(ps, draws, lo, last)
    ensures forall i, j :: 0 <= i < j < |ps| ==> ps[j] - ps[i] > 2
    decreases |ps|
  {
    if |ps| > 1 {
      var front := ps[..|ps| - 1];
      assert Spaced(front, draws, lo, last);
      SpacedApart(front, draws, lo, last);
      forall i, j | 0 <= i < j < |ps|
        ensures ps[j] - ps[i] > 2
      {
        if j < |ps| - 1 {
          assert ps[j] == front[j] && ps[i] == front[i];
        } else if i < j - 1 {
          assert front[j - 1] - front[i] > 2;
        }
      }
    }
  }

  /** Planting keeps every wall, wall state and liquid amount. */
  lemma {:induction false} ForestKeepsWalls(g: Grid, lines: seq<int>, draws: seq<TreeDraw>, cols: seq<int>, a: int, c: int)
    requires g.Valid() && ForestFits(g, lines, draws, cols) && g.InBounds(a, c)
    ensures var t, u := g.At(a, c), Forest(g, lines, draws, cols).At(a, c);
      u.wallId == t.wallId && u.wallState == t.wallState && u.liquid == t.liquid
    decreases |cols|
  {
    if cols != [] {
      var n := |cols| - 1;
      var x := cols[n];
      ForestFront(g, lines, draws, cols);
      ForestKeepsWalls(g, lines, draws, cols[..n], a, c);
      PlantTreeAt(Forest(g, lines, draws, cols[..n]), x, lines[x] - 1, draws[x], a, c);
    }
  }

  // ---------------------------------------------------------------------
  // The generated world

  /** A noise value per column, stone that starts at or below the top row,
      and, under every terrain line, the 20 rows of dirt and at least one
      more row. With fewer, the surface height is at most 20 and the cave
      noise would be asked for a negative number of rows, which fails. */
  predicate Terrain(w: nat, h: nat, noise: seq<int>)
  {
    && |noise| == w
    && forall i :: 0 <= i < w ==> StoneTop(h, noise[i]) >= 0 && TerrainLine(h, noise[i]) + DirtDepth + 1 <= h
  }

  /** For such a terrain the cave window has a row count of 0 or more; it
      starts below the dirt of every column and ends above the bottom row.
      So carving never touches a dirt row, a row above it, or the bottom
      row: those cells are as the dirt pass left them. */
  lemma CavesSpareDirt(w: nat, h: nat, noise: seq<int>, carve: (int, int) -> bool, a: int, b: int)
    requires Terrain(w, h, noise) && 0 <= a < w && 0 <= b < h
    ensures var sh := SurfaceHeight(h, noise);
      && CaveRows(sh) >= 0
      && CaveTop(h, sh) >= TerrainLine(h, noise[a]) + DirtDepth
      && CaveTop(h, sh) + CaveRows(sh) == h - 1
    ensures b < TerrainLine(h, noise[a]) + DirtDepth || b == h - 1 ==>
      Caves(w, h, noise, carve).At(a, b) == DirtPass(StonePass(EmptyGrid(w, h), noise), TerrainLines(h, noise)).At(a, b)
  {
    SurfaceHeightIsMinimum(h, noise, |noise|);
    if w > 0 {
      assert TerrainLine(h, noise[0]) >= 0;
    }
  }

  /** What GenerateWorld demands of its inputs for every write to land in
      the buffer and for the cave noise to exist: at least one column, a
      draw per column, the terrain above, and room for each planted tree
      above its column's terrain line. */
  predicate Generable(w: nat, h: nat, noise: seq<int>, draws: seq<TreeDraw>)
  {
    && w > 0 && |draws| == w && Terrain(w, h, noise)
    && ForestFits(EmptyGrid(w, h), TerrainLines(h, noise), draws, Plantings(draws))
  }

  /** The buffer after stone, dirt and caves. */
  function Caves(w: nat, h: nat, noise: seq<int>, carve: (int, int) -> bool): (r: Grid)
    ensures r.Valid() && r.w == w && r.h == h
  {
    var lines := TerrainLines(h, noise);
    CavePass(DirtPass(StonePass(EmptyGrid(w, h), noise), lines), carve, SurfaceHeight(h, noise))
  }

  /** The buffer before the trees: then states and grass. */
  function Landscape(db: TileDb, w: nat, h: nat, noise: seq<int>, carve: (int, int) -> bool): (r: Grid)
    ensures r.Valid() && r.w == w && r.h == h
  {
    GrassPass(StatesPass(db, Caves(w, h, noise, carve)), TerrainLines(h, noise))
  }

  /** The buffer GenerateWorld leaves behind. */
  function Generated(db: TileDb, w: nat, h: nat, noise: seq<int>, carve: (int, int) -> bool, draws: seq<TreeDraw>): (r: Grid)
    requires Generable(w, h, noise, draws)
    ensures r.Valid() && r.w == w && r.h == h
  {
    var land := Landscape(db, w, h, noise, carve);
    assert ForestFits(land, TerrainLines(h, noise), draws, Plantings(draws));
    Forest(land, TerrainLines(h, noise), draws, Plantings(draws))
  }

  /** The wall a generated column has at row b: stone wall from the stone
      top down, except on the terrain line. */
  function GeneratedWall(h: nat, noise: int, b: int): u8
  {
    if StoneTop(h, noise) <= b && b != TerrainLine(h, noise) then StoneWall else 0
  }

  /** After stone, dirt and caves: the wall is the generated wall, and
      no pass has set a wall state or liquid. */
  lemma CavesCell(w: nat, h: nat, noise: seq<int>, carve: (int, int) -> bool, a: int, b: int)
    requires |noise| == w && 0 <= a < w && 0 <= b < h
    ensures var t := Caves(w, h, noise, carve).At(a, b);
      t.wallId == GeneratedWall(h, noise[a], b) && t.wallState == 0 && t.liquid == 0
  {
    var lines := TerrainLines(h, noise);
    var g0 := EmptyGrid(w, h);
    var g1 := StonePass(g0, noise);
    var g2 := DirtPass(g1, lines);
    assert g1.At(a, b) == StoneCell(g0.At(a, b), StoneTop(h, noise[a]), b);
    assert g2.At(a, b) == DirtCell(g1.At(a, b), lines[a], b);
  }

  /** The grass pass changes tile ids only. */
  lemma GrassPassAt(g: Grid, lines: seq<int>, a: int, b: int)
    requires g.Valid() && g.InBounds(a, b)
    ensures var t, u := g.At(a, b), GrassPass(g, lines).At(a, b);
      u.wallId == t.wallId && u.wallState == t.wallState && u.liquid == t.liquid
  {
    assert GrassPass(g, lines).At(a, b) == GrassF(lines)(a, b, g.At(a, b));
  }

  /** After the state and grass passes: walls and liquid as before, and
      every interior wall state is the wall mask there. */
  lemma LandscapeCell(db: TileDb, g: Grid, lines: seq<int>, a: int, b: int)
    requires g.Valid() && g.InBounds(a, b)
    ensures var t, u := g.At(a, b), GrassPass(StatesPass(db, g), lines).At(a, b);
      && u.wallId == t.wallId && u.liquid == t.liquid
      && u.wallState == if g.Inside(a, b, 1) then WallMask(g, a, b) else t.wallState
  {
    StatesPassAt(db, g, a, b);
    GrassPassAt(StatesPass(db, g), lines, a, b);
  }

  lemma GeneratedCell(db: TileDb, w: nat, h: nat, noise: seq<int>, carve: (int, int) -> bool, draws: seq<TreeDraw>, a: int, b: int)
    requires Generable(w, h, noise, draws) && 0 <= a < w && 0 <= b < h
    ensures var caves := Caves(w, h, noise, carve);
      var u := Generated(db, w, h, noise, carve, draws).At(a, b);
      && caves.At(a, b).wallId == u.wallId == GeneratedWall(h, noise[a], b)
      && u.liquid == 0
      && u.wallState == if caves.Inside(a, b, 1) then WallMask(caves, a, b) else 0
  {
    var lines := TerrainLines(h, noise);
    var land := Landscape(db, w, h, noise, carve);
    CavesCell(w, h, noise, carve, a, b);
    LandscapeCell(db, Caves(w, h, noise, carve), lines, a, b);
    ForestFitsResize(EmptyGrid(w, h), land, lines, draws, Plantings(draws));
    ForestKeepsWalls(land, lines, draws, Plantings(draws), a, b);
  }

  /** In the generated world every wall is stone wall exactly from the
      stone top down, off the terrain line; there is no liquid; border
      cells have wall state 0; and every interior wall state is already the
      wall mask of the generated walls. */
  lemma GeneratedWalls(db: TileDb, w: nat, h: nat, noise: seq<int>, carve: (int, int) -> bool, draws: seq<TreeDraw>, a: int, b: int)
    requires Generable(w, h, noise, draws) && 0 <= a < w && 0 <= b < h
    ensures var g := Generated(db, w, h, noise, carve, draws);
      && g.At(a, b).wallId == GeneratedWall(h, noise[a], b)
      && g.At(a, b).liquid == 0
      && (g.Inside(a, b, 1) ==> g.At(a, b).wallState == WallMask(g, a, b))
      && (!g.Inside(a, b, 1) ==> g.At(a, b).wallState == 0)
  {
    var g := Generated(db, w, h, noise, carve, draws);
    var caves := Caves(w, h, noise, carve);
    GeneratedCell(db, w, h, noise, carve, draws, a, b);
    if g.Inside(a, b, 1) {
      NeighbourWalls(db, w, h, noise, carve, draws, a, b);
      WallMaskLocal(caves, g, a, b);
    }
  }

  /** The four neighbour flags of the generated walls around (a, b). */
  function GeneratedNeighbours(h: nat, noise: seq<int>, a: int, b: int): Neighbours
    requires 1 <= a < |noise| - 1
  {
    Neighbours(GeneratedWall(h, noise[a], b - 1) != 0, GeneratedWall(h, noise[a + 1], b) != 0,
               GeneratedWall(h, noise[a], b + 1) != 0, GeneratedWall(h, noise[a - 1], b) != 0)
  }

  lemma CavesNeighbours(w: nat, h: nat, noise: seq<int>, carve: (int, int) -> bool, a: int, b: int)
    requires |noise| == w && 1 <= a < w - 1 && 1 <= b < h - 1
    ensures WallNeighbours(Caves(w, h, noise, carve), a, b) == GeneratedNeighbours(h, noise, a, b)
  {
    CavesCell(w, h, noise, carve, a, b - 1);
    CavesCell(w, h, noise, carve, a + 1, b);
    CavesCell(w, h, noise, carve, a, b + 1);
    CavesCell(w, h, noise, carve, a - 1, b);
  }

  lemma GeneratedWallAt(db: TileDb, w: nat, h: nat, noise: seq<int>, carve: (int, int) -> bool, draws: seq<TreeDraw>, a: int, b: int)
    requires Generable(w, h, noise, draws) && 0 <= a < w && 0 <= b < h
    ensures Generated(db, w, h, noise, carve, draws).At(a, b).wallId == GeneratedWall(h, noise[a], b)
  {
    GeneratedCell(db, w, h, noise, carve, draws, a, b);
  }

  lemma ForestNeighbours(db: TileDb, w: nat, h: nat, noise: seq<int>, carve: (int, int) -> bool, draws: seq<TreeDraw>, a: int, b: int)
    requires Generable(w, h, noise, draws) && 1 <= a < w - 1 && 1 <= b < h - 1
    ensures WallNeighbours(Generated(db, w, h, noise, carve, draws), a, b) == GeneratedNeighbours(h, noise, a, b)
  {
    GeneratedWallAt(db, w, h, noise, carve, draws, a, b - 1);
    GeneratedWallAt(db, w, h, noise, carve, draws, a + 1, b);
    GeneratedWallAt(db, w, h, noise, carve, draws, a, b + 1);
    GeneratedWallAt(db, w, h, noise, carve, draws, a - 1, b);
  }

  lemma NeighbourWalls(db: TileDb, w: nat, h: nat, noise: seq<int>, carve: (int, int) -> bool, draws: seq<TreeDraw>, a: int, b: int)
    requires Generable(w, h, noise, draws) && 1 <= a < w - 1 && 1 <= b < h - 1
    ensures WallNeighbours(Caves(w, h, noise, carve), a, b) == WallNeighbours(Generated(db, w, h, noise, carve, draws), a, b)
  {
    CavesNeighbours(w, h, noise, carve, a, b);
    ForestNeighbours(db, w, h, noise, carve, draws, a, b);
  }

  /** One column of the tree loop: the planted prefix grows by the column
      exactly when the loop plants there. */
  lemma PlantingsNext(draws: seq<TreeDraw>, planted: seq<int>, i: int, last: int)
    requires 0 <= i < |draws| - TreeBorder
    requires planted + PlantingsFrom(draws, i, last) == Plantings(draws)
    ensures draws[i].sprout && i - last > MinTreeDistance ==>
      |planted| < |Plantings(draws)| && Plantings(draws)[|planted|] == i &&
      (planted + [i]) + PlantingsFrom(draws, i + 1, i) == Plantings(draws)
    ensures !(draws[i].sprout && i - last > MinTreeDistance) ==>
      planted + PlantingsFrom(draws, i + 1, last) == Plantings(draws)
  {
    if draws[i].sprout && i - last > MinTreeDistance {
      assert PlantingsFrom(draws, i, last) == [i] + PlantingsFrom(draws, i + 1, i);
      assert planted + ([i] + PlantingsFrom(draws, i + 1, i)) == (planted + [i]) + PlantingsFrom(draws, i + 1, i);
    }
  }

  /** A prefix of fitting columns fits. */
  lemma ForestFitsPrefix(g: Grid, lines: seq<int>, draws: seq<TreeDraw>, cols: seq<int>, rest: seq<int>)
    requires ForestFits(g, lines, draws, cols + rest)
    ensures ForestFits(g, lines, draws, cols)
  {
    assert forall k :: 0 <= k < |cols| ==> cols[k] == (cols + rest)[k];
  }

  /** The tree loop plants one more column on top of the buffer so far. */
  lemma ForestSnoc(g: Grid, lines: seq<int>, draws: seq<TreeDraw>, cols: seq<int>, c: int)
    requires g.Valid() && ForestFits(g, lines, draws, cols)
    requires 0 <= c < |draws| && TreeFits(g, c, lines[c] - 1, draws[c])
    ensures ForestFits(g, lines, draws, cols + [c])
    ensures Forest(g, lines, draws, cols + [c]) ==
      PlantTree(Forest(g, lines, draws, cols), c, lines[c] - 1, draws[c])
  {
    ForestFitsSnoc(g, lines, draws, cols, c);
    ForestLast(g, lines, draws, cols + [c], cols, c);
  }

  /** A column where the tree loop plants: the planting list grows by that
      column and the forest by its tree. */
  lemma PlantingStep(g: Grid, lines: seq<int>, draws: seq<TreeDraw>, planted: seq<int>, i: int, last: int)
    requires g.Valid() && 0 <= i < |draws| - TreeBorder
    requires ForestFits(g, lines, draws, Plantings(draws)) && ForestFits(g, lines, draws, planted)
    requires planted + PlantingsFrom(draws, i, last) == Plantings(draws)
    requires draws[i].sprout && i - last > MinTreeDistance
    ensures (planted + [i]) + PlantingsFrom(draws, i + 1, i) == Plantings(draws)
    ensures TreeFits(Forest(g, lines, draws, planted), i, lines[i] - 1, draws[i])
    ensures ForestFits(g, lines, draws, planted + [i])
    ensures Forest(g, lines, draws, planted + [i]) ==
      PlantTree(Forest(g, lines, draws, planted), i, lines[i] - 1, draws[i])
  {
    PlantingsNext(draws, planted, i, last);
    assert Plantings(draws)[|planted|] == i;
    ForestSnoc(g, lines, draws, planted, i);
  }

  /** Whether the trees fit depends on the size of the grid only. */
  lemma ForestFitsResize(g: Grid, g': Grid, lines: seq<int>, draws: seq<TreeDraw>, cols: seq<int>)
    requires g.w == g'.w && g.h == g'.h && ForestFits(g, lines, draws, cols)
    ensures ForestFits(g', lines, draws, cols)
  {
    forall k | 0 <= k < |cols|
      ensures TreeFits(g', cols[k], lines[cols[k]] - 1, draws[cols[k]])
    {
      assert TreeFits(g, cols[k], lines[cols[k]] - 1, draws[cols[k]]);
    }
  }

  lemma ForestFitsSnoc(g: Grid, lines: seq<int>, draws: seq<TreeDraw>, cols: seq<int>, c: int)
    requires ForestFits(g, lines, draws, cols)
    requires 0 <= c < |draws| && TreeFits(g, c, lines[c] - 1, draws[c])
    ensures ForestFits(g, lines, draws, cols + [c])
  {
    var xs := cols + [c];
    forall k | 0 <= k < |xs|
      ensures 0 <= xs[k] < |draws| && TreeFits(g, xs[k], lines[xs[k]] - 1, draws[xs[k]])
    {
      if k < |cols| {
        assert xs[k] == cols[k];
      }
    }
  }

  lemma ForestLast(g: Grid, lines: seq<int>, draws: seq<TreeDraw>, xs: seq<int>, cols: seq<int>, c: int)
    requires g.Valid() && ForestFits(g, lines, draws, xs) && ForestFits(g, lines, draws, cols)
    requires xs == cols + [c]
    ensures 0 <= c < |draws| && TreeFits(Forest(g, lines, draws, cols), c, lines[c] - 1, draws[c])
    ensures Forest(g, lines, draws, xs) == PlantTree(Forest(g, lines, draws, cols), c, lines[c] - 1, draws[c])
  {
    assert xs[..|xs| - 1] == cols;
    assert xs[|xs| - 1] == c;
  }
}
