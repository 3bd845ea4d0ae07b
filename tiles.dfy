/** The tile record, the flat tile buffer seen as a value, and the wall
    autotile bitmask. A cell (x, y) lives at index y * width + x. */
module Tiles {

  /** An unsigned byte (C# `byte`). */
  type u8 = v: int | 0 <= v < 256
  /** An unsigned 16-bit integer (C# `ushort`). */
  type u16 = v: int | 0 <= v < 65536

  /** One grid cell: foreground tile id (0 = air), wall id (0 = none), the
      tile's visual state, the wall's visual state and the liquid amount. */
  datatype Tile = Tile(id: u16, wallId: u8, state: u8, wallState: u8, liquid: u8)

  datatype Point = Point(x: int, y: int)

  datatype Option<T> = None | Some(value: T)

  /** The flat index of cell (x, y) in a buffer of rows of `w` cells. */
  function Idx(w: int, x: int, y: int): int
  {
    y * w + x
  }

  lemma MulStep(a: int, w: nat)
    requires a >= 1
    ensures a * w >= w
  {
  }

  lemma {:induction false} IdxInRange(w: nat, h: nat, x: int, y: int)
    requires 0 <= x < w && 0 <= y < h
    ensures 0 <= Idx(w, x, y) < w * h
  {
    assert Idx(w, x, y) < (y + 1) * w;
    MulStep(h - y, w);
    assert (h - y) * w == h * w - y * w;
  }

  lemma IdxInRangeAll(w: nat, h: nat)
    ensures forall x, y :: 0 <= x < w && 0 <= y < h ==> 0 <= Idx(w, x, y) < w * h
  {
    forall x, y | 0 <= x < w && 0 <= y < h
      ensures 0 <= Idx(w, x, y) < w * h
    {
      IdxInRange(w, h, x, y);
    }
  }

  /** For a column inside the row, the flat index lands in the buffer
      exactly when the row is one of its h rows. */
  lemma {:induction false} IdxInRangeIff(w: nat, h: nat, x: int, y: int)
    requires 0 <= x < w
    ensures 0 <= Idx(w, x, y) < w * h <==> 0 <= y < h
  {
    if 0 <= y < h {
      IdxInRange(w, h, x, y);
    } else if y < 0 {
      MulStep(-y, w);
      assert y * w == -((-y) * w);
    } else {
      MulStep(y - h + 1, w);
      assert (y - h + 1) * w == y * w - h * w + w;
    }
  }

  /** Two distinct in-row positions never share a flat index. */
  lemma {:induction false} IdxInjective(w: nat, x: int, y: int, x': int, y': int)
    requires 0 <= x < w && 0 <= x' < w
    requires Idx(w, x, y) == Idx(w, x', y')
    ensures x == x' && y == y'
  {
    if y < y' {
      MulStep(y' - y, w);
      assert false;
    } else if y' < y {
      MulStep(y - y', w);
      assert false;
    }
  }

  /** Column and row are recovered from a flat index by `%` and `/`. */
  lemma {:induction false} IdxDivMod(w: nat, x: int, y: int)
    requires 0 <= x < w
    ensures Idx(w, x, y) % w == x && Idx(w, x, y) / w == y
  {
    var k := Idx(w, x, y);
    var q, r := k / w, k % w;
    assert k == q * w + r && 0 <= r < w;
    assert Idx(w, r, q) == Idx(w, x, y);
    IdxInjective(w, r, q, x, y);
  }

  lemma {:induction false} IdxOfCoords(w: nat, h: nat, k: int)
    requires 0 <= k < w * h
    ensures 0 <= k % w < w && 0 <= k / w < h && Idx(w, k % w, k / w) == k
  {
    assert w != 0;
    var q, r := k / w, k % w;
    assert k == q * w + r;
    if q >= h {
      MulStep(q - h + 1, w);
      assert false;
    }
  }

  /** The tile buffer of a world of `w` by `h` cells, as a value: column
      x holds the cells (x, 0) .. (x, h - 1). */
  datatype Grid = Grid(w: nat, h: nat, cells: seq<seq<Tile>>) {

    ghost predicate Valid()
    {
      |cells| == w && forall x :: 0 <= x < w ==> |cells[x]| == h
    }

    /** IsTileInBounds. */
    predicate InBounds(x: int, y: int)
    {
      0 <= x < w && 0 <= y < h
    }

    /** (x, y) lies at least `m` cells away from every border. */
    predicate Inside(x: int, y: int, m: nat)
    {
      m <= x < w - m && m <= y < h - m
    }

    function At(x: int, y: int): Tile
      requires Valid() && InBounds(x, y)
    {
      cells[x][y]
    }

    function Set(x: int, y: int, t: Tile): (g: Grid)
      requires Valid() && InBounds(x, y)
      ensures g.Valid() && g.w == w && g.h == h
    {
      this.(cells := cells[x := cells[x][y := t]])
    }
  }

  /** A second write to a cell replaces the first. */
  lemma SetTwice(g: Grid, x: int, y: int, t: Tile, t': Tile)
    requires g.Valid() && g.InBounds(x, y)
    ensures g.Set(x, y, t).Set(x, y, t') == g.Set(x, y, t')
  {
    assert g.cells[x][y := t][y := t'] == g.cells[x][y := t'];
  }

  /** Writing one cell changes exactly that cell. */
  lemma AtSet(g: Grid, x: int, y: int, t: Tile, a: int, b: int)
    requires g.Valid() && g.InBounds(x, y) && g.InBounds(a, b)
    ensures g.Set(x, y, t).At(a, b) == if a == x && b == y then t else g.At(a, b)
  {
  }

  lemma AtSetAll(g: Grid, x: int, y: int, t: Tile)
    requires g.Valid() && g.InBounds(x, y)
    ensures forall a, b :: g.InBounds(a, b) ==>
      g.Set(x, y, t).At(a, b) == if a == x && b == y then t else g.At(a, b)
  {
  }

  /** Two grids of the same size are equal when they agree on every cell. */
  lemma GridExt(g: Grid, g': Grid)
    requires g.Valid() && g'.Valid() && g.w == g'.w && g.h == g'.h
    requires forall a, b :: g.InBounds(a, b) ==> g.At(a, b) == g'.At(a, b)
    ensures g == g'
  {
    forall a | 0 <= a < g.w
      ensures g.cells[a] == g'.cells[a]
    {
      forall b | 0 <= b < g.h
        ensures g.cells[a][b] == g'.cells[a][b]
      {
        assert g.At(a, b) == g'.At(a, b);
      }
    }
  }

  // ---------------------------------------------------------------------
  // The flat buffer

  /** Column a of Remap(g, f). */
  function RemapColumn(g: Grid, f: (int, int, Tile) -> Tile, a: int): (col: seq<Tile>)
    requires g.Valid() && 0 <= a < g.w
    ensures |col| == g.h
  {
    seq(g.h, b requires 0 <= b < g.h => f(a, b, g.At(a, b)))
  }

  /** The first n columns of Remap(g, f). */
  function RemapColumns(g: Grid, f: (int, int, Tile) -> Tile, n: nat): (cols: seq<seq<Tile>>)
    requires g.Valid() && n <= g.w
    ensures |cols| == n && forall a :: 0 <= a < n ==> |cols[a]| == g.h
  {
    if n == 0 then [] else RemapColumns(g, f, n - 1) + [RemapColumn(g, f, n - 1)]
  }

  lemma {:induction false} RemapColumnsAt(g: Grid, f: (int, int, Tile) -> Tile, n: nat, a: int)
    requires g.Valid() && 0 <= a < n <= g.w
    ensures RemapColumns(g, f, n)[a] == RemapColumn(g, f, a)
  {
    if a < n - 1 {
      RemapColumnsAt(g, f, n - 1, a);
    }
  }

  lemma RemapColumnsAll(g: Grid, f: (int, int, Tile) -> Tile)
    requires g.Valid()
    ensures forall a :: 0 <= a < g.w ==> RemapColumns(g, f, g.w)[a] == RemapColumn(g, f, a)
  {
    forall a | 0 <= a < g.w
      ensures RemapColumns(g, f, g.w)[a] == RemapColumn(g, f, a)
    {
      RemapColumnsAt(g, f, g.w, a);
    }
  }

  /** Every cell (a, b) replaced by f(a, b, old cell). */
  function Remap(g: Grid, f: (int, int, Tile) -> Tile): (r: Grid)
    requires g.Valid()
    ensures r.Valid() && r.w == g.w && r.h == g.h
    ensures forall a, b :: g.InBounds(a, b) ==> r.At(a, b) == f(a, b, g.At(a, b))
  {
    RemapColumnsAll(g, f);
    Grid(g.w, g.h, RemapColumns(g, f, g.w))
  }

  /** The tile at flat position k, or air past the end. */
  function FlatTile(s: seq<Tile>, k: int): Tile
  {
    if 0 <= k < |s| then s[k] else Tile(0, 0, 0, 0, 0)
  }

  /** Column x of a flat buffer of rows of `w` cells. */
  function FlatColumn(w: nat, h: nat, s: seq<Tile>, x: int): (col: seq<Tile>)
    ensures |col| == h
  {
    seq(h, y => FlatTile(s, Idx(w, x, y)))
  }

  /** The first n columns of a flat buffer. */
  function FlatColumns(w: nat, h: nat, s: seq<Tile>, n: nat): (cols: seq<seq<Tile>>)
    ensures |cols| == n && forall x :: 0 <= x < n ==> |cols[x]| == h
  {
    if n == 0 then [] else FlatColumns(w, h, s, n - 1) + [FlatColumn(w, h, s, n - 1)]
  }

  lemma {:induction false} FlatColumnsAt(w: nat, h: nat, s: seq<Tile>, n: nat, x: int)
    requires 0 <= x < n
    ensures FlatColumns(w, h, s, n)[x] == FlatColumn(w, h, s, x)
  {
    if x < n - 1 {
      FlatColumnsAt(w, h, s, n - 1, x);
    }
  }

  /** The grid a flat buffer of rows of `w` cells describes. */
  function FromFlat(w: nat, h: nat, s: seq<Tile>): (g: Grid)
    ensures g.Valid() && g.w == w && g.h == h
  {
    Grid(w, h, FlatColumns(w, h, s, w))
  }

  /** Cell (x, y) of the grid is the buffer's entry y * w + x. */
  lemma FromFlatAt(w: nat, h: nat, s: seq<Tile>, x: int, y: int)
    requires |s| == w * h && 0 <= x < w && 0 <= y < h
    ensures 0 <= Idx(w, x, y) < |s| && FromFlat(w, h, s).At(x, y) == s[Idx(w, x, y)]
  {
    IdxInRange(w, h, x, y);
    FlatColumnsAt(w, h, s, w, x);
  }

  /** Writing entry y * w + x of the buffer writes cell (x, y). */
  lemma FromFlatSet(w: nat, h: nat, s: seq<Tile>, x: int, y: int, t: Tile)
    requires |s| == w * h && 0 <= x < w && 0 <= y < h
    ensures 0 <= Idx(w, x, y) < |s|
    ensures FromFlat(w, h, s[Idx(w, x, y) := t]) == FromFlat(w, h, s).Set(x, y, t)
  {
    IdxInRange(w, h, x, y);
    var g, g' := FromFlat(w, h, s[Idx(w, x, y) := t]), FromFlat(w, h, s).Set(x, y, t);
    forall a, b | g.InBounds(a, b)
      ensures g.At(a, b) == g'.At(a, b)
    {
      FromFlatAt(w, h, s[Idx(w, x, y) := t], a, b);
      FromFlatAt(w, h, s, a, b);
      if Idx(w, a, b) == Idx(w, x, y) {
        IdxInjective(w, a, b, x, y);
      }
    }
    GridExt(g, g');
  }

  /** Any position of the buffer is the cell its index recovers by `%` and
      `/`: a column off either side of a row lands in the neighbouring row. */
  lemma FlatCell(w: nat, h: nat, s: seq<Tile>, x: int, y: int)
    requires |s| == w * h && 0 <= Idx(w, x, y) < |s|
    ensures var k := Idx(w, x, y);
      0 <= k % w < w && 0 <= k / w < h && s[k] == FromFlat(w, h, s).At(k % w, k / w)
  {
    var k := Idx(w, x, y);
    IdxOfCoords(w, h, k);
    FromFlatAt(w, h, s, k % w, k / w);
  }

  // ---------------------------------------------------------------------
  // Wall autotile bitmask

  /** Which of the four edge neighbours carry a wall. */
  datatype Neighbours = Neighbours(top: bool, right: bool, bottom: bool, left: bool)

  /** Math.Sign of a wall id (wall ids are never negative). */
  function Sign(v: int): int
  {
    if v > 0 then 1 else if v < 0 then -1 else 0
  }

  /** The walls around (x, y); the diagonals are not looked at. */
  function WallNeighbours(g: Grid, x: int, y: int): Neighbours
    requires g.Valid() && g.Inside(x, y, 1)
  {
    Neighbours(g.At(x, y - 1).wallId != 0, g.At(x + 1, y).wallId != 0,
               g.At(x, y + 1).wallId != 0, g.At(x - 1, y).wallId != 0)
  }

  /** Reads the four neighbour flags back out of a wall state byte. */
  function DecodeWallState(m: int): Neighbours
  {
    Neighbours(m / 2 % 2 == 1, m / 8 % 2 == 1, m / 32 % 2 == 1, m / 128 % 2 == 1)
  }

  /** The wall state UpdateWallState writes at (x, y): 0 without a wall,
      otherwise 2 for a wall above, 8 to the right, 32 below and 128 to
      the left, summed. */
  function WallMask(g: Grid, x: int, y: int): (m: u8)
    requires g.Valid() && g.Inside(x, y, 1)
    ensures g.At(x, y).wallId == 0 ==> m == 0
  {
    if g.At(x, y).wallId == 0 then 0
    else
      var top := g.At(x, y - 1).wallId;
      var right := g.At(x + 1, y).wallId;
      var bottom := g.At(x, y + 1).wallId;
      var left := g.At(x - 1, y).wallId;
      Sign(top) * 2 + Sign(right) * 8 + Sign(bottom) * 32 + Sign(left) * 128
  }

  /** The mask records exactly which edge neighbours carry a wall: each
      flag reads back out of its bit, the mask is 0 only for a cell
      without a wall or with no walls around it, and it is an even number
      of at most 2 + 8 + 32 + 128. */
  lemma WallMaskDecodes(g: Grid, x: int, y: int)
    requires g.Valid() && g.Inside(x, y, 1)
    ensures var m := WallMask(g, x, y);
      && (g.At(x, y).wallId != 0 ==> DecodeWallState(m) == WallNeighbours(g, x, y))
      && (m == 0 <==> g.At(x, y).wallId == 0 || WallNeighbours(g, x, y) == Neighbours(false, false, false, false))
      && m <= 170 && m % 2 == 0
  {
  }

  /** A wall closed in on all four sides gets 2 + 8 + 32 + 128. */
  lemma WallMaskSurrounded(g: Grid, x: int, y: int)
    requires g.Valid() && g.Inside(x, y, 1)
    requires g.At(x, y).wallId != 0 && WallNeighbours(g, x, y) == Neighbours(true, true, true, true)
    ensures WallMask(g, x, y) == 170
  {
  }

  /** The mask depends on the walls of the cell and its four edge
      neighbours only: tile ids, states, liquid and the diagonal cells do
      not matter. */
  lemma WallMaskLocal(g: Grid, g': Grid, x: int, y: int)
    requires g.Valid() && g.Inside(x, y, 1) && g'.Valid() && g'.Inside(x, y, 1)
    requires g.At(x, y).wallId == g'.At(x, y).wallId
    requires WallNeighbours(g, x, y) == WallNeighbours(g', x, y)
    ensures WallMask(g, x, y) == WallMask(g', x, y)
  {
  }
}
