/** The terrain the farm is laid out on, and the grid's buildability and
    border queries (`isCellBuildable`, `getBorderInfo` in FarmGrid). The terrain
    data itself comes from a module that is not part of this model, so it is a
    parameter here: a table of terrain codes per cell and a table of descriptors
    per code. */
module Terrain {

  /** A terrain-code table entry: its name, display colour and whether items may be built on it. */
  datatype Descriptor = Descriptor(kind: string, color: string, buildable: bool)

  /** `codes[y][x]` is the terrain code of cell (x, y); rows may be ragged.
      `types` maps codes to descriptors. */
  datatype TerrainMap = TerrainMap(codes: seq<seq<int>>, types: map<int, Descriptor>) {
    /** The fallback descriptor exists: every lookup that misses reads it unguarded. */
    predicate Valid() {
      DefaultCode in types
    }
  }

  /** The code used for a cell that has none, and the descriptor used for a code that has none. */
  const DefaultCode: int := 1

  /** The grid width used when the terrain has no rows at all. */
  const FallbackWidth: nat := 70

  /** The grid is as wide as the first terrain row and as high as the number of rows. */
  function Width(t: TerrainMap): nat {
    if |t.codes| > 0 then |t.codes[0]| else FallbackWidth
  }

  function Height(t: TerrainMap): nat {
    |t.codes|
  }

  predicate InGrid(t: TerrainMap, x: int, y: int) {
    0 <= x < Width(t) && 0 <= y < Height(t)
  }

  /** The code stored for (x, y), or the default code when the row or the cell is missing. */
  function CodeAt(t: TerrainMap, x: int, y: int): int {
    if 0 <= y < |t.codes| && 0 <= x < |t.codes[y]| then t.codes[y][x] else DefaultCode
  }

  /** The terrain lookup without any bounds test, as the placement validator performs it:
      the cell's own descriptor when both its code and the code's descriptor exist,
      otherwise the descriptor of the default code. */
  function TerrainBuildable(t: TerrainMap, x: int, y: int): (r: bool)
    requires t.Valid()
    ensures (0 <= y < |t.codes| && 0 <= x < |t.codes[y]| && t.codes[y][x] in t.types) ==>
              r == t.types[t.codes[y][x]].buildable
    ensures !(0 <= y < |t.codes| && 0 <= x < |t.codes[y]| && t.codes[y][x] in t.types) ==>
              r == t.types[DefaultCode].buildable
  {
    var code := CodeAt(t, x, y);
    var descriptor := if code in t.types then t.types[code] else t.types[DefaultCode];
    descriptor.buildable
  }

  /** Whether a cell of the grid can be built on: never outside [0, Width) x [0, Height);
      inside, the cell's descriptor decides, with the same fallbacks as the validator. */
  function IsCellBuildable(t: TerrainMap, x: int, y: int): (r: bool)
    requires t.Valid()
    ensures x < 0 || x >= Width(t) || y < 0 || y >= Height(t) ==> !r
    ensures InGrid(t, x, y) && x < |t.codes[y]| && t.codes[y][x] in t.types ==>
              r == t.types[t.codes[y][x]].buildable
    ensures InGrid(t, x, y) && (x >= |t.codes[y]| || t.codes[y][x] !in t.types) ==>
              r == t.types[DefaultCode].buildable
  {
    if !InGrid(t, x, y) then false else TerrainBuildable(t, x, y)
  }

  /** The grid's extent comes from the first row and the number of rows: every cell of the
      first row and every row lies in the grid; the cells a longer row has past the first
      row's length lie outside it and are never buildable; without rows the grid is 70 wide
      and has no cells. */
  lemma GridExtent(t: TerrainMap)
    requires t.Valid()
    ensures |t.codes| > 0 ==> forall x | 0 <= x < |t.codes[0]| :: InGrid(t, x, 0)
    ensures |t.codes| > 0 ==> !InGrid(t, |t.codes[0]|, 0) && !InGrid(t, -1, 0)
    ensures Width(t) > 0 ==> forall y :: InGrid(t, 0, y) <==> 0 <= y < |t.codes|
    ensures forall y, x | 0 <= y < |t.codes| && |t.codes[0]| <= x < |t.codes[y]| :: !IsCellBuildable(t, x, y)
    ensures |t.codes| == 0 ==> Width(t) == FallbackWidth && forall x, y :: !InGrid(t, x, y)
  {
  }

  /** Which sides of a cell are drawn as the edge of a buildable region. */
  datatype Borders = Borders(top: bool, right: bool, bottom: bool, left: bool)

  const NoBorders := Borders(false, false, false, false)

  /** A buildable cell shows a border on each side whose neighbour is not buildable;
      a cell that is not buildable shows none. */
  function GetBorderInfo(t: TerrainMap, x: int, y: int): (b: Borders)
    requires t.Valid()
    ensures !IsCellBuildable(t, x, y) ==> b == NoBorders
    ensures IsCellBuildable(t, x, y) ==>
              && (b.top <==> !IsCellBuildable(t, x, y - 1))
              && (b.right <==> !IsCellBuildable(t, x + 1, y))
              && (b.bottom <==> !IsCellBuildable(t, x, y + 1))
              && (b.left <==> !IsCellBuildable(t, x - 1, y))
  {
    if !IsCellBuildable(t, x, y) then NoBorders
    else
      Borders(
        !IsCellBuildable(t, x, y - 1),
        !IsCellBuildable(t, x + 1, y),
        !IsCellBuildable(t, x, y + 1),
        !IsCellBuildable(t, x - 1, y))
  }

  /** Only buildable cells carry borders. */
  lemma BorderMeansBuildable(t: TerrainMap, x: int, y: int)
    requires t.Valid()
    ensures var b := GetBorderInfo(t, x, y);
            b.top || b.right || b.bottom || b.left ==> IsCellBuildable(t, x, y)
  {
  }

  /** A buildable cell on the edge of the grid always has the border for that edge,
      because the neighbour beyond the edge is never buildable. */
  lemma GridEdgeHasBorder(t: TerrainMap, x: int, y: int)
    requires t.Valid() && IsCellBuildable(t, x, y)
    ensures var b := GetBorderInfo(t, x, y);
            && (y == 0 ==> b.top)
            && (x == Width(t) - 1 ==> b.right)
            && (y == Height(t) - 1 ==> b.bottom)
            && (x == 0 ==> b.left)
  {
  }

  /** On the edge between a cell and its right-hand neighbour at most one of the two draws a
      border, and one does exactly when their buildability differs. */
  lemma SharedVerticalEdge(t: TerrainMap, x: int, y: int)
    requires t.Valid()
    ensures var a := GetBorderInfo(t, x, y);
            var b := GetBorderInfo(t, x + 1, y);
            && !(a.right && b.left)
            && (a.right || b.left <==> IsCellBuildable(t, x, y) != IsCellBuildable(t, x + 1, y))
  {
  }

  /** The same for a cell and the neighbour below it. */
  lemma SharedHorizontalEdge(t: TerrainMap, x: int, y: int)
    requires t.Valid()
    ensures var a := GetBorderInfo(t, x, y);
            var b := GetBorderInfo(t, x, y + 1);
            && !(a.bottom && b.top)
            && (a.bottom || b.top <==> IsCellBuildable(t, x, y) != IsCellBuildable(t, x, y + 1))
  {
  }
}
