/** The placement rules (`canPlaceItem`): a candidate square of side `size` anchored
    at (x, y) may be placed when it fits in the grid, every cell under it is
    buildable terrain, and it collides with no placed item. Two items collide
    when their centres coincide, or when both count as "crop or tree" and their
    footprints intersect.

    `tag` is the string the caller passes as the item type; both call sites pass
    the selected item's id, so the crop/tree test is a test on ids. */
module Placement {
  import opened Ids
  import opened Terrain
  import opened Items

  /** The centre coordinate of a footprint along one axis: the anchor plus half the size,
      rounded down (for a divisor of 2, Dafny's division rounds down like `Math.floor`). */
  function Center(anchor: int, size: int): (c: int)
    ensures 2 * (c - anchor) <= size < 2 * (c - anchor) + 2
  {
    anchor + size / 2
  }

  /** The crop/tree test on the candidate's tag: exactly "crop", or containing "tree". */
  predicate NewIsCropOrTree(tag: string): (b: bool)
    ensures b <==> tag == "crop" || exists i :: OccursAt(tag, "tree", i)
  {
    tag == "crop" || Contains(tag, "tree")
  }

  /** The crop/tree test on a placed item's id: containing "crop" or "tree". */
  predicate ExistingIsCropOrTree(id: string): (b: bool)
    ensures b <==> (exists i :: OccursAt(id, "crop", i)) || (exists i :: OccursAt(id, "tree", i))
  {
    Contains(id, "crop") || Contains(id, "tree")
  }

  predicate SharesCenter(x: int, y: int, size: int, p: PlacedItem) {
    Center(x, size) == Center(p.x, p.item.size) && Center(y, size) == Center(p.y, p.item.size)
  }

  /** The half-open rectangles [x, x+size) x [y, y+size) and the placed item's footprint intersect. */
  predicate Overlaps(x: int, y: int, size: int, p: PlacedItem) {
    !(x + size <= p.x || x >= p.x + p.item.size || y + size <= p.y || y >= p.y + p.item.size)
  }

  predicate Collides(x: int, y: int, size: int, tag: string, p: PlacedItem) {
    || SharesCenter(x, y, size, p)
    || (NewIsCropOrTree(tag) && ExistingIsCropOrTree(p.item.id) && Overlaps(x, y, size, p))
  }

  /** The square's far edges stay within the grid. */
  predicate Fits(t: TerrainMap, x: int, y: int, size: int) {
    x + size <= Width(t) && y + size <= Height(t)
  }

  /** Cell (cx, cy) lies in the square of side `size` anchored at (ax, ay). */
  predicate Covers(ax: int, ay: int, size: int, cx: int, cy: int) {
    ax <= cx < ax + size && ay <= cy < ay + size
  }

  predicate SquareBuildable(t: TerrainMap, x: int, y: int, size: int)
    requires t.Valid()
  {
    forall cx, cy | x <= cx < x + size && y <= cy < y + size :: TerrainBuildable(t, cx, cy)
  }

  predicate Clear(placed: seq<PlacedItem>, x: int, y: int, size: int, tag: string) {
    forall i | 0 <= i < |placed| :: !Collides(x, y, size, tag, placed[i])
  }

  /** The placement rules, stated declaratively. */
  predicate Placeable(t: TerrainMap, placed: seq<PlacedItem>, x: int, y: int, size: int, tag: string)
    requires t.Valid()
  {
    Fits(t, x, y, size) && SquareBuildable(t, x, y, size) && Clear(placed, x, y, size, tag)
  }

  /** An accepted square ends within the grid and shares its centre with no placed item;
      every refusal has a witness: a far edge past the grid, an unbuildable cell under the
      square, or a placed item it collides with. */
  lemma PlaceableWitnesses(t: TerrainMap, placed: seq<PlacedItem>, x: int, y: int, size: int, tag: string)
    requires t.Valid()
    ensures Placeable(t, placed, x, y, size, tag) ==>
              && x + size <= Width(t) && y + size <= Height(t)
              && (forall cx, cy | Covers(x, y, size, cx, cy) :: TerrainBuildable(t, cx, cy))
              && (forall i | 0 <= i < |placed| ::
                    Center(x, size) != Center(placed[i].x, placed[i].item.size) ||
                    Center(y, size) != Center(placed[i].y, placed[i].item.size))
              && (forall i | 0 <= i < |placed| ::
                    NewIsCropOrTree(tag) && ExistingIsCropOrTree(placed[i].item.id) ==>
                      !Overlaps(x, y, size, placed[i]))
    ensures !Placeable(t, placed, x, y, size, tag) ==>
              || x + size > Width(t) || y + size > Height(t)
              || (exists cx, cy :: Covers(x, y, size, cx, cy) && !TerrainBuildable(t, cx, cy))
              || (exists i | 0 <= i < |placed| :: Collides(x, y, size, tag, placed[i]))
  {
  }

  /** The validator as the planner runs it: a bounds test, a row-by-row terrain scan,
      then one pass over the placed items, returning at the first failure.
      It decides exactly the declarative rules. */
  method CanPlaceItem(t: TerrainMap, placed: seq<PlacedItem>, x: int, y: int, size: int, tag: string)
    returns (ok: bool)
    requires t.Valid()
    ensures ok == Placeable(t, placed, x, y, size, tag)
  {
    if x + size > Width(t) || y + size > Height(t) {
      return false;
    }

    var dy := 0;
    while dy < size
      invariant dy == 0 || dy <= size
      invariant forall cx, cy | x <= cx < x + size && y <= cy < y + dy :: TerrainBuildable(t, cx, cy)
    {
      var cellY := y + dy;
      var dx := 0;
      while dx < size
        invariant 0 <= dx <= size
        invariant forall cx | x <= cx < x + dx :: TerrainBuildable(t, cx, cellY)
      {
        var cellX := x + dx;
        // the second bounds test of the scan can never fail after the first one
        assert cellX < Width(t) && cellY < Height(t);
        if !TerrainBuildable(t, cellX, cellY) {
          assert Covers(x, y, size, cellX, cellY);
          return false;
        }
        dx := dx + 1;
      }
      dy := dy + 1;
    }

    var centerX, centerY := Center(x, size), Center(y, size);
    for i := 0 to |placed|
      invariant forall j | 0 <= j < i :: !Collides(x, y, size, tag, placed[j])
    {
      var item := placed[i];
      if centerX == Center(item.x, item.item.size) && centerY == Center(item.y, item.item.size) {
        assert Collides(x, y, size, tag, placed[i]);
        return false;
      }
      var isNewItemCropOrTree := tag == "crop" || Contains(tag, "tree");
      var isExistingItemCropOrTree := Contains(item.item.id, "crop") || Contains(item.item.id, "tree");
      if isNewItemCropOrTree && isExistingItemCropOrTree {
        var newLeft, newRight, newTop, newBottom := x, x + size, y, y + size;
        var existingLeft, existingRight := item.x, item.x + item.item.size;
        var existingTop, existingBottom := item.y, item.y + item.item.size;
        if !(newRight <= existingLeft || newLeft >= existingRight ||
             newBottom <= existingTop || newTop >= existingBottom) {
          assert Collides(x, y, size, tag, placed[i]);
          return false;
        }
      }
    }
    return true;
  }

  /** A square that sticks out past the right or bottom edge is rejected, whatever is placed. */
  lemma OutOfBoundsRejected(t: TerrainMap, placed: seq<PlacedItem>, x: int, y: int, size: int, tag: string)
    requires t.Valid()
    requires x + size > Width(t) || y + size > Height(t)
    ensures !Placeable(t, placed, x, y, size, tag)
  {
  }

  /** A terrain without rows is 70 columns wide but has no height, so nothing can be placed
      at or below the top edge. */
  lemma NoRowsNoPlacement(t: TerrainMap, placed: seq<PlacedItem>, x: int, y: int, size: int, tag: string)
    requires t.Valid() && |t.codes| == 0 && y + size > 0
    ensures Width(t) == FallbackWidth
    ensures !Placeable(t, placed, x, y, size, tag)
  {
  }

  /** A square over a single unbuildable cell is rejected. */
  lemma UnbuildableCellRejected(t: TerrainMap, placed: seq<PlacedItem>, x: int, y: int, size: int, tag: string,
                                cx: int, cy: int)
    requires t.Valid()
    requires Covers(x, y, size, cx, cy) && !TerrainBuildable(t, cx, cy)
    ensures !Placeable(t, placed, x, y, size, tag)
  {
  }

  /** A candidate whose centre is the centre of a placed item is rejected, for every kind of item. */
  lemma SharedCenterRejected(t: TerrainMap, placed: seq<PlacedItem>, x: int, y: int, size: int, tag: string, i: int)
    requires t.Valid()
    requires 0 <= i < |placed| && SharesCenter(x, y, size, placed[i])
    ensures !Placeable(t, placed, x, y, size, tag)
  {
  }

  /** Between a crop/tree candidate and a crop/tree item, both of positive size, there is a
      collision exactly when the footprints intersect: a shared centre lies under both. */
  lemma CropTreeCollideIffOverlap(x: int, y: int, size: int, tag: string, p: PlacedItem)
    requires NewIsCropOrTree(tag) && ExistingIsCropOrTree(p.item.id)
    requires size >= 1 && p.item.size >= 1
    ensures Collides(x, y, size, tag, p) <==> Overlaps(x, y, size, p)
  {
  }

  /** Footprints of positive size intersect exactly when some cell lies under both. */
  lemma OverlapIffSharedCell(x: int, y: int, size: int, p: PlacedItem)
    requires size >= 1 && p.item.size >= 1
    ensures Overlaps(x, y, size, p) <==>
            exists cx, cy :: Covers(x, y, size, cx, cy) && Covers(p.x, p.y, p.item.size, cx, cy)
  {
    if Overlaps(x, y, size, p) {
      var cx := if x < p.x then p.x else x;
      var cy := if y < p.y then p.y else y;
      assert Covers(x, y, size, cx, cy) && Covers(p.x, p.y, p.item.size, cx, cy);
    }
  }

  /** Squares that only touch along an edge do not intersect. */
  lemma EdgeContactAllowed(x: int, y: int, size: int, p: PlacedItem)
    requires x + size == p.x || x == p.x + p.item.size || y + size == p.y || y == p.y + p.item.size
    ensures !Overlaps(x, y, size, p)
  {
  }

  /** When no pair is crop/tree on both sides, footprints may overlap freely: the verdict is
      bounds, terrain and the centre rule alone. */
  lemma OtherKindsIgnoreOverlap(t: TerrainMap, placed: seq<PlacedItem>, x: int, y: int, size: int, tag: string)
    requires t.Valid()
    requires forall i | 0 <= i < |placed| :: !(NewIsCropOrTree(tag) && ExistingIsCropOrTree(placed[i].item.id))
    ensures Placeable(t, placed, x, y, size, tag) <==>
            && Fits(t, x, y, size)
            && SquareBuildable(t, x, y, size)
            && forall i | 0 <= i < |placed| :: !SharesCenter(x, y, size, placed[i])
  {
  }

  /** Placing more items never turns a rejection into an acceptance: whatever a store accepts,
      every store holding only some of its items accepts too. */
  lemma FewerItemsStillAccept(t: TerrainMap, placed: seq<PlacedItem>, fewer: seq<PlacedItem>,
                              x: int, y: int, size: int, tag: string)
    requires t.Valid()
    requires forall i | 0 <= i < |fewer| :: fewer[i] in placed
    requires Placeable(t, placed, x, y, size, tag)
    ensures Placeable(t, fewer, x, y, size, tag)
  {
  }

  /** Over an empty store, a one-cell candidate inside the grid is accepted exactly when the
      grid calls the cell buildable. */
  lemma SingleCellMatchesGrid(t: TerrainMap, x: int, y: int, tag: string)
    requires t.Valid() && InGrid(t, x, y)
    ensures Placeable(t, [], x, y, 1, tag) == IsCellBuildable(t, x, y)
  {
  }

  /** For an anchor at or right/below the origin, the bounds and terrain rules of the validator
      together say exactly that the grid calls every cell of the square buildable. */
  lemma SquareMatchesGrid(t: TerrainMap, x: int, y: int, size: int)
    requires t.Valid() && x >= 0 && y >= 0 && size >= 1
    ensures Fits(t, x, y, size) && SquareBuildable(t, x, y, size) <==>
            forall cx, cy | Covers(x, y, size, cx, cy) :: IsCellBuildable(t, cx, cy)
  {
    if forall cx, cy | Covers(x, y, size, cx, cy) :: IsCellBuildable(t, cx, cy) {
      assert Covers(x, y, size, x + size - 1, y + size - 1);
      forall cx, cy | x <= cx < x + size && y <= cy < y + size
        ensures TerrainBuildable(t, cx, cy)
      {
        assert Covers(x, y, size, cx, cy);
      }
    }
  }

  /** A crop that is picked up again keeps its instance id ("crop-N") as the tag, which is no
      longer exactly "crop": once moved, a crop is not a crop/tree candidate. */
  lemma MovedCropIsNotCropOrTree(counter: nat)
    ensures !NewIsCropOrTree(InstanceId("crop", counter))
  {
    var s := InstanceId("crop", counter);
    assert |s| > |"crop"|;
    if Contains(s, "tree") {
      ContainsFirstChar(s, "tree");
      assert false;
    }
  }

  /** An item id that counts as crop/tree still does once the counter is appended. */
  lemma InstanceIdKeepsCropOrTree(base: string, counter: nat)
    requires ExistingIsCropOrTree(base)
    ensures ExistingIsCropOrTree(InstanceId(base, counter))
    ensures Contains(base, "tree") ==> NewIsCropOrTree(InstanceId(base, counter))
  {
    var rest := "-" + DecimalString(counter);
    assert InstanceId(base, counter) == base + rest;
    if Contains(base, "crop") {
      ContainsExtend(base, rest, "crop");
    }
    if Contains(base, "tree") {
      ContainsExtend(base, rest, "tree");
    }
  }
}
