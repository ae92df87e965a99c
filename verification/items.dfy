/** The records of the planner: catalog items, placed items, grid cells, and
    the fixed catalog the sidebar offers. */
module Items {

  datatype Option<T> = None | Some(value: T)

  /** The semantic kind of a catalog item. */
  datatype ItemType = Crop | Sprinkler | Tree | Scarecrow | Machine

  /** A catalog entry. `size` is the side of the square footprint; `itemSize` is carried
      along but never read by the placement rules. */
  datatype Item = Item(
    id: string,
    name: string,
    size: int,
    itemSize: int,
    color: string,
    icon: string,
    itemType: ItemType)

  /** An item on the grid: the item's fields (with `id` replaced by an instance id when
      placed through a click) and its top-left anchor. */
  datatype PlacedItem = PlacedItem(item: Item, x: int, y: int)

  datatype Cell = Cell(x: int, y: int)

  /** The items the planner offers, in sidebar order. */
  function Catalog(): seq<Item> {
    [
      Item("crop", "Crop", 1, 1, "#f6c73b75", "🌱", Crop),
      Item("sprinkler-9x9", "9×9 Sprinkler", 9, 1, "#3b82f6", "💧", Sprinkler),
      Item("sprinkler-5x5", "5×5 Sprinkler", 5, 1, "#60a5fa", "💧", Sprinkler),
      Item("sprinkler-3x3", "3×3 Sprinkler", 3, 1, "#93c5fd", "💧", Sprinkler),
      Item("tree-2x2", "2×2 Tree", 2, 1, "#22c55e", "🌳", Tree),
      Item("tree-3x3", "3×3 Tree", 3, 1, "#16a34a", "🌳", Tree),
      Item("scarecrow-11x11", "11×11 Scarecrow", 11, 1, "#eab308", "🎃", Scarecrow),
      Item("scarecrow-5x5", "5×5 Scarecrow", 5, 1, "#fbbf24", "🎃", Scarecrow),
      Item("scarecrow-ultimate", "Ultimate Scarecrow", 19, 1, "#ffbf54", "🎃", Scarecrow),
      Item("machine-1", "Machine 1x1", 1, 1, "#aaaaaa", "⚙️", Machine),
      Item("machine-2", "Machine 2x2", 2, 1, "#333333", "⚙️", Machine)
    ]
  }

  /** Every catalog item has a positive footprint, and no two share an id. */
  lemma CatalogWellFormed()
    ensures forall i | 0 <= i < |Catalog()| :: Catalog()[i].size >= 1
    ensures forall i, j | 0 <= i < j < |Catalog()| :: Catalog()[i].id != Catalog()[j].id
  {
  }
}
