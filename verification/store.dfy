/** The planner's session state and its transitions: a click places the selected
    item (`handleCellClick`), an id can be removed (`handleRemoveItem`), and a
    placed item can be picked up to be moved (`handleMoveItem`). The store is an
    ordered sequence of records; the counter that numbers new ids starts at 0 in
    every session, while the records themselves may have been loaded from an
    earlier one. */
module Store {
  import opened Ids
  import opened Terrain
  import opened Items
  import opened Placement

  datatype Session = Session(
    placed: seq<PlacedItem>,
    counter: nat,
    selected: Option<Item>,
    moving: bool,
    hovered: Option<Cell>)

  /** A fresh session over records loaded from storage: counter 0, nothing selected. */
  function StartSession(loaded: seq<PlacedItem>): Session
  {
    Session(loaded, 0, None, false, None)
  }

  /** A click at (x, y) places something: an item is selected and the validator accepts it,
      with the selected item's id as the type argument. */
  predicate Accepts(t: TerrainMap, s: Session, x: int, y: int): (b: bool)
    requires t.Valid()
    ensures s.selected.None? ==> !b
    ensures b ==> Placeable(t, s.placed, x, y, s.selected.value.size, s.selected.value.id)
  {
    s.selected.Some? &&
    Placeable(t, s.placed, x, y, s.selected.value.size, s.selected.value.id)
  }

  function Last<T>(xs: seq<T>): T
    requires |xs| > 0
  {
    xs[|xs| - 1]
  }

  /** A click on cell (x, y). When accepted, the counter goes up by one and a copy of the
      selected item is appended at (x, y) under the id `<selected id>-<new counter>`; a click
      that finishes a move also clears the selection. Otherwise nothing changes. */
  function HandleCellClick(t: TerrainMap, s: Session, x: int, y: int): (s': Session)
    requires t.Valid()
    ensures !Accepts(t, s, x, y) ==> s' == s
    ensures Accepts(t, s, x, y) ==>
              var sel := s.selected.value;
              && s'.counter == s.counter + 1
              && |s'.placed| == |s.placed| + 1
              && s'.placed[..|s.placed|] == s.placed
              && Last(s'.placed).x == x && Last(s'.placed).y == y
              && Last(s'.placed).item == sel.(id := Last(s'.placed).item.id)
              && Last(s'.placed).item.id == InstanceId(sel.id, s'.counter)
              && CounterOf(Last(s'.placed).item.id) == s'.counter
              && s'.hovered == s.hovered
              && (s.moving ==> s'.selected.None? && !s'.moving)
              && (!s.moving ==> s'.selected == s.selected && !s'.moving)
  {
    if !Accepts(t, s, x, y) then s
    else
      var sel := s.selected.value;
      var counter := s.counter + 1;
      var record := PlacedItem(sel.(id := InstanceId(sel.id, counter)), x, y);
      CounterOfInstanceId(sel.id, counter);
      assert (s.placed + [record])[..|s.placed|] == s.placed;
      var s1 := s.(placed := s.placed + [record], counter := counter);
      if s.moving then s1.(selected := None, moving := false) else s1
  }

  /** The store without the records carrying `id`, in their original order. */
  function RemoveItem(placed: seq<PlacedItem>, id: string): (r: seq<PlacedItem>)
    ensures forall p :: p in r <==> p in placed && p.item.id != id
    ensures (forall i | 0 <= i < |placed| :: placed[i].item.id != id) ==> r == placed
  {
    if |placed| == 0 then []
    else
      var rest := RemoveItem(placed[1..], id);
      assert placed == [placed[0]] + placed[1..];
      if placed[0].item.id == id then rest else [placed[0]] + rest
  }

  /** With an item selected, a click places it exactly when the validator accepts the
      item's size with its id as the type; with nothing selected, a click never places. */
  lemma ClickPlacesIffPlaceable(t: TerrainMap, s: Session, x: int, y: int)
    requires t.Valid()
    ensures var s' := HandleCellClick(t, s, x, y);
            && (s.selected.None? ==> s' == s)
            && (s.selected.Some? ==>
                  (s'.counter == s.counter + 1 <==>
                   Placeable(t, s.placed, x, y, s.selected.value.size, s.selected.value.id)))
  {
  }

  /** Removing keeps every record with another id as many times as it occurred, and no
      record with the removed id. */
  lemma {:induction false} RemoveKeepsCounts(placed: seq<PlacedItem>, id: string)
    ensures forall p: PlacedItem :: multiset(RemoveItem(placed, id))[p] ==
                                    if p.item.id == id then 0 else multiset(placed)[p]
    decreases |placed|
  {
    if |placed| > 0 {
      RemoveKeepsCounts(placed[1..], id);
      assert placed == [placed[0]] + placed[1..];
    }
  }

  /** Picking up a placed item: its record leaves the store, the item (with its instance id)
      becomes the selection, and the hover cell is set to its old anchor. */
  function HandleMoveItem(s: Session, p: PlacedItem): (s': Session)
    ensures s'.placed == RemoveItem(s.placed, p.item.id)
    ensures p !in s'.placed
    ensures s'.selected == Some(p.item) && s'.moving
    ensures s'.hovered == Some(Cell(p.x, p.y))
    ensures s'.counter == s.counter
  {
    s.(placed := RemoveItem(s.placed, p.item.id), selected := Some(p.item),
       hovered := Some(Cell(p.x, p.y)), moving := true)
  }

  /** Removing an id removes it from each part of a store separately, so the records that
      stay keep their relative order. */
  lemma {:induction false} RemoveDistributes(a: seq<PlacedItem>, b: seq<PlacedItem>, id: string)
    ensures RemoveItem(a + b, id) == RemoveItem(a, id) + RemoveItem(b, id)
    decreases |a|
  {
    if |a| > 0 {
      assert (a + b)[1..] == a[1..] + b;
      RemoveDistributes(a[1..], b, id);
    } else {
      assert a + b == b;
    }
  }

  /** Removing the same id twice is the same as removing it once. */
  lemma RemoveIdempotent(placed: seq<PlacedItem>, id: string)
    ensures RemoveItem(RemoveItem(placed, id), id) == RemoveItem(placed, id)
  {
  }

  /** Removing the id of a freshly placed record, when no earlier record carries that id,
      gives back the store as it was before the placement. */
  lemma {:induction false} RemoveUndoesAppend(placed: seq<PlacedItem>, q: PlacedItem)
    requires forall i | 0 <= i < |placed| :: placed[i].item.id != q.item.id
    ensures RemoveItem(placed + [q], q.item.id) == placed
  {
    RemoveDistributes(placed, [q], q.item.id);
    assert [q][1..] == [];
  }

  /** An accepted click followed by removing the new id restores the store. */
  lemma {:induction false} PlaceThenRemoveRestores(t: TerrainMap, s: Session, x: int, y: int)
    requires t.Valid() && Accepts(t, s, x, y)
    requires forall i | 0 <= i < |s.placed| ::
               s.placed[i].item.id != InstanceId(s.selected.value.id, s.counter + 1)
    ensures var s' := HandleCellClick(t, s, x, y);
            RemoveItem(s'.placed, Last(s'.placed).item.id) == s.placed
  {
    var s' := HandleCellClick(t, s, x, y);
    assert s'.placed == s.placed + [Last(s'.placed)];
    RemoveUndoesAppend(s.placed, Last(s'.placed));
  }

  /** Removing records never turns an accepted placement into a rejected one. */
  lemma RemovalNeverRejects(t: TerrainMap, placed: seq<PlacedItem>, id: string,
                            x: int, y: int, size: int, tag: string)
    requires t.Valid() && Placeable(t, placed, x, y, size, tag)
    ensures Placeable(t, RemoveItem(placed, id), x, y, size, tag)
  {
  }

  /** Appending a record never turns a rejected placement into an accepted one. */
  lemma AppendNeverAccepts(t: TerrainMap, placed: seq<PlacedItem>, q: PlacedItem,
                           x: int, y: int, size: int, tag: string)
    requires t.Valid() && !Placeable(t, placed, x, y, size, tag)
    ensures !Placeable(t, placed + [q], x, y, size, tag)
  {
    if Placeable(t, placed + [q], x, y, size, tag) {
      FewerItemsStillAccept(t, placed + [q], placed, x, y, size, tag);
    }
  }

  /** Clicking the same cell again with the same selection does nothing: the copy just
      placed there has the same centre. */
  lemma ClickTwiceRejected(t: TerrainMap, s: Session, x: int, y: int)
    requires t.Valid() && Accepts(t, s, x, y)
    ensures var s1 := HandleCellClick(t, s, x, y);
            HandleCellClick(t, s1, x, y) == s1
  {
  }

  /** Dropping a picked-up item: the record reappears at the end of the store at the clicked
      cell, with the picked-up id extended by the new counter, and placement mode ends. */
  lemma MoveThenDrop(t: TerrainMap, s: Session, p: PlacedItem, x: int, y: int)
    requires t.Valid() && Accepts(t, HandleMoveItem(s, p), x, y)
    ensures var s' := HandleCellClick(t, HandleMoveItem(s, p), x, y);
            && s'.placed == RemoveItem(s.placed, p.item.id) +
                            [PlacedItem(p.item.(id := InstanceId(p.item.id, s.counter + 1)), x, y)]
            && s'.counter == s.counter + 1
            && s'.selected.None? && !s'.moving
  {
    var m := HandleMoveItem(s, p);
    assert m.selected == Some(p.item) && m.moving && m.counter == s.counter;
    assert m.placed == RemoveItem(s.placed, p.item.id);
  }

  /** A field of buildable soil, three cells wide and two high. */
  const Field := TerrainMap([[0, 0, 0], [0, 0, 0]], map[0 := Descriptor("soil", "#000000", true),
                                                       1 := Descriptor("soil", "#000000", true)])

  /** The catalog's crop and its 2x2 tree. */
  const CatalogCrop := Catalog()[0]
  const CatalogTree := Catalog()[4]

  /** The 2x2 tree placed at (0, 0) and the crop placed at (2, 0), by the first two clicks of a session. */
  const PlantedTree := PlacedItem(CatalogTree.(id := InstanceId("tree-2x2", 1)), 0, 0)
  const PlantedCrop := PlacedItem(CatalogCrop.(id := InstanceId("crop", 2)), 2, 0)

  /** The session the example starts from, with the crop still selected. */
  const Planted := Session([PlantedTree, PlantedCrop], 2, Some(CatalogCrop), false, None)

  /** Clicking (0, 0) with the tree selected plants it as `tree-2x2-1`. */
  lemma TreeClickPlants()
    ensures HandleCellClick(Field, Session([], 0, Some(CatalogTree), false, None), 0, 0)
            == Session([PlantedTree], 1, Some(CatalogTree), false, None)
  {
    assert CatalogTree.id == "tree-2x2" && CatalogTree.size == 2;
    assert Accepts(Field, Session([], 0, Some(CatalogTree), false, None), 0, 0);
  }

  /** Clicking (2, 0) with the crop selected plants it as `crop-2` beside the tree. */
  lemma CropClickPlants()
    ensures HandleCellClick(Field, Session([PlantedTree], 1, Some(CatalogCrop), false, None), 2, 0)
            == Planted
  {
    assert CatalogCrop.id == "crop" && CatalogCrop.size == 1;
    assert !Collides(2, 0, 1, "crop", [PlantedTree][0]);
    assert Accepts(Field, Session([PlantedTree], 1, Some(CatalogCrop), false, None), 2, 0);
  }

  /** Selecting the tree, clicking (0, 0), selecting the crop and clicking (2, 0) in a fresh
      session over an empty store reaches `Planted`: both clicks are accepted. */
  lemma PlantingReachable()
    ensures Run(Field, StartSession([]), [Select(Some(CatalogTree)), Click(0, 0),
                                          Select(Some(CatalogCrop)), Click(2, 0)]) == Planted
  {
    var events := [Select(Some(CatalogTree)), Click(0, 0), Select(Some(CatalogCrop)), Click(2, 0)];
    var s1 := Session([], 0, Some(CatalogTree), false, None);
    var s2 := Session([PlantedTree], 1, Some(CatalogTree), false, None);
    var s3 := Session([PlantedTree], 1, Some(CatalogCrop), false, None);
    TreeClickPlants();
    CropClickPlants();
    assert Run(Field, s3, events[3..]) == Planted;
    assert Run(Field, s2, events[2..]) == Planted;
    assert Run(Field, s1, events[1..]) == Planted;
  }

  lemma FreshCropRefusedOnTree()
    ensures !Accepts(Field, Planted, 0, 0)
  {
    assert CatalogCrop.id == "crop" && CatalogCrop.size == 1;
    assert OccursAt(PlantedTree.item.id, "tree", 0);
    assert Collides(0, 0, 1, "crop", Planted.placed[0]);
  }

  lemma MovedCropAcceptedOnTree()
    ensures Accepts(Field, HandleMoveItem(Planted, PlantedCrop), 0, 0)
  {
    MovedCropIsNotCropOrTree(2);
    InstanceIdsDistinct("crop", "tree-2x2", 2, 1);
    var m := HandleMoveItem(Planted, PlantedCrop);
    assert [PlantedTree, PlantedCrop][1..] == [PlantedCrop] && [PlantedCrop][1..] == [];
    assert RemoveItem([PlantedCrop], PlantedCrop.item.id) == [];
    assert m.placed == [PlantedTree];
    assert !Collides(0, 0, 1, PlantedCrop.item.id, PlantedTree);
  }

  /** A picked-up crop is dropped without the crop/tree overlap test. In a session where a
      2x2 tree and a crop were placed side by side, a crop taken from the catalog is refused
      on the tree's corner, while the placed crop, picked up, is accepted there although the
      two squares intersect. */
  lemma MovedCropMayOverlapTree()
    ensures Run(Field, StartSession([]), [Select(Some(CatalogTree)), Click(0, 0),
                                          Select(Some(CatalogCrop)), Click(2, 0)]) == Planted
    ensures Overlaps(0, 0, 1, PlantedTree)
    ensures !Accepts(Field, Planted, 0, 0)
    ensures Accepts(Field, HandleMoveItem(Planted, PlantedCrop), 0, 0)
  {
    PlantingReachable();
    FreshCropRefusedOnTree();
    MovedCropAcceptedOnTree();
  }

  /** The user actions that change the store, the counter or the selection. */
  datatype Event =
    | Select(choice: Option<Item>)
    | Click(x: int, y: int)
    | Remove(id: string)
    | Move(target: PlacedItem)
    | ClearAll

  /** One action. The counter either stays or goes up by one, and when it goes up the last
      record carries the new counter in its id. */
  function Step(t: TerrainMap, s: Session, e: Event): (s': Session)
    requires t.Valid()
    ensures s'.counter == s.counter ||
            (s'.counter == s.counter + 1 && |s'.placed| > 0 && CounterOf(Last(s'.placed).item.id) == s'.counter)
  {
    match e
    case Select(choice) => s.(selected := choice)
    case Click(x, y) => HandleCellClick(t, s, x, y)
    case Remove(id) => s.(placed := RemoveItem(s.placed, id))
    case Move(p) => HandleMoveItem(s, p)
    case ClearAll => s.(placed := [])
  }

  function Run(t: TerrainMap, s: Session, events: seq<Event>): Session
    requires t.Valid()
    decreases |events|
  {
    if |events| == 0 then s else Run(t, Step(t, s, events[0]), events[1..])
  }

  /** The ids of the records the actions create, in creation order. */
  function Generated(t: TerrainMap, s: Session, events: seq<Event>): seq<string>
    requires t.Valid()
    decreases |events|
  {
    if |events| == 0 then []
    else
      var s1 := Step(t, s, events[0]);
      var created := if s1.counter > s.counter then [Last(s1.placed).item.id] else [];
      created + Generated(t, s1, events[1..])
  }

  /** Along any sequence of actions the counter rises by exactly the number of records created,
      and the created ids carry strictly increasing counter values above the starting one. */
  lemma {:induction false} GeneratedCountersIncrease(t: TerrainMap, s: Session, events: seq<Event>)
    requires t.Valid()
    ensures var g := Generated(t, s, events);
            var r := Run(t, s, events);
            && r.counter == s.counter + |g|
            && (forall i | 0 <= i < |g| :: s.counter < CounterOf(g[i]) <= r.counter)
            && (forall i, j | 0 <= i < j < |g| :: CounterOf(g[i]) < CounterOf(g[j]))
    decreases |events|
  {
    if |events| > 0 {
      var s1 := Step(t, s, events[0]);
      GeneratedCountersIncrease(t, s1, events[1..]);
    }
  }

  /** Ids created within one session are pairwise distinct (records loaded from storage may
      still share ids with them or with each other). */
  lemma SessionIdsDistinct(t: TerrainMap, s: Session, events: seq<Event>)
    requires t.Valid()
    ensures var g := Generated(t, s, events);
            forall i, j | 0 <= i < j < |g| :: g[i] != g[j]
  {
    GeneratedCountersIncrease(t, s, events);
  }

  /** In a session started from stored records, the counter counts the records created so
      far, and each created id carries a counter between 1 and that count. */
  lemma FreshSessionIds(t: TerrainMap, loaded: seq<PlacedItem>, events: seq<Event>)
    requires t.Valid()
    ensures var g := Generated(t, StartSession(loaded), events);
            && Run(t, StartSession(loaded), events).counter == |g|
            && (forall i | 0 <= i < |g| :: 1 <= CounterOf(g[i]) <= |g|)
            && (forall i, j | 0 <= i < j < |g| :: g[i] != g[j])
  {
    GeneratedCountersIncrease(t, StartSession(loaded), events);
  }
}
