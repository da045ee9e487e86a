/**
 Inserting a new item into the forest (`addItemToStructure`): at the end of the
 top level when the item has no parent id, otherwise as the last child of every
 item the top-down search for that parent id stops at. A parent id that occurs
 nowhere leaves the forest as it was: the new item is dropped.
 */
module TreeInsert {
  import opened Wrappers
  import opened NoteTree

  /** The `items.map` callback: append to a matching item's children (creating
      the list when absent) without looking further inside it; otherwise search
      the children, if there are any. */
  function AddToItem(x: Item, newItem: Item): (r: Item)
    requires Truthy(newItem.parentId)
    ensures r.id == x.id && r.name == x.name && r.kind == x.kind
    ensures r.content == x.content && r.parentId == x.parentId
    ensures newItem.parentId.value !in ItemIds(x) ==> r == x
    ensures newItem.parentId.value in ItemIds(x) ==> ItemIds(r) == ItemIds(x) + ItemIds(newItem)
    decreases x
  {
    if Some(x.id) == newItem.parentId then
      ForestIdsAppend(ChildList(x), newItem);
      x.(children := Present(ChildList(x) + [newItem]))
    else
      match x.children
      case Absent => x
      case Present(cs) => x.(children := Present(AddItemToStructure(cs, newItem)))
  }

  function AddItemToStructure(items: seq<Item>, newItem: Item): (r: seq<Item>)
    // no parent: appended last at the top level, everything before it kept
    ensures !Truthy(newItem.parentId) ==> r == items + [newItem]
    // a parent: the top level keeps its length and its ids in order
    ensures Truthy(newItem.parentId) ==>
      |r| == |items| && forall i :: 0 <= i < |r| ==> r[i].id == items[i].id
    // unknown parent: nothing changes, the new item is dropped
    ensures Truthy(newItem.parentId) && newItem.parentId.value !in ForestIds(items) ==> r == items
    // known parent: exactly the new item's ids join the forest
    ensures Truthy(newItem.parentId) && newItem.parentId.value in ForestIds(items) ==>
      ForestIds(r) == ForestIds(items) + ItemIds(newItem)
    decreases items
  {
    if !Truthy(newItem.parentId) then
      items + [newItem]
    else
      seq(|items|, i requires 0 <= i < |items| => AddToItem(items[i], newItem))
  }

  /** One position of the mapped forest. */
  lemma AddItemAt(items: seq<Item>, newItem: Item, i: nat)
    requires Truthy(newItem.parentId)
    requires i < |items|
    ensures |AddItemToStructure(items, newItem)| == |items|
    ensures AddItemToStructure(items, newItem)[i] == AddToItem(items[i], newItem)
  {
  }

  /** The item the search for the parent id stops at, wherever it is, gets the
      new item as its last child; its earlier children are kept as they were. */
  lemma {:induction false} InsertUnderFirstMatch(items: seq<Item>, newItem: Item, path: seq<nat>)
    requires Truthy(newItem.parentId)
    requires FirstMatchAt(items, path, newItem.parentId.value)
    ensures At(items, path).Some?
    ensures At(AddItemToStructure(items, newItem), path)
         == Some(At(items, path).value.(children := Present(ChildList(At(items, path).value) + [newItem])))
    ensures At(AddItemToStructure(items, newItem), path + [|ChildList(At(items, path).value)|]) == Some(newItem)
  {
    InsertAtFirstMatch(items, newItem, path);
    var x := At(items, path).value;
    AtExtend(AddItemToStructure(items, newItem), path, |ChildList(x)|);
  }

  lemma {:induction false} InsertAtFirstMatch(items: seq<Item>, newItem: Item, path: seq<nat>)
    requires Truthy(newItem.parentId)
    requires FirstMatchAt(items, path, newItem.parentId.value)
    ensures At(items, path).Some?
    ensures At(AddItemToStructure(items, newItem), path)
         == Some(At(items, path).value.(children := Present(ChildList(At(items, path).value) + [newItem])))
    decreases |path|
  {
    FirstMatchIsMatch(items, path, newItem.parentId.value);
    var r := AddItemToStructure(items, newItem);
    var x := items[path[0]];
    AddItemAt(items, newItem, path[0]);
    if |path| > 1 {
      var cs := x.children.list;
      InsertAtFirstMatch(cs, newItem, path[1..]);
      assert r[path[0]].children == Present(AddItemToStructure(cs, newItem));
    }
  }

  /** With unique ids the parent is found wherever it sits. */
  lemma InsertUnderUniqueParent(items: seq<Item>, newItem: Item, path: seq<nat>)
    requires UniqueIds(items)
    requires Truthy(newItem.parentId)
    requires At(items, path).Some? && At(items, path).value.id == newItem.parentId.value
    ensures At(AddItemToStructure(items, newItem), path)
         == Some(At(items, path).value.(children := Present(ChildList(At(items, path).value) + [newItem])))
    ensures At(AddItemToStructure(items, newItem), path + [|ChildList(At(items, path).value)|]) == Some(newItem)
  {
    UniqueMatchIsFirst(items, path, newItem.parentId.value);
    InsertUnderFirstMatch(items, newItem, path);
  }

  /** Every position of the forest survives an insertion under a parent, with
      the same fields; exactly the item the search stops at gains one child and
      every other children list keeps its length. */
  lemma {:induction false} InsertKeepsPositions(items: seq<Item>, newItem: Item, path: seq<nat>)
    requires Truthy(newItem.parentId)
    requires At(items, path).Some?
    ensures At(AddItemToStructure(items, newItem), path).Some?
    ensures var x, y := At(items, path).value, At(AddItemToStructure(items, newItem), path).value;
      && y.id == x.id && y.name == x.name && y.kind == x.kind
      && y.content == x.content && y.parentId == x.parentId
      && |ChildList(y)| == |ChildList(x)| + (if FirstMatchAt(items, path, newItem.parentId.value) then 1 else 0)
    decreases |path|
  {
    var r := AddItemToStructure(items, newItem);
    var x := items[path[0]];
    AddItemAt(items, newItem, path[0]);
    if |path| > 1 {
      var cs := x.children.list;
      if Some(x.id) == newItem.parentId {
        assert r[path[0]].children == Present(cs + [newItem]);
        assert At(r, path) == At(cs + [newItem], path[1..]);
        AtPrefix(cs, [newItem], path[1..]);
        assert !FirstMatchAt(items, path, newItem.parentId.value);
      } else {
        InsertKeepsPositions(cs, newItem, path[1..]);
        assert r[path[0]].children == Present(AddItemToStructure(cs, newItem));
      }
    }
  }
}
