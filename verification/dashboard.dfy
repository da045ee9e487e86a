/**
 The dashboard's event handlers as transitions of its view state: the forest,
 the selected item (a snapshot of the item when it was clicked) and the set of
 expanded folder ids. Prompt and confirm answers and fresh ids are parameters.
 */
module Dashboard {
  import opened Wrappers
  import opened NoteTree
  import opened TreeInsert
  import opened TreeUpdate
  import opened TreeDelete

  datatype View = View(items: seq<Item>, selected: Option<Item>, expanded: set<string>)

  /** Clicking an item selects it; a folder also flips its expansion. */
  function HandleItemClick(v: View, item: Item): (r: View)
    ensures r.items == v.items && r.selected == Some(item)
    ensures item.kind == Document ==> r.expanded == v.expanded
    ensures item.kind == Folder ==> (item.id in r.expanded <==> item.id !in v.expanded)
    ensures forall k :: k != item.id ==> (k in r.expanded <==> k in v.expanded)
  {
    if item.kind == Folder then
      var expanded := if item.id in v.expanded then v.expanded - {item.id} else v.expanded + {item.id};
      v.(selected := Some(item), expanded := expanded)
    else
      v.(selected := Some(item))
  }

  /** Two clicks on the same item leave the expanded set as it was. */
  lemma ClickTwiceRestoresExpansion(v: View, item: Item)
    ensures HandleItemClick(HandleItemClick(v, item), item).expanded == v.expanded
  {
  }

  /** The parent id given to a new item: the selected item's id when it is a
      folder, none otherwise. */
  function NewParentId(selected: Option<Item>): (p: Option<string>)
    ensures p.Some? <==> selected.Some? && selected.value.kind == Folder
    ensures p.Some? ==> p.value == selected.value.id
  {
    if selected.Some? && selected.value.kind == Folder then Some(selected.value.id) else None
  }

  /** The item the "New Folder" / "New Document" buttons build: a folder with
      an empty children list, a document with empty content. */
  function NewItem(kind: Kind, name: string, freshId: string, selected: Option<Item>): Item {
    match kind
    case Folder => Item(freshId, name, Folder, None, Present([]), NewParentId(selected))
    case Document => Item(freshId, name, Document, Some(""), Absent, NewParentId(selected))
  }

  /** handleCreateFolder / handleCreateDocument: nothing happens unless the
      prompt gives a non-empty name. */
  function HandleCreate(v: View, kind: Kind, answer: Option<string>, freshId: string): (r: View)
    ensures r.selected == v.selected && r.expanded == v.expanded
    ensures !Truthy(answer) ==> r == v
    // no folder selected: appended last at the top level
    ensures Truthy(answer) && !(v.selected.Some? && v.selected.value.kind == Folder) ==>
      && |r.items| == |v.items| + 1
      && r.items[..|v.items|] == v.items
      && r.items[|v.items|] == NewItem(kind, answer.value, freshId, v.selected)
    // a selected folder that is no longer in the forest: the new item is lost
    ensures (&& Truthy(answer) && v.selected.Some? && v.selected.value.kind == Folder
             && v.selected.value.id != "" && v.selected.value.id !in ForestIds(v.items)) ==>
      r == v
  {
    if Truthy(answer) then
      v.(items := AddItemToStructure(v.items, NewItem(kind, answer.value, freshId, v.selected)))
    else
      v
  }

  /** With unique ids, a new item created while a folder of the forest is
      selected becomes that folder's last child. */
  lemma CreateInSelectedFolder(v: View, kind: Kind, answer: Option<string>, freshId: string, path: seq<nat>)
    requires UniqueIds(v.items)
    requires Truthy(answer)
    requires v.selected.Some? && v.selected.value.kind == Folder && v.selected.value.id != ""
    requires At(v.items, path).Some? && At(v.items, path).value.id == v.selected.value.id
    ensures At(HandleCreate(v, kind, answer, freshId).items, path + [|ChildList(At(v.items, path).value)|])
         == Some(NewItem(kind, answer.value, freshId, v.selected))
  {
    InsertUnderUniqueParent(v.items, NewItem(kind, answer.value, freshId, v.selected), path);
  }

  /** handleContentChange: only a selected document is edited; the forest and
      the selection both take the new content. */
  function HandleContentChange(v: View, content: string): (r: View)
    ensures !(v.selected.Some? && v.selected.value.kind == Document) ==> r == v
    ensures v.selected.Some? && v.selected.value.kind == Document ==>
      && r.selected == Some(v.selected.value.(content := Some(content)))
      && r.expanded == v.expanded
      && ForestIds(r.items) == ForestIds(v.items)
  {
    if v.selected.Some? && v.selected.value.kind == Document then
      var sel := v.selected.value;
      v.(items := UpdateItemContent(v.items, sel.id, content), selected := Some(sel.(content := Some(content))))
    else
      v
  }

  /** With unique ids, the edit reaches the selected document wherever it is. */
  lemma ContentChangeReachesTree(v: View, content: string, path: seq<nat>)
    requires UniqueIds(v.items)
    requires v.selected.Some? && v.selected.value.kind == Document
    requires At(v.items, path).Some? && At(v.items, path).value.id == v.selected.value.id
    ensures At(HandleContentChange(v, content).items, path)
         == Some(At(v.items, path).value.(content := Some(content)))
  {
    UpdateUniqueTarget(v.items, v.selected.value.id, content, path);
  }

  /** handleDeleteItem: after confirmation the item is deleted and the
      selection is cleared when it is the deleted item itself. */
  function HandleDeleteItem(v: View, target: Item, confirmed: bool): (r: View)
    ensures !confirmed ==> r == v
    ensures confirmed ==> r.items == DeleteItemFromStructure(v.items, target.id)
    ensures confirmed ==> target.id !in ForestIds(r.items)
    ensures r.expanded == v.expanded
    ensures confirmed ==>
      (r.selected.None? <==> v.selected.None? || v.selected.value.id == target.id)
    ensures r.selected.Some? ==> r.selected == v.selected
  {
    if confirmed then
      var items := DeleteItemFromStructure(v.items, target.id);
      if v.selected.Some? && v.selected.value.id == target.id then
        v.(items := items, selected := None)
      else
        v.(items := items)
    else
      v
  }

  /** Deleting a folder above the selected item keeps the selection, although
      with unique ids the selected item has left the forest. */
  lemma DeleteAncestorKeepsStaleSelection(v: View, target: Item, path: seq<nat>)
    requires UniqueIds(v.items)
    requires At(v.items, path).Some? && At(v.items, path).value.id == target.id
    requires v.selected.Some? && v.selected.value.id in ItemIds(At(v.items, path).value)
    requires v.selected.value.id != target.id
    ensures HandleDeleteItem(v, target, true).selected == v.selected
    ensures v.selected.value.id !in ForestIds(HandleDeleteItem(v, target, true).items)
  {
    DeleteRemovesSubtree(v.items, target.id, path);
  }

  /** The name field's onChange as written: the content of the selected id is
      rewritten at any depth, then only TOP-LEVEL items with the selected id
      are replaced by the renamed selection. The field is shown only while a
      document is selected. */
  function HandleNameChange(v: View, newName: string): (r: View)
    requires v.selected.Some? && v.selected.value.kind == Document
    ensures r.selected == Some(v.selected.value.(name := newName))
    ensures r.expanded == v.expanded
    ensures |r.items| == |v.items|
    ensures forall i :: 0 <= i < |v.items| && v.items[i].id == v.selected.value.id ==>
      r.items[i] == v.selected.value.(name := newName)
    ensures forall i :: 0 <= i < |v.items| && v.items[i].id != v.selected.value.id ==>
      SameLabel(v.items[i], r.items[i]) && r.items[i].content == v.items[i].content
  {
    var sel := v.selected.value;
    var updated := UpdateItemContent(v.items, sel.id, sel.content.GetOr(""));
    var renamed := sel.(name := newName);
    v.(items := seq(|updated|, i requires 0 <= i < |updated| => if updated[i].id == sel.id then renamed else updated[i]),
       selected := Some(renamed))
  }

  /** Below a top-level item that is not the selection, every item keeps its
      name and the rest of its label, and every item with another id keeps its
      content: renaming a nested document never reaches the forest. */
  lemma NameChangeKeepsNestedNames(v: View, newName: string, path: seq<nat>)
    requires v.selected.Some? && v.selected.value.kind == Document
    requires At(v.items, path).Some?
    requires v.items[path[0]].id != v.selected.value.id
    ensures At(HandleNameChange(v, newName).items, path).Some?
    ensures SameLabel(At(v.items, path).value, At(HandleNameChange(v, newName).items, path).value)
    ensures At(v.items, path).value.id != v.selected.value.id ==>
      At(HandleNameChange(v, newName).items, path).value.content == At(v.items, path).value.content
  {
    var sel := v.selected.value;
    var updated := UpdateItemContent(v.items, sel.id, sel.content.GetOr(""));
    var r := HandleNameChange(v, newName).items;
    UpdateAt(v.items, sel.id, sel.content.GetOr(""), path);
    assert r[path[0]] == updated[path[0]];
    if |path| > 1 {
      assert At(r, path) == At(ChildList(updated[path[0]]), path[1..]);
      assert At(updated, path) == At(ChildList(updated[path[0]]), path[1..]);
    }
  }

  /** A folder holding one document, the document selected and renamed: the
      forest still shows the old name. */
  lemma NameChangeLostForNestedDocument()
    ensures
      var doc := Item("2", "todo", Document, Some(""), Absent, Some("1"));
      var folder := Item("1", "Notes", Folder, None, Present([doc]), None);
      var v := View([folder], Some(doc), {"1"});
      var r := HandleNameChange(v, "groceries");
      && r.selected.value.name == "groceries"
      && At(r.items, [0, 0]) == Some(doc)
  {
    var doc := Item("2", "todo", Document, Some(""), Absent, Some("1"));
    var folder := Item("1", "Notes", Folder, None, Present([doc]), None);
    var v := View([folder], Some(doc), {"1"});
    NameChangeKeepsNestedNames(v, "groceries", [0, 0]);
    var r := HandleNameChange(v, "groceries");
    UpdateAt(v.items, "2", "", [0, 0]);
    assert FirstMatchAt(v.items, [0, 0], "2");
    UpdateChildrenKept(v.items, "2", "", [0, 0]);
    assert At(r.items, [0, 0]) == At(UpdateItemContent(v.items, "2", ""), [0, 0]);
  }

  /** The name field's onChange as evidently intended: the selected item is
      renamed wherever it sits in the forest. */
  function HandleNameChangeFixed(v: View, newName: string): (r: View)
    requires v.selected.Some? && v.selected.value.kind == Document
    ensures r.selected == Some(v.selected.value.(name := newName))
    ensures r.expanded == v.expanded
    ensures ForestIds(r.items) == ForestIds(v.items)
    ensures v.selected.value.id !in ForestIds(v.items) ==> r.items == v.items
  {
    var sel := v.selected.value;
    v.(items := RenameItem(v.items, sel.id, newName), selected := Some(sel.(name := newName)))
  }

  /** With unique ids, the corrected handler renames the selected item at any
      depth and no other item. */
  lemma NameChangeFixedRenamesAtAnyDepth(v: View, newName: string, path: seq<nat>)
    requires v.selected.Some? && v.selected.value.kind == Document
    requires UniqueIds(v.items)
    requires At(v.items, path).Some?
    ensures At(HandleNameChangeFixed(v, newName).items, path).Some?
    ensures At(HandleNameChangeFixed(v, newName).items, path).value.name
         == if At(v.items, path).value.id == v.selected.value.id then newName else At(v.items, path).value.name
  {
    RenameUniqueTarget(v.items, v.selected.value.id, newName, path);
  }
}
