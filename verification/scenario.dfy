/** One walk through the tree operations on a small forest. */
module Scenario {
  import opened Wrappers
  import opened NoteTree
  import opened TreeInsert
  import opened TreeUpdate
  import opened TreeDelete

  /** Create a folder, put a document in it, write to the document, delete the
      folder: the forest ends empty. */
  lemma FolderDocumentWalkthrough()
    ensures
      var folder := Item("1", "Notes", Folder, None, Present([]), None);
      var doc := Item("2", "todo", Document, Some(""), Absent, Some("1"));
      var f1 := AddItemToStructure([folder], doc);
      var f2 := UpdateItemContent(f1, "2", "buy milk");
      && f1 == [folder.(children := Present([doc]))]
      && At(f2, [0, 0]) == Some(doc.(content := Some("buy milk")))
      && DeleteItemFromStructure(f2, "1") == []
  {
    var folder := Item("1", "Notes", Folder, None, Present([]), None);
    var doc := Item("2", "todo", Document, Some(""), Absent, Some("1"));
    var f1 := AddItemToStructure([folder], doc);
    assert ChildList(folder) + [doc] == [doc];
    assert |f1| == 1 && f1[0] == AddToItem(folder, doc);
    assert f1 == [folder.(children := Present([doc]))];
    var f2 := UpdateItemContent(f1, "2", "buy milk");
    assert FirstMatchAt(f1, [0, 0], "2");
    UpdateAt(f1, "2", "buy milk", [0, 0]);
    UpdateChildrenKept(f1, "2", "buy milk", [0, 0]);
    assert f2[0].id == "1";
    assert WithoutId(f2, "1") == [];
  }
}
