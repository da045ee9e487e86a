/**
 Replacing the content of an item by id (`updateItemContent`), and renaming an
 item by id at any depth. Both rebuild the forest with the same shape: the
 search stops at a matching item and only that item's field changes.
 */
module TreeUpdate {
  import opened Wrappers
  import opened NoteTree

  /** The `items.map` callback of updateItemContent: a matching item takes the
      new content and is not searched further; otherwise its children are. */
  function UpdateContentOf(x: Item, id: string, content: string): (r: Item)
    ensures SameLabel(x, r)
    ensures ItemIds(r) == ItemIds(x)
    ensures id !in ItemIds(x) ==> r == x
    ensures x.id == id ==> r.content == Some(content) && r.children == x.children
    ensures x.id != id ==> r.content == x.content
    decreases x
  {
    if x.id == id then
      x.(content := Some(content))
    else
      match x.children
      case Absent => x
      case Present(cs) => x.(children := Present(UpdateItemContent(cs, id, content)))
  }

  function UpdateItemContent(items: seq<Item>, id: string, content: string): (r: seq<Item>)
    ensures |r| == |items| && forall i :: 0 <= i < |r| ==> SameLabel(items[i], r[i])
    ensures ForestIds(r) == ForestIds(items)
    ensures id !in ForestIds(items) ==> r == items
    decreases items
  {
    seq(|items|, i requires 0 <= i < |items| => UpdateContentOf(items[i], id, content))
  }

  lemma UpdateItemAt(items: seq<Item>, id: string, content: string, i: nat)
    requires i < |items|
    ensures UpdateItemContent(items, id, content)[i] == UpdateContentOf(items[i], id, content)
  {
  }

  /** At every position: the same item exists before and after, with the same
      id, name, kind, parent id and children count; an item whose id differs
      keeps its content, and the item the search for `id` stops at takes the
      new content. */
  lemma {:induction false} UpdateAt(items: seq<Item>, id: string, content: string, path: seq<nat>)
    ensures At(UpdateItemContent(items, id, content), path).Some? <==> At(items, path).Some?
    ensures At(items, path).Some? ==>
      SameLabel(At(items, path).value, At(UpdateItemContent(items, id, content), path).value)
    ensures At(items, path).Some? && At(items, path).value.id != id ==>
      At(UpdateItemContent(items, id, content), path).value.content == At(items, path).value.content
    ensures FirstMatchAt(items, path, id) ==>
      && At(items, path).Some?
      && At(UpdateItemContent(items, id, content), path).value.content == Some(content)
    decreases |path|
  {
    var r := UpdateItemContent(items, id, content);
    if FirstMatchAt(items, path, id) {
      FirstMatchIsMatch(items, path, id);
    }
    if path != [] && path[0] < |items| {
      var x := items[path[0]];
      UpdateItemAt(items, id, content, path[0]);
      if |path| > 1 {
        if x.id == id {
          assert ChildList(r[path[0]]) == ChildList(x);
        } else if x.children.Present? {
          UpdateAt(x.children.list, id, content, path[1..]);
          assert ChildList(r[path[0]]) == UpdateItemContent(x.children.list, id, content);
        }
      }
    }
  }

  /** With unique ids, the item carrying `id` takes the new content wherever
      it sits. */
  lemma UpdateUniqueTarget(items: seq<Item>, id: string, content: string, path: seq<nat>)
    requires UniqueIds(items)
    requires At(items, path).Some? && At(items, path).value.id == id
    ensures At(UpdateItemContent(items, id, content), path)
         == Some(At(items, path).value.(content := Some(content)))
  {
    UniqueMatchIsFirst(items, path, id);
    UpdateAt(items, id, content, path);
    UpdateChildrenKept(items, id, content, path);
  }

  /** The search stops at the first match, so the matched item's children are
      the ones it had. */
  lemma {:induction false} UpdateChildrenKept(items: seq<Item>, id: string, content: string, path: seq<nat>)
    requires FirstMatchAt(items, path, id)
    ensures At(items, path).Some? && At(UpdateItemContent(items, id, content), path).Some?
    ensures At(UpdateItemContent(items, id, content), path).value.children == At(items, path).value.children
    decreases |path|
  {
    var x := items[path[0]];
    UpdateItemAt(items, id, content, path[0]);
    FirstMatchIsMatch(items, path, id);
    if |path| > 1 {
      UpdateChildrenKept(x.children.list, id, content, path[1..]);
    }
  }

  /** Writing the same content twice is writing it once. */
  lemma {:induction false} UpdateIdempotent(items: seq<Item>, id: string, content: string)
    ensures UpdateItemContent(UpdateItemContent(items, id, content), id, content)
         == UpdateItemContent(items, id, content)
    decreases items
  {
    var r := UpdateItemContent(items, id, content);
    forall i | 0 <= i < |items|
      ensures UpdateContentOf(r[i], id, content) == r[i]
    {
      UpdateOfIdempotent(items[i], id, content);
    }
  }

  lemma {:induction false} UpdateOfIdempotent(x: Item, id: string, content: string)
    ensures UpdateContentOf(UpdateContentOf(x, id, content), id, content) == UpdateContentOf(x, id, content)
    decreases x
  {
    if x.id != id && x.children.Present? {
      UpdateIdempotent(x.children.list, id, content);
    }
  }

  /** Renaming by id at any depth, with the same search as the content update:
      a matching item takes the new name and is not searched further. */
  function RenameOf(x: Item, id: string, name: string): (r: Item)
    ensures r.id == x.id && r.kind == x.kind && r.content == x.content && r.parentId == x.parentId
    ensures r.children.Present? == x.children.Present? && |ChildList(r)| == |ChildList(x)|
    ensures ItemIds(r) == ItemIds(x)
    ensures id !in ItemIds(x) ==> r == x
    ensures x.id == id ==> r.name == name && r.children == x.children
    ensures x.id != id ==> r.name == x.name
    decreases x
  {
    if x.id == id then
      x.(name := name)
    else
      match x.children
      case Absent => x
      case Present(cs) => x.(children := Present(RenameItem(cs, id, name)))
  }

  function RenameItem(items: seq<Item>, id: string, name: string): (r: seq<Item>)
    ensures |r| == |items| && forall i :: 0 <= i < |r| ==> r[i].id == items[i].id
    ensures ForestIds(r) == ForestIds(items)
    ensures id !in ForestIds(items) ==> r == items
    decreases items
  {
    seq(|items|, i requires 0 <= i < |items| => RenameOf(items[i], id, name))
  }

  lemma RenameItemAt(items: seq<Item>, id: string, name: string, i: nat)
    requires i < |items|
    ensures RenameItem(items, id, name)[i] == RenameOf(items[i], id, name)
  {
  }

  /** At every position: the same item exists before and after with the same
      id, kind, content and parent id; an item whose id differs keeps its name,
      and the item the search for `id` stops at takes the new one. */
  lemma {:induction false} RenameAt(items: seq<Item>, id: string, name: string, path: seq<nat>)
    ensures At(RenameItem(items, id, name), path).Some? <==> At(items, path).Some?
    ensures At(items, path).Some? ==>
      var x, y := At(items, path).value, At(RenameItem(items, id, name), path).value;
      && y.id == x.id && y.kind == x.kind && y.content == x.content && y.parentId == x.parentId
      && |ChildList(y)| == |ChildList(x)|
      && (x.id != id ==> y.name == x.name)
    ensures FirstMatchAt(items, path, id) ==>
      && At(items, path).Some?
      && At(RenameItem(items, id, name), path).value.name == name
    decreases |path|
  {
    var r := RenameItem(items, id, name);
    if FirstMatchAt(items, path, id) {
      FirstMatchIsMatch(items, path, id);
    }
    if path != [] && path[0] < |items| {
      var x := items[path[0]];
      RenameItemAt(items, id, name, path[0]);
      if |path| > 1 {
        if x.id == id {
          assert ChildList(r[path[0]]) == ChildList(x);
        } else if x.children.Present? {
          RenameAt(x.children.list, id, name, path[1..]);
          assert ChildList(r[path[0]]) == RenameItem(x.children.list, id, name);
        }
      }
    }
  }

  /** With unique ids, the item carrying `id` takes the new name wherever it
      sits, and every other item keeps its name. */
  lemma RenameUniqueTarget(items: seq<Item>, id: string, name: string, path: seq<nat>)
    requires UniqueIds(items)
    requires At(items, path).Some?
    ensures At(RenameItem(items, id, name), path).Some?
    ensures At(RenameItem(items, id, name), path).value.name
         == if At(items, path).value.id == id then name else At(items, path).value.name
  {
    if At(items, path).value.id == id {
      UniqueMatchIsFirst(items, path, id);
    }
    RenameAt(items, id, name, path);
  }
}
