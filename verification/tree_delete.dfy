/**
 Deleting an item by id (`deleteItemFromStructure`): every sequence of the
 forest, the top level and each children list, is filtered of items carrying
 the id, and the survivors' children are filtered in turn. A removed folder
 takes its whole subtree with it.
 */
module TreeDelete {
  import opened NoteTree

  /** The filter of one sequence: the items whose id differs, in order. */
  function WithoutId(items: seq<Item>, id: string): (r: seq<Item>)
    ensures |r| <= |items|
    ensures forall x :: x in r <==> x in items && x.id != id
    ensures (forall i :: 0 <= i < |items| ==> items[i].id != id) ==> r == items
    decreases items
  {
    if items == [] then []
    else (if items[0].id == id then [] else [items[0]]) + WithoutId(items[1..], id)
  }

  /** The `.map` callback: a surviving item keeps its fields and has its
      children, if any, filtered recursively. */
  function DeleteBelow(x: Item, id: string): (r: Item)
    ensures r.id == x.id && r.name == x.name && r.kind == x.kind
    ensures r.content == x.content && r.parentId == x.parentId
    ensures r.children.Present? == x.children.Present?
    ensures ItemIds(r) <= ItemIds(x)
    ensures id !in ForestIds(ChildList(r))
    // the children are the filtered children, in order, each keeping its fields
    ensures |ChildList(r)| == |WithoutId(ChildList(x), id)|
    ensures forall i :: 0 <= i < |ChildList(r)| ==>
      var c, d := WithoutId(ChildList(x), id)[i], ChildList(r)[i];
      && d.id == c.id && d.name == c.name && d.kind == c.kind && d.content == c.content
      && d.parentId == c.parentId && d.children.Present? == c.children.Present?
    decreases x
  {
    match x.children
    case Absent => x
    case Present(cs) => x.(children := Present(DeleteItemFromStructure(cs, id)))
  }

  function DeleteItemFromStructure(items: seq<Item>, id: string): (r: seq<Item>)
    // no item carrying the id is left, at any depth
    ensures id !in ForestIds(r)
    ensures ForestIds(r) <= ForestIds(items)
    decreases items
  {
    var kept := WithoutId(items, id);
    var r := seq(|kept|, i requires 0 <= i < |kept| => assert kept[i] in items; DeleteBelow(kept[i], id));
    ForestIdsSubset(items, kept);
    ForestIdsPointwise(kept, r);
    assert forall i :: 0 <= i < |r| ==> id !in ItemIds(r[i]) by {
      forall i | 0 <= i < |r| ensures id !in ItemIds(r[i]) {
        ItemIdsOfChildren(r[i]);
      }
    }
    r
  }

  /** The top level after a delete is the filtered top level, in the same
      order, each survivor keeping its fields and the presence of its children. */
  lemma DeleteTopLevel(items: seq<Item>, id: string)
    ensures |DeleteItemFromStructure(items, id)| == |WithoutId(items, id)|
    ensures forall i :: 0 <= i < |WithoutId(items, id)| ==>
      var x, y := WithoutId(items, id)[i], DeleteItemFromStructure(items, id)[i];
      && y.id == x.id && y.name == x.name && y.kind == x.kind && y.content == x.content
      && y.parentId == x.parentId && y.children.Present? == x.children.Present?
  {
  }

  /** The filter keeps order: it distributes over concatenation. */
  lemma {:induction false} WithoutIdAppend(a: seq<Item>, b: seq<Item>, id: string)
    ensures WithoutId(a + b, id) == WithoutId(a, id) + WithoutId(b, id)
    decreases a
  {
    if a == [] {
      assert a + b == b;
    } else {
      assert (a + b)[0] == a[0];
      assert (a + b)[1..] == a[1..] + b;
      WithoutIdAppend(a[1..], b, id);
    }
  }

  /** An item survives the filter exactly when it does not carry the id. */
  lemma WithoutIdSingle(x: Item, id: string)
    ensures WithoutId([x], id) == if x.id == id then [] else [x]
  {
  }

  /** Deleting an id that occurs nowhere gives back the same forest. */
  lemma {:induction false} DeleteUnknownId(items: seq<Item>, id: string)
    requires id !in ForestIds(items)
    ensures DeleteItemFromStructure(items, id) == items
    decreases items
  {
    TopLevelIds(items);
    var kept := WithoutId(items, id);
    assert kept == items;
    var r := DeleteItemFromStructure(items, id);
    forall i | 0 <= i < |items|
      ensures r[i] == items[i]
    {
      DeleteBelowUnknownId(items[i], id);
    }
  }

  lemma {:induction false} DeleteBelowUnknownId(x: Item, id: string)
    requires id !in ItemIds(x)
    ensures DeleteBelow(x, id) == x
    decreases x
  {
    if x.children.Present? {
      DeleteUnknownId(x.children.list, id);
    }
  }

  /** Deleting twice is deleting once. */
  lemma DeleteIdempotent(items: seq<Item>, id: string)
    ensures DeleteItemFromStructure(DeleteItemFromStructure(items, id), id)
         == DeleteItemFromStructure(items, id)
  {
    DeleteUnknownId(DeleteItemFromStructure(items, id), id);
  }

  /** With unique ids, deleting an item removes its whole subtree: none of the
      ids below it (nor its own) is reachable in the result. */
  lemma {:induction false} DeleteRemovesSubtree(items: seq<Item>, id: string, path: seq<nat>)
    requires UniqueIds(items)
    requires At(items, path).Some? && At(items, path).value.id == id
    ensures ItemIds(At(items, path).value) !! ForestIds(DeleteItemFromStructure(items, id))
    decreases |path|
  {
    var x := At(items, path).value;
    var r := DeleteItemFromStructure(items, id);
    var kept := WithoutId(items, id);
    var top := items[path[0]];
    AtIdsWithin(items, path);
    forall k | k in ItemIds(x)
      ensures k !in ForestIds(r)
    {
      forall j | 0 <= j < |r|
        ensures k !in ItemIds(r[j])
      {
        assert r[j] == DeleteBelow(kept[j], id);
        assert kept[j] in items;
        var m :| 0 <= m < |items| && items[m] == kept[j];
        if kept[j] != top {
          if m < path[0] {
            assert ItemIds(items[m]) !! ItemIds(items[path[0]]);
          } else {
            assert ItemIds(items[path[0]]) !! ItemIds(items[m]);
          }
        } else {
          assert |path| > 1;
          var cs := top.children.list;
          assert UniqueItem(top);
          AtIdsWithin(cs, path[1..]);
          DeleteRemovesSubtree(cs, id, path[1..]);
          ItemIdsOfChildren(r[j]);
        }
      }
    }
  }

  /** An item none of whose ancestors carries the id, and which does not carry
      it itself, survives a delete. */
  lemma {:induction false} DeleteKeepsOthers(items: seq<Item>, id: string, path: seq<nat>)
    requires AvoidsOnPath(items, path, id)
    ensures At(items, path).Some?
    ensures At(items, path).value.id in ForestIds(DeleteItemFromStructure(items, id))
    decreases |path|
  {
    var r := DeleteItemFromStructure(items, id);
    var kept := WithoutId(items, id);
    var top := items[path[0]];
    assert top in kept;
    var j :| 0 <= j < |kept| && kept[j] == top;
    assert r[j] == DeleteBelow(top, id);
    TopLevelIds(r);
    if |path| > 1 {
      var cs := top.children.list;
      DeleteKeepsOthers(cs, id, path[1..]);
      ItemIdsOfChildren(r[j]);
    }
  }
}
