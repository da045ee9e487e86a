/**
 The item forest of the dashboard: folders and documents, nested through an
 optional list of children. This module holds the data model and the read-only
 views of a forest (ids, positions, uniqueness) that the operations are
 specified against.
 */
module NoteTree {
  import opened Wrappers

  datatype Kind = Folder | Document

  /** An item's optional children list. An absent list is distinct from an empty one: the
      empty list is truthy and is still traversed. */
  datatype Children = Absent | Present(list: seq<Item>)

  datatype Item = Item(
    id: string,
    name: string,
    kind: Kind,
    content: Option<string>,
    children: Children,
    parentId: Option<string>)

  /** The children list, empty when absent. */
  function ChildList(x: Item): seq<Item> {
    match x.children
    case Absent => []
    case Present(cs) => cs
  }

  /** Ids of an item and of everything below it. */
  function ItemIds(x: Item): set<string>
    decreases x
  {
    match x.children
    case Absent => {x.id}
    case Present(cs) => {x.id} + ForestIds(cs)
  }

  /** Ids of every item of a forest, at every depth. */
  function ForestIds(items: seq<Item>): set<string>
    decreases items
  {
    set i, k | 0 <= i < |items| && k in ItemIds(items[i]) :: k
  }

  /** The item reached from the roots by a path of child indices, if any. */
  function At(items: seq<Item>, path: seq<nat>): Option<Item>
    decreases |path|
  {
    if path == [] || path[0] >= |items| then None
    else if |path| == 1 then Some(items[path[0]])
    else At(ChildList(items[path[0]]), path[1..])
  }

  /** The item at `path` carries `id` and no item above it on the path does:
      the position a top-down search for `id` stops at. */
  predicate FirstMatchAt(items: seq<Item>, path: seq<nat>, id: string)
    decreases |path|
  {
    && path != []
    && path[0] < |items|
    && if |path| == 1 then items[path[0]].id == id
       else items[path[0]].id != id && FirstMatchAt(ChildList(items[path[0]]), path[1..], id)
  }

  /** Every id occurs at most once in the forest. */
  predicate UniqueIds(items: seq<Item>)
    decreases items
  {
    && (forall i, j :: 0 <= i < j < |items| ==> ItemIds(items[i]) !! ItemIds(items[j]))
    && (forall i :: 0 <= i < |items| ==> UniqueItem(items[i]))
  }

  predicate UniqueItem(x: Item)
    decreases x
  {
    match x.children
    case Absent => true
    case Present(cs) => x.id !in ForestIds(cs) && UniqueIds(cs)
  }

  /** Fields other than the children list agree, and so does the presence and
      length of that list. */
  predicate SameLabel(x: Item, y: Item) {
    && x.id == y.id
    && x.name == y.name
    && x.kind == y.kind
    && x.parentId == y.parentId
    && x.children.Present? == y.children.Present?
    && |ChildList(x)| == |ChildList(y)|
  }

  lemma ForestIdsMember(items: seq<Item>, k: string)
    ensures k in ForestIds(items) <==> exists i :: 0 <= i < |items| && k in ItemIds(items[i])
  {
  }

  lemma TopLevelIds(items: seq<Item>)
    ensures forall i :: 0 <= i < |items| ==> items[i].id in ItemIds(items[i]) && ItemIds(items[i]) <= ForestIds(items)
  {
  }

  /** A forest whose items each have fewer ids has fewer ids. */
  lemma ForestIdsPointwise(a: seq<Item>, b: seq<Item>)
    requires |a| == |b|
    requires forall i :: 0 <= i < |a| ==> ItemIds(b[i]) <= ItemIds(a[i])
    ensures ForestIds(b) <= ForestIds(a)
  {
    forall k | k in ForestIds(b)
      ensures k in ForestIds(a)
    {
      var i :| 0 <= i < |b| && k in ItemIds(b[i]);
    }
  }

  /** A forest made of items of another has fewer ids. */
  lemma ForestIdsSubset(a: seq<Item>, b: seq<Item>)
    requires forall x :: x in b ==> x in a
    ensures ForestIds(b) <= ForestIds(a)
  {
    forall k | k in ForestIds(b)
      ensures k in ForestIds(a)
    {
      var i :| 0 <= i < |b| && k in ItemIds(b[i]);
      assert b[i] in a;
      var j :| 0 <= j < |a| && a[j] == b[i];
    }
  }

  lemma ItemIdsOfChildren(x: Item)
    ensures ItemIds(x) == {x.id} + ForestIds(ChildList(x))
  {
  }

  lemma ForestIdsAppend(items: seq<Item>, x: Item)
    ensures ForestIds(items + [x]) == ForestIds(items) + ItemIds(x)
  {
    var s := items + [x];
    forall k | k in ForestIds(s)
      ensures k in ForestIds(items) + ItemIds(x)
    {
      var i :| 0 <= i < |s| && k in ItemIds(s[i]);
      if i < |items| {
        assert s[i] == items[i];
      }
    }
    forall k | k in ForestIds(items)
      ensures k in ForestIds(s)
    {
      var i :| 0 <= i < |items| && k in ItemIds(items[i]);
      assert s[i] == items[i];
    }
    assert s[|items|] == x;
  }

  /** The item a path leads to is within the forest, with all its descendants. */
  lemma {:induction false} AtIdsWithin(items: seq<Item>, path: seq<nat>)
    requires At(items, path).Some?
    ensures ItemIds(At(items, path).value) <= ItemIds(items[path[0]])
    ensures ItemIds(At(items, path).value) <= ForestIds(items)
    decreases |path|
  {
    var x := items[path[0]];
    if |path| > 1 {
      AtIdsWithin(ChildList(x), path[1..]);
      ItemIdsOfChildren(x);
    }
    assert ItemIds(x) <= ForestIds(items);
  }

  /** Appending items to a forest does not move the items already there. */
  lemma {:induction false} AtPrefix(items: seq<Item>, more: seq<Item>, path: seq<nat>)
    requires At(items, path).Some?
    ensures At(items + more, path) == At(items, path)
  {
    assert (items + more)[path[0]] == items[path[0]];
  }

  /** One step further down a path: the children of the item reached. */
  lemma {:induction false} AtExtend(items: seq<Item>, path: seq<nat>, k: nat)
    requires At(items, path).Some?
    ensures At(items, path + [k])
         == if k < |ChildList(At(items, path).value)| then Some(ChildList(At(items, path).value)[k]) else None
    decreases |path|
  {
    var ext := path + [k];
    assert ext[0] == path[0];
    if |path| == 1 {
      assert ext[1..] == [k];
    } else {
      assert ext[1..] == path[1..] + [k];
      AtExtend(ChildList(items[path[0]]), path[1..], k);
    }
  }

  /** A first match is a match. */
  lemma {:induction false} FirstMatchIsMatch(items: seq<Item>, path: seq<nat>, id: string)
    requires FirstMatchAt(items, path, id)
    ensures At(items, path).Some? && At(items, path).value.id == id
    decreases |path|
  {
    if |path| > 1 {
      FirstMatchIsMatch(ChildList(items[path[0]]), path[1..], id);
    }
  }

  /** No item on the path down to the item at `path`, that item included,
      carries `id`. */
  predicate AvoidsOnPath(items: seq<Item>, path: seq<nat>, id: string)
    decreases |path|
  {
    && path != []
    && path[0] < |items|
    && items[path[0]].id != id
    && (|path| == 1 || AvoidsOnPath(ChildList(items[path[0]]), path[1..], id))
  }

  /** With unique ids, every item carrying `id` is where a top-down search for
      `id` stops: no ancestor carries the same id. */
  lemma {:induction false} UniqueMatchIsFirst(items: seq<Item>, path: seq<nat>, id: string)
    requires UniqueIds(items)
    requires At(items, path).Some? && At(items, path).value.id == id
    ensures FirstMatchAt(items, path, id)
    decreases |path|
  {
    if |path| > 1 {
      var x := items[path[0]];
      assert UniqueItem(x);
      var cs := ChildList(x);
      AtIdsWithin(cs, path[1..]);
      UniqueMatchIsFirst(cs, path[1..], id);
    }
  }

  /** An id is in the forest exactly when some path leads to an item carrying it. */
  lemma {:induction false} ForestIdsByPath(items: seq<Item>, k: string)
    ensures k in ForestIds(items) <==> exists p :: At(items, p).Some? && At(items, p).value.id == k
    decreases items
  {
    if k in ForestIds(items) {
      var i :| 0 <= i < |items| && k in ItemIds(items[i]);
      var q := ItemPath(items[i], k);
      assert At(items, [i] + q) == At([items[i]], [0] + q);
      assert At(items, [i] + q).Some? && At(items, [i] + q).value.id == k;
    }
    if exists p :: At(items, p).Some? && At(items, p).value.id == k {
      var p :| At(items, p).Some? && At(items, p).value.id == k;
      AtIdsWithin(items, p);
    }
  }

  /** A path below `x` (empty for `x` itself) to an item carrying `k`. */
  lemma {:induction false} ItemPath(x: Item, k: string) returns (q: seq<nat>)
    requires k in ItemIds(x)
    ensures At([x], [0] + q).Some? && At([x], [0] + q).value.id == k
    decreases x
  {
    if x.id == k {
      q := [];
      assert [0] + q == [0];
    } else {
      var cs := x.children.list;
      ForestIdsByPath(cs, k);
      var p :| At(cs, p).Some? && At(cs, p).value.id == k;
      q := p;
      assert ([0] + q)[1..] == q;
    }
  }
}
