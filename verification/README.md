# Note tree and password gate — a Dafny model

This project models the two pieces of pure logic of a browser note-taking
app: the dashboard's item forest (folders and documents nested to any depth)
with its insert, content update and delete operations and the event handlers
around them, and the start page's password gate.

- `wrappers.dfy` (`Wrappers`): `Option`, and `Truthy`, the JavaScript
  truthiness of an optional string (`undefined`, `null` and `""` are falsy).
- `note_tree.dfy` (`NoteTree`): the `Item` type. `children?: Item[]` is the
  datatype `Children = Absent | Present(list)`, because the code treats an
  absent list differently from an empty one. It also holds read-only views of
  a forest: `ForestIds` (ids at every depth), `At` (the item at a path of child
  indices), `FirstMatchAt` (where a top-down search for an id stops) and
  `UniqueIds`.
- `tree_insert.dfy`, `tree_update.dfy`, `tree_delete.dfy`: `addItemToStructure`,
  `updateItemContent` and `deleteItemFromStructure`. Each is written as the
  code writes it: an `items.map` (or `filter` then `map`) whose callback
  recurses into `children` when they are present. `tree_update.dfy` also holds
  `RenameItem`, a rename by id at any depth, which the corrected name handler
  uses (see Findings).
- `dashboard.dfy` (`Dashboard`): the handlers as functions over a `View`
  (forest, selected item snapshot, expanded folder ids).
- `auth_gate.dfy` (`AuthGate`): `checkAuthentication`, `updateButtonText` and
  `handleLogin` as functions over the stored password (`Option<string>`) and
  the authenticated flag.
- `scenario.dfy`: one concrete walk through insert, update and delete.

Ids are plain parameters. A prompt answer is an `Option<string>`, a confirm
answer is a `bool`, and a fresh id is a `string`.

The model follows the code, which here may be unexpected:
- The insert matches a parent id against any item, not only folders. A matched
  document gets a children list, through `item.children || []`.
- The content update does not search inside a matching item.
- Renaming reaches top-level items only.
- Nothing keeps documents without children or folders without content.

## Model

| member | source | states |
|---|---|---|
| TreeInsert.AddToItem | app/dashboard/page.tsx:76-89 | the map callback keeps id, name, kind, content and parent id; an item with no matching id below or at it is returned unchanged; otherwise exactly the new item's ids join its ids |
| TreeInsert.AddItemToStructure | app/dashboard/page.tsx:71-91 | absent, null or empty parent id: the forest plus the new item appended last at the top level; otherwise the top level keeps its length and ids; a parent id found nowhere returns the input forest (item dropped); a parent id found somewhere adds exactly the new item's ids |
| TreeInsert.InsertUnderFirstMatch | app/dashboard/page.tsx:76-90 | at any depth, the item the search for the parent id stops at gets the new item as its last child, its old children kept in place (no further search inside it), and the new item is reachable at the next child index |
| TreeInsert.InsertUnderUniqueParent | app/dashboard/page.tsx:76-90 | with unique ids, the parent is found wherever it sits and gets the new item as its last child, creating the list if absent |
| TreeInsert.InsertKeepsPositions | app/dashboard/page.tsx:76-90 | every position of the forest survives an insertion under a parent with the same id, name, kind, content and parent id; the item the search stops at gains exactly one child and every other children list keeps its length |
| TreeUpdate.UpdateContentOf | app/dashboard/page.tsx:117-125 | the map callback keeps the item's label and ids; a matching item takes the new content and keeps its children as they were; a non-matching item keeps its content; an item without the id anywhere is unchanged |
| TreeUpdate.UpdateItemContent | app/dashboard/page.tsx:116-126 | same length, same label at every top-level position, same id set; an unknown id returns the input forest |
| TreeUpdate.UpdateAt | app/dashboard/page.tsx:116-126 | at every path the same item exists before and after, with the same id, name, kind, parent id and children count; items with another id keep their content; the item where the search stops takes the new content |
| TreeUpdate.UpdateChildrenKept | app/dashboard/page.tsx:118-119 | the item where the search stops keeps its children unchanged |
| TreeUpdate.UpdateUniqueTarget | app/dashboard/page.tsx:116-126 | with unique ids, the item carrying the id, at any depth, is replaced by itself with the new content and nothing else changed |
| TreeUpdate.UpdateIdempotent | app/dashboard/page.tsx:116-126 | applying the same update twice equals applying it once |
| TreeUpdate.UpdateOfIdempotent | app/dashboard/page.tsx:117-125 | the same for one item and its subtree |
| TreeUpdate.RenameOf | app/dashboard/page.tsx:207-211 | corrected rename of one item: keeps id, kind, content, parent id, children presence and count, and ids; a matching item takes the name; others keep theirs |
| TreeUpdate.RenameItem | app/dashboard/page.tsx:207-211 | corrected rename of a forest: same length and top-level ids, same id set, unknown id is a no-op |
| TreeUpdate.RenameAt | app/dashboard/page.tsx:207-211 | at every path the item survives with the same id, kind, content, parent id and children count; other ids keep their names; the first match takes the new name |
| TreeUpdate.RenameUniqueTarget | app/dashboard/page.tsx:207-211 | with unique ids, the item with the id is renamed at any depth and every other item keeps its name |
| TreeDelete.WithoutId | app/dashboard/page.tsx:140 | the filter keeps exactly the items not carrying the id, and keeps everything when none carries it |
| TreeDelete.DeleteBelow | app/dashboard/page.tsx:140-145 | a survivor keeps its fields and children presence, gains no ids, and has no descendant carrying the id; its children are its filtered children in the same order, each keeping its fields, so the order of survivors holds at every depth |
| TreeDelete.DeleteItemFromStructure | app/dashboard/page.tsx:139-146 | no item carrying the id is left at any depth, and no id is added |
| TreeDelete.DeleteTopLevel | app/dashboard/page.tsx:140-145 | the result's top level is the filtered top level, same length and order, each survivor keeping its fields |
| TreeDelete.WithoutIdAppend | app/dashboard/page.tsx:140 | the filter distributes over concatenation, so survivors keep their relative order |
| TreeDelete.WithoutIdSingle | app/dashboard/page.tsx:140 | one item survives the filter exactly when it does not carry the id |
| TreeDelete.DeleteUnknownId | app/dashboard/page.tsx:139-146 | deleting an id found nowhere returns the input forest |
| TreeDelete.DeleteBelowUnknownId | app/dashboard/page.tsx:141-144 | the same for one item and its subtree |
| TreeDelete.DeleteIdempotent | app/dashboard/page.tsx:139-146 | deleting twice equals deleting once |
| TreeDelete.DeleteRemovesSubtree | app/dashboard/page.tsx:139-146 | with unique ids, no id of the deleted item's subtree is reachable in the result |
| TreeDelete.DeleteKeepsOthers | app/dashboard/page.tsx:139-146 | an item with no ancestor-or-self carrying the id keeps its id in the result |
| Dashboard.HandleItemClick | app/dashboard/page.tsx:93-106 | the clicked item becomes the selection; a folder's id flips membership in the expanded set, every other id keeps its membership; a document leaves the set unchanged |
| Dashboard.ClickTwiceRestoresExpansion | app/dashboard/page.tsx:93-106 | two clicks on the same item restore the expanded set |
| Dashboard.NewParentId | app/dashboard/page.tsx:49 | a new item's parent id is present exactly when a folder is selected, and is that folder's id |
| Dashboard.HandleCreate | app/dashboard/page.tsx:41-69 | no name (cancel or empty): nothing changes; no folder selected: the new item is appended last at the top level; a selected folder no longer in the forest: the new item is lost |
| Dashboard.CreateInSelectedFolder | app/dashboard/page.tsx:41-69 | with unique ids, an item created while a folder of the forest is selected becomes its last child |
| Dashboard.HandleContentChange | app/dashboard/page.tsx:108-114 | nothing unless a document is selected; then the selection takes the content and the forest keeps its ids |
| Dashboard.ContentChangeReachesTree | app/dashboard/page.tsx:108-114 | with unique ids, the selected document takes the content in the forest wherever it is |
| Dashboard.HandleDeleteItem | app/dashboard/page.tsx:128-137 | unconfirmed: nothing changes; confirmed: the forest is the delete's result without the id, and the selection is cleared exactly when it is the deleted item; the expanded set is untouched |
| Dashboard.DeleteAncestorKeepsStaleSelection | app/dashboard/page.tsx:128-137 | deleting a folder above the selected item keeps the selection, although its id has left the forest |
| Dashboard.HandleNameChange | app/dashboard/page.tsx:207-211 | as written: the selection is renamed; top-level items with the selected id become the renamed selection; other top-level items keep their label and their content |
| Dashboard.NameChangeKeepsNestedNames | app/dashboard/page.tsx:207-211 | as written: below a non-selected top-level item, every item keeps its name, id, kind, parent id and children count, and every item with another id keeps its content |
| Dashboard.NameChangeLostForNestedDocument | app/dashboard/page.tsx:207-211 | a document inside a folder, renamed, still has its old name in the forest |
| Dashboard.HandleNameChangeFixed | app/dashboard/page.tsx:207-211 | corrected: the selection is renamed and the forest keeps its ids; an id not in the forest changes nothing |
| Dashboard.NameChangeFixedRenamesAtAnyDepth | app/dashboard/page.tsx:207-211 | corrected, with unique ids: the selected item is renamed at any depth and no other item is |
| AuthGate.Mount | app/page.tsx:23-28 | on mount the session is authenticated exactly when the stored password is absent or empty |
| AuthGate.ButtonText | app/page.tsx:30-33 | the label is "Login" exactly when a non-empty password is stored, "Set Password" otherwise |
| AuthGate.Login | app/page.tsx:35-45 | no (or empty) password: the submission is stored and the session is authenticated; otherwise the password is unchanged and the session is authenticated exactly when it was or the submission matches; a rejected submission changes nothing |
| AuthGate.LoginSucceedsIff | app/page.tsx:35-44 | from an unauthenticated session, login succeeds exactly when no non-empty password is stored or the submission equals it |
| AuthGate.StoredPasswordIsPermanent | app/page.tsx:35-45 | once a non-empty password is stored, no sequence of attempts changes it, and the session ends authenticated exactly when it was or some attempt matched |
| AuthGate.EmptyFirstPasswordLeavesGateOpen | app/page.tsx:30-45 | a first submission of "" stores "", yet the button still says "Set Password" and the next mount authenticates |
| Scenario.FolderDocumentWalkthrough | app/dashboard/page.tsx:71-146 | folder with an empty list, document inserted under it, content written: the document holds the content with its name unchanged; deleting the folder leaves an empty forest |

## Left out

- Rendering (`renderItems`, JSX, styling): presentation only.
- `idb-keyval` `get`/`set`, `loadItems`/`saveItems` and their asynchrony: the stored forest and the stored password are values passed in and out. Two saves in flight at once, and their ordering, are not modelled.
- The `setInterval` autosave: it is a timer and effect schedule. Each tick saves the current forest exactly when the selection is a document.
- `Date.now()` ids, `prompt`, `window.confirm` and `alert`: their results are parameters (`freshId`, `answer`, `confirmed`), and `alert` is the `AuthGate.Rejects` predicate.
- `router.push`, React state setters and effects: framework plumbing.
- Dashboard.HandleNameChange: does not state that nested items with the selected id keep their content, because the handler rewrites it with the selection's content (`selectedItem.content || ''`).
- Dashboard.HandleNameChangeFixed: renames only and does not rewrite content, because the content handler already writes the content on every edit.

## Findings

| source | as written | input that shows it | evidently intended | confidence | as-written member | corrected member |
|---|---|---|---|---|---|---|
| app/dashboard/page.tsx:207-211 | the name field's onChange replaces only top-level items whose id equals the selection's | a folder "1" holding document "2" "todo"; select "2" and type "groceries": the selection shows "groceries", the forest still holds "todo" and the next save keeps it | rename the selected item wherever it sits, like the content update | medium, not executed | Dashboard.NameChangeLostForNestedDocument | Dashboard.NameChangeFixedRenamesAtAnyDepth |
