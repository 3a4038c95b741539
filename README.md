# Desktop simulator store, modelled in Dafny

This project models the state logic of a browser "desktop simulator". The
desktop holds a tree of files and folders. Folders open as windows, and items
can be created, renamed, moved by drag and drop, deleted, copied, cut and
pasted. Three pieces are modelled:

- **The `useDesktop` hook** (`hooks/useDesktop.tsx`): the store the
  application uses. It holds the item tree, the open windows, the modal state
  and the clipboard.
  - The tree helpers (`findItemById`, `getItemPath`, `findItemAndRemove`,
    `insertItem`, the two `updateItem(s)Recursively` and
    `deleteItemRecursively`) are functions over an immutable
    `Item`/`Content` datatype (`tree.dfy`, `edits.dfy`, `move.dfy`).
  - The handlers are methods of the class `DesktopHook.Desktop`
    (`hook.dfy`), with one field per state slot.
  - The effect that resyncs every window's snapshot after a change of the
    tree is the method `SyncWindows`. A loop proves it against the function
    `Resynced`, and every handler that gives the tree a new array calls it.
- **The earlier desktop component** (`components/desktop.tsx`). It is
  self-contained and differs from the hook in several ways:
  - items have no stored path;
  - `moveItem` only rewrites the dragged item's parent field and then
    rebuilds the root list with a `reduce`;
  - open windows hold a bare snapshot of their item.
  
  The tree and its recursive rewrites are in `legacy_tree.dfy`. The `reduce`
  is the loop `LegacyRegroup.RegroupRoots`, proved equal to the function
  `Regrouped` (`legacy_regroup.dfy`). The component's state is the class
  `LegacyDesktop.Desktop` (`legacy_desktop.dfy`).
- **The clipboard provider** (`context/ClipboardContext.tsx`): one slot that
  holds the last copied or cut item (`clipboard_context.dfy`).

The window list and its four operations are shared by both stores. They are
defined once, generic over what a window shows (`windows.dfy`).

Some things the proofs bring out about the hook:

- A rename recomputes only the renamed node's own path. A move rewrites only
  the moved node's parent field and path. Stored paths below the node go
  stale.
- Moving a folder into one of its own descendants silently deletes the
  folder and its subtree.
- A cut only removes a root item, so cutting a nested item and pasting it
  duplicates its subtree.
- Pasting a copy repeats every descendant id.
- Deleting a folder leaves windows on its descendants open.

About the earlier component:

- Moving a nested item changes only its parent field.
- Moving a root item to the desktop leaves it in place.
- Moving a root item onto another root folder makes it that folder's last
  child.
- Moving a root item onto any other item drops it, with its subtree. That
  covers a nested folder, a file, the item itself, or a missing id.

These behaviours are modelled as the code has them.

## Model

| member | source | states |
|---|---|---|
| ItemTree.FindItemById | hooks/useDesktop.tsx:53-62 | a found item has the id asked for and is a node of the tree; an id not in the tree finds nothing |
| ItemTree.FindItemByIdOfNode | hooks/useDesktop.tsx:53-62 | in a tree without repeated ids, where only folders carry content, findItemById returns exactly the node with that id |
| ItemTree.FindPath | hooks/useDesktop.tsx:35-48 | a path is found only for an id that is in the tree |
| ItemTree.GetItemPath | hooks/useDesktop.tsx:34-51 | an id not in the tree gives `/desktop` |
| ItemTree.FindPathOfNode | hooks/useDesktop.tsx:34-51 | for a node of a consistent tree, getItemPath returns that node's stored (non-empty) path, so the fallback is taken only for missing ids |
| ItemTree.SizeIsIdCount | types/desktop.tsx:1-9 | in a tree without repeated ids, the number of nodes equals the number of ids |
| ItemTree.OccursOnce | types/desktop.tsx:1-9 | two nodes of a tree without repeated ids that share an id are the same node |
| TreeEdits.DeleteItemRecursively | hooks/useDesktop.tsx:284-293 | the deleted id is gone at every depth, no id is added, and an id not in the tree leaves the tree as it is |
| TreeEdits.DeleteAppend | hooks/useDesktop.tsx:284-293 | delete works piecewise on a concatenation, so the surviving items keep their order |
| TreeEdits.DeleteRemovesSubtree | hooks/useDesktop.tsx:282-296 | deleting a node removes exactly the ids of its subtree |
| TreeEdits.DeleteRemovesSubtreeSize | hooks/useDesktop.tsx:282-296 | deleting a node removes exactly as many nodes as its subtree holds |
| TreeEdits.DeleteKeepsUnrelated | hooks/useDesktop.tsx:284-293 | every node outside the deleted subtree and its ancestors survives unchanged |
| TreeEdits.DeletePreservesWellFormed | hooks/useDesktop.tsx:282-296 | delete keeps ids unique, parent fields matching the nesting, and stored paths matching the parents' paths |
| TreeEdits.NewItem | hooks/useDesktop.tsx:158-165 | the new item is one consistent node with the given id, name and kind, the given parent and the parent path plus its name. A folder gets an empty content array and no link; a file gets no content and the link |
| TreeEdits.ParentPath | hooks/useDesktop.tsx:155-157 | with no parent, or a parent id not in the tree, the new item's parent path is `/desktop` |
| TreeEdits.Created | hooks/useDesktop.tsx:167-190 | with no parent the item is appended after the unchanged root items. With a parent, the root count is kept and a parent id not in the tree changes nothing. The new item's ids join exactly when it lands |
| TreeEdits.AppendChild | hooks/useDesktop.tsx:168-184 | the create rewrite keeps the root count; the new item's ids are added exactly when the parent id is in the tree; otherwise nothing changes |
| TreeEdits.AppendChildPlaces | hooks/useDesktop.tsx:168-184 | the new item becomes the last child of the one node with the parent id, wherever that node sits |
| TreeEdits.AppendChildKeepsUnrelated | hooks/useDesktop.tsx:168-184 | every node that is not the parent or one of its ancestors is left as it was |
| TreeEdits.CreatePreservesWellFormed | hooks/useDesktop.tsx:154-191 | create keeps the tree consistent. With a parent in the tree, or at the root, it adds exactly one node and the fresh id. With a parent id not in the tree, nothing changes and the new item is lost |
| TreeEdits.CreateAppendsUnderParent | hooks/useDesktop.tsx:155-165 | the new item's path is the parent's path plus its name. A folder starts with an empty content array and no link; a file carries the link it was given |
| TreeEdits.Renamed | hooks/useDesktop.tsx:198-225 | rename keeps the root count and the id set, and an id not in the tree changes nothing |
| TreeEdits.Retitled | hooks/useDesktop.tsx:201-212 | the renamed node keeps its id, kind, content, parent and subtree and gets the new name. Its link changes only for a file given a non-empty link, and a root item's path becomes `/desktop/<name>` |
| TreeEdits.RenameHitsTarget | hooks/useDesktop.tsx:199-213 | the renamed node keeps its id, kind, content and parent and gets the new name. Its link changes only for a file given a non-empty link |
| TreeEdits.RenameKeepsUnrelated | hooks/useDesktop.tsx:199-221 | every node that is not the renamed one or an ancestor of it is left as it was |
| TreeEdits.RenamePreservesShape | hooks/useDesktop.tsx:198-225 | rename keeps the node count, unique ids and consistent parent fields |
| TreeEdits.RenameRecomputesOwnPath | hooks/useDesktop.tsx:203-208 | the renamed node's new path is its holder's stored path (or `/desktop` at the root) followed by the new name |
| TreeEdits.RenameLeafPreservesWellFormed | hooks/useDesktop.tsx:198-225 | renaming a node without children keeps the tree consistent |
| MoveOps.FindAndRemove | hooks/useDesktop.tsx:74-101 | a node is reported exactly when the id is in the tree. The reported node has that id and was a node of the tree. The rest of the tree is the tree with that id deleted |
| MoveOps.InsertUnder | hooks/useDesktop.tsx:106-134 | insertItem under a target keeps the root count and changes nothing when the target is not in the tree |
| MoveOps.InsertUnderIds | hooks/useDesktop.tsx:116-133 | the moved subtree's ids are added exactly when the target is in the tree |
| MoveOps.InsertUnderPlaces | hooks/useDesktop.tsx:116-128 | the moved node becomes the last child of the target, with the parent field naming the target and the target's path as prefix |
| MoveOps.InsertUnderKeepsUnrelated | hooks/useDesktop.tsx:116-133 | every node that is not the target or an ancestor of it is left as it was |
| MoveOps.InsertUnderAppend | hooks/useDesktop.tsx:116-133 | insertItem under a target works piecewise on a concatenation, so every node keeps its position |
| MoveOps.PlacedUnder | hooks/useDesktop.tsx:118-126 | the node placed under a target keeps its id, name, kind, content and subtree; its parent field names the target and its path is the target's path plus its name |
| MoveOps.PlacedAtRoot | hooks/useDesktop.tsx:111-114 | the node placed at the root keeps its id, name, kind, content and subtree, with a null parent and path `/desktop/<name>` |
| MoveOps.InsertItem | hooks/useDesktop.tsx:106-134 | at the root it adds one root item; under a target it keeps the root count, and a target not in the tree changes nothing. The node's ids join exactly when it lands |
| MoveOps.Relocated | hooks/useDesktop.tsx:64-147 | a drop onto itself and a dragged id not in the tree leave the tree as it is |
| MoveOps.RemovedIsTheNode | hooks/useDesktop.tsx:74-104 | in a tree without repeated ids, findItemAndRemove reports exactly the node with that id |
| MoveOps.MoveToDesktop | hooks/useDesktop.tsx:111-114 | moving to the desktop appends the node at the root with a null parent and path `/desktop/<name>`. Its content is carried as it was, and the node count is kept |
| MoveOps.MoveIntoFolder | hooks/useDesktop.tsx:116-128 | moving into a target still present makes the node the target's last child under the target's path. The node count and the id set are kept |
| MoveOps.MoveToMissingTargetLosesSubtree | hooks/useDesktop.tsx:103-136 | when the target is absent once the node is taken out, the node and its whole subtree vanish |
| MoveOps.MoveIntoOwnDescendant | hooks/useDesktop.tsx:103-136 | moving a folder into one of its descendants deletes it, losing at least two nodes |
| MoveOps.MoveKeepsUnrelated | hooks/useDesktop.tsx:64-147 | every node outside the moved subtree, not an ancestor of it and not the target or the target's ancestors, stays as it was |
| MoveOps.MoveRootKeepsOrder | hooks/useDesktop.tsx:64-147 | moving a root item keeps the other root items in order. To the desktop they stay as they were and the node goes last; into a target each of them stays in its position, rewritten by insertItem |
| MoveOps.MovePreservesStructure | hooks/useDesktop.tsx:64-147 | move keeps ids unique and parent fields consistent, whatever its arguments |
| WindowRegistry.Opened | hooks/useDesktop.tsx:239-251 | openWindow appends one window that is not minimised, at position (50+20n, 50+20n), and keeps the existing windows |
| WindowRegistry.Closed | hooks/useDesktop.tsx:253-255 | closeWindow keeps exactly the windows with another id; an id not present changes nothing |
| WindowRegistry.ClosedAppend | hooks/useDesktop.tsx:253-255 | closeWindow works piecewise on a concatenation, so the remaining windows keep their order |
| WindowRegistry.CloseUndoesOpen | hooks/useDesktop.tsx:239-255 | closing a window just opened under a fresh id gives back the window list from before |
| WindowRegistry.Minimized | hooks/useDesktop.tsx:257-263 | minimizeWindow toggles the flag of the matching windows only |
| WindowRegistry.MinimizeTwiceRestores | hooks/useDesktop.tsx:257-263 | minimising twice restores every window |
| WindowRegistry.Repositioned | hooks/useDesktop.tsx:265-272 | moveWindow sets the position of the matching windows only |
| WindowRegistry.RepositionLastWins | hooks/useDesktop.tsx:265-272 | of two moves, the last one wins |
| DesktopHook.Refreshed | hooks/useDesktop.tsx:27-30 | one window after the effect: only its snapshot may change, and then to a current node with the window's item id. A window whose item id is not in the tree is unchanged |
| DesktopHook.Resynced | hooks/useDesktop.tsx:24-32 | each window keeps its id, position, size, flag and folder id. Its snapshot is unchanged or is a current node with that id, and it is unchanged when the id is gone |
| DesktopHook.ResyncShowsCurrentNode | hooks/useDesktop.tsx:24-32 | a window whose folder is in a consistent tree shows that very node after the effect, and nothing else about the window changes |
| DesktopHook.ResyncIsRefresh | hooks/useDesktop.tsx:24-32 | the effect treats each window on its own: window i after the effect is window i refreshed from the current tree |
| DesktopHook.ResyncIdempotent | hooks/useDesktop.tsx:24-32 | running the effect twice on the same tree is the same as running it once |
| DesktopHook.ClosedFor | hooks/useDesktop.tsx:298 | deleteItem keeps exactly the windows not showing the deleted item |
| DesktopHook.ClosedForAppend | hooks/useDesktop.tsx:298 | the delete filter works piecewise on a concatenation, so the remaining windows keep their order |
| DesktopHook.DeleteKeepsDescendantWindows | hooks/useDesktop.tsx:282-298 | a window showing a descendant of the deleted folder stays open with its old snapshot |
| DesktopHook.RemoveRootItem | hooks/useDesktop.tsx:316 | the cut filter keeps exactly the root items with another id, and changes nothing when no root item has that id |
| DesktopHook.RemoveRootItemAppend | hooks/useDesktop.tsx:316 | the cut filter works piecewise on a concatenation, so the remaining root items keep their order |
| DesktopHook.PastedItem | hooks/useDesktop.tsx:328-332 | the pasted item is the clipboard item under the new id, with its name, kind, content, path and link. Its parent is the paste's parent when given, else the modal's. Its subtree keeps its ids and size |
| DesktopHook.Pasted | hooks/useDesktop.tsx:327-343 | the pasted item comes last. Before it stand the old root items, all of them for a copy; for a cut, exactly those with another id |
| DesktopHook.CutRootIsDelete | hooks/useDesktop.tsx:311-318 | in a tree without repeated ids, cutting a root item is deleting it |
| DesktopHook.CutLeavesRest | hooks/useDesktop.tsx:311-318 | cutting a root item removes exactly its subtree's ids and nodes, keeps ids unique, and a second filter with the same id drops nothing more |
| DesktopHook.CutNestedKeepsTree | hooks/useDesktop.tsx:311-318 | cutting a nested item leaves the tree as it is |
| DesktopHook.CutThenPaste | hooks/useDesktop.tsx:311-343 | cut then paste of a root item appends it at the root under the new id with its old content and path, the filter in paste drops nothing more, and the node count and ids (old id swapped for the new) are kept |
| DesktopHook.CutThenPasteLinks | hooks/useDesktop.tsx:327-339 | after cut and paste the ids are still unique, and whenever a parent id is given, the pasted root item's parent field disagrees with its place |
| DesktopHook.PasteCopiedFolderRepeatsIds | hooks/useDesktop.tsx:327-342 | every (non-empty) descendant id of a copied folder is both in the tree and in the pasted item, so the result has repeated ids |
| DesktopHook.CutNestedThenPasteDuplicates | hooks/useDesktop.tsx:311-343 | cut then paste of a nested item keeps the original and adds a second copy of its subtree |
| DesktopHook.Desktop.constructor | hooks/useDesktop.tsx:10-20 | the store starts from the given items, with no windows, a closed modal and an empty clipboard |
| DesktopHook.Desktop.SyncWindows | hooks/useDesktop.tsx:24-32 | the loop over the windows gives `Resynced` of the current tree and touches no other slot |
| DesktopHook.Desktop.MoveItem | hooks/useDesktop.tsx:64-150 | a drop onto itself is refused with the "same location" notice; a missing node changes nothing. Otherwise the tree is relocated, the windows are resynced, and the notice carries the node's name and type with the source and target paths. Move keeps the tree's structure |
| DesktopHook.Desktop.HandleItemOperation | hooks/useDesktop.tsx:152-237 | "new" creates under the modal's parent; "edit"/"rename" renames the modal's item, and changes nothing when there is none. The modal is closed, the windows resync, and a create with a fresh id keeps the tree consistent |
| DesktopHook.Desktop.OpenWindow | hooks/useDesktop.tsx:239-251 | adds the window for the item at the next cascade offset; no other slot changes |
| DesktopHook.Desktop.CloseWindow | hooks/useDesktop.tsx:253-255 | removes the windows with that id; no other slot changes |
| DesktopHook.Desktop.MinimizeWindow | hooks/useDesktop.tsx:257-263 | toggles the matching windows; no other slot changes |
| DesktopHook.Desktop.MoveWindow | hooks/useDesktop.tsx:265-272 | repositions the matching windows; no other slot changes |
| DesktopHook.Desktop.DeleteItem | hooks/useDesktop.tsx:282-301 | deletes the subtree, closes the windows on the item, resyncs the rest, and keeps the tree consistent |
| DesktopHook.Desktop.HandleCopy | hooks/useDesktop.tsx:303-309 | the clipboard holds the item for a copy; nothing else changes |
| DesktopHook.Desktop.HandleCut | hooks/useDesktop.tsx:311-318 | the clipboard holds the item for a cut and the root items with its id are dropped, keeping the tree consistent |
| DesktopHook.Desktop.HandlePaste | hooks/useDesktop.tsx:320-349 | with an empty clipboard nothing changes. Otherwise the pasted item is appended at the root, for a cut after dropping the root items with the original id, and the clipboard is emptied |
| DesktopHook.Desktop.SetModalState | hooks/useDesktop.tsx:13-19 | only the modal slot changes |
| LegacyTree.Reparented | components/desktop.tsx:99-120 | each root item with the dragged id gets the target as its parent field and is otherwise unchanged. Every other root item keeps its id, kind and parent field. The root count and the set of ids are kept, and an id not in the tree changes nothing |
| LegacyTree.ReparentedAt | components/desktop.tsx:99-120 | in a tree without repeated ids, the dragged node, wherever it sits, becomes the same node with the target as its parent field, its content included |
| LegacyTree.ReparentedKeepsUnrelated | components/desktop.tsx:99-120 | every node at any depth whose subtree does not hold the dragged id is left as it was |
| LegacyTree.Pruned | components/desktop.tsx:242-252 | the deleted id is gone at every depth, no id is added, and an id not in the tree changes nothing |
| LegacyTree.PrunedRoots | components/desktop.tsx:240-255 | the surviving root items are old root items, so root parents stay null |
| LegacyTree.PrunedDistinct | components/desktop.tsx:240-255 | root ids stay distinct after a delete |
| LegacyTree.PrunedKeepsUnrelated | components/desktop.tsx:242-252 | every node reached without passing through the deleted id, and not holding it, survives unchanged |
| LegacyTree.WithNewChild | components/desktop.tsx:159-169 | the create rewrite keeps ids, parent fields and the root count, and changes nothing when the parent id is not in the tree |
| LegacyTree.WithNewChildIds | components/desktop.tsx:159-169 | the new item's id is added exactly when the parent id is in the tree |
| LegacyTree.WithNewChildPlaces | components/desktop.tsx:159-169 | in a tree without repeated ids, the new item becomes the last child of the one node with the parent id |
| LegacyTree.WithNewChildKeepsUnrelated | components/desktop.tsx:159-169 | every node that is not the parent or one of its ancestors is left as it was |
| LegacyRegroup.FindIndex | components/desktop.tsx:132-134 | `find` by id returns the first index holding the id, or the length when there is none |
| LegacyRegroup.RegroupRoots | components/desktop.tsx:127-141 | the reduce loop, with its accumulator and its in-place appends, computes `Regrouped` |
| LegacyRegroup.RegroupStep | components/desktop.tsx:128-139 | one call of the reduce's callback keeps the loop invariant: the accumulator and the later items are what `Regrouped` says of the processed prefix |
| LegacyRegroup.Regrouped | components/desktop.tsx:127-141 | the rebuilt root list has only items with a null parent |
| LegacyRegroup.RegroupedDistinct | components/desktop.tsx:127-141 | the rebuilt root list keeps root ids distinct |
| LegacyRegroup.RegroupDetached | components/desktop.tsx:127-141 | when every root item has a null parent, the reduce changes nothing |
| LegacyRegroup.MoveKeepsPlaces | components/desktop.tsx:97-143 | moving to the desktop, or moving an item that is not a root item, leaves the root list as the parent update made it. The dragged node stays where it was at any depth with only its parent field changed, and every node whose subtree avoids the dragged id is unchanged |
| LegacyRegroup.MoveRootIntoRoot | components/desktop.tsx:97-143 | moving a root item onto another root item removes it from the root list and, if the target is a folder, appends it to the target's content. All other root items stay, in order |
| LegacyRegroup.MoveRootToMissingDrops | components/desktop.tsx:97-143 | moving a root item to an id that names no other root item drops it, with its subtree |
| LegacyDesktop.InitialItems | components/desktop.tsx:43-81 | the initial tree has root items with null parents, ids 1 to 5 without repeats |
| LegacyDesktop.NewLegacyItem | components/desktop.tsx:148-157 | the new item is a folder exactly in the "new folder" state. A bookmark carries the typed link and no content; anything else has an empty content array |
| LegacyDesktop.Created | components/desktop.tsx:158-176 | with no active parent the item is appended at the root; otherwise the root count is kept and its id joins exactly when the parent is in the tree |
| LegacyDesktop.CreateUnderNode | components/desktop.tsx:158-176 | the created item becomes the last child of the active parent wherever it sits, and unrelated nodes stay as they were |
| LegacyDesktop.CreateUnderMissingIsLost | components/desktop.tsx:158-176 | creating under an active parent id that names no node leaves the tree as it is, so the new item is lost |
| LegacyDesktop.SnapshotsWithChild | components/desktop.tsx:178-191 | every window showing the active parent gets the new item appended to its snapshot; other windows are unchanged |
| LegacyDesktop.SnapshotsWithout | components/desktop.tsx:257-259 | no remaining window shows the deleted item, and every window not showing it is kept |
| LegacyDesktop.SnapshotsWithoutAppend | components/desktop.tsx:257-259 | the delete filter works piecewise on a concatenation, so the remaining windows keep their order |
| LegacyDesktop.DeleteClosesOnlyItsWindows | components/desktop.tsx:257-259 | the remaining windows are exactly those not showing the deleted item |
| LegacyDesktop.PruneInPlace | components/desktop.tsx:242-252 | the filter with in-place content reassignment computes `Pruned` |
| LegacyDesktop.Desktop.constructor | components/desktop.tsx:83-93 | the component starts with the initial items, no windows, an empty form and no active parent |
| LegacyDesktop.Desktop.MoveItem | components/desktop.tsx:97-143 | the items become `Regrouped(Reparented(...))`, root parents stay null and root ids distinct, and nothing else changes |
| LegacyDesktop.Desktop.HandleCreateNewItem | components/desktop.tsx:145-196 | an empty name changes nothing. Otherwise the item is created in the tree and in the matching window snapshots, and the form resets. With a fresh id, root parents stay null and root ids distinct |
| LegacyDesktop.Desktop.HandleKeyDown | components/desktop.tsx:282-291 | Enter creates; Escape resets the menu state, the name and the link without touching items or windows; other keys change nothing |
| LegacyDesktop.Desktop.OpenWindow | components/desktop.tsx:198-209 | adds a window with the item's snapshot at the next cascade offset |
| LegacyDesktop.Desktop.CloseWindow | components/desktop.tsx:211-213 | removes the windows with that id |
| LegacyDesktop.Desktop.MinimizeWindow | components/desktop.tsx:215-221 | toggles the matching windows |
| LegacyDesktop.Desktop.MoveWindow | components/desktop.tsx:223-230 | repositions the matching windows |
| LegacyDesktop.Desktop.DeleteItem | components/desktop.tsx:240-260 | prunes the tree, closes the windows on the item, and keeps root parents null and root ids distinct |
| ClipboardStore.ClipboardProvider.constructor | context/ClipboardContext.tsx:19-22 | the clipboard starts empty |
| ClipboardStore.ClipboardProvider.CopyItem | context/ClipboardContext.tsx:24-27 | the slot holds (item, copy) whatever it held before |
| ClipboardStore.ClipboardProvider.CutItem | context/ClipboardContext.tsx:29-32 | the slot holds (item, cut) whatever it held before; there is no tree to change |
| ClipboardStore.ClipboardProvider.ClearClipboard | context/ClipboardContext.tsx:34-36 | the slot is empty, from any state |

## Left out

- Toasts: only the hook's move notice is modelled, as `MoveNotice`. Success and error toasts elsewhere are UI output and do not affect state.
- `Date.now()` ids are parameters (`newId`, `freshId`, `windowId`). Uniqueness of a timestamp is not modelled; where a property needs a fresh id, it is a hypothesis.
- React scheduling: each `setX` is applied at once, in program order. The resync effect runs at the end of each handler that gives the tree a new array.
- LegacyRegroup.RegroupRoots: requires distinct root ids and that no re-parented root item is named as a parent by another root item. Without that, the source's in-place `parent.content` appends on shared objects can reach items already dropped or moved. The legacy store keeps both conditions, since its root items always have null parents.
- LegacyDesktop.Desktop.MoveItem: requires the store invariant `Valid()` (root parents null, root ids distinct). The constructor establishes it, and delete, move and create with a fresh id keep it.
- LegacyDesktop.PruneInPlace: works on values. The source reassigns `item.content` on the objects the previous state and the window snapshots share, so a snapshot can see a nested deletion. The model does not capture this aliasing.
- Legacy window snapshots are not resynced on move or delete; the source does not resync them either.
- `draggedItem`, `handleDragStart`/`handleDragEnd`, `desktopRef`, `inputRef`, `handleEmptySpaceRightClick` and the focus effect are UI bookkeeping with no effect on the modelled state.
- The legacy form's `onChange`/`onClick` setters (`setNewItemName`, `setNewItemLink`, `setContextMenuState`, `setActiveParentId`) are single field assignments. The model's fields are assigned directly instead.
- Pixel dragging of windows: a window position is an opaque integer pair.
- Rendering components, `config/desktop.tsx` and the call sites in `components/desktop/Desktop.tsx` are not part of this model.
- `useClipboard` raising an error outside its provider is React wiring and is not modelled.
- DesktopHook.Desktop.MoveItem: `sourcePath` is only carried into the notice, as in the source.
- Stored paths of the descendants of a moved or renamed node are not recomputed, as in the source. The well-formedness lemmas for rename cover leaves only, and `MovePreservesStructure` covers ids and parent fields but not paths.
- DesktopHook.Desktop.HandleItemOperation: requires an item type in the modal state for "new". The source asserts this with a non-null `itemType!` and does not handle a missing type.
- Ids are non-empty strings in the model. The source types them as plain strings, and an empty one would be falsy where it tests `parentId` or `targetId`. Every id the source makes is a `Date.now()` string or one of "1" to "5", so none is empty.
