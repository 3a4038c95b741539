/** The desktop store of hooks/useDesktop.tsx: the items tree, the open
    windows, the modal state and the clipboard, with the handlers that
    update them. The window resync effect (lines 24-32) is the method
    `SyncWindows`, run after every handler that gives the tree a new array;
    `Date.now()` ids are parameters. */
module DesktopHook {
  import opened Types
  import opened ItemTree
  import opened TreeEdits
  import opened MoveOps
  import opened WindowRegistry

  /** What a hook window shows: the id of its folder and a snapshot of that folder. */
  datatype FolderView = FolderView(itemId: Id, item: Item)

  type FolderWindow = Window<FolderView>

  /** The feedback moveItem gives: the refusal toast, nothing, or the
      "Transferring <name> <type> from <source> to <target>" toast. */
  datatype MoveNotice = SameLocation | Silent | Transferred(name: string, kind: Kind, from: string, to: string)

  // ---------------------------------------------------------------------
  // Window resync and window closing on delete

  /** One window after the effect: the found node replaces the snapshot. */
  function Refreshed(items: seq<Item>, w: FolderWindow): (r: FolderWindow)
    ensures r.(view := w.view) == w && r.view.itemId == w.view.itemId
    ensures r == w || (r.view.item.id == w.view.itemId && Occurs(r.view.item, items))
    ensures w.view.itemId !in Ids(items) ==> r == w
  {
    var u := FindItemById(items, w.view.itemId);
    if u.Some? then w.(view := FolderView(w.view.itemId, u.value)) else w
  }

  /** The effect on every change of the tree: each window keeps its id,
      position, size and minimised flag; its snapshot becomes the node
      findItemById finds, and stays as it was when nothing is found. */
  function Resynced(items: seq<Item>, ws: seq<FolderWindow>): (r: seq<FolderWindow>)
    ensures |r| == |ws|
    ensures forall i :: 0 <= i < |ws| ==>
      r[i].id == ws[i].id && r[i].position == ws[i].position && r[i].size == ws[i].size
      && r[i].isMinimized == ws[i].isMinimized && r[i].view.itemId == ws[i].view.itemId
    ensures forall i :: 0 <= i < |ws| ==>
      r[i] == ws[i] || (r[i].view.item.id == ws[i].view.itemId && Occurs(r[i].view.item, items))
    ensures forall i :: 0 <= i < |ws| && ws[i].view.itemId !in Ids(items) ==> r[i] == ws[i]
    decreases ws
  {
    if ws == [] then [] else [Refreshed(items, ws[0])] + Resynced(items, ws[1..])
  }

  /** deleteItem's window filter: close the windows showing that item. */
  function ClosedFor(ws: seq<FolderWindow>, itemId: Id): (r: seq<FolderWindow>)
    ensures forall w :: w in r <==> w in ws && w.view.itemId != itemId
    decreases ws
  {
    if ws == [] then []
    else
      assert forall w :: w in ws <==> w == ws[0] || w in ws[1..] by {
        assert ws == [ws[0]] + ws[1..];
      }
      (if ws[0].view.itemId == itemId then [] else [ws[0]]) + ClosedFor(ws[1..], itemId)
  }

  /** Closing on delete keeps the remaining windows in their order: it works
      piecewise on a concatenation. */
  lemma {:induction false} ClosedForAppend(a: seq<FolderWindow>, b: seq<FolderWindow>, itemId: Id)
    ensures ClosedFor(a + b, itemId) == ClosedFor(a, itemId) + ClosedFor(b, itemId)
    decreases a
  {
    if a == [] {
      assert a + b == b;
    } else {
      assert (a + b)[1..] == a[1..] + b;
      ClosedForAppend(a[1..], b, itemId);
    }
  }

  /** A window whose folder is in a consistent tree shows that very node after
      the effect. */
  lemma ResyncShowsCurrentNode(items: seq<Item>, ws: seq<FolderWindow>, x: Item, i: nat)
    requires Unique(items) && ContentInFolders(items) && Occurs(x, items)
    requires i < |ws| && ws[i].view.itemId == x.id
    ensures Resynced(items, ws)[i].view.item == x
    ensures Resynced(items, ws)[i].(view := ws[i].view) == ws[i]
  {
    FindItemByIdOfNode(x, items);
    ResyncIsRefresh(items, ws, i);
  }

  lemma {:induction false} ResyncIsRefresh(items: seq<Item>, ws: seq<FolderWindow>, i: nat)
    requires i < |ws|
    ensures Resynced(items, ws)[i] == Refreshed(items, ws[i])
    decreases ws
  {
    if i > 0 {
      ResyncIsRefresh(items, ws[1..], i - 1);
    }
  }

  /** Running the effect a second time on the same tree changes nothing. */
  lemma ResyncIdempotent(items: seq<Item>, ws: seq<FolderWindow>)
    ensures Resynced(items, Resynced(items, ws)) == Resynced(items, ws)
  {
    var once := Resynced(items, ws);
    var twice := Resynced(items, once);
    forall i | 0 <= i < |ws| ensures twice[i] == once[i] {
      ResyncIsRefresh(items, ws, i);
      ResyncIsRefresh(items, once, i);
    }
  }

  /** Deleting a folder closes only the windows showing the folder itself:
      windows showing one of its descendants stay open with their old
      snapshot. */
  lemma DeleteKeepsDescendantWindows(items: seq<Item>, ws: seq<FolderWindow>, x: Item, w: FolderWindow)
    requires Unique(items) && Occurs(x, items)
    requires w in ws && w.view.itemId in Ids(Kids(x))
    ensures w in Resynced(DeleteItemRecursively(items, x.id), ClosedFor(ws, x.id))
  {
    OccursUnique(x, items);
    assert w.view.itemId != x.id;
    var open := ClosedFor(ws, x.id);
    DeleteRemovesSubtree(items, x);
    var i :| 0 <= i < |open| && open[i] == w;
    assert Resynced(DeleteItemRecursively(items, x.id), open)[i] == w;
  }

  // ---------------------------------------------------------------------
  // Cut and paste

  /** handleCut's tree update: drop the root items with that id (nested
      nodes are not looked at). */
  function RemoveRootItem(s: seq<Item>, id: Id): (r: seq<Item>)
    ensures forall x :: x in r <==> x in s && x.id != id
    ensures (forall x :: x in s ==> x.id != id) ==> r == s
    decreases s
  {
    if s == [] then []
    else
      assert forall x :: x in s <==> x == s[0] || x in s[1..] by {
        assert s == [s[0]] + s[1..];
      }
      (if s[0].id == id then [] else [s[0]]) + RemoveRootItem(s[1..], id)
  }

  /** The cut filter keeps the remaining root items in their order: it works
      piecewise on a concatenation. */
  lemma {:induction false} RemoveRootItemAppend(a: seq<Item>, b: seq<Item>, id: Id)
    ensures RemoveRootItem(a + b, id) == RemoveRootItem(a, id) + RemoveRootItem(b, id)
    decreases a
  {
    if a == [] {
      assert a + b == b;
    } else {
      assert (a + b)[1..] == a[1..] + b;
      RemoveRootItemAppend(a[1..], b, id);
    }
  }

  /** The item handlePaste adds: the clipboard item under a new id, with the
      parent given to the paste or else the one in the modal state; its path
      and content are those of the clipboard item. */
  function PastedItem(clip: ClipboardItem, newId: Id, parentId: Option<Id>, modalParent: Option<Id>): (r: Item)
    ensures r.id == newId && r.name == clip.item.name && r.kind == clip.item.kind
    ensures r.content == clip.item.content && r.path == clip.item.path && r.link == clip.item.link
    ensures r.parent == (if parentId.Some? then parentId else modalParent)
    ensures Ids([r]) == {newId} + Ids(Kids(clip.item)) && Size([r]) == Size([clip.item])
  {
    clip.item.(id := newId, parent := if parentId.Some? then parentId else modalParent)
  }

  /** handlePaste's tree update: for a cut, drop the root items with the
      original id again, then append the pasted item at the root. */
  function Pasted(s: seq<Item>, clip: ClipboardItem, newId: Id, parentId: Option<Id>, modalParent: Option<Id>): (r: seq<Item>)
    ensures |r| >= 1 && r[|r| - 1] == PastedItem(clip, newId, parentId, modalParent)
    ensures forall y :: y in r[..|r| - 1] <==> y in s && (clip.operation == Cut ==> y.id != clip.item.id)
    ensures clip.operation == Copy ==> r[..|r| - 1] == s
  {
    (if clip.operation == Cut then RemoveRootItem(s, clip.item.id) else s)
    + [PastedItem(clip, newId, parentId, modalParent)]
  }

  lemma {:induction false} InOccurs(x: Item, s: seq<Item>)
    requires x in s
    ensures Occurs(x, s)
    decreases s
  {
    if s[0] != x {
      assert x in s[1..] by {
        assert s == [s[0]] + s[1..];
      }
      InOccurs(x, s[1..]);
    }
  }

  /** In a tree without repeated ids, handleCut on a root item is the delete
      of that item. */
  lemma {:induction false} CutRootIsDelete(s: seq<Item>, x: Item)
    requires Unique(s) && x in s
    ensures RemoveRootItem(s, x.id) == DeleteItemRecursively(s, x.id)
    decreases s
  {
    assert s == [s[0]] + s[1..];
    if s[0] == x {
      forall y | y in s[1..] ensures y.id != x.id {
        InOccurs(y, s[1..]);
        OccursIds(y, s[1..]);
      }
    } else {
      assert x in s[1..];
      InOccurs(x, s[1..]);
      OccursIds(x, s[1..]);
      CutRootIsDelete(s[1..], x);
      assert x.id !in Ids(Kids(s[0]));
    }
  }

  /** In a tree without repeated ids, handleCut on a nested item leaves the
      tree as it is: the item stays where it was. */
  lemma CutNestedKeepsTree(s: seq<Item>, x: Item)
    requires Unique(s) && Occurs(x, s) && x !in s
    ensures RemoveRootItem(s, x.id) == s
  {
    forall y | y in s ensures y.id != x.id {
      InOccurs(y, s);
      if y.id == x.id {
        OccursOnce(x, y, s);
      }
    }
  }

  /** Cut then paste of a root item: the subtree comes back at the root under
      a new id, with its old path and content; paste's own filter finds
      nothing more to drop; no node is lost or duplicated. */
  lemma CutThenPaste(s: seq<Item>, x: Item, newId: Id, parentId: Option<Id>, modalParent: Option<Id>)
    requires Unique(s) && x in s && newId !in Ids(s)
    ensures var cut := RemoveRootItem(s, x.id);
      var r := Pasted(cut, ClipboardItem(x, Cut), newId, parentId, modalParent);
      && r == cut + [PastedItem(ClipboardItem(x, Cut), newId, parentId, modalParent)]
      && r[|r| - 1].content == x.content && r[|r| - 1].path == x.path
      && Size(r) == Size(s) && Ids(r) == Ids(s) - {x.id} + {newId}
  {
    var cut := RemoveRootItem(s, x.id);
    var c := PastedItem(ClipboardItem(x, Cut), newId, parentId, modalParent);
    CutLeavesRest(s, x);
    assert Pasted(cut, ClipboardItem(x, Cut), newId, parentId, modalParent) == cut + [c];
    OccursIds(x, s);
    PasteCounts(s, cut, x, c);
  }

  /** The node count and the ids once the cut item comes back under a new id. */
  lemma PasteCounts(s: seq<Item>, cut: seq<Item>, x: Item, c: Item)
    requires Ids(cut) == Ids(s) - Ids([x]) && Size(cut) == Size(s) - Size([x])
    requires x.id in Ids(s) && Ids(Kids(x)) <= Ids(s) && Unique([x])
    requires Ids([c]) == {c.id} + Ids(Kids(x)) && Size([c]) == Size([x])
    ensures Size(cut + [c]) == Size(s) && Ids(cut + [c]) == Ids(s) - {x.id} + {c.id}
  {
    Single(x);
    IdsAppend(cut, [c]);
    SizeAppend(cut, [c]);
    IdsSwap(Ids(s), Ids(Kids(x)), x.id, c.id);
  }

  lemma IdsSwap(a: set<Id>, k: set<Id>, xid: Id, newId: Id)
    requires k <= a && xid !in k
    ensures (a - ({xid} + k)) + ({newId} + k) == a - {xid} + {newId}
  {
  }

  /** ... and the ids stay unique. The pasted item's parent field names the
      paste's parent while it sits at the root, so the parent fields disagree
      with the placement whenever a parent is given. */
  lemma CutThenPasteLinks(s: seq<Item>, x: Item, newId: Id, parentId: Option<Id>, modalParent: Option<Id>)
    requires Unique(s) && x in s && newId !in Ids(s)
    ensures var r := Pasted(RemoveRootItem(s, x.id), ClipboardItem(x, Cut), newId, parentId, modalParent);
      && Unique(r)
      && (parentId.Some? || modalParent.Some? ==> !Linked(r, None))
  {
    var cut := RemoveRootItem(s, x.id);
    var c := PastedItem(ClipboardItem(x, Cut), newId, parentId, modalParent);
    CutLeavesRest(s, x);
    OccursIds(x, s);
    Single(x);
    Single(c);
    UniqueAppend(cut, [c]);
    LinkedAppend(cut, [c], None);
  }

  lemma CutLeavesRest(s: seq<Item>, x: Item)
    requires Unique(s) && x in s
    ensures var cut := RemoveRootItem(s, x.id);
      && Ids(cut) == Ids(s) - Ids([x]) && Size(cut) == Size(s) - Size([x]) && Unique(cut)
      && RemoveRootItem(cut, x.id) == cut
      && Occurs(x, s) && Unique([x])
  {
    var cut := RemoveRootItem(s, x.id);
    InOccurs(x, s);
    CutRootIsDelete(s, x);
    DeleteRemovesSubtree(s, x);
    DeleteRemovesSubtreeSize(s, x);
    DeletePreservesUnique(s, x.id);
    OccursUnique(x, s);
    assert forall y :: y in cut ==> y.id != x.id;
  }

  /** Pasting a copied folder that has children puts a second copy of every
      descendant id into the tree: only the pasted item itself gets a new id. */
  lemma PasteCopiedFolderRepeatsIds(s: seq<Item>, x: Item, newId: Id, parentId: Option<Id>, modalParent: Option<Id>)
    requires Unique(s) && Occurs(x, s) && Kids(x) != []
    ensures var c := PastedItem(ClipboardItem(x, Copy), newId, parentId, modalParent);
      Ids(Kids(x)) <= Ids(s) && Ids(Kids(x)) <= Ids([c]) && Ids(Kids(x)) != {}
    ensures !Unique(Pasted(s, ClipboardItem(x, Copy), newId, parentId, modalParent))
  {
    var c := PastedItem(ClipboardItem(x, Copy), newId, parentId, modalParent);
    OccursIds(x, s);
    var k := Kids(x)[0];
    assert k.id in Ids(Kids(x));
    assert k.id in Ids([c]) && k.id in Ids(s);
    UniqueAppend(s, [c]);
  }

  /** Cut then paste of a nested item: the original stays in place and a
      second copy of its subtree is added at the root. */
  lemma CutNestedThenPasteDuplicates(s: seq<Item>, x: Item, newId: Id, parentId: Option<Id>, modalParent: Option<Id>)
    requires Unique(s) && Occurs(x, s) && x !in s
    ensures var r := Pasted(RemoveRootItem(s, x.id), ClipboardItem(x, Cut), newId, parentId, modalParent);
      && Occurs(x, r) && Size(r) == Size(s) + Size([x])
  {
    CutNestedKeepsTree(s, x);
    var c := PastedItem(ClipboardItem(x, Cut), newId, parentId, modalParent);
    assert Size([c]) == Size([x]);
    SizeAppend(s, [c]);
    OccursAppend(x, s, [c]);
  }

  // ---------------------------------------------------------------------
  // The store

  class Desktop {
    var items: seq<Item>
    var windows: seq<FolderWindow>
    var modalState: ModalState
    var clipboard: Option<ClipboardItem>

    constructor (initialItems: seq<Item>)
      ensures items == initialItems && windows == [] && modalState == ClosedModal && clipboard == None
    {
      items := initialItems;
      windows := [];
      modalState := ClosedModal;
      clipboard := None;
    }

    /** The resync effect (lines 24-32). */
    method SyncWindows()
      modifies this
      ensures windows == Resynced(items, old(windows))
      ensures items == old(items) && modalState == old(modalState) && clipboard == old(clipboard)
    {
      var ws := windows;
      var i := 0;
      var acc: seq<FolderWindow> := [];
      while i < |ws|
        invariant 0 <= i <= |ws| && |acc| == i
        invariant forall k :: 0 <= k < i ==> acc[k] == Refreshed(items, ws[k])
      {
        acc := acc + [Refreshed(items, ws[i])];
        i := i + 1;
      }
      forall k | 0 <= k < |ws| ensures acc[k] == Resynced(items, ws)[k] {
        ResyncIsRefresh(items, ws, k);
      }
      windows := acc;
    }

    /** moveItem: a drop onto itself is refused; a node not in the tree
        changes nothing; otherwise the tree becomes `Relocated`, the windows
        follow, and the notice names the node and the two paths. */
    method MoveItem(draggedId: Id, targetId: Option<Id>, sourcePath: string) returns (notice: MoveNotice)
      modifies this
      ensures items == Relocated(old(items), draggedId, targetId)
      ensures modalState == old(modalState) && clipboard == old(clipboard)
      ensures targetId == Some(draggedId) ==> notice == SameLocation && windows == old(windows)
      ensures targetId != Some(draggedId) && draggedId !in Ids(old(items)) ==>
        notice == Silent && windows == old(windows)
      ensures targetId != Some(draggedId) && draggedId in Ids(old(items)) ==>
        var moved := FindAndRemove(old(items), draggedId).removed.value;
        && windows == Resynced(items, old(windows))
        && notice == Transferred(moved.name, moved.kind, sourcePath,
                                 if targetId.Some? then GetItemPath(items, targetId.value) else DesktopPath)
      ensures Unique(old(items)) && Linked(old(items), None) ==> Unique(items) && Linked(items, None)
    {
      if Unique(items) && Linked(items, None) {
        MovePreservesStructure(items, draggedId, targetId);
      }
      if targetId == Some(draggedId) {
        notice := SameLocation;
        return;
      }
      var cut := FindAndRemove(items, draggedId);
      if cut.removed.None? {
        notice := Silent;
        return;
      }
      var moved := cut.removed.value;
      var updated := InsertItem(cut.rest, moved, targetId);
      var targetPath := if targetId.Some? then GetItemPath(updated, targetId.value) else DesktopPath;
      items := updated;
      SyncWindows();
      notice := Transferred(moved.name, moved.kind, sourcePath, targetPath);
    }

    /** handleItemOperation: create under the modal's parent, or rename the
        modal's item, then close the modal; a rename without a selected item
        changes nothing. */
    method HandleItemOperation(name: string, link: Option<string>, freshId: Id)
      requires modalState.kind == Some(New) ==> modalState.itemType.Some?
      modifies this
      ensures clipboard == old(clipboard)
      ensures old(modalState).kind == Some(New) ==>
        var m := old(modalState);
        && items == Created(old(items), m.parentId,
                            NewItem(freshId, name, m.itemType.value, m.parentId, ParentPath(old(items), m.parentId), link))
        && windows == Resynced(items, old(windows)) && modalState == ClosedModal
      ensures old(modalState).kind in {Some(Edit), Some(Rename)} && old(modalState).item.None? ==>
        items == old(items) && windows == old(windows) && modalState == old(modalState)
      ensures old(modalState).kind in {Some(Edit), Some(Rename)} && old(modalState).item.Some? ==>
        && items == Renamed(old(items), old(items), old(modalState).item.value.id, name, link)
        && windows == Resynced(items, old(windows)) && modalState == ClosedModal
      ensures old(modalState).kind !in {Some(New), Some(Edit), Some(Rename)} ==>
        items == old(items) && windows == old(windows) && modalState == ClosedModal
      ensures old(modalState).kind == Some(New) && WellFormed(old(items)) && freshId !in Ids(old(items)) ==>
        WellFormed(items)
    {
      var m := modalState;
      if m.kind == Some(New) {
        var c := NewItem(freshId, name, m.itemType.value, m.parentId, ParentPath(items, m.parentId), link);
        if WellFormed(items) && freshId !in Ids(items) {
          CreatePreservesWellFormed(items, freshId, name, m.itemType.value, m.parentId, link);
        }
        items := Created(items, m.parentId, c);
        SyncWindows();
      } else if m.kind == Some(Edit) || m.kind == Some(Rename) {
        if m.item.None? {
          return;
        }
        items := Renamed(items, items, m.item.value.id, name, link);
        SyncWindows();
      }
      modalState := ClosedModal;
    }

    method OpenWindow(item: Item, windowId: Id)
      modifies this
      ensures windows == Opened(old(windows), FolderView(item.id, item), windowId)
      ensures items == old(items) && modalState == old(modalState) && clipboard == old(clipboard)
    {
      windows := Opened(windows, FolderView(item.id, item), windowId);
    }

    method CloseWindow(windowId: Id)
      modifies this
      ensures windows == Closed(old(windows), windowId)
      ensures items == old(items) && modalState == old(modalState) && clipboard == old(clipboard)
    {
      windows := Closed(windows, windowId);
    }

    method MinimizeWindow(windowId: Id)
      modifies this
      ensures windows == Minimized(old(windows), windowId)
      ensures items == old(items) && modalState == old(modalState) && clipboard == old(clipboard)
    {
      windows := Minimized(windows, windowId);
    }

    method MoveWindow(windowId: Id, position: Point)
      modifies this
      ensures windows == Repositioned(old(windows), windowId, position)
      ensures items == old(items) && modalState == old(modalState) && clipboard == old(clipboard)
    {
      windows := Repositioned(windows, windowId, position);
    }

    /** deleteItem: drop the node with its subtree, close the windows showing
        it, then resync the rest. */
    method DeleteItem(itemId: Id)
      modifies this
      ensures items == DeleteItemRecursively(old(items), itemId)
      ensures windows == Resynced(items, ClosedFor(old(windows), itemId))
      ensures modalState == old(modalState) && clipboard == old(clipboard)
      ensures WellFormed(old(items)) ==> WellFormed(items)
    {
      if WellFormed(items) {
        DeletePreservesWellFormed(items, itemId);
      }
      items := DeleteItemRecursively(items, itemId);
      windows := ClosedFor(windows, itemId);
      SyncWindows();
    }

    method HandleCopy(item: Item)
      modifies this
      ensures clipboard == Some(ClipboardItem(item, Copy))
      ensures items == old(items) && windows == old(windows) && modalState == old(modalState)
    {
      clipboard := Some(ClipboardItem(item, Copy));
    }

    /** handleCut: remember the item and drop it from the root level. */
    method HandleCut(item: Item)
      modifies this
      ensures clipboard == Some(ClipboardItem(item, Cut))
      ensures items == RemoveRootItem(old(items), item.id)
      ensures windows == Resynced(items, old(windows)) && modalState == old(modalState)
      ensures WellFormed(old(items)) ==> WellFormed(items)
    {
      if WellFormed(items) {
        if x :| x in items && x.id == item.id {
          CutRootIsDelete(items, x);
          DeletePreservesWellFormed(items, item.id);
        }
      }
      clipboard := Some(ClipboardItem(item, Cut));
      items := RemoveRootItem(items, item.id);
      SyncWindows();
    }

    /** handlePaste: with an empty clipboard nothing changes; otherwise the
        pasted item is appended at the root and the clipboard is emptied. */
    method HandlePaste(parentId: Option<Id>, freshId: Id)
      modifies this
      ensures old(clipboard).None? ==> items == old(items) && windows == old(windows) && clipboard == None
      ensures old(clipboard).Some? ==>
        && items == Pasted(old(items), old(clipboard).value, freshId, parentId, old(modalState).parentId)
        && windows == Resynced(items, old(windows)) && clipboard == None
      ensures modalState == old(modalState)
    {
      if clipboard.None? {
        return;
      }
      items := Pasted(items, clipboard.value, freshId, parentId, modalState.parentId);
      clipboard := None;
      SyncWindows();
    }

    method SetModalState(m: ModalState)
      modifies this
      ensures modalState == m
      ensures items == old(items) && windows == old(windows) && clipboard == old(clipboard)
    {
      modalState := m;
    }
  }
}
