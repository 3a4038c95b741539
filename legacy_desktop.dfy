/** The state and handlers of the earlier, self-contained desktop component
    (components/desktop.tsx:83-291): the item tree, the open windows (each
    holding a snapshot of the item it shows), and the fields of the
    "new folder" / "new bookmark" form. */
module LegacyDesktop {
  import opened Types
  import opened LegacyTree
  import opened LegacyRegroup
  import opened WindowRegistry

  /** contextMenuState. */
  datatype MenuState = Default | NewFolder | NewBookmark

  /** The keys handleKeyDown tells apart. */
  datatype Key = Enter | Escape | OtherKey

  type LegacyWindow = Window<LegacyItem>

  /** initialItems (components/desktop.tsx:43-81). */
  function InitialItems(): (r: seq<LegacyItem>)
    ensures RootsDetached(r) && DistinctRootIds(r) && UniqueIds(r)
    ensures AllIds(r) == {"1", "2", "3", "4", "5"}
  {
    [ LegacyItem("1", "Documents", Folder,
        Listed([LegacyItem("4", "Resume", File, Unlisted, Some("https://example.com/resume"), Some("1"))]),
        None, None),
      LegacyItem("2", "Images", Folder,
        Listed([LegacyItem("5", "Photo", File, Unlisted, Some("https://example.com/photo"), Some("2"))]),
        None, None),
      LegacyItem("3", "Notes", File, Unlisted, Some("https://example.com/notes"), None) ]
  }

  /** The item handleCreateNewItem builds: a folder exactly in the
      "new folder" state, a link (and no content) exactly in the
      "new bookmark" state, an empty content array otherwise. */
  function NewLegacyItem(id: Id, name: string, state: MenuState, link: string, parent: Option<Id>): (r: LegacyItem)
    ensures r.id == id && r.name == name && r.parent == parent
    ensures r.kind == Folder <==> state == NewFolder
    ensures state == NewBookmark ==> r.link == Some(link) && r.content == Unlisted
    ensures state != NewBookmark ==> r.link == None && r.content == Listed([])
    ensures AllIds([r]) == {id}
  {
    var r := LegacyItem(id, name, if state == NewFolder then Folder else File,
                        if state == NewBookmark then Unlisted else Listed([]),
                        if state == NewBookmark then Some(link) else None,
                        parent);
    assert [r][1..] == [];
    r
  }

  /** The tree update of handleCreateNewItem: at the root when no parent is
      active, otherwise under every node with the active id. */
  function Created(s: seq<LegacyItem>, parent: Option<Id>, c: LegacyItem): (r: seq<LegacyItem>)
    ensures parent.None? ==> r == s + [c]
    ensures parent.Some? ==> |r| == |s|
    ensures AllIds(r) == AllIds(s) + (if parent.None? || parent.value in AllIds(s) then AllIds([c]) else {})
  {
    if parent.None? then
      AllIdsAppend(s, [c]);
      s + [c]
    else
      WithNewChildIds(s, parent.value, c);
      WithNewChild(s, parent.value, c)
  }

  /** The window update of handleCreateNewItem: the snapshot of every window
      showing the active parent gets the new item as its last child. */
  function SnapshotsWithChild(ws: seq<LegacyWindow>, parent: Option<Id>, c: LegacyItem): (r: seq<LegacyWindow>)
    ensures |r| == |ws|
    ensures forall k :: 0 <= k < |ws| ==>
      r[k] == if Some(ws[k].view.id) == parent then ws[k].(view := Attach(ws[k].view, c)) else ws[k]
    decreases ws
  {
    if ws == [] then []
    else
      [if Some(ws[0].view.id) == parent then ws[0].(view := Attach(ws[0].view, c)) else ws[0]]
      + SnapshotsWithChild(ws[1..], parent, c)
  }

  /** The window update of deleteItem: drop the windows showing that item. */
  function SnapshotsWithout(ws: seq<LegacyWindow>, id: Id): (r: seq<LegacyWindow>)
    ensures |r| <= |ws|
    ensures forall k :: 0 <= k < |r| ==> r[k].view.id != id
    ensures forall k :: 0 <= k < |ws| && ws[k].view.id != id ==> ws[k] in r
    decreases ws
  {
    if ws == [] then []
    else
      var rest := SnapshotsWithout(ws[1..], id);
      assert forall k :: 1 <= k < |ws| ==> ws[k] == ws[1..][k - 1];
      if ws[0].view.id == id then rest else [ws[0]] + rest
  }

  /** Closing on delete keeps the remaining windows in their order: it works
      piecewise on a concatenation. */
  lemma {:induction false} SnapshotsWithoutAppend(a: seq<LegacyWindow>, b: seq<LegacyWindow>, id: Id)
    ensures SnapshotsWithout(a + b, id) == SnapshotsWithout(a, id) + SnapshotsWithout(b, id)
    decreases a
  {
    if a == [] {
      assert a + b == b;
    } else {
      assert (a + b)[1..] == a[1..] + b;
      SnapshotsWithoutAppend(a[1..], b, id);
    }
  }

  lemma PrunedStep(s: seq<LegacyItem>, i: nat, id: Id)
    requires i < |s|
    ensures Pruned(s[..i + 1], id) == Pruned(s[..i], id)
      + (if s[i].id == id then []
         else [s[i].(content := if s[i].content.Listed? then Listed(Pruned(s[i].content.items, id)) else Unlisted)])
  {
    assert s[..i + 1] == s[..i] + [s[i]];
    PrunedAppend(s[..i], [s[i]], id);
    assert [s[i]][1..] == [];
  }

  /** deleteItemRecursively: a filter over the list that, for each surviving
      item with a content array, reassigns that array to its pruned copy. */
  method PruneInPlace(s: seq<LegacyItem>, id: Id) returns (r: seq<LegacyItem>)
    ensures r == Pruned(s, id)
    decreases s
  {
    r := [];
    var i := 0;
    while i < |s|
      invariant 0 <= i <= |s|
      invariant r == Pruned(s[..i], id)
    {
      var x := s[i];
      PrunedStep(s, i, id);
      if x.id != id {
        if x.content.Listed? {
          var kept := PruneInPlace(x.content.items, id);
          x := x.(content := Listed(kept));
        }
        r := r + [x];
      }
      i := i + 1;
    }
    assert s[..|s|] == s;
  }

  class Desktop {
    var items: seq<LegacyItem>
    var windows: seq<LegacyWindow>
    var contextMenuState: MenuState
    var newItemName: string
    var newItemLink: string
    var activeParentId: Option<Id>

    /** What every handler keeps: root items have a null parent and
        pairwise different ids. */
    predicate Valid()
      reads this
    {
      RootsDetached(items) && DistinctRootIds(items)
    }

    constructor ()
      ensures items == InitialItems() && windows == []
      ensures contextMenuState == Default && newItemName == "" && newItemLink == "" && activeParentId == None
      ensures Valid()
    {
      items := InitialItems();
      windows := [];
      contextMenuState := Default;
      newItemName := "";
      newItemLink := "";
      activeParentId := None;
    }

    /** moveItem: the parent-field update, then the root-list reduce. */
    method MoveItem(draggedId: Id, targetId: Option<Id>)
      requires Valid()
      modifies this
      ensures items == Regrouped(Reparented(old(items), draggedId, targetId))
      ensures Valid()
      ensures windows == old(windows) && contextMenuState == old(contextMenuState)
      ensures newItemName == old(newItemName) && newItemLink == old(newItemLink)
      ensures activeParentId == old(activeParentId)
    {
      var updated := Reparented(items, draggedId, targetId);
      ReparentedNoChain(items, draggedId, targetId);
      items := RegroupRoots(updated);
      RegroupedDistinct(updated);
    }

    /** handleCreateNewItem, with `newId` for the timestamp id. */
    method HandleCreateNewItem(newId: Id)
      modifies this
      ensures old(newItemName) == "" ==>
        items == old(items) && windows == old(windows) && contextMenuState == old(contextMenuState)
        && newItemName == old(newItemName) && newItemLink == old(newItemLink)
      ensures old(newItemName) != "" ==>
        var c := NewLegacyItem(newId, old(newItemName), old(contextMenuState), old(newItemLink), old(activeParentId));
        && items == Created(old(items), old(activeParentId), c)
        && windows == SnapshotsWithChild(old(windows), old(activeParentId), c)
        && newItemName == "" && newItemLink == "" && contextMenuState == Default
      ensures activeParentId == old(activeParentId)
      ensures old(Valid()) && (forall k :: 0 <= k < |old(items)| ==> old(items)[k].id != newId) ==> Valid()
    {
      if newItemName == "" {
        return;
      }
      var c := NewLegacyItem(newId, newItemName, contextMenuState, newItemLink, activeParentId);
      items := Created(items, activeParentId, c);
      windows := SnapshotsWithChild(windows, activeParentId, c);
      newItemName := "";
      newItemLink := "";
      contextMenuState := Default;
    }

    /** handleKeyDown: Enter creates, Escape resets the form, any other key
        does nothing. */
    method HandleKeyDown(key: Key, newId: Id)
      modifies this
      ensures key == Enter && old(newItemName) != "" ==>
        var c := NewLegacyItem(newId, old(newItemName), old(contextMenuState), old(newItemLink), old(activeParentId));
        && items == Created(old(items), old(activeParentId), c)
        && windows == SnapshotsWithChild(old(windows), old(activeParentId), c)
        && newItemName == "" && newItemLink == "" && contextMenuState == Default
      ensures key == Escape ==>
        items == old(items) && windows == old(windows)
        && contextMenuState == Default && newItemName == "" && newItemLink == ""
      ensures key == OtherKey || (key == Enter && old(newItemName) == "") ==>
        items == old(items) && windows == old(windows) && contextMenuState == old(contextMenuState)
        && newItemName == old(newItemName) && newItemLink == old(newItemLink)
      ensures activeParentId == old(activeParentId)
      ensures old(Valid()) && (forall k :: 0 <= k < |old(items)| ==> old(items)[k].id != newId) ==> Valid()
    {
      match key
      case Enter => HandleCreateNewItem(newId);
      case Escape =>
        contextMenuState := Default;
        newItemName := "";
        newItemLink := "";
      case OtherKey =>
    }

    /** openWindow, with `windowId` for the timestamp id. */
    method OpenWindow(item: LegacyItem, windowId: Id)
      modifies this
      ensures windows == Opened(old(windows), item, windowId)
      ensures items == old(items) && contextMenuState == old(contextMenuState)
      ensures newItemName == old(newItemName) && newItemLink == old(newItemLink)
      ensures activeParentId == old(activeParentId)
    {
      windows := Opened(windows, item, windowId);
    }

    method CloseWindow(windowId: Id)
      modifies this
      ensures windows == Closed(old(windows), windowId)
      ensures items == old(items) && contextMenuState == old(contextMenuState)
      ensures newItemName == old(newItemName) && newItemLink == old(newItemLink)
      ensures activeParentId == old(activeParentId)
    {
      windows := Closed(windows, windowId);
    }

    method MinimizeWindow(windowId: Id)
      modifies this
      ensures windows == Minimized(old(windows), windowId)
      ensures items == old(items) && contextMenuState == old(contextMenuState)
      ensures newItemName == old(newItemName) && newItemLink == old(newItemLink)
      ensures activeParentId == old(activeParentId)
    {
      windows := Minimized(windows, windowId);
    }

    method MoveWindow(windowId: Id, position: Point)
      modifies this
      ensures windows == Repositioned(old(windows), windowId, position)
      ensures items == old(items) && contextMenuState == old(contextMenuState)
      ensures newItemName == old(newItemName) && newItemLink == old(newItemLink)
      ensures activeParentId == old(activeParentId)
    {
      windows := Repositioned(windows, windowId, position);
    }

    /** deleteItem: prune the tree and close the windows showing the item. */
    method DeleteItem(itemId: Id)
      modifies this
      ensures items == Pruned(old(items), itemId)
      ensures windows == SnapshotsWithout(old(windows), itemId)
      ensures old(Valid()) ==> Valid()
      ensures contextMenuState == old(contextMenuState)
      ensures newItemName == old(newItemName) && newItemLink == old(newItemLink)
      ensures activeParentId == old(activeParentId)
    {
      PrunedRoots(items, itemId);
      if DistinctRootIds(items) {
        PrunedDistinct(items, itemId);
      }
      items := PruneInPlace(items, itemId);
      windows := SnapshotsWithout(windows, itemId);
    }
  }

  // ---------------------------------------------------------------------

  /** A created item lands as the last child of the one node with the active
      id, wherever it sits, and every node that is not that node or one of its
      ancestors is left as it was. */
  lemma CreateUnderNode(s: seq<LegacyItem>, q: LegacyItem, c: LegacyItem, y: LegacyItem)
    requires UniqueIds(s) && Contains(q, s) && Contains(y, s) && q.id !in AllIds([y])
    ensures Contains(Attach(q, c), Created(s, Some(q.id), c))
    ensures Contains(y, Created(s, Some(q.id), c))
  {
    WithNewChildPlaces(s, q, c);
    WithNewChildKeepsUnrelated(s, q.id, c, y);
  }

  /** Creating under an id that names no node changes no item: the new item
      is lost (while any window showing that id still receives it). */
  lemma CreateUnderMissingIsLost(s: seq<LegacyItem>, p: Id, c: LegacyItem)
    requires p !in AllIds(s)
    ensures Created(s, Some(p), c) == s
  {
  }

  /** Deleting keeps every window not showing the deleted item, in order, and
      never leaves a window on it. */
  lemma DeleteClosesOnlyItsWindows(ws: seq<LegacyWindow>, id: Id)
    ensures forall w :: w in SnapshotsWithout(ws, id) <==> w in ws && w.view.id != id
  {
    var r := SnapshotsWithout(ws, id);
    forall w | w in r ensures w in ws && w.view.id != id {
      SnapshotsWithoutSub(ws, id, w);
    }
  }

  lemma {:induction false} SnapshotsWithoutSub(ws: seq<LegacyWindow>, id: Id, w: LegacyWindow)
    requires w in SnapshotsWithout(ws, id)
    ensures w in ws
    decreases ws
  {
    var rest := SnapshotsWithout(ws[1..], id);
    if w != ws[0] {
      assert w in rest;
      SnapshotsWithoutSub(ws[1..], id, w);
    }
  }
}
