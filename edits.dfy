/** The pure tree rewrites behind the hook's create, rename and delete handlers
    (hooks/useDesktop.tsx: updateItemsRecursively, updateItemRecursively,
    deleteItemRecursively). */
module TreeEdits {
  import opened Types
  import opened ItemTree

  // ---------------------------------------------------------------------
  // Delete

  /** deleteItemRecursively: drop every node with id `id`, with its subtree,
      at any depth; the survivors keep their order. */
  function DeleteItemRecursively(s: seq<Item>, id: Id): (r: seq<Item>)
    ensures id !in Ids(r)
    ensures Ids(r) <= Ids(s)
    ensures id !in Ids(s) ==> r == s
    decreases s
  {
    if s == [] then []
    else if s[0].id == id then DeleteItemRecursively(s[1..], id)
    else
      [s[0].(content := if s[0].content.Present?
                        then Present(DeleteItemRecursively(s[0].content.items, id))
                        else Absent)]
      + DeleteItemRecursively(s[1..], id)
  }

  /** Delete keeps the survivors in their order: it works piecewise on a
      concatenation. */
  lemma {:induction false} DeleteAppend(a: seq<Item>, b: seq<Item>, id: Id)
    ensures DeleteItemRecursively(a + b, id) == DeleteItemRecursively(a, id) + DeleteItemRecursively(b, id)
    decreases a
  {
    if a == [] {
      assert a + b == b;
    } else {
      assert (a + b)[1..] == a[1..] + b;
      DeleteAppend(a[1..], b, id);
    }
  }

  /** Deleting a node of a tree without repeated ids removes exactly the ids of
      its subtree. */
  lemma {:induction false} DeleteRemovesSubtree(s: seq<Item>, x: Item)
    requires Unique(s) && Occurs(x, s)
    ensures Ids(DeleteItemRecursively(s, x.id)) == Ids(s) - Ids([x])
    decreases s
  {
    var r := DeleteItemRecursively(s, x.id);
    if s[0] == x {
      OccursUnique(x, s);
      assert r == DeleteItemRecursively(s[1..], x.id) == s[1..];
      assert [x][1..] == [];
    } else if s[0].content.Present? && Occurs(x, s[0].content.items) {
      OccursIds(x, s[0].content.items);
      OccursIds(x, s);
      DeleteRemovesSubtree(s[0].content.items, x);
      assert x.id !in Ids(s[1..]);
      assert r == [s[0].(content := Present(DeleteItemRecursively(s[0].content.items, x.id)))] + s[1..];
    } else {
      OccursIds(x, s[1..]);
      assert x.id != s[0].id;
      DeleteRemovesSubtree(s[1..], x);
      var k := if s[0].content.Present? then s[0].content.items else [];
      assert x.id !in Ids(k);
      assert r == [s[0]] + DeleteItemRecursively(s[1..], x.id);
      assert Ids(r) == {s[0].id} + Ids(k) + Ids(DeleteItemRecursively(s[1..], x.id));
      OccursIds(x, s);
      OccursUnique(x, s);
      assert Ids([x]) <= Ids(s[1..]);
    }
  }

  /** ... and exactly as many nodes as that subtree holds. */
  lemma DeleteRemovesSubtreeSize(s: seq<Item>, x: Item)
    requires Unique(s) && Occurs(x, s)
    ensures Size(DeleteItemRecursively(s, x.id)) == Size(s) - Size([x])
  {
    var r := DeleteItemRecursively(s, x.id);
    DeleteRemovesSubtree(s, x);
    DeletePreservesUnique(s, x.id);
    OccursUnique(x, s);
    OccursIds(x, s);
    Single(x);
    SizeIsIdCount(s);
    SizeIsIdCount(r);
    SizeIsIdCount([x]);
    CardinalityOfDifference(Ids(s), Ids([x]));
  }

  lemma CardinalityOfDifference(a: set<Id>, b: set<Id>)
    requires b <= a
    ensures |a - b| == |a| - |b|
  {
    assert a == (a - b) + b;
  }

  /** Every node that is neither inside the deleted subtree nor one of its
      ancestors survives unchanged. */
  lemma {:induction false} DeleteKeepsUnrelated(s: seq<Item>, x: Item, y: Item)
    requires Unique(s) && Occurs(y, s)
    requires Occurs(x, s) || x.id !in Ids(s)
    requires x.id !in Ids([y]) && y.id !in Ids([x])
    ensures Occurs(y, DeleteItemRecursively(s, x.id))
    decreases s
  {
    var r := DeleteItemRecursively(s, x.id);
    if s[0] == y {
      assert r[0] == y;
    } else if s[0].content.Present? && Occurs(y, s[0].content.items) {
      OccursIds(y, s[0].content.items);
      if Occurs(x, s) {
        if s[0] == x {
          assert false;
        } else {
          if s[0].id == x.id { OccursOnce(s[0], x, s); }
          if Occurs(x, s[0].content.items) {
            OccursIds(x, s[0].content.items);
          } else {
            OccursIds(x, s[1..]);
          }
        }
      }
      DeleteKeepsUnrelated(s[0].content.items, x, y);
      assert r[0].content.items == DeleteItemRecursively(s[0].content.items, x.id);
    } else {
      if Occurs(x, s) && !Occurs(x, s[1..]) {
        if s[0] != x { OccursIds(x, s[0].content.items); }
        assert x.id !in Ids(s[1..]);
      }
      DeleteKeepsUnrelated(s[1..], x, y);
      if s[0].id != x.id {
        assert r[1..] == DeleteItemRecursively(s[1..], x.id);
      }
    }
  }

  lemma {:induction false} DeletePreservesUnique(s: seq<Item>, id: Id)
    requires Unique(s)
    ensures Unique(DeleteItemRecursively(s, id))
    decreases s
  {
    if s != [] {
      DeletePreservesUnique(s[1..], id);
      if s[0].id != id && s[0].content.Present? {
        DeletePreservesUnique(s[0].content.items, id);
      }
    }
  }

  lemma {:induction false} DeletePreservesLinked(s: seq<Item>, id: Id, parent: Option<Id>)
    requires Linked(s, parent)
    ensures Linked(DeleteItemRecursively(s, id), parent)
    decreases s
  {
    if s != [] {
      DeletePreservesLinked(s[1..], id, parent);
      if s[0].id != id && s[0].content.Present? {
        DeletePreservesLinked(s[0].content.items, id, Some(s[0].id));
      }
    }
  }

  lemma {:induction false} DeletePreservesPathed(s: seq<Item>, id: Id, prefix: string)
    requires Pathed(s, prefix)
    ensures Pathed(DeleteItemRecursively(s, id), prefix)
    decreases s
  {
    if s != [] {
      DeletePreservesPathed(s[1..], id, prefix);
      if s[0].id != id && s[0].content.Present? {
        DeletePreservesPathed(s[0].content.items, id, s[0].path);
      }
    }
  }

  /** Delete keeps a consistent tree consistent. */
  lemma DeletePreservesWellFormed(items: seq<Item>, id: Id)
    requires WellFormed(items)
    ensures WellFormed(DeleteItemRecursively(items, id))
  {
    DeletePreservesUnique(items, id);
    DeletePreservesLinked(items, id, None);
    DeletePreservesPathed(items, id, DesktopPath);
  }

  // ---------------------------------------------------------------------
  // Create

  /** The item handleItemOperation builds for "new": a file carries the link
      it was given (possibly none), a folder an empty content array. */
  function NewItem(id: Id, name: string, kind: Kind, parent: Option<Id>,
                   parentPath: string, link: Option<string>): (r: Item)
    ensures r.id == id && r.name == name && r.kind == kind
    ensures Ids([r]) == {id} && Size([r]) == 1 && Kids(r) == []
    ensures Unique([r]) && Linked([r], parent) && Pathed([r], parentPath) && ContentInFolders([r])
    ensures kind == Folder ==> r.content == Present([]) && r.link == None
    ensures kind == File ==> r.content == Absent && r.link == link
  {
    Item(id, name, kind,
         if kind == File then Absent else Present([]),
         if kind == File then link else None,
         parent, parentPath + "/" + name)
  }

  /** The parent path of a new item: getItemPath of the parent, `/desktop` at the root. */
  function ParentPath(items: seq<Item>, parent: Option<Id>): (r: string)
    ensures parent.None? || parent.value !in Ids(items) ==> r == DesktopPath
  {
    if parent.Some? then GetItemPath(items, parent.value) else DesktopPath
  }

  /** updateItemsRecursively of the create branch: append `c` as the last child
      of every node with id `p`, without looking inside such a node. */
  function AppendChild(s: seq<Item>, p: Id, c: Item): (r: seq<Item>)
    ensures |r| == |s|
    ensures p !in Ids(s) ==> r == s
    ensures Ids(r) == Ids(s) + (if p in Ids(s) then Ids([c]) else {})
    decreases s
  {
    if s == [] then []
    else
      var x := s[0];
      var y := if x.id == p then WithChild(x, c)
               else if x.content.Present? then x.(content := Present(AppendChild(x.content.items, p, c)))
               else x;
      assert x.id == p ==> Ids(Kids(y)) == Ids(Kids(x)) + Ids([c]) by {
        IdsAppend(Kids(x), [c]);
      }
      [y] + AppendChild(s[1..], p, c)
  }

  /** The tree after a create: at the root, or under the node named by `parent`. */
  function Created(items: seq<Item>, parent: Option<Id>, c: Item): (r: seq<Item>)
    ensures parent.None? ==> |r| == |items| + 1 && r[..|items|] == items && r[|items|] == c
    ensures parent.Some? ==> |r| == |items|
    ensures parent.Some? && parent.value !in Ids(items) ==> r == items
    ensures Ids(r) == Ids(items) + (if parent.None? || parent.value in Ids(items) then Ids([c]) else {})
  {
    if parent.None? then
      IdsAppend(items, [c]);
      items + [c]
    else AppendChild(items, parent.value, c)
  }

  /** In a tree without repeated ids the new child lands as the last child of
      the one node with that id. */
  lemma {:induction false} AppendChildPlaces(s: seq<Item>, q: Item, c: Item)
    requires Unique(s) && Occurs(q, s)
    ensures Occurs(WithChild(q, c), AppendChild(s, q.id, c))
    decreases s
  {
    var r := AppendChild(s, q.id, c);
    if s[0] == q {
    } else if s[0].content.Present? && Occurs(q, s[0].content.items) {
      OccursIds(q, s[0].content.items);
      AppendChildPlaces(s[0].content.items, q, c);
    } else {
      AppendChildPlaces(s[1..], q, c);
      assert r[1..] == AppendChild(s[1..], q.id, c);
    }
  }

  /** Every node that is neither the parent nor one of its ancestors is left
      as it was by a create. */
  lemma {:induction false} AppendChildKeepsUnrelated(s: seq<Item>, p: Id, c: Item, y: Item)
    requires Occurs(y, s) && p !in Ids([y])
    ensures Occurs(y, AppendChild(s, p, c))
    decreases s
  {
    var r := AppendChild(s, p, c);
    if s[0] == y {
      assert r[0] == y;
    } else if s[0].content.Present? && Occurs(y, s[0].content.items) {
      if s[0].id == p {
        OccursAppend(y, s[0].content.items, [c]);
      } else {
        AppendChildKeepsUnrelated(s[0].content.items, p, c, y);
      }
    } else {
      AppendChildKeepsUnrelated(s[1..], p, c, y);
      assert r[1..] == AppendChild(s[1..], p, c);
    }
  }

  lemma {:induction false} AppendChildSize(s: seq<Item>, p: Id, c: Item)
    requires Unique(s)
    ensures Size(AppendChild(s, p, c)) == Size(s) + (if p in Ids(s) then Size([c]) else 0)
    decreases s
  {
    if s != [] {
      var x := s[0];
      AppendChildSize(s[1..], p, c);
      if x.id == p {
        SizeAppend(Kids(x), [c]);
      } else if x.content.Present? {
        AppendChildSize(x.content.items, p, c);
      }
    }
  }

  lemma {:induction false} AppendChildUnique(s: seq<Item>, p: Id, c: Item)
    requires Unique(s) && Unique([c]) && Ids([c]) !! Ids(s)
    ensures Unique(AppendChild(s, p, c))
    decreases s
  {
    if s != [] {
      var x := s[0];
      AppendChildUnique(s[1..], p, c);
      if x.id == p {
        UniqueAppend(Kids(x), [c]);
        IdsAppend(Kids(x), [c]);
      } else if x.content.Present? {
        AppendChildUnique(x.content.items, p, c);
      }
    }
  }

  lemma {:induction false} AppendChildLinked(s: seq<Item>, p: Id, c: Item, parent: Option<Id>)
    requires Linked(s, parent) && c.parent == Some(p) && Linked(Kids(c), Some(c.id))
    ensures Linked(AppendChild(s, p, c), parent)
    decreases s
  {
    if s != [] {
      var x := s[0];
      AppendChildLinked(s[1..], p, c, parent);
      if x.id == p {
        LinkedAppend(Kids(x), [c], Some(x.id));
      } else if x.content.Present? {
        AppendChildLinked(x.content.items, p, c, Some(x.id));
      }
    }
  }

  lemma {:induction false} AppendChildPathed(s: seq<Item>, p: Id, c: Item, prefix: string, pp: string)
    requires Pathed(s, prefix)
    requires forall y :: Occurs(y, s) && y.id == p ==> y.path == pp
    requires c.path == pp + "/" + c.name && Pathed(Kids(c), c.path)
    ensures Pathed(AppendChild(s, p, c), prefix)
    decreases s
  {
    if s != [] {
      var x := s[0];
      AppendChildPathed(s[1..], p, c, prefix, pp);
      if x.id == p {
        PathedAppend(Kids(x), [c], x.path);
      } else if x.content.Present? {
        AppendChildPathed(x.content.items, p, c, x.path, pp);
      }
    }
  }

  /** Create keeps a consistent tree consistent and adds exactly one node, unless
      the parent id is not in the tree, in which case the new item is lost. */
  lemma CreatePreservesWellFormed(items: seq<Item>, id: Id, name: string, kind: Kind,
                                  parent: Option<Id>, link: Option<string>)
    requires WellFormed(items) && id !in Ids(items)
    ensures var r := Created(items, parent, NewItem(id, name, kind, parent, ParentPath(items, parent), link));
      && WellFormed(r)
      && (parent.Some? && parent.value !in Ids(items) ==> r == items)
      && (parent.None? || parent.value in Ids(items) ==> Size(r) == Size(items) + 1 && Ids(r) == Ids(items) + {id})
  {
    var c := NewItem(id, name, kind, parent, ParentPath(items, parent), link);
    var r := Created(items, parent, c);
    assert Kids(c) == [];
    assert Ids([c]) == {id};
    assert Size([c]) == 1;
    assert Unique([c]);
    if parent.None? {
      UniqueAppend(items, [c]);
      LinkedAppend(items, [c], None);
      PathedAppend(items, [c], DesktopPath);
      SizeAppend(items, [c]);
      IdsAppend(items, [c]);
    } else {
      var p := parent.value;
      AppendChildUnique(items, p, c);
      AppendChildLinked(items, p, c, None);
      AppendChildSize(items, p, c);
      forall y | Occurs(y, items) && y.id == p
        ensures y.path == ParentPath(items, parent)
      {
        FindPathOfNode(y, items, DesktopPath);
      }
      AppendChildPathed(items, p, c, DesktopPath, ParentPath(items, parent));
    }
  }

  /** Create appends the new item as the last child of its parent, with the
      parent's path followed by its name; a folder starts empty and a file
      carries the link it was given. */
  lemma CreateAppendsUnderParent(items: seq<Item>, q: Item, id: Id, name: string, kind: Kind,
                                 link: Option<string>)
    requires WellFormed(items) && Occurs(q, items)
    ensures var c := NewItem(id, name, kind, Some(q.id), ParentPath(items, Some(q.id)), link);
      && c.path == q.path + "/" + name && c.parent == Some(q.id)
      && (kind == Folder ==> c.content == Present([]) && c.link == None)
      && (kind == File ==> c.content == Absent && c.link == link)
      && Occurs(WithChild(q, c), Created(items, Some(q.id), c))
  {
    var c := NewItem(id, name, kind, Some(q.id), ParentPath(items, Some(q.id)), link);
    FindPathOfNode(q, items, DesktopPath);
    AppendChildPlaces(items, q, c);
  }

  // ---------------------------------------------------------------------
  // Rename and edit

  /** The renamed node: new name, a path recomputed from its parent's stored
      path (or `/desktop` at the root), and a new link only for a file given a
      non-empty link. Its content is kept as it is. */
  function Retitled(x: Item, root: seq<Item>, name: string, link: Option<string>): (r: Item)
    ensures r.id == x.id && r.kind == x.kind && r.content == x.content && r.parent == x.parent
    ensures r.name == name && Ids([r]) == Ids([x]) && Size([r]) == Size([x])
    ensures r.link != x.link ==> x.kind == File && r.link == link && link != Some("")
    ensures x.parent.None? ==> r.path == DesktopPath + "/" + name
  {
    x.(name := name,
       path := (if x.parent.Some? then GetItemPath(root, x.parent.value) else DesktopPath) + "/" + name,
       link := if x.kind == File && Truthy(link) then link else x.link)
  }

  /** updateItemRecursively: retitle every node with id `target` (not looking
      inside it); `root` is the whole tree, where parent paths are looked up. */
  function Renamed(s: seq<Item>, root: seq<Item>, target: Id, name: string, link: Option<string>): (r: seq<Item>)
    ensures |r| == |s|
    ensures Ids(r) == Ids(s)
    ensures target !in Ids(s) ==> r == s
    decreases s
  {
    if s == [] then []
    else
      var x := s[0];
      [if x.id == target then Retitled(x, root, name, link)
       else if x.content.Present? then x.(content := Present(Renamed(x.content.items, root, target, name, link)))
       else x]
      + Renamed(s[1..], root, target, name, link)
  }

  /** Rename rewrites the one node with that id: only its name, its path and,
      for a file given a non-empty link, its link change. */
  lemma {:induction false} RenameHitsTarget(s: seq<Item>, root: seq<Item>, x: Item, name: string, link: Option<string>)
    requires Unique(s) && Occurs(x, s)
    ensures var y := Retitled(x, root, name, link);
      && Occurs(y, Renamed(s, root, x.id, name, link))
      && y.id == x.id && y.kind == x.kind && y.content == x.content && y.parent == x.parent
      && y.name == name
      && y.link == (if x.kind == File && Truthy(link) then link else x.link)
    decreases s
  {
    var r := Renamed(s, root, x.id, name, link);
    if s[0] == x {
    } else if s[0].content.Present? && Occurs(x, s[0].content.items) {
      OccursIds(x, s[0].content.items);
      RenameHitsTarget(s[0].content.items, root, x, name, link);
    } else {
      RenameHitsTarget(s[1..], root, x, name, link);
      assert r[1..] == Renamed(s[1..], root, x.id, name, link);
    }
  }

  /** Every node that is neither the renamed node nor one of its ancestors is
      left as it was by a rename. */
  lemma {:induction false} RenameKeepsUnrelated(s: seq<Item>, root: seq<Item>, target: Id, name: string,
                                                link: Option<string>, y: Item)
    requires Occurs(y, s) && target !in Ids([y])
    ensures Occurs(y, Renamed(s, root, target, name, link))
    decreases s
  {
    var r := Renamed(s, root, target, name, link);
    if s[0] == y {
      assert r[0] == y;
    } else if s[0].content.Present? && Occurs(y, s[0].content.items) {
      if s[0].id != target {
        RenameKeepsUnrelated(s[0].content.items, root, target, name, link, y);
      }
    } else {
      RenameKeepsUnrelated(s[1..], root, target, name, link, y);
      assert r[1..] == Renamed(s[1..], root, target, name, link);
    }
  }

  /** Rename keeps ids unique, parent fields and the node count. */
  lemma {:induction false} RenamePreservesShape(s: seq<Item>, root: seq<Item>, target: Id, name: string,
                                                link: Option<string>, parent: Option<Id>)
    ensures Size(Renamed(s, root, target, name, link)) == Size(s)
    ensures Unique(s) ==> Unique(Renamed(s, root, target, name, link))
    ensures Linked(s, parent) ==> Linked(Renamed(s, root, target, name, link), parent)
    decreases s
  {
    if s != [] {
      RenamePreservesShape(s[1..], root, target, name, link, parent);
      if s[0].id != target && s[0].content.Present? {
        RenamePreservesShape(s[0].content.items, root, target, name, link, Some(s[0].id));
      }
    }
  }

  lemma LinkedMember(x: Item, s: seq<Item>, parent: Option<Id>)
    requires Linked(s, parent) && x in s
    ensures x.parent == parent
    decreases s
  {
    if s[0] != x {
      LinkedMember(x, s[1..], parent);
    }
  }

  /** The renamed node itself gets a correct path: its parent's stored path (or
      `/desktop` at the root) followed by the new name. */
  lemma RenameRecomputesOwnPath(items: seq<Item>, x: Item, holder: Option<Item>, name: string, link: Option<string>)
    requires WellFormed(items)
    requires holder.None? ==> x in items
    requires holder.Some? ==> Occurs(holder.value, items) && x in Kids(holder.value)
    ensures Retitled(x, items, name, link).path
            == (if holder.Some? then holder.value.path else DesktopPath) + "/" + name
  {
    if holder.None? {
      LinkedMember(x, items, None);
    } else {
      var q := holder.value;
      OccursLinked(q, items, None);
      LinkedMember(x, Kids(q), Some(q.id));
      FindPathOfNode(q, items, DesktopPath);
    }
  }

  lemma {:induction false} RenamedPathed(s: seq<Item>, root: seq<Item>, target: Id, name: string,
                                         link: Option<string>, prefix: string, parent: Option<Id>)
    requires Pathed(s, prefix) && Linked(s, parent)
    requires parent.None? ==> prefix == DesktopPath
    requires parent.Some? ==> GetItemPath(root, parent.value) == prefix
    requires forall y :: Occurs(y, s) ==> GetItemPath(root, y.id) == y.path
    requires forall y :: Occurs(y, s) && y.id == target ==> Kids(y) == []
    ensures Pathed(Renamed(s, root, target, name, link), prefix)
    decreases s
  {
    if s != [] {
      var x := s[0];
      RenamedPathed(s[1..], root, target, name, link, prefix, parent);
      if x.id != target && x.content.Present? {
        RenamedPathed(x.content.items, root, target, name, link, x.path, Some(x.id));
      }
    }
  }

  /** Renaming a node without children keeps a consistent tree consistent
      (a node with children leaves their stored paths stale). */
  lemma RenameLeafPreservesWellFormed(items: seq<Item>, x: Item, name: string, link: Option<string>)
    requires WellFormed(items) && Occurs(x, items) && Kids(x) == []
    ensures WellFormed(Renamed(items, items, x.id, name, link))
  {
    RenamePreservesShape(items, items, x.id, name, link, None);
    forall y | Occurs(y, items)
      ensures GetItemPath(items, y.id) == y.path
    {
      FindPathOfNode(y, items, DesktopPath);
    }
    forall y | Occurs(y, items) && y.id == x.id
      ensures Kids(y) == []
    {
      OccursOnce(x, y, items);
    }
    RenamedPathed(items, items, x.id, name, link, DesktopPath, None);
  }
}
