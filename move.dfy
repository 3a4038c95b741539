/** The hook's moveItem on the tree (hooks/useDesktop.tsx:64-150): take the
    dragged node out of wherever it sits (findItemAndRemove), then put it at
    the root or as the last child of the target (insertItem). Only the moved
    node's own parent field and path are rewritten; its content travels as it
    was. */
module MoveOps {
  import opened Types
  import opened ItemTree
  import opened TreeEdits

  /** What findItemAndRemove returns: the removed node, if any, and the tree without it. */
  datatype Removal = Removal(removed: Option<Item>, rest: seq<Item>)

  /** findItemAndRemove: drop every node with id `id`; the node reported is the
      last one met in document order, as the source's reduce overwrites it. */
  function FindAndRemove(s: seq<Item>, id: Id): (r: Removal)
    ensures r.removed.Some? <==> id in Ids(s)
    ensures r.removed.Some? ==> r.removed.value.id == id && Occurs(r.removed.value, s)
    ensures r.rest == DeleteItemRecursively(s, id)
    decreases s
  {
    if s == [] then Removal(None, [])
    else
      var tail := FindAndRemove(s[1..], id);
      var x := s[0];
      if x.id == id then
        Removal(if tail.removed.Some? then tail.removed else Some(x), tail.rest)
      else if x.content.Present? then
        var inner := FindAndRemove(x.content.items, id);
        if inner.removed.Some? then
          Removal(if tail.removed.Some? then tail.removed else inner.removed,
                  [x.(content := Present(inner.rest))] + tail.rest)
        else
          Removal(tail.removed, [x] + tail.rest)
      else
        Removal(tail.removed, [x] + tail.rest)
  }

  /** The moved node as insertItem places it under the node `holder`. */
  function PlacedUnder(item: Item, holder: Item): (r: Item)
    ensures r.id == item.id && r.name == item.name && r.kind == item.kind && r.content == item.content
    ensures r.parent == Some(holder.id) && r.path == holder.path + "/" + item.name
    ensures Ids([r]) == Ids([item]) && Size([r]) == Size([item])
  {
    item.(parent := Some(holder.id), path := holder.path + "/" + item.name)
  }

  /** The moved node as insertItem places it at the root. */
  function PlacedAtRoot(item: Item): (r: Item)
    ensures r.id == item.id && r.name == item.name && r.kind == item.kind && r.content == item.content
    ensures r.parent == None && r.path == DesktopPath + "/" + item.name
    ensures Ids([r]) == Ids([item]) && Size([r]) == Size([item])
  {
    item.(parent := None, path := DesktopPath + "/" + item.name)
  }

  /** insertItem with a non-null target: append the node to the content of
      every node with id `t` (not looking inside such a node), with that
      node's path as prefix. */
  function InsertUnder(s: seq<Item>, item: Item, t: Id): (r: seq<Item>)
    ensures |r| == |s|
    ensures t !in Ids(s) ==> r == s
    decreases s
  {
    if s == [] then []
    else
      var x := s[0];
      var y := if x.id == t then WithChild(x, PlacedUnder(item, x))
               else if x.content.Present? then x.(content := Present(InsertUnder(x.content.items, item, t)))
               else x;
      [y] + InsertUnder(s[1..], item, t)
  }

  /** The ids after insertItem under `t`: those of the node's subtree join
      exactly when `t` is in the tree. */
  lemma {:induction false} InsertUnderIds(s: seq<Item>, item: Item, t: Id)
    ensures Ids(InsertUnder(s, item, t)) == Ids(s) + (if t in Ids(s) then Ids([item]) else {})
    decreases s
  {
    if s != [] {
      var x := s[0];
      InsertUnderIds(s[1..], item, t);
      if x.id == t {
        IdsAppend(Kids(x), [PlacedUnder(item, x)]);
      } else if x.content.Present? {
        InsertUnderIds(x.content.items, item, t);
      }
    }
  }

  /** insertItem under a target keeps the root items in their order: it
      works piecewise on a concatenation. */
  lemma {:induction false} InsertUnderAppend(a: seq<Item>, b: seq<Item>, item: Item, t: Id)
    ensures InsertUnder(a + b, item, t) == InsertUnder(a, item, t) + InsertUnder(b, item, t)
    decreases a
  {
    if a == [] {
      assert a + b == b;
    } else {
      assert (a + b)[1..] == a[1..] + b;
      InsertUnderAppend(a[1..], b, item, t);
    }
  }

  /** insertItem: at the root when the target is null, under the target otherwise. */
  function InsertItem(s: seq<Item>, item: Item, target: Option<Id>): (r: seq<Item>)
    ensures |r| == |s| + (if target.None? then 1 else 0)
    ensures target.Some? && target.value !in Ids(s) ==> r == s
    ensures Ids(r) == Ids(s) + (if target.None? || target.value in Ids(s) then Ids([item]) else {})
  {
    if target.None? then
      IdsAppend(s, [PlacedAtRoot(item)]);
      s + [PlacedAtRoot(item)]
    else
      InsertUnderIds(s, item, target.value);
      InsertUnder(s, item, target.value)
  }

  /** The items after moveItem(dragged, target): unchanged when the node is
      dropped onto itself or is not in the tree. */
  function Relocated(s: seq<Item>, dragged: Id, target: Option<Id>): (r: seq<Item>)
    ensures target == Some(dragged) ==> r == s
    ensures dragged !in Ids(s) ==> r == s
  {
    if target == Some(dragged) then s
    else
      var cut := FindAndRemove(s, dragged);
      if cut.removed.None? then s else InsertItem(cut.rest, cut.removed.value, target)
  }

  // ---------------------------------------------------------------------

  /** In a tree without repeated ids the removed node is the node with that id. */
  lemma RemovedIsTheNode(s: seq<Item>, x: Item)
    requires Unique(s) && Occurs(x, s)
    ensures FindAndRemove(s, x.id) == Removal(Some(x), DeleteItemRecursively(s, x.id))
  {
    OccursIds(x, s);
    var r := FindAndRemove(s, x.id);
    OccursOnce(r.removed.value, x, s);
  }

  lemma {:induction false} InsertUnderPlaces(s: seq<Item>, item: Item, q: Item)
    requires Unique(s) && Occurs(q, s)
    ensures Occurs(WithChild(q, PlacedUnder(item, q)), InsertUnder(s, item, q.id))
    decreases s
  {
    var r := InsertUnder(s, item, q.id);
    if s[0] == q {
    } else if s[0].content.Present? && Occurs(q, s[0].content.items) {
      OccursIds(q, s[0].content.items);
      InsertUnderPlaces(s[0].content.items, item, q);
    } else {
      InsertUnderPlaces(s[1..], item, q);
      assert r[1..] == InsertUnder(s[1..], item, q.id);
    }
  }

  lemma {:induction false} InsertUnderKeepsUnrelated(s: seq<Item>, item: Item, t: Id, y: Item)
    requires Occurs(y, s) && t !in Ids([y])
    ensures Occurs(y, InsertUnder(s, item, t))
    decreases s
  {
    var r := InsertUnder(s, item, t);
    if s[0] == y {
      assert r[0] == y;
    } else if s[0].content.Present? && Occurs(y, s[0].content.items) {
      if s[0].id == t {
        OccursAppend(y, s[0].content.items, [PlacedUnder(item, s[0])]);
      } else {
        InsertUnderKeepsUnrelated(s[0].content.items, item, t, y);
      }
    } else {
      InsertUnderKeepsUnrelated(s[1..], item, t, y);
      assert r[1..] == InsertUnder(s[1..], item, t);
    }
  }

  lemma {:induction false} InsertUnderSize(s: seq<Item>, item: Item, t: Id)
    requires Unique(s)
    ensures Size(InsertUnder(s, item, t)) == Size(s) + (if t in Ids(s) then Size([item]) else 0)
    decreases s
  {
    if s != [] {
      var x := s[0];
      InsertUnderSize(s[1..], item, t);
      if x.id == t {
        SizeAppend(Kids(x), [PlacedUnder(item, x)]);
      } else if x.content.Present? {
        InsertUnderSize(x.content.items, item, t);
      }
    }
  }

  lemma {:induction false} InsertUnderUnique(s: seq<Item>, item: Item, t: Id)
    requires Unique(s) && Unique([item]) && Ids([item]) !! Ids(s)
    ensures Unique(InsertUnder(s, item, t))
    decreases s
  {
    if s != [] {
      var x := s[0];
      InsertUnderUnique(s[1..], item, t);
      InsertUnderIds(s[1..], item, t);
      if x.id == t {
        var c := PlacedUnder(item, x);
        assert Ids([c]) == Ids([item]);
        UniqueAppend(Kids(x), [c]);
        IdsAppend(Kids(x), [c]);
      } else if x.content.Present? {
        InsertUnderUnique(x.content.items, item, t);
        InsertUnderIds(x.content.items, item, t);
      }
    }
  }

  lemma {:induction false} InsertUnderLinked(s: seq<Item>, item: Item, t: Id, parent: Option<Id>)
    requires Linked(s, parent) && Linked(Kids(item), Some(item.id))
    ensures Linked(InsertUnder(s, item, t), parent)
    decreases s
  {
    if s != [] {
      var x := s[0];
      InsertUnderLinked(s[1..], item, t, parent);
      if x.id == t {
        LinkedAppend(Kids(x), [PlacedUnder(item, x)], Some(x.id));
      } else if x.content.Present? {
        InsertUnderLinked(x.content.items, item, t, Some(x.id));
      }
    }
  }

  /** Moving onto the desktop: the node leaves its old place and becomes the
      last root item, with no parent and the path `/desktop/<name>`; its
      content, and so its descendants' stored paths, are carried unchanged. */
  lemma MoveToDesktop(s: seq<Item>, x: Item)
    requires Unique(s) && Occurs(x, s)
    ensures Relocated(s, x.id, None) == DeleteItemRecursively(s, x.id) + [PlacedAtRoot(x)]
    ensures PlacedAtRoot(x).path == "/desktop/" + x.name && PlacedAtRoot(x).content == x.content
    ensures Size(Relocated(s, x.id, None)) == Size(s)
  {
    RemovedIsTheNode(s, x);
    DeleteRemovesSubtreeSize(s, x);
    SizeAppend(DeleteItemRecursively(s, x.id), [PlacedAtRoot(x)]);
  }

  /** Moving into a folder that is still in the tree once the node is taken
      out: the node becomes the last child of the target, with the target's
      stored path as prefix; nothing is lost or added. */
  lemma MoveIntoFolder(s: seq<Item>, x: Item, q: Item)
    requires Unique(s) && Occurs(x, s) && Occurs(q, DeleteItemRecursively(s, x.id))
    ensures var r := Relocated(s, x.id, Some(q.id));
      && Occurs(WithChild(q, PlacedUnder(x, q)), r)
      && PlacedUnder(x, q).path == q.path + "/" + x.name && PlacedUnder(x, q).content == x.content
      && Size(r) == Size(s) && Ids(r) == Ids(s)
  {
    var rest := DeleteItemRecursively(s, x.id);
    OccursIds(q, rest);
    RemovedIsTheNode(s, x);
    DeleteRemovesSubtree(s, x);
    DeleteRemovesSubtreeSize(s, x);
    DeletePreservesUnique(s, x.id);
    InsertUnderPlaces(rest, x, q);
    InsertUnderSize(rest, x, q.id);
    InsertUnderIds(rest, x, q.id);
    OccursIds(x, s);
  }

  /** When the target is not in the tree once the node is taken out (it never
      existed, or it lay inside the moved subtree), the moved subtree vanishes. */
  lemma MoveToMissingTargetLosesSubtree(s: seq<Item>, x: Item, t: Id)
    requires Unique(s) && Occurs(x, s) && t != x.id
    requires t !in Ids(DeleteItemRecursively(s, x.id))
    ensures Relocated(s, x.id, Some(t)) == DeleteItemRecursively(s, x.id)
    ensures Size(Relocated(s, x.id, Some(t))) == Size(s) - Size([x])
  {
    RemovedIsTheNode(s, x);
    DeleteRemovesSubtreeSize(s, x);
  }

  /** Moving a folder into one of its own descendants silently deletes it with
      its whole subtree: at least two nodes are lost. */
  lemma MoveIntoOwnDescendant(s: seq<Item>, x: Item, t: Id)
    requires Unique(s) && Occurs(x, s) && t in Ids(Kids(x))
    ensures Relocated(s, x.id, Some(t)) == DeleteItemRecursively(s, x.id)
    ensures Size(Relocated(s, x.id, Some(t))) <= Size(s) - 2
  {
    OccursUnique(x, s);
    assert t != x.id;
    DeleteRemovesSubtree(s, x);
    MoveToMissingTargetLosesSubtree(s, x, t);
    assert Kids(x) != [];
    assert Size([x]) >= 2;
  }

  /** Moving a root item keeps the other root items in their order: to the
      desktop it goes last, behind all of them; into a folder every other
      root item stays where it was, the target rewritten in place. */
  lemma MoveRootKeepsOrder(a: seq<Item>, x: Item, b: seq<Item>, target: Option<Id>)
    requires Unique(a + [x] + b) && target != Some(x.id)
    ensures target.None? ==> Relocated(a + [x] + b, x.id, target) == a + b + [PlacedAtRoot(x)]
    ensures target.Some? ==>
      Relocated(a + [x] + b, x.id, target) == InsertUnder(a, x, target.value) + InsertUnder(b, x, target.value)
  {
    MiddleId(a, x, b);
    DeleteMiddle(a, x, b);
    RemovedIsTheNode(a + [x] + b, x);
    if target.Some? {
      InsertUnderAppend(a, b, x, target.value);
    }
  }

  /** Deleting a root item of a tree without repeated ids leaves the items
      before and after it as they were. */
  lemma DeleteMiddle(a: seq<Item>, x: Item, b: seq<Item>)
    requires x.id !in Ids(a) && x.id !in Ids(b)
    ensures Occurs(x, a + [x] + b) && DeleteItemRecursively(a + [x] + b, x.id) == a + b
  {
    OccursMiddle(a, x, b);
    assert DeleteItemRecursively([x], x.id) == [];
    DeleteAppend(a, [x], x.id);
    assert DeleteItemRecursively(a + [x], x.id) == a;
    DeleteAppend(a + [x], b, x.id);
  }

  lemma OccursMiddle(a: seq<Item>, x: Item, b: seq<Item>)
    ensures Occurs(x, a + [x] + b)
  {
    assert Occurs(x, [x]);
    OccursAppend(x, a, [x]);
    OccursAppend(x, a + [x], b);
  }

  lemma MiddleId(a: seq<Item>, x: Item, b: seq<Item>)
    requires Unique(a + [x] + b)
    ensures x.id !in Ids(a) && x.id !in Ids(b)
  {
    UniqueAppend(a + [x], b);
    UniqueAppend(a, [x]);
    IdsAppend(a, [x]);
    assert x.id in Ids([x]);
  }

  /** Every node that is not inside the moved subtree, not one of its
      ancestors and not the target or one of the target's ancestors stays as
      it was. */
  lemma MoveKeepsUnrelated(s: seq<Item>, x: Item, target: Option<Id>, y: Item)
    requires Unique(s) && Occurs(x, s) && Occurs(y, s)
    requires x.id !in Ids([y]) && y.id !in Ids([x])
    requires target.Some? ==> target.value !in Ids([y])
    ensures Occurs(y, Relocated(s, x.id, target))
  {
    DeleteKeepsUnrelated(s, x, y);
    if target != Some(x.id) {
      RemovedIsTheNode(s, x);
      var rest := DeleteItemRecursively(s, x.id);
      if target.None? {
        OccursAppend(y, rest, [PlacedAtRoot(x)]);
      } else {
        InsertUnderKeepsUnrelated(rest, x, target.value, y);
      }
    }
  }

  /** moveItem keeps ids unique and parent fields consistent, whatever the
      arguments (paths below the moved node are not covered: they go stale). */
  lemma MovePreservesStructure(s: seq<Item>, dragged: Id, target: Option<Id>)
    requires Unique(s) && Linked(s, None)
    ensures Unique(Relocated(s, dragged, target)) && Linked(Relocated(s, dragged, target), None)
  {
    if target != Some(dragged) && dragged in Ids(s) {
      var x := FindAndRemove(s, dragged).removed.value;
      var rest := DeleteItemRecursively(s, dragged);
      RemovedIsTheNode(s, x);
      DeleteRemovesSubtree(s, x);
      DeletePreservesUnique(s, dragged);
      DeletePreservesLinked(s, dragged, None);
      OccursUnique(x, s);
      OccursLinked(x, s, None);
      if target.None? {
        var c := PlacedAtRoot(x);
        assert Ids([c]) == Ids([x]);
        UniqueAppend(rest, [c]);
        LinkedAppend(rest, [c], None);
      } else {
        InsertUnderUnique(rest, x, target.value);
        InsertUnderLinked(rest, x, target.value, None);
      }
    }
  }
}
