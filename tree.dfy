/** The item tree of the desktop hook and the searches over it
    (hooks/useDesktop.tsx: findItemById, getItemPath), together with the
    well-formedness invariant: unique ids, parent fields that name the folder
    holding a node, and paths built from the parent's path. */
module ItemTree {
  import opened Types

  /** Every id in the forest `s`, at any depth. */
  function Ids(s: seq<Item>): set<Id>
    decreases s
  {
    if s == [] then {}
    else {s[0].id}
         + (if s[0].content.Present? then Ids(s[0].content.items) else {})
         + Ids(s[1..])
  }

  /** The number of nodes in the forest `s`, at any depth. */
  function Size(s: seq<Item>): nat
    decreases s
  {
    if s == [] then 0
    else 1
         + (if s[0].content.Present? then Size(s[0].content.items) else 0)
         + Size(s[1..])
  }

  /** `x` is a node of `s`, at any depth. */
  predicate Occurs(x: Item, s: seq<Item>)
    decreases s
  {
    s != [] &&
    (s[0] == x
     || (s[0].content.Present? && Occurs(x, s[0].content.items))
     || Occurs(x, s[1..]))
  }

  /** No id occurs twice in `s`. */
  predicate Unique(s: seq<Item>)
    decreases s
  {
    s == [] ||
    ((s[0].content.Present? ==> Unique(s[0].content.items))
     && s[0].id !in Ids(Kids(s[0]))
     && s[0].id !in Ids(s[1..])
     && Ids(Kids(s[0])) !! Ids(s[1..])
     && Unique(s[1..]))
  }

  /** Every node of `s` names `parent` (for the top level) or the node holding
      it in its parent field. */
  predicate Linked(s: seq<Item>, parent: Option<Id>)
    decreases s
  {
    s == [] ||
    (s[0].parent == parent
     && (s[0].content.Present? ==> Linked(s[0].content.items, Some(s[0].id)))
     && Linked(s[1..], parent))
  }

  /** Every node of `s` has the path `prefix + "/" + name` (for the top level)
      or the path of the node holding it followed by "/" and its name. */
  predicate Pathed(s: seq<Item>, prefix: string)
    decreases s
  {
    s == [] ||
    (s[0].path == prefix + "/" + s[0].name
     && (s[0].content.Present? ==> Pathed(s[0].content.items, s[0].path))
     && Pathed(s[1..], prefix))
  }

  /** The invariant of a consistent desktop: root items have no parent and live
      under `/desktop`. */
  predicate WellFormed(items: seq<Item>)
  {
    Unique(items) && Linked(items, None) && Pathed(items, DesktopPath)
  }

  /** Depth-first search that descends only into folders that carry content. */
  function FindItemById(s: seq<Item>, id: Id): (r: Option<Item>)
    ensures r.Some? ==> r.value.id == id && Occurs(r.value, s) && id in Ids(s)
    ensures id !in Ids(s) ==> r == None
    decreases s
  {
    if s == [] then None
    else if s[0].id == id then Some(s[0])
    else if s[0].kind == Folder && s[0].content.Present?
            && FindItemById(s[0].content.items, id).Some?
    then FindItemById(s[0].content.items, id)
    else FindItemById(s[1..], id)
  }

  /** The inner `findPath` of getItemPath: the stored path of the first node
      with that id, where a result that is empty counts as "not found" for the
      enclosing levels. It descends into every node that carries content. */
  function FindPath(s: seq<Item>, id: Id): (r: Option<string>)
    ensures r.Some? ==> id in Ids(s)
    decreases s
  {
    if s == [] then None
    else if s[0].id == id then Some(s[0].path)
    else if s[0].content.Present? && Truthy(FindPath(s[0].content.items, id))
    then FindPath(s[0].content.items, id)
    else FindPath(s[1..], id)
  }

  /** getItemPath: the stored path, or `/desktop` when the id is not found. */
  function GetItemPath(items: seq<Item>, id: Id): (r: string)
    ensures id !in Ids(items) ==> r == DesktopPath
  {
    var p := FindPath(items, id);
    if Truthy(p) then p.value else DesktopPath
  }

  // ---------------------------------------------------------------------
  // Facts about nodes of a forest

  lemma {:induction false} OccursIds(x: Item, s: seq<Item>)
    requires Occurs(x, s)
    ensures x.id in Ids(s) && Ids(Kids(x)) <= Ids(s)
    decreases s
  {
    if s[0] == x {
    } else if s[0].content.Present? && Occurs(x, s[0].content.items) {
      OccursIds(x, s[0].content.items);
    } else {
      OccursIds(x, s[1..]);
    }
  }

  /** A node of a forest without repeated ids heads a subtree without repeated ids. */
  lemma {:induction false} OccursUnique(x: Item, s: seq<Item>)
    requires Unique(s) && Occurs(x, s)
    ensures Unique([x])
    decreases s
  {
    if s[0] == x {
      assert [x][1..] == [];
    } else if s[0].content.Present? && Occurs(x, s[0].content.items) {
      OccursUnique(x, s[0].content.items);
    } else {
      OccursUnique(x, s[1..]);
    }
  }

  lemma {:induction false} OccursLinked(x: Item, s: seq<Item>, parent: Option<Id>)
    requires Linked(s, parent) && Occurs(x, s)
    ensures Linked(Kids(x), Some(x.id))
    decreases s
  {
    if s[0] == x {
    } else if s[0].content.Present? && Occurs(x, s[0].content.items) {
      OccursLinked(x, s[0].content.items, Some(s[0].id));
    } else {
      OccursLinked(x, s[1..], parent);
    }
  }

  lemma {:induction false} OccursPathed(x: Item, s: seq<Item>, prefix: string)
    requires Pathed(s, prefix) && Occurs(x, s)
    ensures Pathed(Kids(x), x.path) && x.path != ""
    decreases s
  {
    if s[0] == x {
      assert x.path == prefix + "/" + x.name;
      assert x.path[|prefix|] == '/';
    } else if s[0].content.Present? && Occurs(x, s[0].content.items) {
      OccursPathed(x, s[0].content.items, s[0].path);
    } else {
      OccursPathed(x, s[1..], prefix);
    }
  }

  /** In a forest without repeated ids the number of nodes is the number of ids. */
  lemma {:induction false} SizeIsIdCount(s: seq<Item>)
    requires Unique(s)
    ensures |Ids(s)| == Size(s)
    decreases s
  {
    if s != [] {
      SizeIsIdCount(s[1..]);
      if s[0].content.Present? {
        SizeIsIdCount(s[0].content.items);
      }
      var k := Ids(Kids(s[0]));
      assert |{s[0].id} + k| == 1 + |k|;
    }
  }

  /** Two nodes of a forest without repeated ids that share an id are the same node. */
  lemma {:induction false} OccursOnce(x: Item, y: Item, s: seq<Item>)
    requires Unique(s) && Occurs(x, s) && Occurs(y, s) && x.id == y.id
    ensures x == y
    decreases s
  {
    if s[0] == x {
      if s[0] != y {
        if s[0].content.Present? && Occurs(y, s[0].content.items) {
          OccursIds(y, s[0].content.items);
        } else {
          OccursIds(y, s[1..]);
        }
      }
    } else if s[0].content.Present? && Occurs(x, s[0].content.items) {
      OccursIds(x, s[0].content.items);
      if s[0] == y {
      } else if s[0].content.Present? && Occurs(y, s[0].content.items) {
        OccursOnce(x, y, s[0].content.items);
      } else {
        OccursIds(y, s[1..]);
      }
    } else {
      OccursIds(x, s[1..]);
      if s[0] == y {
      } else if s[0].content.Present? && Occurs(y, s[0].content.items) {
        OccursIds(y, s[0].content.items);
      } else {
        OccursOnce(x, y, s[1..]);
      }
    }
  }

  /** getItemPath returns the stored path of a node of a consistent tree, so
      its `/desktop` fallback is taken only for ids that are not in the tree. */
  lemma {:induction false} FindPathOfNode(x: Item, s: seq<Item>, prefix: string)
    requires Unique(s) && Pathed(s, prefix) && Occurs(x, s)
    ensures FindPath(s, x.id) == Some(x.path) && x.path != ""
    ensures GetItemPath(s, x.id) == x.path
    decreases s
  {
    OccursPathed(x, s, prefix);
    if s[0] == x {
    } else if s[0].content.Present? && Occurs(x, s[0].content.items) {
      OccursIds(x, s[0].content.items);
      FindPathOfNode(x, s[0].content.items, s[0].path);
    } else {
      OccursIds(x, s[1..]);
      if s[0].content.Present? {
        assert x.id !in Ids(s[0].content.items);
      }
      FindPathOfNode(x, s[1..], prefix);
    }
  }

  /** findItemById finds every node of a consistent tree whose ancestors are all
      folders; it returns that very node. */
  lemma {:induction false} FindItemByIdOfNode(x: Item, s: seq<Item>)
    requires Unique(s) && Occurs(x, s) && ContentInFolders(s)
    ensures FindItemById(s, x.id) == Some(x)
    decreases s
  {
    if s[0] == x {
    } else if s[0].content.Present? && Occurs(x, s[0].content.items) {
      OccursIds(x, s[0].content.items);
      FindItemByIdOfNode(x, s[0].content.items);
    } else {
      OccursIds(x, s[1..]);
      if s[0].content.Present? {
        assert x.id !in Ids(s[0].content.items);
      }
      FindItemByIdOfNode(x, s[1..]);
    }
  }

  /** Only folders carry a content array (the drop guard and the create menu
      keep files without one). */
  predicate ContentInFolders(s: seq<Item>)
    decreases s
  {
    s == [] ||
    ((s[0].content.Present? ==> s[0].kind == Folder && ContentInFolders(s[0].content.items))
     && ContentInFolders(s[1..]))
  }

  // ---------------------------------------------------------------------
  // Facts about concatenated forests

  /** A one-node forest in terms of the node's children. */
  lemma Single(y: Item)
    ensures Ids([y]) == {y.id} + Ids(Kids(y))
    ensures Size([y]) == 1 + Size(Kids(y))
    ensures Unique([y]) <==> Unique(Kids(y)) && y.id !in Ids(Kids(y))
  {
    assert [y][1..] == [];
  }

  lemma {:induction false} IdsAppend(a: seq<Item>, b: seq<Item>)
    ensures Ids(a + b) == Ids(a) + Ids(b)
    decreases a
  {
    if a != [] {
      assert (a + b)[1..] == a[1..] + b;
      IdsAppend(a[1..], b);
    } else {
      assert a + b == b;
    }
  }

  lemma {:induction false} SizeAppend(a: seq<Item>, b: seq<Item>)
    ensures Size(a + b) == Size(a) + Size(b)
    decreases a
  {
    if a != [] {
      assert (a + b)[1..] == a[1..] + b;
      SizeAppend(a[1..], b);
    } else {
      assert a + b == b;
    }
  }

  lemma {:induction false} UniqueAppend(a: seq<Item>, b: seq<Item>)
    ensures Unique(a + b) <==> Unique(a) && Unique(b) && Ids(a) !! Ids(b)
    decreases a
  {
    if a != [] {
      assert (a + b)[1..] == a[1..] + b;
      UniqueAppend(a[1..], b);
      IdsAppend(a[1..], b);
    } else {
      assert a + b == b;
    }
  }

  lemma {:induction false} LinkedAppend(a: seq<Item>, b: seq<Item>, parent: Option<Id>)
    ensures Linked(a + b, parent) <==> Linked(a, parent) && Linked(b, parent)
    decreases a
  {
    if a != [] {
      assert (a + b)[1..] == a[1..] + b;
      LinkedAppend(a[1..], b, parent);
    } else {
      assert a + b == b;
    }
  }

  lemma {:induction false} PathedAppend(a: seq<Item>, b: seq<Item>, prefix: string)
    ensures Pathed(a + b, prefix) <==> Pathed(a, prefix) && Pathed(b, prefix)
    decreases a
  {
    if a != [] {
      assert (a + b)[1..] == a[1..] + b;
      PathedAppend(a[1..], b, prefix);
    } else {
      assert a + b == b;
    }
  }

  lemma {:induction false} OccursAppend(x: Item, a: seq<Item>, b: seq<Item>)
    ensures Occurs(x, a + b) <==> Occurs(x, a) || Occurs(x, b)
    decreases a
  {
    if a != [] {
      assert (a + b)[1..] == a[1..] + b;
      OccursAppend(x, a[1..], b);
    } else {
      assert a + b == b;
    }
  }
}
