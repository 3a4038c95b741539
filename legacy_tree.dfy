/** The item tree of the earlier, self-contained desktop component
    (components/desktop.tsx:26-33): items have a parent field but no stored
    path, and the recursive rewrites its handlers apply to the tree. */
module LegacyTree {
  import opened Types

  /** The optional `content` array of a legacy item. */
  datatype Listing = Unlisted | Listed(items: seq<LegacyItem>)

  datatype LegacyItem = LegacyItem(
    id: Id,
    name: string,
    kind: Kind,
    content: Listing,
    link: Option<string>,
    parent: Option<Id>)

  function Children(x: LegacyItem): (r: seq<LegacyItem>)
    ensures x.content.Unlisted? ==> r == []
    ensures x.content.Listed? ==> r == x.content.items
  {
    if x.content.Listed? then x.content.items else []
  }

  /** `x` with `c` appended to its content (a missing array starts empty). */
  function Attach(x: LegacyItem, c: LegacyItem): (r: LegacyItem)
    ensures r.id == x.id && r.name == x.name && r.kind == x.kind
    ensures r.link == x.link && r.parent == x.parent
    ensures Children(r) == Children(x) + [c]
  {
    x.(content := Listed(Children(x) + [c]))
  }

  /** Every id in the forest, at any depth. */
  function AllIds(s: seq<LegacyItem>): set<Id>
    decreases s
  {
    if s == [] then {}
    else {s[0].id}
         + (if s[0].content.Listed? then AllIds(s[0].content.items) else {})
         + AllIds(s[1..])
  }

  /** `x` is a node of `s`, at any depth. */
  predicate Contains(x: LegacyItem, s: seq<LegacyItem>)
    decreases s
  {
    s != [] &&
    (s[0] == x
     || (s[0].content.Listed? && Contains(x, s[0].content.items))
     || Contains(x, s[1..]))
  }

  /** No id occurs twice, at any depth. */
  predicate UniqueIds(s: seq<LegacyItem>)
    decreases s
  {
    s == [] ||
    ((s[0].content.Listed? ==> UniqueIds(s[0].content.items))
     && s[0].id !in AllIds(Children(s[0]))
     && s[0].id !in AllIds(s[1..])
     && AllIds(Children(s[0])) !! AllIds(s[1..])
     && UniqueIds(s[1..]))
  }

  /** The ids of the root list are pairwise different. */
  predicate DistinctRootIds(s: seq<LegacyItem>)
  {
    forall a, b :: 0 <= a < b < |s| ==> s[a].id != s[b].id
  }

  /** Every root item has a null parent. */
  predicate RootsDetached(s: seq<LegacyItem>)
  {
    forall k :: 0 <= k < |s| ==> s[k].parent.None?
  }

  // ---------------------------------------------------------------------
  // moveItem's first step

  /** updateItemsRecursively of moveItem: every node with id `d` gets the
      parent field `t` (its own content is not looked at); nothing moves. */
  function Reparented(s: seq<LegacyItem>, d: Id, t: Option<Id>): (r: seq<LegacyItem>)
    ensures |r| == |s| && AllIds(r) == AllIds(s)
    ensures forall k :: 0 <= k < |s| ==>
      r[k].id == s[k].id && r[k].kind == s[k].kind
      && r[k].parent == (if s[k].id == d then t else s[k].parent)
    ensures forall k :: 0 <= k < |s| && s[k].id == d ==> r[k] == s[k].(parent := t)
    ensures forall k :: 0 <= k < |s| && d !in AllIds(Children(s[k])) ==>
      r[k] == s[k].(parent := if s[k].id == d then t else s[k].parent)
    ensures d !in AllIds(s) ==> r == s
    decreases s
  {
    if s == [] then []
    else
      var x := s[0];
      [if x.id == d then x.(parent := t)
       else if x.content.Listed? then x.(content := Listed(Reparented(x.content.items, d, t)))
       else x]
      + Reparented(s[1..], d, t)
  }

  /** In a tree without repeated ids the dragged node, wherever it sits, gets
      the target as its parent field and keeps everything else, its content
      included. */
  lemma {:induction false} ReparentedAt(s: seq<LegacyItem>, d: Id, t: Option<Id>, x: LegacyItem)
    requires UniqueIds(s) && Contains(x, s) && x.id == d
    ensures Contains(x.(parent := t), Reparented(s, d, t))
    decreases s
  {
    var r := Reparented(s, d, t);
    if s[0] == x {
      assert r[0] == x.(parent := t);
    } else if s[0].content.Listed? && Contains(x, s[0].content.items) {
      ContainsIds(x, s[0].content.items);
      assert s[0].id != d;
      ReparentedAt(s[0].content.items, d, t, x);
      assert r[0].content.items == Reparented(s[0].content.items, d, t);
    } else {
      ReparentedAt(s[1..], d, t, x);
      assert r[1..] == Reparented(s[1..], d, t);
    }
  }

  /** Every node whose subtree does not hold the dragged id is left as it was,
      at any depth. */
  lemma {:induction false} ReparentedKeepsUnrelated(s: seq<LegacyItem>, d: Id, t: Option<Id>, y: LegacyItem)
    requires Contains(y, s) && d !in AllIds([y])
    ensures Contains(y, Reparented(s, d, t))
    decreases s
  {
    var r := Reparented(s, d, t);
    if s[0] == y {
      assert r[0] == y;
    } else if s[0].content.Listed? && Contains(y, s[0].content.items) {
      if s[0].id != d {
        ReparentedKeepsUnrelated(s[0].content.items, d, t, y);
        assert r[0].content.items == Reparented(s[0].content.items, d, t);
      }
    } else {
      ReparentedKeepsUnrelated(s[1..], d, t, y);
      assert r[1..] == Reparented(s[1..], d, t);
    }
  }

  // ---------------------------------------------------------------------
  // deleteItem

  /** deleteItemRecursively: drop every node with id `id`, with its subtree;
      the survivors keep their order. */
  function Pruned(s: seq<LegacyItem>, id: Id): (r: seq<LegacyItem>)
    ensures id !in AllIds(r) && AllIds(r) <= AllIds(s)
    ensures id !in AllIds(s) ==> r == s
    decreases s
  {
    if s == [] then []
    else
      var rest := Pruned(s[1..], id);
      if s[0].id == id then rest
      else
        [s[0].(content := if s[0].content.Listed? then Listed(Pruned(s[0].content.items, id)) else Unlisted)]
        + rest
  }

  lemma {:induction false} PrunedAppend(a: seq<LegacyItem>, b: seq<LegacyItem>, id: Id)
    ensures Pruned(a + b, id) == Pruned(a, id) + Pruned(b, id)
    decreases a
  {
    if a == [] {
      assert a + b == b;
    } else {
      assert (a + b)[1..] == a[1..] + b;
      PrunedAppend(a[1..], b, id);
    }
  }

  /** The ids of the root list. */
  function RootIds(s: seq<LegacyItem>): set<Id>
  {
    set x | x in s :: x.id
  }

  /** The surviving root items are root items of the old list, with their
      parent fields: pruning keeps root parents null and root ids distinct. */
  lemma {:induction false} PrunedRoots(s: seq<LegacyItem>, id: Id)
    ensures RootIds(Pruned(s, id)) <= RootIds(s)
    ensures RootsDetached(s) ==> RootsDetached(Pruned(s, id))
    decreases s
  {
    if s != [] {
      PrunedRoots(s[1..], id);
      assert s == [s[0]] + s[1..];
      assert RootIds(s) == {s[0].id} + RootIds(s[1..]);
      var rest := Pruned(s[1..], id);
      if s[0].id != id {
        var r := Pruned(s, id);
        assert r == [r[0]] + rest;
        assert RootIds(r) == {s[0].id} + RootIds(rest);
      }
    }
  }

  lemma {:induction false} PrunedDistinct(s: seq<LegacyItem>, id: Id)
    requires DistinctRootIds(s)
    ensures DistinctRootIds(Pruned(s, id))
    decreases s
  {
    if s != [] {
      PrunedDistinct(s[1..], id);
      if s[0].id != id {
        var rest := Pruned(s[1..], id);
        PrunedRoots(s[1..], id);
        forall x | x in s[1..] ensures x.id != s[0].id {
          var m :| 0 <= m < |s[1..]| && s[1..][m] == x;
          assert s[m + 1] == x;
        }
        var r := Pruned(s, id);
        forall a, b | 0 <= a < b < |r| ensures r[a].id != r[b].id {
          assert r[b] == rest[b - 1];
          assert rest[b - 1].id in RootIds(rest);
          assert r[0].id == s[0].id;
          if a > 0 {
            assert r[a] == rest[a - 1];
          }
        }
      }
    }
  }

  /** `y` is a node of `s` reached without passing through a node with id
      `id` (itself included). */
  predicate ReachableAvoiding(y: LegacyItem, s: seq<LegacyItem>, id: Id)
    decreases s
  {
    s != [] &&
    ((s[0].id != id && (s[0] == y || (s[0].content.Listed? && ReachableAvoiding(y, s[0].content.items, id))))
     || ReachableAvoiding(y, s[1..], id))
  }

  /** Exactly the nodes whose subtree and ancestors avoid the id survive
      unchanged. */
  lemma {:induction false} PrunedKeepsUnrelated(s: seq<LegacyItem>, id: Id, y: LegacyItem)
    requires ReachableAvoiding(y, s, id) && id !in AllIds([y])
    ensures Contains(y, Pruned(s, id))
    decreases s
  {
    var r := Pruned(s, id);
    if s[0].id != id && s[0] == y {
      assert r[0] == y;
    } else if s[0].id != id && s[0].content.Listed? && ReachableAvoiding(y, s[0].content.items, id) {
      PrunedKeepsUnrelated(s[0].content.items, id, y);
      assert r[0].content.items == Pruned(s[0].content.items, id);
    } else {
      PrunedKeepsUnrelated(s[1..], id, y);
      if s[0].id != id {
        assert r[1..] == Pruned(s[1..], id);
      }
    }
  }

  lemma {:induction false} ContainsIds(x: LegacyItem, s: seq<LegacyItem>)
    requires Contains(x, s)
    ensures x.id in AllIds(s) && AllIds(Children(x)) <= AllIds(s)
    decreases s
  {
    if s[0] == x {
    } else if s[0].content.Listed? && Contains(x, s[0].content.items) {
      ContainsIds(x, s[0].content.items);
    } else {
      ContainsIds(x, s[1..]);
    }
  }

  // ---------------------------------------------------------------------
  // handleCreateNewItem

  /** updateItemsRecursively of handleCreateNewItem: append `c` to the content
      of every node with id `p`, without looking inside such a node. */
  function WithNewChild(s: seq<LegacyItem>, p: Id, c: LegacyItem): (r: seq<LegacyItem>)
    ensures |r| == |s|
    ensures forall k :: 0 <= k < |s| ==> r[k].id == s[k].id && r[k].parent == s[k].parent
    ensures p !in AllIds(s) ==> r == s
    decreases s
  {
    if s == [] then []
    else
      var x := s[0];
      var y := if x.id == p then Attach(x, c)
               else if x.content.Listed? then x.(content := Listed(WithNewChild(x.content.items, p, c)))
               else x;
      [y] + WithNewChild(s[1..], p, c)
  }

  /** The ids after a create: those of the new item join exactly when the
      parent id is in the tree. */
  lemma {:induction false} WithNewChildIds(s: seq<LegacyItem>, p: Id, c: LegacyItem)
    ensures AllIds(WithNewChild(s, p, c)) == AllIds(s) + (if p in AllIds(s) then AllIds([c]) else {})
    decreases s
  {
    if s != [] {
      var x := s[0];
      WithNewChildIds(s[1..], p, c);
      if x.id == p {
        AllIdsAppend(Children(x), [c]);
      } else if x.content.Listed? {
        WithNewChildIds(x.content.items, p, c);
      }
    }
  }

  lemma {:induction false} AllIdsAppend(a: seq<LegacyItem>, b: seq<LegacyItem>)
    ensures AllIds(a + b) == AllIds(a) + AllIds(b)
    decreases a
  {
    if a != [] {
      assert (a + b)[1..] == a[1..] + b;
      AllIdsAppend(a[1..], b);
    } else {
      assert a + b == b;
    }
  }

  lemma {:induction false} ContainsAppend(x: LegacyItem, a: seq<LegacyItem>, b: seq<LegacyItem>)
    ensures Contains(x, a + b) <==> Contains(x, a) || Contains(x, b)
    decreases a
  {
    if a != [] {
      assert (a + b)[1..] == a[1..] + b;
      ContainsAppend(x, a[1..], b);
    } else {
      assert a + b == b;
    }
  }

  /** In a tree without repeated ids the new item becomes the last child of
      the one node with that id, wherever it sits. */
  lemma {:induction false} WithNewChildPlaces(s: seq<LegacyItem>, q: LegacyItem, c: LegacyItem)
    requires UniqueIds(s) && Contains(q, s)
    ensures Contains(Attach(q, c), WithNewChild(s, q.id, c))
    decreases s
  {
    var r := WithNewChild(s, q.id, c);
    if s[0] == q {
    } else if s[0].content.Listed? && Contains(q, s[0].content.items) {
      ContainsIds(q, s[0].content.items);
      WithNewChildPlaces(s[0].content.items, q, c);
    } else {
      ContainsIds(q, s[1..]);
      WithNewChildPlaces(s[1..], q, c);
      assert r[1..] == WithNewChild(s[1..], q.id, c);
    }
  }

  /** Every node that is neither the parent nor one of its ancestors is left
      as it was. */
  lemma {:induction false} WithNewChildKeepsUnrelated(s: seq<LegacyItem>, p: Id, c: LegacyItem, y: LegacyItem)
    requires Contains(y, s) && p !in AllIds([y])
    ensures Contains(y, WithNewChild(s, p, c))
    decreases s
  {
    var r := WithNewChild(s, p, c);
    if s[0] == y {
      assert r[0] == y;
    } else if s[0].content.Listed? && Contains(y, s[0].content.items) {
      if s[0].id == p {
        ContainsAppend(y, s[0].content.items, [c]);
      } else {
        WithNewChildKeepsUnrelated(s[0].content.items, p, c, y);
      }
    } else {
      WithNewChildKeepsUnrelated(s[1..], p, c, y);
      assert r[1..] == WithNewChild(s[1..], p, c);
    }
  }
}
