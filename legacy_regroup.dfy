/** The second step of the earlier component's moveItem
    (components/desktop.tsx:127-141): a `reduce` over the root list that keeps
    the items whose parent is null and appends every other root item to the
    content of the folder it names, looked up first among the kept items and
    then in the whole list. The source appends by assigning `parent.content`
    on shared objects; the model copies values, which agrees with the source
    whenever the root ids are distinct and no re-parented root item is itself
    named as a parent by another root item (`NoChain`). */
module LegacyRegroup {
  import opened Types
  import opened LegacyTree

  /** The root items with a null parent, in order. */
  function Detached(s: seq<LegacyItem>): (r: seq<LegacyItem>)
    ensures |r| <= |s| && RootsDetached(r)
    decreases |s|
  {
    if s == [] then []
    else Detached(s[..|s| - 1]) + (if s[|s| - 1].parent.None? then [s[|s| - 1]] else [])
  }

  /** The root items whose parent field names `pid`, in order. */
  function OrphansOf(s: seq<LegacyItem>, pid: Id): seq<LegacyItem>
    decreases |s|
  {
    if s == [] then []
    else OrphansOf(s[..|s| - 1], pid) + (if s[|s| - 1].parent == Some(pid) then [s[|s| - 1]] else [])
  }

  /** A kept root item after the reduce: a folder receives the root items
      that name it, after its own content; anything else is unchanged. */
  function Adopted(r: LegacyItem, all: seq<LegacyItem>): LegacyItem
  {
    var o := OrphansOf(all, r.id);
    if r.kind == Folder && o != [] then r.(content := Listed(Children(r) + o)) else r
  }

  /** The root list the reduce builds, read on values. */
  function Regrouped(u: seq<LegacyItem>): (r: seq<LegacyItem>)
    ensures RootsDetached(r)
  {
    var d := Detached(u);
    seq(|d|, j requires 0 <= j < |d| => Adopted(d[j], u))
  }

  /** No root item with a non-null parent is named as parent by another root item. */
  predicate NoChain(s: seq<LegacyItem>)
  {
    forall a, b :: 0 <= a < |s| && 0 <= b < |s| && a != b && s[b].parent == Some(s[a].id) ==> s[a].parent.None?
  }

  /** Array.prototype.find on ids: the first index holding `id`, or |s|. */
  method FindIndex(s: seq<LegacyItem>, id: Id) returns (j: nat)
    ensures j <= |s|
    ensures j < |s| ==> s[j].id == id
    ensures forall m :: 0 <= m < j ==> s[m].id != id
  {
    j := 0;
    while j < |s| && s[j].id != id
      invariant j <= |s|
      invariant forall m :: 0 <= m < j ==> s[m].id != id
    {
      j := j + 1;
    }
  }

  /** The reduce of moveItem over the re-parented root list. */
  method RegroupRoots(updated: seq<LegacyItem>) returns (acc: seq<LegacyItem>)
    requires DistinctRootIds(updated) && NoChain(updated)
    ensures acc == Regrouped(updated)
  {
    var work := updated;
    acc := [];
    var i := 0;
    InvInit(updated);
    while i < |updated|
      invariant Inv(updated, i, acc, work)
    {
      acc, work := RegroupStep(updated, i, acc, work);
      i := i + 1;
    }
    InvDone(updated, acc, work);
  }

  /** One call of the reduce's callback, on the item at index `i`. */
  method RegroupStep(u: seq<LegacyItem>, i: nat, acc: seq<LegacyItem>, work: seq<LegacyItem>)
    returns (acc': seq<LegacyItem>, work': seq<LegacyItem>)
    requires DistinctRootIds(u) && NoChain(u) && Inv(u, i, acc, work) && i < |u|
    ensures Inv(u, i + 1, acc', work')
  {
    var item := work[i];
    acc', work' := acc, work;
    if item.parent.None? {
      StepKeep(u, i, acc, work);
      acc' := acc + [item];
    } else {
      var p := item.parent.value;
      var j := FindIndex(acc, p);
      if j < |acc| {
        StepAcc(u, i, acc, work, j);
        if acc[j].kind == Folder {
          acc' := acc[j := Attach(acc[j], item)];
        }
      } else {
        var k := FindIndex(work, p);
        StepWork(u, i, acc, work, k);
        if k < |work| && work[k].kind == Folder {
          work' := work[k := Attach(work[k], item)];
        }
      }
    }
  }

  // ---------------------------------------------------------------------
  // The loop invariant and its steps

  /** After `i` steps: `acc` is the reduce's value on the first `i` items and
      each later item already carries what the first `i` items appended to it. */
  ghost predicate Inv(u: seq<LegacyItem>, i: int, acc: seq<LegacyItem>, work: seq<LegacyItem>)
  {
    0 <= i <= |u| && |work| == |u|
    && (forall k :: 0 <= k < |u| ==>
          work[k].id == u[k].id && work[k].kind == u[k].kind && work[k].parent == u[k].parent)
    && (forall k :: i <= k < |u| ==> work[k] == Adopted(u[k], u[..i]))
    && |acc| == |Detached(u[..i])|
    && (forall j :: 0 <= j < |acc| ==> acc[j] == Adopted(Detached(u[..i])[j], u[..i]))
  }

  lemma InvInit(u: seq<LegacyItem>)
    ensures Inv(u, 0, [], u)
  {
    assert u[..0] == [];
  }

  lemma InvDone(u: seq<LegacyItem>, acc: seq<LegacyItem>, work: seq<LegacyItem>)
    requires Inv(u, |u|, acc, work)
    ensures acc == Regrouped(u)
  {
    assert u[..|u|] == u;
  }

  lemma {:induction false} DetachedSnoc(s: seq<LegacyItem>, x: LegacyItem)
    ensures Detached(s + [x]) == Detached(s) + (if x.parent.None? then [x] else [])
  {
    assert (s + [x])[..|s|] == s;
  }

  lemma {:induction false} OrphansSnoc(s: seq<LegacyItem>, x: LegacyItem, pid: Id)
    ensures OrphansOf(s + [x], pid) == OrphansOf(s, pid) + (if x.parent == Some(pid) then [x] else [])
  {
    assert (s + [x])[..|s|] == s;
  }

  /** Nothing names `pid`: no orphans. */
  lemma {:induction false} OrphansNone(s: seq<LegacyItem>, pid: Id)
    requires forall k :: 0 <= k < |s| ==> s[k].parent != Some(pid)
    ensures OrphansOf(s, pid) == []
    decreases |s|
  {
    if s != [] {
      OrphansNone(s[..|s| - 1], pid);
    }
  }

  /** Each kept item sits at some index of the list, with a null parent. */
  lemma {:induction false} DetachedFrom(s: seq<LegacyItem>, m: int)
    requires 0 <= m < |Detached(s)|
    ensures exists k :: 0 <= k < |s| && s[k] == Detached(s)[m] && s[k].parent.None?
    decreases |s|
  {
    var init := s[..|s| - 1];
    if m < |Detached(init)| {
      DetachedFrom(init, m);
      var k :| 0 <= k < |init| && init[k] == Detached(init)[m] && init[k].parent.None?;
      assert s[k] == init[k];
    } else {
      assert s[|s| - 1] == Detached(s)[m];
    }
  }

  /** Each item with a null parent is kept. */
  lemma {:induction false} DetachedHas(s: seq<LegacyItem>, k: int)
    requires 0 <= k < |s| && s[k].parent.None?
    ensures exists m :: 0 <= m < |Detached(s)| && Detached(s)[m] == s[k]
    decreases |s|
  {
    var init := s[..|s| - 1];
    if k < |s| - 1 {
      DetachedHas(init, k);
      var m :| 0 <= m < |Detached(init)| && Detached(init)[m] == init[k];
      assert Detached(s)[m] == s[k];
    } else {
      assert Detached(s)[|Detached(init)|] == s[k];
    }
  }

  /** An appended root item that does not name `y` changes nothing for `y`. */
  lemma AdoptedStable(y: LegacyItem, s: seq<LegacyItem>, x: LegacyItem)
    requires x.parent != Some(y.id)
    ensures Adopted(y, s + [x]) == Adopted(y, s)
  {
    OrphansSnoc(s, x, y.id);
    assert OrphansOf(s, y.id) + [] == OrphansOf(s, y.id);
  }

  /** An appended root item that names a folder `y` lands at the end of its content. */
  lemma AdoptedGrow(y: LegacyItem, s: seq<LegacyItem>, x: LegacyItem)
    requires x.parent == Some(y.id)
    ensures Adopted(y, s + [x]) == if y.kind == Folder then Attach(Adopted(y, s), x) else y
  {
    OrphansSnoc(s, x, y.id);
    var o := OrphansOf(s, y.id);
    assert Children(y) + (o + [x]) == (Children(y) + o) + [x];
  }

  lemma {:induction false} DetachedDistinct(s: seq<LegacyItem>)
    requires DistinctRootIds(s)
    ensures DistinctRootIds(Detached(s))
    decreases |s|
  {
    if s != [] {
      var init := s[..|s| - 1];
      var d := Detached(init);
      assert DistinctRootIds(init);
      DetachedDistinct(init);
      var x := s[|s| - 1];
      forall m | 0 <= m < |d| ensures d[m].id != x.id {
        DetachedFrom(init, m);
      }
    }
  }

  /** The processed re-parented item has received nothing, so it is appended
      as it stood in the input. */
  lemma NotAdopting(u: seq<LegacyItem>, i: int, acc: seq<LegacyItem>, work: seq<LegacyItem>)
    requires Inv(u, i, acc, work) && i < |u| && NoChain(u) && u[i].parent.Some?
    ensures work[i] == u[i]
  {
    var s := u[..i];
    forall k | 0 <= k < |s| ensures s[k].parent != Some(u[i].id) {
      assert s[k] == u[k];
    }
    OrphansNone(s, u[i].id);
  }

  lemma StepKeep(u: seq<LegacyItem>, i: int, acc: seq<LegacyItem>, work: seq<LegacyItem>)
    requires Inv(u, i, acc, work) && i < |u| && u[i].parent.None?
    ensures Inv(u, i + 1, acc + [work[i]], work)
  {
    var s := u[..i];
    assert u[..i + 1] == s + [u[i]];
    DetachedSnoc(s, u[i]);
    forall y ensures Adopted(y, s + [u[i]]) == Adopted(y, s) {
      AdoptedStable(y, s, u[i]);
    }
  }

  lemma StepAcc(u: seq<LegacyItem>, i: int, acc: seq<LegacyItem>, work: seq<LegacyItem>, j: nat)
    requires Inv(u, i, acc, work) && i < |u| && DistinctRootIds(u) && NoChain(u)
    requires work[i].parent.Some? && j < |acc| && acc[j].id == work[i].parent.value
    ensures Inv(u, i + 1, if acc[j].kind == Folder then acc[j := Attach(acc[j], work[i])] else acc, work)
  {
    var p := work[i].parent.value;
    var s := u[..i];
    var d := Detached(s);
    assert u[..i + 1] == s + [u[i]];
    DetachedSnoc(s, u[i]);
    NotAdopting(u, i, acc, work);
    DetachedFrom(s, j);
    var k0 :| 0 <= k0 < |s| && s[k0] == d[j] && s[k0].parent.None?;
    assert u[k0].id == p;
    assert DistinctRootIds(s);
    DetachedDistinct(s);
    AdoptedGrow(d[j], s, u[i]);
    forall m | 0 <= m < |d| && m != j ensures Adopted(d[m], s + [u[i]]) == Adopted(d[m], s) {
      AdoptedStable(d[m], s, u[i]);
    }
    forall k | i + 1 <= k < |u| ensures Adopted(u[k], s + [u[i]]) == Adopted(u[k], s) {
      AdoptedStable(u[k], s, u[i]);
    }
  }

  lemma StepWork(u: seq<LegacyItem>, i: int, acc: seq<LegacyItem>, work: seq<LegacyItem>, k: nat)
    requires Inv(u, i, acc, work) && i < |u| && DistinctRootIds(u) && NoChain(u)
    requires work[i].parent.Some?
    requires forall m :: 0 <= m < |acc| ==> acc[m].id != work[i].parent.value
    requires k <= |work| && (k < |work| ==> work[k].id == work[i].parent.value)
    requires forall m :: 0 <= m < k ==> work[m].id != work[i].parent.value
    ensures Inv(u, i + 1, acc,
                if k < |work| && work[k].kind == Folder then work[k := Attach(work[k], work[i])] else work)
  {
    var p := work[i].parent.value;
    var s := u[..i];
    var d := Detached(s);
    assert u[..i + 1] == s + [u[i]];
    DetachedSnoc(s, u[i]);
    NotAdopting(u, i, acc, work);
    forall m | 0 <= m < |d| ensures Adopted(d[m], s + [u[i]]) == Adopted(d[m], s) {
      AdoptedStable(d[m], s, u[i]);
    }
    forall m | i + 1 <= m < |u| && m != k ensures Adopted(u[m], s + [u[i]]) == Adopted(u[m], s) {
      if k < |work| {
        assert u[m].id != u[k].id;
      } else {
        assert u[m].id != p;
      }
      AdoptedStable(u[m], s, u[i]);
    }
    if k < |work| {
      ProcessedIds(u, i, acc, work, k);
      if i < k {
        AdoptedGrow(u[k], s, u[i]);
      }
    }
  }

  /** The root item a re-parented item names is not among the already
      processed ones when it was not kept: the found index is at least `i`. */
  lemma ProcessedIds(u: seq<LegacyItem>, i: int, acc: seq<LegacyItem>, work: seq<LegacyItem>, k: nat)
    requires Inv(u, i, acc, work) && i < |u| && NoChain(u)
    requires work[i].parent.Some? && k < |u| && u[k].id == work[i].parent.value
    requires forall m :: 0 <= m < |acc| ==> acc[m].id != work[i].parent.value
    ensures i <= k
  {
    var s := u[..i];
    var p := work[i].parent.value;
    forall m | 0 <= m < i ensures u[m].id != p {
      if u[m].parent.None? {
        DetachedHas(s, m);
        var n :| 0 <= n < |Detached(s)| && Detached(s)[n] == s[m];
        assert acc[n].id == u[m].id;
      }
    }
  }

  // ---------------------------------------------------------------------
  // What the reduce does to the root list

  /** The reduce keeps root ids distinct. */
  lemma RegroupedDistinct(u: seq<LegacyItem>)
    requires DistinctRootIds(u)
    ensures DistinctRootIds(Regrouped(u))
  {
    DetachedDistinct(u);
  }

  /** On a root list whose items all have a null parent the reduce is the identity. */
  lemma RegroupDetached(u: seq<LegacyItem>)
    requires RootsDetached(u)
    ensures Regrouped(u) == u
  {
    DetachedAll(u);
    forall j | 0 <= j < |u| ensures Adopted(u[j], u) == u[j] {
      OrphansNone(u, u[j].id);
    }
  }

  lemma {:induction false} DetachedAll(u: seq<LegacyItem>)
    requires RootsDetached(u)
    ensures Detached(u) == u
    decreases |u|
  {
    if u != [] {
      var init := u[..|u| - 1];
      DetachedAll(init);
      assert u == init + [u[|u| - 1]];
    }
  }

  // ---------------------------------------------------------------------
  // moveItem as a whole, on a root list whose items all have a null parent

  /** The list without its item at index `i`. */
  function Without(s: seq<LegacyItem>, i: nat): (r: seq<LegacyItem>)
    requires i < |s|
    ensures |r| == |s| - 1
    ensures forall m :: 0 <= m < |r| ==> r[m] == s[if m < i then m else m + 1]
  {
    s[..i] + s[i + 1..]
  }

  lemma {:induction false} DetachedAppend(a: seq<LegacyItem>, b: seq<LegacyItem>)
    ensures Detached(a + b) == Detached(a) + Detached(b)
    decreases |b|
  {
    if b == [] {
      assert a + b == a;
    } else {
      var init := b[..|b| - 1];
      var x := b[|b| - 1];
      assert a + b == (a + init) + [x];
      assert b == init + [x];
      DetachedAppend(a, init);
      DetachedSnoc(a + init, x);
      DetachedSnoc(init, x);
    }
  }

  lemma {:induction false} OrphansAppend(a: seq<LegacyItem>, b: seq<LegacyItem>, pid: Id)
    ensures OrphansOf(a + b, pid) == OrphansOf(a, pid) + OrphansOf(b, pid)
    decreases |b|
  {
    if b == [] {
      assert a + b == a;
    } else {
      var init := b[..|b| - 1];
      var x := b[|b| - 1];
      assert a + b == (a + init) + [x];
      assert b == init + [x];
      OrphansAppend(a, init, pid);
      OrphansSnoc(a + init, x, pid);
      OrphansSnoc(init, x, pid);
    }
  }

  /** A root list where only the item at `i` has a parent: the reduce keeps
      the others ... */
  lemma OneAttached(u: seq<LegacyItem>, i: nat, q: Id)
    requires i < |u| && u[i].parent.Some?
    requires forall k :: 0 <= k < |u| && k != i ==> u[k].parent.None?
    ensures Detached(u) == Without(u, i)
    ensures OrphansOf(u, q) == if u[i].parent == Some(q) then [u[i]] else []
  {
    var a, b := u[..i], u[i + 1..];
    assert u == a + [u[i]] + b;
    assert RootsDetached(a) && RootsDetached(b);
    OneAttachedKeeps(a, u[i], b);
    OneAttachedOrphans(a, u[i], b, q);
  }

  lemma OneAttachedKeeps(a: seq<LegacyItem>, x: LegacyItem, b: seq<LegacyItem>)
    requires RootsDetached(a) && RootsDetached(b) && x.parent.Some?
    ensures Detached(a + [x] + b) == a + b
  {
    var ax := a + [x];
    DetachedAll(a);
    DetachedAll(b);
    DetachedSnoc(a, x);
    assert Detached(ax) == a;
    DetachedAppend(ax, b);
  }

  /** ... and only that item is an orphan. */
  lemma OneAttachedOrphans(a: seq<LegacyItem>, x: LegacyItem, b: seq<LegacyItem>, q: Id)
    requires RootsDetached(a) && RootsDetached(b)
    ensures OrphansOf(a + [x] + b, q) == if x.parent == Some(q) then [x] else []
  {
    OrphansNone(a, q);
    OrphansNone(b, q);
    OrphansAppend(a + [x], b, q);
    OrphansAppend(a, [x], q);
    OrphansSnoc([], x, q);
    assert [] + [x] == [x];
  }

  /** Moving an item to the desktop, or moving an item that is not on the
      root list, leaves the root list as the parent-field update made it: no
      item changes place. The dragged node, at any depth, only gets its new
      parent field, and every node whose subtree avoids it is untouched. */
  lemma MoveKeepsPlaces(s: seq<LegacyItem>, d: Id, t: Option<Id>)
    requires RootsDetached(s) && (t.None? || forall k :: 0 <= k < |s| ==> s[k].id != d)
    ensures Regrouped(Reparented(s, d, t)) == Reparented(s, d, t)
    ensures forall x :: UniqueIds(s) && Contains(x, s) && x.id == d ==>
      Contains(x.(parent := t), Regrouped(Reparented(s, d, t)))
    ensures forall y :: Contains(y, s) && d !in AllIds([y]) ==>
      Contains(y, Regrouped(Reparented(s, d, t)))
  {
    RegroupDetached(Reparented(s, d, t));
    forall x | UniqueIds(s) && Contains(x, s) && x.id == d
      ensures Contains(x.(parent := t), Reparented(s, d, t))
    {
      ReparentedAt(s, d, t, x);
    }
    forall y | Contains(y, s) && d !in AllIds([y])
      ensures Contains(y, Reparented(s, d, t))
    {
      ReparentedKeepsUnrelated(s, d, t, y);
    }
  }

  /** The reduce on a root list where only the item at `i` has a parent:
      that item leaves the list and is appended to the folder it names. */
  lemma RegroupOne(u: seq<LegacyItem>, i: nat)
    requires i < |u| && u[i].parent.Some?
    requires forall k :: 0 <= k < |u| && k != i ==> u[k].parent.None?
    ensures |Regrouped(u)| == |u| - 1
    ensures forall m :: 0 <= m < |u| - 1 ==>
      Regrouped(u)[m] == (var y := u[if m < i then m else m + 1];
                          if y.kind == Folder && u[i].parent == Some(y.id) then Attach(y, u[i]) else y)
  {
    var w := Without(u, i);
    OneAttached(u, i, u[i].parent.value);
    forall m | 0 <= m < |w|
      ensures Regrouped(u)[m] == (if w[m].kind == Folder && u[i].parent == Some(w[m].id) then Attach(w[m], u[i]) else w[m])
    {
      OneAttached(u, i, w[m].id);
    }
  }

  lemma JoinOne(u: seq<LegacyItem>, i: nat, j: nat)
    requires i < |u| && j < |u| && i != j && u[i].parent == Some(u[j].id)
    requires forall k :: 0 <= k < |u| && k != i ==> u[k].parent.None?
    requires forall k :: 0 <= k < |u| && k != j ==> u[k].id != u[j].id
    ensures Regrouped(u) == Without(u[j := if u[j].kind == Folder then Attach(u[j], u[i]) else u[j]], i)
  {
    RegroupOne(u, i);
    var v := Without(u[j := if u[j].kind == Folder then Attach(u[j], u[i]) else u[j]], i);
    forall m | 0 <= m < |v| ensures Regrouped(u)[m] == v[m] {
    }
  }

  lemma DropOne(u: seq<LegacyItem>, i: nat)
    requires i < |u| && u[i].parent.Some?
    requires forall k :: 0 <= k < |u| && k != i ==> u[k].parent.None? && Some(u[k].id) != u[i].parent
    ensures Regrouped(u) == Without(u, i)
  {
    RegroupOne(u, i);
    var w := Without(u, i);
    forall m | 0 <= m < |w| ensures Regrouped(u)[m] == w[m] {
    }
  }

  /** Moving the root item at `i` into the root item at `j`: the item leaves
      the root list and, when the target is a folder, becomes the last entry
      of its content; every other root item stays, in order. */
  lemma MoveRootIntoRoot(s: seq<LegacyItem>, i: nat, j: nat)
    requires RootsDetached(s) && DistinctRootIds(s)
    requires i < |s| && j < |s| && i != j
    ensures var u := Reparented(s, s[i].id, Some(s[j].id));
      && u[i] == s[i].(parent := Some(s[j].id))
      && Regrouped(u) == Without(u[j := if u[j].kind == Folder then Attach(u[j], u[i]) else u[j]], i)
  {
    var u := Reparented(s, s[i].id, Some(s[j].id));
    var uj := if u[j].kind == Folder then Attach(u[j], u[i]) else u[j];
    forall k | 0 <= k < |u| && k != i ensures u[k].parent.None? && u[k].id != s[i].id {
      assert s[k].id != s[i].id;
    }
    forall k | 0 <= k < |u| && k != j ensures u[k].id != s[j].id {
      assert s[k].id != s[j].id;
    }
    JoinOne(u, i, j);
  }

  /** Moving the root item at `i` to an id that names no other root item (an
      item inside some folder, the item itself, or no item at all): the item
      is dropped from the root list with its subtree. */
  lemma MoveRootToMissingDrops(s: seq<LegacyItem>, i: nat, p: Id)
    requires RootsDetached(s) && DistinctRootIds(s) && i < |s|
    requires forall k :: 0 <= k < |s| && k != i ==> s[k].id != p
    ensures Regrouped(Reparented(s, s[i].id, Some(p))) == Without(Reparented(s, s[i].id, Some(p)), i)
  {
    var u := Reparented(s, s[i].id, Some(p));
    forall k | 0 <= k < |u| && k != i ensures u[k].parent.None? && u[k].id != p {
      assert s[k].id != s[i].id;
    }
    DropOne(u, i);
  }

  /** The parent-field update on a store whose root items have null parents
      and distinct ids meets what the reduce needs. */
  lemma ReparentedNoChain(s: seq<LegacyItem>, d: Id, t: Option<Id>)
    requires RootsDetached(s) && DistinctRootIds(s)
    ensures DistinctRootIds(Reparented(s, d, t)) && NoChain(Reparented(s, d, t))
  {
  }
}
