/** The list of open folder windows and the four operations on it that both
    versions of the store share (hooks/useDesktop.tsx:239-272,
    components/desktop.tsx:198-230). A window shows a view `V` of a folder:
    the hook keeps the item id beside a snapshot of the item, the earlier
    component only the snapshot. */
module WindowRegistry {
  import opened Types

  datatype Point = Point(x: int, y: int)
  datatype Extent = Extent(width: int, height: int)

  datatype Window<V> = Window(id: Id, view: V, position: Point, size: Extent, isMinimized: bool)

  /** The cascading offset of the n-th window: 50 + 20n on both axes. */
  function Cascade(n: nat): Point
  {
    Point(50 + n * 20, 50 + n * 20)
  }

  const DefaultSize: Extent := Extent(400, 300)

  /** True when some window in `ws` has id `wid`. */
  predicate HasWindow<V>(ws: seq<Window<V>>, wid: Id)
  {
    exists i :: 0 <= i < |ws| && ws[i].id == wid
  }

  /** openWindow: a new, not minimised, 400x300 window at the next cascade offset. */
  function Opened<V>(ws: seq<Window<V>>, view: V, wid: Id): (r: seq<Window<V>>)
    ensures |r| == |ws| + 1 && r[..|ws|] == ws
    ensures r[|ws|].id == wid && r[|ws|].view == view && !r[|ws|].isMinimized
    ensures r[|ws|].position == Point(50 + 20 * |ws|, 50 + 20 * |ws|)
  {
    ws + [Window(wid, view, Cascade(|ws|), DefaultSize, false)]
  }

  /** closeWindow: keep the windows whose id differs. */
  function Closed<V(!new)>(ws: seq<Window<V>>, wid: Id): (r: seq<Window<V>>)
    ensures |r| <= |ws|
    ensures forall w :: w in r <==> w in ws && w.id != wid
    ensures !HasWindow(ws, wid) ==> r == ws
    decreases ws
  {
    if ws == [] then []
    else
      var rest := Closed(ws[1..], wid);
      assert forall w :: w in ws <==> w == ws[0] || w in ws[1..] by {
        assert ws == [ws[0]] + ws[1..];
      }
      assert !HasWindow(ws, wid) ==> !HasWindow(ws[1..], wid) by {
        if HasWindow(ws[1..], wid) {
          var j :| 0 <= j < |ws[1..]| && ws[1..][j].id == wid;
          assert ws[j + 1].id == wid;
        }
      }
      if ws[0].id == wid then rest else [ws[0]] + rest
  }

  /** minimizeWindow: toggle the flag of the windows with that id. */
  function Minimized<V>(ws: seq<Window<V>>, wid: Id): (r: seq<Window<V>>)
    ensures |r| == |ws|
    ensures forall i :: 0 <= i < |ws| ==>
      r[i] == if ws[i].id == wid then ws[i].(isMinimized := !ws[i].isMinimized) else ws[i]
    decreases ws
  {
    if ws == [] then []
    else
      [if ws[0].id == wid then ws[0].(isMinimized := !ws[0].isMinimized) else ws[0]]
      + Minimized(ws[1..], wid)
  }

  /** moveWindow: give the windows with that id the new position. */
  function Repositioned<V>(ws: seq<Window<V>>, wid: Id, position: Point): (r: seq<Window<V>>)
    ensures |r| == |ws|
    ensures forall i :: 0 <= i < |ws| ==>
      r[i] == if ws[i].id == wid then ws[i].(position := position) else ws[i]
    decreases ws
  {
    if ws == [] then []
    else
      [if ws[0].id == wid then ws[0].(position := position) else ws[0]]
      + Repositioned(ws[1..], wid, position)
  }

  // ---------------------------------------------------------------------

  /** Closing keeps the survivors in their order: it works piecewise on a
      concatenation. */
  lemma {:induction false} ClosedAppend<V(!new)>(a: seq<Window<V>>, b: seq<Window<V>>, wid: Id)
    ensures Closed(a + b, wid) == Closed(a, wid) + Closed(b, wid)
    decreases a
  {
    if a == [] {
      assert a + b == b;
    } else {
      assert (a + b)[1..] == a[1..] + b;
      ClosedAppend(a[1..], b, wid);
    }
  }

  /** Closing a window just opened with a fresh id gives back the list before. */
  lemma CloseUndoesOpen<V(!new)>(ws: seq<Window<V>>, view: V, wid: Id)
    requires !HasWindow(ws, wid)
    ensures Closed(Opened(ws, view, wid), wid) == ws
  {
    var w := Window(wid, view, Cascade(|ws|), DefaultSize, false);
    ClosedAppend(ws, [w], wid);
    assert Closed([w], wid) == [];
  }

  /** Minimising twice restores every window. */
  lemma MinimizeTwiceRestores<V>(ws: seq<Window<V>>, wid: Id)
    ensures Minimized(Minimized(ws, wid), wid) == ws
  {
    var r := Minimized(Minimized(ws, wid), wid);
    assert forall i :: 0 <= i < |ws| ==> r[i] == ws[i];
  }

  /** The last move wins. */
  lemma RepositionLastWins<V>(ws: seq<Window<V>>, wid: Id, p: Point, q: Point)
    ensures Repositioned(Repositioned(ws, wid, p), wid, q) == Repositioned(ws, wid, q)
  {
    var r := Repositioned(Repositioned(ws, wid, p), wid, q);
    assert forall i :: 0 <= i < |ws| ==> r[i] == Repositioned(ws, wid, q)[i];
  }
}
