/** Updating viewport settings (src/ui/root.rs, src/ui/viewport.rs): the graph's offsets and the z-buffer
    are kept as they were.  When that is harmless, and when it is not. */
module SceneUpdate {
  import opened Prelude
  import opened Scanline
  import opened Scene
  import opened SceneFrame

  // ---------------------------------------------------------------- updates and the z-buffer

  /** The position is in just one of the viewport's visible rectangles, the old and the new. */
  predicate Uncovered(g: Graph, h: Graph, id: Id, row: nat, col: nat) {
    Hits(g, id, row, col, true) != Hits(h, id, row, col, true)
  }

  /** A viewport painted after the `k`-th covers the position in both graphs. */
  ghost predicate HiddenAfter(g: Graph, h: Graph, ids: seq<Id>, k: nat, row: nat, col: nat) {
    exists m :: k < m < |ids| && Hits(g, ids[m], row, col, true) && Hits(h, ids[m], row, col, true)
  }

  /** Every viewport that covers the position in just one of the graphs is hidden in both. */
  ghost predicate ChangesHidden(g: Graph, h: Graph, ids: seq<Id>, row: nat, col: nat) {
    forall k: nat | k < |ids| && Uncovered(g, h, ids[k], row, col) :: HiddenAfter(g, h, ids, k, row, col)
  }

  /** The two graphs have the same viewport in front exactly when whatever changed is hidden. */
  lemma {:induction false} FrontMostKeptIff(g: Graph, h: Graph, ids: seq<Id>, row: nat, col: nat)
    ensures FrontMost(g, ids, row, col, true) == FrontMost(h, ids, row, col, true)
       <==> ChangesHidden(g, h, ids, row, col)
  {
    if ids != [] {
      var n := |ids| - 1;
      if Uncovered(g, h, ids[n], row, col) {
        FrontMostResolves(g, ids[..n], row, col);
        FrontMostResolves(h, ids[..n], row, col);
        assert !HiddenAfter(g, h, ids, n, row, col);
      } else if Hits(g, ids[n], row, col, true) {
        assert forall k: nat | k < n :: HiddenAfter(g, h, ids, k, row, col);
      } else {
        FrontMostKeptIff(g, h, ids[..n], row, col);
        HiddenBefore(g, h, ids, row, col);
      }
    }
  }

  /** A last viewport that covers the position in neither graph makes no difference. */
  lemma HiddenBefore(g: Graph, h: Graph, ids: seq<Id>, row: nat, col: nat)
    requires ids != []
    requires !Hits(g, ids[|ids| - 1], row, col, true) && !Hits(h, ids[|ids| - 1], row, col, true)
    ensures ChangesHidden(g, h, ids, row, col) <==> ChangesHidden(g, h, ids[..|ids| - 1], row, col)
  {
    var n := |ids| - 1;
    var most := ids[..n];
    forall k: nat | k < n ensures HiddenAfter(g, h, ids, k, row, col) <==> HiddenAfter(g, h, most, k, row, col) {
      if m :| k < m < |ids| && Hits(g, ids[m], row, col, true) && Hits(h, ids[m], row, col, true) {
        assert most[m] == ids[m];
      }
      if m :| k < m < |most| && Hits(g, most[m], row, col, true) && Hits(h, most[m], row, col, true) {
        assert most[m] == ids[m];
      }
    }
    assert forall k: nat | k < n :: most[k] == ids[k];
  }

  /** At every position of the pane, each viewport that covers it in just one of the two graphs is hidden in
      both by a later one. */
  ghost predicate AllChangesHidden(g: Graph, h: Graph, rows: nat, cols: nat) {
    forall row: nat, col: nat | row < rows && col < cols :: ChangesHidden(g, h, Flatten(g.hierarchy), row, col)
  }

  lemma SameEntryIff(g: Graph, h: Graph, row: nat, col: nat)
    requires h.hierarchy == g.hierarchy
    ensures ZEntry(g, row, col) == ZEntry(h, row, col) <==> ChangesHidden(g, h, Flatten(g.hierarchy), row, col)
  {
    FrontMostKeptIff(g, h, Flatten(g.hierarchy), row, col);
  }

  /** The z-buffer survives an update of any viewports if and only if all changes are hidden. */
  lemma UpdatesKeepZBufferIff(g: Graph, h: Graph, rows: nat, cols: nat, z: seq<Entry>)
    requires h == g.(viewports := h.viewports) && IsZBuffer(g, rows, cols, z)
    ensures IsZBuffer(h, rows, cols, z) <==> AllChangesHidden(g, h, rows, cols)
  {
    SameZBufferIff(g, h, rows, cols, z);
    forall row: nat, col: nat
      ensures ZEntry(g, row, col) == ZEntry(h, row, col) <==> ChangesHidden(g, h, Flatten(g.hierarchy), row, col)
    {
      SameEntryIff(g, h, row, col);
    }
    if SameEntries(g, h, rows, cols) {
      forall row: nat, col: nat | row < rows && col < cols
        ensures ChangesHidden(g, h, Flatten(g.hierarchy), row, col)
      {
        assert ZEntry(g, row, col) == ZEntry(h, row, col);
      }
    }
    if AllChangesHidden(g, h, rows, cols) {
      forall row: nat, col: nat | row < rows && col < cols ensures ZEntry(g, row, col) == ZEntry(h, row, col) {
        assert ChangesHidden(g, h, Flatten(g.hierarchy), row, col);
      }
    }
  }

  // ---------------------------------------------------------------- one viewport

  /** Viewports other than `id` are what they were. */
  ghost predicate OthersKept(g: Graph, h: Graph, id: Id) {
    forall x: Id, row: nat, col: nat | x != id :: Hits(g, x, row, col, true) == Hits(h, x, row, col, true)
  }

  /** A visible viewport painted after the `k`-th covers the position. */
  ghost predicate CoveredAfter(g: Graph, ids: seq<Id>, k: nat, row: nat, col: nat) {
    exists m :: k < m < |ids| && Hits(g, ids[m], row, col, true)
  }

  lemma PlaceInOrder(vps: Viewports, g: Graph, i: nat) returns (k: nat)
    requires Forest(vps) && IsGraph(vps, g) && i < |vps|
    ensures
      var ids := Flatten(g.hierarchy);
      k < |ids| && ids[k] == vps[i].id && forall m | 0 <= m < |ids| && m != k :: ids[m] != ids[k]
  {
    OrderHoldsAll(vps, g, vps[i].id);
    var depths :| Recorded(vps, depths) && Leveled(vps, depths, g.hierarchy);
    OrderAscends(vps, g, depths);
    var ids := Flatten(g.hierarchy);
    k :| 0 <= k < |ids| && ids[k] == vps[i].id;
    forall m | 0 <= m < |ids| && m != k ensures ids[m] != ids[k] {
      var order := Indices(g, ids);
      assert m < k ==> Behind(depths, order[m], order[k]);
      assert k < m ==> Behind(depths, order[k], order[m]);
    }
  }

  /** The graph after one viewport was updated. */
  function UpdateOne(g: Graph, i: nat, w: Viewport): Graph
    requires i < |g.viewports|
  {
    g.(viewports := g.viewports[i := w])
  }

  lemma OneIsUpdated(vps: Viewports, g: Graph, i: nat, w: Viewport)
    requires Forest(vps) && IsGraph(vps, g) && i < |vps|
    ensures OthersKept(g, UpdateOne(g, i, w), vps[i].id)
  {
    forall x: Id | x != vps[i].id && x in g.table ensures g.table[x] != i {
      assert vps[g.table[x]].id == x;
    }
  }

  /** The search agrees at every position of the pane. */
  ghost predicate SameEntries(g: Graph, h: Graph, rows: nat, cols: nat) {
    forall row: nat, col: nat | row < rows && col < cols :: ZEntry(g, row, col) == ZEntry(h, row, col)
  }

  lemma SameZBufferIff(g: Graph, h: Graph, rows: nat, cols: nat, z: seq<Entry>)
    requires IsZBuffer(g, rows, cols, z)
    ensures IsZBuffer(h, rows, cols, z) <==> SameEntries(g, h, rows, cols)
  {
    if IsZBuffer(h, rows, cols, z) {
      forall row: nat, col: nat | row < rows && col < cols ensures ZEntry(g, row, col) == ZEntry(h, row, col) {
        RowFits(row, rows, col, cols);
        CellIndex(row, col, cols);
        BothEntries(g, h, rows, cols, z, row * cols + col, row, col);
      }
    }
    if SameEntries(g, h, rows, cols) {
      SameEntriesSuffice(g, h, rows, cols, z);
    }
  }

  lemma BothEntries(g: Graph, h: Graph, rows: nat, cols: nat, z: seq<Entry>, i: nat, row: nat, col: nat)
    requires IsZBuffer(g, rows, cols, z) && IsZBuffer(h, rows, cols, z)
    requires cols > 0 && i < |z| && i / cols == row && i % cols == col
    ensures ZEntry(g, row, col) == ZEntry(h, row, col)
  {
    EntryAt(g, rows, cols, z, i, row, col);
    EntryAt(h, rows, cols, z, i, row, col);
  }

  lemma SameEntriesSuffice(g: Graph, h: Graph, rows: nat, cols: nat, z: seq<Entry>)
    requires IsZBuffer(g, rows, cols, z) && SameEntries(g, h, rows, cols)
    ensures IsZBuffer(h, rows, cols, z)
  {
    if cols > 0 {
      forall i | 0 <= i < |z| ensures z[i] == ZEntry(h, i / cols, i % cols) {
        RowOfIndex(i, rows, cols);
        EntryAt(g, rows, cols, z, i, i / cols, i % cols);
      }
    }
  }

  lemma EntryAt(g: Graph, rows: nat, cols: nat, z: seq<Entry>, i: nat, row: nat, col: nat)
    requires IsZBuffer(g, rows, cols, z) && cols > 0 && i < |z| && i / cols == row && i % cols == col
    ensures z[i] == ZEntry(g, row, col)
  {
  }

  lemma RowOfIndex(i: nat, rows: nat, cols: nat)
    requires cols > 0 && i < rows * cols
    ensures i / cols < rows && i % cols < cols
  {
    assert i == (i / cols) * cols + i % cols;
    if i / cols >= rows {
      MulMonotone(rows, i / cols, cols);
    }
  }

  /** The z-buffer survives the update of one viewport if and only if, wherever on the pane its visible
      rectangle changed, some visible viewport painted later covers it. */
  lemma UpdateKeepsZBufferIff(
      vps: Viewports, g: Graph, i: nat, w: Viewport, rows: nat, cols: nat, z: seq<Entry>, k: nat)
    requires Forest(vps) && IsGraph(vps, g) && i < |vps| && IsZBuffer(g, rows, cols, z)
    requires k < |Flatten(g.hierarchy)| && Flatten(g.hierarchy)[k] == vps[i].id
    ensures IsZBuffer(UpdateOne(g, i, w), rows, cols, z) <==>
              forall row: nat, col: nat |
                row < rows && col < cols && Uncovered(g, UpdateOne(g, i, w), vps[i].id, row, col) ::
                CoveredAfter(g, Flatten(g.hierarchy), k, row, col)
  {
    var h := UpdateOne(g, i, w);
    var ids := Flatten(g.hierarchy);
    var place := PlaceInOrder(vps, g, i);
    assert place == k;
    OneIsUpdated(vps, g, i, w);
    UpdatesKeepZBufferIff(g, h, rows, cols, z);
    forall row: nat, col: nat
      ensures ChangesHidden(g, h, ids, row, col) <==>
                (Uncovered(g, h, vps[i].id, row, col) ==> CoveredAfter(g, ids, k, row, col))
    {
      OneChangeHidden(g, h, ids, k, row, col);
    }
  }

  lemma OneChangeHidden(g: Graph, h: Graph, ids: seq<Id>, k: nat, row: nat, col: nat)
    requires k < |ids| && OthersKept(g, h, ids[k]) && forall m | 0 <= m < |ids| && m != k :: ids[m] != ids[k]
    ensures ChangesHidden(g, h, ids, row, col) <==>
              (Uncovered(g, h, ids[k], row, col) ==> CoveredAfter(g, ids, k, row, col))
  {
    assert forall j: nat | j < |ids| && Uncovered(g, h, ids[j], row, col) :: j == k;
    assert HiddenAfter(g, h, ids, k, row, col) <==> CoveredAfter(g, ids, k, row, col);
  }

  // ---------------------------------------------------------------- moved viewports and the offsets

  /** The same viewports with the same parents. */
  ghost predicate SameTree(vps: Viewports, upd: Viewports) {
    |vps| == |upd| && forall i | 0 <= i < |vps| :: vps[i].id == upd[i].id && vps[i].parent == upd[i].parent
  }

  /** No viewport was given another position. */
  ghost predicate NoneMoved(vps: Viewports, upd: Viewports)
    requires SameTree(vps, upd)
  {
    forall i | 0 <= i < |vps| :: vps[i].startRow == upd[i].startRow && vps[i].startCol == upd[i].startCol
  }

  lemma SameChains(vps: Viewports, upd: Viewports, i: nat, c: seq<nat>)
    requires SameTree(vps, upd) && IsChain(vps, i, c)
    ensures IsChain(upd, i, c)
  {
    forall k | 0 <= k < |c| - 1 ensures Linked(upd, c, k) {
      assert Linked(vps, c, k);
    }
  }

  lemma SameForest(vps: Viewports, upd: Viewports)
    requires SameTree(vps, upd) && Forest(vps)
    ensures Forest(upd) && forall i | 0 <= i < |vps| :: Chain(upd, i) == Chain(vps, i)
  {
    forall i: nat | i < |vps| ensures HasChain(upd, i) {
      SameChains(vps, upd, i, Chain(vps, i));
    }
    forall i | 0 <= i < |vps| ensures Chain(upd, i) == Chain(vps, i) {
      SameChains(vps, upd, i, Chain(vps, i));
      ChainIsUnique(upd, i, Chain(upd, i), Chain(vps, i));
    }
  }

  lemma {:induction false} SameDepths(vps: Viewports, upd: Viewports, i: nat)
    requires SameTree(vps, upd) && Forest(vps) && Forest(upd) && i < |vps|
    ensures WalkedDepth(upd, i) == WalkedDepth(vps, i)
    decreases i
  {
    SameForest(vps, upd);
    var c := Chain(vps, i);
    var m := FirstEarlier(c, i, 1);
    if m < |c| {
      SameDepths(vps, upd, c[m]);
    }
  }

  lemma {:induction false} SameTotal(vps: Viewports, upd: Viewports, c: seq<nat>)
    requires SameTree(vps, upd) && NoneMoved(vps, upd) && forall k | 0 <= k < |c| :: c[k] < |vps|
    ensures Total(upd, c) == Total(vps, c)
  {
    if c != [] {
      SameTotal(vps, upd, c[1..]);
    }
  }

  /** Where all places are the same, no viewport has moved. */
  lemma SamePlaceSameStart(vps: Viewports, upd: Viewports, i: nat)
    requires SameTree(vps, upd) && Forest(vps) && Forest(upd) && i < |vps|
    requires forall j | 0 <= j < |vps| :: Place(upd, j) == Place(vps, j)
    ensures vps[i].startRow == upd[i].startRow && vps[i].startCol == upd[i].startCol
  {
    if vps[i].parent == None {
      PlaceOfRoot(vps, i);
      PlaceOfRoot(upd, i);
    } else {
      ParentIsListed(vps, i);
      var p := Chain(vps, i)[1];
      assert IsParent(upd, i, p);
      PlaceOnParent(vps, i, p);
      PlaceOnParent(upd, i, p);
    }
  }

  lemma PlacesAreKeptIff(vps: Viewports, upd: Viewports)
    requires SameTree(vps, upd) && Forest(vps) && Forest(upd)
    ensures (forall i | 0 <= i < |vps| :: Place(upd, i) == Place(vps, i)) <==> NoneMoved(vps, upd)
  {
    SameForest(vps, upd);
    if NoneMoved(vps, upd) {
      forall i | 0 <= i < |vps| ensures Place(upd, i) == Place(vps, i) {
        SameTotal(vps, upd, Chain(vps, i));
      }
    }
    if forall i | 0 <= i < |vps| :: Place(upd, i) == Place(vps, i) {
      forall i | 0 <= i < |vps| ensures vps[i].startRow == upd[i].startRow && vps[i].startCol == upd[i].startCol {
        SamePlaceSameStart(vps, upd, i);
      }
    }
  }

  /** The offsets kept over an update are the places of the updated forest if and only if no viewport
      was given another position. */
  lemma OffsetsStayIff(vps: Viewports, g: Graph, upd: Viewports)
    requires Forest(vps) && IsGraph(vps, g) && SameTree(vps, upd)
    ensures Forest(upd) && (Placed(upd, |upd|, g.offsets) <==> NoneMoved(vps, upd))
  {
    SameForest(vps, upd);
    PlacesAreKeptIff(vps, upd);
    if Placed(upd, |upd|, g.offsets) {
      forall i | 0 <= i < |vps| ensures Place(upd, i) == Place(vps, i) {
        assert g.offsets[upd[i].id] == Place(upd, i) && g.offsets[vps[i].id] == Place(vps, i);
      }
    }
    if NoneMoved(vps, upd) {
      forall i | 0 <= i < |upd| ensures upd[i].id in g.offsets && g.offsets[upd[i].id] == Place(upd, i) {
        assert g.offsets[vps[i].id] == Place(vps, i);
      }
    }
  }

  /** So the kept graph is the graph of the updated viewports under the same condition. */
  lemma GraphStaysIff(vps: Viewports, g: Graph, upd: Viewports)
    requires Forest(vps) && IsGraph(vps, g) && SameTree(vps, upd)
    ensures Forest(upd) && (IsGraph(upd, g.(viewports := upd)) <==> NoneMoved(vps, upd))
  {
    OffsetsStayIff(vps, g, upd);
    var depths :| Recorded(vps, depths) && Leveled(vps, depths, g.hierarchy);
    forall i | 0 <= i < |upd| ensures depths[i] == WalkedDepth(upd, i) {
      SameDepths(vps, upd, i);
    }
    assert Recorded(upd, depths);
    forall d | 0 <= d < |g.hierarchy| ensures g.hierarchy[d] == LevelIds(upd, depths, d, |upd|) {
      SameLevelIds(vps, upd, depths, d, |upd|);
    }
    assert Leveled(upd, depths, g.hierarchy);
    assert Indexes(upd, |upd|, g.table);
  }

  lemma {:induction false} SameLevelIds(vps: Viewports, upd: Viewports, depths: seq<nat>, d: nat, n: nat)
    requires SameTree(vps, upd) && n <= |vps| == |depths|
    ensures LevelIds(upd, depths, d, n) == LevelIds(vps, depths, d, n)
  {
    if n > 0 {
      SameLevelIds(vps, upd, depths, d, n - 1);
    }
  }

  /** The frame after an update, read through the kept z-buffer, paints the updated viewports when none has
      moved and every change is hidden. */
  lemma UpdatedFrameIsPainted(vps: Viewports, g: Graph, upd: Viewports, rows: nat, z: seq<Entry>, buff: CharBuff)
    requires Forest(vps) && IsGraph(vps, g) && SameTree(vps, upd) && NoneMoved(vps, upd)
    requires IsZBuffer(g, rows, buff.numCols, z)
    requires AllChangesHidden(g, g.(viewports := upd), rows, buff.numCols)
    requires Rendered(g.(viewports := upd), z, buff.numCols, buff.cells)
    ensures Forest(upd) && IsGraph(upd, g.(viewports := upd)) && IsFrame(upd, g.(viewports := upd), rows, buff)
  {
    GraphStaysIff(vps, g, upd);
    UpdatesKeepZBufferIff(g, g.(viewports := upd), rows, buff.numCols, z);
    RenderedIsFrame(upd, g.(viewports := upd), rows, z, buff);
  }

  // ---------------------------------------------------------------- a pane that moved

  function OnePane(col: nat, shown: Cell): Viewport {
    Viewport(1, 0, col, 1, 0, true, None, CharBuff(1, [shown]))
  }

  /** A one-cell pane built at column 0 and then moved to column 1. */
  function MovedPane(shown: Cell): Graph {
    Graph([OnePane(1, shown)], map[1 := 0], map[1 := (0, 0)], [[1]])
  }

  lemma OnePaneForest(col: nat, shown: Cell)
    ensures Forest([OnePane(col, shown)]) && Place([OnePane(col, shown)], 0) == (0, col)
  {
    var vps := [OnePane(col, shown)];
    assert IsChain(vps, 0, [0]);
    assert HasChain(vps, 0);
    PlaceOfRoot(vps, 0);
  }

  /** Even a new z-buffer does not help: the moved pane's old position shows blank, its new position is
      not its own, and painting would show its cell there. */
  lemma MovedPaneIsLost(shown: Cell)
    requires shown.Fill?
    ensures
      var h := MovedPane(shown);
      && Forest(h.viewports) && !Placed(h.viewports, 1, h.offsets)
      && ZEntry(h, 0, 0) == Pane(1) && Resolves(h, Pane(1)) && FrameCell(h, Pane(1), 0, 0) == Blank
      && ZEntry(h, 0, 1) == RootPane && FrameCell(h, RootPane, 0, 1) == Blank
      && Painting(h.viewports, [0], 0, 1) == shown
  {
    var h := MovedPane(shown);
    OnePaneForest(1, shown);
    OnlyPane(h, 0, 0);
    OnlyPane(h, 0, 1);
    MovedCells(shown, h);
  }

  lemma OnlyPane(g: Graph, row: nat, col: nat)
    requires g.hierarchy == [[1]]
    ensures ZEntry(g, row, col) == if Hits(g, 1, row, col, true) then Pane(1) else RootPane
  {
    assert Flatten([[1]][..0]) == [];
    assert Flatten([[1]]) == [1];
    assert FrontMost(g, [1][..0], row, col, true) == None;
  }

  lemma MovedCells(shown: Cell, h: Graph)
    requires shown.Fill? && h == MovedPane(shown) && Forest(h.viewports) && Place(h.viewports, 0) == (0, 1)
    ensures Hits(h, 1, 0, 0, true) && !Hits(h, 1, 0, 1, true)
    ensures Resolves(h, Pane(1)) && FrameCell(h, Pane(1), 0, 0) == Blank
    ensures Painting(h.viewports, [0], 0, 1) == shown
  {
    var vp := OnePane(1, shown);
    assert !Inside(0, 0, (0, 1), 1, 1);
    assert PaneCell(vp, (0, 0), 0, 0) == Blank;
    assert CellWithin(vp, 0, 0) == shown;
    assert Over(vp, (0, 1), 0, 1, Blank) == shown;
    assert [0][..0] == [];
    assert Painting(h.viewports, [0][..0], 0, 1) == Blank;
  }
}
