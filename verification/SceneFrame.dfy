/** Compositing (src/ui/root.rs, src/ui/viewport.rs): a z-buffer holds the front-most visible viewport
    of every position, and the frame takes each cell from it.  The frame is what painting every
    visible viewport's rectangle back to front would give. */
module SceneFrame {
  import opened Prelude
  import opened Scanline
  import opened Scene

  // ---------------------------------------------------------------- painting

  predicate Inside(row: nat, col: nat, place: (nat, nat), rows: nat, cols: nat) {
    place.0 <= row < place.0 + rows && place.1 <= col < place.1 + cols
  }

  /** The viewport's cell at a position relative to its corner, scrolling included. */
  function CellWithin(vp: Viewport, row: nat, col: nat): Cell {
    var at := vp.buff.numCols * (row + vp.scroll) + col;
    if row + vp.scroll < vp.numRows && at < |vp.buff.cells| then vp.buff.cells[at] else Blank
  }

  /** A position of the root pane after the viewport's rectangle, with its corner at `place`, was
      painted over `under`. */
  function Over(vp: Viewport, place: (nat, nat), row: nat, col: nat, under: Cell): Cell {
    if vp.visible && Inside(row, col, place, vp.numRows, vp.buff.numCols) then
      CellWithin(vp, row - place.0, col - place.1)
    else under
  }

  /** A position after painting the viewports of `order`, the first one furthest back. */
  ghost function Painting(vps: Viewports, order: seq<nat>, row: nat, col: nat): Cell
    requires Forest(vps) && forall k | 0 <= k < |order| :: order[k] < |vps|
  {
    if order == [] then Blank
    else
      var n := |order| - 1;
      Over(vps[order[n]], Place(vps, order[n]), row, col, Painting(vps, order[..n], row, col))
  }

  // ---------------------------------------------------------------- the hierarchy as an order

  function Flatten(levels: seq<seq<Id>>): seq<Id> {
    if levels == [] then [] else Flatten(levels[..|levels| - 1]) + levels[|levels| - 1]
  }

  ghost predicate Known(g: Graph, ids: seq<Id>) {
    forall k | 0 <= k < |ids| :: ids[k] in g.table
  }

  ghost function Indices(g: Graph, ids: seq<Id>): (r: seq<nat>)
    requires Known(g, ids)
    ensures |r| == |ids| && forall k | 0 <= k < |ids| :: r[k] == g.table[ids[k]]
  {
    if ids == [] then [] else Indices(g, ids[..|ids| - 1]) + [g.table[ids[|ids| - 1]]]
  }

  lemma {:induction false} LevelIsKnown(vps: Viewports, depths: seq<nat>, table: map<Id, nat>, d: nat, n: nat)
    requires n <= |vps| == |depths| && Indexes(vps, |vps|, table)
    ensures forall k | 0 <= k < |LevelIds(vps, depths, d, n)| :: LevelIds(vps, depths, d, n)[k] in table
  {
    if n > 0 {
      LevelIsKnown(vps, depths, table, d, n - 1);
    }
  }

  lemma {:induction false} FlattenIsKnown(g: Graph, levels: seq<seq<Id>>)
    requires forall d | 0 <= d < |levels| :: Known(g, levels[d])
    ensures Known(g, Flatten(levels))
  {
    if levels != [] {
      FlattenIsKnown(g, levels[..|levels| - 1]);
    }
  }

  lemma OrderIsKnown(vps: Viewports, g: Graph)
    requires Forest(vps) && IsGraph(vps, g)
    ensures Known(g, Flatten(g.hierarchy))
    ensures forall d | 0 <= d < |g.hierarchy| :: Known(g, g.hierarchy[d])
  {
    var depths :| Recorded(vps, depths) && Leveled(vps, depths, g.hierarchy);
    forall d | 0 <= d < |g.hierarchy| ensures Known(g, g.hierarchy[d]) {
      LevelIsKnown(vps, depths, g.table, d, |vps|);
    }
    FlattenIsKnown(g, g.hierarchy);
  }

  /** Every viewport is in the order. */
  lemma OrderHoldsAll(vps: Viewports, g: Graph, id: Id)
    requires Forest(vps) && IsGraph(vps, g)
    ensures id in Flatten(g.hierarchy) <==> exists i :: 0 <= i < |vps| && vps[i].id == id
  {
    var depths :| Recorded(vps, depths) && Leveled(vps, depths, g.hierarchy);
    FlattenHolds(g.hierarchy, id);
    if id in Flatten(g.hierarchy) {
      var d :| 0 <= d < |g.hierarchy| && id in g.hierarchy[d];
      LevelHolds(vps, depths, d, |vps|, id);
    }
    if i :| 0 <= i < |vps| && vps[i].id == id {
      LevelHolds(vps, depths, depths[i], |vps|, id);
      assert id in g.hierarchy[depths[i]];
    }
  }

  lemma {:induction false} FlattenHolds(levels: seq<seq<Id>>, id: Id)
    ensures id in Flatten(levels) <==> exists d :: 0 <= d < |levels| && id in levels[d]
  {
    if levels != [] {
      var n := |levels| - 1;
      FlattenHolds(levels[..n], id);
      if id in Flatten(levels[..n]) {
        var d :| 0 <= d < n && id in levels[..n][d];
        assert id in levels[d];
      }
      if d :| 0 <= d < |levels| && id in levels[d] {
        if d < n {
          assert id in levels[..n][d];
        }
      }
    }
  }

  /** The order goes by recorded depth, and within a depth by place in the list. */
  ghost predicate Ascending(depths: seq<nat>, order: seq<nat>) {
    && (forall k | 0 <= k < |order| :: order[k] < |depths|)
    && forall j, k | 0 <= j < k < |order| :: Behind(depths, order[j], order[k])
  }

  ghost predicate Behind(depths: seq<nat>, i: nat, j: nat) {
    i < |depths| && j < |depths| && (depths[i] < depths[j] || (depths[i] == depths[j] && i < j))
  }

  /** One level of the order: viewports before the `n`-th, all of depth `d`. */
  ghost predicate LevelOrder(depths: seq<nat>, g: Graph, ids: seq<Id>, d: nat, n: nat) {
    && Known(g, ids) && Ascending(depths, Indices(g, ids))
    && forall i | i in Indices(g, ids) :: i < n && depths[i] == d
  }

  lemma {:induction false} LevelAscends(vps: Viewports, depths: seq<nat>, g: Graph, d: nat, n: nat)
    requires n <= |vps| == |depths| && Indexes(vps, |vps|, g.table)
    ensures LevelOrder(depths, g, LevelIds(vps, depths, d, n), d, n)
  {
    if n > 0 {
      LevelAscends(vps, depths, g, d, n - 1);
      var ids := LevelIds(vps, depths, d, n - 1);
      if depths[n - 1] == d {
        LevelGrows(vps, depths, g, d, n - 1, ids);
      }
    }
  }

  lemma LevelGrows(vps: Viewports, depths: seq<nat>, g: Graph, d: nat, i: nat, ids: seq<Id>)
    requires i < |vps| == |depths| && Indexes(vps, |vps|, g.table) && depths[i] == d
    requires LevelOrder(depths, g, ids, d, i)
    ensures LevelOrder(depths, g, ids + [vps[i].id], d, i + 1)
  {
    IndicesAppend(g, ids, [vps[i].id]);
    assert Indices(g, [vps[i].id]) == [i];
    AscendingPush(depths, Indices(g, ids), i);
  }

  lemma AscendingPush(depths: seq<nat>, back: seq<nat>, i: nat)
    requires Ascending(depths, back) && i < |depths| && forall j | j in back :: Behind(depths, j, i)
    ensures Ascending(depths, back + [i])
  {
  }

  lemma {:induction false} FlattenAscends(vps: Viewports, depths: seq<nat>, g: Graph, levels: seq<seq<Id>>)
    requires Indexes(vps, |vps|, g.table) && |vps| == |depths|
    requires forall d | 0 <= d < |levels| :: levels[d] == LevelIds(vps, depths, d, |vps|)
    ensures Known(g, Flatten(levels)) && Ascending(depths, Indices(g, Flatten(levels)))
    ensures forall i | i in Indices(g, Flatten(levels)) :: i < |depths| && depths[i] < |levels|
  {
    if levels != [] {
      var n := |levels| - 1;
      FlattenAscends(vps, depths, g, levels[..n]);
      LevelAscends(vps, depths, g, n, |vps|);
      assert LevelOrder(depths, g, levels[n], n, |vps|);
      IndicesAppend(g, Flatten(levels[..n]), levels[n]);
      AscendingAppend(depths, Indices(g, Flatten(levels[..n])), Indices(g, levels[n]), n);
    }
  }

  lemma AscendingAppend(depths: seq<nat>, back: seq<nat>, front: seq<nat>, d: nat)
    requires Ascending(depths, back) && Ascending(depths, front)
    requires forall i | i in back :: i < |depths| && depths[i] < d
    requires forall i | i in front :: i < |depths| && depths[i] == d
    ensures Ascending(depths, back + front)
    ensures forall i | i in back + front :: i < |depths| && depths[i] < d + 1
  {
  }

  lemma {:induction false} IndicesAppend(g: Graph, back: seq<Id>, front: seq<Id>)
    requires Known(g, back) && Known(g, front)
    ensures Known(g, back + front) && Indices(g, back + front) == Indices(g, back) + Indices(g, front)
  {
    assert forall k | 0 <= k < |back + front| :: (back + front)[k] == if k < |back| then back[k] else front[k - |back|];
  }

  /** The order in which a graph is painted: each viewport once, by recorded depth and then by place in
      the list. */
  lemma OrderAscends(vps: Viewports, g: Graph, depths: seq<nat>)
    requires Forest(vps) && IsGraph(vps, g) && Recorded(vps, depths)
    ensures Known(g, Flatten(g.hierarchy)) && Ascending(depths, Indices(g, Flatten(g.hierarchy)))
  {
    var same :| Recorded(vps, same) && Leveled(vps, same, g.hierarchy);
    assert depths == same;
    FlattenAscends(vps, depths, g, g.hierarchy);
  }

  // ---------------------------------------------------------------- the front-most search

  predicate Hits(g: Graph, id: Id, row: nat, col: nat, checkVisible: bool) {
    && id in g.table && g.table[id] < |g.viewports| && id in g.offsets
    && var vp := g.viewports[g.table[id]];
       (checkVisible ==> vp.visible) && Inside(row, col, g.offsets[id], vp.numRows, vp.buff.numCols)
  }

  /** The last id that is hit. */
  function FrontMost(g: Graph, ids: seq<Id>, row: nat, col: nat, checkVisible: bool): Option<Id> {
    if ids == [] then None
    else if Hits(g, ids[|ids| - 1], row, col, checkVisible) then Some(ids[|ids| - 1])
    else FrontMost(g, ids[..|ids| - 1], row, col, checkVisible)
  }

  lemma {:induction false} FrontMostSplits(
      g: Graph, back: seq<Id>, front: seq<Id>, row: nat, col: nat, checkVisible: bool)
    ensures FrontMost(g, back + front, row, col, checkVisible)
         == var f := FrontMost(g, front, row, col, checkVisible);
            if f.Some? then f else FrontMost(g, back, row, col, checkVisible)
  {
    if front == [] {
      assert back + front == back;
    } else {
      var n := |front| - 1;
      assert (back + front)[..|back| + n] == back + front[..n];
      FrontMostSplits(g, back, front[..n], row, col, checkVisible);
    }
  }

  /** Searches the levels from the deepest, and each level from its last viewport. */
  method ViewportAt(g: Graph, row: nat, col: nat, checkVisible: bool) returns (r: Option<Id>)
    ensures r == FrontMost(g, Flatten(g.hierarchy), row, col, checkVisible)
  {
    var d := |g.hierarchy|;
    assert g.hierarchy[..d] == g.hierarchy;
    while d > 0
      invariant 0 <= d <= |g.hierarchy|
      invariant FrontMost(g, Flatten(g.hierarchy[..d]), row, col, checkVisible)
             == FrontMost(g, Flatten(g.hierarchy), row, col, checkVisible)
    {
      d := d - 1;
      assert g.hierarchy[..d + 1][..d] == g.hierarchy[..d];
      r := LastHit(g, g.hierarchy[d], row, col, checkVisible);
      FrontMostSplits(g, Flatten(g.hierarchy[..d]), g.hierarchy[d], row, col, checkVisible);
      if r.Some? {
        return;
      }
    }
    return None;
  }

  method LastHit(g: Graph, ids: seq<Id>, row: nat, col: nat, checkVisible: bool) returns (r: Option<Id>)
    ensures r == FrontMost(g, ids, row, col, checkVisible)
  {
    var k := |ids|;
    assert ids[..k] == ids;
    while k > 0
      invariant 0 <= k <= |ids|
      invariant FrontMost(g, ids[..k], row, col, checkVisible) == FrontMost(g, ids, row, col, checkVisible)
    {
      k := k - 1;
      assert ids[..k + 1][..k] == ids[..k];
      if Hits(g, ids[k], row, col, checkVisible) {
        return Some(ids[k]);
      }
    }
    return None;
  }

  // ---------------------------------------------------------------- the frame

  datatype Entry = RootPane | Pane(id: Id)

  function ZEntry(g: Graph, row: nat, col: nat): Entry {
    match FrontMost(g, Flatten(g.hierarchy), row, col, true)
    case Some(id) => Pane(id)
    case None => RootPane
  }

  function SaturatingSub(a: nat, b: nat): nat {
    if a < b then 0 else a - b
  }

  /** Position (row, col) relative to a viewport shown at `abs`, if it falls inside. */
  function TranslateCoordinate(vp: Viewport, abs: (nat, nat), row: nat, col: nat): Option<(nat, nat)> {
    var top := vp.startRow + abs.0;
    var left := vp.startCol + abs.1;
    if Inside(row, col, (top, left), vp.numRows, vp.buff.numCols) then Some((row - top, col - left)) else None
  }

  predicate Resolves(g: Graph, entry: Entry) {
    entry.Pane? ==> entry.id in g.table && g.table[entry.id] < |g.viewports| && entry.id in g.offsets
  }

  /** The cell the frame takes for a z-buffer entry. */
  function FrameCell(g: Graph, entry: Entry, row: nat, col: nat): Cell
    requires Resolves(g, entry)
  {
    match entry
    case RootPane => Blank
    case Pane(id) =>
      PaneCell(g.viewports[g.table[id]], g.offsets[id], row, col)
  }

  function PaneCell(vp: Viewport, offset: (nat, nat), row: nat, col: nat): Cell {
    var abs := (SaturatingSub(offset.0, vp.startRow), SaturatingSub(offset.1, vp.startCol));
    match TranslateCoordinate(vp, abs, row, col)
    case Some((r, c)) => CellWithin(vp, r, c)
    case None => Blank
  }

  lemma PlaceIsBelowStart(vps: Viewports, i: nat)
    requires Forest(vps) && i < |vps|
    ensures Place(vps, i).0 >= vps[i].startRow && Place(vps, i).1 >= vps[i].startCol
  {
    if vps[i].parent == None {
      PlaceOfRoot(vps, i);
    } else {
      ParentIsListed(vps, i);
      PlaceOnParent(vps, i, Chain(vps, i)[1]);
    }
  }

  /** A viewport's rectangle is where its offset says, whatever its own position. */
  lemma PaneCellIsOver(vp: Viewport, place: (nat, nat), row: nat, col: nat, under: Cell)
    requires place.0 >= vp.startRow && place.1 >= vp.startCol
    requires vp.visible && Inside(row, col, place, vp.numRows, vp.buff.numCols)
    ensures PaneCell(vp, place, row, col) == Over(vp, place, row, col, under)
  {
  }

  /** What a known id stands for in a graph. */
  lemma KnownStands(vps: Viewports, g: Graph, id: Id)
    requires Forest(vps) && IsGraph(vps, g) && id in g.table
    ensures g.viewports == vps && g.table[id] < |vps| && id in g.offsets
    ensures g.offsets[id] == Place(vps, g.table[id])
  {
    assert vps[g.table[id]].id == id;
  }

  lemma HitIsOver(vps: Viewports, g: Graph, id: Id, row: nat, col: nat, under: Cell)
    requires Forest(vps) && IsGraph(vps, g) && id in g.table
    ensures g.viewports == vps && g.table[id] < |vps| && id in g.offsets
    ensures
      var over := Over(vps[g.table[id]], Place(vps, g.table[id]), row, col, under);
      if Hits(g, id, row, col, true) then FrameCell(g, Pane(id), row, col) == over else over == under
  {
    KnownStands(vps, g, id);
    PlaceIsBelowStart(vps, g.table[id]);
    if Hits(g, id, row, col, true) {
      PaneCellIsOver(vps[g.table[id]], Place(vps, g.table[id]), row, col, under);
    }
  }

  lemma {:induction false} FrontMostIsPainted(vps: Viewports, g: Graph, ids: seq<Id>, row: nat, col: nat)
    requires Forest(vps) && IsGraph(vps, g) && Known(g, ids)
    ensures forall k | 0 <= k < |ids| :: Indices(g, ids)[k] < |vps|
    ensures
      match FrontMost(g, ids, row, col, true)
      case Some(id) =>
        && id in g.table && id in g.offsets
        && FrameCell(g, Pane(id), row, col) == Painting(vps, Indices(g, ids), row, col)
      case None => Painting(vps, Indices(g, ids), row, col) == Blank
  {
    if ids != [] {
      var n := |ids| - 1;
      FrontMostIsPainted(vps, g, ids[..n], row, col);
      assert Indices(g, ids)[..n] == Indices(g, ids[..n]);
      HitIsOver(vps, g, ids[n], row, col, Painting(vps, Indices(g, ids[..n]), row, col));
    }
  }

  /** The painting of a whole graph at one position. */
  ghost function Composite(vps: Viewports, g: Graph, row: nat, col: nat): Cell
    requires Forest(vps) && IsGraph(vps, g)
  {
    OrderIsKnown(vps, g);
    FrontMostIsPainted(vps, g, Flatten(g.hierarchy), row, col);
    Painting(vps, Indices(g, Flatten(g.hierarchy)), row, col)
  }

  /** A fresh z-buffer entry selects the cell that back-to-front painting leaves on top. */
  lemma EntryShowsComposite(vps: Viewports, g: Graph, row: nat, col: nat)
    requires Forest(vps) && IsGraph(vps, g)
    ensures
      var entry := ZEntry(g, row, col);
      && Resolves(g, entry)
      && FrameCell(g, entry, row, col) == Composite(vps, g, row, col)
  {
    OrderIsKnown(vps, g);
    FrontMostIsPainted(vps, g, Flatten(g.hierarchy), row, col);
  }

  lemma CellIndex(row: nat, col: nat, cols: nat)
    requires col < cols
    ensures (row * cols + col) / cols == row && (row * cols + col) % cols == col
  {
    DivMod(row * cols + col, cols, row, col);
  }

  /** A z-buffer of the graph as it is. */
  ghost predicate IsZBuffer(g: Graph, rows: nat, cols: nat, z: seq<Entry>) {
    && |z| == rows * cols
    && (cols > 0 ==> forall i | 0 <= i < |z| :: z[i] == ZEntry(g, i / cols, i % cols))
  }

  /** The frame of a forest: at every position what back-to-front painting leaves there. */
  ghost predicate IsFrame(vps: Viewports, g: Graph, rows: nat, buff: CharBuff)
    requires Forest(vps) && IsGraph(vps, g)
  {
    && |buff.cells| == rows * buff.numCols
    && (buff.numCols > 0 ==>
          forall i | 0 <= i < |buff.cells| :: buff.cells[i] == Composite(vps, g, i / buff.numCols, i % buff.numCols))
  }

  ghost predicate Rendered(g: Graph, z: seq<Entry>, cols: nat, cells: seq<Cell>) {
    && |cells| == |z| && (z != [] ==> cols > 0)
    && forall i | 0 <= i < |z| :: Resolves(g, z[i]) && cells[i] == FrameCell(g, z[i], i / cols, i % cols)
  }

  /** The frame's cells, read through a z-buffer. */
  method RenderCells(g: Graph, z: seq<Entry>, cols: nat) returns (cells: seq<Cell>)
    requires z != [] ==> cols > 0
    requires AllResolve(g, z)
    ensures Rendered(g, z, cols, cells)
  {
    cells := [];
    for i := 0 to |z|
      invariant |cells| == i
      invariant forall j | 0 <= j < i :: cells[j] == FrameCell(g, z[j], j / cols, j % cols)
    {
      cells := cells + [FrameCell(g, z[i], i / cols, i % cols)];
    }
  }

  ghost predicate AllResolve(g: Graph, z: seq<Entry>) {
    forall i | 0 <= i < |z| :: Resolves(g, z[i])
  }

  lemma NewZBufferResolves(g: Graph, rows: nat, cols: nat, z: seq<Entry>)
    requires IsZBuffer(g, rows, cols, z) && (z != [] ==> cols > 0)
    ensures AllResolve(g, z)
  {
    forall i | 0 <= i < |z| ensures Resolves(g, z[i]) {
      FrontMostResolves(g, Flatten(g.hierarchy), i / cols, i % cols);
    }
  }

  lemma {:induction false} FrontMostResolves(g: Graph, ids: seq<Id>, row: nat, col: nat)
    ensures
      var front := FrontMost(g, ids, row, col, true);
      front.Some? ==> Hits(g, front.value, row, col, true) && Resolves(g, Pane(front.value))
  {
    if ids != [] {
      FrontMostResolves(g, ids[..|ids| - 1], row, col);
    }
  }

  lemma RenderedIsFrame(vps: Viewports, g: Graph, rows: nat, z: seq<Entry>, buff: CharBuff)
    requires Forest(vps) && IsGraph(vps, g) && IsZBuffer(g, rows, buff.numCols, z)
    requires Rendered(g, z, buff.numCols, buff.cells)
    ensures IsFrame(vps, g, rows, buff)
  {
    if buff.numCols > 0 {
      forall i | 0 <= i < |buff.cells|
        ensures buff.cells[i] == Composite(vps, g, i / buff.numCols, i % buff.numCols)
      {
        EntryShowsComposite(vps, g, i / buff.numCols, i % buff.numCols);
      }
    }
  }

  class Root {
    var scenegraph: Graph
    const numRows: nat
    const numCols: nat
    var zbuff: Option<seq<Entry>>

    constructor (numRows: nat, numCols: nat, scenegraph: Graph)
      ensures this.numRows == numRows && this.numCols == numCols && this.scenegraph == scenegraph && zbuff == None
    {
      this.numRows, this.numCols, this.scenegraph, zbuff := numRows, numCols, scenegraph, None;
    }

    /** The z-buffer kept from the last frame, if any, belongs to the graph as it is now. */
    ghost predicate Current()
      reads this
    {
      zbuff.Some? ==> IsZBuffer(scenegraph, numRows, numCols, zbuff.value)
    }

    method MakeZbuff() returns (z: seq<Entry>)
      ensures IsZBuffer(scenegraph, numRows, numCols, z)
    {
      z := [];
      for r := 0 to numRows
        invariant |z| == r * numCols
        invariant numCols > 0 ==> forall i | 0 <= i < |z| :: z[i] == ZEntry(scenegraph, i / numCols, i % numCols)
      {
        for c := 0 to numCols
          invariant |z| == r * numCols + c
          invariant numCols > 0 ==> forall i | 0 <= i < |z| :: z[i] == ZEntry(scenegraph, i / numCols, i % numCols)
        {
          var id := ViewportAt(scenegraph, r, c, true);
          CellIndex(r, c, numCols);
          z := z + [if id.Some? then Pane(id.value) else RootPane];
        }
      }
    }

    /** The frame, read through the z-buffer kept from the last one or through a new one.  If the kept
        one is current, the frame is what painting the viewports back to front gives. */
    method MakeCharbuff(ghost vps: Viewports) returns (buff: CharBuff)
      requires zbuff.Some? ==> |zbuff.value| == numRows * numCols && AllResolve(scenegraph, zbuff.value)
      modifies this`zbuff
      ensures zbuff.Some? && (if old(zbuff).Some? then zbuff == old(zbuff) else Current())
      ensures buff.numCols == numCols && Rendered(scenegraph, zbuff.value, numCols, buff.cells)
      ensures Forest(vps) && IsGraph(vps, scenegraph) && old(Current()) ==> IsFrame(vps, scenegraph, numRows, buff)
    {
      var z;
      if zbuff.Some? {
        z := zbuff.value;
      } else {
        z := MakeZbuff();
      }
      if z != [] {
        ColumnsExist(|z|, numRows, numCols);
      }
      if zbuff.None? {
        NewZBufferResolves(scenegraph, numRows, numCols, z);
      }
      var cells := RenderCells(scenegraph, z, numCols);
      buff := CharBuff(numCols, cells);
      if Forest(vps) && IsGraph(vps, scenegraph) && Current() {
        RenderedIsFrame(vps, scenegraph, numRows, z, buff);
      }
      zbuff := Some(z);
    }
  }

  lemma ColumnsExist(size: nat, rows: nat, cols: nat)
    requires size == rows * cols && size > 0
    ensures cols > 0
  {
  }

  /** From viewports to the screen: running the compiled frame shows, at every position of the pane, the
      glyph of the cell that painting the viewports back to front leaves there. */
  lemma FrameReachesTheScreen(vps: Viewports, g: Graph, rows: nat, buff: CharBuff, t: Terminal, row: nat, col: nat)
    requires Forest(vps) && IsGraph(vps, g) && IsFrame(vps, g, rows, buff)
    requires row < rows && col < buff.numCols && t.col == 0 && t.fg == None && t.bg == None
    ensures
      var end := Run(t, Program(buff));
      && (t.row + row, col) in end.screen.glyphs
      && end.screen.glyphs[(t.row + row, col)] == GlyphOf(Composite(vps, g, row, col))
  {
    RowFits(row, rows, col, buff.numCols);
    CellIndex(row, col, buff.numCols);
    var i := row * buff.numCols + col;
    FrameCellAt(vps, g, rows, buff, i, row, col);
    GlyphOnScreen(buff, t, row, col, i);
  }

  lemma FrameCellAt(vps: Viewports, g: Graph, rows: nat, buff: CharBuff, i: nat, row: nat, col: nat)
    requires Forest(vps) && IsGraph(vps, g) && IsFrame(vps, g, rows, buff)
    requires buff.numCols > 0 && i < |buff.cells| && i / buff.numCols == row && i % buff.numCols == col
    ensures buff.cells[i] == Composite(vps, g, row, col)
  {
  }

  lemma GlyphOnScreen(buff: CharBuff, t: Terminal, row: nat, col: nat, i: nat)
    requires col < buff.numCols && i == row * buff.numCols + col && i < |buff.cells|
    requires t.col == 0 && t.fg == None && t.bg == None
    ensures
      var end := Run(t, Program(buff));
      && (t.row + row, col) in end.screen.glyphs
      && end.screen.glyphs[(t.row + row, col)] == GlyphOf(buff.cells[i])
  {
    CompilePaintsGrid(buff, t, LastRow(buff) + 1);
    GlyphShown(Run(t, Program(buff)).screen, t.screen, t.row, buff, row, col, i);
  }

  lemma GlyphShown(now: Screen, before: Screen, top: int, buff: CharBuff, row: nat, col: nat, i: nat)
    requires col < buff.numCols && i == row * buff.numCols + col && i < |buff.cells|
    requires Shown(now, before, top, buff, 0, |buff.cells|)
    ensures (top + row, col) in now.glyphs && now.glyphs[(top + row, col)] == GlyphOf(buff.cells[i])
  {
    assert ShownAt(now, before, top, buff, 0, |buff.cells|, top + row, col);
    assert RowStart(row, buff.numCols) == row * buff.numCols;
  }

  lemma RowFits(row: nat, rows: nat, col: nat, w: nat)
    requires row < rows && col < w
    ensures 0 <= row * w + col < rows * w
  {
    MulMonotone(row + 1, rows, w);
  }

  // ---------------------------------------------------------------- keeping the z-buffer

  /** The viewports agree in what the search for the front-most one looks at, where the offsets are kept
      apart: visibility and size. */
  ghost predicate SameGeometry(vps: Viewports, others: Viewports) {
    |vps| == |others| && forall i | 0 <= i < |vps| :: SameRectangle(vps[i], others[i])
  }

  ghost predicate SameRectangle(v: Viewport, w: Viewport) {
    v.visible == w.visible && v.numRows == w.numRows && v.buff.numCols == w.buff.numCols
  }

  lemma {:induction false} SameFrontMost(g: Graph, h: Graph, ids: seq<Id>, row: nat, col: nat)
    requires g == h.(viewports := g.viewports) && SameGeometry(g.viewports, h.viewports)
    ensures FrontMost(g, ids, row, col, true) == FrontMost(h, ids, row, col, true)
  {
    if ids != [] {
      var id := ids[|ids| - 1];
      assert id in g.table && g.table[id] < |g.viewports| ==>
               SameRectangle(g.viewports[g.table[id]], h.viewports[g.table[id]]);
      SameFrontMost(g, h, ids[..|ids| - 1], row, col);
    }
  }

  /** Redrawing the viewports' contents, or scrolling them, keeps the z-buffer current. */
  lemma RedrawKeepsZBuffer(g: Graph, h: Graph, rows: nat, cols: nat, z: seq<Entry>)
    requires g == h.(viewports := g.viewports) && SameGeometry(g.viewports, h.viewports)
    ensures IsZBuffer(g, rows, cols, z) <==> IsZBuffer(h, rows, cols, z)
  {
    forall row: nat, col: nat ensures ZEntry(g, row, col) == ZEntry(h, row, col) {
      SameFrontMost(g, h, Flatten(g.hierarchy), row, col);
    }
  }

  /** A viewport's settings after an update, which also clears it. */
  function MergeUpdate(vp: Viewport, update: Viewport): Viewport {
    vp.(startRow := update.startRow, startCol := update.startCol, numRows := update.numRows,
        visible := update.visible, buff := CharBuff(update.buff.numCols, []))
  }

  /** A one-cell pane showing `behind`, and an empty one in front of it. */
  function TwoPanes(behind: Cell): Graph {
    Graph([Viewport(1, 0, 0, 1, 0, true, None, CharBuff(1, [behind])),
           Viewport(2, 0, 0, 1, 0, true, None, CharBuff(1, []))],
          map[1 := 0, 2 := 1], map[1 := (0, 0), 2 := (0, 0)], [[1, 2]])
  }

  /** The same after an update that hides the front pane. */
  function FrontHidden(behind: Cell): Graph {
    var g := TwoPanes(behind);
    g.(viewports := g.viewports[1 := MergeUpdate(g.viewports[1], g.viewports[1].(visible := false))])
  }

  /** The update leaves the old z-buffer in place: the frame still takes the hidden pane's blank cell,
      where a new z-buffer would show the one behind. */
  lemma HiddenPaneStillCovers(behind: Cell, g: Graph, h: Graph)
    requires behind.Fill? && g == TwoPanes(behind) && h == FrontHidden(behind)
    ensures IsZBuffer(g, 1, 1, [Pane(2)]) && !IsZBuffer(h, 1, 1, [Pane(2)]) && IsZBuffer(h, 1, 1, [Pane(1)])
    ensures Resolves(h, Pane(2)) && FrameCell(h, Pane(2), 0, 0) == Blank
    ensures Resolves(h, Pane(1)) && FrameCell(h, Pane(1), 0, 0) == behind
  {
    PanesHit(behind, g, h);
    PanesShow(behind, h);
    FreshEntries(g, h);
  }

  lemma PanesShow(behind: Cell, h: Graph)
    requires h == FrontHidden(behind)
    ensures Resolves(h, Pane(2)) && FrameCell(h, Pane(2), 0, 0) == Blank
    ensures Resolves(h, Pane(1)) && FrameCell(h, Pane(1), 0, 0) == behind
  {
    PaneAtCorner(h, 1, h.viewports[0]);
    PaneAtCorner(h, 2, h.viewports[1]);
  }

  lemma PaneAtCorner(g: Graph, id: Id, vp: Viewport)
    requires id in g.table && g.table[id] < |g.viewports| && g.viewports[g.table[id]] == vp
    requires id in g.offsets && g.offsets[id] == (0, 0)
    requires vp.startRow == 0 && vp.startCol == 0 && vp.numRows == 1 && vp.scroll == 0 && vp.buff.numCols == 1
    ensures Resolves(g, Pane(id))
    ensures FrameCell(g, Pane(id), 0, 0) == if vp.buff.cells == [] then Blank else vp.buff.cells[0]
  {
    CornerCell(vp);
  }

  lemma CornerCell(vp: Viewport)
    requires vp.startRow == 0 && vp.startCol == 0 && vp.numRows == 1 && vp.scroll == 0 && vp.buff.numCols == 1
    ensures PaneCell(vp, (0, 0), 0, 0) == if vp.buff.cells == [] then Blank else vp.buff.cells[0]
  {
    var corner := (SaturatingSub(0, 0), SaturatingSub(0, 0));
    assert TranslateCoordinate(vp, corner, 0, 0) == Some((0, 0));
    assert CellWithin(vp, 0, 0) == if vp.buff.cells == [] then Blank else vp.buff.cells[0];
  }

  lemma FreshEntries(g: Graph, h: Graph)
    requires g.hierarchy == h.hierarchy == [[1, 2]]
    requires Hits(g, 2, 0, 0, true) && !Hits(h, 2, 0, 0, true) && Hits(h, 1, 0, 0, true)
    ensures IsZBuffer(g, 1, 1, [Pane(2)]) && !IsZBuffer(h, 1, 1, [Pane(2)]) && IsZBuffer(h, 1, 1, [Pane(1)])
  {
    FrontOfTwo(g);
    FrontOfTwo(h);
    OneCell(g, Pane(2));
    OneCell(h, Pane(2));
    OneCell(h, Pane(1));
  }

  lemma PanesHit(behind: Cell, g: Graph, h: Graph)
    requires g == TwoPanes(behind) && h == FrontHidden(behind)
    ensures g.hierarchy == h.hierarchy == [[1, 2]]
    ensures Hits(g, 2, 0, 0, true) && !Hits(h, 2, 0, 0, true) && Hits(h, 1, 0, 0, true)
  {
  }

  lemma FrontOfTwo(g: Graph)
    requires g.hierarchy == [[1, 2]]
    ensures ZEntry(g, 0, 0)
         == if Hits(g, 2, 0, 0, true) then Pane(2) else if Hits(g, 1, 0, 0, true) then Pane(1) else RootPane
  {
    assert Flatten([[1, 2]][..0]) == [];
    assert Flatten([[1, 2]]) == [1] + [2];
    FrontMostSplits(g, [1], [2], 0, 0, true);
    FrontOfOne(g, 1);
    FrontOfOne(g, 2);
  }

  lemma FrontOfOne(g: Graph, id: Id)
    ensures FrontMost(g, [id], 0, 0, true) == if Hits(g, id, 0, 0, true) then Some(id) else None
  {
    assert FrontMost(g, [id][..0], 0, 0, true) == None;
  }

  lemma OneCell(g: Graph, entry: Entry)
    ensures IsZBuffer(g, 1, 1, [entry]) <==> entry == ZEntry(g, 0, 0)
  {
    assert [entry][0] == entry;
  }
}
