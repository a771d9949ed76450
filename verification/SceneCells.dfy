/** What stands where (src/ui/viewport.rs, src/ui/root.rs): the cell of a frame is the cell of the front-most
    viewport's own buffer that its place and scrolling put there, down to text printed in a pane. */
module SceneCells {
  import opened Prelude
  import opened Scanline
  import opened Scene
  import opened SceneFrame
  import opened SceneUpdate
  import opened WordWrap

  // ---------------------------------------------------------------- the front-most viewport

  /** A visible viewport whose rectangle, with its corner at its place, holds the position. */
  ghost predicate Covers(vps: Viewports, i: nat, row: nat, col: nat)
    requires Forest(vps) && i < |vps|
  {
    var (top, left) := Place(vps, i);
    vps[i].visible && top <= row < top + vps[i].numRows && left <= col < left + vps[i].buff.numCols
  }

  /** Viewport `i` covers the position, and every other one that does is less deep, or as deep and listed
      before it. */
  ghost predicate InFront(vps: Viewports, depths: seq<nat>, i: nat, row: nat, col: nat)
    requires Forest(vps) && |depths| == |vps|
  {
    && i < |vps| && Covers(vps, i, row, col)
    && forall j: nat | j < |vps| && j != i && Covers(vps, j, row, col) ::
         depths[j] < depths[i] || (depths[j] == depths[i] && j < i)
  }

  /** The cell of a viewport's buffer `row` rows and `col` columns from its corner, `scroll` rows further
      down; Blank past the viewport's rows or the end of the buffer. */
  ghost predicate IsPaneCell(vp: Viewport, row: nat, col: nat, cell: Cell) {
    var at := vp.buff.numCols * (row + vp.scroll) + col;
    if row + vp.scroll < vp.numRows && at < |vp.buff.cells| then cell == vp.buff.cells[at] else cell == Blank
  }

  lemma {:induction false} PaintedOnTop(vps: Viewports, order: seq<nat>, k: nat, row: nat, col: nat)
    requires Forest(vps) && k < |order| && forall m | 0 <= m < |order| :: order[m] < |vps|
    requires Covers(vps, order[k], row, col)
    requires forall m | k < m < |order| :: !Covers(vps, order[m], row, col)
    ensures
      var (top, left) := Place(vps, order[k]);
      IsPaneCell(vps[order[k]], row - top, col - left, Painting(vps, order, row, col))
  {
    var n := |order| - 1;
    if k < n {
      PaintedOnTop(vps, order[..n], k, row, col);
      assert !Covers(vps, order[n], row, col);
    }
  }

  lemma {:induction false} NothingPainted(vps: Viewports, order: seq<nat>, row: nat, col: nat)
    requires Forest(vps) && forall m | 0 <= m < |order| :: order[m] < |vps|
    requires forall m | 0 <= m < |order| :: !Covers(vps, order[m], row, col)
    ensures Painting(vps, order, row, col) == Blank
  {
    if order != [] {
      NothingPainted(vps, order[..|order| - 1], row, col);
      assert !Covers(vps, order[|order| - 1], row, col);
    }
  }

  lemma NoneLaterCovers(
      vps: Viewports, depths: seq<nat>, order: seq<nat>, k: nat, row: nat, col: nat)
    requires Forest(vps) && |depths| == |vps| && Ascending(depths, order) && k < |order|
    requires InFront(vps, depths, order[k], row, col)
    ensures forall m | k < m < |order| :: !Covers(vps, order[m], row, col)
  {
    forall m | k < m < |order| ensures !Covers(vps, order[m], row, col) {
      assert Behind(depths, order[k], order[m]);
    }
  }

  /** The order a graph is painted in. */
  lemma OrderOf(vps: Viewports, g: Graph, depths: seq<nat>, row: nat, col: nat) returns (order: seq<nat>)
    requires Forest(vps) && IsGraph(vps, g) && Recorded(vps, depths)
    ensures Ascending(depths, order) && forall m | 0 <= m < |order| :: order[m] < |vps|
    ensures Composite(vps, g, row, col) == Painting(vps, order, row, col)
    ensures forall i: nat | i < |vps| :: i in order
  {
    OrderIsKnown(vps, g);
    OrderAscends(vps, g, depths);
    var ids := Flatten(g.hierarchy);
    order := Indices(g, ids);
    FrontMostIsPainted(vps, g, ids, row, col);
    forall i: nat | i < |vps| ensures i in order {
      OrderHoldsAll(vps, g, vps[i].id);
      var k :| 0 <= k < |ids| && ids[k] == vps[i].id;
      assert order[k] == g.table[ids[k]];
      KnownStands(vps, g, ids[k]);
    }
  }

  lemma PositionOf(order: seq<nat>, i: nat) returns (k: nat)
    requires i in order
    ensures k < |order| && order[k] == i
  {
    k :| 0 <= k < |order| && order[k] == i;
  }

  lemma FrontIsPainted(vps: Viewports, depths: seq<nat>, order: seq<nat>, i: nat, row: nat, col: nat)
    requires Forest(vps) && |depths| == |vps| && Ascending(depths, order) && i in order
    requires InFront(vps, depths, i, row, col)
    ensures
      var (top, left) := Place(vps, i);
      IsPaneCell(vps[i], row - top, col - left, Painting(vps, order, row, col))
  {
    var k := PositionOf(order, i);
    NoneLaterCovers(vps, depths, order, k, row, col);
    PaintedOnTop(vps, order, k, row, col);
  }

  lemma CompositeOfFront(vps: Viewports, g: Graph, depths: seq<nat>, i: nat, row: nat, col: nat)
    requires Forest(vps) && IsGraph(vps, g) && Recorded(vps, depths)
    requires InFront(vps, depths, i, row, col)
    ensures
      var (top, left) := Place(vps, i);
      IsPaneCell(vps[i], row - top, col - left, Composite(vps, g, row, col))
  {
    var order := OrderOf(vps, g, depths, row, col);
    FrontIsPainted(vps, depths, order, i, row, col);
  }

  /** Wherever some viewport covers a position, one of them is in front. */
  lemma OneIsInFront(vps: Viewports, g: Graph, depths: seq<nat>, row: nat, col: nat, i: nat) returns (front: nat)
    requires Forest(vps) && IsGraph(vps, g) && Recorded(vps, depths)
    requires i < |vps| && Covers(vps, i, row, col)
    ensures InFront(vps, depths, front, row, col)
    ensures forall j: nat | InFront(vps, depths, j, row, col) :: j == front
  {
    var order := OrderOf(vps, g, depths, row, col);
    front := FrontOfOrder(vps, depths, order, row, col, i);
    OnlyFront(vps, depths, front, row, col);
  }

  lemma FrontOfOrder(vps: Viewports, depths: seq<nat>, order: seq<nat>, row: nat, col: nat, i: nat)
    returns (front: nat)
    requires Forest(vps) && |depths| == |vps| && Ascending(depths, order)
    requires forall j: nat | j < |vps| :: j in order
    requires i < |vps| && Covers(vps, i, row, col)
    ensures InFront(vps, depths, front, row, col)
  {
    var m := PositionOf(order, i);
    var k := LastCovering(vps, order, m, row, col);
    front := order[k];
    LastIsInFront(vps, depths, order, k, row, col);
  }

  lemma OnlyFront(vps: Viewports, depths: seq<nat>, front: nat, row: nat, col: nat)
    requires Forest(vps) && |depths| == |vps| && InFront(vps, depths, front, row, col)
    ensures forall j: nat | InFront(vps, depths, j, row, col) :: j == front
  {
    forall j: nat | InFront(vps, depths, j, row, col) ensures j == front {
      FrontIsUnique(vps, depths, j, front, row, col);
    }
  }

  lemma FrontIsUnique(vps: Viewports, depths: seq<nat>, i: nat, j: nat, row: nat, col: nat)
    requires Forest(vps) && |depths| == |vps|
    requires InFront(vps, depths, i, row, col) && InFront(vps, depths, j, row, col)
    ensures i == j
  {
  }

  lemma LastIsInFront(vps: Viewports, depths: seq<nat>, order: seq<nat>, k: nat, row: nat, col: nat)
    requires Forest(vps) && |depths| == |vps| && Ascending(depths, order) && k < |order|
    requires forall i: nat | i < |vps| :: i in order
    requires Covers(vps, order[k], row, col)
    requires forall l | k < l < |order| :: !Covers(vps, order[l], row, col)
    ensures InFront(vps, depths, order[k], row, col)
  {
    forall j: nat | j < |vps| && j != order[k] && Covers(vps, j, row, col)
      ensures depths[j] < depths[order[k]] || (depths[j] == depths[order[k]] && j < order[k])
    {
      var l := PositionOf(order, j);
      assert Behind(depths, order[l], order[k]);
    }
  }

  lemma {:induction false} LastCovering(vps: Viewports, order: seq<nat>, m: nat, row: nat, col: nat) returns (k: nat)
    requires Forest(vps) && m < |order| && forall l | 0 <= l < |order| :: order[l] < |vps|
    requires Covers(vps, order[m], row, col)
    ensures k < |order| && Covers(vps, order[k], row, col)
    ensures forall l | k < l < |order| :: !Covers(vps, order[l], row, col)
    decreases |order| - m
  {
    if l :| m < l < |order| && Covers(vps, order[l], row, col) {
      k := LastCovering(vps, order, l, row, col);
    } else {
      k := m;
    }
  }

  lemma CompositeOfNone(vps: Viewports, g: Graph, row: nat, col: nat)
    requires Forest(vps) && IsGraph(vps, g)
    requires forall i: nat | i < |vps| :: !Covers(vps, i, row, col)
    ensures Composite(vps, g, row, col) == Blank
  {
    OrderIsKnown(vps, g);
    FrontMostIsPainted(vps, g, Flatten(g.hierarchy), row, col);
    NothingPainted(vps, Indices(g, Flatten(g.hierarchy)), row, col);
  }

  lemma CellOfFrame(vps: Viewports, g: Graph, rows: nat, frame: CharBuff, row: nat, col: nat, i: nat)
    requires Forest(vps) && IsGraph(vps, g) && IsFrame(vps, g, rows, frame)
    requires row < rows && col < frame.numCols && i == row * frame.numCols + col
    ensures i < |frame.cells| && frame.cells[i] == Composite(vps, g, row, col)
  {
    RowFits(row, rows, col, frame.numCols);
    CellIndex(row, col, frame.numCols);
    FrameCellAt(vps, g, rows, frame, i, row, col);
  }

  /** Every position of a frame holds the cell that the viewport in front there has for it, and is Blank
      where no visible viewport is. */
  lemma FrameShowsFrontMost(
      vps: Viewports, g: Graph, depths: seq<nat>, rows: nat, frame: CharBuff, row: nat, col: nat, at: nat)
    requires Forest(vps) && IsGraph(vps, g) && Recorded(vps, depths)
    requires IsFrame(vps, g, rows, frame)
    requires row < rows && col < frame.numCols && at == row * frame.numCols + col
    ensures at < |frame.cells|
    ensures forall i: nat | InFront(vps, depths, i, row, col) ::
              var (top, left) := Place(vps, i);
              IsPaneCell(vps[i], row - top, col - left, frame.cells[at])
    ensures (forall i: nat | i < |vps| :: !Covers(vps, i, row, col)) ==> frame.cells[at] == Blank
  {
    CellOfFrame(vps, g, rows, frame, row, col, at);
    forall i: nat | InFront(vps, depths, i, row, col)
      ensures
        var (top, left) := Place(vps, i);
        IsPaneCell(vps[i], row - top, col - left, frame.cells[at])
    {
      CompositeOfFront(vps, g, depths, i, row, col);
    }
    if forall i: nat | i < |vps| :: !Covers(vps, i, row, col) {
      CompositeOfNone(vps, g, row, col);
    }
  }

  // ---------------------------------------------------------------- from text to the screen

  /** What a character is shown as: control characters are replaced. */
  function Shown(style: Style, c: char): char {
    if c <= '\U{1F}' || style.control(c) then '\U{FFFD}' else c
  }

  lemma PrintedCell(style: Style, before: seq<Cell>, offset: nat, text: Text, cells: seq<Cell>, t: nat)
    requires Overlaid(style, before, offset, text, cells) && t < |text|
    ensures offset + t < |cells|
    ensures cells[offset + t] == Fill(Shown(style, text[t]), style.bg, style.fg, style.elementId)
  {
    assert At(cells, offset + t) == Ink(style, text[t]);
  }

  lemma PaneCellOfText(
      style: Style, vp: Viewport, before: seq<Cell>, r: nat, c: nat, text: Text, t: nat, row: nat, cell: Cell)
    requires Overlaid(style, before, vp.buff.numCols * r + c, text, vp.buff.cells) && t < |text|
    requires vp.scroll <= r < vp.numRows && row == r - vp.scroll
    requires IsPaneCell(vp, row, c + t, cell)
    ensures cell == Fill(Shown(style, text[t]), style.bg, style.fg, style.elementId)
  {
    PrintedCell(style, before, vp.buff.numCols * r + c, text, vp.buff.cells, t);
    assert row + vp.scroll == r;
  }

  /** Character `t` of a text that was printed at row `r` and column `c` of the buffer of pane `i` belongs at
      this position: the pane's place and scrolling are added. */
  ghost predicate Lands(
      vps: Viewports, i: nat, style: Style, before: seq<Cell>, r: nat, c: nat, text: Text, t: nat, row: nat, col: nat)
    requires Forest(vps) && i < |vps|
  {
    var vp, (top, left) := vps[i], Place(vps, i);
    && Overlaid(style, before, vp.buff.numCols * r + c, text, vp.buff.cells) && t < |text|
    && vp.scroll <= r < vp.numRows && row == top + r - vp.scroll && col == left + c + t
  }

  lemma LandedCell(
      vps: Viewports, i: nat, style: Style, before: seq<Cell>, r: nat, c: nat, text: Text, t: nat, row: nat, col: nat,
      cell: Cell)
    requires Forest(vps) && i < |vps| && Lands(vps, i, style, before, r, c, text, t, row, col)
    requires Covers(vps, i, row, col)
    requires IsPaneCell(vps[i], row - Place(vps, i).0, col - Place(vps, i).1, cell)
    ensures cell == Fill(Shown(style, text[t]), style.bg, style.fg, style.elementId)
  {
    PaneCellOfText(style, vps[i], before, r, c, text, t, row - Place(vps, i).0, cell);
  }

  /** There, if the pane is in front, the character stands in the frame, in its own colours. */
  lemma TextStandsInFrame(
      vps: Viewports, g: Graph, depths: seq<nat>, rows: nat, frame: CharBuff, i: nat,
      style: Style, before: seq<Cell>, r: nat, c: nat, text: Text, t: nat, row: nat, col: nat, at: nat)
    requires Forest(vps) && IsGraph(vps, g) && Recorded(vps, depths) && IsFrame(vps, g, rows, frame)
    requires row < rows && col < frame.numCols && at == row * frame.numCols + col
    requires InFront(vps, depths, i, row, col) && Lands(vps, i, style, before, r, c, text, t, row, col)
    ensures at < |frame.cells|
    ensures frame.cells[at] == Fill(Shown(style, text[t]), style.bg, style.fg, style.elementId)
  {
    FrameShowsFrontMost(vps, g, depths, rows, frame, row, col, at);
    LandedCell(vps, i, style, before, r, c, text, t, row, col, frame.cells[at]);
  }

  /** A filled cell of a frame is its character on the terminal, in its foreground on its background. */
  lemma CellOnScreen(frame: CharBuff, terminal: Terminal, row: nat, col: nat, at: nat, cell: Cell)
    requires col < frame.numCols && at == row * frame.numCols + col && at < |frame.cells|
    requires frame.cells[at] == cell && cell.Fill?
    requires terminal.col == 0 && terminal.fg == None && terminal.bg == None
    ensures (terminal.row + row, col) in Run(terminal, Program(frame)).screen.glyphs
    ensures Run(terminal, Program(frame)).screen.glyphs[(terminal.row + row, col)]
         == Glyph(cell.value, Some(cell.fg), Some(cell.bg))
  {
    GlyphOnScreen(frame, terminal, row, col, at);
  }

  /** And on the terminal, once the frame is compiled and run. */
  lemma TextReachesTheScreen(
      vps: Viewports, g: Graph, depths: seq<nat>, rows: nat, frame: CharBuff, i: nat,
      style: Style, before: seq<Cell>, r: nat, c: nat, text: Text, t: nat, row: nat, col: nat, at: nat,
      terminal: Terminal)
    requires Forest(vps) && IsGraph(vps, g) && Recorded(vps, depths) && IsFrame(vps, g, rows, frame)
    requires row < rows && col < frame.numCols && at == row * frame.numCols + col
    requires InFront(vps, depths, i, row, col) && Lands(vps, i, style, before, r, c, text, t, row, col)
    requires terminal.col == 0 && terminal.fg == None && terminal.bg == None
    ensures (terminal.row + row, col) in Run(terminal, Program(frame)).screen.glyphs
    ensures Run(terminal, Program(frame)).screen.glyphs[(terminal.row + row, col)]
         == Glyph(Shown(style, text[t]), Some(style.fg), Some(style.bg))
  {
    TextStandsInFrame(vps, g, depths, rows, frame, i, style, before, r, c, text, t, row, col, at);
    CellOnScreen(frame, terminal, row, col, at, Fill(Shown(style, text[t]), style.bg, style.fg, style.elementId));
  }
}
