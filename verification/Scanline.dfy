/** The scanline compiler (src/ui/scanline.rs): a grid of coloured cells becomes terminal commands that
    avoid redundant colour changes.  A small terminal gives the commands a meaning, and compiling
    preserves the meaning of the grid, whole or row by row. */
module Scanline {
  import opened Prelude

  type u8 = n: nat | n < 256
  datatype Color = Color(r: u8, g: u8, b: u8)
  datatype Cell = Blank | Fill(value: char, bg: Color, fg: Color, elementId: nat)
  datatype CharBuff = CharBuff(numCols: nat, cells: seq<Cell>)

  datatype Command =
    | FgColor(c: Color)
    | BgColor(c: Color)
    | Text(s: seq<char>)
    | Newline
    | ClearLine
    | ResetColor

  // ---------------------------------------------------------------- the terminal

  /** What is shown at a position; no colour means the terminal's default. */
  datatype Glyph = Glyph(ch: char, fg: Option<Color>, bg: Option<Color>)

  /** What has been written, and with which background each cleared line was cleared. */
  datatype Screen = Screen(glyphs: map<(int, int), Glyph>, backdrop: map<int, Option<Color>>)

  datatype Terminal = Terminal(row: int, col: int, fg: Option<Color>, bg: Option<Color>, screen: Screen)

  function EraseRow(s: Screen, row: int, bg: Option<Color>): Screen {
    Screen(map p | p in s.glyphs && p.0 != row :: s.glyphs[p], s.backdrop[row := bg])
  }

  function WriteChar(t: Terminal, ch: char): Terminal {
    t.(col := t.col + 1, screen := t.screen.(glyphs := t.screen.glyphs[(t.row, t.col) := Glyph(ch, t.fg, t.bg)]))
  }

  function WriteText(t: Terminal, s: seq<char>): Terminal {
    if s == [] then t else WriteChar(WriteText(t, s[..|s| - 1]), s[|s| - 1])
  }

  function Execute(t: Terminal, cmd: Command): Terminal {
    match cmd
    case FgColor(c) => t.(fg := Some(c))
    case BgColor(c) => t.(bg := Some(c))
    case Text(s) => WriteText(t, s)
    case Newline => t.(row := t.row + 1, col := 0)
    case ClearLine => t.(screen := EraseRow(t.screen, t.row, t.bg))
    case ResetColor => t.(fg := None, bg := None)
  }

  function Run(t: Terminal, cmds: seq<Command>): Terminal {
    if cmds == [] then t else Execute(Run(t, cmds[..|cmds| - 1]), cmds[|cmds| - 1])
  }

  // ---------------------------------------------------------------- the compiler

  datatype Compiling = Compiling(
    cmds: seq<Command>, fg: Option<Color>, bg: Option<Color>, str: seq<char>, inBlank: bool)
  {
    function Emit(c: Command): Compiling {
      this.(cmds := cmds + [c])
    }

    function FinishString(): Compiling {
      if str == [] then this else this.(cmds := cmds + [Text(str)], str := [])
    }

    function BreakLine(): Compiling {
      Emit(Newline).Emit(ResetColor)
    }

    /** Clears the new line and carries the current colours over. */
    function OpenRow(): Compiling {
      var a := Emit(ClearLine);
      var b := if fg.Some? then a.Emit(FgColor(fg.value)) else a;
      if bg.Some? then b.Emit(BgColor(bg.value)) else b
    }

    function StartRow(first: bool): Compiling {
      (if first then FinishString() else FinishString().BreakLine()).OpenRow()
    }

    function BlankCell(): Compiling {
      var a := if inBlank then this else this.(inBlank := true).FinishString().Emit(ResetColor);
      a.(str := a.str + [' '], fg := None, bg := None)
    }

    function SetFg(c: Color): Compiling {
      if fg == Some(c) then this else FinishString().Emit(FgColor(c)).(fg := Some(c))
    }

    function SetBg(c: Color): Compiling {
      if bg == Some(c) then this else FinishString().Emit(BgColor(c)).(bg := Some(c))
    }

    function FillCell(value: char, newFg: Color, newBg: Color): Compiling {
      var a := if inBlank then FinishString().(inBlank := false) else this;
      var b := a.SetFg(newFg).SetBg(newBg);
      b.(str := b.str + [value])
    }

    function Add(cell: Cell): Compiling {
      match cell
      case Blank => BlankCell()
      case Fill(value, newBg, newFg, _) => FillCell(value, newFg, newBg)
    }
  }

  const START := Compiling([], None, None, [], true)

  /** The compiler's state after the first `i` cells. */
  function Prefix(buff: CharBuff, i: nat): Compiling
    requires buff.numCols > 0 && i <= |buff.cells|
  {
    if i == 0 then START
    else
      var before := Prefix(buff, i - 1);
      (if (i - 1) % buff.numCols == 0 then before.StartRow(i == 1) else before).Add(buff.cells[i - 1])
  }

  function Program(buff: CharBuff): seq<Command>
    requires buff.cells != [] ==> buff.numCols > 0
  {
    if buff.cells == [] then START.FinishString().Emit(ResetColor).cmds
    else Prefix(buff, |buff.cells|).FinishString().Emit(ResetColor).cmds
  }

  /** The row a command after these belongs to. */
  function Rows(cmds: seq<Command>): nat {
    if cmds == [] then 0 else Rows(cmds[..|cmds| - 1]) + (if cmds[|cmds| - 1].Newline? then 1 else 0)
  }

  predicate Within(row: nat, s: nat, n: nat) {
    s <= row < s + n
  }

  /** The commands that belong to rows `s` to `s + n - 1`. */
  function InRange(cmds: seq<Command>, s: nat, n: nat): seq<Command> {
    if cmds == [] then []
    else
      var most := cmds[..|cmds| - 1];
      InRange(most, s, n) + (if Within(Rows(most), s, n) then [cmds[|cmds| - 1]] else [])
  }

  function CompileRows(buff: CharBuff, s: nat, n: nat): seq<Command>
    requires buff.cells != [] ==> buff.numCols > 0
  {
    InRange(Program(buff), s, n)
  }

  // ---------------------------------------------------------------- what the grid means

  function GlyphOf(cell: Cell): Glyph {
    match cell
    case Blank => Glyph(' ', None, None)
    case Fill(value, bg, fg, _) => Glyph(value, Some(fg), Some(bg))
  }

  /** Paints the cells from row `s` up to cell `hi` directly, with row `s` shown at row `top`: each row
      is cleared to the default background, then every cell gets its own glyph. */
  function Painted(screen: Screen, top: int, buff: CharBuff, s: nat, hi: nat): Screen
    requires buff.numCols > 0 && hi <= |buff.cells|
  {
    if hi <= s * buff.numCols then screen
    else
      var k := hi - 1;
      var before := Painted(screen, top, buff, s, k);
      var row := top + k / buff.numCols - s;
      var cleared := if k % buff.numCols == 0 then EraseRow(before, row, None) else before;
      cleared.(glyphs := cleared.glyphs[(row, k % buff.numCols) := GlyphOf(buff.cells[k])])
  }

  // ---------------------------------------------------------------- running a compilation in progress

  /** The terminal after the commands in range so far, pending text included. */
  function View(st: Compiling, t: Terminal, s: nat, n: nat): Terminal {
    var done := Run(t, InRange(st.cmds, s, n));
    if Within(Rows(st.cmds), s, n) then WriteText(done, st.str) else done
  }

  lemma EmitView(st: Compiling, c: Command, t: Terminal, s: nat, n: nat)
    requires st.str == []
    ensures View(st.Emit(c), t, s, n)
         == if Within(Rows(st.cmds), s, n) then Execute(View(st, t, s, n), c) else View(st, t, s, n)
    ensures Rows(st.Emit(c).cmds) == Rows(st.cmds) + (if c.Newline? then 1 else 0)
    ensures st.Emit(c).str == []
  {
    var cmds := st.cmds + [c];
    assert cmds[..|cmds| - 1] == st.cmds;
    var kept := InRange(st.cmds, s, n);
    assert (kept + [c])[..|kept|] == kept;
    assert kept + [] == kept;
  }

  lemma FinishView(st: Compiling, t: Terminal, s: nat, n: nat)
    ensures View(st.FinishString(), t, s, n) == View(st, t, s, n)
    ensures Rows(st.FinishString().cmds) == Rows(st.cmds)
    ensures st.FinishString().str == []
  {
    if st.str != [] {
      EmitView(st.(str := []), Text(st.str), t, s, n);
    }
  }

  lemma PushView(st: Compiling, ch: char, t: Terminal, s: nat, n: nat)
    ensures View(st.(str := st.str + [ch]), t, s, n)
         == if Within(Rows(st.cmds), s, n) then WriteChar(View(st, t, s, n), ch) else View(st, t, s, n)
  {
    assert (st.str + [ch])[..|st.str|] == st.str;
  }

  /** The compiler's own record of the colours. */
  ghost predicate Bookkept(st: Compiling) {
    st.inBlank == st.fg.None? == st.bg.None?
  }

  /** The terminal's colours are the recorded ones. */
  ghost predicate InSync(st: Compiling, v: Terminal) {
    v.fg == st.fg && v.bg == st.bg
  }

  lemma BlankView(st: Compiling, t: Terminal, s: nat, n: nat)
    requires Bookkept(st) && Within(Rows(st.cmds), s, n) && InSync(st, View(st, t, s, n))
    ensures
      var after := st.BlankCell();
      && Bookkept(after) && Rows(after.cmds) == Rows(st.cmds)
      && View(after, t, s, n) == WriteChar(View(st, t, s, n).(fg := None, bg := None), ' ')
      && InSync(after, View(after, t, s, n))
  {
    var a := if st.inBlank then st else st.(inBlank := true).FinishString().Emit(ResetColor);
    if !st.inBlank {
      ResetView(st.(inBlank := true), t, s, n);
    }
    PushView(a, ' ', t, s, n);
  }

  lemma ResetView(st: Compiling, t: Terminal, s: nat, n: nat)
    requires Within(Rows(st.cmds), s, n)
    ensures
      var after := st.FinishString().Emit(ResetColor);
      && after == st.(cmds := after.cmds, str := []) && Rows(after.cmds) == Rows(st.cmds)
      && View(after, t, s, n) == View(st, t, s, n).(fg := None, bg := None)
  {
    FinishView(st, t, s, n);
    EmitView(st.FinishString(), ResetColor, t, s, n);
  }

  lemma SetFgView(st: Compiling, c: Color, t: Terminal, s: nat, n: nat)
    requires Within(Rows(st.cmds), s, n) && View(st, t, s, n).fg == st.fg
    ensures
      var after := st.SetFg(c);
      && Rows(after.cmds) == Rows(st.cmds) && after.bg == st.bg && after.inBlank == st.inBlank && after.fg == Some(c)
      && View(after, t, s, n) == View(st, t, s, n).(fg := Some(c))
  {
    if st.fg != Some(c) {
      FinishView(st, t, s, n);
      EmitView(st.FinishString(), FgColor(c), t, s, n);
    }
  }

  lemma SetBgView(st: Compiling, c: Color, t: Terminal, s: nat, n: nat)
    requires Within(Rows(st.cmds), s, n) && View(st, t, s, n).bg == st.bg
    ensures
      var after := st.SetBg(c);
      && Rows(after.cmds) == Rows(st.cmds) && after.fg == st.fg && after.inBlank == st.inBlank && after.bg == Some(c)
      && View(after, t, s, n) == View(st, t, s, n).(bg := Some(c))
  {
    if st.bg != Some(c) {
      FinishView(st, t, s, n);
      EmitView(st.FinishString(), BgColor(c), t, s, n);
    }
  }

  lemma FillView(st: Compiling, value: char, fg: Color, bg: Color, t: Terminal, s: nat, n: nat)
    requires Bookkept(st) && Within(Rows(st.cmds), s, n) && InSync(st, View(st, t, s, n))
    ensures
      var after := st.FillCell(value, fg, bg);
      && Bookkept(after) && Rows(after.cmds) == Rows(st.cmds)
      && View(after, t, s, n) == WriteChar(View(st, t, s, n).(fg := Some(fg), bg := Some(bg)), value)
      && InSync(after, View(after, t, s, n))
  {
    var a := if st.inBlank then st.FinishString().(inBlank := false) else st;
    FinishView(st, t, s, n);
    assert View(a, t, s, n) == View(st, t, s, n);
    SetFgView(a, fg, t, s, n);
    SetBgView(a.SetFg(fg), bg, t, s, n);
    PushView(a.SetFg(fg).SetBg(bg), value, t, s, n);
  }

  /** In range, a cell writes its own glyph at the cursor and keeps the colours in sync. */
  lemma CellView(st: Compiling, cell: Cell, t: Terminal, s: nat, n: nat)
    requires Bookkept(st) && Within(Rows(st.cmds), s, n) && InSync(st, View(st, t, s, n))
    ensures
      var v, after := View(st, t, s, n), st.Add(cell);
      var v' := View(after, t, s, n);
      && Bookkept(after) && Rows(after.cmds) == Rows(st.cmds) && InSync(after, v')
      && v'.row == v.row && v'.col == v.col + 1
      && v'.screen == v.screen.(glyphs := v.screen.glyphs[(v.row, v.col) := GlyphOf(cell)])
  {
    match cell
    case Blank => BlankView(st, t, s, n);
    case Fill(value, bg, fg, _) => FillView(st, value, fg, bg, t, s, n);
  }

  // ---------------------------------------------------------------- out of range

  lemma EmitSilent(st: Compiling, c: Command, t: Terminal, s: nat, n: nat)
    requires !Within(Rows(st.cmds), s, n)
    ensures Run(t, InRange(st.Emit(c).cmds, s, n)) == Run(t, InRange(st.cmds, s, n))
    ensures Rows(st.Emit(c).cmds) == Rows(st.cmds) + (if c.Newline? then 1 else 0)
  {
    var cmds := st.cmds + [c];
    assert cmds[..|cmds| - 1] == st.cmds;
    assert InRange(st.cmds, s, n) + [] == InRange(st.cmds, s, n);
  }

  lemma FinishSilent(st: Compiling, t: Terminal, s: nat, n: nat)
    requires !Within(Rows(st.cmds), s, n)
    ensures View(st.FinishString(), t, s, n) == View(st, t, s, n)
    ensures Rows(st.FinishString().cmds) == Rows(st.cmds)
  {
    if st.str != [] {
      EmitSilent(st.(str := []), Text(st.str), t, s, n);
    }
  }

  /** Out of range, a cell leaves the terminal alone; the bookkeeping goes on. */
  lemma CellSilent(st: Compiling, cell: Cell, t: Terminal, s: nat, n: nat)
    requires Bookkept(st) && !Within(Rows(st.cmds), s, n)
    ensures
      var after := st.Add(cell);
      Bookkept(after) && Rows(after.cmds) == Rows(st.cmds) && View(after, t, s, n) == View(st, t, s, n)
  {
    match cell
    case Blank =>
      if !st.inBlank {
        var a := st.(inBlank := true);
        FinishSilent(a, t, s, n);
        EmitSilent(a.FinishString(), ResetColor, t, s, n);
      }
    case Fill(value, bg, fg, _) =>
      var a := if st.inBlank then st.FinishString().(inBlank := false) else st;
      FinishSilent(st, t, s, n);
      SetFgSilent(a, fg, t, s, n);
      SetBgSilent(a.SetFg(fg), bg, t, s, n);
  }

  lemma SetFgSilent(st: Compiling, c: Color, t: Terminal, s: nat, n: nat)
    requires !Within(Rows(st.cmds), s, n)
    ensures
      var after := st.SetFg(c);
      && Rows(after.cmds) == Rows(st.cmds) && after.bg == st.bg && after.inBlank == st.inBlank && after.fg == Some(c)
      && View(after, t, s, n) == View(st, t, s, n)
  {
    if st.fg != Some(c) {
      FinishSilent(st, t, s, n);
      EmitSilent(st.FinishString(), FgColor(c), t, s, n);
    }
  }

  lemma SetBgSilent(st: Compiling, c: Color, t: Terminal, s: nat, n: nat)
    requires !Within(Rows(st.cmds), s, n)
    ensures
      var after := st.SetBg(c);
      && Rows(after.cmds) == Rows(st.cmds) && after.fg == st.fg && after.inBlank == st.inBlank && after.bg == Some(c)
      && View(after, t, s, n) == View(st, t, s, n)
  {
    if st.bg != Some(c) {
      FinishSilent(st, t, s, n);
      EmitSilent(st.FinishString(), BgColor(c), t, s, n);
    }
  }

  // ---------------------------------------------------------------- starting rows

  /** A row boundary: the newline counts for the old row, the colour reset for the new one. */
  ghost function Broken(v: Terminal, row: nat, s: nat, n: nat): Terminal {
    var moved := if Within(row, s, n) then v.(row := v.row + 1, col := 0) else v;
    if Within(row + 1, s, n) then moved.(fg := None, bg := None) else moved
  }

  lemma BreakLineView(st: Compiling, t: Terminal, s: nat, n: nat)
    requires st.str == []
    ensures
      var after := st.BreakLine();
      && after == st.(cmds := after.cmds) && Rows(after.cmds) == Rows(st.cmds) + 1
      && View(after, t, s, n) == Broken(View(st, t, s, n), Rows(st.cmds), s, n)
  {
    EmitView(st, Newline, t, s, n);
    EmitView(st.Emit(Newline), ResetColor, t, s, n);
  }

  /** A row opened on default colours is cleared to the default and gets the recorded colours. */
  lemma OpenRowView(st: Compiling, t: Terminal, s: nat, n: nat)
    requires st.str == [] && Within(Rows(st.cmds), s, n)
    requires View(st, t, s, n).fg == None && View(st, t, s, n).bg == None
    ensures
      var v, after := View(st, t, s, n), st.OpenRow();
      && after == st.(cmds := after.cmds) && Rows(after.cmds) == Rows(st.cmds)
      && View(after, t, s, n) == v.(screen := EraseRow(v.screen, v.row, None), fg := st.fg, bg := st.bg)
  {
    EmitView(st, ClearLine, t, s, n);
    var a := st.Emit(ClearLine);
    if st.fg.Some? {
      EmitView(a, FgColor(st.fg.value), t, s, n);
    }
    var b := if st.fg.Some? then a.Emit(FgColor(st.fg.value)) else a;
    if st.bg.Some? {
      EmitView(b, BgColor(st.bg.value), t, s, n);
    }
  }

  lemma OpenRowSilent(st: Compiling, t: Terminal, s: nat, n: nat)
    requires st.str == [] && !Within(Rows(st.cmds), s, n)
    ensures
      var after := st.OpenRow();
      && after == st.(cmds := after.cmds) && Rows(after.cmds) == Rows(st.cmds)
      && View(after, t, s, n) == View(st, t, s, n)
  {
    EmitSilent(st, ClearLine, t, s, n);
    var a := st.Emit(ClearLine);
    if st.fg.Some? {
      EmitSilent(a, FgColor(st.fg.value), t, s, n);
    }
    var b := if st.fg.Some? then a.Emit(FgColor(st.fg.value)) else a;
    if st.bg.Some? {
      EmitSilent(b, BgColor(st.bg.value), t, s, n);
    }
  }

  // ---------------------------------------------------------------- the simulation

  lemma {:induction false} MulAtLeast(d: nat, n: nat)
    requires d >= 1
    ensures d * n >= n
  {
    if d > 1 {
      MulAtLeast(d - 1, n);
      assert d * n == (d - 1) * n + n;
    }
  }

  lemma SameQuotient(n: nat, q: nat, m: nat, p: nat, l: nat)
    requires m < n && l < n && q * n + m == p * n + l
    ensures q == p && m == l
  {
    if q < p {
      MulAtLeast(p - q, n);
    } else if p < q {
      MulAtLeast(q - p, n);
    }
  }

  lemma DivMod(k: nat, n: nat, q: nat, m: nat)
    requires n > 0 && k == q * n + m && m < n
    ensures k / n == q && k % n == m
  {
    assert k == (k / n) * n + k % n;
    SameQuotient(n, q, m, k / n, k % n);
  }

  lemma NextPosition(k: nat, n: nat)
    requires k > 0 && n > 0
    ensures k % n == 0 ==> k / n == (k - 1) / n + 1
    ensures k % n != 0 ==> k / n == (k - 1) / n && k % n == (k - 1) % n + 1
  {
    var q, m := (k - 1) / n, (k - 1) % n;
    assert k - 1 == q * n + m;
    if m + 1 < n {
      DivMod(k, n, q, m + 1);
    } else {
      assert k == (q + 1) * n + 0;
      DivMod(k, n, q + 1, 0);
    }
  }

  /** The row being compiled after `i` cells. */
  function CurrentRow(buff: CharBuff, i: nat): nat
    requires buff.numCols > 0
  {
    if i == 0 then 0 else (i - 1) / buff.numCols
  }

  function CurrentCol(buff: CharBuff, i: nat): nat
    requires buff.numCols > 0
  {
    if i == 0 then 0 else (i - 1) % buff.numCols + 1
  }

  /** A slice of the whole program may start on any colours; a slice with row 0 needs the defaults. */
  predicate Ready(t: Terminal, s: nat) {
    t.col == 0 && (s == 0 ==> t.fg == None && t.bg == None)
  }

  /** After `i` cells, the terminal shows the cells in range so far. */
  ghost predicate Tracks(buff: CharBuff, i: nat, st: Compiling, v: Terminal, t: Terminal, s: nat, n: nat)
    requires buff.numCols > 0 && i <= |buff.cells|
  {
    var row := CurrentRow(buff, i);
    && Bookkept(st) && Rows(st.cmds) == row
    && (row < s ==> v == t)
    && (Within(row, s, n) ==>
          && InSync(st, v) && v.row == t.row + row - s && v.col == CurrentCol(buff, i)
          && v.screen == Painted(t.screen, t.row, buff, s, i))
    && (s + n <= row ==> v.row == t.row + n && v.col == 0 && v.screen == PaintedRows(buff, t, s, n))
  }

  ghost predicate Faithful(buff: CharBuff, i: nat, t: Terminal, s: nat, n: nat)
    requires buff.numCols > 0 && i <= |buff.cells|
  {
    Tracks(buff, i, Prefix(buff, i), View(Prefix(buff, i), t, s, n), t, s, n)
  }

  /** The end of the first `n` rows from row `s`, or of the cells. */
  function SliceEnd(buff: CharBuff, s: nat, n: nat): (r: nat)
    ensures r <= |buff.cells|
  {
    Min((s + n) * buff.numCols, |buff.cells|)
  }

  /** The first `n` rows from row `s`, or as many as there are. */
  function PaintedRows(buff: CharBuff, t: Terminal, s: nat, n: nat): Screen
    requires buff.numCols > 0
  {
    Painted(t.screen, t.row, buff, s, SliceEnd(buff, s, n))
  }

  /** Adding a cell where the cursor stands, the row being open. */
  lemma AddFaithful(buff: CharBuff, i: nat, ready: Compiling, t: Terminal, s: nat, n: nat)
    requires buff.numCols > 0 && i < |buff.cells| && Prefix(buff, i + 1) == ready.Add(buff.cells[i])
    requires RowOpen(buff, i, ready, View(ready, t, s, n), t, s, n)
    ensures Faithful(buff, i + 1, t, s, n)
  {
    var after := ready.Add(buff.cells[i]);
    var v, v' := View(ready, t, s, n), View(after, t, s, n);
    if Within(i / buff.numCols, s, n) {
      CellView(ready, buff.cells[i], t, s, n);
      AddInRange(buff, i, ready, after, v, v', t, s, n);
    } else {
      CellSilent(ready, buff.cells[i], t, s, n);
      AddOutOfRange(buff, i, ready, after, v, t, s, n);
    }
  }

  lemma AddInRange(
      buff: CharBuff, i: nat, ready: Compiling, after: Compiling,
      v: Terminal, v': Terminal, t: Terminal, s: nat, n: nat)
    requires buff.numCols > 0 && i < |buff.cells| && RowOpen(buff, i, ready, v, t, s, n)
    requires Within(i / buff.numCols, s, n)
    requires Bookkept(after) && Rows(after.cmds) == Rows(ready.cmds) && InSync(after, v')
    requires v'.row == v.row && v'.col == v.col + 1
    requires v'.screen == v.screen.(glyphs := v.screen.glyphs[(v.row, v.col) := GlyphOf(buff.cells[i])])
    ensures Tracks(buff, i + 1, after, v', t, s, n)
  {
    PaintedStep(buff, i, t, s);
  }

  lemma AddOutOfRange(
      buff: CharBuff, i: nat, ready: Compiling, after: Compiling, v: Terminal, t: Terminal, s: nat, n: nat)
    requires buff.numCols > 0 && i < |buff.cells| && RowOpen(buff, i, ready, v, t, s, n)
    requires !Within(i / buff.numCols, s, n)
    requires Bookkept(after) && Rows(after.cmds) == Rows(ready.cmds)
    ensures Tracks(buff, i + 1, after, v, t, s, n)
  {
  }

  lemma PaintedStep(buff: CharBuff, i: nat, t: Terminal, s: nat)
    requires buff.numCols > 0 && i < |buff.cells| && s <= i / buff.numCols
    ensures
      var row := t.row + i / buff.numCols - s;
      var before := Painted(t.screen, t.row, buff, s, i);
      var cleared := if i % buff.numCols == 0 then EraseRow(before, row, None) else before;
      Painted(t.screen, t.row, buff, s, i + 1)
      == cleared.(glyphs := cleared.glyphs[(row, i % buff.numCols) := GlyphOf(buff.cells[i])])
  {
    InRowRange(i, buff.numCols, s);
  }

  lemma {:induction false} MulMonotone(s: nat, q: nat, n: nat)
    requires s <= q
    ensures s * n <= q * n
  {
    if s < q {
      MulMonotone(s, q - 1, n);
      assert q * n == (q - 1) * n + n;
    }
  }

  lemma InRowRange(i: nat, n: nat, s: nat)
    requires n > 0 && s <= i / n
    ensures s * n <= i
  {
    MulMonotone(s, i / n, n);
    assert i == (i / n) * n + i % n;
  }

  /** What holds just before cell `i` is added, its row being open. */
  ghost predicate RowOpen(buff: CharBuff, i: nat, ready: Compiling, v: Terminal, t: Terminal, s: nat, n: nat)
    requires buff.numCols > 0 && i < |buff.cells|
  {
    var row := i / buff.numCols;
    && Bookkept(ready) && Rows(ready.cmds) == row
    && (row < s ==> v == t)
    && (Within(row, s, n) ==>
          && InSync(ready, v) && v.row == t.row + row - s && v.col == i % buff.numCols
          && v.screen == (var p := Painted(t.screen, t.row, buff, s, i);
                          if i % buff.numCols == 0 then EraseRow(p, v.row, None) else p))
    && (s + n <= row ==> v.row == t.row + n && v.col == 0 && v.screen == PaintedRows(buff, t, s, n))
  }

  lemma FirstRowOpens(buff: CharBuff, t: Terminal, s: nat, n: nat)
    requires buff.numCols > 0 && buff.cells != [] && Ready(t, s)
    ensures RowOpen(buff, 0, START.StartRow(true), View(START.StartRow(true), t, s, n), t, s, n)
  {
    assert View(START, t, s, n) == t;
    assert START.StartRow(true) == START.OpenRow();
    DivMod(0, buff.numCols, 0, 0);
    PaintedZero(buff, t, s);
    if Within(0, s, n) {
      OpenRowView(START, t, s, n);
    } else {
      OpenRowSilent(START, t, s, n);
      if s + n <= 0 {
        PaintedNoRows(buff, t, s, n);
      }
    }
  }

  lemma PaintedZero(buff: CharBuff, t: Terminal, s: nat)
    requires buff.numCols > 0
    ensures Painted(t.screen, t.row, buff, s, 0) == t.screen
  {
  }

  lemma PaintedNoRows(buff: CharBuff, t: Terminal, s: nat, n: nat)
    requires buff.numCols > 0 && n == 0
    ensures PaintedRows(buff, t, s, n) == t.screen
  {
  }

  lemma NextRowOpens(buff: CharBuff, i: nat, t: Terminal, s: nat, n: nat)
    requires buff.numCols > 0 && 0 < i < |buff.cells| && i % buff.numCols == 0 && Ready(t, s)
    requires Faithful(buff, i, t, s, n)
    ensures RowOpen(buff, i, Prefix(buff, i).StartRow(false), View(Prefix(buff, i).StartRow(false), t, s, n), t, s, n)
  {
    var st := Prefix(buff, i);
    var row := i / buff.numCols;
    NextPosition(i, buff.numCols);
    FinishView(st, t, s, n);
    var a := st.FinishString();
    BreakLineView(a, t, s, n);
    var b := a.BreakLine();
    var v := View(st, t, s, n);
    assert View(b, t, s, n) == Broken(v, row - 1, s, n);
    if Within(row, s, n) {
      if row == s {
        PaintedNothing(buff, i, t, s);
      }
      OpenRowView(b, t, s, n);
    } else {
      if row == s + n {
        PaintedWholeRows(buff, i, t, s, n);
      }
      OpenRowSilent(b, t, s, n);
    }
  }

  lemma PaintedNothing(buff: CharBuff, i: nat, t: Terminal, s: nat)
    requires buff.numCols > 0 && i <= |buff.cells| && i % buff.numCols == 0 && i / buff.numCols == s
    ensures i == s * buff.numCols && Painted(t.screen, t.row, buff, s, i) == t.screen
  {
    assert i == (i / buff.numCols) * buff.numCols + i % buff.numCols;
  }

  lemma PaintedWholeRows(buff: CharBuff, i: nat, t: Terminal, s: nat, n: nat)
    requires buff.numCols > 0 && i <= |buff.cells| && i % buff.numCols == 0 && i / buff.numCols == s + n
    ensures PaintedRows(buff, t, s, n) == Painted(t.screen, t.row, buff, s, i)
    ensures n == 0 ==> PaintedRows(buff, t, s, n) == t.screen
  {
    assert i == (i / buff.numCols) * buff.numCols + i % buff.numCols;
  }

  lemma {:induction false} FaithfulUpTo(buff: CharBuff, i: nat, t: Terminal, s: nat, n: nat)
    requires buff.numCols > 0 && 0 < i <= |buff.cells| && Ready(t, s)
    ensures Faithful(buff, i, t, s, n)
  {
    var k := i - 1;
    if k == 0 {
      FirstRowOpens(buff, t, s, n);
      DivMod(0, buff.numCols, 0, 0);
      AddFaithful(buff, 0, START.StartRow(true), t, s, n);
    } else {
      FaithfulUpTo(buff, k, t, s, n);
      var st := Prefix(buff, k);
      if k % buff.numCols == 0 {
        NextRowOpens(buff, k, t, s, n);
        AddFaithful(buff, k, st.StartRow(false), t, s, n);
      } else {
        NextPosition(k, buff.numCols);
        AddFaithful(buff, k, st, t, s, n);
      }
    }
  }

  // ---------------------------------------------------------------- main results

  function LastRow(buff: CharBuff): nat
    requires buff.numCols > 0 && buff.cells != []
  {
    (|buff.cells| - 1) / buff.numCols
  }

  /** Executing the commands compiled for rows `s` to `s + n - 1` paints exactly those rows.  Only a
      slice that contains row 0 needs the terminal on its default colours. */
  lemma CompileRowsPaints(buff: CharBuff, t: Terminal, s: nat, n: nat)
    requires buff.numCols > 0 && buff.cells != [] && Ready(t, s)
    ensures
      var end := Run(t, CompileRows(buff, s, n));
      && end.screen == PaintedRows(buff, t, s, n)
      && (Within(LastRow(buff), s, n) ==> end.fg == None && end.bg == None)
  {
    FaithfulUpTo(buff, |buff.cells|, t, s, n);
    FinalView(buff, t, s, n);
    RowsReached(buff, t, s, n);
  }

  lemma FinalView(buff: CharBuff, t: Terminal, s: nat, n: nat)
    requires buff.numCols > 0 && buff.cells != []
    ensures
      var st := Prefix(buff, |buff.cells|);
      && Rows(Program(buff)) == Rows(st.cmds)
      && Run(t, CompileRows(buff, s, n))
         == (var v := View(st, t, s, n); if Within(Rows(st.cmds), s, n) then v.(fg := None, bg := None) else v)
  {
    FinishAndReset(Prefix(buff, |buff.cells|), t, s, n);
  }

  lemma NoTextPending(st: Compiling, t: Terminal, s: nat, n: nat)
    requires st.str == []
    ensures View(st, t, s, n) == Run(t, InRange(st.cmds, s, n))
  {
  }

  lemma FinishAndReset(st: Compiling, t: Terminal, s: nat, n: nat)
    ensures
      var cmds := st.FinishString().Emit(ResetColor).cmds;
      && Rows(cmds) == Rows(st.cmds)
      && Run(t, InRange(cmds, s, n))
         == (var v := View(st, t, s, n); if Within(Rows(st.cmds), s, n) then v.(fg := None, bg := None) else v)
  {
    FinishView(st, t, s, n);
    var a := st.FinishString();
    EmitView(a, ResetColor, t, s, n);
    NoTextPending(a.Emit(ResetColor), t, s, n);
  }

  /** How far a slice's painting goes, in each position of the slice relative to the last row. */
  lemma RowsReached(buff: CharBuff, t: Terminal, s: nat, n: nat)
    requires buff.numCols > 0 && buff.cells != []
    ensures LastRow(buff) < s ==> PaintedRows(buff, t, s, n) == t.screen
    ensures Within(LastRow(buff), s, n) ==>
              PaintedRows(buff, t, s, n) == Painted(t.screen, t.row, buff, s, |buff.cells|)
  {
    var len, last := |buff.cells|, LastRow(buff);
    assert len - 1 == last * buff.numCols + (len - 1) % buff.numCols;
    assert len <= (last + 1) * buff.numCols;
    if last < s {
      MulMonotone(last + 1, s, buff.numCols);
    } else if last < s + n {
      MulMonotone(last + 1, s + n, buff.numCols);
    }
  }

  /** The whole program, on a terminal with default colours, paints the whole grid and leaves default
      colours behind. */
  lemma CompilePaintsGrid(buff: CharBuff, t: Terminal, n: nat)
    requires buff.numCols > 0 && buff.cells != [] && t.col == 0 && t.fg == None && t.bg == None
    requires n > LastRow(buff)
    ensures
      var end := Run(t, CompileRows(buff, 0, n));
      && CompileRows(buff, 0, n) == Program(buff)
      && end.fg == None && end.bg == None
      && Shown(end.screen, t.screen, t.row, buff, 0, |buff.cells|)
  {
    CompileRowsPaints(buff, t, 0, n);
    RowsReached(buff, t, 0, n);
    PaintedIsShown(t.screen, t.row, buff, 0, |buff.cells|);
    FaithfulUpTo(buff, |buff.cells|, t, 0, n);
    FinalView(buff, t, 0, n);
    WholeRange(Program(buff), n);
  }

  lemma {:induction false} WholeRange(cmds: seq<Command>, n: nat)
    requires Rows(cmds) < n
    ensures InRange(cmds, 0, n) == cmds
  {
    if cmds != [] {
      var most := cmds[..|cmds| - 1];
      WholeRange(most, n);
      assert cmds == most + [cmds[|cmds| - 1]];
    }
  }

  /** Row slices show the same glyphs as the whole program, moved to where the slice starts, and a slice
      without row 0 does so whatever colours the terminal had. */
  lemma SliceShowsItsRows(buff: CharBuff, t: Terminal, s: nat, n: nat)
    requires buff.numCols > 0 && buff.cells != [] && Ready(t, s)
    ensures Shown(Run(t, CompileRows(buff, s, n)).screen, t.screen, t.row, buff, s, SliceEnd(buff, s, n))
  {
    CompileRowsPaints(buff, t, s, n);
    PaintedIsShown(t.screen, t.row, buff, s, SliceEnd(buff, s, n));
  }

  /** The first cell of a row. */
  function RowStart(row: int, w: nat): int {
    row * w
  }

  /** Position (r, c) shows one of the cells from row `s` up to cell `hi`. */
  predicate InBlock(r: int, c: int, top: int, w: nat, s: nat, hi: nat) {
    top <= r && 0 <= c < w && RowStart(r - top + s, w) + c < hi
  }

  /** Row r shows some of those cells. */
  predicate InRows(r: int, top: int, w: nat, s: nat, hi: nat) {
    top <= r && RowStart(r - top + s, w) < hi
  }

  /** A cell in range shows its own glyph; nothing else is written on its row; other rows keep what they
      had. */
  ghost predicate ShownAt(now: Screen, before: Screen, top: int, buff: CharBuff, s: nat, hi: nat, r: int, c: int)
    requires buff.numCols > 0 && hi <= |buff.cells|
  {
    var w := buff.numCols;
    if InBlock(r, c, top, w, s, hi) then
      && (r, c) in now.glyphs && 0 <= RowStart(r - top + s, w) + c
      && now.glyphs[(r, c)] == GlyphOf(buff.cells[RowStart(r - top + s, w) + c])
    else if InRows(r, top, w, s, hi) then (r, c) !in now.glyphs
    else
      && ((r, c) in now.glyphs <==> (r, c) in before.glyphs)
      && ((r, c) in now.glyphs ==> now.glyphs[(r, c)] == before.glyphs[(r, c)])
  }

  /** A row in range is cleared to the default background; others keep theirs. */
  ghost predicate ClearedAt(now: Screen, before: Screen, top: int, w: nat, s: nat, hi: nat, r: int) {
    if InRows(r, top, w, s, hi) then r in now.backdrop && now.backdrop[r] == None
    else (r in now.backdrop <==> r in before.backdrop) && (r in now.backdrop ==> now.backdrop[r] == before.backdrop[r])
  }

  /** The screen, cell for cell. */
  ghost predicate Shown(now: Screen, before: Screen, top: int, buff: CharBuff, s: nat, hi: nat)
    requires buff.numCols > 0 && hi <= |buff.cells|
  {
    && (forall r: int, c: int :: ShownAt(now, before, top, buff, s, hi, r, c))
    && (forall r: int :: ClearedAt(now, before, top, buff.numCols, s, hi, r))
  }

  lemma {:induction false} PaintedIsShown(screen: Screen, top: int, buff: CharBuff, s: nat, hi: nat)
    requires buff.numCols > 0 && hi <= |buff.cells|
    ensures Shown(Painted(screen, top, buff, s, hi), screen, top, buff, s, hi)
  {
    var w := buff.numCols;
    if hi <= s * w {
      forall r: int ensures !InRows(r, top, w, s, hi) {
        NothingBefore(r, top, w, s, hi);
      }
      forall r: int, c: int ensures ShownAt(screen, screen, top, buff, s, hi, r, c) {
        NothingBefore(r, top, w, s, hi);
      }
    } else {
      PaintedIsShown(screen, top, buff, s, hi - 1);
      RowOf(hi - 1, w, s);
      forall r: int, c: int ensures ShownAt(Painted(screen, top, buff, s, hi), screen, top, buff, s, hi, r, c) {
        ShownStep(screen, top, buff, s, hi - 1, r, c);
      }
      forall r: int ensures ClearedAt(Painted(screen, top, buff, s, hi), screen, top, w, s, hi, r) {
        ClearedStep(screen, top, buff, s, hi - 1, r);
      }
    }
  }

  lemma NothingBefore(r: int, top: int, w: nat, s: nat, hi: nat)
    requires hi <= s * w
    ensures !InRows(r, top, w, s, hi)
  {
    if top <= r {
      MulMonotone(s, r - top + s, w);
    }
  }

  lemma RowOf(k: nat, w: nat, s: nat)
    requires w > 0 && k >= s * w
    ensures k / w >= s
  {
    if k / w < s {
      MulMonotone(k / w + 1, s, w);
    }
  }

  /** Cells in reading order: by row, then by column. */
  lemma ReadingOrder(w: nat, p: nat, c: nat, q: nat, m: nat)
    requires c < w && m < w
    ensures RowStart(p, w) + c <= RowStart(q, w) + m <==> p < q || (p == q && c <= m)
    ensures RowStart(p, w) >= 0
  {
    if p < q {
      MulMonotone(p + 1, q, w);
      assert (p + 1) * w == p * w + w;
    } else if q < p {
      MulMonotone(q + 1, p, w);
      assert (q + 1) * w == q * w + w;
    }
  }

  /** Which positions and rows cell `k` adds to those before it. */
  lemma BlockStep(top: int, w: nat, s: nat, k: nat, r: int, c: int)
    requires w > 0 && k / w >= s
    ensures
      var row, col := top + k / w - s, k % w;
      && (InRows(r, top, w, s, k + 1) <==> top <= r <= row)
      && (InRows(r, top, w, s, k) <==> top <= r <= row && !(r == row && col == 0))
      && (InBlock(r, c, top, w, s, k + 1) <==> InBlock(r, c, top, w, s, k) || (r == row && c == col))
      && (r == row && c == col ==> !InBlock(r, c, top, w, s, k) && RowStart(r - top + s, w) + c == k)
      && (InBlock(r, c, top, w, s, k + 1) ==> RowStart(r - top + s, w) + c >= 0)
      && (InBlock(r, c, top, w, s, k) ==> InRows(r, top, w, s, k))
  {
    assert k == RowStart(k / w, w) + k % w;
    BlockStepAt(top, w, s, k, k / w, k % w, r, c);
  }

  lemma BlockStepAt(top: int, w: nat, s: nat, k: nat, q: nat, m: nat, r: int, c: int)
    requires m < w && q >= s && k == RowStart(q, w) + m
    ensures
      var row := top + q - s;
      && (InRows(r, top, w, s, k + 1) <==> top <= r <= row)
      && (InRows(r, top, w, s, k) <==> top <= r <= row && !(r == row && m == 0))
      && (InBlock(r, c, top, w, s, k + 1) <==> InBlock(r, c, top, w, s, k) || (r == row && c == m))
      && (r == row && c == m ==> !InBlock(r, c, top, w, s, k) && RowStart(r - top + s, w) + c == k)
      && (InBlock(r, c, top, w, s, k + 1) ==> RowStart(r - top + s, w) + c >= 0)
      && (InBlock(r, c, top, w, s, k) ==> InRows(r, top, w, s, k))
  {
    if top <= r {
      var p: nat := r - top + s;
      ReadingOrder(w, p, 0, q, m);
      ReadingOrder(w, q, m, p, 0);
      if 0 <= c < w {
        ReadingOrder(w, p, c, q, m);
        ReadingOrder(w, q, m, p, c);
      }
    }
  }

  lemma ShownStep(screen: Screen, top: int, buff: CharBuff, s: nat, k: nat, r: int, c: int)
    requires buff.numCols > 0 && k < |buff.cells| && s * buff.numCols <= k && k / buff.numCols >= s
    requires Shown(Painted(screen, top, buff, s, k), screen, top, buff, s, k)
    ensures ShownAt(Painted(screen, top, buff, s, k + 1), screen, top, buff, s, k + 1, r, c)
  {
    BlockStep(top, buff.numCols, s, k, r, c);
    assert ShownAt(Painted(screen, top, buff, s, k), screen, top, buff, s, k, r, c);
  }

  lemma ClearedStep(screen: Screen, top: int, buff: CharBuff, s: nat, k: nat, r: int)
    requires buff.numCols > 0 && k < |buff.cells| && s * buff.numCols <= k && k / buff.numCols >= s
    requires Shown(Painted(screen, top, buff, s, k), screen, top, buff, s, k)
    ensures ClearedAt(Painted(screen, top, buff, s, k + 1), screen, top, buff.numCols, s, k + 1, r)
  {
    BlockStep(top, buff.numCols, s, k, r, 0);
    assert ClearedAt(Painted(screen, top, buff, s, k), screen, top, buff.numCols, s, k, r);
  }

  // ---------------------------------------------------------------- the text projection

  function TextOf(cmd: Command): seq<char> {
    match cmd
    case Text(s) => s
    case Newline => ['\n']
    case _ => []
  }

  function ProjectText(cmds: seq<Command>): seq<char> {
    if cmds == [] then [] else ProjectText(cmds[..|cmds| - 1]) + TextOf(cmds[|cmds| - 1])
  }

  /** The characters of the cells from `lo` up to `hi`. */
  function Characters(cells: seq<Cell>, lo: nat, hi: nat): seq<char>
    requires lo <= hi <= |cells|
  {
    if lo == hi then [] else Characters(cells, lo, hi - 1) + [GlyphOf(cells[hi - 1]).ch]
  }

  /** The rows up to row `r`, joined by newlines. */
  function JoinedRows(buff: CharBuff, r: nat): seq<char>
    requires buff.numCols > 0 && r * buff.numCols <= |buff.cells|
  {
    var row := Characters(buff.cells, r * buff.numCols, Min((r + 1) * buff.numCols, |buff.cells|));
    if r == 0 then row
    else
      assert r * buff.numCols == (r - 1) * buff.numCols + buff.numCols;
      JoinedRows(buff, r - 1) + ['\n'] + row
  }

  /** The same text up to cell `i`, grown cell by cell. */
  ghost function TextUpTo(buff: CharBuff, i: nat): seq<char>
    requires buff.numCols > 0 && i <= |buff.cells|
  {
    if i == 0 then []
    else
      TextUpTo(buff, i - 1) + (if i > 1 && (i - 1) % buff.numCols == 0 then ['\n'] else [])
      + [GlyphOf(buff.cells[i - 1]).ch]
  }

  ghost function TextSoFar(st: Compiling): seq<char> {
    ProjectText(st.cmds) + st.str
  }

  lemma EmitText(st: Compiling, c: Command)
    requires st.str == []
    ensures TextSoFar(st.Emit(c)) == TextSoFar(st) + TextOf(c)
  {
    assert st.Emit(c).cmds[..|st.cmds|] == st.cmds;
    assert ProjectText(st.cmds) + TextOf(c) + [] == ProjectText(st.cmds) + [] + TextOf(c);
  }

  lemma FinishText(st: Compiling)
    ensures TextSoFar(st.FinishString()) == TextSoFar(st)
    ensures st.FinishString().str == []
  {
    if st.str != [] {
      EmitText(st.(str := []), Text(st.str));
    }
  }

  lemma SilentEmit(st: Compiling, c: Command)
    requires st.str == [] && TextOf(c) == []
    ensures TextSoFar(st.Emit(c)) == TextSoFar(st)
  {
    EmitText(st, c);
  }

  lemma SetFgText(st: Compiling, c: Color)
    ensures TextSoFar(st.SetFg(c)) == TextSoFar(st)
  {
    FinishText(st);
    SilentEmit(st.FinishString(), FgColor(c));
  }

  lemma SetBgText(st: Compiling, c: Color)
    ensures TextSoFar(st.SetBg(c)) == TextSoFar(st)
  {
    FinishText(st);
    SilentEmit(st.FinishString(), BgColor(c));
  }

  lemma PushText(st: Compiling, ch: char)
    ensures TextSoFar(st.(str := st.str + [ch])) == TextSoFar(st) + [ch]
  {
    assert ProjectText(st.cmds) + (st.str + [ch]) == ProjectText(st.cmds) + st.str + [ch];
  }

  lemma BlankText(st: Compiling)
    ensures TextSoFar(st.BlankCell()) == TextSoFar(st) + [' ']
  {
    if st.inBlank {
      PushText(st, ' ');
    } else {
      var a := st.(inBlank := true);
      FinishText(a);
      SilentEmit(a.FinishString(), ResetColor);
      PushText(a.FinishString().Emit(ResetColor), ' ');
    }
  }

  lemma FillText(st: Compiling, value: char, fg: Color, bg: Color)
    ensures TextSoFar(st.FillCell(value, fg, bg)) == TextSoFar(st) + [value]
  {
    FinishText(st);
    var a := if st.inBlank then st.FinishString().(inBlank := false) else st;
    assert TextSoFar(a) == TextSoFar(st);
    SetFgText(a, fg);
    SetBgText(a.SetFg(fg), bg);
    PushText(a.SetFg(fg).SetBg(bg), value);
  }

  lemma AddText(st: Compiling, cell: Cell)
    ensures TextSoFar(st.Add(cell)) == TextSoFar(st) + [GlyphOf(cell).ch]
  {
    match cell
    case Blank => BlankText(st);
    case Fill(value, bg, fg, _) => FillText(st, value, fg, bg);
  }

  lemma StartRowText(st: Compiling, first: bool)
    ensures TextSoFar(st.StartRow(first)) == TextSoFar(st) + (if first then [] else ['\n'])
  {
    FinishText(st);
    var a := st.FinishString();
    EmitText(a, Newline);
    SilentEmit(a.Emit(Newline), ResetColor);
    OpenRowText(if first then a else a.BreakLine());
  }

  lemma OpenRowText(st: Compiling)
    requires st.str == []
    ensures TextSoFar(st.OpenRow()) == TextSoFar(st)
  {
    SilentEmit(st, ClearLine);
    var a := st.Emit(ClearLine);
    if st.fg.Some? {
      SilentEmit(a, FgColor(st.fg.value));
    }
    var b := if st.fg.Some? then a.Emit(FgColor(st.fg.value)) else a;
    if st.bg.Some? {
      SilentEmit(b, BgColor(st.bg.value));
    }
  }

  lemma {:induction false} PrefixText(buff: CharBuff, i: nat)
    requires buff.numCols > 0 && i <= |buff.cells|
    ensures TextSoFar(Prefix(buff, i)) == TextUpTo(buff, i)
  {
    if i > 0 {
      PrefixText(buff, i - 1);
      var before := Prefix(buff, i - 1);
      if (i - 1) % buff.numCols == 0 {
        StartRowText(before, i == 1);
        AddText(before.StartRow(i == 1), buff.cells[i - 1]);
      } else {
        AddText(before, buff.cells[i - 1]);
      }
    }
  }

  /** Up to a cell of row `r`, the text is the finished rows, each with a newline, and the row so far. */
  lemma {:induction false} TextByRows(buff: CharBuff, r: nat, i: nat)
    requires buff.numCols > 0 && r * buff.numCols < i <= |buff.cells| && i <= (r + 1) * buff.numCols
    ensures r > 0 ==> (r - 1) * buff.numCols + buff.numCols == r * buff.numCols
    ensures TextUpTo(buff, i)
         == (if r == 0 then [] else JoinedRows(buff, r - 1) + ['\n']) + Characters(buff.cells, r * buff.numCols, i)
    decreases i
  {
    var w := buff.numCols;
    var k := i - 1;
    assert (r + 1) * w == r * w + w;
    if r > 0 {
      assert r * w == (r - 1) * w + w;
    }
    DivMod(k, w, r, k - r * w);
    if k == r * w {
      if r > 0 {
        TextByRows(buff, r - 1, k);
      }
    } else {
      TextByRows(buff, r, k);
    }
  }

  /** The text projection of the program is the rows joined by newlines. */
  lemma ProgramText(buff: CharBuff)
    requires buff.numCols > 0 && buff.cells != []
    ensures LastRow(buff) * buff.numCols <= |buff.cells|
    ensures ProjectText(Program(buff)) == JoinedRows(buff, LastRow(buff))
  {
    LastRowBounds(buff);
    var st := Prefix(buff, |buff.cells|);
    PrefixText(buff, |buff.cells|);
    FinishText(st);
    SilentEmit(st.FinishString(), ResetColor);
    TextIsJoined(buff);
  }

  lemma LastRowBounds(buff: CharBuff)
    requires buff.numCols > 0 && buff.cells != []
    ensures LastRow(buff) * buff.numCols < |buff.cells| <= (LastRow(buff) + 1) * buff.numCols
  {
    var len, last, w := |buff.cells|, LastRow(buff), buff.numCols;
    assert len - 1 == last * w + (len - 1) % w;
    assert (last + 1) * w == last * w + w;
  }

  lemma TextIsJoined(buff: CharBuff)
    requires buff.numCols > 0 && buff.cells != []
    requires LastRow(buff) * buff.numCols < |buff.cells| <= (LastRow(buff) + 1) * buff.numCols
    ensures TextUpTo(buff, |buff.cells|) == JoinedRows(buff, LastRow(buff))
  {
    TextByRows(buff, LastRow(buff), |buff.cells|);
  }

  // ---------------------------------------------------------------- the loops

  /** The compiler as the source runs it: one pass over the cells, one filter over the commands. */
  method CompileRowsLoop(buff: CharBuff, startRow: nat, numRows: nat) returns (inRange: seq<Command>)
    requires buff.cells != [] ==> buff.numCols > 0
    ensures inRange == CompileRows(buff, startRow, numRows)
  {
    var st := START;
    for i := 0 to |buff.cells|
      invariant st == if i == 0 then START else Prefix(buff, i)
    {
      if i % buff.numCols == 0 {
        st := st.FinishString();
        if i > 0 {
          st := st.Emit(Newline).Emit(ResetColor);
        }
        st := st.OpenRow();
      }
      match buff.cells[i] {
        case Blank =>
          if !st.inBlank {
            st := st.(inBlank := true).FinishString().Emit(ResetColor);
          }
          st := st.(str := st.str + [' '], fg := None, bg := None);
        case Fill(value, bg, fg, _) =>
          if st.inBlank {
            st := st.FinishString().(inBlank := false);
          }
          if st.fg != Some(fg) {
            st := st.FinishString().Emit(FgColor(fg)).(fg := Some(fg));
          }
          if st.bg != Some(bg) {
            st := st.FinishString().Emit(BgColor(bg)).(bg := Some(bg));
          }
          st := st.(str := st.str + [value]);
      }
    }
    var cmds := st.FinishString().Emit(ResetColor).cmds;
    inRange := [];
    var rowNum := 0;
    for j := 0 to |cmds|
      invariant inRange == InRange(cmds[..j], startRow, numRows) && rowNum == Rows(cmds[..j])
    {
      assert cmds[..j + 1][..j] == cmds[..j];
      if startRow <= rowNum < startRow + numRows {
        inRange := inRange + [cmds[j]];
      }
      if cmds[j].Newline? {
        rowNum := rowNum + 1;
      }
    }
    assert cmds[..|cmds|] == cmds;
  }
}
