/** Word-wrapped printing (src/ui/charbuff.rs): text is split into words, spaces and newlines, and each
    word is printed at a tracked row and column, wrapping before a word that would reach the last
    column.  Which characters are white space or control characters is a parameter. */
module WordWrap {
  import opened Scanline

  type Text = seq<char>

  const REPLACEMENT: char := '\U{FFFD}'

  datatype Style = Style(elementId: nat, bg: Color, fg: Color, control: char -> bool)

  datatype Part = Word(chars: Text) | LineBreak

  // ---------------------------------------------------------------- printing one word

  function Ink(style: Style, c: char): Cell {
    Fill(if c <= '\U{1F}' || style.control(c) then REPLACEMENT else c, style.bg, style.fg, style.elementId)
  }

  /** The cell at an offset; past the end there is nothing. */
  function At(cells: seq<Cell>, p: nat): Cell {
    if p < |cells| then cells[p] else Blank
  }

  /** `cells` with `text` written from `offset` on. */
  ghost predicate Overlaid(style: Style, cells: seq<Cell>, offset: nat, text: Text, out: seq<Cell>) {
    && |out| == (if offset + |text| > |cells| then offset + |text| else |cells|)
    && forall p: nat ::
         At(out, p) == if offset <= p < offset + |text| then Ink(style, text[p - offset]) else At(cells, p)
  }

  /** Pads up to the start, then overwrites and extends. */
  method PrintAt(style: Style, buff: CharBuff, row: nat, col: nat, text: Text) returns (out: CharBuff, end: (nat, nat))
    requires buff.numCols > 0
    ensures out.numCols == buff.numCols
    ensures Overlaid(style, buff.cells, Offset(buff.numCols, Cursor(row, col)), text, out.cells)
    ensures
      var stop := Offset(buff.numCols, Cursor(row, col)) + |text|;
      end == (stop / buff.numCols, stop % buff.numCols)
  {
    var cells, offset := WriteFrom(style, buff.cells, Offset(buff.numCols, Cursor(row, col)), text);
    out := buff.(cells := cells);
    end := (offset / buff.numCols, offset % buff.numCols);
  }

  method WriteFrom(style: Style, before: seq<Cell>, start: nat, text: Text) returns (cells: seq<Cell>, offset: nat)
    ensures Overlaid(style, before, start, text, cells) && offset == start + |text|
  {
    cells := before;
    while |cells| < start
      invariant |cells| == |before| || |before| < |cells| <= start
      invariant forall p: nat :: At(cells, p) == At(before, p)
    {
      cells := cells + [Blank];
    }
    offset := start;
    assert text[..0] == [];
    for i := 0 to |text|
      invariant offset == start + i && Overlaid(style, before, start, text[..i], cells)
    {
      OverlayGrows(style, before, start, text, i, cells);
      if offset < |cells| {
        cells := cells[offset := Ink(style, text[i])];
      } else {
        cells := cells + [Ink(style, text[i])];
      }
      offset := offset + 1;
    }
    assert text[..|text|] == text;
  }

  function Put(cells: seq<Cell>, offset: nat, cell: Cell): seq<Cell>
    requires offset <= |cells|
  {
    if offset < |cells| then cells[offset := cell] else cells + [cell]
  }

  lemma OverlayGrows(style: Style, before: seq<Cell>, start: nat, text: Text, i: nat, cells: seq<Cell>)
    requires i < |text| && Overlaid(style, before, start, text[..i], cells)
    ensures start + i <= |cells|
    ensures Overlaid(style, before, start, text[..i + 1], Put(cells, start + i, Ink(style, text[i])))
  {
    var out := Put(cells, start + i, Ink(style, text[i]));
    forall p: nat
      ensures At(out, p) == if start <= p < start + i + 1 then Ink(style, text[..i + 1][p - start]) else At(before, p)
    {
      assert At(cells, p) == if start <= p < start + i then Ink(style, text[..i][p - start]) else At(before, p);
    }
  }

  // ---------------------------------------------------------------- splitting

  function PartText(p: Part): Text {
    match p
    case Word(chars) => chars
    case LineBreak => ['\n']
  }

  function Joined(parts: seq<Part>): Text {
    if parts == [] then [] else Joined(parts[..|parts| - 1]) + PartText(parts[|parts| - 1])
  }

  /** A single white space other than a newline, a newline, or a run without white space. */
  ghost predicate Whole(white: char -> bool, p: Part) {
    p.Word? ==> p.chars != [] && ((|p.chars| == 1 && white(p.chars[0]) && p.chars[0] != '\n') || Dark(white, p))
  }

  ghost predicate Dark(white: char -> bool, p: Part) {
    p.Word? && p.chars != [] && forall i | 0 <= i < |p.chars| :: !white(p.chars[i])
  }

  /** The parts are whole, and runs without white space are as long as they can be. */
  ghost predicate Maximal(white: char -> bool, parts: seq<Part>) {
    && (forall k | 0 <= k < |parts| :: Whole(white, parts[k]))
    && forall k | 0 <= k < |parts| - 1 :: !(Dark(white, parts[k]) && Dark(white, parts[k + 1]))
  }

  ghost predicate EndsDark(white: char -> bool, parts: seq<Part>) {
    parts != [] && Dark(white, parts[|parts| - 1])
  }

  lemma Push(white: char -> bool, parts: seq<Part>, p: Part)
    requires Maximal(white, parts) && Whole(white, p) && !(EndsDark(white, parts) && Dark(white, p))
    ensures Maximal(white, parts + [p]) && Joined(parts + [p]) == Joined(parts) + PartText(p)
    ensures EndsDark(white, parts + [p]) <==> Dark(white, p)
  {
    assert (parts + [p])[..|parts|] == parts;
  }

  /** The parts so far and the word being read. */
  datatype Splitting = Splitting(parts: seq<Part>, cur: Text)

  function Finish(s: Splitting): Splitting {
    if s.cur == [] then s else Splitting(s.parts + [Word(s.cur)], [])
  }

  function SplitStep(white: char -> bool, s: Splitting, c: char): Splitting {
    if white(c) then
      var t := Finish(s);
      t.(parts := t.parts + [if c == '\n' then LineBreak else Word([c])])
    else s.(cur := s.cur + [c])
  }

  ghost predicate SplitUpTo(white: char -> bool, s: Splitting, text: Text) {
    && Maximal(white, s.parts) && !EndsDark(white, s.parts) && Joined(s.parts) + s.cur == text
    && forall i | 0 <= i < |s.cur| :: !white(s.cur[i])
  }

  lemma FinishSplits(white: char -> bool, s: Splitting, text: Text)
    requires SplitUpTo(white, s, text)
    ensures Maximal(white, Finish(s).parts) && Joined(Finish(s).parts) == text
  {
    if s.cur != [] {
      assert Dark(white, Word(s.cur));
      Push(white, s.parts, Word(s.cur));
    } else {
      assert Joined(s.parts) + s.cur == Joined(s.parts);
    }
  }

  lemma SplitStepSplits(white: char -> bool, s: Splitting, text: Text, c: char, longer: Text, next: Splitting)
    requires SplitUpTo(white, s, text) && white('\n') && longer == text + [c] && next == SplitStep(white, s, c)
    ensures SplitUpTo(white, next, longer)
  {
    if white(c) {
      FinishSplits(white, s, text);
      var t := Finish(s);
      assert white([c][0]);
      Push(white, t.parts, if c == '\n' then LineBreak else Word([c]));
    } else {
      assert Joined(s.parts) + (s.cur + [c]) == (Joined(s.parts) + s.cur) + [c];
    }
  }

  /** The split gives the text back, word by word and break by break. */
  method Split(white: char -> bool, text: Text) returns (parts: seq<Part>)
    requires white('\n')
    ensures Maximal(white, parts) && Joined(parts) == text
  {
    var s := Splitting([], []);
    SplitStarts(white);
    assert text[..0] == [];
    for i := 0 to |text|
      invariant SplitUpTo(white, s, text[..i])
    {
      var next := SplitStep(white, s, text[i]);
      SplitStepSplits(white, s, text[..i], text[i], text[..i + 1], next);
      s := next;
    }
    FinishSplits(white, s, text[..|text|]);
    assert text[..|text|] == text;
    parts := Finish(s).parts;
  }

  lemma SplitStarts(white: char -> bool)
    ensures SplitUpTo(white, Splitting([], []), [])
  {
  }

  // ---------------------------------------------------------------- wrapping

  /** The tracked position. */
  datatype Cursor = Cursor(row: nat, idx: nat)

  predicate Fits(cols: nat, at: Cursor, w: Text) {
    at.idx + |w| < cols
  }

  /** Where a word is printed. */
  function Start(cols: nat, at: Cursor, w: Text): nat {
    if Fits(cols, at, w) then Offset(cols, at) else Offset(cols, Cursor(at.row + 1, 0))
  }

  function Advance(cols: nat, at: Cursor, p: Part): Cursor
    requires cols > 0
  {
    match p
    case LineBreak => Cursor(at.row + 1, 0)
    case Word(w) =>
      var next := if Fits(cols, at, w) then Cursor(at.row, at.idx + |w|) else Cursor(at.row + 1, |w| % cols);
      next.(row := next.row + |w| / cols)
  }

  function AdvanceAll(cols: nat, at: Cursor, parts: seq<Part>): Cursor
    requires cols > 0
  {
    if parts == [] then at
    else Advance(cols, AdvanceAll(cols, at, parts[..|parts| - 1]), parts[|parts| - 1])
  }

  function Offset(cols: nat, at: Cursor): nat {
    cols * at.row + at.idx
  }

  lemma Distribute(c: nat, a: nat, b: nat)
    ensures c * (a + b) == c * a + c * b
  {
  }

  lemma Divides(n: nat, c: nat)
    requires c > 0
    ensures n == c * (n / c) + n % c
  {
  }

  /** After a word the tracked position is just past it, in a real column: the cursor printing returns. */
  lemma TrackedIsPastWord(cols: nat, at: Cursor, w: Text)
    requires cols > 0
    ensures
      var next := Advance(cols, at, Word(w));
      var stop := Start(cols, at, w) + |w|;
      && Offset(cols, next) == stop && next.idx < cols
      && (stop / cols, stop % cols) == (next.row, next.idx)
  {
    var next := Advance(cols, at, Word(w));
    var stop := Start(cols, at, w) + |w|;
    Divides(|w|, cols);
    if Fits(cols, at, w) {
      ShortWord(|w|, cols);
    } else {
      Distribute(cols, at.row + 1, |w| / cols);
    }
    assert cols * next.row == next.row * cols;
    DivMod(stop, cols, next.row, next.idx);
  }

  lemma ShortWord(n: nat, cols: nat)
    requires n < cols
    ensures n / cols == 0
  {
  }

  /** A word that fits on a row is printed on one row. */
  lemma WordStaysOnRow(cols: nat, at: Cursor, w: Text, j: nat)
    requires cols > 0 && |w| <= cols && j < |w|
    ensures (Start(cols, at, w) + j) / cols == if at.idx + |w| < cols then at.row else at.row + 1
  {
    var row := if Fits(cols, at, w) then at.row else at.row + 1;
    var col := (if Fits(cols, at, w) then at.idx else 0) + j;
    assert Start(cols, at, w) + j == cols * row + col;
    assert cols * row == row * cols;
    DivMod(Start(cols, at, w) + j, cols, row, col);
  }

  /** Nothing is printed before the tracked position. */
  lemma StartsPastTracked(cols: nat, at: Cursor, w: Text)
    requires cols > 0 && at.idx <= cols
    ensures Start(cols, at, w) >= Offset(cols, at)
  {
    Distribute(cols, at.row, 1);
  }

  lemma {:induction false} TrackedColumn(cols: nat, at: Cursor, parts: seq<Part>)
    requires cols > 0 && parts != []
    ensures AdvanceAll(cols, at, parts).idx < cols
  {
    var most, last := parts[..|parts| - 1], parts[|parts| - 1];
    if last.Word? {
      TrackedIsPastWord(cols, AdvanceAll(cols, at, most), last.chars);
    }
  }

  /** The offset at which part `k` of a text is printed. */
  function StartOf(cols: nat, at: Cursor, parts: seq<Part>, k: nat): nat
    requires cols > 0 && k < |parts| && parts[k].Word?
  {
    Start(cols, AdvanceAll(cols, at, parts[..k]), parts[k].chars)
  }

  lemma {:induction false} EndsBeforeTracked(cols: nat, at: Cursor, parts: seq<Part>, k: nat)
    requires cols > 0 && k < |parts| && parts[k].Word?
    ensures StartOf(cols, at, parts, k) + |parts[k].chars| <= Offset(cols, AdvanceAll(cols, at, parts))
  {
    var n := |parts| - 1;
    var most, last := parts[..n], parts[n];
    var cur := AdvanceAll(cols, at, most);
    if k == n {
      TrackedIsPastWord(cols, cur, last.chars);
    } else {
      assert most[..k] == parts[..k];
      EndsBeforeTracked(cols, at, most, k);
      TrackedColumn(cols, at, most);
      match last
      case Word(w) =>
        TrackedIsPastWord(cols, cur, w);
        StartsPastTracked(cols, cur, w);
      case LineBreak =>
        Distribute(cols, cur.row, 1);
    }
  }

  /** Words are printed in order, each past the end of the ones before it. */
  lemma WordsAscend(cols: nat, at: Cursor, parts: seq<Part>, j: nat, k: nat)
    requires cols > 0 && j < k < |parts| && parts[j].Word? && parts[k].Word?
    ensures StartOf(cols, at, parts, j) + |parts[j].chars| <= StartOf(cols, at, parts, k)
  {
    var some := parts[..k];
    assert some[..j] == parts[..j];
    EndsBeforeTracked(cols, at, some, j);
    TrackedColumn(cols, at, some);
    StartsPastTracked(cols, AdvanceAll(cols, at, some), parts[k].chars);
  }

  // ---------------------------------------------------------------- the whole print

  /** Offset `p` holds a character of part `k`. */
  ghost predicate Inked(cols: nat, at: Cursor, parts: seq<Part>, k: nat, p: nat)
    requires cols > 0
  {
    && k < |parts| && parts[k].Word?
    && StartOf(cols, at, parts, k) <= p < StartOf(cols, at, parts, k) + |parts[k].chars|
  }

  /** The offset just past the last word; 0 without words. */
  function LastEnd(cols: nat, at: Cursor, parts: seq<Part>): nat
    requires cols > 0
  {
    if parts == [] then 0
    else
      var n := |parts| - 1;
      if parts[n].Word? then StartOf(cols, at, parts, n) + |parts[n].chars| else LastEnd(cols, at, parts[..n])
  }

  lemma {:induction false} LastEndIsTracked(cols: nat, at: Cursor, parts: seq<Part>)
    requires cols > 0
    ensures LastEnd(cols, at, parts) <= Offset(cols, AdvanceAll(cols, at, parts))
  {
    if parts != [] {
      var n := |parts| - 1;
      if parts[n].Word? {
        EndsBeforeTracked(cols, at, parts, n);
      } else {
        LastEndIsTracked(cols, at, parts[..n]);
        if n > 0 {
          TrackedColumn(cols, at, parts[..n]);
        }
        Distribute(cols, AdvanceAll(cols, at, parts[..n]).row, 1);
      }
    }
  }

  /** A word after others ends past them. */
  lemma LastEndGrows(cols: nat, at: Cursor, parts: seq<Part>)
    requires cols > 0 && parts != [] && parts[|parts| - 1].Word?
    ensures LastEnd(cols, at, parts[..|parts| - 1]) <= LastEnd(cols, at, parts)
  {
    var most, w := parts[..|parts| - 1], parts[|parts| - 1].chars;
    if most != [] {
      LastEndIsTracked(cols, at, most);
      TrackedColumn(cols, at, most);
      StartsPastTracked(cols, AdvanceAll(cols, at, most), w);
    }
  }

  /** Every character of every word is at its place, nothing else has changed, and there are as many cells
      as before or as the last word needs. */
  ghost predicate Printed(style: Style, cols: nat, at: Cursor, parts: seq<Part>, before: seq<Cell>, cells: seq<Cell>)
    requires cols > 0
  {
    && |cells| == (if LastEnd(cols, at, parts) > |before| then LastEnd(cols, at, parts) else |before|)
    && (forall k: nat, p: nat | Inked(cols, at, parts, k, p) ::
          At(cells, p) == Ink(style, parts[k].chars[p - StartOf(cols, at, parts, k)]))
    && (forall p: nat | (forall k: nat :: !Inked(cols, at, parts, k, p)) :: At(cells, p) == At(before, p))
  }

  lemma InkedEarlier(cols: nat, at: Cursor, parts: seq<Part>, k: nat, p: nat)
    requires cols > 0 && parts != [] && k < |parts| - 1
    ensures Inked(cols, at, parts[..|parts| - 1], k, p) <==> Inked(cols, at, parts, k, p)
    ensures parts[k].Word? ==> StartOf(cols, at, parts[..|parts| - 1], k) == StartOf(cols, at, parts, k)
  {
    assert parts[..|parts| - 1][..k] == parts[..k];
  }

  /** One more word overlaid on what was printed. */
  lemma PrintedGrows(
      style: Style, cols: nat, at: Cursor, parts: seq<Part>, before: seq<Cell>, cells: seq<Cell>,
      out: seq<Cell>)
    requires cols > 0 && parts != [] && Printed(style, cols, at, parts[..|parts| - 1], before, cells)
    requires
      var last := parts[|parts| - 1];
      if last.Word? then Overlaid(style, cells, StartOf(cols, at, parts, |parts| - 1), last.chars, out)
      else out == cells
    ensures Printed(style, cols, at, parts, before, out)
  {
    var n := |parts| - 1;
    if parts[n].Word? {
      LastEndGrows(cols, at, parts);
    }
    forall k: nat, p: nat | Inked(cols, at, parts, k, p)
      ensures At(out, p) == Ink(style, parts[k].chars[p - StartOf(cols, at, parts, k)])
    {
      if k < n {
        InkedEarlier(cols, at, parts, k, p);
        if parts[n].Word? {
          WordsAscend(cols, at, parts, k, n);
        }
      }
    }
    forall p: nat | forall k: nat :: !Inked(cols, at, parts, k, p)
      ensures At(out, p) == At(before, p)
    {
      forall k: nat ensures !Inked(cols, at, parts[..n], k, p) {
        if k < n {
          InkedEarlier(cols, at, parts, k, p);
        }
      }
      assert !Inked(cols, at, parts, n, p);
    }
  }

  /** The cursor the print returns: the one after the last word, and then a new line if asked for. */
  function Returned(cols: nat, at: Cursor, parts: seq<Part>): (nat, nat)
    requires cols > 0
  {
    if parts == [] then (at.row, at.idx)
    else
      var most, last := parts[..|parts| - 1], parts[|parts| - 1];
      if last.Word? then var c := AdvanceAll(cols, at, parts); (c.row, c.idx) else Returned(cols, at, most)
  }

  /** Prints a word where the tracked position says, and tracks. */
  method PrintWord(
      style: Style, buff: CharBuff, at: Cursor, w: Text) returns (out: CharBuff, ret: (nat, nat), next: Cursor)
    requires buff.numCols > 0
    ensures out.numCols == buff.numCols && Overlaid(style, buff.cells, Start(buff.numCols, at, w), w, out.cells)
    ensures next == Advance(buff.numCols, at, Word(w)) && ret == (next.row, next.idx)
  {
    var cols := buff.numCols;
    var row, idx := at.row, at.idx;
    TrackedIsPastWord(cols, at, w);
    if idx + |w| < cols {
      out, ret := PrintAt(style, buff, row, idx, w);
      idx := idx + |w|;
    } else {
      row := row + 1;
      out, ret := PrintAt(style, buff, row, 0, w);
      idx := |w| % cols;
    }
    next := Cursor(if |w| / cols >= 1 then row + |w| / cols else row, idx);
  }

  /** Prints the parts one by one. */
  method PrintParts(style: Style, buff: CharBuff, at: Cursor, parts: seq<Part>) returns (out: CharBuff, ret: (nat, nat))
    requires buff.numCols > 0
    ensures out.numCols == buff.numCols && Printed(style, buff.numCols, at, parts, buff.cells, out.cells)
    ensures ret == Returned(buff.numCols, at, parts)
  {
    var cols := buff.numCols;
    var cur := at;
    out := buff;
    ret := (cur.row, cur.idx);
    NothingPrinted(style, cols, at, parts[..0], buff.cells);
    for i := 0 to |parts|
      invariant out.numCols == cols && cur == AdvanceAll(cols, at, parts[..i])
      invariant Printed(style, cols, at, parts[..i], buff.cells, out.cells)
      invariant ret == Returned(cols, at, parts[..i])
    {
      ghost var cells := out.cells;
      ghost var upTo := parts[..i + 1];
      assert upTo[..i] == parts[..i] && upTo[i] == parts[i];
      match parts[i] {
        case Word(w) =>
          out, ret, cur := PrintWord(style, out, cur, w);
        case LineBreak =>
          cur := Cursor(cur.row + 1, 0);
      }
      PrintedGrows(style, cols, at, upTo, buff.cells, cells, out.cells);
    }
    assert parts[..|parts|] == parts;
  }

  lemma NothingPrinted(style: Style, cols: nat, at: Cursor, parts: seq<Part>, cells: seq<Cell>)
    requires cols > 0 && parts == []
    ensures Printed(style, cols, at, parts, cells, cells)
  {
  }

  method InnerPrint(
      white: char -> bool, style: Style, buff: CharBuff, startRow: nat, startCol: nat, text: Text,
      newline: bool)
    returns (out: CharBuff, ret: (nat, nat), ghost parts: seq<Part>)
    requires buff.numCols > 0 && white('\n')
    ensures Maximal(white, parts) && Joined(parts) == text
    ensures out.numCols == buff.numCols
    ensures Printed(style, buff.numCols, Cursor(startRow, startCol), parts, buff.cells, out.cells)
    ensures
      var last := Returned(buff.numCols, Cursor(startRow, startCol), parts);
      ret == if newline then (last.0 + 1, 0) else last
  {
    var pieces := Split(white, text);
    parts := pieces;
    out, ret := PrintParts(style, buff, Cursor(startRow, startCol), pieces);
    if newline {
      ret := (ret.0 + 1, 0);
    }
  }
}
