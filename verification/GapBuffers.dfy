/** The gap buffer as an object: edits change the vector in place, and the word, line, up and down
    movements are loops of single moves. */
module GapBuffers {
  import opened Prelude
  import opened GapText

  const NEWLINE: Point := 10

  // ---------------------------------------------------------------- where movements lead

  /** The end of the line at `c`: its newline, or the end of the text. */
  function LineEndOf(t: Text, c: nat): (r: nat)
    requires c <= |t|
    ensures c <= r <= |t|
    ensures r < |t| ==> t[r] == NEWLINE
    ensures forall i | c <= i < r :: t[i] != NEWLINE
    decreases |t| - c
  {
    if c == |t| || t[c] == NEWLINE then c else LineEndOf(t, c + 1)
  }

  /** The first character at or after `c` that is not white space. */
  function WordAfter(t: Text, c: nat, white: Point -> bool): (r: nat)
    requires c <= |t|
    ensures c <= r <= |t|
    ensures r < |t| ==> !white(t[r])
    ensures forall i | c <= i < r :: white(t[i])
    decreases |t| - c
  {
    if c == |t| || !white(t[c]) then c else WordAfter(t, c + 1, white)
  }

  function BackToWord(t: Text, c: nat, white: Point -> bool): (r: nat)
    requires c <= |t|
    ensures r <= c
    ensures r > 0 ==> r < |t| && !white(t[r])
    ensures forall i | r < i <= c && i < |t| :: white(t[i])
  {
    if c == 0 || (c < |t| && !white(t[c])) then c else BackToWord(t, c - 1, white)
  }

  function BackToSpace(t: Text, c: nat, white: Point -> bool): (r: nat)
    requires c <= |t|
    ensures r <= c
    ensures 0 < r < |t| ==> white(t[r])
    ensures forall i | r < i <= c && i < |t| :: !white(t[i])
  {
    if c == 0 || c == |t| || white(t[c]) then c else BackToSpace(t, c - 1, white)
  }

  /** Back over spaces, back over the word, and one step right. */
  function LeftWordOf(t: Text, c: nat, white: Point -> bool): (r: nat)
    requires c <= |t|
    ensures r <= |t|
  {
    var q := BackToSpace(t, BackToWord(t, c, white), white);
    if q < |t| then q + 1 else q
  }

  function BackToNewline(t: Text, c: nat): (r: nat)
    requires c < |t|
    ensures r <= c
    ensures r > 0 ==> t[r] == NEWLINE
    ensures forall i | r < i <= c :: t[i] != NEWLINE
  {
    if c == 0 || t[c] == NEWLINE then c else BackToNewline(t, c - 1)
  }

  /** Off the end of the text, and off the newline the cursor is then on; `None` at the very start. */
  function OffBreak(t: Text, c: nat): (r: Option<nat>)
    requires c <= |t|
    ensures r.Some? ==> r.value < |t| && r.value <= c
  {
    if t == [] then None
    else
      var p := if c == |t| then c - 1 else c;
      if t[p] != NEWLINE then Some(p) else if p == 0 then None else Some(p - 1)
  }

  /** The start of the line the walk goes back to from `c`. */
  function LineStartOf(t: Text, c: nat): (r: nat)
    requires c <= |t|
    ensures r <= c
  {
    match OffBreak(t, c)
    case None => 0
    case Some(p) =>
      var q := BackToNewline(t, p);
      if t[q] == NEWLINE then q + 1 else q
  }

  /** The start of the line that holds position `c`: just after the newline before it. */
  ghost predicate IsLineStart(t: Text, c: nat, r: nat) {
    && r <= c <= |t|
    && (r > 0 ==> t[r - 1] == NEWLINE)
    && forall i | r <= i < c :: t[i] != NEWLINE
  }

  /** Going back to the start of the line goes there, except from the empty line after a last newline:
      from there it goes to the line before. */
  lemma LineStartIsStartIff(t: Text, c: nat)
    requires c <= |t|
    ensures IsLineStart(t, c, LineStartOf(t, c)) <==> !(c == |t| && c > 0 && t[c - 1] == NEWLINE)
  {
  }

  lemma LineStartIsUnique(t: Text, c: nat, a: nat, b: nat)
    requires IsLineStart(t, c, a) && IsLineStart(t, c, b)
    ensures a == b
  {
    assert !(a < b) by {
      assert a < b ==> a <= b - 1 < c;
    }
    assert !(b < a) by {
      assert b < a ==> b <= a - 1 < c;
    }
  }

  function Along(t: Text, c: nat, cols: nat): (r: nat)
    requires c <= |t|
    ensures c <= r <= |t|
  {
    if c + cols < LineEndOf(t, c) then c + cols else LineEndOf(t, c)
  }

  function PastLineEnd(t: Text, c: nat): (r: nat)
    requires c <= |t|
    ensures c <= r <= |t|
  {
    var e := LineEndOf(t, c);
    if e < |t| then e + 1 else e
  }

  function UpOf(t: Text, c: nat, cols: nat): (r: nat)
    requires c <= |t|
    ensures r <= |t|
  {
    var a := LineStartOf(t, c);
    Along(t, LineStartOf(t, if a == 0 then 0 else a - 1), cols)
  }

  function DownOf(t: Text, c: nat, cols: nat): (r: nat)
    requires c <= |t|
    ensures r <= |t|
  {
    Along(t, LineStartOf(t, PastLineEnd(t, c)), cols)
  }

  function CharAt(t: Text, c: nat): Option<Point> {
    if c < |t| then Some(t[c]) else None
  }

  lemma TextAt(s: Gap, i: nat)
    requires Bounded(s) && i < |TextOf(s)|
    ensures TextOf(s)[i] == s.buffer[if i < s.cursor then i else i + s.gap]
  {
  }

  // ---------------------------------------------------------------- the recorded line start

  /** `ls` is where the line of the cursor starts, when `before` is the text before the cursor. */
  ghost predicate StartsLine(before: Text, ls: nat) {
    IsLineStart(before, |before|, ls)
  }

  lemma StartsLineInText(s: Gap, ls: nat)
    requires Bounded(s)
    ensures StartsLine(View(s).before, ls) <==> IsLineStart(TextOf(s), s.cursor, ls)
  {
    assert forall i | 0 <= i < s.cursor :: TextOf(s)[i] == View(s).before[i];
  }

  /** A line start known to be right is 0 exactly on the first line. */
  lemma FirstLineIff(s: Gap, ls: nat)
    requires Bounded(s)
    ensures StartsLine(View(s).before, ls) ==> (ls == 0 <==> IsLineStart(TextOf(s), s.cursor, 0))
  {
    StartsLineInText(s, 0);
    if StartsLine(View(s).before, ls) && StartsLine(View(s).before, 0) {
      LineStartIsUnique(View(s).before, s.cursor, ls, 0);
    }
  }

  lemma OneMore(before: Text, ch: Point, ls: nat)
    requires StartsLine(before, ls) && ch != NEWLINE
    ensures StartsLine(before + [ch], ls)
  {
  }

  /** One character less keeps the start of the line unless it was a newline: then the start was just
      after it. */
  lemma OneLess(before: Text, ls: nat)
    requires before != [] && StartsLine(before, ls)
    ensures before[|before| - 1] == NEWLINE <==> ls == |before|
    ensures before[|before| - 1] != NEWLINE ==> StartsLine(before[..|before| - 1], ls)
  {
  }

  /** Backspace looks for a newline in the gap and not in the character it takes out, so a newline taken
      out goes unnoticed, unless the gap was used up and another newline follows. */
  predicate LosesLine(s: Gap)
    requires Bounded(s)
  {
    && s.cursor > 0 && s.buffer[s.cursor - 1] == NEWLINE
    && !(s.gap == 0 && s.cursor < |s.buffer| && s.buffer[s.cursor] == NEWLINE)
  }

  // ---------------------------------------------------------------- the object

  class GapBuffer {
    var buffer: seq<Point>
    var cursor: nat
    var gap: nat
    const gapSize: nat
    var lineStart: nat

    function Value(): Gap
      reads this
    {
      Gap(buffer, cursor, gap, gapSize)
    }

    /** The recorded line start is the start of the cursor's line. */
    ghost predicate LineKnown()
      reads this
    {
      cursor <= |buffer| && StartsLine(buffer[..cursor], lineStart)
    }

    /** `bytes` is the text's length in UTF-8.  The cursor is put after that many places, so a text
        with longer characters is followed by zeros, which count as text. */
    constructor (text: Text, bytes: nat, gapSize: nat)
      requires |text| <= bytes && bytes + gapSize > 0
      ensures Valid(Value()) && gap == this.gapSize == gapSize
      ensures View(Value()) == Pair(text + Zeros(bytes - |text|), [])
      ensures TextOf(Value()) == text <==> bytes == |text|
      ensures LineKnown()
    {
      buffer := text + Zeros(bytes - |text|) + Zeros(gapSize);
      cursor, gap, this.gapSize, lineStart := bytes, gapSize, gapSize, 0;
      new;
      var padded := text + Zeros(bytes - |text|);
      assert buffer == padded + Zeros(gapSize) + [];
      ValidIsPair(Value(), Pair(padded, []));
      assert TextOf(Value()) == padded;
      lineStart := FindLineStart();
    }

    /** Leaves the cursor at the end of the vector, past the gap: the state is good only without a gap. */
    method SetText(text: Text, bytes: nat)
      requires |text| <= bytes && bytes + gapSize > 0
      modifies this
      ensures buffer == text + Zeros(bytes - |text|) + Zeros(gapSize) && cursor == |buffer| && gap == gapSize
      ensures Valid(Value()) <==> gapSize == 0
    {
      buffer := text + Zeros(bytes - |text|) + Zeros(gapSize);
      cursor, gap := |buffer|, gapSize;
      lineStart := FindLineStart();
    }

    method Chr() returns (c: Option<Point>)
      ensures c == if cursor + gap < |buffer| then Some(buffer[cursor + gap]) else None
      ensures Bounded(Value()) ==> c == CharAt(TextOf(Value()), cursor)
    {
      return if cursor + gap < |buffer| then Some(buffer[cursor + gap]) else None;
    }

    method FindLineStart() returns (r: nat)
      requires buffer != [] && cursor <= |buffer|
      ensures r <= cursor
      ensures Bounded(Value()) ==> StartsLine(buffer[..cursor], r)
    {
      var eof := cursor + gap >= |buffer|;
      var i := if cursor == 0 then 0 else cursor - 1;
      if buffer[i] == NEWLINE && eof {
        return cursor;
      }
      while i > 0 && buffer[i] != NEWLINE
        invariant i < |buffer| && (i < cursor || i == 0)
        invariant forall j | i < j < cursor :: buffer[j] != NEWLINE
      {
        i := i - 1;
      }
      if cursor > 0 && i + 1 + gap < |buffer| && buffer[i] == NEWLINE {
        i := i + 1;
      }
      return i;
    }

    method ToString() returns (text: Text)
      requires Bounded(Value())
      ensures text == TextOf(Value())
    {
      text := [];
      for i := 0 to |buffer| - gap
        invariant text == TextOf(Value())[..i]
      {
        TextAt(Value(), i);
        text := text + [if i < cursor then buffer[i] else buffer[i + gap]];
      }
    }

    // ---- edits

    method Left() returns (moved: bool)
      requires Bounded(Value())
      modifies this`buffer, this`cursor, this`lineStart
      ensures moved == (old(cursor) > 0) && Value() == GapText.Left(old(Value()))
      ensures old(LineKnown()) ==> LineKnown()
      ensures (moved ==> old(buffer)[old(cursor) - 1] != NEWLINE) ==> lineStart == old(lineStart)
    {
      if cursor == 0 {
        return false;
      }
      ghost var before := buffer[..cursor];
      cursor := cursor - 1;
      var ch := buffer[cursor];
      buffer := buffer[cursor := 0];
      buffer := buffer[cursor + gap := ch];
      assert buffer[..cursor] == before[..|before| - 1];
      if StartsLine(before, lineStart) {
        OneLess(before, lineStart);
      }
      if ch == NEWLINE {
        lineStart := FindLineStart();
      }
      return true;
    }

    method Right() returns (moved: bool)
      requires Bounded(Value())
      modifies this`buffer, this`cursor, this`lineStart
      ensures moved == (old(cursor) + gap < |old(buffer)|) && Value() == GapText.Right(old(Value()))
      ensures old(LineKnown()) ==> LineKnown()
      ensures (moved ==> old(buffer)[old(cursor) + gap] != NEWLINE) ==> lineStart == old(lineStart)
      ensures moved && old(buffer)[old(cursor) + gap] == NEWLINE ==> LineKnown()
    {
      if cursor + gap == |buffer| {
        return false;
      }
      ghost var before := buffer[..cursor];
      var ch := buffer[cursor + gap];
      buffer := buffer[cursor + gap := 0];
      buffer := buffer[cursor := ch];
      cursor := cursor + 1;
      assert buffer[..cursor] == before + [ch];
      if StartsLine(before, lineStart) && ch != NEWLINE {
        OneMore(before, ch, lineStart);
      }
      if ch == NEWLINE {
        lineStart := FindLineStart();
      }
      return true;
    }

    method Backspace() returns (ok: bool)
      requires Bounded(Value())
      modifies this`buffer, this`cursor, this`gap, this`lineStart
      ensures ok == GapText.Backspace(old(Value())).Some?
      ensures ok ==> Value() == GapText.Backspace(old(Value())).value
      ensures ok && old(Valid(Value()) && LineKnown()) ==> (LineKnown() <==> !LosesLine(old(Value())))
      ensures ok && old(Valid(Value()) && LineKnown()) && !LineKnown() ==> lineStart == cursor + 1
    {
      if cursor == 0 {
        return true;
      }
      if cursor == |buffer| {
        return false;
      }
      ghost var before := buffer[..cursor];
      var ch := buffer[cursor];
      cursor := cursor - 1;
      buffer := buffer[cursor := 0];
      gap := gap + 1;
      assert buffer[..cursor] == before[..|before| - 1];
      if StartsLine(before, lineStart) {
        OneLess(before, lineStart);
      }
      if ch == NEWLINE {
        lineStart := FindLineStart();
      }
      return true;
    }

    method Delete() returns (ok: bool)
      requires Bounded(Value())
      modifies this`buffer, this`cursor, this`gap, this`lineStart
      ensures ok == GapText.Delete(old(Value())).Some?
      ensures ok ==> Value() == GapText.Delete(old(Value())).value
      ensures ok && old(Valid(Value()) && LineKnown()) ==> (LineKnown() <==> !LosesLine(GapText.Right(old(Value()))))
      ensures ok && old(Valid(Value()) && LineKnown()) && !LineKnown() ==> lineStart == cursor + 1
    {
      if Valid(Value()) {
        RightRefines(Value());
      }
      var _ := Right();
      ok := Backspace();
    }

    /** Appends room and moves the characters after the cursor one by one. */
    method Realloc() returns (ok: bool)
      requires Bounded(Value())
      modifies this`buffer, this`gap
      ensures ok == GapText.Realloc(old(Value())).Some?
      ensures ok ==> Value() == GapText.Realloc(old(Value())).value
    {
      ghost var was := Value();
      var size := |buffer|;
      buffer := buffer + Zeros(gapSize);
      gap := gapSize;
      var i := 0;
      while i < gapSize && cursor + i < size
        invariant 0 <= i <= Moved(was) && (i > 0 ==> cursor + i <= gapSize)
        invariant |buffer| == size + gapSize && gap == gapSize
        invariant forall p: nat | p < |buffer| :: buffer[p] == MovedAt(was, i, p)
      {
        if size + cursor + i >= |buffer| {
          return false;
        }
        var ch := buffer[cursor + i];
        buffer := buffer[size + cursor + i := ch];
        buffer := buffer[cursor + i := 0];
        i := i + 1;
      }
      assert buffer == MovedBuffer(was, Moved(was));
      return true;
    }

    method Insert(ch: Point) returns (ok: bool)
      requires Bounded(Value())
      modifies this`buffer, this`cursor, this`gap, this`lineStart
      ensures ok == GapText.Insert(old(Value()), ch).Some?
      ensures ok ==> Value() == GapText.Insert(old(Value()), ch).value
      ensures ok && (ch == NEWLINE || old(LineKnown())) ==> LineKnown()
      ensures ch != NEWLINE ==> lineStart == old(lineStart)
    {
      ghost var before := buffer[..cursor];
      if gap == 0 {
        ok := Realloc();
        if !ok {
          return;
        }
      }
      if cursor >= |buffer| || buffer[cursor] != 0 || gap == 0 {
        return false;
      }
      assert buffer[..cursor] == before;
      buffer := buffer[cursor := ch];
      cursor := cursor + 1;
      gap := gap - 1;
      assert buffer[..cursor] == before + [ch];
      if StartsLine(before, lineStart) && ch != NEWLINE {
        OneMore(before, ch, lineStart);
      }
      if ch == NEWLINE {
        lineStart := FindLineStart();
      }
      return true;
    }

    method Replace(ch: Point) returns (ok: bool)
      requires Bounded(Value())
      modifies this`buffer, this`cursor, this`gap, this`lineStart
      ensures ok == GapText.Replace(old(Value()), ch).Some?
      ensures ok ==> Value() == GapText.Replace(old(Value()), ch).value
      ensures ok && old(Valid(Value()) && LineKnown()) ==>
                (LineKnown() <==> ch == NEWLINE || !LosesLine(GapText.Right(old(Value()))))
      ensures ok && old(Valid(Value()) && LineKnown()) && !LineKnown() ==> lineStart == cursor + 1
    {
      ok := Delete();
      if !ok {
        return;
      }
      ok := Insert(ch);
      if !ok {
        return;
      }
      var _ := Left();
    }

    method Overwrite(ch: Point) returns (ok: bool)
      requires Bounded(Value())
      modifies this`buffer, this`cursor, this`gap, this`lineStart
      ensures ok == GapText.Overwrite(old(Value()), ch).Some?
      ensures ok ==> Value() == GapText.Overwrite(old(Value()), ch).value
      ensures ok && old(Valid(Value()) && LineKnown() && CanReplace(Value())) ==>
                (LineKnown() <==>
                  old(View(Value()).after) == [] || ch == NEWLINE || !LosesLine(GapText.Right(old(Value()))))
    {
      if Valid(Value()) {
        ReplaceRefinesIff(Value(), ch);
      }
      if cursor + gap == |buffer| {
        ok := Insert(ch);
        return;
      }
      ok := Replace(ch);
      if ok {
        var _ := Right();
      }
    }

    // ---- movements

    /** Only the cursor has moved, and the recorded line start with it. */
    twostate predicate MovedTo(c: nat)
      requires old(Valid(Value()))
      reads this
    {
      && Valid(Value()) && gap == old(gap) && cursor == c
      && TextOf(Value()) == old(TextOf(Value()))
      && (old(LineKnown()) ==> LineKnown())
    }

    method StepRight() returns (moved: bool, c: Option<Point>)
      requires Valid(Value())
      modifies this`buffer, this`cursor, this`lineStart
      ensures moved == (old(cursor) < |old(TextOf(Value()))|)
      ensures MovedTo(if moved then old(cursor) + 1 else old(cursor)) && c == CharAt(TextOf(Value()), cursor)
    {
      RightRefines(Value());
      moved := Right();
      c := Chr();
    }

    method StepLeft() returns (moved: bool, c: Option<Point>)
      requires Valid(Value())
      modifies this`buffer, this`cursor, this`lineStart
      ensures moved == (old(cursor) > 0)
      ensures MovedTo(if moved then old(cursor) - 1 else old(cursor)) && c == CharAt(TextOf(Value()), cursor)
    {
      LeftRefines(Value());
      moved := Left();
      c := Chr();
    }

    method RightWord(white: Point -> bool) returns (stayed: bool)
      requires Valid(Value())
      modifies this`buffer, this`cursor, this`lineStart
      ensures MovedTo(WordAfter(old(TextOf(Value())), old(cursor), white)) && stayed == (cursor == old(cursor))
    {
      ghost var t := TextOf(Value());
      var start := cursor;
      var c := Chr();
      while c.None? || white(c.value)
        invariant MovedTo(cursor) && cursor <= |t| && c == CharAt(t, cursor)
        invariant WordAfter(t, cursor, white) == WordAfter(t, start, white)
        decreases |t| - cursor
      {
        var moved;
        moved, c := StepRight();
        if !moved {
          break;
        }
      }
      return cursor == start;
    }

    method LineEnd() returns (stayed: bool)
      requires Valid(Value())
      modifies this`buffer, this`cursor, this`lineStart
      ensures MovedTo(LineEndOf(old(TextOf(Value())), old(cursor))) && stayed == (cursor == old(cursor))
    {
      ghost var t := TextOf(Value());
      var start := cursor;
      var c := Chr();
      while c.None? || c.value != NEWLINE
        invariant MovedTo(cursor) && cursor <= |t| && c == CharAt(t, cursor)
        invariant LineEndOf(t, cursor) == LineEndOf(t, start)
        decreases |t| - cursor
      {
        var moved;
        moved, c := StepRight();
        if !moved {
          break;
        }
      }
      return cursor == start;
    }

    method BackOverSpace(white: Point -> bool)
      requires Valid(Value())
      modifies this`buffer, this`cursor, this`lineStart
      ensures MovedTo(BackToWord(old(TextOf(Value())), old(cursor), white))
    {
      ghost var t := TextOf(Value());
      ghost var start := cursor;
      var c := Chr();
      while c.None? || white(c.value)
        invariant MovedTo(cursor) && cursor <= |t| && c == CharAt(t, cursor)
        invariant BackToWord(t, cursor, white) == BackToWord(t, start, white)
        decreases cursor
      {
        var moved;
        moved, c := StepLeft();
        if !moved {
          break;
        }
      }
    }

    method BackOverWord(white: Point -> bool)
      requires Valid(Value())
      modifies this`buffer, this`cursor, this`lineStart
      ensures MovedTo(BackToSpace(old(TextOf(Value())), old(cursor), white))
    {
      ghost var t := TextOf(Value());
      ghost var start := cursor;
      var c := Chr();
      while c.Some? && !white(c.value)
        invariant MovedTo(cursor) && cursor <= |t| && c == CharAt(t, cursor)
        invariant BackToSpace(t, cursor, white) == BackToSpace(t, start, white)
        decreases cursor
      {
        var moved;
        moved, c := StepLeft();
        if !moved {
          break;
        }
      }
    }

    method LeftWord(white: Point -> bool) returns (stayed: bool)
      requires Valid(Value())
      modifies this`buffer, this`cursor, this`lineStart
      ensures MovedTo(LeftWordOf(old(TextOf(Value())), old(cursor), white)) && stayed == (cursor == old(cursor))
    {
      var start := cursor;
      BackOverSpace(white);
      BackOverWord(white);
      var _, _ := StepRight();
      return cursor == start;
    }

    method BackOverLine()
      requires Valid(Value()) && cursor < |TextOf(Value())|
      modifies this`buffer, this`cursor, this`lineStart
      ensures MovedTo(BackToNewline(old(TextOf(Value())), old(cursor)))
    {
      ghost var t := TextOf(Value());
      ghost var start := cursor;
      var c := Chr();
      while c.None? || c.value != NEWLINE
        invariant MovedTo(cursor) && cursor < |t| && c == CharAt(t, cursor)
        invariant BackToNewline(t, cursor) == BackToNewline(t, start)
        decreases cursor
      {
        var moved;
        moved, c := StepLeft();
        if !moved {
          break;
        }
      }
    }

    method StepOffBreak() returns (ok: bool)
      requires Valid(Value())
      modifies this`buffer, this`cursor, this`lineStart
      ensures ok == OffBreak(old(TextOf(Value())), old(cursor)).Some?
      ensures MovedTo(if ok then OffBreak(old(TextOf(Value())), old(cursor)).value else 0)
    {
      var moved;
      var c := Chr();
      if c.None? {
        moved, c := StepLeft();
        if !moved {
          return false;
        }
      }
      if c.None? || c.value == NEWLINE {
        moved, c := StepLeft();
        return moved;
      }
      return true;
    }

    method LineStart() returns (stayed: bool)
      requires Valid(Value())
      modifies this`buffer, this`cursor, this`lineStart
      ensures MovedTo(LineStartOf(old(TextOf(Value())), old(cursor)))
      ensures stayed == (OffBreak(old(TextOf(Value())), old(cursor)).Some? && cursor == old(cursor))
    {
      var start := cursor;
      var ok := StepOffBreak();
      if !ok {
        return false;
      }
      BackOverLine();
      var c := Chr();
      if c.None? || c.value == NEWLINE {
        var moved, _ := StepRight();
        if !moved {
          return false;
        }
      }
      return cursor == start;
    }

    /** At most `cols` steps along the line. */
    method StepAlong(cols: nat)
      requires Valid(Value())
      modifies this`buffer, this`cursor, this`lineStart
      ensures MovedTo(Along(old(TextOf(Value())), old(cursor), cols))
    {
      ghost var t := TextOf(Value());
      ghost var start := cursor;
      for k := 0 to cols
        invariant MovedTo(cursor) && cursor == start + k <= |t|
        invariant LineEndOf(t, cursor) == LineEndOf(t, start)
      {
        var c := Chr();
        if c.None? || c.value == NEWLINE {
          break;
        }
        var _, _ := StepRight();
      }
    }

    method AlongFromStart(cols: nat)
      requires Valid(Value())
      modifies this`buffer, this`cursor, this`lineStart
      ensures MovedTo(Along(old(TextOf(Value())), LineStartOf(old(TextOf(Value())), old(cursor)), cols))
    {
      var _ := LineStart();
      StepAlong(cols);
    }

    method Up(cols: nat)
      requires Valid(Value())
      modifies this`buffer, this`cursor, this`lineStart
      ensures MovedTo(if old(lineStart) == 0 then old(cursor) else UpOf(old(TextOf(Value())), old(cursor), cols))
      ensures old(LineKnown()) ==> (old(lineStart) == 0 <==> IsLineStart(old(TextOf(Value())), old(cursor), 0))
    {
      FirstLineIff(Value(), lineStart);
      if lineStart == 0 {
        return;
      }
      var _ := LineStart();
      var _, _ := StepLeft();
      AlongFromStart(cols);
    }

    method OntoNextLine()
      requires Valid(Value())
      modifies this`buffer, this`cursor, this`lineStart
      ensures MovedTo(PastLineEnd(old(TextOf(Value())), old(cursor)))
    {
      var _ := LineEnd();
      var _, _ := StepRight();
    }

    method Down(cols: nat)
      requires Valid(Value())
      modifies this`buffer, this`cursor, this`lineStart
      ensures MovedTo(DownOf(old(TextOf(Value())), old(cursor), cols))
    {
      OntoNextLine();
      AlongFromStart(cols);
    }
  }
}
