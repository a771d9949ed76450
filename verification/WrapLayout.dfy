/** Where words go (src/ui/charbuff.rs), from one word to the next: a word is printed where the one before
    it stopped if it ends before the last column there, and otherwise at the start of a row. */
module WrapLayout {
  import opened Scanline
  import opened WordWrap

  /** A word goes to the tracked position if it leaves the last column free, and else to column 0 of the
      next row. */
  lemma WrapRule(cols: nat, at: Cursor, w: Text)
    ensures at.idx + |w| < cols ==> Start(cols, at, w) == cols * at.row + at.idx
    ensures at.idx + |w| >= cols ==> Start(cols, at, w) == cols * (at.row + 1)
  {
  }

  lemma OnePartOn(cols: nat, at: Cursor, parts: seq<Part>, k: nat)
    requires cols > 0 && k < |parts|
    ensures AdvanceAll(cols, at, parts[..k + 1]) == Advance(cols, AdvanceAll(cols, at, parts[..k]), parts[k])
  {
    assert parts[..k + 1][..k] == parts[..k];
  }

  /** The row and column of an offset. */
  function CursorOf(cols: nat, offset: nat): Cursor
    requires cols > 0
  {
    Cursor(offset / cols, offset % cols)
  }

  lemma PastWord(cols: nat, at: Cursor, w: Text, stop: nat)
    requires cols > 0 && stop == Start(cols, at, w) + |w|
    ensures Advance(cols, at, Word(w)) == CursorOf(cols, stop)
  {
    TrackedIsPastWord(cols, at, w);
  }

  /** After a word the tracked position is where it stopped. */
  lemma TrackedAfterWord(cols: nat, at: Cursor, parts: seq<Part>, k: nat)
    requires cols > 0 && k < |parts| && parts[k].Word?
    ensures
      AdvanceAll(cols, at, parts[..k + 1]) == CursorOf(cols, StartOf(cols, at, parts, k) + |parts[k].chars|)
  {
    OnePartOn(cols, at, parts, k);
    PastWord(cols, AdvanceAll(cols, at, parts[..k]), parts[k].chars,
             StartOf(cols, at, parts, k) + |parts[k].chars|);
  }

  /** Newlines count rows and go to column 0. */
  lemma {:induction false} TrackedAfterBreaks(cols: nat, at: Cursor, parts: seq<Part>, j: nat, k: nat)
    requires cols > 0 && j <= k <= |parts| && forall i | j <= i < k :: parts[i].LineBreak?
    ensures
      var from := AdvanceAll(cols, at, parts[..j]);
      AdvanceAll(cols, at, parts[..k]) == if j == k then from else Cursor(from.row + (k - j), 0)
  {
    if j < k {
      TrackedAfterBreaks(cols, at, parts, j, k - 1);
      assert parts[..k][..k - 1] == parts[..k - 1];
    }
  }

  /** The first word, after `k` newlines, if any. */
  lemma FirstWordStarts(cols: nat, at: Cursor, parts: seq<Part>, k: nat)
    requires cols > 0 && k < |parts| && parts[k].Word? && forall i | 0 <= i < k :: parts[i].LineBreak?
    ensures
      var n := |parts[k].chars|;
      StartOf(cols, at, parts, k) ==
      if k == 0 then (if at.idx + n < cols then cols * at.row + at.idx else cols * (at.row + 1))
      else if n < cols then cols * (at.row + k)
      else cols * (at.row + k + 1)
  {
    TrackedAfterBreaks(cols, at, parts, 0, k);
    WrapRule(cols, AdvanceAll(cols, at, parts[..k]), parts[k].chars);
  }

  /** A word that follows a word starts exactly where that one stopped if and only if it ends before the
      last column there; otherwise it starts the next row. */
  lemma NextWordStarts(cols: nat, at: Cursor, parts: seq<Part>, k: nat)
    requires cols > 0 && 0 < k < |parts| && parts[k - 1].Word? && parts[k].Word?
    ensures
      var stop := StartOf(cols, at, parts, k - 1) + |parts[k - 1].chars|;
      StartOf(cols, at, parts, k) ==
      if stop % cols + |parts[k].chars| < cols then stop else cols * (stop / cols + 1)
  {
    var stop := StartOf(cols, at, parts, k - 1) + |parts[k - 1].chars|;
    TrackedAfterWord(cols, at, parts, k - 1);
    WrapRule(cols, Cursor(stop / cols, stop % cols), parts[k].chars);
    Divides(stop, cols);
  }

  /** A word after newlines starts a row: as many rows down as there are newlines, and one more if it is
      as long as a row or longer. */
  lemma WordAfterBreaksStarts(cols: nat, at: Cursor, parts: seq<Part>, j: nat, k: nat)
    requires cols > 0 && j + 1 < k < |parts| && parts[j].Word? && parts[k].Word?
    requires forall i | j < i < k :: parts[i].LineBreak?
    ensures
      var stop := StartOf(cols, at, parts, j) + |parts[j].chars|;
      var row := stop / cols + (k - j - 1);
      StartOf(cols, at, parts, k) == if |parts[k].chars| < cols then cols * row else cols * (row + 1)
  {
    TrackedAfterWord(cols, at, parts, j);
    TrackedAfterBreaks(cols, at, parts, j + 1, k);
    WrapRule(cols, AdvanceAll(cols, at, parts[..k]), parts[k].chars);
  }

  /** The cursor returned is where the last word stopped, whatever newlines follow it, or the start when
      there is no word. */
  lemma {:induction false} ReturnedIsLastStop(cols: nat, at: Cursor, parts: seq<Part>, k: nat)
    requires cols > 0 && k <= |parts| && forall i | k <= i < |parts| :: parts[i].LineBreak?
    requires k > 0 ==> parts[k - 1].Word?
    ensures
      Returned(cols, at, parts) ==
      if k == 0 then (at.row, at.idx)
      else
        var stop := StartOf(cols, at, parts, k - 1) + |parts[k - 1].chars|;
        (stop / cols, stop % cols)
  {
    if k < |parts| {
      var most := parts[..|parts| - 1];
      ReturnedIsLastStop(cols, at, most, k);
      assert k > 0 ==> most[..k - 1] == parts[..k - 1];
    } else if k > 0 {
      TrackedAfterWord(cols, at, parts, k - 1);
      assert parts[..k] == parts;
    }
  }

  /** The split of a text is unique: no other parts are as long as they can be and give the text back. */
  lemma {:induction false} SplitIsUnique(white: char -> bool, a: seq<Part>, b: seq<Part>)
    requires white('\n') && Maximal(white, a) && Maximal(white, b) && Joined(a) == Joined(b)
    ensures a == b
  {
    if a != [] && b != [] {
      var m, n := |a| - 1, |b| - 1;
      LastPartsAgree(white, a, b);
      SplitIsUnique(white, a[..m], b[..n]);
      assert a == a[..m] + [a[m]] && b == b[..n] + [b[n]];
    } else {
      NothingJoined(white, a);
      NothingJoined(white, b);
    }
  }

  lemma NothingJoined(white: char -> bool, parts: seq<Part>)
    requires Maximal(white, parts)
    ensures Joined(parts) == [] <==> parts == []
  {
  }

  lemma LastPartsAgree(white: char -> bool, a: seq<Part>, b: seq<Part>)
    requires white('\n') && Maximal(white, a) && Maximal(white, b) && Joined(a) == Joined(b)
    requires a != [] && b != []
    ensures a[|a| - 1] == b[|b| - 1] && Joined(a[..|a| - 1]) == Joined(b[..|b| - 1])
    ensures Maximal(white, a[..|a| - 1]) && Maximal(white, b[..|b| - 1])
  {
    var m, n := |a| - 1, |b| - 1;
    PartIsSuffix(white, a);
    PartIsSuffix(white, b);
    SuffixesAgree(white, Joined(a), Joined(a[..m]), PartText(a[m]), Joined(b[..n]), PartText(b[n]));
    SamePart(white, a[m], b[n]);
    MostIsMaximal(white, a);
    MostIsMaximal(white, b);
  }

  lemma MostIsMaximal(white: char -> bool, parts: seq<Part>)
    requires Maximal(white, parts) && parts != []
    ensures Maximal(white, parts[..|parts| - 1])
  {
    var most := parts[..|parts| - 1];
    forall k | 0 <= k < |most| ensures Whole(white, most[k]) {
      assert Whole(white, parts[k]);
    }
    forall k | 0 <= k < |most| - 1 ensures !(Dark(white, most[k]) && Dark(white, most[k + 1])) {
      assert most[k] == parts[k] && most[k + 1] == parts[k + 1];
    }
  }

  lemma SamePart(white: char -> bool, p: Part, q: Part)
    requires white('\n') && Whole(white, p) && Whole(white, q) && PartText(p) == PartText(q)
    ensures p == q
  {
    assert PartText(p)[0] == PartText(q)[0];
  }

  /** The end of a text that `PartIsSuffix` describes. */
  ghost predicate LastRun(white: char -> bool, text: Text, x: Text) {
    && 0 < |x| <= |text| && text == text[..|text| - |x|] + x
    && (if white(x[|x| - 1]) then |x| == 1
        else
          && (forall i | 0 <= i < |x| :: !white(x[i]))
          && (|x| < |text| ==> white(text[|text| - |x| - 1])))
  }

  lemma LongestRun(white: char -> bool, text: Text, x: Text, y: Text)
    requires LastRun(white, text, x) && LastRun(white, text, y)
    ensures |x| >= |y|
  {
    assert text[|text| - 1] == x[|x| - 1] == y[|y| - 1];
    assert forall p | |text| - |y| <= p < |text| :: text[p] == y[p - (|text| - |y|)];
  }

  lemma SuffixesAgree(white: char -> bool, text: Text, before: Text, x: Text, earlier: Text, y: Text)
    requires text == before + x == earlier + y && LastRun(white, text, x) && LastRun(white, text, y)
    ensures x == y && before == earlier
  {
    assert text[|text| - 1] == x[|x| - 1] == y[|y| - 1];
    LongestRun(white, text, x, y);
    LongestRun(white, text, y, x);
    assert text[|text| - |x|..] == x && text[|text| - |x|..] == y;
    assert text[..|text| - |x|] == before && text[..|text| - |x|] == earlier;
  }

  /** The last part ends the text, and a dark one has white space, or nothing, before it. */
  lemma PartIsSuffix(white: char -> bool, parts: seq<Part>)
    requires white('\n') && Maximal(white, parts) && parts != []
    ensures
      var x := PartText(parts[|parts| - 1]);
      Joined(parts) == Joined(parts[..|parts| - 1]) + x && LastRun(white, Joined(parts), x)
  {
    var n := |parts| - 1;
    LastTwo(white, parts);
    if n > 0 && Dark(white, parts[n]) {
      EndsWhite(white, parts[..n]);
    }
    WholeAtEnd(white, Joined(parts[..n]), parts[n]);
  }

  lemma LastTwo(white: char -> bool, parts: seq<Part>)
    requires Maximal(white, parts) && parts != []
    ensures Whole(white, parts[|parts| - 1])
    ensures |parts| > 1 && Dark(white, parts[|parts| - 1]) ==>
              Whole(white, parts[..|parts| - 1][|parts| - 2]) && !Dark(white, parts[..|parts| - 1][|parts| - 2])
  {
    var n := |parts| - 1;
    if n > 0 {
      assert parts[..n][n - 1] == parts[n - 1] && parts[n] == parts[n - 1 + 1];
    }
  }

  lemma WholeAtEnd(white: char -> bool, before: Text, p: Part)
    requires white('\n') && Whole(white, p)
    requires Dark(white, p) && before != [] ==> white(before[|before| - 1])
    ensures LastRun(white, before + PartText(p), PartText(p))
  {
    RunAtEnd(white, before, PartText(p));
  }

  lemma RunAtEnd(white: char -> bool, before: Text, x: Text)
    requires x != []
    requires if white(x[|x| - 1]) then |x| == 1
             else (forall i | 0 <= i < |x| :: !white(x[i])) && (before != [] ==> white(before[|before| - 1]))
    ensures LastRun(white, before + x, x)
  {
    var text := before + x;
    assert text[..|text| - |x|] == before;
    assert before != [] ==> text[|before| - 1] == before[|before| - 1];
  }

  lemma EndsWhite(white: char -> bool, parts: seq<Part>)
    requires white('\n') && parts != [] && Whole(white, parts[|parts| - 1]) && !Dark(white, parts[|parts| - 1])
    ensures Joined(parts) != [] && white(Joined(parts)[|Joined(parts)| - 1])
  {
    var last := PartText(parts[|parts| - 1]);
    assert |last| == 1 && white(last[0]);
    assert Joined(parts) == Joined(parts[..|parts| - 1]) + last;
  }
}
