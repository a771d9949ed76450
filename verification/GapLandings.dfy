/** Where the cursor's movements land, in the text's own terms: words and lines. */
module GapLandings {
  import opened Prelude
  import opened GapText
  import opened GapBuffers

  // ---------------------------------------------------------------- words

  /** The last word character at or before `c`. */
  ghost predicate LastWordChar(t: Text, c: nat, white: Point -> bool, p: nat) {
    && p < |t| && p <= c && !white(t[p])
    && forall i | p < i <= c && i < |t| :: white(t[i])
  }

  /** The first character of the word that holds `p`. */
  ghost predicate StartsWordOf(t: Text, white: Point -> bool, p: nat, r: nat) {
    && r <= p < |t| && (forall i | r <= i <= p :: !white(t[i]))
    && (r > 0 ==> white(t[r - 1]))
  }

  ghost predicate LandsOnWord(t: Text, c: nat, white: Point -> bool, r: nat) {
    exists p: nat :: LastWordChar(t, c, white, p) && StartsWordOf(t, white, p, r)
  }

  /** White space comes before some word character at or before `c`. */
  predicate SpaceBeforeWord(t: Text, c: nat, white: Point -> bool) {
    exists i, j | 0 <= i < j < |t| && j <= c :: white(t[i]) && !white(t[j])
  }

  /** Moving left lands on the first character of the current or last word if and only if there is
      white space before it.  From the first word of a text, and from spaces at its start, it lands on
      the second position. */
  lemma LeftWordLandsIff(t: Text, c: nat, white: Point -> bool)
    requires c <= |t|
    ensures LandsOnWord(t, c, white, LeftWordOf(t, c, white)) <==> SpaceBeforeWord(t, c, white)
    ensures !SpaceBeforeWord(t, c, white) ==> LeftWordOf(t, c, white) == if t == [] then 0 else 1
  {
    var p := BackToWord(t, c, white);
    var q := BackToSpace(t, p, white);
    var r := LeftWordOf(t, c, white);
    if SpaceBeforeWord(t, c, white) {
      var i, j :| 0 <= i < j < |t| && j <= c && white(t[i]) && !white(t[j]);
      assert j <= p && LastWordChar(t, c, white, p);
      assert i <= q && StartsWordOf(t, white, p, q + 1);
    }
    if LandsOnWord(t, c, white, r) {
      var w: nat :| LastWordChar(t, c, white, w) && StartsWordOf(t, white, w, r);
      assert white(t[r - 1]) && !white(t[w]);
    }
    if q > 0 {
      assert white(t[q]) && !white(t[p]);
    }
  }

  // ---------------------------------------------------------------- lines

  /** The cursor is on the empty line after a last newline. */
  predicate OnEmptyLastLine(t: Text, c: nat)
    requires c <= |t|
  {
    c == |t| && c > 0 && t[c - 1] == NEWLINE
  }

  lemma GoesToLineStart(t: Text, c: nat, a: nat)
    requires IsLineStart(t, c, a) && !OnEmptyLastLine(t, c)
    ensures LineStartOf(t, c) == a
  {
    LineStartIsStartIff(t, c);
    LineStartIsUnique(t, c, a, LineStartOf(t, c));
  }

  lemma LineEndIs(t: Text, c: nat, e: nat)
    requires c <= e <= |t| && (e < |t| ==> t[e] == NEWLINE) && forall i | c <= i < e :: t[i] != NEWLINE
    ensures LineEndOf(t, c) == e
  {
    var f := LineEndOf(t, c);
    assert !(f < e) && !(e < f);
  }

  /** Column `cols` of the line from `b` to `e`, or its end if it is shorter. */
  lemma AlongLine(t: Text, b: nat, e: nat, cols: nat)
    requires b <= e <= |t| && (e < |t| ==> t[e] == NEWLINE) && forall i | b <= i < e :: t[i] != NEWLINE
    ensures Along(t, b, cols) == b + Min(cols, e - b)
  {
    LineEndIs(t, b, e);
  }

  /** From the empty last line, going back goes to the start of the line before. */
  lemma EmptyLastLineGoesBack(t: Text, c: nat, b: nat)
    requires c <= |t| && OnEmptyLastLine(t, c) && IsLineStart(t, c - 1, b)
    ensures LineStartOf(t, c) == b
  {
  }

  /** Going up lands at the same column of the line before, or at its end if it is shorter, if and only
      if it does not start from the empty last line of a text with more than one line before that. */
  lemma UpLandsIff(t: Text, c: nat, a: nat, b: nat, cols: nat)
    requires IsLineStart(t, c, a) && a > 0 && IsLineStart(t, a - 1, b)
    ensures UpOf(t, c, cols) == b + Min(cols, a - 1 - b) <==> !(OnEmptyLastLine(t, c) && b > 0)
  {
    if OnEmptyLastLine(t, c) {
      assert a == c;
      EmptyLastLineGoesBack(t, c, b);
      if b == 0 {
        assert IsLineStart(t, 0, 0);
        GoesToLineStart(t, 0, 0);
        AlongLine(t, 0, a - 1, cols);
      } else {
        UpGoesTooFar(t, b, cols);
      }
    } else {
      GoesToLineStart(t, c, a);
      GoesToLineStart(t, a - 1, b);
      AlongLine(t, b, a - 1, cols);
    }
  }

  lemma UpGoesTooFar(t: Text, b: nat, cols: nat)
    requires 0 < b <= |t| && t[b - 1] == NEWLINE
    ensures Along(t, LineStartOf(t, b - 1), cols) < b
  {
    var x := LineStartOf(t, b - 1);
    assert LineEndOf(t, x) <= b - 1;
  }

  /** On the first line going up stays on it. */
  lemma UpOnFirstLine(t: Text, c: nat, e: nat, cols: nat)
    requires IsLineStart(t, c, 0) && c <= e == LineEndOf(t, 0)
    ensures UpOf(t, c, cols) == Min(cols, e)
  {
    GoesToLineStart(t, c, 0);
    assert IsLineStart(t, 0, 0);
    GoesToLineStart(t, 0, 0);
    AlongLine(t, 0, e, cols);
  }

  /** Going down lands at the same column of the next line, or at its end if it is shorter, if and only
      if the next line is not the empty last one: that line cannot be reached. */
  lemma DownLandsIff(t: Text, c: nat, n: nat, cols: nat)
    requires c <= |t| && LineEndOf(t, c) < |t| && n == LineEndOf(t, c) + 1
    ensures DownOf(t, c, cols) == n + Min(cols, LineEndOf(t, n) - n) <==> n < |t|
  {
    assert IsLineStart(t, n, n);
    if n < |t| {
      GoesToLineStart(t, n, n);
      AlongLine(t, n, LineEndOf(t, n), cols);
    } else {
      var x := LineStartOf(t, n);
      LineStartIsStartIff(t, n);
      assert x < n;
      assert LineEndOf(t, x) <= n - 1;
    }
  }

  /** On the last line going down stays on it, at column `cols` or the end; from an empty one it goes to
      the line before.  So it does nothing exactly when the cursor is already at that place. */
  lemma DownOnLastLine(t: Text, c: nat, a: nat, cols: nat)
    requires IsLineStart(t, c, a) && LineEndOf(t, c) == |t|
    ensures if OnEmptyLastLine(t, |t|) then DownOf(t, c, cols) < c else DownOf(t, c, cols) == a + Min(cols, |t| - a)
    ensures DownOf(t, c, cols) == c <==> !OnEmptyLastLine(t, |t|) && c - a == Min(cols, |t| - a)
  {
    if OnEmptyLastLine(t, |t|) {
      assert c == |t|;
      LineStartIsStartIff(t, |t|);
      var x := LineStartOf(t, |t|);
      assert LineEndOf(t, x) <= |t| - 1;
    } else {
      assert IsLineStart(t, |t|, a);
      GoesToLineStart(t, |t|, a);
      AlongLine(t, a, |t|, cols);
    }
  }
}
