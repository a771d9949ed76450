/** The gap buffer of a text area (src/ui/forms/textarea.rs): one vector holds the text before the
    cursor, a gap of zeros, and the text after it.  These functions are its edits on values; they are
    related to a pair of texts, before and after the cursor. */
module GapText {
  import opened Prelude

  /** A Unicode code point. */
  type Point = nat
  type Text = seq<Point>

  datatype Gap = Gap(buffer: seq<Point>, cursor: nat, gap: nat, gapSize: nat)

  datatype Pair = Pair(before: Text, after: Text)

  predicate Bounded(s: Gap) {
    s.cursor + s.gap <= |s.buffer|
  }

  predicate AllZero(t: Text) {
    forall i | 0 <= i < |t| :: t[i] == 0
  }

  predicate Valid(s: Gap) {
    Bounded(s) && AllZero(s.buffer[s.cursor..s.cursor + s.gap])
  }

  function View(s: Gap): Pair
    requires Bounded(s)
  {
    Pair(s.buffer[..s.cursor], s.buffer[s.cursor + s.gap..])
  }

  function TextOf(s: Gap): Text
    requires Bounded(s)
  {
    View(s).before + View(s).after
  }

  function Zeros(n: nat): (r: Text)
    ensures |r| == n && AllZero(r)
  {
    if n == 0 then [] else Zeros(n - 1) + [0]
  }

  lemma ZerosAre(t: Text)
    requires AllZero(t)
    ensures t == Zeros(|t|)
  {
    var zeros := Zeros(|t|);
    assert forall i | 0 <= i < |t| :: t[i] == 0 && zeros[i] == 0;
  }

  /** A valid buffer is its two texts around the gap, and nothing else. */
  lemma ValidIsPair(s: Gap, v: Pair)
    ensures Valid(s) && View(s) == v <==>
              s.buffer == v.before + Zeros(s.gap) + v.after && s.cursor == |v.before|
  {
    var whole := v.before + Zeros(s.gap) + v.after;
    if Valid(s) && View(s) == v {
      ZerosAre(s.buffer[s.cursor..s.cursor + s.gap]);
      assert s.buffer == s.buffer[..s.cursor] + s.buffer[s.cursor..s.cursor + s.gap] + s.buffer[s.cursor + s.gap..];
    }
    if s.buffer == whole && s.cursor == |v.before| {
      assert whole[..|v.before|] == v.before;
      assert whole[|v.before|..|v.before| + s.gap] == Zeros(s.gap);
      assert whole[|v.before| + s.gap..] == v.after;
    }
  }

  // ---------------------------------------------------------------- edits on values

  function Left(s: Gap): (r: Gap)
    requires Bounded(s)
    ensures Bounded(r)
  {
    if s.cursor == 0 then s
    else
      var c := s.cursor - 1;
      s.(cursor := c, buffer := s.buffer[c := 0][c + s.gap := s.buffer[c]])
  }

  function Right(s: Gap): (r: Gap)
    requires Bounded(s)
    ensures Bounded(r)
  {
    if s.cursor + s.gap == |s.buffer| then s
    else
      var ch := s.buffer[s.cursor + s.gap];
      s.(cursor := s.cursor + 1, buffer := s.buffer[s.cursor + s.gap := 0][s.cursor := ch])
  }

  /** `None` is a panic. */
  function Backspace(s: Gap): (r: Option<Gap>)
    requires Bounded(s)
    ensures r.Some? ==> Bounded(r.value)
  {
    if s.cursor == 0 then Some(s)
    else if s.cursor == |s.buffer| then None
    else Some(s.(buffer := s.buffer[s.cursor - 1 := 0], cursor := s.cursor - 1, gap := s.gap + 1))
  }

  function Delete(s: Gap): (r: Option<Gap>)
    requires Bounded(s)
    ensures r.Some? ==> Bounded(r.value)
  {
    Backspace(Right(s))
  }

  /** How many characters reallocation moves. */
  function Moved(s: Gap): nat
    requires s.cursor <= |s.buffer|
  {
    if s.gapSize < |s.buffer| - s.cursor then s.gapSize else |s.buffer| - s.cursor
  }

  /** A moved character would land past the end. */
  predicate ReallocPanics(s: Gap)
    requires s.cursor <= |s.buffer|
  {
    Moved(s) > 0 && s.cursor + Moved(s) > s.gapSize
  }

  /** What the vector holds at `p` once it is longer and `n` characters were moved. */
  function MovedAt(s: Gap, n: nat, p: nat): Point
    requires s.cursor + n <= |s.buffer|
  {
    var size := |s.buffer|;
    if s.cursor <= p < s.cursor + n then 0
    else if p < size then s.buffer[p]
    else if size + s.cursor <= p < size + s.cursor + n then s.buffer[p - size]
    else 0
  }

  function MovedBuffer(s: Gap, n: nat): (r: seq<Point>)
    requires s.cursor + n <= |s.buffer|
    ensures |r| == |s.buffer| + s.gapSize
    ensures forall p: nat | p < |r| :: r[p] == MovedAt(s, n, p)
  {
    seq(|s.buffer| + s.gapSize, p requires p >= 0 => MovedAt(s, n, p))
  }

  /** Grows a buffer whose gap is used up. */
  function Realloc(s: Gap): Option<Gap>
    requires s.cursor <= |s.buffer|
  {
    if ReallocPanics(s) then None
    else
      var buffer := MovedBuffer(s, Moved(s));
      Some(s.(buffer := buffer, gap := s.gapSize))
  }

  function Fill(s: Gap, ch: Point): Option<Gap> {
    if s.cursor >= |s.buffer| || s.buffer[s.cursor] != 0 || s.gap == 0 then None
    else Some(s.(buffer := s.buffer[s.cursor := ch], cursor := s.cursor + 1, gap := s.gap - 1))
  }

  function Insert(s: Gap, ch: Point): (r: Option<Gap>)
    requires Bounded(s)
    ensures r.Some? ==> Bounded(r.value)
  {
    if s.gap > 0 then Fill(s, ch)
    else
      match Realloc(s)
      case Some(t) => Fill(t, ch)
      case None => None
  }

  // ---------------------------------------------------------------- edits on pairs

  function PairLeft(v: Pair): Pair {
    if v.before == [] then v
    else
      var n := |v.before| - 1;
      Pair(v.before[..n], [v.before[n]] + v.after)
  }

  function PairRight(v: Pair): Pair {
    if v.after == [] then v else Pair(v.before + [v.after[0]], v.after[1..])
  }

  function PairBackspace(v: Pair): Pair {
    if v.before == [] then v else Pair(v.before[..|v.before| - 1], v.after)
  }

  /** At the end of the text the character before the cursor goes. */
  function PairDelete(v: Pair): Pair {
    if v.after == [] then PairBackspace(v) else Pair(v.before, v.after[1..])
  }

  /** Moving the last character before the gap to its other side. */
  lemma ShiftLeft(a: Text, x: Point, g: nat, c: Text, buffer: Text)
    requires buffer == (a + [x]) + Zeros(g) + c
    ensures buffer[|a| := 0][|a| + g := x] == a + Zeros(g) + ([x] + c)
  {
    ZerosFront(g);
    assert buffer[|a| := 0] == a + ([0] + Zeros(g)) + c;
    assert (a + (Zeros(g) + [0]) + c)[|a| + g := x] == a + Zeros(g) + ([x] + c);
  }

  lemma ShiftRight(a: Text, x: Point, g: nat, c: Text, buffer: Text)
    requires buffer == a + Zeros(g) + ([x] + c)
    ensures buffer[|a| + g := 0][|a| := x] == (a + [x]) + Zeros(g) + c
  {
    ZerosFront(g);
    assert buffer[|a| + g := 0] == a + (Zeros(g) + [0]) + c;
    assert (a + ([0] + Zeros(g)) + c)[|a| := x] == (a + [x]) + Zeros(g) + c;
  }

  lemma LeftMoves(s: Gap, a: Text, x: Point, c: Text)
    requires s.buffer == (a + [x]) + Zeros(s.gap) + c && s.cursor == |a| + 1
    ensures Bounded(s) && Valid(Left(s)) && View(Left(s)) == Pair(a, [x] + c)
  {
    assert s.buffer[|a|] == x;
    ShiftLeft(a, x, s.gap, c, s.buffer);
    ValidIsPair(Left(s), Pair(a, [x] + c));
  }

  lemma RightMoves(s: Gap, a: Text, x: Point, c: Text)
    requires s.buffer == a + Zeros(s.gap) + ([x] + c) && s.cursor == |a|
    ensures Bounded(s) && Valid(Right(s)) && View(Right(s)) == Pair(a + [x], c)
  {
    assert s.buffer[|a| + s.gap] == x;
    ShiftRight(a, x, s.gap, c, s.buffer);
    ValidIsPair(Right(s), Pair(a + [x], c));
  }

  lemma SameText(a: Text, x: Point, c: Text, after: Text)
    requires after == [x] + c
    ensures a + after == (a + [x]) + c
  {
  }

  lemma LeftRefines(s: Gap)
    requires Valid(s)
    ensures Valid(Left(s)) && View(Left(s)) == PairLeft(View(s)) && TextOf(Left(s)) == TextOf(s)
  {
    if s.cursor > 0 {
      var v := View(s);
      var n := |v.before| - 1;
      ValidIsPair(s, v);
      assert v.before == v.before[..n] + [v.before[n]];
      LeftMoves(s, v.before[..n], v.before[n], v.after);
      SameText(v.before[..n], v.before[n], v.after, [v.before[n]] + v.after);
    }
  }

  lemma RightRefines(s: Gap)
    requires Valid(s)
    ensures Valid(Right(s)) && View(Right(s)) == PairRight(View(s)) && TextOf(Right(s)) == TextOf(s)
  {
    if s.cursor + s.gap < |s.buffer| {
      var v := View(s);
      ValidIsPair(s, v);
      assert v.after == [v.after[0]] + v.after[1..];
      RightMoves(s, v.before, v.after[0], v.after[1..]);
      SameText(v.before, v.after[0], v.after[1..], v.after);
    }
  }

  /** Left undoes right, to the last cell. */
  lemma LeftUndoesRight(s: Gap)
    requires Valid(s) && View(s).after != []
    ensures Left(Right(s)) == s
  {
    RightRefines(s);
    LeftRefines(Right(s));
    ValidIsPair(s, View(s));
    ValidIsPair(Left(Right(s)), View(Left(Right(s))));
    assert View(Left(Right(s))) == View(s);
  }

  /** Backspace panics exactly when the gap is used up at the end of a text. */
  lemma BackspaceRefines(s: Gap)
    requires Valid(s)
    ensures Backspace(s) == None <==> s.cursor > 0 && s.gap == 0 && View(s).after == []
    ensures Backspace(s).Some? ==>
              Valid(Backspace(s).value) && View(Backspace(s).value) == PairBackspace(View(s))
  {
    if s.cursor > 0 && s.cursor < |s.buffer| {
      var v := View(s);
      var n := |v.before| - 1;
      var t := Backspace(s).value;
      ValidIsPair(s, v);
      assert t.buffer == v.before[..n] + Zeros(s.gap + 1) + v.after by {
        ZerosFront(s.gap);
        assert t.buffer == v.before[..n] + ([0] + Zeros(s.gap)) + v.after;
      }
      ValidIsPair(t, PairBackspace(v));
    }
  }

  lemma {:induction false} ZerosFront(n: nat)
    ensures [0] + Zeros(n) == Zeros(n + 1)
  {
    assert forall i | 0 <= i < n + 1 :: ([0] + Zeros(n))[i] == 0 && Zeros(n + 1)[i] == 0;
  }

  /** Delete also panics on the last character of a text whose gap is used up. */
  lemma DeleteRefines(s: Gap)
    requires Valid(s)
    ensures Delete(s) == None <==> s.gap == 0 && s.buffer != [] && |View(s).after| <= 1
    ensures Delete(s).Some? ==> Valid(Delete(s).value) && View(Delete(s).value) == PairDelete(View(s))
  {
    RightRefines(s);
    BackspaceRefines(Right(s));
  }

  // ---------------------------------------------------------------- reallocation

  /** Where reallocation puts the text after the cursor back in place: there is none, or no room is
      added, or the vector was as long as the room added; or, by coincidence, the text from the
      start equals itself rotated, or the text after the cursor is all zeros and so looks like a gap. */
  predicate ReallocFits(s: Gap)
    requires s.cursor <= |s.buffer|
  {
    || s.cursor == |s.buffer| || s.gapSize == 0 || s.gapSize == |s.buffer|
    || (s.cursor == 0 && s.gapSize < |s.buffer| && s.buffer[s.gapSize..] + s.buffer[..s.gapSize] == s.buffer)
    || (s.gapSize > |s.buffer| && AllZero(s.buffer[s.cursor..]))
  }

  /** The edit did not panic, and left a valid buffer of these two texts. */
  ghost predicate Refines(t: Option<Gap>, v: Pair) {
    t.Some? && Valid(t.value) && View(t.value) == v
  }

  ghost predicate Kept(s: Gap, t: Option<Gap>)
    requires Bounded(s)
  {
    Refines(t, View(s))
  }

  lemma ReallocKeeps(s: Gap)
    requires s.gap == 0 && s.cursor <= |s.buffer| && ReallocFits(s)
    ensures Kept(s, Realloc(s))
  {
    if s.gapSize > |s.buffer| && AllZero(s.buffer[s.cursor..]) {
      ReallocOfZeros(s);
    } else if s.cursor < |s.buffer| && s.gapSize > 0 && s.gapSize != |s.buffer| {
      ReallocRotates(s);
    } else {
      ReallocInPlace(s);
    }
  }

  lemma ReallocInPlace(s: Gap)
    requires s.gap == 0 && s.cursor <= |s.buffer|
    requires s.cursor == |s.buffer| || s.gapSize == 0 || s.gapSize == |s.buffer|
    ensures Kept(s, Realloc(s))
  {
    var t := Realloc(s).value;
    assert t.buffer[..t.cursor] == s.buffer[..s.cursor];
    assert t.buffer[t.cursor + t.gap..] == s.buffer[s.cursor..];
  }

  /** From the start of a longer text the front is moved behind the rest. */
  lemma ReallocRotates(s: Gap)
    requires s.gap == 0 && s.cursor == 0 && 0 < s.gapSize < |s.buffer|
    ensures Realloc(s).Some? && Valid(Realloc(s).value)
    ensures View(Realloc(s).value) == Pair([], s.buffer[s.gapSize..] + s.buffer[..s.gapSize])
  {
    var t := Realloc(s).value;
    assert t.buffer[..t.cursor] == [];
    assert t.buffer[s.gapSize..] == s.buffer[s.gapSize..] + s.buffer[..s.gapSize];
  }

  lemma ReallocOfZeros(s: Gap)
    requires s.gap == 0 && s.cursor <= |s.buffer| && s.gapSize > |s.buffer| && AllZero(s.buffer[s.cursor..])
    ensures Kept(s, Realloc(s))
  {
    var t := Realloc(s).value;
    forall p: nat | s.cursor <= p < |t.buffer| ensures t.buffer[p] == 0 {
      if |s.buffer| + s.cursor <= p < |s.buffer| + |s.buffer| {
        assert t.buffer[p] == s.buffer[s.cursor..][p - |s.buffer| - s.cursor];
      }
    }
    assert t.buffer[..t.cursor] == s.buffer[..s.cursor];
    var after := s.buffer[s.cursor..];
    assert t.buffer[t.cursor + t.gap..] == after by {
      assert forall i | 0 <= i < |after| :: after[i] == 0;
    }
  }

  /** Otherwise it panics, or the text after the cursor is not what it was. */
  lemma ReallocLoses(s: Gap)
    requires s.gap == 0 && s.cursor <= |s.buffer| && !ReallocFits(s)
    ensures Realloc(s).Some? ==> Bounded(Realloc(s).value) && View(Realloc(s).value).after != View(s).after
  {
    if Realloc(s).Some? {
      var t := Realloc(s).value;
      if s.gapSize < |s.buffer| {
        ReallocRotates(s);
      } else {
        // the last character that is not zero has nothing to come from
        var last := LastNonZero(s.buffer[s.cursor..]);
        assert View(t).after[last] == t.buffer[s.cursor + s.gapSize + last];
        assert View(s).after[last] == s.buffer[s.cursor..][last];
        NothingAfterLast(s, last);
      }
    }
  }

  lemma {:induction false} LastNonZero(t: Text) returns (last: nat)
    requires !AllZero(t)
    ensures last < |t| && t[last] != 0 && forall i | last < i < |t| :: t[i] == 0
  {
    var n := |t| - 1;
    if t[n] != 0 {
      last := n;
    } else {
      var i :| 0 <= i < |t| && t[i] != 0;
      assert t[..n][i] != 0;
      last := LastNonZero(t[..n]);
    }
  }

  lemma NothingAfterLast(s: Gap, last: nat)
    requires s.gap == 0 && s.cursor <= |s.buffer| < s.gapSize && last < |s.buffer| - s.cursor
    requires forall i | last < i < |s.buffer| - s.cursor :: s.buffer[s.cursor..][i] == 0
    ensures MovedAt(s, Moved(s), s.cursor + s.gapSize + last) == 0
  {
    var p := s.cursor + s.gapSize + last;
    if |s.buffer| + s.cursor <= p < |s.buffer| + |s.buffer| {
      assert s.buffer[p - |s.buffer|] == s.buffer[s.cursor..][p - |s.buffer| - s.cursor];
    }
  }

  function PairInsert(v: Pair, ch: Point): Pair {
    Pair(v.before + [ch], v.after)
  }

  lemma FillRefines(s: Gap, ch: Point)
    requires Valid(s) && s.gap > 0
    ensures Fill(s, ch).Some? && Valid(Fill(s, ch).value) && View(Fill(s, ch).value) == PairInsert(View(s), ch)
  {
    var v := View(s);
    ValidIsPair(s, v);
    assert s.buffer[s.cursor..s.cursor + s.gap][0] == 0;
    ZerosFront(s.gap - 1);
    var t := Fill(s, ch).value;
    FillShifts(v.before, ch, s.gap - 1, v.after, s.buffer);
    ValidIsPair(t, PairInsert(v, ch));
  }

  lemma FillShifts(a: Text, x: Point, g: nat, c: Text, buffer: Text)
    requires buffer == a + ([0] + Zeros(g)) + c
    ensures buffer[|a| := x] == (a + [x]) + Zeros(g) + c
  {
  }

  /** There is room for a character, or room can be made. */
  predicate HasRoom(s: Gap)
    requires Bounded(s)
  {
    s.gap > 0 || (s.gapSize > 0 && ReallocFits(s))
  }

  /** Inserting works exactly when there is a gap left, or the buffer grows and that keeps the text. */
  lemma InsertRefinesIff(s: Gap, ch: Point)
    requires Valid(s)
    ensures Refines(Insert(s, ch), PairInsert(View(s), ch)) <==> HasRoom(s)
  {
    if s.gap > 0 {
      FillRefines(s, ch);
    } else {
      if ReallocFits(s) {
        ReallocKeeps(s);
        if s.gapSize > 0 {
          FillRefines(Realloc(s).value, ch);
        }
      } else {
        assert s.buffer[s.cursor..] == View(s).after;
        ReallocLoses(s);
        if Realloc(s).Some? {
          FillKeepsAfter(Realloc(s).value, ch);
        }
      }
    }
  }

  lemma FillKeepsAfter(s: Gap, ch: Point)
    requires Bounded(s)
    ensures Fill(s, ch).Some? ==> Bounded(Fill(s, ch).value) && View(Fill(s, ch).value).after == View(s).after
  {
    if Fill(s, ch).Some? {
      var t := Fill(s, ch).value;
      assert t.buffer[t.cursor + t.gap..] == s.buffer[s.cursor + s.gap..];
    }
  }

  // ---------------------------------------------------------------- runs of edits

  datatype Op =
    | DoInsert(ch: Point)
    | DoBackspace
    | DoDelete
    | DoReplace(ch: Point)
    | DoOverwrite(ch: Point)
    | DoLeft
    | DoRight

  function Replace(s: Gap, ch: Point): (r: Option<Gap>)
    requires Bounded(s)
    ensures r.Some? ==> Bounded(r.value)
  {
    match Delete(s)
    case None => None
    case Some(t) =>
      match Insert(t, ch)
      case None => None
      case Some(u) => Some(Left(u))
  }

  function Overwrite(s: Gap, ch: Point): (r: Option<Gap>)
    requires Bounded(s)
    ensures r.Some? ==> Bounded(r.value)
  {
    if s.cursor + s.gap == |s.buffer| then Insert(s, ch)
    else
      match Replace(s, ch)
      case None => None
      case Some(t) => Some(Right(t))
  }

  function Apply(s: Gap, op: Op): Option<Gap>
    requires Valid(s)
  {
    match op
    case DoInsert(ch) => Insert(s, ch)
    case DoBackspace => Backspace(s)
    case DoDelete => Delete(s)
    case DoReplace(ch) => Replace(s, ch)
    case DoOverwrite(ch) => Overwrite(s, ch)
    case DoLeft => Some(Left(s))
    case DoRight => Some(Right(s))
  }

  /** The edits on the pair: replacing at the end replaces the character before the cursor. */
  function PairApply(v: Pair, op: Op): Pair {
    match op
    case DoInsert(ch) => PairInsert(v, ch)
    case DoBackspace => PairBackspace(v)
    case DoDelete => PairDelete(v)
    case DoReplace(ch) => Pair(PairDelete(v).before, [ch] + PairDelete(v).after)
    case DoOverwrite(ch) => Pair(v.before + [ch], if v.after == [] then [] else v.after[1..])
    case DoLeft => PairLeft(v)
    case DoRight => PairRight(v)
  }

  function InsertLeft(s: Gap, ch: Point): Option<Gap>
    requires Bounded(s)
  {
    match Insert(s, ch)
    case None => None
    case Some(t) => Some(Left(t))
  }

  lemma InsertLeftRefines(s: Gap, ch: Point)
    requires Valid(s) && HasRoom(s)
    ensures Refines(InsertLeft(s, ch), Pair(View(s).before, [ch] + View(s).after))
  {
    InsertRefinesIff(s, ch);
    LeftRefines(Insert(s, ch).value);
  }

  /** There is a gap, or the character deleted leaves one, or the text is empty and room can be made. */
  predicate CanReplace(s: Gap)
    requires Bounded(s)
  {
    s.gap > 0 || |View(s).after| >= 2 || (s.buffer == [] && s.gapSize > 0)
  }

  lemma DeleteLeavesRoom(s: Gap)
    requires Valid(s) && CanReplace(s)
    ensures Delete(s).Some? && Valid(Delete(s).value) && HasRoom(Delete(s).value)
  {
    DeleteRefines(s);
  }

  lemma ReplaceIsDeleteInsertLeft(s: Gap, ch: Point, t: Gap)
    requires Bounded(s) && Delete(s) == Some(t)
    ensures Replace(s, ch) == InsertLeft(t, ch)
  {
  }

  lemma NothingFits(s: Gap, ch: Point)
    requires s.buffer == [] && s.cursor == 0 && s.gap == 0 && s.gapSize == 0
    ensures Delete(s) == Some(s) && Insert(s, ch) == None
  {
  }

  lemma NoRoomToReplace(s: Gap, ch: Point)
    requires Valid(s) && !CanReplace(s)
    ensures Replace(s, ch) == None
  {
    if s.buffer == [] {
      NothingFits(s, ch);
      ReplaceIsDeleteInsertLeft(s, ch, s);
    } else {
      DeleteRefines(s);
    }
  }

  /** Replacing works exactly then. */
  lemma ReplaceRefinesIff(s: Gap, ch: Point)
    requires Valid(s)
    ensures Refines(Replace(s, ch), PairApply(View(s), DoReplace(ch))) <==> CanReplace(s)
  {
    if CanReplace(s) {
      DeleteLeavesRoom(s);
      DeleteRefines(s);
      var t := Delete(s).value;
      ReplaceIsDeleteInsertLeft(s, ch, t);
      InsertLeftRefines(t, ch);
    } else {
      NoRoomToReplace(s, ch);
    }
  }

  /** Overwriting inserts at the end and replaces elsewhere. */
  lemma OverwriteRefinesIff(s: Gap, ch: Point)
    requires Valid(s)
    ensures Refines(Overwrite(s, ch), PairApply(View(s), DoOverwrite(ch))) <==>
              if View(s).after == [] then HasRoom(s) else CanReplace(s)
  {
    if View(s).after == [] {
      InsertRefinesIff(s, ch);
    } else {
      ReplaceRefinesIff(s, ch);
      if CanReplace(s) {
        RightRefines(Replace(s, ch).value);
      }
    }
  }

  /** Whether an edit can be made: the condition each of them has to meet. */
  predicate StepFits(s: Gap, op: Op)
    requires Valid(s)
  {
    match op
    case DoInsert(_) => HasRoom(s)
    case DoBackspace => s.gap > 0 || s.cursor == 0 || View(s).after != []
    case DoDelete => s.gap > 0 || s.buffer == [] || |View(s).after| >= 2
    case DoReplace(_) => CanReplace(s)
    case DoOverwrite(_) => if View(s).after == [] then HasRoom(s) else CanReplace(s)
    case DoLeft => true
    case DoRight => true
  }

  /** An edit acts on the pair, without a panic and with the gap all zeros, exactly when it can be
      made. */
  lemma ApplyRefinesIff(s: Gap, op: Op)
    requires Valid(s)
    ensures Refines(Apply(s, op), PairApply(View(s), op)) <==> StepFits(s, op)
  {
    match op
    case DoInsert(ch) => InsertRefinesIff(s, ch);
    case DoBackspace => BackspaceRefines(s);
    case DoDelete => DeleteRefines(s);
    case DoReplace(ch) => ReplaceRefinesIff(s, ch);
    case DoOverwrite(ch) => OverwriteRefinesIff(s, ch);
    case DoLeft => LeftRefines(s);
    case DoRight => RightRefines(s);
  }

  function Run(s: Gap, ops: seq<Op>): Option<Gap> {
    if ops == [] then Some(s)
    else
      match Run(s, ops[..|ops| - 1])
      case None => None
      case Some(t) => if Valid(t) then Apply(t, ops[|ops| - 1]) else None
  }

  function PairRun(v: Pair, ops: seq<Op>): Pair {
    if ops == [] then v else PairApply(PairRun(v, ops[..|ops| - 1]), ops[|ops| - 1])
  }

  /** Every edit of the run can be made when its turn comes. */
  predicate RunFits(s: Gap, ops: seq<Op>) {
    if ops == [] then true
    else
      var n := |ops| - 1;
      && RunFits(s, ops[..n])
      && Run(s, ops[..n]).Some? && Valid(Run(s, ops[..n]).value) && StepFits(Run(s, ops[..n]).value, ops[n])
  }

  /** After every edit of the run the buffer is the pair that the same edits make. */
  ghost predicate RefinesThroughout(s: Gap, ops: seq<Op>)
    requires Bounded(s)
  {
    forall n | 0 <= n <= |ops| :: Refines(Run(s, ops[..n]), PairRun(View(s), ops[..n]))
  }

  lemma {:induction false} RunRefines(s: Gap, ops: seq<Op>)
    requires Valid(s) && RunFits(s, ops)
    ensures Refines(Run(s, ops), PairRun(View(s), ops))
  {
    if ops != [] {
      var n := |ops| - 1;
      RunRefines(s, ops[..n]);
      ApplyRefinesIff(Run(s, ops[..n]).value, ops[n]);
    }
  }

  lemma {:induction false} FitsBefore(s: Gap, ops: seq<Op>, n: nat)
    requires RunFits(s, ops) && n <= |ops|
    ensures RunFits(s, ops[..n])
    decreases |ops|
  {
    if n == |ops| {
      assert ops[..n] == ops;
    } else {
      assert ops[..|ops| - 1][..n] == ops[..n];
      FitsBefore(s, ops[..|ops| - 1], n);
    }
  }

  lemma {:induction false} RefiningFits(s: Gap, ops: seq<Op>)
    requires Valid(s) && RefinesThroughout(s, ops)
    ensures RunFits(s, ops)
  {
    if ops != [] {
      var n := |ops| - 1;
      var most := ops[..n];
      forall m | 0 <= m <= n ensures Refines(Run(s, most[..m]), PairRun(View(s), most[..m])) {
        assert most[..m] == ops[..m];
      }
      RefiningFits(s, most);
      assert most[..n] == most && ops[..n + 1] == ops;
      assert Refines(Run(s, most), PairRun(View(s), most));
      ApplyRefinesIff(Run(s, most).value, ops[n]);
    }
  }

  /** A run of edits of any length acts on the pair throughout, with the gap all zeros and no panic, if
      and only if every edit can be made when its turn comes. */
  lemma RunRefinesIff(s: Gap, ops: seq<Op>)
    requires Valid(s)
    ensures RefinesThroughout(s, ops) <==> RunFits(s, ops)
  {
    if RunFits(s, ops) {
      forall n | 0 <= n <= |ops| ensures Refines(Run(s, ops[..n]), PairRun(View(s), ops[..n])) {
        FitsBefore(s, ops, n);
        RunRefines(s, ops[..n]);
      }
    }
    if RefinesThroughout(s, ops) {
      RefiningFits(s, ops);
    }
  }

  /** Typing at the end of a text can go on for ever: the buffer grows as it must. */
  lemma {:induction false} TypingAtTheEndFits(s: Gap, ops: seq<Op>)
    requires Valid(s) && View(s).after == [] && s.gapSize > 0 && forall i | 0 <= i < |ops| :: ops[i].DoInsert?
    ensures RunFits(s, ops)
    ensures PairRun(View(s), ops).after == []
    ensures Run(s, ops).Some? && Run(s, ops).value.gapSize == s.gapSize
  {
    if ops != [] {
      var n := |ops| - 1;
      TypingAtTheEndFits(s, ops[..n]);
      RunRefines(s, ops[..n]);
      ApplyRefinesIff(Run(s, ops[..n]).value, ops[n]);
    }
  }
}
