/** Runs of the versioned store: creation, initialisations of the app and page loads, each committed
    or abandoned, and what every read then gives. */
module KvRuns {
  import opened Prelude
  import opened KvStore

  // ---------------------------------------------------------------- tips and heights

  /** The boot rows of a committed database: only the sentinel, and only before initialisation. */
  function BootOf(hist: History): Batch {
    if hist == [] then map[BOOT_KEY := None] else map[]
  }

  lemma SetUpHolds(hash: Value -> Hash)
    ensures Holds(hash, SetUp(), [], BootOf([]))
  {
  }

  lemma HeightsAreExact(hash: Value -> Hash, db: Db, hist: History, boot: Batch, h: nat, g: nat)
    requires Holds(hash, db, hist, boot) && h <= MAX_HEIGHT + 1
    ensures HasHeight(db, MakeTip(h), g) <==> g == h < |hist|
  {
    TipIsNotBoot(h);
    if HasHeight(db, MakeTip(h), g) {
      var key :| Row(MakeTip(h), g, key) in db.rows;
      assert RowFiled(hash, db, hist, boot, Row(MakeTip(h), g, key));
      TipsDiffer(g, h);
    }
    if g == h < |hist| {
      var key :| key in hist[h];
      assert RowFiled(hash, db, hist, boot, Row(MakeTip(h), h, key));
    }
  }

  lemma BootHeight(hash: Value -> Hash, db: Db, hist: History, boot: Batch, g: nat)
    requires Holds(hash, db, hist, boot)
    ensures HasHeight(db, BOOT, g) <==> g == 0 && boot != map[]
  {
    if HasHeight(db, BOOT, g) {
      var key :| Row(BOOT, g, key) in db.rows;
      assert RowFiled(hash, db, hist, boot, Row(BOOT, g, key));
    }
    if boot != map[] {
      var key :| key in boot;
      assert RowFiled(hash, db, hist, boot, Row(BOOT, 0, key));
    }
  }

  lemma TipIsLast(hash: Value -> Hash, db: Db, hist: History, boot: Batch, tip: Tip)
    requires Holds(hash, db, hist, boot) && hist != []
    ensures IsTip(db, tip) <==> tip == MakeTip(|hist| - 1)
  {
    var n := |hist| - 1;
    var key :| key in hist[n];
    var top := Row(MakeTip(n), n, key);
    TipIsNotBoot(n);
    assert RowFiled(hash, db, hist, boot, top);
    forall q | q in db.rows ensures NoLater(top, q) {
      assert RowFiled(hash, db, hist, boot, q);
      TipLeqTotal(top.tip, top.tip);
      GenesisIsBeforeBoot();
    }
    FirstRowWins(db, top, tip);
  }

  /** Boot rows have height 0 and the greatest tip, so they come last. */
  lemma GenesisIsBeforeBoot()
    ensures TipLeq(MakeTip(0), BOOT)
  {
    TipOfZero();
    assert GENESIS[0] < BOOT[0];
  }

  lemma FirstRowWins(db: Db, top: Row, tip: Tip)
    requires top in db.rows && forall q | q in db.rows :: NoLater(top, q)
    ensures IsTip(db, tip) <==> tip == top.tip
  {
    if IsTip(db, tip) {
      TipIsUnique(db, tip, top.tip);
    }
  }

  /** On an initialised database a page load has one way to begin: one above the last height. */
  lemma LoadBeginsAbove(hash: Value -> Hash, db: Db, hist: History, s: Session)
    requires Holds(hash, db, hist, map[]) && hist != []
    ensures LoadBegins(db, s) <==> s == Session(db, MakeTip(|hist| - 1), |hist|, MakeTip(|hist|))
  {
    var n := |hist| - 1;
    forall tip ensures IsTip(db, tip) <==> tip == MakeTip(n) {
      TipIsLast(hash, db, hist, map[], tip);
    }
    forall g: nat ensures HasHeight(db, MakeTip(n), g) <==> g == n {
      HeightsAreExact(hash, db, hist, map[], n, g);
    }
    TipIsNotBoot(n);
    TipOfZero();
    assert n == 0 ==> MakeTip(n) == GENESIS;
    OneTipBegins(db, MakeTip(n), n, s);
  }

  lemma OneTipBegins(db: Db, tip: Tip, n: nat, s: Session)
    requires forall t :: IsTip(db, t) <==> t == tip
    requires forall g: nat :: HasHeight(db, tip, g) <==> g == n
    requires tip != BOOT && (n == 0 ==> tip == GENESIS)
    ensures LoadBegins(db, s) <==> s == Session(db, tip, n + 1, MakeTip(n + 1))
  {
    assert IsTip(db, tip) && HasHeight(db, tip, n);
    assert TiplessHeight(db, tip, n);
    if s == Session(db, tip, n + 1, MakeTip(n + 1)) {
      assert Begins(db, tip, MakeTip(n + 1), s);
    }
  }

  lemma InitBeginsAtBoot(db: Db, s: Session)
    ensures InitBegins(db, s) <==> s == Session(db, BOOT, 0, GENESIS)
  {
    assert TiplessHeight(db, BOOT, 0);
  }

  // ---------------------------------------------------------------- writes

  lemma InsertKeepsSide(hash: Value -> Hash, db: Db, tip: Tip, height: nat, item: (Key, Value))
    requires Ideal(hash) && Addressed(hash, db) && Backed(db)
    ensures
      var next := Insert(hash, db, tip, height, item);
      Addressed(hash, next) && Backed(next)
  {
  }

  lemma {:induction false} InsertsInto(
      hash: Value -> Hash, db: Db, tip: Tip, height: nat, items: Items, r: Row, batch: Batch)
    requires Ideal(hash) && Addressed(hash, db) && Backed(db)
    requires r.tip == tip && r.height == height ==>
               && (r in db.rows <==> r.key in batch)
               && (r in db.rows ==> db.rows[r] == HashOf(hash, batch[r.key]))
    ensures
      var next := Inserts(hash, db, tip, height, items);
      var all := batch + Written(items);
      && Addressed(hash, next) && Backed(next)
      && if r.tip == tip && r.height == height then
           && (r in next.rows <==> r.key in all)
           && (r in next.rows ==> next.rows[r] == HashOf(hash, all[r.key]))
         else
           && (r in next.rows <==> r in db.rows)
           && (r in next.rows ==> next.rows[r] == db.rows[r])
  {
    if items != [] {
      var n := |items| - 1;
      InsertsInto(hash, db, tip, height, items[..n], r, batch);
      InsertKeepsSide(hash, Inserts(hash, db, tip, height, items[..n]), tip, height, items[n]);
    }
  }

  /** The batch a load has written so far, which is the last of the history unless it is empty. */
  lemma LoadRowsGrow(hash: Value -> Hash, db: Db, hist: History, batch: Batch, items: Items, next: Db, r: Row)
    requires Ideal(hash) && Holds(hash, db, Extend(hist, batch), map[])
    requires |hist| <= MAX_HEIGHT
    requires next == Inserts(hash, db, MakeTip(|hist|), |hist|, items)
    ensures Addressed(hash, next) && Backed(next)
    ensures
      RowFiled(hash, next, Extend(hist, batch + Written(items)), map[], r)
  {
    TipIsNotBoot(|hist|);
    assert RowFiled(hash, db, Extend(hist, batch), map[], r);
    InsertsInto(hash, db, MakeTip(|hist|), |hist|, items, r, batch);
  }

  /** A load's writes all land at its own tip and height. */
  lemma LoadPuts(hash: Value -> Hash, s: Session, hist: History, batch: Batch, items: Items, t: Session)
    requires Ideal(hash) && hist != [] && Dense(hist) && Holds(hash, s.work, Extend(hist, batch), map[])
    requires s == Session(s.work, MakeTip(|hist| - 1), |hist|, MakeTip(|hist|))
    ensures Puts(hash, s, items, t) <==> LoadWrites(hash, s, |hist|, items, t)
    ensures Puts(hash, s, items, t) ==> Holds(hash, t.work, Extend(hist, batch + Written(items)), map[])
  {
    LoadPutsOneWay(hash, s, |hist| - 1, Extend(hist, batch), items, t);
    if LoadWrites(hash, s, |hist|, items, t) {
      LoadPutsHold(hash, s.work, hist, batch, items, t.work);
    }
  }

  /** The items inserted at the session's next tip and height `h`, if the column can hold it. */
  ghost predicate LoadWrites(hash: Value -> Hash, s: Session, h: nat, items: Items, t: Session) {
    && (items != [] ==> h <= MAX_HEIGHT)
    && t == s.(work := Inserts(hash, s.work, s.nextTip, h, items))
  }

  lemma LoadPutsOneWay(hash: Value -> Hash, s: Session, n: nat, hist: History, items: Items, t: Session)
    requires Holds(hash, s.work, hist, map[]) && n < |hist| && s.chainTip == MakeTip(n)
    ensures Puts(hash, s, items, t) <==> LoadWrites(hash, s, n + 1, items, t)
  {
    TipIsNotBoot(n);
    forall g: nat ensures HasHeight(s.work, s.chainTip, g) <==> g == n {
      HeightsAreExact(hash, s.work, hist, map[], n, g);
    }
    OneHeightPuts(hash, s, n, items, t);
  }

  lemma OneHeightPuts(hash: Value -> Hash, s: Session, n: nat, items: Items, t: Session)
    requires s.chainTip != BOOT && forall g: nat :: HasHeight(s.work, s.chainTip, g) <==> g == n
    ensures Puts(hash, s, items, t) <==> LoadWrites(hash, s, n + 1, items, t)
  {
    assert HasHeight(s.work, s.chainTip, n);
    assert NextHeight(s.work, s.chainTip, n + 1);
    assert forall h: nat :: NextHeight(s.work, s.chainTip, h) ==> h == n + 1;
  }

  lemma LoadPutsHold(hash: Value -> Hash, db: Db, hist: History, batch: Batch, items: Items, next: Db)
    requires Ideal(hash) && Dense(hist) && Holds(hash, db, Extend(hist, batch), map[])
    requires items != [] ==> |hist| <= MAX_HEIGHT
    requires next == Inserts(hash, db, MakeTip(|hist|), |hist|, items)
    ensures Holds(hash, next, Extend(hist, batch + Written(items)), map[])
  {
    if items == [] {
      assert batch + Written(items) == batch;
    } else {
      forall r: Row
        ensures
          RowFiled(hash, next, Extend(hist, batch + Written(items)), map[], r)
      {
        LoadRowsGrow(hash, db, hist, batch, items, next, r);
      }
      InsertsInto(hash, db, MakeTip(|hist|), |hist|, items, Row([], 0, ""), batch);
    }
  }

  /** Writes on top of the boot tip all land under the boot tip at height 0. */
  lemma InitPuts(hash: Value -> Hash, s: Session, hist: History, boot: Batch, items: Items, t: Session)
    requires Ideal(hash) && Holds(hash, s.work, hist, boot) && s.chainTip == BOOT
    ensures Puts(hash, s, items, t) <==> t == s.(work := Inserts(hash, s.work, BOOT, 0, items))
    ensures Puts(hash, s, items, t) ==> Holds(hash, t.work, hist, boot + Written(items))
  {
    BootPuts(hash, s, hist, boot, items, t);
    if Puts(hash, s, items, t) {
      forall r: Row
        ensures
          RowFiled(hash, t.work, hist, boot + Written(items), r)
      {
        assert RowFiled(hash, s.work, hist, boot, r);
        InsertsInto(hash, s.work, BOOT, 0, items, r, boot);
      }
      InsertsInto(hash, s.work, BOOT, 0, items, Row([], 0, ""), map[]);
    }
  }

  lemma BootPuts(hash: Value -> Hash, s: Session, hist: History, boot: Batch, items: Items, t: Session)
    requires Holds(hash, s.work, hist, boot) && s.chainTip == BOOT
    ensures Puts(hash, s, items, t) <==> t == s.(work := Inserts(hash, s.work, BOOT, 0, items))
  {
    forall g: nat ensures HasHeight(s.work, BOOT, g) <==> g == 0 && boot != map[] {
      BootHeight(hash, s.work, hist, boot, g);
    }
    assert HasHeight(s.work, BOOT, 0) <==> boot != map[];
    assert NextHeight(s.work, BOOT, 1);
    assert forall h: nat :: NextHeight(s.work, BOOT, h) ==> h == 1;
  }

  // ---------------------------------------------------------------- commits

  predicate Collides(hist: History, boot: Batch) {
    hist != [] && exists key | key in boot :: key in hist[0]
  }

  /** The history once the boot rows have become rows of height 0. */
  function Merge(hist: History, boot: Batch): History {
    if hist == [] then (if boot == map[] then [] else [boot]) else [hist[0] + boot] + hist[1..]
  }

  lemma BootClashes(hash: Value -> Hash, db: Db, hist: History, boot: Batch)
    requires Holds(hash, db, hist, boot)
    ensures Clashes(db, BOOT, GENESIS) <==> Collides(hist, boot)
  {
    TipOfZero();
    TipIsNotBoot(0);
    if Clashes(db, BOOT, GENESIS) {
      var r :| r in db.rows && r.tip == BOOT && r.(tip := GENESIS) in db.rows;
      assert RowFiled(hash, db, hist, boot, r);
      assert RowFiled(hash, db, hist, boot, r.(tip := GENESIS));
    }
    if Collides(hist, boot) {
      var key :| key in boot && key in hist[0];
      assert RowFiled(hash, db, hist, boot, Row(BOOT, 0, key));
      assert RowFiled(hash, db, hist, boot, Row(GENESIS, 0, key));
    }
  }

  /** Where the row `r` of the renamed table comes from. */
  ghost predicate Moved(db: Db, next: Db, from: Tip, to: Tip, r: Row) {
    if r.tip == from then r !in next.rows
    else if r.tip == to && r.(tip := from) in db.rows then
      r in next.rows && next.rows[r] == db.rows[r.(tip := from)]
    else (r in next.rows <==> r in db.rows) && (r in db.rows ==> next.rows[r] == db.rows[r])
  }

  lemma RenamedRow(db: Db, from: Tip, to: Tip, r: Row)
    requires from != to
    ensures Moved(db, Renamed(db, from, to), from, to, r)
  {
    if r.tip == to && r.(tip := from) in db.rows {
      assert r == r.(tip := from).(tip := to);
    }
  }

  lemma InitCommitsRow(hash: Value -> Hash, db: Db, hist: History, boot: Batch, next: Db, r: Row)
    requires Dense(hist) && RowFiled(hash, db, hist, boot, r) && RowFiled(hash, db, hist, boot, r.(tip := BOOT))
    requires !Collides(hist, boot) && Moved(db, next, BOOT, GENESIS, r)
    ensures RowFiled(hash, next, Merge(hist, boot), map[], r)
  {
    TipOfZero();
    TipIsNotBoot(0);
    if r.tip == GENESIS && r.height == 0 {
      MergedKey(hist, boot, r.key);
    } else if r.tip != BOOT {
      MergeKeepsHome(hist, boot, r);
      assert RowFiled(hash, db, hist, boot, r.(tip := BOOT));
      assert r.(tip := BOOT) in db.rows ==> r.height == 0;
    }
  }

  lemma MergeKeepsHome(hist: History, boot: Batch, r: Row)
    requires Dense(hist) && r.tip != BOOT && !(r.tip == GENESIS && r.height == 0)
    ensures Home(Merge(hist, boot), map[], r) == Home(hist, boot, r)
  {
    TipOfZero();
  }

  lemma MergedKey(hist: History, boot: Batch, key: Key)
    requires !Collides(hist, boot)
    ensures
      var merged := Merge(hist, boot);
      && (key in boot ==> merged != [] && key in merged[0] && merged[0][key] == boot[key])
      && (hist != [] && key in hist[0] ==> merged != [] && key in merged[0] && merged[0][key] == hist[0][key])
      && (merged != [] && key in merged[0] ==> key in boot || (hist != [] && key in hist[0]))
  {
  }

  lemma RenamingKeepsBacked(db: Db, from: Tip, to: Tip)
    requires Backed(db)
    ensures Backed(Renamed(db, from, to))
  {
    if from != to {
      var next := Renamed(db, from, to);
      forall r | r in next.rows && next.rows[r] != BOOT_HASH
        ensures next.rows[r] in next.side
      {
        RenamedRow(db, from, to, r);
      }
    }
  }

  lemma InitCommits(hash: Value -> Hash, db: Db, hist: History, boot: Batch, next: Db)
    requires Holds(hash, db, hist, boot) && !Collides(hist, boot) && next == Renamed(db, BOOT, GENESIS)
    ensures Holds(hash, next, Merge(hist, boot), map[])
  {
    TipOfZero();
    TipIsNotBoot(0);
    forall r: Row ensures RowFiled(hash, next, Merge(hist, boot), map[], r) {
      RenamedRow(db, BOOT, GENESIS, r);
      InitCommitsRow(hash, db, hist, boot, next, r);
    }
    RenamingKeepsBacked(db, BOOT, GENESIS);
  }
}
