/** The laws of the versioned store over whole runs. */
module KvTheorems {
  import opened Prelude
  import opened KvStore
  import opened KvRuns

  /** A transaction's batches, in order, and whether it was committed or abandoned. */
  datatype Step =
    | Init(batches: seq<Items>, commit: bool)
    | Load(batches: seq<Items>, commit: bool)

  function Flat(batches: seq<Items>): Items {
    if batches == [] then [] else Flat(batches[..|batches| - 1]) + batches[|batches| - 1]
  }

  /** How writing several batches may change a transaction. */
  ghost predicate PutsAll(hash: Value -> Hash, s: Session, batches: seq<Items>, t: Session) {
    if batches == [] then s == t
    else
      var n := |batches| - 1;
      exists mid :: PutsAll(hash, s, batches[..n], mid) && Puts(hash, mid, batches[n], t)
  }

  ghost predicate Inited(hash: Value -> Hash, db: Db, step: Step, s: Session, t: Session, next: Db) {
    && InitBegins(db, s) && PutsAll(hash, s, step.batches, t)
    && next == if step.commit then Commit(db, t, GENESIS) else db
  }

  ghost predicate Loaded(hash: Value -> Hash, db: Db, step: Step, s: Session, t: Session, next: Db) {
    && LoadBegins(db, s) && PutsAll(hash, s, step.batches, t)
    && next == if step.commit then Commit(db, t, t.nextTip) else db
  }

  /** What one step may do to the committed database. */
  ghost predicate Stepped(hash: Value -> Hash, db: Db, step: Step, next: Db) {
    match step
    case Init(_, _) => exists s, t :: Inited(hash, db, step, s, t, next)
    case Load(_, _) => exists s, t :: Loaded(hash, db, step, s, t, next)
  }

  ghost predicate Ran(hash: Value -> Hash, db: Db, steps: seq<Step>, next: Db) {
    if steps == [] then db == next
    else
      var n := |steps| - 1;
      exists mid :: Ran(hash, db, steps[..n], mid) && Stepped(hash, mid, steps[n], next)
  }

  ghost predicate Initialised(steps: seq<Step>) {
    exists i :: 0 <= i < |steps| && steps[i].Init? && steps[i].commit
  }

  /** Page loads come after a committed initialisation, as the page loader orders them. */
  ghost predicate InitialisedFirst(steps: seq<Step>) {
    forall i | 0 <= i < |steps| && steps[i].Load? :: Initialised(steps[..i])
  }

  // ---------------------------------------------------------------- what the run means

  function Apply(hist: History, step: Step): History {
    if !step.commit then hist
    else
      match step
      case Load(batches, _) => Extend(hist, Written(Flat(batches)))
      case Init(batches, _) =>
        var boot := BootOf(hist) + Written(Flat(batches));
        if Collides(hist, boot) then hist else Merge(hist, boot)
  }

  function HistoryOf(steps: seq<Step>): History {
    if steps == [] then [] else Apply(HistoryOf(steps[..|steps| - 1]), steps[|steps| - 1])
  }

  lemma {:induction false} WrittenAppend(items: Items, more: Items)
    ensures Written(items + more) == Written(items) + Written(more)
  {
    if more == [] {
      assert items + more == items;
    } else {
      var n := |more| - 1;
      WrittenAppend(items, more[..n]);
      assert (items + more)[..|items| + n] == items + more[..n];
    }
  }

  /** A batch holds, for each key, the value last written to it. */
  lemma {:induction false} WrittenIsLast(items: Items, key: Key)
    ensures key in Written(items) <==> exists i :: 0 <= i < |items| && items[i].0 == key
    ensures forall i | 0 <= i < |items| && items[i].0 == key && (forall j | i < j < |items| :: items[j].0 != key) ::
              Written(items)[key] == Some(items[i].1)
  {
    if items != [] {
      var n := |items| - 1;
      WrittenIsLast(items[..n], key);
      if key in Written(items) && items[n].0 != key {
        var i :| 0 <= i < n && items[..n][i].0 == key;
        assert items[i].0 == key;
      }
      if i :| 0 <= i < |items| && items[i].0 == key {
        if i < n {
          assert items[..n][i].0 == key;
        }
      }
    }
  }

  // ---------------------------------------------------------------- transactions

  /** A load that has written `batches`: one possible state, in which the history ends with its writes. */
  lemma {:induction false} LoadRuns(hash: Value -> Hash, s: Session, hist: History, batches: seq<Items>, t: Session)
    requires Ideal(hash) && hist != [] && Holds(hash, s.work, hist, map[])
    requires s == Session(s.work, MakeTip(|hist| - 1), |hist|, MakeTip(|hist|))
    requires PutsAll(hash, s, batches, t)
    ensures Holds(hash, t.work, Extend(hist, Written(Flat(batches))), map[])
    ensures t == s.(work := t.work)
  {
    if batches != [] {
      var n := |batches| - 1;
      var mid :| PutsAll(hash, s, batches[..n], mid) && Puts(hash, mid, batches[n], t);
      LoadRuns(hash, s, hist, batches[..n], mid);
      LoadPuts(hash, mid, hist, Written(Flat(batches[..n])), batches[n], t);
      WrittenAppend(Flat(batches[..n]), batches[n]);
    }
  }

  lemma {:induction false} InitRuns(
      hash: Value -> Hash, s: Session, hist: History, boot: Batch, batches: seq<Items>, t: Session, all: Batch)
    requires Ideal(hash) && Holds(hash, s.work, hist, boot) && s.chainTip == BOOT
    requires PutsAll(hash, s, batches, t) && all == boot + Written(Flat(batches))
    ensures Holds(hash, t.work, hist, all)
    ensures t == s.(work := t.work)
  {
    if batches == [] {
      assert all == boot;
    } else {
      var n := |batches| - 1;
      var mid :| PutsAll(hash, s, batches[..n], mid) && Puts(hash, mid, batches[n], t);
      var some := boot + Written(Flat(batches[..n]));
      InitRuns(hash, s, hist, boot, batches[..n], mid, some);
      InitPuts(hash, mid, hist, some, batches[n], t);
      AllWritten(boot, batches, some, all);
    }
  }

  lemma AllWritten(boot: Batch, batches: seq<Items>, some: Batch, all: Batch)
    requires batches != [] && some == boot + Written(Flat(batches[..|batches| - 1]))
    requires all == boot + Written(Flat(batches))
    ensures all == some + Written(batches[|batches| - 1])
  {
    var n := |batches| - 1;
    WrittenAppend(Flat(batches[..n]), batches[n]);
    LaterWins(boot, Written(Flat(batches[..n])), Written(batches[n]));
  }

  lemma LaterWins(a: Batch, b: Batch, c: Batch)
    ensures a + (b + c) == (a + b) + c
  {
  }

  lemma LoadStepHolds(hash: Value -> Hash, db: Db, hist: History, step: Step, next: Db)
    requires Ideal(hash) && hist != [] && Holds(hash, db, hist, map[]) && step.Load? && Stepped(hash, db, step, next)
    ensures Holds(hash, next, Apply(hist, step), map[]) && Apply(hist, step) != []
  {
    var s, t :| Loaded(hash, db, step, s, t, next);
    LoadBeginsAbove(hash, db, hist, s);
    TipIsNotBoot(|hist| - 1);
    LoadRuns(hash, s, hist, step.batches, t);
  }

  lemma InitStepHolds(hash: Value -> Hash, db: Db, hist: History, step: Step, next: Db)
    requires Ideal(hash) && Holds(hash, db, hist, BootOf(hist)) && step.Init? && Stepped(hash, db, step, next)
    ensures Holds(hash, next, Apply(hist, step), BootOf(Apply(hist, step)))
    ensures hist != [] || step.commit ==> Apply(hist, step) != []
  {
    var s, t :| Inited(hash, db, step, s, t, next);
    InitBeginsAtBoot(db, s);
    InitRuns(hash, s, hist, BootOf(hist), step.batches, t, BootOf(hist) + Written(Flat(step.batches)));
    InitCommitHolds(hash, db, hist, step, t, next);
  }

  lemma InitCommitHolds(hash: Value -> Hash, db: Db, hist: History, step: Step, t: Session, next: Db)
    requires Holds(hash, db, hist, BootOf(hist)) && step.Init? && t.chainTip == BOOT
    requires Holds(hash, t.work, hist, BootOf(hist) + Written(Flat(step.batches)))
    requires next == if step.commit then Commit(db, t, GENESIS) else db
    ensures Holds(hash, next, Apply(hist, step), BootOf(Apply(hist, step)))
    ensures hist != [] || step.commit ==> Apply(hist, step) != []
  {
    var boot := BootOf(hist) + Written(Flat(step.batches));
    if step.commit {
      assert hist == [] ==> BOOT_KEY in boot;
      BootClashes(hash, t.work, hist, boot);
      TipIsNotBoot(0);
      TipOfZero();
      if !Collides(hist, boot) {
        InitCommits(hash, t.work, hist, boot, Renamed(t.work, BOOT, GENESIS));
      }
    }
  }

  /** Over every run, the table holds exactly what was committed, each row under the tip of its height. */
  lemma {:induction false} RunsAreFiled(hash: Value -> Hash, steps: seq<Step>, db: Db)
    requires Ideal(hash) && InitialisedFirst(steps) && Ran(hash, SetUp(), steps, db)
    ensures Holds(hash, db, HistoryOf(steps), BootOf(HistoryOf(steps)))
    ensures Initialised(steps) ==> HistoryOf(steps) != []
  {
    if steps == [] {
      SetUpHolds(hash);
    } else {
      var n := |steps| - 1;
      var most := steps[..n];
      var mid :| Ran(hash, SetUp(), most, mid) && Stepped(hash, mid, steps[n], db);
      EarlierIsInitialised(steps);
      RunsAreFiled(hash, most, mid);
      if steps[n].Load? {
        LoadStepHolds(hash, mid, HistoryOf(most), steps[n], db);
      } else {
        InitStepHolds(hash, mid, HistoryOf(most), steps[n], db);
        if Initialised(steps) {
          InitialisationLasts(steps);
        }
      }
    }
  }

  lemma EarlierIsInitialised(steps: seq<Step>)
    requires InitialisedFirst(steps) && steps != []
    ensures InitialisedFirst(steps[..|steps| - 1])
    ensures steps[|steps| - 1].Load? ==> Initialised(steps[..|steps| - 1])
  {
    var n := |steps| - 1;
    forall i | 0 <= i < n && steps[..n][i].Load?
      ensures Initialised(steps[..n][..i])
    {
      assert steps[i].Load?;
      assert steps[..n][..i] == steps[..i];
    }
  }

  lemma InitialisationLasts(steps: seq<Step>)
    requires Initialised(steps)
    ensures
      var n := |steps| - 1;
      (steps[n].Init? && steps[n].commit) || Initialised(steps[..n])
  {
    var i :| 0 <= i < |steps| && steps[i].Init? && steps[i].commit;
    if i < |steps| - 1 {
      assert steps[..|steps| - 1][i].commit;
    }
  }

  /** Hence the tip of every committed row is the tip of its height. */
  lemma TipsFollowHeights(hash: Value -> Hash, steps: seq<Step>, db: Db, r: Row)
    requires Ideal(hash) && InitialisedFirst(steps) && Ran(hash, SetUp(), steps, db)
    requires Initialised(steps) && r in db.rows
    ensures r.tip == MakeTip(r.height)
  {
    RunsAreFiled(hash, steps, db);
    assert RowFiled(hash, db, HistoryOf(steps), map[], r);
  }

  // ---------------------------------------------------------------- reads

  /** Any read, at any height, gives the value last committed at or below it. */
  lemma CommittedReads(hash: Value -> Hash, steps: seq<Step>, db: Db, height: nat, key: Key, v: Option<Value>)
    requires Ideal(hash) && InitialisedFirst(steps) && Ran(hash, SetUp(), steps, db)
    requires HistoryOf(steps) != []
    ensures Reads(db, height, key, v) <==> v == Lookup(HistoryOf(steps), height, key)
  {
    RunsAreFiled(hash, steps, db);
    ReadsAreLookups(hash, db, HistoryOf(steps), map[], height, key, v);
  }

  lemma {:induction false} LookupExtends(hist: History, more: History, height: nat, key: Key)
    requires height < |hist|
    ensures Lookup(hist + more, height, key) == Lookup(hist, height, key)
  {
    if more == [] {
      assert hist + more == hist;
    } else {
      var n := |more| - 1;
      assert (hist + more)[..|hist| + n] == hist + more[..n];
      LookupExtends(hist, more[..n], height, key);
    }
  }

  /** Page loads and abandoned transactions: the steps that only ever add heights. */
  ghost predicate OnlyAppends(steps: seq<Step>) {
    forall i | 0 <= i < |steps| :: steps[i].Load? || !steps[i].commit
  }

  lemma {:induction false} AppendsExtend(
      hash: Value -> Hash, db: Db, hist: History, more: seq<Step>, next: Db) returns (extra: History)
    requires Ideal(hash) && hist != [] && Holds(hash, db, hist, map[])
    requires OnlyAppends(more) && Ran(hash, db, more, next)
    ensures Holds(hash, next, hist + extra, map[])
  {
    if more == [] {
      extra := [];
      assert hist + extra == hist;
    } else {
      var n := |more| - 1;
      var mid :| Ran(hash, db, more[..n], mid) && Stepped(hash, mid, more[n], next);
      var some := AppendsExtend(hash, db, hist, more[..n], mid);
      extra := AppendStepExtends(hash, mid, hist, some, more[n], next);
    }
  }

  lemma AppendStepExtends(
      hash: Value -> Hash, mid: Db, hist: History, some: History, step: Step, next: Db) returns (extra: History)
    requires Ideal(hash) && hist != [] && Holds(hash, mid, hist + some, map[])
    requires (step.Load? || !step.commit) && Stepped(hash, mid, step, next)
    ensures Holds(hash, next, hist + extra, map[])
  {
    if step.Load? {
      LoadStepHolds(hash, mid, hist + some, step, next);
      extra := if step.commit then Extend(some, Written(Flat(step.batches))) else some;
      assert Apply(hist + some, step) == hist + extra;
    } else {
      InitStepHolds(hash, mid, hist + some, step, next);
      extra := some;
    }
  }

  /** Page loads never change a read at or below the height they started above, however many follow. */
  lemma PastIsKept(
      hash: Value -> Hash, steps: seq<Step>, db: Db, more: seq<Step>, next: Db, height: nat, key: Key,
      v: Option<Value>)
    requires Ideal(hash) && InitialisedFirst(steps) && Ran(hash, SetUp(), steps, db)
    requires height < |HistoryOf(steps)|
    requires OnlyAppends(more) && Ran(hash, db, more, next)
    ensures Reads(db, height, key, v) <==> Reads(next, height, key, v)
  {
    var hist := HistoryOf(steps);
    RunsAreFiled(hash, steps, db);
    var extra := AppendsExtend(hash, db, hist, more, next);
    ReadsAreLookups(hash, db, hist, map[], height, key, v);
    ReadsAreLookups(hash, next, hist + extra, map[], height, key, v);
    LookupExtends(hist, extra, height, key);
  }

  /** Inside a load, after any batches, a read gives the load's own last write of the key, and
      otherwise what was committed before. */
  lemma LoadReadsItsWrites(
      hash: Value -> Hash, steps: seq<Step>, db: Db, s: Session, batches: seq<Items>, t: Session, key: Key,
      v: Option<Value>)
    requires Ideal(hash) && InitialisedFirst(steps) && Ran(hash, SetUp(), steps, db) && HistoryOf(steps) != []
    requires LoadBegins(db, s) && PutsAll(hash, s, batches, t)
    ensures
      var hist := HistoryOf(steps);
      var mine := Written(Flat(batches));
      Reads(t.work, t.tipHeight, key, v) <==> v == if key in mine then mine[key] else Lookup(hist, |hist| - 1, key)
  {
    RunsAreFiled(hash, steps, db);
    LoadReadsOver(hash, db, HistoryOf(steps), s, batches, t, key, v);
  }

  lemma LoadReadsOver(
      hash: Value -> Hash, db: Db, hist: History, s: Session, batches: seq<Items>, t: Session, key: Key,
      v: Option<Value>)
    requires Ideal(hash) && hist != [] && Holds(hash, db, hist, map[])
    requires LoadBegins(db, s) && PutsAll(hash, s, batches, t)
    ensures
      var mine := Written(Flat(batches));
      Reads(t.work, t.tipHeight, key, v) <==> v == if key in mine then mine[key] else Lookup(hist, |hist| - 1, key)
  {
    var mine := Written(Flat(batches));
    LoadBeginsAbove(hash, db, hist, s);
    LoadRuns(hash, s, hist, batches, t);
    ReadsAreLookups(hash, t.work, Extend(hist, mine), map[], |hist|, key, v);
    LookupInLoad(hist, mine, key);
  }

  lemma LookupInLoad(hist: History, mine: Batch, key: Key)
    requires hist != []
    ensures Lookup(Extend(hist, mine), |hist|, key) == if key in mine then mine[key] else Lookup(hist, |hist| - 1, key)
  {
    LookupAbove(hist, |hist|, key);
    if mine != map[] {
      assert (hist + [mine])[..|hist|] == hist;
    }
  }

  lemma {:induction false} LookupAbove(hist: History, height: nat, key: Key)
    requires hist != [] && |hist| - 1 <= height
    ensures Lookup(hist, height, key) == Lookup(hist, |hist| - 1, key)
  {
    var n := |hist| - 1;
    if key !in hist[n] {
      LookupBelow(hist[..n], height, n, key);
    }
  }

  lemma {:induction false} LookupBelow(hist: History, g: nat, h: nat, key: Key)
    requires |hist| <= g + 1 && |hist| <= h + 1
    ensures Lookup(hist, g, key) == Lookup(hist, h, key)
  {
    if hist != [] {
      LookupBelow(hist[..|hist| - 1], g, h, key);
    }
  }

  /** Inside an initialisation a read gives the initialisation's own last write of the key, unless an
      earlier initialisation had written the key too: then either may be offered, and the commit
      is rolled back. */
  lemma InitReadsItsWrites(
      hash: Value -> Hash, db: Db, hist: History, s: Session, batches: seq<Items>, t: Session, key: Key,
      v: Option<Value>)
    requires Ideal(hash) && Holds(hash, db, hist, BootOf(hist))
    requires InitBegins(db, s) && PutsAll(hash, s, batches, t)
    ensures
      var boot := BootOf(hist) + Written(Flat(batches));
      && (key in boot ==>
            (Reads(t.work, t.tipHeight, key, v) <==>
              v == boot[key] || (hist != [] && key in hist[0] && v == hist[0][key])))
      && (key in boot && hist != [] && key in hist[0] ==> Commit(db, t, GENESIS) == db)
      && (key !in boot ==> (Reads(t.work, t.tipHeight, key, v) <==> v == Lookup(hist, 0, key)))
  {
    var boot := BootOf(hist) + Written(Flat(batches));
    InitBeginsAtBoot(db, s);
    InitRuns(hash, s, hist, BootOf(hist), batches, t, boot);
    BootClashes(hash, t.work, hist, boot);
    if key in boot {
      ReadsAtZero(hash, t.work, hist, boot, key, v);
    } else {
      ReadsAreLookups(hash, t.work, hist, boot, 0, key, v);
    }
  }

  lemma ReadsAtZero(hash: Value -> Hash, db: Db, hist: History, boot: Batch, key: Key, v: Option<Value>)
    requires Ideal(hash) && Holds(hash, db, hist, boot) && key in boot
    ensures Reads(db, 0, key, v) <==> v == boot[key] || (hist != [] && key in hist[0] && v == hist[0][key])
  {
    TipIsNotBoot(0);
    var b := Row(BOOT, 0, key);
    var g := Row(MakeTip(0), 0, key);
    assert RowFiled(hash, db, hist, boot, b);
    assert RowFiled(hash, db, hist, boot, g);
    assert IsLatest(db, 0, key, b);
    SideGives(hash, db, b, boot[key]);
    if g in db.rows {
      assert IsLatest(db, 0, key, g);
      SideGives(hash, db, g, hist[0][key]);
    }
    forall r | IsLatest(db, 0, key, r) ensures r == b || r == g {
      assert RowFiled(hash, db, hist, boot, r);
    }
  }
}
