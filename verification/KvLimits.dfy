/** Where the store's promises stop: a page load before initialisation, the switch back from an
    earlier block, and the write buffer's index. */
module KvLimits {
  import opened Prelude
  import opened KvStore
  import opened KvRuns
  import opened KvTheorems

  // ---------------------------------------------------------------- a load before initialisation

  lemma EarlyLoadBegins(hash: Value -> Hash, db: Db, s: Session)
    requires Holds(hash, db, [], BootOf([]))
    ensures LoadBegins(db, s) <==> s == Session(db, BOOT, 0, MakeTip(1))
  {
    assert BOOT_KEY in BootOf([]);
    forall g: nat ensures HasHeight(db, BOOT, g) <==> g == 0 {
      BootHeight(hash, db, [], BootOf([]), g);
    }
    forall r | r in db.rows ensures r.tip == BOOT {
      assert RowFiled(hash, db, [], BootOf([]), r);
    }
    var top := Row(BOOT, 0, BOOT_KEY);
    assert RowFiled(hash, db, [], BootOf([]), top);
    forall q | q in db.rows ensures NoLater(top, q) {
      assert RowFiled(hash, db, [], BootOf([]), q);
      TipLeqTotal(BOOT, BOOT);
    }
    forall tip ensures IsTip(db, tip) <==> tip == BOOT {
      FirstRowWins(db, top, tip);
    }
    assert TiplessHeight(db, BOOT, 0) && HasHeight(db, BOOT, 0);
  }

  /** Its rows keep height 0 but take the tip of height 1. */
  lemma EarlyLoadRows(hash: Value -> Hash, db: Db, boot: Batch, next: Db, r: Row)
    requires Holds(hash, db, [], boot) && next == Renamed(db, BOOT, MakeTip(1))
    ensures r in next.rows <==> r.tip == MakeTip(1) && r.height == 0 && r.key in boot
  {
    TipIsNotBoot(1);
    RenamedRow(db, BOOT, MakeTip(1), r);
    assert RowFiled(hash, db, [], boot, r);
    assert RowFiled(hash, db, [], boot, r.(tip := BOOT));
  }

  lemma EarlyLoadCommits(hash: Value -> Hash, db: Db, batches: seq<Items>, next: Db)
    requires Ideal(hash) && Holds(hash, db, [], BootOf([])) && Stepped(hash, db, Load(batches, true), next)
    ensures Row(MakeTip(1), 0, BOOT_KEY) in next.rows
    ensures forall r | r in next.rows :: r.tip == MakeTip(1) && r.height == 0
  {
    var s, t :| Loaded(hash, db, Load(batches, true), s, t, next);
    EarlyLoadBegins(hash, db, s);
    var boot := BootOf([]) + Written(Flat(batches));
    InitRuns(hash, s, [], BootOf([]), batches, t, boot);
    EarlyCommitRows(hash, db, t, boot, next);
  }

  lemma EarlyCommitRows(hash: Value -> Hash, db: Db, t: Session, boot: Batch, next: Db)
    requires Holds(hash, t.work, [], boot) && BOOT_KEY in boot
    requires t.chainTip == BOOT && t.nextTip == MakeTip(1) && next == Commit(db, t, t.nextTip)
    ensures Row(MakeTip(1), 0, BOOT_KEY) in next.rows
    ensures forall r | r in next.rows :: r.tip == MakeTip(1) && r.height == 0
  {
    TipIsNotBoot(1);
    forall r | r in t.work.rows ensures r.tip == BOOT {
      assert RowFiled(hash, t.work, [], boot, r);
    }
    forall r ensures r in next.rows <==> r.tip == MakeTip(1) && r.height == 0 && r.key in boot {
      EarlyLoadRows(hash, t.work, boot, next, r);
    }
  }

  lemma TipOneIsNotGenesis()
    ensures MakeTip(1) != GENESIS && MakeTip(1) != MakeTip(0)
  {
    TipOfZero();
    if MakeTip(1) == MakeTip(0) {
      TipsDiffer(1, 0);
    }
  }

  lemma MisfiledNeverBegins(db: Db, s: Session)
    requires Row(MakeTip(1), 0, BOOT_KEY) in db.rows
    requires forall r | r in db.rows :: r.tip == MakeTip(1) && r.height == 0
    ensures !LoadBegins(db, s)
  {
    TipIsNotBoot(1);
    TipOneIsNotGenesis();
    assert forall tip :: IsTip(db, tip) ==> tip == MakeTip(1);
    assert forall g: nat :: HasHeight(db, MakeTip(1), g) ==> g == 0;
    assert forall g: nat :: !TiplessHeight(db, MakeTip(1), g);
  }

  /** A committed page load files every row under the tip of its height exactly when the app was
      initialised before it; otherwise no page load can ever begin again. */
  lemma LoadNeedsInitialisation(hash: Value -> Hash, db: Db, hist: History, batches: seq<Items>, next: Db)
    requires Ideal(hash) && Holds(hash, db, hist, BootOf(hist)) && Stepped(hash, db, Load(batches, true), next)
    ensures (forall r | r in next.rows :: r.tip == MakeTip(r.height)) <==> hist != []
    ensures hist == [] ==> forall s :: !LoadBegins(next, s)
  {
    if hist == [] {
      EarlyLoadCommits(hash, db, batches, next);
      TipOneIsNotGenesis();
      forall s ensures !LoadBegins(next, s) {
        MisfiledNeverBegins(next, s);
      }
      assert Row(MakeTip(1), 0, BOOT_KEY).tip != MakeTip(0);
    } else {
      LoadStepHolds(hash, db, hist, Load(batches, true), next);
      forall r | r in next.rows ensures r.tip == MakeTip(r.height) {
        assert RowFiled(hash, next, Apply(hist, Load(batches, true)), map[], r);
      }
    }
  }

  // ---------------------------------------------------------------- evaluating at an earlier block

  /** How moving a transaction to the block `tip` may succeed. */
  ghost predicate Switches(s: Session, tip: Tip, t: Session) {
    && (exists h: nat :: HasHeight(s.work, tip, h) && h <= s.tipHeight)
    && TiplessHeight(s.work, tip, t.tipHeight)
    && t == s.(chainTip := tip, tipHeight := t.tipHeight)
  }

  lemma SwitchGoesToHeight(hash: Value -> Hash, s: Session, hist: History, h: nat, t: Session)
    requires Holds(hash, s.work, hist, map[]) && h <= MAX_HEIGHT + 1
    ensures Switches(s, MakeTip(h), t) <==>
              h < |hist| && h <= s.tipHeight && t == s.(chainTip := MakeTip(h), tipHeight := h)
  {
    TipIsNotBoot(h);
    TipOfZero();
    forall g: nat ensures HasHeight(s.work, MakeTip(h), g) <==> g == h < |hist| {
      HeightsAreExact(hash, s.work, hist, map[], h, g);
    }
    assert h == 0 ==> MakeTip(h) == GENESIS;
    if h < |hist| {
      assert HasHeight(s.work, MakeTip(h), h);
    }
  }

  /** A load over `hist` that has written `batches`, from the one session in which it can begin. */
  ghost predicate OpenLoad(hash: Value -> Hash, db: Db, hist: History, batches: seq<Items>, t: Session) {
    && hist != [] && Holds(hash, db, hist, map[])
    && PutsAll(hash, Session(db, MakeTip(|hist| - 1), |hist|, MakeTip(|hist|)), batches, t)
  }

  lemma OpenLoadIff(hash: Value -> Hash, db: Db, hist: History, batches: seq<Items>, t: Session)
    requires hist != [] && Holds(hash, db, hist, map[])
    ensures OpenLoad(hash, db, hist, batches, t) <==> exists s :: LoadBegins(db, s) && PutsAll(hash, s, batches, t)
  {
    var start := Session(db, MakeTip(|hist| - 1), |hist|, MakeTip(|hist|));
    LoadBeginsAbove(hash, db, hist, start);
    if OpenLoad(hash, db, hist, batches, t) {
      assert LoadBegins(db, start) && PutsAll(hash, start, batches, t);
    }
    if s :| LoadBegins(db, s) && PutsAll(hash, s, batches, t) {
      LoadBeginsAbove(hash, db, hist, s);
    }
  }

  lemma OpenLoadHolds(hash: Value -> Hash, db: Db, hist: History, batches: seq<Items>, t: Session)
    requires Ideal(hash) && OpenLoad(hash, db, hist, batches, t)
    ensures Holds(hash, t.work, Extend(hist, Written(Flat(batches))), map[])
    ensures t == Session(t.work, MakeTip(|hist| - 1), |hist|, MakeTip(|hist|))
  {
    LoadRuns(hash, Session(db, MakeTip(|hist| - 1), |hist|, MakeTip(|hist|)), hist, batches, t);
  }

  /** A load may move to any block it can see, and then reads exactly what that block read. */
  lemma SwitchedReads(
      hash: Value -> Hash, db: Db, hist: History, batches: seq<Items>, t: Session, h: nat, away: Session,
      key: Key, v: Option<Value>)
    requires Ideal(hash) && OpenLoad(hash, db, hist, batches, t)
    requires h < |hist| && Switches(t, MakeTip(h), away)
    ensures Reads(away.work, away.tipHeight, key, v) <==> v == Lookup(hist, h, key)
  {
    OpenLoadHolds(hash, db, hist, batches, t);
    SwitchThere(hash, t, Extend(hist, Written(Flat(batches))), h, away, key, v);
    PastOfExtension(hist, Written(Flat(batches)), h, key);
  }

  /** Moving back works only from the block the load started on or from its own: from an older one
      it fails.  And once back, the load reads one height too low. */
  lemma SwitchingBack(
      hash: Value -> Hash, db: Db, hist: History, batches: seq<Items>, t: Session, h: nat, away: Session,
      back: Session)
    requires Ideal(hash) && OpenLoad(hash, db, hist, batches, t)
    requires h <= |hist| && Switches(t, MakeTip(h), away)
    ensures Switches(away, t.chainTip, back) <==> |hist| - 1 <= h && back == t.(tipHeight := |hist| - 1)
  {
    OpenLoadHolds(hash, db, hist, batches, t);
    SwitchThereAndBack(hash, t, |hist| - 1, Extend(hist, Written(Flat(batches))), h, away, back);
  }

  /** So a load that is back no longer sees its own writes: every read gives
      what was committed before it. */
  lemma WritesAreLostOnceBack(
      hash: Value -> Hash, db: Db, hist: History, batches: seq<Items>, t: Session, back: Session, key: Key,
      v: Option<Value>)
    requires Ideal(hash) && OpenLoad(hash, db, hist, batches, t)
    requires back == t.(tipHeight := |hist| - 1)
    ensures Reads(back.work, back.tipHeight, key, v) <==> v == Lookup(hist, |hist| - 1, key)
  {
    var mine := LoadSees(hash, db, hist, batches, t);
    ReadsOfThePast(hash, t.work, hist, mine, |hist| - 1, key, v);
  }

  lemma LoadSees(hash: Value -> Hash, db: Db, hist: History, batches: seq<Items>, t: Session) returns (mine: Batch)
    requires Ideal(hash) && OpenLoad(hash, db, hist, batches, t)
    ensures Holds(hash, t.work, Extend(hist, mine), map[])
  {
    OpenLoadHolds(hash, db, hist, batches, t);
    mine := Written(Flat(batches));
  }

  lemma ReadsOfThePast(hash: Value -> Hash, db: Db, hist: History, mine: Batch, h: nat, key: Key, v: Option<Value>)
    requires Ideal(hash) && Holds(hash, db, Extend(hist, mine), map[]) && h < |hist|
    ensures Reads(db, h, key, v) <==> v == Lookup(hist, h, key)
  {
    ReadsAreLookups(hash, db, Extend(hist, mine), map[], h, key, v);
    PastOfExtension(hist, mine, h, key);
  }

  lemma PastOfExtension(hist: History, batch: Batch, h: nat, key: Key)
    requires h < |hist|
    ensures Lookup(Extend(hist, batch), h, key) == Lookup(hist, h, key)
  {
    if batch != map[] {
      LookupExtends(hist, [batch], h, key);
    }
  }

  lemma SwitchThere(hash: Value -> Hash, t: Session, all: History, h: nat, away: Session, key: Key, v: Option<Value>)
    requires Ideal(hash) && Holds(hash, t.work, all, map[]) && h <= MAX_HEIGHT + 1
    requires Switches(t, MakeTip(h), away)
    ensures away == t.(chainTip := MakeTip(h), tipHeight := h) && h < |all|
    ensures Reads(away.work, away.tipHeight, key, v) <==> v == Lookup(all, h, key)
  {
    SwitchGoesToHeight(hash, t, all, h, away);
    ReadsAreLookups(hash, away.work, all, map[], h, key, v);
  }

  lemma SwitchThereAndBack(hash: Value -> Hash, t: Session, n: nat, all: History, h: nat, away: Session, back: Session)
    requires Holds(hash, t.work, all, map[]) && t.chainTip == MakeTip(n) && n < |all| && h <= MAX_HEIGHT + 1
    requires Switches(t, MakeTip(h), away)
    ensures Switches(away, t.chainTip, back) <==> n <= h && back == t.(tipHeight := n)
  {
    SwitchGoesToHeight(hash, t, all, h, away);
    SwitchGoesToHeight(hash, away, all, n, back);
  }

  // ---------------------------------------------------------------- the write buffer

  datatype Buffer = Buffer(hashes: seq<(Key, Hash)>, data: map<Hash, Value>, index: map<Key, nat>)

  const EMPTY := Buffer([], map[], map[])

  function BufferPut(hash: Value -> Hash, b: Buffer, item: (Key, Value)): Buffer {
    var hashes := b.hashes + [(item.0, hash(item.1))];
    Buffer(hashes, b.data[hash(item.1) := item.1], b.index[item.0 := |hashes|])
  }

  function BufferPuts(hash: Value -> Hash, items: Items): Buffer {
    if items == [] then EMPTY
    else BufferPut(hash, BufferPuts(hash, items[..|items| - 1]), items[|items| - 1])
  }

  datatype Pending = Absent | OutOfRange | Found(value: Value)

  function BufferGet(b: Buffer, key: Key): Pending {
    if key !in b.index then Absent
    else if b.index[key] >= |b.hashes| then OutOfRange
    else
      var hash := b.hashes[b.index[key]].1;
      if hash in b.data then Found(b.data[hash]) else Absent
  }

  lemma {:induction false} BufferHolds(hash: Value -> Hash, items: Items)
    requires Ideal(hash)
    ensures
      var b := BufferPuts(hash, items);
      && |b.hashes| == |items|
      && forall i | 0 <= i < |items| ::
           && b.hashes[i] == (items[i].0, hash(items[i].1))
           && hash(items[i].1) in b.data && b.data[hash(items[i].1)] == items[i].1
  {
    if items != [] {
      var n := |items| - 1;
      BufferHolds(hash, items[..n]);
      assert forall i | 0 <= i < n :: items[..n][i] == items[i];
    }
  }

  ghost predicate LastWrite(items: Items, key: Key, i: nat) {
    i < |items| && items[i].0 == key && forall j | i < j < |items| :: items[j].0 != key
  }

  lemma {:induction false} IndexIsOneTooLarge(hash: Value -> Hash, items: Items, key: Key, i: nat)
    requires LastWrite(items, key, i)
    ensures key in BufferPuts(hash, items).index && BufferPuts(hash, items).index[key] == i + 1
  {
    var n := |items| - 1;
    BufferLength(hash, items);
    if i < n {
      assert forall j | 0 <= j < n :: items[..n][j] == items[j];
      IndexIsOneTooLarge(hash, items[..n], key, i);
    }
  }

  lemma {:induction false} BufferLength(hash: Value -> Hash, items: Items)
    ensures |BufferPuts(hash, items).hashes| == |items|
  {
    if items != [] {
      BufferLength(hash, items[..|items| - 1]);
    }
  }

  /** Reading a key out of a buffer that has not been drained gives the write after its own: out of
      range for the last write, and right only when the two values happen to be equal. */
  lemma UndrainedReadIsOff(hash: Value -> Hash, items: Items, key: Key, i: nat)
    requires Ideal(hash) && LastWrite(items, key, i)
    ensures
      var got := BufferGet(BufferPuts(hash, items), key);
      && got == (if i + 1 == |items| then OutOfRange else Found(items[i + 1].1))
      && (got == Found(items[i].1) <==> i + 1 < |items| && items[i + 1].1 == items[i].1)
  {
    BufferHolds(hash, items);
    IndexIsOneTooLarge(hash, items, key, i);
  }
}
