/** What a read of the current state gives, straight from the steps of a run: the value the last committed
    write of the key wrote. */
module KvLast {
  import opened Prelude
  import opened KvStore
  import opened KvRuns
  import opened KvTheorems

  /** Item `j` of batch `b` of a step writes the key. */
  ghost predicate WritesAt(batches: seq<Items>, b: nat, j: nat, key: Key) {
    b < |batches| && j < |batches[b]| && batches[b][j].0 == key
  }

  /** And no item after it does. */
  ghost predicate WritesLastAt(batches: seq<Items>, b: nat, j: nat, key: Key) {
    && WritesAt(batches, b, j, key)
    && forall c: nat, l: nat | WritesAt(batches, c, l, key) :: c < b || (c == b && l <= j)
  }

  ghost predicate NeverWrites(batches: seq<Items>, key: Key) {
    forall b: nat, j: nat :: !WritesAt(batches, b, j, key)
  }

  lemma {:induction false} FlatWrites(batches: seq<Items>, key: Key)
    ensures key in Written(Flat(batches)) <==> !NeverWrites(batches, key)
  {
    if batches != [] {
      var n := |batches| - 1;
      FlatWrites(batches[..n], key);
      WrittenAppend(Flat(batches[..n]), batches[n]);
      WrittenIsLast(batches[n], key);
      BatchesSplit(batches, key);
    }
  }

  lemma {:induction false} LastWriteWins(batches: seq<Items>, b: nat, j: nat, key: Key)
    requires WritesLastAt(batches, b, j, key)
    ensures key in Written(Flat(batches)) && Written(Flat(batches))[key] == Some(batches[b][j].1)
  {
    var n := |batches| - 1;
    WrittenAppend(Flat(batches[..n]), batches[n]);
    WrittenIsLast(batches[n], key);
    LastSplits(batches, b, j, key);
    if b < n {
      LastWriteWins(batches[..n], b, j, key);
    }
  }

  /** Writes of all batches are those of all but the last and those of the last. */
  lemma BatchesSplit(batches: seq<Items>, key: Key)
    requires batches != []
    ensures
      var n := |batches| - 1;
      NeverWrites(batches, key) <==>
        NeverWrites(batches[..n], key) && forall j | 0 <= j < |batches[n]| :: batches[n][j].0 != key
  {
    var n := |batches| - 1;
    var most := batches[..n];
    if NeverWrites(batches, key) {
      forall b: nat, j: nat ensures !WritesAt(most, b, j, key) {
        assert !WritesAt(batches, b, j, key);
      }
      forall j | 0 <= j < |batches[n]| ensures batches[n][j].0 != key {
        assert !WritesAt(batches, n, j, key);
      }
    } else {
      var b: nat, j: nat :| WritesAt(batches, b, j, key);
      assert b < n ==> WritesAt(most, b, j, key);
    }
  }

  lemma LastSplits(batches: seq<Items>, b: nat, j: nat, key: Key)
    requires WritesLastAt(batches, b, j, key)
    ensures
      var n := |batches| - 1;
      if b == n then forall l | j < l < |batches[n]| :: batches[n][l].0 != key
      else WritesLastAt(batches[..n], b, j, key) && forall l | 0 <= l < |batches[n]| :: batches[n][l].0 != key
  {
    var n := |batches| - 1;
    forall l: nat | l < |batches[n]| && (b < n || j < l) ensures batches[n][l].0 != key {
      assert !WritesAt(batches, n, l, key);
    }
    forall c: nat, l: nat | WritesAt(batches[..n], c, l, key) ensures c < b || (c == b && l <= j) {
      assert WritesAt(batches, c, l, key);
    }
  }

  // ---------------------------------------------------------------- over a run

  /** The history's current value of the key. */
  ghost predicate CurrentIs(hist: History, key: Key, v: Option<Value>) {
    hist != [] && Lookup(hist, |hist| - 1, key) == v
  }

  lemma LookupSkips(hist: History, batch: Batch, key: Key)
    requires hist != [] && key !in batch
    ensures Lookup(Extend(hist, batch), |Extend(hist, batch)| - 1, key) == Lookup(hist, |hist| - 1, key)
  {
    if batch != map[] {
      assert (hist + [batch])[..|hist|] == hist;
      LookupAbove(hist, |hist|, key);
    }
  }

  lemma {:induction false} LookupIgnoresMerge(hist: History, first: Batch, height: nat, key: Key)
    requires hist != [] && (key in first <==> key in hist[0]) && (key in first ==> first[key] == hist[0][key])
    ensures Lookup([first] + hist[1..], height, key) == Lookup(hist, height, key)
  {
    var n := |hist| - 1;
    var other := [first] + hist[1..];
    if n > 0 {
      assert other[..n] == [first] + hist[..n][1..];
      LookupIgnoresMerge(hist[..n], first, height, key);
    } else {
      assert other[..0] == hist[..0];
    }
  }

  /** A step that does not commit a write of the key leaves its value. */
  lemma StepKeepsValue(hist: History, step: Step, key: Key, v: Option<Value>)
    requires CurrentIs(hist, key, v) && !(step.commit && !NeverWrites(step.batches, key))
    ensures CurrentIs(Apply(hist, step), key, v)
  {
    FlatWrites(step.batches, key);
    var batch := Written(Flat(step.batches));
    if step.commit && step.Load? {
      LookupSkips(hist, batch, key);
    } else if step.commit {
      assert BootOf(hist) + batch == batch;
      LookupIgnoresMerge(hist, hist[0] + batch, |hist| - 1, key);
    }
  }

  /** A committed load, or the first committed initialisation, makes the value it wrote last current. */
  lemma StepSetsValue(hist: History, step: Step, b: nat, j: nat, key: Key)
    requires step.commit && WritesLastAt(step.batches, b, j, key)
    requires if step.Load? then hist != [] else hist == []
    ensures CurrentIs(Apply(hist, step), key, Some(step.batches[b][j].1))
  {
    LastWriteWins(step.batches, b, j, key);
    var batch := Written(Flat(step.batches));
    if step.Init? {
      assert !Collides(hist, BootOf(hist) + batch);
    }
  }

  /** No step from the `k`-th on commits a write of the key. */
  ghost predicate UntouchedFrom(steps: seq<Step>, k: nat, key: Key) {
    forall m | k <= m < |steps| :: steps[m].commit ==> NeverWrites(steps[m].batches, key)
  }

  lemma {:induction false} ValueLasts(steps: seq<Step>, k: nat, key: Key, v: Option<Value>)
    requires k <= |steps| && CurrentIs(HistoryOf(steps[..k]), key, v) && UntouchedFrom(steps, k, key)
    ensures CurrentIs(HistoryOf(steps), key, v)
    decreases |steps|
  {
    if k < |steps| {
      var n := |steps| - 1;
      assert steps[..n][..k] == steps[..k];
      assert UntouchedFrom(steps[..n], k, key) by {
        forall m | k <= m < n ensures steps[..n][m].commit ==> NeverWrites(steps[..n][m].batches, key) {
          assert steps[..n][m] == steps[m];
        }
      }
      ValueLasts(steps[..n], k, key, v);
      StepKeepsValue(HistoryOf(steps[..n]), steps[n], key, v);
    } else {
      assert steps[..k] == steps;
    }
  }

  /** The height is at or above every row's. */
  ghost predicate IsCurrent(db: Db, height: nat) {
    forall r | r in db.rows :: r.height <= height
  }

  lemma ReadsCurrent(
      hash: Value -> Hash, steps: seq<Step>, db: Db, height: nat, key: Key, now: Option<Value>, v: Option<Value>)
    requires Ideal(hash) && InitialisedFirst(steps) && Ran(hash, SetUp(), steps, db)
    requires CurrentIs(HistoryOf(steps), key, now) && IsCurrent(db, height)
    ensures Reads(db, height, key, v) <==> v == now
  {
    RunsAreFiled(hash, steps, db);
    CurrentIsLast(hash, db, HistoryOf(steps), height);
    LookupAbove(HistoryOf(steps), height, key);
    CommittedReads(hash, steps, db, height, key, v);
  }

  lemma CurrentIsLast(hash: Value -> Hash, db: Db, hist: History, height: nat)
    requires Holds(hash, db, hist, map[]) && hist != [] && IsCurrent(db, height)
    ensures height >= |hist| - 1
  {
    var n := |hist| - 1;
    var some :| some in hist[n];
    TipIsNotBoot(n);
    assert RowFiled(hash, db, hist, map[], Row(MakeTip(n), n, some));
  }

  /** Main result.  Take any run, and the last of its committed steps that writes a key, a load or the
      first initialisation.  Reading the key at the current height, or above it, gives what the last item
      of that step for the key wrote, and nothing else. */
  lemma LastCommittedWriteIsRead(
      hash: Value -> Hash, steps: seq<Step>, db: Db, k: nat, b: nat, j: nat, key: Key, height: nat,
      v: Option<Value>)
    requires Ideal(hash) && InitialisedFirst(steps) && Ran(hash, SetUp(), steps, db) && IsCurrent(db, height)
    requires k < |steps| && steps[k].commit && (steps[k].Load? || !Initialised(steps[..k]))
    requires WritesLastAt(steps[k].batches, b, j, key) && UntouchedFrom(steps, k + 1, key)
    ensures Reads(db, height, key, v) <==> v == Some(steps[k].batches[b][j].1)
  {
    SetAndKept(steps, k, b, j, key);
    ReadsCurrent(hash, steps, db, height, key, Some(steps[k].batches[b][j].1), v);
  }

  lemma SetAndKept(steps: seq<Step>, k: nat, b: nat, j: nat, key: Key)
    requires InitialisedFirst(steps)
    requires k < |steps| && steps[k].commit && (steps[k].Load? || !Initialised(steps[..k]))
    requires WritesLastAt(steps[k].batches, b, j, key) && UntouchedFrom(steps, k + 1, key)
    ensures CurrentIs(HistoryOf(steps), key, Some(steps[k].batches[b][j].1))
  {
    BeforeStep(steps, k);
    StepSetsValue(HistoryOf(steps[..k]), steps[k], b, j, key);
    OneStepOn(steps, k);
    ValueLasts(steps, k + 1, key, Some(steps[k].batches[b][j].1));
  }

  lemma OneStepOn(steps: seq<Step>, k: nat)
    requires k < |steps|
    ensures HistoryOf(steps[..k + 1]) == Apply(HistoryOf(steps[..k]), steps[k])
  {
    assert steps[..k + 1][..k] == steps[..k] && steps[..k + 1][k] == steps[k];
  }

  /** Before a step the history is empty exactly as long as no initialisation was committed. */
  lemma BeforeStep(steps: seq<Step>, k: nat)
    requires InitialisedFirst(steps) && k < |steps|
    ensures HistoryOf(steps[..k]) != [] <==> Initialised(steps[..k])
    ensures steps[k].Load? ==> Initialised(steps[..k])
  {
    forall i | 0 <= i < k && steps[..k][i].Load? ensures Initialised(steps[..k][..i]) {
      assert steps[i].Load? && steps[..k][..i] == steps[..i];
    }
    if HistoryOf(steps[..k]) != [] {
      HistoryNeedsInit(steps[..k]);
    }
    if Initialised(steps[..k]) {
      InitGivesHistory(steps[..k]);
    }
  }

  lemma {:induction false} InitGivesHistory(steps: seq<Step>)
    requires Initialised(steps)
    ensures HistoryOf(steps) != []
  {
    var n := |steps| - 1;
    InitialisationLasts(steps);
    if Initialised(steps[..n]) {
      InitGivesHistory(steps[..n]);
    } else {
      assert HistoryOf(steps[..n]) == [] ==> BOOT_KEY in BootOf(HistoryOf(steps[..n]));
    }
  }

  lemma {:induction false} HistoryNeedsInit(steps: seq<Step>)
    requires InitialisedFirst(steps) && HistoryOf(steps) != []
    ensures Initialised(steps)
  {
    var n := |steps| - 1;
    EarlierIsInitialised(steps);
    if HistoryOf(steps[..n]) != [] {
      HistoryNeedsInit(steps[..n]);
      var i :| 0 <= i < n && steps[..n][i].Init? && steps[..n][i].commit;
      assert steps[i].Init? && steps[i].commit;
    } else if steps[n].Init? {
      assert steps[n].commit;
    }
  }

  /** A key that no committed step writes is never found, at any height. */
  lemma UnwrittenIsNotRead(
      hash: Value -> Hash, steps: seq<Step>, db: Db, key: Key, height: nat, v: Option<Value>)
    requires Ideal(hash) && InitialisedFirst(steps) && Ran(hash, SetUp(), steps, db) && Initialised(steps)
    requires UntouchedFrom(steps, 0, key)
    ensures Reads(db, height, key, v) <==> v == None
  {
    RunsAreFiled(hash, steps, db);
    NeverWritten(steps, key, height);
    CommittedReads(hash, steps, db, height, key, v);
  }

  lemma {:induction false} NeverWritten(steps: seq<Step>, key: Key, height: nat)
    requires UntouchedFrom(steps, 0, key)
    ensures Lookup(HistoryOf(steps), height, key) == None
  {
    if steps != [] {
      var n := |steps| - 1;
      assert UntouchedFrom(steps[..n], 0, key) by {
        forall m | 0 <= m < n ensures steps[..n][m].commit ==> NeverWrites(steps[..n][m].batches, key) {
          assert steps[..n][m] == steps[m];
        }
      }
      NeverWritten(steps[..n], key, height);
      UnwrittenStep(HistoryOf(steps[..n]), steps[n], key, height);
    }
  }

  lemma UnwrittenStep(hist: History, step: Step, key: Key, height: nat)
    requires Lookup(hist, height, key) == None && (step.commit ==> NeverWrites(step.batches, key))
    ensures Lookup(Apply(hist, step), height, key) == None
  {
    FlatWrites(step.batches, key);
    var batch := Written(Flat(step.batches));
    if step.commit && step.Load? {
      assert (hist + [batch])[..|hist|] == hist;
    } else if step.commit && hist != [] {
      assert BootOf(hist) + batch == batch;
      LookupIgnoresMerge(hist, hist[0] + batch, height, key);
    } else if step.commit {
      var boot := BootOf(hist) + batch;
      assert [boot][..0] == [];
    }
  }
}
