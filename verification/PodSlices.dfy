/** The slice store kept in one StackerDB chunk (src/storage/wrbpod.rs, src/storage/mod.rs): a map
    from slice id to bytes, its size accounting and its wire format. */
module PodSlices {
  import opened Prelude
  import opened Bytes

  const INITIAL_SIZE: nat := 1 + 8

  datatype Store = Store(
    version: byte,
    slices: seq<seq<byte>>,
    index: map<u128, nat>,
    dirty: bool,
    encodedSize: nat,
    maxSize: u32)

  function Empty(maxSize: u32): Store {
    Store(0, [], map[], false, INITIAL_SIZE, maxSize)
  }

  /** The accounted cost of a slice; a new one also needs an index entry. */
  function SliceCost(len: nat, present: bool): nat {
    4 + len + (if present then 0 else 16 + 8)
  }

  predicate CanFit(st: Store, id: u128, len: nat) {
    st.encodedSize + SliceCost(len, id in st.index) <= st.maxSize
  }

  /** Every index entry points at a slice, and every slice is pointed at exactly once. */
  ghost predicate IndexIsBijection(st: Store) {
    && (forall id | id in st.index :: st.index[id] < |st.slices|)
    && (forall a, b | a in st.index && b in st.index && st.index[a] == st.index[b] :: a == b)
    && (forall i | 0 <= i < |st.slices| :: PointedAt(st.index, i))
  }

  ghost predicate PointedAt(index: map<u128, nat>, i: nat) {
    exists id :: id in index && index[id] == i
  }

  function TotalLength(slices: seq<seq<byte>>): nat {
    if slices == [] then 0 else TotalLength(slices[..|slices| - 1]) + 4 + |slices[|slices| - 1]|
  }

  /** The number of bytes the store takes on the wire (see EncodedLength). */
  function TrueSize(st: Store): nat {
    INITIAL_SIZE + 24 * |st.index| + TotalLength(st.slices)
  }

  ghost predicate Valid(st: Store) {
    && IndexIsBijection(st)
    && |st.index| == |st.slices|
    && TrueSize(st) <= st.encodedSize
    && (st.encodedSize <= st.maxSize || st.encodedSize == INITIAL_SIZE)
  }

  /** What the store means: the bytes kept for each id. */
  ghost function Contents(st: Store): map<u128, seq<byte>>
    requires Valid(st)
  {
    map id | id in st.index :: st.slices[st.index[id]]
  }

  function GetSlice(st: Store, id: u128): Option<seq<byte>> {
    if id in st.index && st.index[id] < |st.slices| then Some(st.slices[st.index[id]]) else None
  }

  lemma GetSliceReads(st: Store, id: u128)
    requires Valid(st)
    ensures GetSlice(st, id) == if id in Contents(st) then Some(Contents(st)[id]) else None
  {
  }

  /** Adds or replaces a slice, unless the accounted size would exceed the maximum.  Replacing charges
      the new slice without crediting the old one. */
  function Put(st: Store, id: u128, slice: seq<byte>): Store {
    if !CanFit(st, id, |slice|) then st
    else
      var size := st.encodedSize + SliceCost(|slice|, id in st.index);
      if id in st.index && st.index[id] < |st.slices| then
        st.(slices := st.slices[st.index[id] := slice], encodedSize := size, dirty := true)
      else
        st.(slices := st.slices + [slice], index := st.index[id := |st.slices|], encodedSize := size, dirty := true)
  }

  lemma {:induction false} TotalLengthUpdate(slices: seq<seq<byte>>, i: nat, slice: seq<byte>)
    requires i < |slices|
    ensures TotalLength(slices[i := slice]) == TotalLength(slices) - |slices[i]| + |slice|
  {
    var n := |slices| - 1;
    if i == n {
      assert slices[i := slice][..n] == slices[..n];
    } else {
      assert slices[i := slice][..n] == slices[..n][i := slice];
      TotalLengthUpdate(slices[..n], i, slice);
    }
  }

  lemma {:induction false} TotalLengthBounds(slices: seq<seq<byte>>, i: nat)
    requires i < |slices|
    ensures |slices[i]| + 4 * |slices| <= TotalLength(slices)
  {
    var n := |slices| - 1;
    if i < n {
      TotalLengthBounds(slices[..n], i);
    } else if n > 0 {
      TotalLengthBounds(slices[..n], 0);
    }
  }

  /** Replacing a slice: the index stays, and the old slice's cost is never given back. */
  lemma ReplaceRefines(st: Store, id: u128, slice: seq<byte>)
    requires Valid(st) && CanFit(st, id, |slice|) && id in st.index
    ensures
      var after := Put(st, id, slice);
      && Valid(after)
      && Contents(after) == Contents(st)[id := slice]
      && after.encodedSize - TrueSize(after) == st.encodedSize - TrueSize(st) + 4 + |Contents(st)[id]|
  {
    var after := Put(st, id, slice);
    TotalLengthUpdate(st.slices, st.index[id], slice);
    assert IndexIsBijection(after);
    assert Contents(after) == Contents(st)[id := slice];
  }

  lemma InsertExtendsIndex(st: Store, id: u128, slice: seq<byte>)
    requires Valid(st) && CanFit(st, id, |slice|) && id !in st.index
    ensures
      var after := Put(st, id, slice);
      IndexIsBijection(after) && |after.index| == |after.slices|
  {
    var after := Put(st, id, slice);
    assert after.index.Keys == st.index.Keys + {id};
    assert |after.index.Keys| == |st.index.Keys| + 1;
    forall i | 0 <= i < |after.slices|
      ensures PointedAt(after.index, i)
    {
      if i < |st.slices| {
        assert PointedAt(st.index, i);
        var x :| x in st.index && st.index[x] == i;
        assert after.index[x] == i;
      } else {
        assert after.index[id] == i;
      }
    }
  }

  /** Inserting a slice: the accounting is exact. */
  lemma InsertRefines(st: Store, id: u128, slice: seq<byte>)
    requires Valid(st) && CanFit(st, id, |slice|) && id !in st.index
    ensures
      var after := Put(st, id, slice);
      && Valid(after)
      && Contents(after) == Contents(st)[id := slice]
      && after.encodedSize - TrueSize(after) == st.encodedSize - TrueSize(st)
  {
    InsertExtendsIndex(st, id, slice);
    InsertSize(st, id, slice);
    InsertContents(st, id, slice);
  }

  lemma InsertContents(st: Store, id: u128, slice: seq<byte>)
    requires Valid(st) && CanFit(st, id, |slice|) && id !in st.index && Valid(Put(st, id, slice))
    ensures Contents(Put(st, id, slice)) == Contents(st)[id := slice]
  {
  }

  lemma InsertSize(st: Store, id: u128, slice: seq<byte>)
    requires CanFit(st, id, |slice|) && id !in st.index
    ensures TrueSize(Put(st, id, slice)) == TrueSize(st) + SliceCost(|slice|, false)
  {
    var after := Put(st, id, slice);
    assert after.slices[..|st.slices|] == st.slices;
    assert after.index.Keys == st.index.Keys + {id};
    assert |after.index.Keys| == |st.index.Keys| + 1;
  }

  /** One put: accepted exactly when the charge fits, it changes the meaning of that id alone. */
  lemma PutRefines(st: Store, id: u128, slice: seq<byte>)
    requires Valid(st)
    ensures
      var after := Put(st, id, slice);
      && Valid(after) && after.maxSize == st.maxSize
      && Contents(after) == (if CanFit(st, id, |slice|) then Contents(st)[id := slice] else Contents(st))
  {
    if CanFit(st, id, |slice|) {
      if id in st.index {
        ReplaceRefines(st, id, slice);
      } else {
        InsertRefines(st, id, slice);
      }
    }
  }

  // ---------------------------------------------------------------- runs of puts

  datatype PutOp = PutOp(id: u128, slice: seq<byte>)

  function Puts(st: Store, ops: seq<PutOp>): Store {
    if ops == [] then st
    else
      var op := ops[|ops| - 1];
      Put(Puts(st, ops[..|ops| - 1]), op.id, op.slice)
  }

  /** Whether the i-th put of a run was accepted. */
  predicate Accepted(st: Store, ops: seq<PutOp>, i: nat)
    requires i < |ops|
  {
    CanFit(Puts(st, ops[..i]), ops[i].id, |ops[i].slice|)
  }

  /** `i` is the last accepted put of `id`. */
  ghost predicate LastAccepted(st: Store, ops: seq<PutOp>, id: u128, i: nat) {
    && i < |ops| && ops[i].id == id && Accepted(st, ops, i)
    && forall j | i < j < |ops| :: ops[j].id == id ==> !Accepted(st, ops, j)
  }

  /** The map that the accepted puts of a run make of `base`. */
  ghost function Expected(base: map<u128, seq<byte>>, st: Store, ops: seq<PutOp>): map<u128, seq<byte>> {
    if ops == [] then base
    else
      var n := |ops| - 1;
      var before := Expected(base, st, ops[..n]);
      if Accepted(st, ops, n) then before[ops[n].id := ops[n].slice] else before
  }

  lemma {:induction false} RunRefinesMap(st: Store, ops: seq<PutOp>)
    requires Valid(st)
    ensures Valid(Puts(st, ops)) && Puts(st, ops).maxSize == st.maxSize
    ensures Contents(Puts(st, ops)) == Expected(Contents(st), st, ops)
  {
    if ops != [] {
      var n := |ops| - 1;
      RunRefinesMap(st, ops[..n]);
      PutRefines(Puts(st, ops[..n]), ops[n].id, ops[n].slice);
    }
  }

  /** In that map every id has the bytes last accepted for it, or what it had before if none were. */
  lemma {:induction false} ExpectedIsLastAccepted(base: map<u128, seq<byte>>, st: Store, ops: seq<PutOp>, id: u128)
    ensures
      var e := Expected(base, st, ops);
      && (forall i: nat | LastAccepted(st, ops, id, i) :: id in e && e[id] == ops[i].slice)
      && ((forall i: nat :: !LastAccepted(st, ops, id, i)) ==>
            (id in e <==> id in base) && (id in e ==> e[id] == base[id]))
  {
    if ops != [] {
      var n := |ops| - 1;
      ExpectedIsLastAccepted(base, st, ops[..n], id);
      LastAcceptedStep(st, ops, id);
      if ops[n].id == id && Accepted(st, ops, n) {
        assert LastAccepted(st, ops, id, n);
      } else {
        if forall i: nat :: !LastAccepted(st, ops, id, i) {
          assert forall i: nat :: !LastAccepted(st, ops[..n], id, i);
        }
        forall i: nat | LastAccepted(st, ops, id, i)
          ensures ops[i] == ops[..n][i]
        {
          assert LastAccepted(st, ops[..n], id, i);
        }
      }
    }
  }

  lemma LastAcceptedStep(st: Store, ops: seq<PutOp>, id: u128)
    requires ops != []
    ensures
      var n := |ops| - 1;
      if ops[n].id == id && Accepted(st, ops, n) then
        forall i: nat :: LastAccepted(st, ops, id, i) <==> i == n
      else
        forall i: nat :: LastAccepted(st, ops, id, i) <==> LastAccepted(st, ops[..n], id, i)
  {
    var n := |ops| - 1;
    var most := ops[..n];
    forall i: nat | i < n
      ensures Accepted(st, ops, i) == Accepted(st, most, i)
    {
      assert ops[..i] == most[..i];
    }
    if !(ops[n].id == id && Accepted(st, ops, n)) {
      forall i: nat
        ensures LastAccepted(st, ops, id, i) <==> LastAccepted(st, most, id, i)
      {
        if LastAccepted(st, ops, id, i) {
          assert i != n;
          forall j | i < j < n ensures most[j].id == id ==> !Accepted(st, most, j) {
            assert ops[j] == most[j];
          }
        }
        if LastAccepted(st, most, id, i) {
          forall j | i < j < |ops| ensures ops[j].id == id ==> !Accepted(st, ops, j) {
            if j < n {
              assert ops[j] == most[j];
            }
          }
        }
      }
    }
  }

  lemma {:induction false} RunIndexesOnlyItsIds(st: Store, ops: seq<PutOp>, id: u128)
    requires id in Puts(st, ops).index && id !in st.index
    ensures exists i :: 0 <= i < |ops| && ops[i].id == id
  {
    if ops != [] {
      var n := |ops| - 1;
      if id == ops[n].id {
        assert 0 <= n < |ops| && ops[n].id == id;
      } else {
        RunIndexesOnlyItsIds(st, ops[..n], id);
        var i :| 0 <= i < n && ops[..n][i].id == id;
        assert ops[i].id == id;
      }
    }
  }

  /** How far the accounted size is above the true one. */
  function Drift(st: Store): int {
    st.encodedSize - TrueSize(st)
  }

  /** The i-th put of a run was accepted for an id the store already had. */
  predicate Rewrites(st: Store, ops: seq<PutOp>, i: nat)
    requires i < |ops|
  {
    Accepted(st, ops, i) && ops[i].id in Puts(st, ops[..i]).index
  }

  lemma PutDrifts(st: Store, op: PutOp)
    requires Valid(st)
    ensures
      var after := Put(st, op.id, op.slice);
      if CanFit(st, op.id, |op.slice|) && op.id in st.index then Drift(after) == Drift(st) + 4 + |Contents(st)[op.id]|
      else Drift(after) == Drift(st)
  {
    if CanFit(st, op.id, |op.slice|) {
      if op.id in st.index {
        ReplaceRefines(st, op.id, op.slice);
      } else {
        InsertRefines(st, op.id, op.slice);
      }
    }
  }

  predicate NeverRewrites(st: Store, ops: seq<PutOp>) {
    forall i | 0 <= i < |ops| :: !Rewrites(st, ops, i)
  }

  lemma NeverRewritesStep(st: Store, ops: seq<PutOp>)
    requires ops != []
    ensures NeverRewrites(st, ops) <==> NeverRewrites(st, ops[..|ops| - 1]) && !Rewrites(st, ops, |ops| - 1)
  {
    var n := |ops| - 1;
    var most := ops[..n];
    forall i | 0 <= i < n ensures Rewrites(st, ops, i) == Rewrites(st, most, i) {
      assert ops[..i] == most[..i];
    }
    if NeverRewrites(st, ops) {
      forall i | 0 <= i < |most| ensures !Rewrites(st, most, i) {
        assert !Rewrites(st, ops, i);
      }
    }
  }

  /** Over a run the accounting drifts if and only if some accepted put hit an id already there. */
  lemma {:induction false} DriftsIffRewritten(st: Store, ops: seq<PutOp>)
    requires Valid(st)
    ensures Drift(Puts(st, ops)) >= Drift(st)
    ensures Drift(Puts(st, ops)) == Drift(st) <==> NeverRewrites(st, ops)
  {
    if ops != [] {
      var most := ops[..|ops| - 1];
      DriftsIffRewritten(st, most);
      RunRefinesMap(st, most);
      PutDrifts(Puts(st, most), ops[|ops| - 1]);
      NeverRewritesStep(st, ops);
    }
  }

  /** So with ids that are new to the store and to the run it stays exact. */
  lemma ExactWhileNoRewrite(st: Store, ops: seq<PutOp>)
    requires Valid(st) && st.encodedSize == TrueSize(st)
    requires forall i, j | 0 <= i < j < |ops| :: ops[i].id != ops[j].id
    requires forall i | 0 <= i < |ops| :: ops[i].id !in st.index
    ensures Puts(st, ops).encodedSize == TrueSize(Puts(st, ops))
  {
    forall i | 0 <= i < |ops| ensures !Rewrites(st, ops, i) {
      if ops[i].id in Puts(st, ops[..i]).index {
        RunIndexesOnlyItsIds(st, ops[..i], ops[i].id);
      }
    }
    DriftsIffRewritten(st, ops);
  }

  // ---------------------------------------------------------------- the object

  class WrbpodSlices {
    var version: byte
    var slices: seq<seq<byte>>
    var index: map<u128, nat>
    var dirty: bool
    var encodedSize: nat
    const maxSize: u32

    ghost function Value(): Store
      reads this
    {
      Store(version, slices, index, dirty, encodedSize, maxSize)
    }

    constructor (maxSize: u32)
      ensures Value() == Empty(maxSize) && Valid(Value())
    {
      version, slices, index, dirty, encodedSize := 0, [], map[], false, INITIAL_SIZE;
      this.maxSize := maxSize;
    }

    /** Adds or replaces a slice; says whether it did. */
    method PutSlice(id: u128, slice: seq<byte>) returns (ok: bool)
      requires id in index ==> index[id] < |slices|
      modifies this
      ensures ok == CanFit(old(Value()), id, |slice|)
      ensures Value() == Put(old(Value()), id, slice)
    {
      if id in index {
        if encodedSize + SliceCost(|slice|, true) > maxSize {
          return false;
        }
        encodedSize := encodedSize + SliceCost(|slice|, true);
        slices := slices[index[id] := slice];
      } else {
        if encodedSize + SliceCost(|slice|, false) > maxSize {
          return false;
        }
        encodedSize := encodedSize + SliceCost(|slice|, false);
        index := index[id := |slices|];
        slices := slices + [slice];
      }
      dirty := true;
      return true;
    }
  }
}
