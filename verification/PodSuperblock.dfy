/** The superblock's slot allocator (src/storage/wrbpod.rs): which StackerDB slots this wrbpod may
    use, and which app owns which. */
module PodSuperblock {
  import opened Prelude
  import opened Bytes

  type Name = seq<byte>

  datatype Slot = Filled(id: u32) | Free(id: u32)
  datatype AppState = AppState(version: byte, codeHash: Hash160, slots: seq<u32>)
  datatype Superblock = Superblock(version: byte, slotIds: seq<Slot>, apps: map<Name, AppState>)

  // ---------------------------------------------------------------- allocation on the slot list

  function FreeCount(slots: seq<Slot>): nat {
    if slots == [] then 0 else (if slots[0].Free? then 1 else 0) + FreeCount(slots[1..])
  }

  /** The list with its first `n` free slots filled. */
  function FillFirst(slots: seq<Slot>, n: nat): (r: seq<Slot>)
    ensures |r| == |slots|
    ensures forall i | 0 <= i < |slots| :: r[i].id == slots[i].id
  {
    if slots == [] || n == 0 then slots
    else if slots[0].Free? then [Filled(slots[0].id)] + FillFirst(slots[1..], n - 1)
    else [slots[0]] + FillFirst(slots[1..], n)
  }

  /** The ids of the first `n` free slots, in order. */
  function TakenIds(slots: seq<Slot>, n: nat): seq<u32> {
    if slots == [] || n == 0 then []
    else if slots[0].Free? then [slots[0].id] + TakenIds(slots[1..], n - 1)
    else TakenIds(slots[1..], n)
  }

  lemma {:induction false} FillFirstMore(slots: seq<Slot>, n: nat)
    ensures FillFirst(slots, n + 1) == FillFirst(FillFirst(slots, n), 1)
    ensures TakenIds(slots, n + 1) == TakenIds(slots, n) + TakenIds(FillFirst(slots, n), 1)
    decreases |slots|
  {
    if slots == [] {
    } else if n == 0 {
      assert FillFirst(slots, 0) == slots;
    } else if slots[0].Free? {
      FillFirstMore(slots[1..], n - 1);
      assert FillFirst(slots, n)[1..] == FillFirst(slots[1..], n - 1);
    } else {
      FillFirstMore(slots[1..], n);
      assert FillFirst(slots, n)[1..] == FillFirst(slots[1..], n);
    }
  }

  lemma {:induction false} FillFirstCounts(slots: seq<Slot>, n: nat)
    requires n <= FreeCount(slots)
    ensures FreeCount(FillFirst(slots, n)) == FreeCount(slots) - n
    ensures |TakenIds(slots, n)| == n
    decreases |slots|
  {
    if slots == [] || n == 0 {
    } else {
      var m := if slots[0].Free? then n - 1 else n;
      FillFirstCounts(slots[1..], m);
      assert FillFirst(slots, n)[1..] == FillFirst(slots[1..], m);
    }
  }

  /** `i` is the first free position. */
  ghost predicate FirstFree(slots: seq<Slot>, i: nat) {
    i < |slots| && slots[i].Free? && forall j | 0 <= j < i :: slots[j].Filled?
  }

  lemma {:induction false} FirstFreeFills(slots: seq<Slot>, i: nat)
    requires FirstFree(slots, i)
    ensures FillFirst(slots, 1) == slots[i := Filled(slots[i].id)]
    ensures TakenIds(slots, 1) == [slots[i].id]
    ensures FreeCount(slots) > 0
  {
    if i == 0 {
      assert FillFirst(slots[1..], 0) == slots[1..];
    } else {
      assert FirstFree(slots[1..], i - 1);
      FirstFreeFills(slots[1..], i - 1);
    }
  }

  lemma {:induction false} NoneFree(slots: seq<Slot>)
    requires forall j | 0 <= j < |slots| :: slots[j].Filled?
    ensures FreeCount(slots) == 0
  {
    if slots != [] {
      NoneFree(slots[1..]);
    }
  }

  // ---------------------------------------------------------------- release

  /** Frees the first slot with this id. */
  function ReleaseFirst(slots: seq<Slot>, id: u32): (r: seq<Slot>)
    ensures |r| == |slots|
  {
    if slots == [] then []
    else if slots[0].id == id then [Free(id)] + slots[1..]
    else [slots[0]] + ReleaseFirst(slots[1..], id)
  }

  function ReleaseEach(slots: seq<Slot>, ids: seq<u32>): (r: seq<Slot>)
    ensures |r| == |slots|
  {
    if ids == [] then slots
    else ReleaseFirst(ReleaseEach(slots, ids[..|ids| - 1]), ids[|ids| - 1])
  }

  ghost predicate Distinct(slots: seq<Slot>) {
    forall i, j | 0 <= i < j < |slots| :: slots[i].id != slots[j].id
  }

  lemma {:induction false} ReleaseFirstPointwise(slots: seq<Slot>, id: u32)
    requires Distinct(slots)
    ensures forall i | 0 <= i < |slots| ::
              ReleaseFirst(slots, id)[i] == if slots[i].id == id then Free(id) else slots[i]
  {
    if slots != [] {
      assert Distinct(slots[1..]);
      if slots[0].id != id {
        ReleaseFirstPointwise(slots[1..], id);
        forall i | 1 <= i < |slots|
          ensures ReleaseFirst(slots, id)[i] == if slots[i].id == id then Free(id) else slots[i]
        {
          assert slots[i] == slots[1..][i - 1];
        }
      }
    }
  }

  /** With distinct ids, releasing a list of ids frees exactly the slots that carry them. */
  lemma {:induction false} ReleaseEachPointwise(slots: seq<Slot>, ids: seq<u32>)
    requires Distinct(slots)
    ensures forall i | 0 <= i < |slots| ::
              ReleaseEach(slots, ids)[i] == if slots[i].id in ids then Free(slots[i].id) else slots[i]
  {
    if ids != [] {
      var n := |ids| - 1;
      var before := ReleaseEach(slots, ids[..n]);
      ReleaseEachPointwise(slots, ids[..n]);
      assert forall i | 0 <= i < |slots| :: before[i].id == slots[i].id;
      assert Distinct(before);
      ReleaseFirstPointwise(before, ids[n]);
      assert ids == ids[..n] + [ids[n]];
    }
  }

  // ---------------------------------------------------------------- the operations

  /** Gives `n` more slots to an app, creating it if needed; too few free slots leave everything
      unchanged. */
  function Allocate(sb: Superblock, app: Name, codeHash: Hash160, n: nat): Superblock {
    if n > FreeCount(sb.slotIds) then sb
    else
      var taken := TakenIds(sb.slotIds, n);
      var state := if app in sb.apps then sb.apps[app].(slots := sb.apps[app].slots + taken)
                   else AppState(0, codeHash, taken);
      sb.(slotIds := FillFirst(sb.slotIds, n), apps := sb.apps[app := state])
  }

  function Delete(sb: Superblock, app: Name): Superblock {
    if app !in sb.apps then sb
    else sb.(slotIds := ReleaseEach(sb.slotIds, sb.apps[app].slots), apps := sb.apps - {app})
  }

  // ---------------------------------------------------------------- the partition

  ghost function FilledIds(slots: seq<Slot>): set<u32> {
    set i | 0 <= i < |slots| && slots[i].Filled? :: slots[i].id
  }

  ghost function Ids(slots: seq<Slot>): set<u32> {
    set i | 0 <= i < |slots| :: slots[i].id
  }

  ghost predicate HasSlot(apps: map<Name, AppState>, app: Name, k: nat, id: u32) {
    app in apps && k < |apps[app].slots| && apps[app].slots[k] == id
  }

  /** The apps' slot lists partition exactly the filled slots. */
  ghost predicate Partition(sb: Superblock) {
    && Distinct(sb.slotIds)
    && (forall app, k: nat, id | HasSlot(sb.apps, app, k, id) :: id in FilledIds(sb.slotIds))
    && (forall id | id in FilledIds(sb.slotIds) :: exists app, k: nat :: HasSlot(sb.apps, app, k, id))
    && (forall a, j: nat, b, k: nat, id | HasSlot(sb.apps, a, j, id) && HasSlot(sb.apps, b, k, id) :: a == b && j == k)
  }

  /** Filling takes new, distinct ids and fills exactly those. */
  lemma {:induction false} TakenAreFresh(slots: seq<Slot>, n: nat)
    requires Distinct(slots)
    ensures
      var taken := TakenIds(slots, n);
      && (forall i, j | 0 <= i < j < |taken| :: taken[i] != taken[j])
      && (forall i | 0 <= i < |taken| :: taken[i] in Ids(slots) && taken[i] !in FilledIds(slots))
      && (forall id :: id in FilledIds(FillFirst(slots, n)) <==> id in FilledIds(slots) || id in taken)
    decreases |slots|
  {
    if slots == [] || n == 0 {
    } else {
      var rest, m := slots[1..], if slots[0].Free? then n - 1 else n;
      assert Distinct(rest);
      TakenAreFresh(rest, m);
      var taken, restTaken := TakenIds(slots, n), TakenIds(rest, m);
      var fill, restFill := FillFirst(slots, n), FillFirst(rest, m);
      assert slots == [slots[0]] + rest;
      IdsCons(slots[0], rest);
      assert fill == [fill[0]] + restFill;
      IdsCons(fill[0], restFill);
      assert slots[0].id !in Ids(rest);
    }
  }

  lemma IdsCons(s: Slot, rest: seq<Slot>)
    ensures Ids([s] + rest) == Ids(rest) + {s.id}
    ensures FilledIds([s] + rest) == FilledIds(rest) + (if s.Filled? then {s.id} else {})
    ensures FilledIds(rest) <= Ids(rest)
  {
    var all := [s] + rest;
    forall i | 0 <= i < |rest| ensures rest[i] == all[i + 1] {}
    forall id | id in Ids(rest) + {s.id} ensures id in Ids(all) {
      if id == s.id {
        assert all[0].id == id;
      } else {
        var i :| 0 <= i < |rest| && rest[i].id == id;
        assert all[i + 1].id == id;
      }
    }
    forall id | id in FilledIds(rest) + (if s.Filled? then {s.id} else {}) ensures id in FilledIds(all) {
      if id in FilledIds(rest) {
        var i :| 0 <= i < |rest| && rest[i].Filled? && rest[i].id == id;
        assert all[i + 1].id == id && all[i + 1].Filled?;
      } else {
        assert all[0].id == id && all[0].Filled?;
      }
    }
    forall id | id in Ids(all) ensures id in Ids(rest) + {s.id} {
      var i :| 0 <= i < |all| && all[i].id == id;
      if i > 0 {
        assert rest[i - 1].id == id;
      }
    }
    forall id | id in FilledIds(all) ensures id in FilledIds(rest) + (if s.Filled? then {s.id} else {}) {
      var i :| 0 <= i < |all| && all[i].Filled? && all[i].id == id;
      if i > 0 {
        assert rest[i - 1].id == id && rest[i - 1].Filled?;
      }
    }
  }

  lemma AllocateKeepsPartition(sb: Superblock, app: Name, codeHash: Hash160, n: nat)
    requires Partition(sb)
    ensures Partition(Allocate(sb, app, codeHash, n))
    ensures Ids(Allocate(sb, app, codeHash, n).slotIds) == Ids(sb.slotIds)
  {
    if n <= FreeCount(sb.slotIds) {
      SameIds(sb.slotIds, Allocate(sb, app, codeHash, n).slotIds);
      AllocateCovers(sb, app, codeHash, n);
      AllocateUnique(sb, app, codeHash, n);
    }
  }

  function SlotsHeld(sb: Superblock, app: Name): nat {
    if app in sb.apps then |sb.apps[app].slots| else 0
  }

  lemma AllocateCovers(sb: Superblock, app: Name, codeHash: Hash160, n: nat)
    requires Partition(sb) && n <= FreeCount(sb.slotIds)
    ensures
      var after := Allocate(sb, app, codeHash, n);
      && (forall a, k: nat, id | HasSlot(after.apps, a, k, id) :: id in FilledIds(after.slotIds))
      && (forall id | id in FilledIds(after.slotIds) :: exists a, k: nat :: HasSlot(after.apps, a, k, id))
  {
    var after := Allocate(sb, app, codeHash, n);
    var taken := TakenIds(sb.slotIds, n);
    var had := SlotsHeld(sb, app);
    TakenAreFresh(sb.slotIds, n);
    AllocateOwners(sb, app, codeHash, n, had);
    forall id | id in FilledIds(after.slotIds)
      ensures exists a, k: nat :: HasSlot(after.apps, a, k, id)
    {
      if id in taken {
        var i :| 0 <= i < |taken| && taken[i] == id;
        assert HasSlot(after.apps, app, had + i, id);
      } else {
        var a, k: nat :| HasSlot(sb.apps, a, k, id);
        assert HasSlot(after.apps, a, k, id);
      }
    }
  }

  lemma AllocateUnique(sb: Superblock, app: Name, codeHash: Hash160, n: nat)
    requires Partition(sb) && n <= FreeCount(sb.slotIds)
    ensures
      var after := Allocate(sb, app, codeHash, n);
      forall a, j: nat, b, k: nat, id | HasSlot(after.apps, a, j, id) && HasSlot(after.apps, b, k, id) ::
        a == b && j == k
  {
    var after := Allocate(sb, app, codeHash, n);
    var taken := TakenIds(sb.slotIds, n);
    var had := SlotsHeld(sb, app);
    TakenAreFresh(sb.slotIds, n);
    AllocateOwners(sb, app, codeHash, n, had);
    forall a, j: nat, b, k: nat, id | HasSlot(after.apps, a, j, id) && HasSlot(after.apps, b, k, id)
      ensures a == b && j == k
    {
      if id in taken {
        assert !HasSlot(sb.apps, a, j, id) && !HasSlot(sb.apps, b, k, id);
        assert taken[j - had] == id && taken[k - had] == id;
      } else {
        assert HasSlot(sb.apps, a, j, id) && HasSlot(sb.apps, b, k, id);
      }
    }
  }

  /** After an allocation a slot entry is an old one or one of the newly taken, appended in order. */
  lemma AllocateOwners(sb: Superblock, app: Name, codeHash: Hash160, n: nat, had: nat)
    requires n <= FreeCount(sb.slotIds)
    requires had == SlotsHeld(sb, app)
    ensures
      var after := Allocate(sb, app, codeHash, n);
      var taken := TakenIds(sb.slotIds, n);
      forall a, k: nat, id ::
        HasSlot(after.apps, a, k, id) <==>
        HasSlot(sb.apps, a, k, id) || (a == app && had <= k < had + |taken| && taken[k - had] == id)
  {
  }

  lemma SameIds(a: seq<Slot>, b: seq<Slot>)
    requires |a| == |b| && forall i | 0 <= i < |a| :: a[i].id == b[i].id
    ensures Ids(a) == Ids(b)
    ensures Distinct(a) ==> Distinct(b)
  {
    forall id | id in Ids(a) ensures id in Ids(b) {
      var i :| 0 <= i < |a| && a[i].id == id;
      assert b[i].id == id;
    }
    forall id | id in Ids(b) ensures id in Ids(a) {
      var i :| 0 <= i < |b| && b[i].id == id;
      assert a[i].id == id;
    }
  }

  lemma DeleteKeepsPartition(sb: Superblock, app: Name)
    requires Partition(sb)
    ensures Partition(Delete(sb, app))
    ensures Ids(Delete(sb, app).slotIds) == Ids(sb.slotIds)
    ensures app !in Delete(sb, app).apps
  {
    if app in sb.apps {
      var after := Delete(sb, app);
      var gone := sb.apps[app].slots;
      ReleaseEachPointwise(sb.slotIds, gone);
      SameIds(sb.slotIds, after.slotIds);
      ReleasedIds(sb.slotIds, gone);
      forall a, k: nat, id | HasSlot(after.apps, a, k, id)
        ensures id in FilledIds(after.slotIds)
      {
        assert HasSlot(sb.apps, a, k, id);
        if id in gone {
          var j :| 0 <= j < |gone| && gone[j] == id;
          assert HasSlot(sb.apps, app, j, id);
        }
      }
      forall id | id in FilledIds(after.slotIds)
        ensures exists a, k: nat :: HasSlot(after.apps, a, k, id)
      {
        var a, k: nat :| HasSlot(sb.apps, a, k, id);
        assert a != app;
        assert HasSlot(after.apps, a, k, id);
      }
      forall a, j: nat, b, k: nat, id | HasSlot(after.apps, a, j, id) && HasSlot(after.apps, b, k, id)
        ensures a == b && j == k
      {
        assert HasSlot(sb.apps, a, j, id) && HasSlot(sb.apps, b, k, id);
      }
    }
  }

  lemma ReleasedIds(slots: seq<Slot>, ids: seq<u32>)
    requires Distinct(slots)
    ensures forall id :: id in FilledIds(ReleaseEach(slots, ids)) <==> id in FilledIds(slots) && id !in ids
  {
    ReleaseEachPointwise(slots, ids);
    var after := ReleaseEach(slots, ids);
    forall id
      ensures id in FilledIds(after) <==> id in FilledIds(slots) && id !in ids
    {
      if id in FilledIds(after) {
        var i :| 0 <= i < |after| && after[i].Filled? && after[i].id == id;
        assert slots[i].Filled? && slots[i].id == id;
      }
      if id in FilledIds(slots) && id !in ids {
        var i :| 0 <= i < |slots| && slots[i].Filled? && slots[i].id == id;
        assert after[i].Filled? && after[i].id == id;
      }
    }
  }

  // ---------------------------------------------------------------- what changes hands

  /** The slot at `k` is one of the first `n` free ones. */
  predicate AmongFirst(slots: seq<Slot>, n: nat, k: nat)
    requires k < |slots|
  {
    slots[k].Free? && FreeCount(slots[..k]) < n
  }

  lemma AmongRest(slots: seq<Slot>, n: nat, k: nat)
    requires 0 < k < |slots| && n > 0
    ensures FreeCount(slots[..k]) == FreeCount(slots[1..][..k - 1]) + (if slots[0].Free? then 1 else 0)
    ensures AmongFirst(slots, n, k) <==> AmongFirst(slots[1..], if slots[0].Free? then n - 1 else n, k - 1)
  {
    assert slots[..k][0] == slots[0] && slots[..k][1..] == slots[1..][..k - 1];
  }

  lemma {:induction false} FirstAreFilled(slots: seq<Slot>, n: nat, k: nat)
    requires k < |slots|
    ensures FillFirst(slots, n)[k] == if AmongFirst(slots, n, k) then Filled(slots[k].id) else slots[k]
    decreases |slots|
  {
    if n > 0 && k > 0 {
      FirstAreFilled(slots[1..], if slots[0].Free? then n - 1 else n, k - 1);
      AmongRest(slots, n, k);
    }
  }

  lemma {:induction false} FirstAreTaken(slots: seq<Slot>, n: nat, k: nat)
    requires k < |slots| && AmongFirst(slots, n, k)
    ensures FreeCount(slots[..k]) < |TakenIds(slots, n)| && TakenIds(slots, n)[FreeCount(slots[..k])] == slots[k].id
    decreases |slots|
  {
    if k > 0 {
      AmongRest(slots, n, k);
      FirstAreTaken(slots[1..], if slots[0].Free? then n - 1 else n, k - 1);
    }
  }

  /** An allocation gives the app the first `n` free slots in order, after those it had, and nobody else
      anything; a new app is recorded with the given code hash, an old one keeps its own. */
  lemma AllocationGives(sb: Superblock, app: Name, codeHash: Hash160, n: nat)
    requires n <= FreeCount(sb.slotIds)
    ensures
      var after := Allocate(sb, app, codeHash, n);
      var had := if app in sb.apps then sb.apps[app].slots else [];
      && after.version == sb.version && |after.slotIds| == |sb.slotIds|
      && after.apps.Keys == sb.apps.Keys + {app}
      && (forall name | name in sb.apps && name != app :: after.apps[name] == sb.apps[name])
      && after.apps[app].version == (if app in sb.apps then sb.apps[app].version else 0)
      && after.apps[app].codeHash == (if app in sb.apps then sb.apps[app].codeHash else codeHash)
      && |after.apps[app].slots| == |had| + n && after.apps[app].slots[..|had|] == had
      && forall k: nat | k < |sb.slotIds| ::
           if AmongFirst(sb.slotIds, n, k) then
             && after.slotIds[k] == Filled(sb.slotIds[k].id)
             && after.apps[app].slots[|had| + FreeCount(sb.slotIds[..k])] == sb.slotIds[k].id
           else after.slotIds[k] == sb.slotIds[k]
  {
    FillFirstCounts(sb.slotIds, n);
    FirstOfEach(sb.slotIds, n);
    var had := if app in sb.apps then sb.apps[app].slots else [];
    OffsetBy(had, TakenIds(sb.slotIds, n));
    assert Allocate(sb, app, codeHash, n).apps[app].slots == had + TakenIds(sb.slotIds, n);
  }

  lemma FirstOfEach(slots: seq<Slot>, n: nat)
    ensures forall k: nat | k < |slots| ::
              if AmongFirst(slots, n, k) then
                && FillFirst(slots, n)[k] == Filled(slots[k].id)
                && FreeCount(slots[..k]) < |TakenIds(slots, n)|
                && TakenIds(slots, n)[FreeCount(slots[..k])] == slots[k].id
              else FillFirst(slots, n)[k] == slots[k]
  {
    forall k: nat | k < |slots|
      ensures FillFirst(slots, n)[k] == if AmongFirst(slots, n, k) then Filled(slots[k].id) else slots[k]
      ensures AmongFirst(slots, n, k) ==>
                FreeCount(slots[..k]) < |TakenIds(slots, n)| && TakenIds(slots, n)[FreeCount(slots[..k])] == slots[k].id
    {
      FirstAreFilled(slots, n, k);
      if AmongFirst(slots, n, k) {
        FirstAreTaken(slots, n, k);
      }
    }
  }

  lemma OffsetBy(had: seq<u32>, taken: seq<u32>)
    ensures (had + taken)[..|had|] == had
    ensures forall i | 0 <= i < |taken| :: (had + taken)[|had| + i] == taken[i]
  {
  }

  /** Deleting an app frees exactly its slots and changes no other app. */
  lemma DeletionFrees(sb: Superblock, app: Name)
    requires Distinct(sb.slotIds) && app in sb.apps
    ensures
      var after := Delete(sb, app);
      && after.version == sb.version && after.apps == sb.apps - {app} && |after.slotIds| == |sb.slotIds|
      && forall k | 0 <= k < |sb.slotIds| ::
           after.slotIds[k] == if sb.slotIds[k].id in sb.apps[app].slots then Free(sb.slotIds[k].id) else sb.slotIds[k]
  {
    ReleaseEachPointwise(sb.slotIds, sb.apps[app].slots);
  }

  // ---------------------------------------------------------------- formatting

  /** The slots below `n` whose signer is this address, in ascending order. */
  function SlotsOf(signers: seq<Address>, own: Address, n: nat): seq<u32>
    requires n <= |signers| && n <= 0x1_0000_0000
  {
    if n == 0 then []
    else SlotsOf(signers, own, n - 1) + (if signers[n - 1] == own then [n - 1] else [])
  }

  function Limit(signers: seq<Address>): nat {
    if |signers| <= 0x1_0000_0000 then |signers| else 0x1_0000_0000
  }

  lemma {:induction false} SlotsOfMeaning(signers: seq<Address>, own: Address, n: nat)
    requires n <= |signers| && n <= 0x1_0000_0000
    ensures
      var r := SlotsOf(signers, own, n);
      && (forall id: u32 :: id in r <==> id < n && signers[id] == own)
      && (forall i, j | 0 <= i < j < |r| :: r[i] < r[j])
  {
    if n > 0 {
      SlotsOfMeaning(signers, own, n - 1);
      var most := SlotsOf(signers, own, n - 1);
      forall i | 0 <= i < |most| ensures most[i] < n - 1 {
        assert most[i] in most;
      }
    }
  }

  /** Scans the signers for the slots this key can access. */
  method FindAvailableSlots(signers: seq<Address>, own: Address) returns (r: seq<u32>)
    ensures r == SlotsOf(signers, own, Limit(signers))
    ensures forall id: u32 :: id in r <==> id < |signers| && signers[id] == own
  {
    r := [];
    var i := 0;
    while i < |signers| && i < 0x1_0000_0000
      invariant i <= Limit(signers)
      invariant r == SlotsOf(signers, own, i)
    {
      if signers[i] == own {
        r := r + [i];
      }
      i := i + 1;
    }
    SlotsOfMeaning(signers, own, Limit(signers));
  }

  function Without(ids: seq<u32>, id: u32): seq<u32> {
    if ids == [] then []
    else if ids[0] == id then Without(ids[1..], id)
    else [ids[0]] + Without(ids[1..], id)
  }

  lemma {:induction false} WithoutMeaning(ids: seq<u32>, id: u32)
    requires forall i, j | 0 <= i < j < |ids| :: ids[i] != ids[j]
    ensures
      var r := Without(ids, id);
      && (forall x :: x in r <==> x in ids && x != id)
      && (forall i, j | 0 <= i < j < |r| :: r[i] != r[j])
      && |r| == |ids| - (if id in ids then 1 else 0)
  {
    if ids != [] {
      WithoutMeaning(ids[1..], id);
      assert ids == [ids[0]] + ids[1..];
      assert ids[0] !in ids[1..];
    }
  }

  function AllFree(ids: seq<u32>): (r: seq<Slot>)
    ensures |r| == |ids|
    ensures forall i | 0 <= i < |ids| :: r[i] == Free(ids[i])
  {
    if ids == [] then [] else [Free(ids[0])] + AllFree(ids[1..])
  }

  /** A fresh superblock over the slots this key can write, except the superblock's own, which the
      key must be able to write too. */
  function MakeSuperblock(superblockSlot: u32, signers: seq<Address>, own: Address): Option<Superblock> {
    var available := SlotsOf(signers, own, Limit(signers));
    var usable := Without(available, superblockSlot);
    if |available| == |usable| then None else Some(Superblock(0, AllFree(usable), map[]))
  }

  /** Formatting succeeds exactly when the superblock's slot is ours, and then offers exactly our other
      slots. */
  lemma FormatPartition(superblockSlot: u32, signers: seq<Address>, own: Address)
    ensures
      var sb := MakeSuperblock(superblockSlot, signers, own);
      && (sb.Some? <==> superblockSlot < |signers| && signers[superblockSlot] == own)
      && (sb.Some? ==>
            && Partition(sb.value)
            && |sb.value.slotIds| <= 0x1_0000_0000
            && forall id: u32 :: id in Ids(sb.value.slotIds) <==>
                 id != superblockSlot && id < |signers| && signers[id] == own)
  {
    var available := SlotsOf(signers, own, Limit(signers));
    SlotsOfMeaning(signers, own, Limit(signers));
    WithoutMeaning(available, superblockSlot);
    var usable := Without(available, superblockSlot);
    var slots := AllFree(usable);
    SlotsOfShort(signers, own, Limit(signers));
    forall id: u32
      ensures id in Ids(slots) <==> id in usable
    {
      if id in usable {
        var i :| 0 <= i < |usable| && usable[i] == id;
        assert slots[i].id == id;
      }
    }
    assert FilledIds(slots) == {};
    var sb := MakeSuperblock(superblockSlot, signers, own);
    if sb.Some? {
      assert forall app, k: nat, id :: !HasSlot(sb.value.apps, app, k, id);
    }
  }

  lemma {:induction false} SlotsOfShort(signers: seq<Address>, own: Address, n: nat)
    requires n <= |signers| && n <= 0x1_0000_0000
    ensures |SlotsOf(signers, own, n)| <= n
  {
    if n > 0 {
      SlotsOfShort(signers, own, n - 1);
    }
  }

  // ---------------------------------------------------------------- runs

  datatype Op = AllocateSlots(app: Name, codeHash: Hash160, n: nat) | DeleteSlots(app: Name)

  function Apply(sb: Superblock, op: Op): Superblock {
    match op
    case AllocateSlots(app, codeHash, n) => Allocate(sb, app, codeHash, n)
    case DeleteSlots(app) => Delete(sb, app)
  }

  function ApplyAll(sb: Superblock, ops: seq<Op>): Superblock {
    if ops == [] then sb else Apply(ApplyAll(sb, ops[..|ops| - 1]), ops[|ops| - 1])
  }

  lemma {:induction false} RunsKeepPartition(sb: Superblock, ops: seq<Op>)
    requires Partition(sb)
    ensures Partition(ApplyAll(sb, ops))
    ensures Ids(ApplyAll(sb, ops).slotIds) == Ids(sb.slotIds)
  {
    if ops != [] {
      var most := ApplyAll(sb, ops[..|ops| - 1]);
      RunsKeepPartition(sb, ops[..|ops| - 1]);
      match ops[|ops| - 1]
      case AllocateSlots(app, codeHash, n) => AllocateKeepsPartition(most, app, codeHash, n);
      case DeleteSlots(app) => DeleteKeepsPartition(most, app);
    }
  }

  /** Main result.  From a formatted superblock, after any allocations and deletions in any order, the
      apps' lists partition exactly the filled slots; every slot is one this key may write, and none is
      the superblock's own; and the next request succeeds exactly when enough slots are free. */
  lemma FormattedRunsStaySound(superblockSlot: u32, signers: seq<Address>, own: Address, ops: seq<Op>)
    requires MakeSuperblock(superblockSlot, signers, own).Some?
    ensures
      var sb := ApplyAll(MakeSuperblock(superblockSlot, signers, own).value, ops);
      && Partition(sb)
      && (forall app, k: nat, id: u32 | HasSlot(sb.apps, app, k, id) ::
            id != superblockSlot && id < |signers| && signers[id] == own)
      && (forall app, codeHash, n: nat ::
            if n <= FreeCount(sb.slotIds) then
              FreeCount(Allocate(sb, app, codeHash, n).slotIds) == FreeCount(sb.slotIds) - n
            else Allocate(sb, app, codeHash, n) == sb)
  {
    var start := MakeSuperblock(superblockSlot, signers, own).value;
    FormatPartition(superblockSlot, signers, own);
    RunsKeepPartition(start, ops);
    var sb := ApplyAll(start, ops);
    FilledAreIds(sb.slotIds);
    forall app: Name, codeHash: Hash160, n: nat | n <= FreeCount(sb.slotIds)
      ensures FreeCount(Allocate(sb, app, codeHash, n).slotIds) == FreeCount(sb.slotIds) - n
    {
      FillFirstCounts(sb.slotIds, n);
    }
  }

  lemma FilledAreIds(slots: seq<Slot>)
    ensures FilledIds(slots) <= Ids(slots)
  {
  }

  // ---------------------------------------------------------------- the object

  /** `now` is `before` with the free slots at `used` filled. */
  ghost predicate FilledAt(now: seq<Slot>, before: seq<Slot>, used: set<nat>) {
    && |now| == |before|
    && (forall i | i in used :: i < |before| && before[i].Free?)
    && (forall i | 0 <= i < |before| :: now[i] == if i in used then Filled(before[i].id) else before[i])
  }

  lemma AllocateStep(before: seq<Slot>, here: seq<Slot>, used: set<nat>, n: nat, at: nat)
    requires FirstFree(here, at) && FilledAt(here, before, used)
    requires here == FillFirst(before, n) && n <= FreeCount(before)
    ensures here[at := Filled(here[at].id)] == FillFirst(before, n + 1)
    ensures TakenIds(before, n) + [here[at].id] == TakenIds(before, n + 1)
    ensures n + 1 <= FreeCount(before)
    ensures FilledAt(here[at := Filled(here[at].id)], before, used + {at})
  {
    FirstFreeFills(here, at);
    FillFirstMore(before, n);
    FillFirstCounts(before, n);
  }

  class WrbpodSuperblock {
    var version: byte
    var slotIds: seq<Slot>
    var apps: map<Name, AppState>

    ghost function Value(): Superblock
      reads this
    {
      Superblock(version, slotIds, apps)
    }

    constructor (ids: seq<u32>)
      ensures Value() == Superblock(0, AllFree(ids), map[])
    {
      version, slotIds, apps := 0, AllFree(ids), map[];
    }

    /** Fills the first free slot that this allocation has not used yet. */
    method FillFreeSlot(used: set<nat>) returns (r: Option<u32>, nowUsed: set<nat>)
      requires |slotIds| <= 0x1_0000_0000
      requires forall i | i in used :: i < |slotIds| && slotIds[i].Filled?
      modifies this`slotIds
      ensures r.None? <==> FreeCount(old(slotIds)) == 0
      ensures r.None? ==> slotIds == old(slotIds) && nowUsed == used
      ensures r.Some? ==>
        exists i: nat :: FirstFree(old(slotIds), i) && r.value == old(slotIds)[i].id
          && slotIds == old(slotIds)[i := Filled(r.value)] && nowUsed == used + {i}
    {
      var i := 0;
      while i < |slotIds|
        invariant i <= |slotIds|
        invariant forall j | 0 <= j < i :: slotIds[j].Filled?
        invariant slotIds == old(slotIds)
      {
        if i !in used && slotIds[i].Free? {
          FirstFreeFills(slotIds, i);
          assert FirstFree(old(slotIds), i);
          slotIds := slotIds[i := Filled(slotIds[i].id)];
          return Some(slotIds[i].id), used + {i};
        }
        i := i + 1;
      }
      NoneFree(slotIds);
      return None, used;
    }

    /** Frees the slots at these positions again. */
    method RollBack(used: set<nat>, ghost before: seq<Slot>)
      requires FilledAt(slotIds, before, used)
      modifies this`slotIds
      ensures slotIds == before
    {
      var todo := used;
      while todo != {}
        invariant todo <= used && |slotIds| == |before|
        invariant forall i | 0 <= i < |before| :: slotIds[i] == if i in todo then Filled(before[i].id) else before[i]
        decreases todo
      {
        var i :| i in todo;
        slotIds := slotIds[i := Free(slotIds[i].id)];
        todo := todo - {i};
      }
    }

    /** Fills `n` free slots, or none. */
    method TakeSlots(n: u32) returns (ok: bool, taken: seq<u32>)
      requires |slotIds| <= 0x1_0000_0000
      modifies this`slotIds
      ensures ok <==> n <= FreeCount(old(slotIds))
      ensures ok ==> slotIds == FillFirst(old(slotIds), n) && taken == TakenIds(old(slotIds), n)
      ensures !ok ==> slotIds == old(slotIds)
    {
      ghost var before := slotIds;
      var used: set<nat> := {};
      taken := [];
      for i := 0 to n
        invariant i <= FreeCount(before)
        invariant slotIds == FillFirst(before, i) && taken == TakenIds(before, i)
        invariant FilledAt(slotIds, before, used)
      {
        ghost var here := slotIds;
        var slot, nowUsed := FillFreeSlot(used);
        if slot.None? {
          FillFirstCounts(before, i);
          RollBack(used, before);
          return false, [];
        }
        ghost var at: nat :| FirstFree(here, at) && slot.value == here[at].id
          && slotIds == here[at := Filled(slot.value)] && nowUsed == used + {at};
        AllocateStep(before, here, used, i, at);
        taken, used := taken + [slot.value], nowUsed;
      }
      return true, taken;
    }

    method AllocateSlots(app: Name, codeHash: Hash160, n: u32) returns (ok: bool)
      requires |slotIds| <= 0x1_0000_0000
      modifies this
      ensures ok <==> n <= FreeCount(old(slotIds))
      ensures Value() == Allocate(old(Value()), app, codeHash, n)
    {
      var taken;
      ok, taken := TakeSlots(n);
      if ok {
        var state := if app in apps then apps[app].(slots := apps[app].slots + taken) else AppState(0, codeHash, taken);
        apps := apps[app := state];
      }
    }

    method DeleteSlots(app: Name)
      modifies this
      ensures Value() == Delete(old(Value()), app)
    {
      if app !in apps {
        return;
      }
      var gone := apps[app].slots;
      apps := apps - {app};
      for k := 0 to |gone|
        invariant slotIds == ReleaseEach(old(slotIds), gone[..k])
        invariant version == old(version) && apps == old(apps) - {app}
      {
        assert gone[..k + 1][..k] == gone[..k];
        ghost var here := slotIds;
        var i := 0;
        var found := false;
        ReleaseFromStart(here, gone[k]);
        while i < |slotIds| && !found
          invariant i <= |slotIds| == |here|
          invariant !found ==> slotIds == here
          invariant !found ==> ReleaseFirst(here, gone[k]) == here[..i] + ReleaseFirst(here[i..], gone[k])
          invariant found ==> slotIds == ReleaseFirst(here, gone[k])
          invariant version == old(version) && apps == old(apps) - {app}
          decreases |slotIds| - i, !found
        {
          ReleaseSplit(here, i, gone[k]);
          if slotIds[i].id == gone[k] {
            slotIds := slotIds[i := Free(slotIds[i].id)];
            found := true;
          } else {
            i := i + 1;
          }
        }
        if !found {
          assert here[..i] + ReleaseFirst(here[i..], gone[k]) == here;
        }
      }
      assert gone[..|gone|] == gone;
    }
  }

  lemma ReleaseFromStart(slots: seq<Slot>, id: u32)
    ensures ReleaseFirst(slots, id) == slots[..0] + ReleaseFirst(slots[0..], id)
  {
    assert slots[0..] == slots;
  }

  lemma ReleaseSplit(slots: seq<Slot>, i: nat, id: u32)
    requires i < |slots|
    ensures slots[..i] + ReleaseFirst(slots[i..], id)
         == if slots[i].id == id then slots[i := Free(id)]
            else slots[..i + 1] + ReleaseFirst(slots[i + 1..], id)
  {
    assert slots[i..][0] == slots[i];
    assert slots[i..][1..] == slots[i + 1..];
  }
}
