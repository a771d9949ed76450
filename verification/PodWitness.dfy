/** A concrete node of two slots on which two overlapping superblock rounds give one slot to two apps. */
module PodWitness {
  import opened Prelude
  import opened Bytes
  import opened PodNode
  import opened PodSession
  import opened PodShared
  import Super = PodSuperblock
  import SuperCodec = PodSuperblockCodec

  // ---------------------------------------------------------------- a scheme and an order

  const OWNER: Key := [1]
  const APP_P: Name := [112]
  const APP_Q: Name := [113]
  const CODE: Hash160 := Zeros(20)

  function OnesHash(data: seq<byte>): (h: Hash32)
    ensures h != ZERO_HASH
  {
    var h := seq(32, _ => 1);
    assert h[0] != ZERO_HASH[0];
    h
  }

  function KeyItself(k: Key): Address {
    k
  }

  function SignName(k: Key, slot: u32, v: u32, h: Hash32): Option<ChunkSignature> {
    Some(k)
  }

  function VerifyName(a: Address, slot: u32, v: u32, h: Hash32, sig: ChunkSignature): Option<bool> {
    Some(a == sig)
  }

  function RecoverName(slot: u32, v: u32, h: Hash32, sig: ChunkSignature): Option<PubKey> {
    Some(sig)
  }

  /** A key signs with its own name. */
  function NameScheme(): ChunkScheme {
    ChunkScheme(OnesHash, KeyItself, SignName, VerifyName, RecoverName)
  }

  lemma NameSchemeIsLawful()
    ensures NameScheme().Lawful()
  {
  }

  ghost function SomeOrder(apps: map<Name, Super.AppState>): seq<Name> {
    OrderOf(apps.Keys)
  }

  ghost function OrderOf(names: set<Name>): (r: seq<Name>)
    ensures |r| == |names| && forall name :: name in r <==> name in names
    ensures forall i, j | 0 <= i < j < |r| :: r[i] != r[j]
  {
    if names == {} then []
    else
      var name :| name in names;
      [name] + OrderOf(names - {name})
  }

  lemma SomeOrderSorts()
    ensures Sorts(SomeOrder)
  {
    forall apps: map<Name, Super.AppState> ensures SuperCodec.Lists(SomeOrder(apps), apps) {
      assert |apps| == |apps.Keys|;
    }
  }

  // ---------------------------------------------------------------- the node and the sessions

  /** Two empty slots, both the owner's. */
  function TwoSlots(): Node {
    Node(2, [Row(0, OWNER, ZERO_HASH, [], []), Row(0, OWNER, ZERO_HASH, [], [])])
  }

  function NewSession(): Session {
    Session(OWNER, Super.Superblock(0, [], map[]), map[], None, 0)
  }

  function TheWorld(): World {
    World(NameScheme(), 0)
  }

  /** Slot 0 is the superblock's, so slot 1 alone can be given away. */
  function OneFree(): Superblock {
    Super.Superblock(0, [Super.Free(1)], map[])
  }

  lemma FirstDownload()
    ensures DownloadSuperblock(TheWorld(), NewSession(), TwoSlots(), [OWNER, OWNER]) == Ok(OneFree())
    ensures Super.Partition(OneFree()) && Super.FreeCount(OneFree().slotIds) == 1
  {
    var signers: seq<Address> := [OWNER, OWNER];
    assert Super.SlotsOf(signers, OWNER, 0) == [];
    assert Super.SlotsOf(signers, OWNER, 1) == [0];
    assert Super.SlotsOf(signers, OWNER, 2) == [0, 1];
    assert [0 as u32, 1][1..] == [1 as u32] && [1 as u32][1..] == [];
    assert Super.Without([1], 0) == [1];
    assert Super.Without([0, 1], 0) == [1];
    assert Super.AllFree([1]) == [Super.Free(1)];
    assert Super.FreeCount([Super.Free(1)][1..]) == 0;
  }

  /** The superblock in which an app was given the slot. */
  function Given(app: Name): Superblock {
    Super.Superblock(0, [Super.Filled(1)], map[app := Super.AppState(0, CODE, [1])])
  }

  lemma OneIsGiven(app: Name)
    ensures Super.Allocate(OneFree(), app, CODE, 1) == Given(app)
  {
    var slots: seq<Super.Slot> := [Super.Free(1)];
    assert slots[1..] == [];
    assert Super.FreeCount(slots) == 1;
    assert Super.TakenIds(slots, 1) == [1] && Super.FillFirst(slots, 1) == [Super.Filled(1)];
  }

  lemma GivenIsSendable(app: Name)
    requires SuperCodec.Ascii(app) && |app| == 1
    ensures Sorts(SomeOrder) && Sendable(TheWorld(), SomeOrder, Given(app))
  {
    SomeOrderSorts();
    var names := SomeOrder(Given(app).apps);
    assert SuperCodec.Lists(names, Given(app).apps);
    forall i | 0 <= i < |names| ensures names[i] == app {
      assert names[i] in Given(app).apps;
    }
  }

  /** The first session can upload on the new node, with no one else writing. */
  lemma FirstCanUpload(a: Session)
    requires a == NewSession().(signers := Some([OWNER, OWNER]), superblock := Given(APP_P))
    ensures Sorts(SomeOrder) && CanUpload(TheWorld(), SomeOrder, a, TwoSlots(), [[], []])
  {
    GivenIsSendable(APP_P);
  }

  /** Its first put is accepted, under version 0. */
  lemma FirstUpload(a: Session)
    requires Sorts(SomeOrder) && a == NewSession().(signers := Some([OWNER, OWNER]), superblock := Given(APP_P))
    ensures
      var node := Upload(TheWorld(), SomeOrder, a, TwoSlots(), [[], []]).0;
      |node.rows| == 2 && node.rows[0].version == 0
  {
    var w, node := TheWorld(), TwoSlots();
    assert Puts(w.scheme, node, []) == node;
    var chunk := Chunk(0, 0, Wire(SomeOrder, a.superblock), []);
    assert PutAck(w.scheme, node, Signed(w.scheme, OWNER, chunk).value).accepted;
  }

  /** Two sessions that start from the new node and ask for one slot each are both told they have it. */
  lemma TwoAppsGetOneSlot()
    ensures Sorts(SomeOrder)
    ensures
      var w, s, start := TheWorld(), NewSession(), TwoSlots();
      var (a, okA) := Begin(w, s, start, [OWNER, OWNER], APP_P, CODE, 1);
      var (b, okB) := Begin(w, s, start, [OWNER, OWNER], APP_Q, CODE, 1);
      var (node, sentA) := Upload(w, SomeOrder, a, start, [[], []]);
      var (end, sentB) := Upload(w, SomeOrder, b, node, [[], []]);
      && w.scheme.Lawful() && okA == Ok(true) && okB == Ok(true) && sentA == Ok(()) && sentB == Ok(())
      && Collide(a.superblock, APP_P, b.superblock, APP_Q)
  {
    var w, s, start := TheWorld(), NewSession(), TwoSlots();
    NameSchemeIsLawful();
    FirstDownload();
    OneIsGiven(APP_P);
    OneIsGiven(APP_Q);
    GivenIsSendable(APP_P);
    GivenIsSendable(APP_Q);
    var a := Begin(w, s, start, [OWNER, OWNER], APP_P, CODE, 1).0;
    FirstCanUpload(a);
    FirstUpload(a);
    assert APP_P[0] != APP_Q[0];
    OverlappingRoundsCollide(w, SomeOrder, OneFree(), start, [OWNER, OWNER],
                             s, APP_P, CODE, 1, [[], []], s, APP_Q, CODE, 1, [[], []], s);
  }
}
