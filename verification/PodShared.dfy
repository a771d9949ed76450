/** Changing the superblock (src/storage/wrbpod.rs): download, change, upload.  Rounds that follow each
    other keep every slot with one app; rounds that overlap give the same slot to two. */
module PodShared {
  import opened Prelude
  import opened Bytes
  import opened PodNode
  import opened PodSession
  import Super = PodSuperblock
  import SuperCodec = PodSuperblockCodec

  /** The order in which the apps are written. */
  type Order = map<Name, Super.AppState> -> seq<Name>

  ghost predicate Sorts(order: Order) {
    forall apps: map<Name, Super.AppState> :: SuperCodec.Lists(order(apps), apps)
  }

  // ---------------------------------------------------------------- the round

  /** The session after a download: what it fetched, and the signer list if it had none. */
  function Download(w: World, s: Session, node: Node, home: seq<Address>): (Session, Result<(), PodError>) {
    var known := if s.superblockSlot < |node.rows| && s.signers.None? then s.(signers := Some(home)) else s;
    match DownloadSuperblock(w, s, node, home)
    case Err(e) => (known, Err(e))
    case Ok(sb) => (known.(superblock := sb), Ok(()))
  }

  ghost function Wire(order: Order, sb: Superblock): seq<byte>
    requires Sorts(order)
  {
    assert SuperCodec.Lists(order(sb.apps), sb.apps);
    SuperCodec.EncodeSuperblock(sb, order(sb.apps))
  }

  /** Uploads the session's superblock, starting from the listed version and retrying. */
  ghost function Upload(
      w: World, order: Order, s: Session, node: Node, bursts: seq<seq<Chunk>>): (Node, Result<(), PodError>)
    requires Sorts(order)
  {
    var slot := s.superblockSlot;
    if slot >= |node.rows| then (node, Err(PutChunkError))
    else
      match Retry(w.scheme, s.key, node, Chunk(slot, node.rows[slot].version, Wire(order, s.superblock), []), bursts)
      case Stored(after, _) => (after, Ok(()))
      case Refused(after, _) => (after, Err(PutChunkError))
      case Pending(after, _) => (after, Err(Unfinished))
      case SignFailed(after) => (after, Err(CodecError))
      case VersionOverflow(after) => (after, Err(OverflowPanic))
  }

  /** The first half of a round, before the upload: fetch the superblock and allocate in it. */
  function Begin(w: World, s: Session, node: Node, home: seq<Address>, app: Name, codeHash: Hash160, n: nat)
    : (Session, Result<bool, PodError>)
  {
    var (known, got) := Download(w, s, node, home);
    match got
    case Err(e) => (known, Err(e))
    case Ok(_) =>
      (known.(superblock := Super.Allocate(known.superblock, app, codeHash, n)),
       Ok(n <= Super.FreeCount(known.superblock.slotIds)))
  }

  // ---------------------------------------------------------------- what an upload leaves

  /** The superblock obeys the decoder's limits, and its bytes do not hash to zero. */
  ghost predicate Sendable(w: World, order: Order, sb: Superblock)
    requires Sorts(order)
  {
    && SuperCodec.Representable(sb) && |sb.slotIds| <= SuperCodec.MAX_SLOTS && SuperCodec.AllAscii(order(sb.apps))
    && w.scheme.hash(Wire(order, sb)) != ZERO_HASH
  }

  /** The superblock's slot is the session's to write. */
  ghost predicate OwnsSlot(w: World, s: Session, node: Node) {
    s.superblockSlot < |node.rows| && node.rows[s.superblockSlot].pubkh == w.scheme.addressOf(s.key)
  }

  /** The slot holds this superblock, written by its owner. */
  ghost predicate Held(w: World, order: Order, node: Node, slot: u32, key: Key, sb: Superblock)
    requires Sorts(order)
  {
    && slot < |node.rows| && !IsEmpty(node.rows[slot])
    && var r := node.rows[slot];
       && r.data == Wire(order, sb) && r.dataHash == w.scheme.hash(r.data) && r.pubkh == w.scheme.addressOf(key)
       && w.scheme.sign(key, slot, r.version, r.dataHash) == Some(r.sig)
  }

  /** A finished upload holds its slot until another write to the slot lands. */
  lemma UploadedIsHeld(
      w: World, order: Order, s: Session, node: Node, bursts: seq<seq<Chunk>>, later: seq<Chunk>, end: Node)
    requires Sorts(order) && OwnsSlot(w, s, node) && Sendable(w, order, s.superblock)
    requires Upload(w, order, s, node, bursts).1.Ok?
    requires Landed(w.scheme, Upload(w, order, s, node, bursts).0, later, s.superblockSlot) == 0
    requires end == Puts(w.scheme, Upload(w, order, s, node, bursts).0, later)
    ensures Held(w, order, end, s.superblockSlot, s.key, s.superblock)
  {
    var slot := s.superblockSlot;
    StoredShape(w.scheme, s.key, node, Chunk(slot, node.rows[slot].version, Wire(order, s.superblock), []), bursts);
    PutsKeepOwners(w.scheme, Upload(w, order, s, node, bursts).0, later, slot);
  }

  /** Any session downloads what slot 0 holds, and nothing from another slot. */
  lemma HeldIsDownloaded(w: World, order: Order, node: Node, key: Key, sb: Superblock, t: Session)
    requires w.scheme.Lawful() && Sorts(order) && Held(w, order, node, t.superblockSlot, key, sb)
    requires Sendable(w, order, sb)
    requires t.signers.Some? ==> t.signers.value == SignersOf(node)
    ensures DownloadSuperblock(w, t, node, SignersOf(node))
         == if t.superblockSlot == 0 then Ok(sb) else Err(NoSuchChunk)
  {
    assert SuperCodec.Lists(order(sb.apps), sb.apps);
    SuperblockReloadsOnlyFromSlotZero(w, t, node, sb, order(sb.apps), key);
  }

  // ---------------------------------------------------------------- when an upload succeeds

  /** What an upload needs: a slot in order that is the session's, bytes it can sign, and other writers
      who are entitled to write, fewer than the puts the loop is followed for. */
  ghost predicate CanUpload(w: World, order: Order, s: Session, node: Node, bursts: seq<seq<Chunk>>)
    requires Sorts(order)
  {
    && OwnsSlot(w, s, node) && Healthy(w.scheme, node, s.superblockSlot) && Sendable(w, order, s.superblock)
    && CanSign(w.scheme, s.key, s.superblockSlot, Wire(order, s.superblock))
    && ProperBursts(w.scheme, w.scheme.addressOf(s.key), s.superblockSlot, bursts)
    && bursts != []
    && |bursts| >= LandedAll(w.scheme, Puts(w.scheme, node, bursts[0]), bursts[1..], s.superblockSlot) + 2
  }

  lemma UploadSucceeds(w: World, order: Order, s: Session, node: Node, bursts: seq<seq<Chunk>>)
    requires w.scheme.Lawful() && Sorts(order) && CanUpload(w, order, s, node, bursts)
    ensures
      var (end, r) := Upload(w, order, s, node, bursts);
      && r == Ok(()) && Held(w, order, end, s.superblockSlot, s.key, s.superblock)
      && |end.rows| == |node.rows| && end.maxSlots == node.maxSlots
      && end.rows[s.superblockSlot].pubkh == node.rows[s.superblockSlot].pubkh
  {
    var slot := s.superblockSlot;
    var chunk := Chunk(slot, node.rows[slot].version, Wire(order, s.superblock), []);
    var k := LandedAll(w.scheme, Puts(w.scheme, node, bursts[0]), bursts[1..], slot);
    RetryStops(w.scheme, s.key, node, chunk, bursts, k);
    var end := Upload(w, order, s, node, bursts).0;
    UploadedIsHeld(w, order, s, node, bursts, [], end);
    StoredShape(w.scheme, s.key, node, chunk, bursts);
    KeepsTableSize(w.scheme, s.key, node, chunk, bursts);
  }

  lemma {:induction false} KeepsTableSize(
      scheme: ChunkScheme, key: Key, node: Node, chunk: Chunk, bursts: seq<seq<Chunk>>)
    requires Retry(scheme, key, node, chunk, bursts).Stored?
    ensures Retry(scheme, key, node, chunk, bursts).node.maxSlots == node.maxSlots
    decreases |bursts|
  {
    PutsKeepSize(scheme, node, bursts[0]);
    var here := Puts(scheme, node, bursts[0]);
    var ack := PutAck(scheme, here, Signed(scheme, key, chunk).value);
    if !ack.accepted {
      KeepsTableSize(scheme, key, here, chunk.(version := ack.metadata.value.version + 1), bursts[1..]);
    }
  }

  lemma {:induction false} PutsKeepSize(scheme: ChunkScheme, node: Node, chunks: seq<Chunk>)
    ensures Puts(scheme, node, chunks).maxSlots == node.maxSlots
    decreases |chunks|
  {
    if chunks != [] {
      PutsKeepSize(scheme, Put(scheme, node, chunks[0]), chunks[1..]);
    }
  }

  /** A slot that holds a superblock is in order for the next upload while its version can grow. */
  lemma HeldIsHealthy(w: World, order: Order, node: Node, slot: u32, key: Key, sb: Superblock)
    requires w.scheme.Lawful() && Sorts(order) && Held(w, order, node, slot, key, sb)
    requires slot < node.maxSlots && node.rows[slot].version < MAX_U32
    ensures Healthy(w.scheme, node, slot)
  {
    var r := node.rows[slot];
    assert w.scheme.sign(key, slot, r.version, r.dataHash).Some?;
  }

  // ---------------------------------------------------------------- who has which slot

  /** Some slot is `p`'s in one superblock and `q`'s in another. */
  ghost predicate Collide(a: Superblock, p: Name, b: Superblock, q: Name) {
    exists j: nat, k: nat, id: u32 :: Super.HasSlot(a.apps, p, j, id) && Super.HasSlot(b.apps, q, k, id)
  }

  lemma {:induction false} FirstTaken(slots: seq<Super.Slot>, n: nat)
    requires 1 <= n <= Super.FreeCount(slots)
    ensures Super.TakenIds(slots, n) != [] && Super.TakenIds(slots, 1) != []
    ensures Super.TakenIds(slots, n)[0] == Super.TakenIds(slots, 1)[0]
  {
    if !slots[0].Free? {
      FirstTaken(slots[1..], n);
    } else {
      Super.FillFirstCounts(slots, n);
    }
  }

  lemma NewOrOld(sb: Superblock, app: Name, codeHash: Hash160, n: nat, k: nat, id: u32)
    requires Super.Partition(sb) && Super.HasSlot(Super.Allocate(sb, app, codeHash, n).apps, app, k, id)
    ensures id in Super.FilledIds(sb.slotIds) ==> Super.HasSlot(sb.apps, app, k, id)
    ensures id !in Super.FilledIds(sb.slotIds) ==> 1 <= n <= Super.FreeCount(sb.slotIds)
  {
    if n <= Super.FreeCount(sb.slotIds) {
      Super.AllocateOwners(sb, app, codeHash, n, Super.SlotsHeld(sb, app));
      Super.TakenAreFresh(sb.slotIds, n);
    }
  }

  /** Two allocations made from the same superblock give some slot to both apps if and only if both
      succeed in giving any. */
  lemma AllocationsCollideIff(sb: Superblock, p: Name, g: Hash160, n: nat, q: Name, h: Hash160, m: nat)
    requires Super.Partition(sb) && p != q
    ensures Collide(Super.Allocate(sb, p, g, n), p, Super.Allocate(sb, q, h, m), q)
       <==> 1 <= n <= Super.FreeCount(sb.slotIds) && 1 <= m <= Super.FreeCount(sb.slotIds)
  {
    var a, b := Super.Allocate(sb, p, g, n), Super.Allocate(sb, q, h, m);
    if 1 <= n <= Super.FreeCount(sb.slotIds) && 1 <= m <= Super.FreeCount(sb.slotIds) {
      FirstTaken(sb.slotIds, n);
      FirstTaken(sb.slotIds, m);
      var id := Super.TakenIds(sb.slotIds, 1)[0];
      Super.AllocateOwners(sb, p, g, n, Super.SlotsHeld(sb, p));
      Super.AllocateOwners(sb, q, h, m, Super.SlotsHeld(sb, q));
      assert Super.HasSlot(a.apps, p, Super.SlotsHeld(sb, p), id);
      assert Super.HasSlot(b.apps, q, Super.SlotsHeld(sb, q), id);
    }
    if Collide(a, p, b, q) {
      var j: nat, k: nat, id: u32 :| Super.HasSlot(a.apps, p, j, id) && Super.HasSlot(b.apps, q, k, id);
      NewOrOld(sb, p, g, n, j, id);
      NewOrOld(sb, q, h, m, k, id);
    }
  }

  /** Two rounds that overlap: both sessions fetch the same superblock before either uploads.  Both are
      told they succeeded, and both uploads do; whoever fetches the superblock then gets the second's, in
      which the first app has nothing new; and the two apps share a slot, each session serving one of
      them, exactly when each was given any. */
  lemma OverlappingRoundsCollide(
      w: World, order: Order, sb: Superblock, start: Node, home: seq<Address>,
      a: Session, p: Name, g: Hash160, n: nat, burstsA: seq<seq<Chunk>>,
      b: Session, q: Name, h: Hash160, m: nat, burstsB: seq<seq<Chunk>>, t: Session)
    requires w.scheme.Lawful() && Sorts(order) && Super.Partition(sb) && p != q
    requires a.superblockSlot == b.superblockSlot == t.superblockSlot && a.key == b.key
    requires DownloadSuperblock(w, a, start, home) == Ok(sb) && DownloadSuperblock(w, b, start, home) == Ok(sb)
    requires n <= Super.FreeCount(sb.slotIds) && m <= Super.FreeCount(sb.slotIds)
    requires CanUpload(w, order, Begin(w, a, start, home, p, g, n).0, start, burstsA)
    requires
      var node := Upload(w, order, Begin(w, a, start, home, p, g, n).0, start, burstsA).0;
      var b' := Begin(w, b, start, home, q, h, m).0;
      && (a.superblockSlot < |node.rows| ==> node.rows[a.superblockSlot].version < MAX_U32)
      && Sendable(w, order, b'.superblock)
      && CanSign(w.scheme, b.key, b.superblockSlot, Wire(order, b'.superblock))
      && ProperBursts(w.scheme, w.scheme.addressOf(b.key), b.superblockSlot, burstsB) && burstsB != []
      && |burstsB| >= LandedAll(w.scheme, Puts(w.scheme, node, burstsB[0]), burstsB[1..], b.superblockSlot) + 2
    ensures
      var (a', okA) := Begin(w, a, start, home, p, g, n);
      var (b', okB) := Begin(w, b, start, home, q, h, m);
      var (node, sentA) := Upload(w, order, a', start, burstsA);
      var (end, sentB) := Upload(w, order, b', node, burstsB);
      && okA == Ok(true) && okB == Ok(true) && sentA == Ok(()) && sentB == Ok(())
      && DownloadSuperblock(w, t.(signers := None), end, SignersOf(end))
         == (if t.superblockSlot == 0 then Ok(b'.superblock) else Err(NoSuchChunk))
      && (forall k: nat, id: u32 :: Super.HasSlot(b'.superblock.apps, p, k, id) <==> Super.HasSlot(sb.apps, p, k, id))
      && (Collide(a'.superblock, p, b'.superblock, q) <==> n >= 1 && m >= 1)
  {
    var a', b' := Begin(w, a, start, home, p, g, n).0, Begin(w, b, start, home, q, h, m).0;
    var node := Upload(w, order, a', start, burstsA).0;
    var end := Upload(w, order, b', node, burstsB).0;
    TwoUploads(w, order, a', start, burstsA, b', node, burstsB);
    HeldIsDownloaded(w, order, end, b.key, b'.superblock, t.(signers := None));
    AllocationsCollideIff(sb, p, g, n, q, h, m);
    Super.AllocateOwners(sb, q, h, m, Super.SlotsHeld(sb, q));
  }

  /** One session uploads on top of another's upload. */
  lemma TwoUploads(
      w: World, order: Order, a: Session, start: Node, burstsA: seq<seq<Chunk>>,
      b: Session, node: Node, burstsB: seq<seq<Chunk>>)
    requires w.scheme.Lawful() && Sorts(order) && CanUpload(w, order, a, start, burstsA)
    requires node == Upload(w, order, a, start, burstsA).0 && a.superblockSlot == b.superblockSlot && a.key == b.key
    requires a.superblockSlot < |node.rows| ==> node.rows[a.superblockSlot].version < MAX_U32
    requires Sendable(w, order, b.superblock)
    requires CanSign(w.scheme, b.key, b.superblockSlot, Wire(order, b.superblock))
    requires ProperBursts(w.scheme, w.scheme.addressOf(b.key), b.superblockSlot, burstsB) && burstsB != []
    requires |burstsB| >= LandedAll(w.scheme, Puts(w.scheme, node, burstsB[0]), burstsB[1..], b.superblockSlot) + 2
    ensures Upload(w, order, a, start, burstsA).1 == Ok(()) && Upload(w, order, b, node, burstsB).1 == Ok(())
    ensures Held(w, order, Upload(w, order, b, node, burstsB).0, b.superblockSlot, b.key, b.superblock)
  {
    UploadSucceeds(w, order, a, start, burstsA);
    HeldIsHealthy(w, order, node, a.superblockSlot, a.key, a.superblock);
    assert CanUpload(w, order, b, node, burstsB);
    UploadSucceeds(w, order, b, node, burstsB);
  }

  /** Rounds that follow each other: the second fetches what the first uploaded, and then no slot is with
      two apps, whichever session's superblock one looks at. */
  lemma SuccessiveRoundsDoNotCollide(
      w: World, order: Order, a: Session, node: Node, bursts: seq<seq<Chunk>>, later: seq<Chunk>, here: Node,
      b: Session, q: Name, h: Hash160, m: nat, p: Name)
    requires w.scheme.Lawful() && Sorts(order) && Super.Partition(a.superblock)
    requires a.superblockSlot == 0 && OwnsSlot(w, a, node) && Sendable(w, order, a.superblock)
    requires Upload(w, order, a, node, bursts).1.Ok?
    requires Landed(w.scheme, Upload(w, order, a, node, bursts).0, later, 0) == 0
    requires here == Puts(w.scheme, Upload(w, order, a, node, bursts).0, later)
    requires b.superblockSlot == 0 && (b.signers.Some? ==> b.signers.value == SignersOf(here)) && p != q
    ensures
      var (b', ok) := Begin(w, b, here, SignersOf(here), q, h, m);
      && ok == Ok(m <= Super.FreeCount(a.superblock.slotIds))
      && Super.Partition(b'.superblock) && !Collide(a.superblock, p, b'.superblock, q)
  {
    UploadedIsHeld(w, order, a, node, bursts, later, here);
    HeldIsDownloaded(w, order, here, a.key, a.superblock, b);
    Super.AllocateKeepsPartition(a.superblock, q, h, m);
    LaterAllocationIsApart(a.superblock, p, q, h, m);
  }

  lemma LaterAllocationIsApart(sb: Superblock, p: Name, q: Name, h: Hash160, m: nat)
    requires Super.Partition(sb) && p != q
    ensures !Collide(sb, p, Super.Allocate(sb, q, h, m), q)
  {
    forall j: nat, k: nat, id: u32 | Super.HasSlot(sb.apps, p, j, id)
      ensures !Super.HasSlot(Super.Allocate(sb, q, h, m).apps, q, k, id)
    {
      if Super.HasSlot(Super.Allocate(sb, q, h, m).apps, q, k, id) {
        NewOrOld(sb, q, h, m, k, id);
      }
    }
  }
}
