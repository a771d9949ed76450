/** A wrbpod session (src/storage/wrbpod.rs): local slice stores, their upload and download, and the
    end-to-end promise that what was accepted and synced is what others fetch. */
module PodSession {
  import opened Prelude
  import opened Bytes
  import opened PodNode
  import Slices = PodSlices
  import SlicesCodec = PodSlicesCodec
  import Super = PodSuperblock
  import SuperCodec = PodSuperblockCodec

  type SliceId = u128
  type Store = Slices.Store
  type Superblock = Super.Superblock
  type Name = Super.Name

  datatype PodError =
    | GetChunkError
    | PutChunkError
    | NoSuchChunk
    | CodecError
    | OverflowPanic
    | NoSuperblock
    | Unfinished

  datatype World = World(scheme: ChunkScheme, chunkMax: u32)

  datatype Session = Session(
    key: Key, superblock: Superblock, chunks: map<u32, Store>, signers: Option<seq<Address>>, superblockSlot: u32)

  function SignersOf(node: Node): (r: seq<Address>)
    ensures |r| == |node.rows|
    ensures forall i | 0 <= i < |r| :: r[i] == node.rows[i].pubkh
  {
    seq(|node.rows|, i requires 0 <= i < |node.rows| => node.rows[i].pubkh)
  }

  /** Which StackerDB slot an app's logical slot is. */
  function ChunkId(sb: Superblock, app: Name, appSlot: u32): Option<u32> {
    if app in sb.apps && appSlot < |sb.apps[app].slots| then Some(sb.apps[app].slots[appSlot]) else None
  }

  // ---------------------------------------------------------------- local slices

  function StoreOrEmpty(w: World, s: Session, c: u32): Store {
    if c in s.chunks then s.chunks[c] else Slices.Empty(w.chunkMax)
  }

  predicate PutSliceOk(w: World, s: Session, app: Name, appSlot: u32, id: SliceId, slice: seq<byte>) {
    match ChunkId(s.superblock, app, appSlot)
    case None => false
    case Some(c) => Slices.CanFit(StoreOrEmpty(w, s, c), id, |slice|)
  }

  /** Adds a slice to the local store; a first slice that does not fit leaves no store behind. */
  function PutSlice(w: World, s: Session, app: Name, appSlot: u32, id: SliceId, slice: seq<byte>): Session {
    if !PutSliceOk(w, s, app, appSlot, id, slice) then s
    else
      var c := ChunkId(s.superblock, app, appSlot).value;
      s.(chunks := s.chunks[c := Slices.Put(StoreOrEmpty(w, s, c), id, slice)])
  }

  function PutSlices(w: World, s: Session, app: Name, appSlot: u32, ops: seq<Slices.PutOp>): Session {
    if ops == [] then s
    else
      var op := ops[|ops| - 1];
      PutSlice(w, PutSlices(w, s, app, appSlot, ops[..|ops| - 1]), app, appSlot, op.id, op.slice)
  }

  function GetSlice(s: Session, app: Name, appSlot: u32, id: SliceId): Option<seq<byte>> {
    match ChunkId(s.superblock, app, appSlot)
    case None => None
    case Some(c) => if c in s.chunks then Slices.GetSlice(s.chunks[c], id) else None
  }

  /** A run of puts leaves exactly the store that the slice store's own run would. */
  lemma {:induction false} PutSlicesIsPuts(w: World, s: Session, app: Name, appSlot: u32, ops: seq<Slices.PutOp>)
    requires ChunkId(s.superblock, app, appSlot).Some?
    ensures
      var c := ChunkId(s.superblock, app, appSlot).value;
      var after := PutSlices(w, s, app, appSlot, ops);
      && after.superblock == s.superblock && after.key == s.key
      && StoreOrEmpty(w, after, c) == Slices.Puts(StoreOrEmpty(w, s, c), ops)
  {
    if ops != [] {
      PutSlicesIsPuts(w, s, app, appSlot, ops[..|ops| - 1]);
    }
  }

  // ---------------------------------------------------------------- upload

  /** The session and the node after a sync, finished or not. */
  datatype Synced = Synced(session: Session, node: Node, result: Result<(), PodError>)

  /** Uploads the local store under a version newer than the one listed. */
  function SyncSlot(w: World, s: Session, node: Node, app: Name, appSlot: u32, bursts: seq<seq<Chunk>>): Synced {
    match ChunkId(s.superblock, app, appSlot)
    case None => Synced(s, node, Err(NoSuchChunk))
    case Some(c) =>
      if c !in s.chunks || c >= |node.rows| then Synced(s, node, Err(NoSuchChunk))
      else if node.rows[c].version == MAX_U32 then Synced(s, node, Err(OverflowPanic))
      else
        var chunk := Chunk(c, node.rows[c].version + 1, SlicesCodec.EncodeStore(s.chunks[c]), []);
        match Retry(w.scheme, s.key, node, chunk, bursts)
        case Stored(after, _) => Synced(s.(chunks := s.chunks[c := s.chunks[c].(dirty := false)]), after, Ok(()))
        case Refused(after, _) => Synced(s, after, Err(PutChunkError))
        case Pending(after, _) => Synced(s, after, Err(Unfinished))
        case SignFailed(after) => Synced(s, after, Err(CodecError))
        case VersionOverflow(after) => Synced(s, after, Err(OverflowPanic))
  }

  // ---------------------------------------------------------------- download

  /** The bytes of a slot, unless it looks empty, checked against the hash the caller expects. */
  function GetRawChunk(w: World, node: Node, c: u32, dataHash: Hash32): Result<seq<byte>, PodError> {
    if c >= |node.rows| || IsEmpty(node.rows[c]) then Err(NoSuchChunk)
    else if dataHash != w.scheme.hash(node.rows[c].data) then Err(GetChunkError)
    else Ok(node.rows[c].data)
  }

  /** The session after a fetch, and the version fetched. */
  datatype Fetched = Fetched(session: Session, result: Result<u32, PodError>)

  /** Caches the slot's store before the signer's key is recovered: a failure to recover it still leaves
      the store in the cache. */
  function Load(w: World, s: Session, node: Node, c: u32): Fetched
    requires c < |node.rows|
  {
    var row := node.rows[c];
    match GetRawChunk(w, node, c, row.dataHash)
    case Err(e) => Fetched(s, Err(e))
    case Ok(data) =>
      match SlicesCodec.DecodeStore(w.chunkMax, data)
      case Fail => Fetched(s, Err(CodecError))
      case Got(store, _) =>
        Fetched(s.(chunks := s.chunks[c := store]),
                if w.scheme.recover(c, row.version, row.dataHash, row.sig).None? then Err(GetChunkError)
                else Ok(row.version))
  }

  /** One pass of the fetch loop; a signature that is not the expected signer's earns one more pass with
      a fresh signer list. */
  function FetchPass(w: World, s: Session, node: Node, home: seq<Address>, c: u32, refreshed: bool): Fetched
    decreases if refreshed then 0 else 1
  {
    if c >= |node.rows| then Fetched(s, Err(GetChunkError))
    else
      var known := if s.signers.None? then s.(signers := Some(home)) else s;
      var isFresh := refreshed || s.signers.None?;
      var row := node.rows[c];
      if c >= |known.signers.value| then Fetched(known, Err(GetChunkError))
      else if IsEmpty(row) then Fetched(known, Ok(0))
      else
        match w.scheme.verify(known.signers.value[c], c, row.version, row.dataHash, row.sig)
        case None => Fetched(known, Err(GetChunkError))
        case Some(true) => Load(w, known, node, c)
        case Some(false) =>
          if isFresh then Fetched(known, Err(GetChunkError))
          else FetchPass(w, known.(signers := Some(home)), node, home, c, true)
  }

  function FetchChunk(w: World, s: Session, node: Node, home: seq<Address>, app: Name, appSlot: u32): Fetched {
    match ChunkId(s.superblock, app, appSlot)
    case None => Fetched(s, Err(GetChunkError))
    case Some(c) => FetchPass(w, s, node, home, c, false)
  }

  // ---------------------------------------------------------------- what a finished write leaves

  /** However the loop got there, a finished write has the caller's bytes, signed by the key, and under a
      version of at least 1 if it started from one. */
  lemma {:induction false} StoredShape(scheme: ChunkScheme, key: Key, node: Node, chunk: Chunk, bursts: seq<seq<Chunk>>)
    requires Retry(scheme, key, node, chunk, bursts).Stored? && chunk.slot < |node.rows|
    ensures
      var after := Retry(scheme, key, node, chunk, bursts).node;
      && |after.rows| == |node.rows|
      && var r := after.rows[chunk.slot];
         && r.data == chunk.data && r.dataHash == scheme.hash(chunk.data) && (chunk.version >= 1 ==> r.version >= 1)
         && r.pubkh == node.rows[chunk.slot].pubkh
         && scheme.sign(key, chunk.slot, r.version, r.dataHash) == Some(r.sig)
    decreases |bursts|
  {
    var here := Puts(scheme, node, bursts[0]);
    PutsKeepOwners(scheme, node, bursts[0], chunk.slot);
    var ack := PutAck(scheme, here, Signed(scheme, key, chunk).value);
    if !ack.accepted {
      StoredShape(scheme, key, here, chunk.(version := ack.metadata.value.version + 1), bursts[1..]);
    }
  }

  lemma {:induction false} PutsKeepOwners(scheme: ChunkScheme, node: Node, chunks: seq<Chunk>, slot: u32)
    requires slot < |node.rows|
    ensures
      var end := Puts(scheme, node, chunks);
      && |end.rows| == |node.rows| && end.rows[slot].pubkh == node.rows[slot].pubkh
      && (Landed(scheme, node, chunks, slot) == 0 ==> end.rows[slot] == node.rows[slot])
    decreases |chunks|
  {
    if chunks != [] {
      PutsKeepOwners(scheme, Put(scheme, node, chunks[0]), chunks[1..], slot);
    }
  }

  // ---------------------------------------------------------------- durability

  /** A slot that holds a valid store's encoding, written by the slot's owner. */
  ghost predicate Holds(w: World, node: Node, c: u32, key: Key, st: Store) {
    && c < |node.rows|
    && var r := node.rows[c];
       && Slices.Valid(st) && st.maxSize == w.chunkMax && r.data == SlicesCodec.EncodeStore(st)
       && r.dataHash == w.scheme.hash(r.data) && r.version >= 1
       && r.pubkh == w.scheme.addressOf(key)
       && w.scheme.sign(key, c, r.version, r.dataHash) == Some(r.sig)
  }

  /** Loading such a slot gives a store with the same meaning. */
  lemma LoadGivesContents(w: World, s: Session, node: Node, c: u32, key: Key, st: Store)
    requires w.scheme.Lawful() && Holds(w, node, c, key, st)
    ensures
      var r := Load(w, s, node, c);
      && r.result.Ok? && r.session.superblock == s.superblock && c in r.session.chunks
      && Slices.Valid(r.session.chunks[c])
      && Slices.Contents(r.session.chunks[c]) == Slices.Contents(st)
  {
    SlicesCodec.StoreRoundTrip(st, w.chunkMax, []);
    SlicesCodec.EncodedLength(st);
    assert SlicesCodec.EncodeStore(st) + [] == SlicesCodec.EncodeStore(st);
    var row := node.rows[c];
    assert w.scheme.sign(key, c, row.version, row.dataHash).Some?;
    var out := st.(dirty := false, encodedSize := |SlicesCodec.EncodeStore(st)|, maxSize := w.chunkMax);
    LoadedIsValid(st, out);
    LoadIsDecode(w, s, node, c, out);
  }

  lemma LoadedIsValid(st: Store, out: Store)
    requires Slices.Valid(st) && out.maxSize == st.maxSize
    requires out.slices == st.slices && out.index == st.index && out.encodedSize == Slices.TrueSize(st)
    ensures Slices.Valid(out) && Slices.Contents(out) == Slices.Contents(st)
  {
  }

  lemma LoadIsDecode(w: World, s: Session, node: Node, c: u32, out: Store)
    requires c < |node.rows| && !IsEmpty(node.rows[c])
    requires node.rows[c].dataHash == w.scheme.hash(node.rows[c].data)
    requires SlicesCodec.DecodeStore(w.chunkMax, node.rows[c].data) == Got(out, [])
    requires w.scheme.recover(c, node.rows[c].version, node.rows[c].dataHash, node.rows[c].sig).Some?
    ensures Load(w, s, node, c) == Fetched(s.(chunks := s.chunks[c := out]), Ok(node.rows[c].version))
  {
  }

  /** Any session that knows the slot, with no signer list, the true one, or an outdated one that still
      covers the slot, fetches the contents. */
  lemma FetchGivesContents(w: World, s: Session, node: Node, app: Name, appSlot: u32, c: u32, key: Key, st: Store)
    requires w.scheme.Lawful() && Holds(w, node, c, key, st)
    requires ChunkId(s.superblock, app, appSlot) == Some(c)
    requires s.signers.Some? ==> c < |s.signers.value|
    ensures
      var r := FetchChunk(w, s, node, SignersOf(node), app, appSlot);
      && r.result.Ok?
      && forall id: SliceId :: GetSlice(r.session, app, appSlot, id)
           == if id in Slices.Contents(st) then Some(Slices.Contents(st)[id]) else None
  {
    var r := FetchChunk(w, s, node, SignersOf(node), app, appSlot);
    FetchIsLoad(w, s, node, app, appSlot, c, key, st);
    LoadGivesContents(w, s.(signers := Some(SignersOf(node))), node, c, key, st);
    LoadGivesContents(w, s, node, c, key, st);
    forall id: SliceId
      ensures GetSlice(r.session, app, appSlot, id)
           == if id in Slices.Contents(st) then Some(Slices.Contents(st)[id]) else None
    {
      Slices.GetSliceReads(r.session.chunks[c], id);
    }
  }

  /** The slot holds a signature that verifies for its owner and for no one else. */
  ghost predicate SignedBy(w: World, node: Node, c: u32, owner: Address) {
    && c < |node.rows| && !IsEmpty(node.rows[c])
    && var row := node.rows[c];
       forall a: Address :: w.scheme.verify(a, c, row.version, row.dataHash, row.sig) == Some(a == owner)
  }

  lemma PassLoads(w: World, s: Session, node: Node, home: seq<Address>, c: u32, refreshed: bool, owner: Address)
    requires SignedBy(w, node, c, owner)
    requires s.signers.Some? && c < |s.signers.value| && s.signers.value[c] == owner
    ensures FetchPass(w, s, node, home, c, refreshed) == Load(w, s, node, c)
  {
  }

  lemma PassRefreshes(w: World, s: Session, node: Node, home: seq<Address>, c: u32, owner: Address)
    requires SignedBy(w, node, c, owner) && c < |home| && home[c] == owner
    requires s.signers.Some? ==> c < |s.signers.value| && s.signers.value[c] != owner
    ensures FetchPass(w, s, node, home, c, false) == Load(w, s.(signers := Some(home)), node, c)
  {
    PassLoads(w, s.(signers := Some(home)), node, home, c, true, owner);
  }

  /** The signature is the owner's, so the fetch loads at its first or second pass. */
  lemma FetchIsLoad(w: World, s: Session, node: Node, app: Name, appSlot: u32, c: u32, key: Key, st: Store)
    requires w.scheme.Lawful() && Holds(w, node, c, key, st)
    requires ChunkId(s.superblock, app, appSlot) == Some(c)
    requires s.signers.Some? ==> c < |s.signers.value|
    ensures
      var r := FetchChunk(w, s, node, SignersOf(node), app, appSlot);
      r == Load(w, s, node, c) || r == Load(w, s.(signers := Some(SignersOf(node))), node, c)
  {
    var home, owner, row := SignersOf(node), w.scheme.addressOf(key), node.rows[c];
    assert w.scheme.sign(key, c, row.version, row.dataHash).Some?;
    assert SignedBy(w, node, c, owner);
    if s.signers.Some? && s.signers.value[c] == owner {
      PassLoads(w, s, node, home, c, false, owner);
    } else {
      PassRefreshes(w, s, node, home, c, owner);
    }
  }

  lemma SyncHolds(w: World, s: Session, node: Node, app: Name, appSlot: u32, bursts: seq<seq<Chunk>>)
    requires SyncSlot(w, s, node, app, appSlot, bursts).result.Ok?
    requires
      var c := ChunkId(s.superblock, app, appSlot).value;
      && Slices.Valid(s.chunks[c]) && s.chunks[c].maxSize == w.chunkMax
      && node.rows[c].pubkh == w.scheme.addressOf(s.key)
    ensures
      var c := ChunkId(s.superblock, app, appSlot).value;
      Holds(w, SyncSlot(w, s, node, app, appSlot, bursts).node, c, s.key, s.chunks[c])
  {
    var c := ChunkId(s.superblock, app, appSlot).value;
    var chunk := Chunk(c, node.rows[c].version + 1, SlicesCodec.EncodeStore(s.chunks[c]), []);
    StoredShape(w.scheme, s.key, node, chunk, bursts);
  }

  /** Main result.  A session puts slices into an app's slot, in any number and order, accepted or not,
      and syncs the slot, retrying against other writers.  Until another write to that slot lands, any
      session with the same slot table fetches it and reads, for every slice id, the bytes last accepted
      for it, or what the writer's store already held if none were. */
  lemma SyncedSlicesAreFetched(
      w: World, a: Session, node: Node, app: Name, appSlot: u32, ops: seq<Slices.PutOp>,
      bursts: seq<seq<Chunk>>, later: seq<Chunk>, b: Session)
    requires w.scheme.Lawful()
    requires ChunkId(a.superblock, app, appSlot).Some? && b.superblock == a.superblock
    requires
      var c := ChunkId(a.superblock, app, appSlot).value;
      && c < |node.rows| && node.rows[c].pubkh == w.scheme.addressOf(a.key)
      && Slices.Valid(StoreOrEmpty(w, a, c)) && StoreOrEmpty(w, a, c).maxSize == w.chunkMax
      && (b.signers.Some? ==> c < |b.signers.value|)
    requires SyncSlot(w, PutSlices(w, a, app, appSlot, ops), node, app, appSlot, bursts).result.Ok?
    requires
      var c := ChunkId(a.superblock, app, appSlot).value;
      Landed(w.scheme, SyncSlot(w, PutSlices(w, a, app, appSlot, ops), node, app, appSlot, bursts).node, later, c) == 0
    ensures
      var c := ChunkId(a.superblock, app, appSlot).value;
      var before := StoreOrEmpty(w, a, c);
      var synced := SyncSlot(w, PutSlices(w, a, app, appSlot, ops), node, app, appSlot, bursts);
      var end := Puts(w.scheme, synced.node, later);
      var r := FetchChunk(w, b, end, SignersOf(end), app, appSlot);
      && r.result.Ok?
      && (forall id: SliceId, i: nat | Slices.LastAccepted(before, ops, id, i) ::
            GetSlice(r.session, app, appSlot, id) == Some(ops[i].slice))
      && (forall id: SliceId | forall i: nat :: !Slices.LastAccepted(before, ops, id, i) ::
            GetSlice(r.session, app, appSlot, id) == Slices.GetSlice(before, id))
  {
    var c := ChunkId(a.superblock, app, appSlot).value;
    var before := StoreOrEmpty(w, a, c);
    var a' := PutSlices(w, a, app, appSlot, ops);
    PutSlicesIsPuts(w, a, app, appSlot, ops);
    Slices.RunRefinesMap(before, ops);
    SyncHolds(w, a', node, app, appSlot, bursts);
    var synced := SyncSlot(w, a', node, app, appSlot, bursts).node;
    PutsKeepOwners(w.scheme, synced, later, c);
    var end := Puts(w.scheme, synced, later);
    FetchGivesContents(w, b, end, app, appSlot, c, a.key, a'.chunks[c]);
    ReadsLastAccepted(w, before, ops, FetchChunk(w, b, end, SignersOf(end), app, appSlot).session, app, appSlot);
  }

  lemma ReadsLastAccepted(w: World, before: Store, ops: seq<Slices.PutOp>, s: Session, app: Name, appSlot: u32)
    requires Slices.Valid(before)
    requires Slices.Valid(Slices.Puts(before, ops))
    requires forall id: SliceId :: GetSlice(s, app, appSlot, id) ==
               (var m := Slices.Contents(Slices.Puts(before, ops)); if id in m then Some(m[id]) else None)
    ensures forall id: SliceId, i: nat | Slices.LastAccepted(before, ops, id, i) ::
              GetSlice(s, app, appSlot, id) == Some(ops[i].slice)
    ensures forall id: SliceId | forall i: nat :: !Slices.LastAccepted(before, ops, id, i) ::
              GetSlice(s, app, appSlot, id) == Slices.GetSlice(before, id)
  {
    Slices.RunRefinesMap(before, ops);
    forall id: SliceId
      ensures forall i: nat | Slices.LastAccepted(before, ops, id, i) ::
                GetSlice(s, app, appSlot, id) == Some(ops[i].slice)
      ensures (forall i: nat :: !Slices.LastAccepted(before, ops, id, i)) ==>
                GetSlice(s, app, appSlot, id) == Slices.GetSlice(before, id)
    {
      Slices.ExpectedIsLastAccepted(Slices.Contents(before), before, ops, id);
      Slices.GetSliceReads(before, id);
    }
  }

  // ---------------------------------------------------------------- the superblock's own slot

  /** Fetches the superblock.  The reply to a one-slot request is indexed by the slot number. */
  function DownloadSuperblock(w: World, s: Session, node: Node, home: seq<Address>): Result<Superblock, PodError> {
    var slot := s.superblockSlot;
    var signers := if s.signers.Some? then s.signers.value else home;
    if slot >= |node.rows| || slot >= |signers| then Err(GetChunkError)
    else
      var row := node.rows[slot];
      if IsEmpty(row) then
        match Super.MakeSuperblock(slot, signers, w.scheme.addressOf(s.key))
        case None => Err(NoSuperblock)
        case Some(sb) => Ok(sb)
      else if w.scheme.verify(signers[slot], slot, row.version, row.dataHash, row.sig) != Some(true) then
        Err(GetChunkError)
      else
        var reply := [row.data];
        if slot >= |reply| then Err(NoSuchChunk)
        else if row.dataHash != w.scheme.hash(reply[slot]) then Err(GetChunkError)
        else
          match SuperCodec.DecodeSuperblock(reply[slot])
          case Fail => Err(CodecError)
          case Got(sb, _) => Ok(sb)
  }

  /** A superblock written by its owner comes back if and only if its slot is slot 0 (and it obeys the
      decoder's limits): from any other slot a reload always fails. */
  lemma SuperblockReloadsOnlyFromSlotZero(w: World, s: Session, node: Node, sb: Superblock, names: seq<Name>, key: Key)
    requires w.scheme.Lawful()
    requires SuperCodec.Representable(sb) && SuperCodec.Lists(names, sb.apps)
    requires s.superblockSlot < |node.rows|
    requires
      var r := node.rows[s.superblockSlot];
      && r.data == SuperCodec.EncodeSuperblock(sb, names) && r.dataHash == w.scheme.hash(r.data)
      && !IsEmpty(r) && r.pubkh == w.scheme.addressOf(key)
      && w.scheme.sign(key, s.superblockSlot, r.version, r.dataHash) == Some(r.sig)
    requires s.signers.Some? ==> s.signers.value == SignersOf(node)
    ensures DownloadSuperblock(w, s, node, SignersOf(node)) ==
            if s.superblockSlot != 0 then Err(NoSuchChunk)
            else if |sb.slotIds| <= SuperCodec.MAX_SLOTS && SuperCodec.AllAscii(names) then Ok(sb)
            else Err(CodecError)
  {
    var r := node.rows[s.superblockSlot];
    assert w.scheme.sign(key, s.superblockSlot, r.version, r.dataHash).Some?;
    var wire := SuperCodec.EncodeSuperblock(sb, names);
    SuperCodec.SuperblockOnTheWire(sb, names, []);
    assert wire + [] == wire;
  }
}
