/** The wrbpod client object (src/storage/wrbpod.rs), method by method against the session model. */
module PodClient {
  import opened Prelude
  import opened Bytes
  import opened PodNode
  import Slices = PodSlices
  import SlicesCodec = PodSlicesCodec
  import Spec = PodSession

  class Wrbpod {
    const world: Spec.World
    const key: Key
    const superblockSlot: u32
    var superblock: Spec.Superblock
    var chunks: map<u32, Spec.Store>
    var signers: Option<seq<Address>>

    ghost function Value(): Spec.Session
      reads this
    {
      Spec.Session(key, superblock, chunks, signers, superblockSlot)
    }

    constructor (world: Spec.World, key: Key, superblock: Spec.Superblock, superblockSlot: u32)
      ensures this.world == world && Value() == Spec.Session(key, superblock, map[], None, superblockSlot)
    {
      this.world, this.key, this.superblockSlot := world, key, superblockSlot;
      this.superblock, this.chunks, this.signers := superblock, map[], None;
    }

    method PutSlice(app: Spec.Name, appSlot: u32, id: Spec.SliceId, slice: seq<byte>) returns (ok: bool)
      modifies this`chunks
      ensures ok == Spec.PutSliceOk(world, old(Value()), app, appSlot, id, slice)
      ensures Value() == Spec.PutSlice(world, old(Value()), app, appSlot, id, slice)
    {
      var c := Spec.ChunkId(superblock, app, appSlot);
      if c.None? {
        return false;
      }
      var store := if c.value in chunks then chunks[c.value] else Slices.Empty(world.chunkMax);
      if !Slices.CanFit(store, id, |slice|) {
        return false;
      }
      chunks := chunks[c.value := Slices.Put(store, id, slice)];
      return true;
    }

    method SyncSlot(
        db: LocalStackerDBClient, app: Spec.Name, appSlot: u32, bursts: seq<seq<Chunk>>)
        returns (r: Result<(), Spec.PodError>)
      requires db.scheme == world.scheme
      modifies this`chunks, db`rows
      ensures Spec.Synced(Value(), db.Value(), r)
           == Spec.SyncSlot(world, old(Value()), old(db.Value()), app, appSlot, bursts)
    {
      var c := Spec.ChunkId(superblock, app, appSlot);
      if c.None? || c.value !in chunks || c.value >= |db.rows| {
        return Err(Spec.NoSuchChunk);
      }
      if db.rows[c.value].version == MAX_U32 {
        return Err(Spec.OverflowPanic);
      }
      var chunk := Chunk(c.value, db.rows[c.value].version + 1, SlicesCodec.EncodeStore(chunks[c.value]), []);
      var outcome, puts := PutWithRetry(db, key, chunk, bursts);
      match outcome {
        case Done =>
          chunks := chunks[c.value := chunks[c.value].(dirty := false)];
          return Ok(());
        case PutError => return Err(Spec.PutChunkError);
        case StillTrying => return Err(Spec.Unfinished);
        case SignError => return Err(Spec.CodecError);
        case OverflowError => return Err(Spec.OverflowPanic);
      }
    }

    /** Downloads and caches a slot; a signature by someone else is checked once more against a
        refreshed signer list. */
    method FetchChunk(
        db: LocalStackerDBClient, home: seq<Address>, app: Spec.Name, appSlot: u32)
        returns (r: Result<u32, Spec.PodError>)
      requires db.scheme == world.scheme
      modifies this
      ensures Spec.Fetched(Value(), r) == Spec.FetchChunk(world, old(Value()), db.Value(), home, app, appSlot)
    {
      var c := Spec.ChunkId(superblock, app, appSlot);
      if c.None? {
        return Err(Spec.GetChunkError);
      }
      var refreshed := false;
      while true
        invariant superblock == old(superblock)
        invariant Spec.FetchChunk(world, old(Value()), db.Value(), home, app, appSlot)
               == Spec.FetchPass(world, Value(), db.Value(), home, c.value, refreshed)
        decreases !refreshed
      {
        if c.value >= |db.rows| {
          return Err(Spec.GetChunkError);
        }
        var row := db.rows[c.value];
        if signers.None? {
          signers, refreshed := Some(home), true;
        }
        if c.value >= |signers.value| {
          return Err(Spec.GetChunkError);
        }
        if IsEmpty(row) {
          return Ok(0);
        }
        var verdict := world.scheme.verify(signers.value[c.value], c.value, row.version, row.dataHash, row.sig);
        if verdict == None || (verdict == Some(false) && refreshed) {
          return Err(Spec.GetChunkError);
        }
        if verdict == Some(true) {
          r := LoadChunk(db, c.value);
          return;
        }
        signers, refreshed := Some(home), true;
      }
    }

    /** Caches a slot's store and then recovers the key that signed it. */
    method LoadChunk(db: LocalStackerDBClient, c: u32) returns (r: Result<u32, Spec.PodError>)
      requires db.scheme == world.scheme && c < |db.rows| && !IsEmpty(db.rows[c])
      modifies this`chunks
      ensures Spec.Fetched(Value(), r) == Spec.Load(world, old(Value()), db.Value(), c)
    {
      var row := db.rows[c];
      if row.dataHash != world.scheme.hash(row.data) {
        return Err(Spec.GetChunkError);
      }
      var store := SlicesCodec.ReadStore(world.chunkMax, row.data);
      if store.Fail? {
        return Err(Spec.CodecError);
      }
      chunks := chunks[c := store.value];
      if world.scheme.recover(c, row.version, row.dataHash, row.sig).None? {
        return Err(Spec.GetChunkError);
      }
      return Ok(row.version);
    }
  }
}
