/** What a fetch, a sync and a put do on every input (src/storage/wrbpod.rs): nothing enters the cache
    unless it is authentic, and each operation succeeds exactly when it can. */
module PodOutcomes {
  import opened Prelude
  import opened Bytes
  import opened PodNode
  import opened PodSession
  import Slices = PodSlices
  import SlicesCodec = PodSlicesCodec
  import Super = PodSuperblock
  import SuperCodec = PodSuperblockCodec

  // ---------------------------------------------------------------- what a fetch accepts

  /** The slot was never written. */
  predicate Blank(r: Row) {
    r.version == 0 && r.dataHash == Zeros(32)
  }

  /** What a signer list says about the signature on a slot, if it covers the slot. */
  function Verdict(w: World, node: Node, c: u32, signers: seq<Address>): Option<bool>
    requires c < |node.rows|
  {
    var r := node.rows[c];
    if c >= |signers| then None else w.scheme.verify(signers[c], c, r.version, r.dataHash, r.sig)
  }

  /** The slot's signature is by the signer the session lists; or it is not, and by the one of the current
      list.  A session with no list takes the current one. */
  predicate Trusted(w: World, s: Session, node: Node, home: seq<Address>, c: u32)
    requires c < |node.rows|
  {
    var listed := if s.signers.None? then home else s.signers.value;
    || Verdict(w, node, c, listed) == Some(true)
    || (Verdict(w, node, c, listed) == Some(false) && Verdict(w, node, c, home) == Some(true))
  }

  /** The slot's bytes have the hash that was signed. */
  predicate HashHolds(w: World, node: Node, c: u32)
    requires c < |node.rows|
  {
    w.scheme.hash(node.rows[c].data) == node.rows[c].dataHash
  }

  /** A slot that was written enters the cache if and only if its signature is trusted, its bytes have the
      signed hash, and they decode; it is then cached as what they decode to, and nothing else of the
      cache changes.  The fetch succeeds when the signer's key can be recovered too. */
  lemma FetchDecided(w: World, s: Session, node: Node, home: seq<Address>, app: Name, appSlot: u32, c: u32)
    requires ChunkId(s.superblock, app, appSlot) == Some(c) && c < |node.rows| && !Blank(node.rows[c])
    ensures
      var row := node.rows[c];
      var store := SlicesCodec.DecodeStore(w.chunkMax, row.data);
      var r := FetchChunk(w, s, node, home, app, appSlot);
      var loads := Trusted(w, s, node, home, c) && HashHolds(w, node, c) && store.Got?;
      && r.session.chunks == (if loads then s.chunks[c := store.value] else s.chunks)
      && (r.result.Ok? <==> loads && w.scheme.recover(c, row.version, row.dataHash, row.sig).Some?)
      && (r.result.Ok? ==> r.result.value == row.version)
      && (r.result == Err(CodecError) <==> Trusted(w, s, node, home, c) && HashHolds(w, node, c) && store.Fail?)
      && (r.result.Err? ==> r.result.error == CodecError || r.result.error == GetChunkError)
  {
  }

  /** In particular nothing is cached, and nothing reported as fetched, that the resulting list's signer of
      the slot did not sign; a slot that the current signer did not sign is refused whenever the list is
      the current one. */
  lemma FetchIsAuthentic(w: World, s: Session, node: Node, home: seq<Address>, app: Name, appSlot: u32)
    ensures
      var r := FetchChunk(w, s, node, home, app, appSlot);
      && r.session == s.(chunks := r.session.chunks, signers := r.session.signers)
      && (r.session.signers == s.signers || r.session.signers == Some(home))
      && (r.session.chunks != s.chunks || (r.result.Ok? && r.result.value > 0) ==>
            && ChunkId(s.superblock, app, appSlot).Some?
            && var c := ChunkId(s.superblock, app, appSlot).value;
               && c < |node.rows| && r.session.signers.Some?
               && Verdict(w, node, c, r.session.signers.value) == Some(true) && HashHolds(w, node, c))
      && (r.session.signers == Some(home) && ChunkId(s.superblock, app, appSlot).Some? ==>
            var c := ChunkId(s.superblock, app, appSlot).value;
            c < |node.rows| && !Blank(node.rows[c]) && Verdict(w, node, c, home) != Some(true) ==>
              r.result == Err(GetChunkError) && r.session.chunks == s.chunks)
  {
  }

  /** A slot that was never written gives version 0 and leaves the cache alone; a slot that the node or
      the signer list does not have, or an app without it, is an error. */
  lemma FetchOfNothing(w: World, s: Session, node: Node, home: seq<Address>, app: Name, appSlot: u32)
    ensures
      var r := FetchChunk(w, s, node, home, app, appSlot);
      var signers := if s.signers.None? then home else s.signers.value;
      match ChunkId(s.superblock, app, appSlot)
      case None => r.result.Err? && r.session == s
      case Some(c) =>
        && (c >= |node.rows| ==> r.result.Err? && r.session == s)
        && (c < |node.rows| && Blank(node.rows[c]) ==>
              && r.session.chunks == s.chunks
              && r.result == if c < |signers| then Ok(0) else Err(GetChunkError))
  {
  }

  /** A superblock is taken from a slot that was written if and only if the slot is slot 0, the listed
      signer of the slot signed it, and its bytes have the signed hash and decode. */
  lemma DownloadDecided(w: World, s: Session, node: Node, home: seq<Address>, sb: Superblock)
    requires s.superblockSlot < |node.rows| && !Blank(node.rows[s.superblockSlot])
    ensures
      var c, signers := s.superblockSlot, if s.signers.None? then home else s.signers.value;
      DownloadSuperblock(w, s, node, home) == Ok(sb) <==>
        && c == 0 && Verdict(w, node, c, signers) == Some(true) && HashHolds(w, node, c)
        && SuperCodec.DecodeSuperblock(node.rows[c].data).Got?
        && SuperCodec.DecodeSuperblock(node.rows[c].data).value == sb
  {
  }

  // ---------------------------------------------------------------- puts, byte by byte

  /** The bytes a slice adds: its length and its content, and an index entry for a new id. */
  function Added(st: Store, id: SliceId, len: nat): nat {
    if id in st.index then 4 + len else 28 + len
  }

  /** A put is accepted if and only if what it adds to the accounted size stays within the limit.  Then the
      slice reads back and no other does otherwise than before; if not, nothing changes. */
  lemma PutDecided(st: Store, id: SliceId, slice: seq<byte>)
    requires Slices.Valid(st)
    ensures
      var after := Slices.Put(st, id, slice);
      if st.encodedSize + Added(st, id, |slice|) <= st.maxSize then
        && Slices.CanFit(st, id, |slice|) && after.dirty
        && after.encodedSize == st.encodedSize + Added(st, id, |slice|)
        && Slices.GetSlice(after, id) == Some(slice)
        && forall other: SliceId | other != id :: Slices.GetSlice(after, other) == Slices.GetSlice(st, other)
      else !Slices.CanFit(st, id, |slice|) && after == st
  {
    var after := Slices.Put(st, id, slice);
    Slices.PutRefines(st, id, slice);
    Slices.GetSliceReads(after, id);
    forall other: SliceId | other != id ensures Slices.GetSlice(after, other) == Slices.GetSlice(st, other) {
      Slices.GetSliceReads(st, other);
      Slices.GetSliceReads(after, other);
    }
  }

  /** So a session accepts the first slice of a slot if and only if 37 bytes and the slice fit. */
  lemma FirstPutDecided(w: World, s: Session, app: Name, appSlot: u32, id: SliceId, slice: seq<byte>)
    requires ChunkId(s.superblock, app, appSlot).Some? && ChunkId(s.superblock, app, appSlot).value !in s.chunks
    ensures PutSliceOk(w, s, app, appSlot, id, slice) <==> 37 + |slice| <= w.chunkMax
    ensures GetSlice(PutSlice(w, s, app, appSlot, id, slice), app, appSlot, id)
         == if 37 + |slice| <= w.chunkMax then Some(slice) else None
  {
  }

  /** The question asked beforehand: would a slice of this length be accepted? */
  predicate CanFitSlice(w: World, s: Session, app: Name, appSlot: u32, id: SliceId, size: nat) {
    match ChunkId(s.superblock, app, appSlot)
    case None => false
    case Some(c) =>
      if c in s.chunks then Slices.CanFit(s.chunks[c], id, size)
      else Slices.SliceCost(size, false) + Slices.INITIAL_SIZE < w.chunkMax
  }

  /** It is answered right except for a first slice that fills its slot to the last byte: that one is
      accepted although the answer is no. */
  lemma CanFitSliceIsRightIff(w: World, s: Session, app: Name, appSlot: u32, id: SliceId, slice: seq<byte>)
    ensures (CanFitSlice(w, s, app, appSlot, id, |slice|) <==> PutSliceOk(w, s, app, appSlot, id, slice)) <==>
              !(&& ChunkId(s.superblock, app, appSlot).Some?
                && ChunkId(s.superblock, app, appSlot).value !in s.chunks && 37 + |slice| == w.chunkMax)
  {
  }

  // ---------------------------------------------------------------- when a sync succeeds

  /** What a sync needs: a store for a slot in order, bytes the session can sign, and other writers who are
      entitled to write, fewer than the puts the loop is followed for. */
  ghost predicate CanSync(w: World, s: Session, node: Node, c: u32, bursts: seq<seq<Chunk>>) {
    && c in s.chunks && Healthy(w.scheme, node, c)
    && CanSign(w.scheme, s.key, c, SlicesCodec.EncodeStore(s.chunks[c]))
    && ProperBursts(w.scheme, node.rows[c].pubkh, c, bursts)
    && bursts != []
    && |bursts| >= LandedAll(w.scheme, Puts(w.scheme, node, bursts[0]), bursts[1..], c) + 2
  }

  /** Then it does succeed: the store is uploaded whole and no longer dirty, and the rest of the session
      is what it was. */
  lemma SyncSucceeds(w: World, s: Session, node: Node, app: Name, appSlot: u32, c: u32, bursts: seq<seq<Chunk>>)
    requires ChunkId(s.superblock, app, appSlot) == Some(c) && CanSync(w, s, node, c, bursts)
    ensures
      var r := SyncSlot(w, s, node, app, appSlot, bursts);
      && r.result == Ok(())
      && r.session == s.(chunks := s.chunks[c := s.chunks[c].(dirty := false)])
      && c < |r.node.rows| && r.node.rows[c].data == SlicesCodec.EncodeStore(s.chunks[c])
      && w.scheme.sign(s.key, c, r.node.rows[c].version, r.node.rows[c].dataHash) == Some(r.node.rows[c].sig)
      && r.node.rows[c].version > node.rows[c].version
  {
    NewerIsStored(w.scheme, s.key, node,
                  Chunk(c, node.rows[c].version + 1, SlicesCodec.EncodeStore(s.chunks[c]), []), bursts);
  }

  lemma NewerIsStored(scheme: ChunkScheme, key: Key, node: Node, chunk: Chunk, bursts: seq<seq<Chunk>>)
    requires Healthy(scheme, node, chunk.slot) && CanSign(scheme, key, chunk.slot, chunk.data)
    requires ProperBursts(scheme, node.rows[chunk.slot].pubkh, chunk.slot, bursts) && bursts != []
    requires |bursts| >= LandedAll(scheme, Puts(scheme, node, bursts[0]), bursts[1..], chunk.slot) + 2
    requires chunk.version > node.rows[chunk.slot].version
    ensures
      var o := Retry(scheme, key, node, chunk, bursts);
      && o.Stored? && chunk.slot < |o.node.rows|
      && var r := o.node.rows[chunk.slot];
         && r.data == chunk.data && scheme.sign(key, chunk.slot, r.version, r.dataHash) == Some(r.sig)
         && r.version > node.rows[chunk.slot].version
  {
    var k := LandedAll(scheme, Puts(scheme, node, bursts[0]), bursts[1..], chunk.slot);
    RetryStops(scheme, key, node, chunk, bursts, k);
    VersionGrows(scheme, key, node, chunk, bursts);
    StoredShape(scheme, key, node, chunk, bursts);
  }

  lemma VersionGrows(scheme: ChunkScheme, key: Key, node: Node, chunk: Chunk, bursts: seq<seq<Chunk>>)
    requires Retry(scheme, key, node, chunk, bursts).Stored? && chunk.slot < |node.rows|
    requires HashMatches(scheme, node.rows[chunk.slot]) && chunk.version > node.rows[chunk.slot].version
    ensures
      var after := Retry(scheme, key, node, chunk, bursts).node;
      chunk.slot < |after.rows| && after.rows[chunk.slot].version > node.rows[chunk.slot].version
  {
    StoredVersion(scheme, key, node, chunk, bursts);
    VersionsNeverFall(scheme, node, bursts, Retry(scheme, key, node, chunk, bursts).puts - 1, chunk.slot);
  }

  /** With no other write to the slot, the first put stores it under the version after the listed one. */
  lemma QuietSyncIsNext(w: World, s: Session, node: Node, app: Name, appSlot: u32, c: u32, bursts: seq<seq<Chunk>>)
    requires ChunkId(s.superblock, app, appSlot) == Some(c) && c in s.chunks && Healthy(w.scheme, node, c)
    requires CanSign(w.scheme, s.key, c, SlicesCodec.EncodeStore(s.chunks[c]))
    requires bursts != [] && Landed(w.scheme, node, bursts[0], c) == 0
    ensures
      var r := SyncSlot(w, s, node, app, appSlot, bursts);
      && r.result == Ok(()) && c < |r.node.rows|
      && r.node.rows[c].version == node.rows[c].version + 1
      && r.node.rows[c].data == SlicesCodec.EncodeStore(s.chunks[c])
  {
    NextIsStored(w.scheme, s.key, node,
                 Chunk(c, node.rows[c].version + 1, SlicesCodec.EncodeStore(s.chunks[c]), []), bursts);
  }

  lemma NextIsStored(scheme: ChunkScheme, key: Key, node: Node, chunk: Chunk, bursts: seq<seq<Chunk>>)
    requires Healthy(scheme, node, chunk.slot) && CanSign(scheme, key, chunk.slot, chunk.data)
    requires chunk.version > node.rows[chunk.slot].version
    requires bursts != [] && Landed(scheme, node, bursts[0], chunk.slot) == 0
    ensures
      var o := Retry(scheme, key, node, chunk, bursts);
      && o.Stored? && o.puts == 1 && chunk.slot < |o.node.rows|
      && o.node.rows[chunk.slot].version == chunk.version && o.node.rows[chunk.slot].data == chunk.data
  {
    PutsKeepOwners(scheme, node, bursts[0], chunk.slot);
    PutsKeepTable(scheme, node, bursts[0]);
  }

  /** A sync that does not succeed leaves the session as it was, its store still dirty. */
  lemma FailedSyncKeepsSession(w: World, s: Session, node: Node, app: Name, appSlot: u32, bursts: seq<seq<Chunk>>)
    requires SyncSlot(w, s, node, app, appSlot, bursts).result.Err?
    ensures SyncSlot(w, s, node, app, appSlot, bursts).session == s
  {
  }

  // ---------------------------------------------------------------- the node's answer

  /** The node takes a write if and only if it has the slot, and the slot was never written, or what it
      holds verifies for its owner and is older.  A refusal shows what the slot holds and changes nothing;
      the new signature is never looked at. */
  lemma WriteDecided(scheme: ChunkScheme, node: Node, chunk: Chunk)
    ensures
      var listed := chunk.slot < node.maxSlots && chunk.slot < |node.rows|;
      var ack, after := PutAck(scheme, node, chunk), Put(scheme, node, chunk);
      && (listed ==>
            var row := node.rows[chunk.slot];
            && (ack.accepted <==>
                  || Blank(row)
                  || (&& scheme.verify(row.pubkh, chunk.slot, row.version, row.dataHash, row.sig) == Some(true)
                      && chunk.version > row.version))
            && (ack.accepted ==>
                  && after.maxSlots == node.maxSlots
                  && after.rows == node.rows[chunk.slot :=
                       Row(chunk.version, row.pubkh, scheme.hash(chunk.data), chunk.data, chunk.sig)])
            && (!ack.accepted ==>
                  ack.metadata == Some(Metadata(chunk.slot, row.version, row.dataHash, row.sig)) && after == node))
      && (!listed ==> ack == Ack(false, None) && after == node)
  {
  }

  // ---------------------------------------------------------------- how the write loop can end

  /** A key that cannot sign ends the loop before anything is written. */
  lemma UnsignableIsNotWritten(scheme: ChunkScheme, key: Key, node: Node, chunk: Chunk, bursts: seq<seq<Chunk>>)
    requires bursts != []
    requires scheme.sign(key, chunk.slot, chunk.version, scheme.hash(chunk.data)) == None
    ensures Retry(scheme, key, node, chunk, bursts) == SignFailed(node)
  {
  }

  /** A slot the node does not have is refused once and for all. */
  lemma MissingSlotIsRefused(scheme: ChunkScheme, key: Key, node: Node, chunk: Chunk, bursts: seq<seq<Chunk>>)
    requires bursts != [] && (chunk.slot >= node.maxSlots || chunk.slot >= |node.rows|)
    requires scheme.sign(key, chunk.slot, chunk.version, scheme.hash(chunk.data)).Some?
    ensures Retry(scheme, key, node, chunk, bursts) == Refused(Puts(scheme, node, bursts[0]), 1)
  {
    PutsKeepTable(scheme, node, bursts[0]);
  }

  /** A slot that was written and has reached the last version takes no write by anyone, and the next
      version the client would try overflows. */
  lemma LastVersionOverflows(scheme: ChunkScheme, key: Key, node: Node, chunk: Chunk, bursts: seq<seq<Chunk>>)
    requires bursts != [] && chunk.slot < node.maxSlots && chunk.slot < |node.rows|
    requires !Blank(node.rows[chunk.slot]) && node.rows[chunk.slot].version == 0xFFFF_FFFF
    requires scheme.sign(key, chunk.slot, chunk.version, scheme.hash(chunk.data)).Some?
    ensures
      var o := Retry(scheme, key, node, chunk, bursts);
      && o.VersionOverflow? && chunk.slot < |o.node.rows|
      && o.node.rows[chunk.slot] == node.rows[chunk.slot]
  {
    LastVersionStays(scheme, node, bursts[0], chunk.slot);
  }

  lemma {:induction false} LastVersionStays(scheme: ChunkScheme, node: Node, chunks: seq<Chunk>, slot: u32)
    requires slot < node.maxSlots && slot < |node.rows|
    requires !Blank(node.rows[slot]) && node.rows[slot].version == 0xFFFF_FFFF
    ensures
      var end := Puts(scheme, node, chunks);
      end.maxSlots == node.maxSlots && slot < |end.rows| && end.rows[slot] == node.rows[slot]
    decreases |chunks|
  {
    if chunks != [] {
      LastVersionStays(scheme, Put(scheme, node, chunks[0]), chunks[1..], slot);
    }
  }
}
