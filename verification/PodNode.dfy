/** The StackerDB node (src/storage/mock.rs) and the client's write loop against it
    (src/storage/wrbpod.rs), under arbitrary interference by other writers. */
module PodNode {
  import opened Prelude
  import opened Bytes

  const ZERO_HASH: Hash32 := Zeros(32)
  type ChunkSignature = seq<byte>
  type Key = seq<byte>
  type PubKey = seq<byte>

  /** Hashing and chunk signatures, left open.  Verification may fail to decode the signature. */
  datatype ChunkScheme = ChunkScheme(
    hash: seq<byte> -> Hash32,
    addressOf: Key -> Address,
    sign: (Key, u32, u32, Hash32) -> Option<ChunkSignature>,
    verify: (Address, u32, u32, Hash32, ChunkSignature) -> Option<bool>,
    recover: (u32, u32, Hash32, ChunkSignature) -> Option<PubKey>)
  {
    /** A signature made by a key verifies for that key's address and no other. */
    ghost predicate Lawful() {
      forall k: Key, slot: u32, v: u32, h: Hash32 {:trigger sign(k, slot, v, h)} ::
        sign(k, slot, v, h).Some? ==>
          && recover(slot, v, h, sign(k, slot, v, h).value).Some?
          && forall a: Address :: verify(a, slot, v, h, sign(k, slot, v, h).value) == Some(a == addressOf(k))
    }
  }

  datatype Row = Row(version: u32, pubkh: Address, dataHash: Hash32, data: seq<byte>, sig: ChunkSignature)
  /** Slot ids are assigned from 0 upwards, so a row's position is its slot id. */
  datatype Node = Node(maxSlots: u32, rows: seq<Row>)
  datatype Chunk = Chunk(slot: u32, version: u32, data: seq<byte>, sig: ChunkSignature)
  datatype Metadata = Metadata(slot: u32, version: u32, dataHash: Hash32, sig: ChunkSignature)
  datatype Ack = Ack(accepted: bool, metadata: Option<Metadata>)

  predicate IsEmpty(r: Row) {
    r.version == 0 && r.dataHash == ZERO_HASH
  }

  predicate Verifies(scheme: ChunkScheme, slot: u32, r: Row) {
    scheme.verify(r.pubkh, slot, r.version, r.dataHash, r.sig) == Some(true)
  }

  function MetadataOf(slot: u32, r: Row): Metadata {
    Metadata(slot, r.version, r.dataHash, r.sig)
  }

  // ---------------------------------------------------------------- the node's side

  /** The node re-checks the signature it has stored, not the one it is given; then it wants a newer
      version, unless the slot is empty. */
  function PutAck(scheme: ChunkScheme, node: Node, chunk: Chunk): Ack {
    if chunk.slot >= node.maxSlots || chunk.slot >= |node.rows| then Ack(false, None)
    else
      var row := node.rows[chunk.slot];
      if !IsEmpty(row) && !Verifies(scheme, chunk.slot, row) then Ack(false, Some(MetadataOf(chunk.slot, row)))
      else if !IsEmpty(row) && chunk.version <= row.version then Ack(false, Some(MetadataOf(chunk.slot, row)))
      else Ack(true, None)
  }

  function Put(scheme: ChunkScheme, node: Node, chunk: Chunk): Node {
    if PutAck(scheme, node, chunk).accepted then
      node.(rows := node.rows[chunk.slot :=
        Row(chunk.version, node.rows[chunk.slot].pubkh, scheme.hash(chunk.data), chunk.data, chunk.sig)])
    else node
  }

  /** What any number of writers do to the node. */
  function Puts(scheme: ChunkScheme, node: Node, chunks: seq<Chunk>): Node
    decreases |chunks|
  {
    if chunks == [] then node else Puts(scheme, Put(scheme, node, chunks[0]), chunks[1..])
  }

  /** How many of these writes to a slot are accepted. */
  function Landed(scheme: ChunkScheme, node: Node, chunks: seq<Chunk>, slot: u32): nat
    decreases |chunks|
  {
    if chunks == [] then 0
    else
      (if chunks[0].slot == slot && PutAck(scheme, node, chunks[0]).accepted then 1 else 0)
      + Landed(scheme, Put(scheme, node, chunks[0]), chunks[1..], slot)
  }

  /** A slot never written, or written with data that matches its hash. */
  ghost predicate HashMatches(scheme: ChunkScheme, r: Row) {
    r.dataHash == scheme.hash(r.data) || (r.version == 0 && r.dataHash == ZERO_HASH && r.data == [])
  }

  /** Whatever writers do: the table keeps its shape and owners, hashes keep matching data, versions
      never fall, and each write accepted by a slot that was not empty raises its version. */
  lemma {:induction false} InterleavingSafety(scheme: ChunkScheme, node: Node, chunks: seq<Chunk>, slot: u32)
    requires slot < |node.rows|
    requires HashMatches(scheme, node.rows[slot])
    ensures
      var end := Puts(scheme, node, chunks);
      && end.maxSlots == node.maxSlots && |end.rows| == |node.rows|
      && end.rows[slot].pubkh == node.rows[slot].pubkh
      && HashMatches(scheme, end.rows[slot])
      && node.rows[slot].version <= end.rows[slot].version
      && (!IsEmpty(node.rows[slot]) ==>
            && !IsEmpty(end.rows[slot])
            && node.rows[slot].version + Landed(scheme, node, chunks, slot) <= end.rows[slot].version)
      && (Landed(scheme, node, chunks, slot) == 0 ==> end.rows[slot] == node.rows[slot])
    decreases |chunks|
  {
    if chunks != [] {
      InterleavingSafety(scheme, Put(scheme, node, chunks[0]), chunks[1..], slot);
    }
  }

  // ---------------------------------------------------------------- the client's write loop

  datatype Outcome =
    | Stored(node: Node, puts: nat)
    | Refused(node: Node, puts: nat)
    | Pending(node: Node, puts: nat)
    | SignFailed(node: Node)
    | VersionOverflow(node: Node)

  function OneMore(o: Outcome): Outcome {
    match o
    case Stored(n, p) => Stored(n, p + 1)
    case Refused(n, p) => Refused(n, p + 1)
    case Pending(n, p) => Pending(n, p + 1)
    case _ => o
  }

  function Signed(scheme: ChunkScheme, key: Key, chunk: Chunk): Option<Chunk> {
    match scheme.sign(key, chunk.slot, chunk.version, scheme.hash(chunk.data))
    case None => None
    case Some(sig) => Some(chunk.(sig := sig))
  }

  /** The retry loop.  `bursts[i]` is what other writers do just before the i-th put; the loop is
      followed for as many puts as there are bursts. */
  function Retry(scheme: ChunkScheme, key: Key, node: Node, chunk: Chunk, bursts: seq<seq<Chunk>>): Outcome
    decreases |bursts|
  {
    if bursts == [] then Pending(node, 0)
    else
      match Signed(scheme, key, chunk)
      case None => SignFailed(node)
      case Some(signed) =>
        var here := Puts(scheme, node, bursts[0]);
        var ack := PutAck(scheme, here, signed);
        if ack.accepted then Stored(Put(scheme, here, signed), 1)
        else if ack.metadata.None? then Refused(here, 1)
        else if ack.metadata.value.version == MAX_U32 then VersionOverflow(here)
        else OneMore(Retry(scheme, key, here, chunk.(version := ack.metadata.value.version + 1), bursts[1..]))
  }

  function LandedAll(scheme: ChunkScheme, node: Node, bursts: seq<seq<Chunk>>, slot: u32): nat
    decreases |bursts|
  {
    if bursts == [] then 0
    else Landed(scheme, node, bursts[0], slot) + LandedAll(scheme, Puts(scheme, node, bursts[0]), bursts[1..], slot)
  }

  /** The slot exists and what it holds, if anything, verifies and leaves room for newer versions. */
  ghost predicate Healthy(scheme: ChunkScheme, node: Node, slot: u32) {
    && slot < |node.rows| && slot < node.maxSlots
    && (IsEmpty(node.rows[slot]) || Verifies(scheme, slot, node.rows[slot]))
    && node.rows[slot].version < MAX_U32
    && HashMatches(scheme, node.rows[slot])
  }

  /** A write to the slot by someone entitled to it, who also leaves room. */
  ghost predicate Proper(scheme: ChunkScheme, owner: Address, slot: u32, c: Chunk) {
    c.slot == slot ==>
      c.version < MAX_U32 && scheme.verify(owner, slot, c.version, scheme.hash(c.data), c.sig) == Some(true)
  }

  ghost predicate AllProper(scheme: ChunkScheme, owner: Address, slot: u32, chunks: seq<Chunk>) {
    forall i | 0 <= i < |chunks| :: Proper(scheme, owner, slot, chunks[i])
  }

  lemma {:induction false} ProperWritesKeepHealth(scheme: ChunkScheme, node: Node, chunks: seq<Chunk>, slot: u32)
    requires Healthy(scheme, node, slot) && AllProper(scheme, node.rows[slot].pubkh, slot, chunks)
    ensures Healthy(scheme, Puts(scheme, node, chunks), slot)
    ensures Puts(scheme, node, chunks).rows[slot].pubkh == node.rows[slot].pubkh
    decreases |chunks|
  {
    if chunks != [] {
      var next := Put(scheme, node, chunks[0]);
      assert Proper(scheme, node.rows[slot].pubkh, slot, chunks[0]);
      assert Healthy(scheme, next, slot);
      assert AllProper(scheme, next.rows[slot].pubkh, slot, chunks[1..]) by {
        forall i | 0 <= i < |chunks[1..]| ensures Proper(scheme, next.rows[slot].pubkh, slot, chunks[1..][i]) {
          assert chunks[1..][i] == chunks[i + 1];
        }
      }
      ProperWritesKeepHealth(scheme, next, chunks[1..], slot);
    }
  }

  ghost predicate ProperBursts(scheme: ChunkScheme, owner: Address, slot: u32, bursts: seq<seq<Chunk>>) {
    forall i | 0 <= i < |bursts| :: AllProper(scheme, owner, slot, bursts[i])
  }

  /** The key can sign this data for this slot at every version. */
  ghost predicate CanSign(scheme: ChunkScheme, key: Key, slot: u32, data: seq<byte>) {
    forall v: u32 :: scheme.sign(key, slot, v, scheme.hash(data)).Some?
  }

  /** The caller's bytes are what the slot holds, signed by the key, under a version that marks the slot
      as written; every other slot is as the other writers left it. */
  ghost predicate StoredWell(scheme: ChunkScheme, key: Key, before: Node, after: Node, slot: u32, data: seq<byte>) {
    && |after.rows| == |before.rows| && slot < |before.rows| && after.maxSlots == before.maxSlots
    && (forall i | 0 <= i < |before.rows| && i != slot :: after.rows[i] == before.rows[i])
    && var r := after.rows[slot];
       && r.data == data && r.dataHash == scheme.hash(data) && r.pubkh == before.rows[slot].pubkh
       && scheme.sign(key, slot, r.version, r.dataHash) == Some(r.sig)
       && (!IsEmpty(before.rows[slot]) ==> r.version > before.rows[slot].version)
  }

  /** What the others did up to and including the burst before the last of `n` puts. */
  function After(scheme: ChunkScheme, node: Node, bursts: seq<seq<Chunk>>, n: nat): Node
    requires n <= |bursts|
    decreases n
  {
    if n == 0 then node else After(scheme, Puts(scheme, node, bursts[0]), bursts[1..], n - 1)
  }

  lemma ProperTail(scheme: ChunkScheme, owner: Address, slot: u32, bursts: seq<seq<Chunk>>)
    requires bursts != [] && ProperBursts(scheme, owner, slot, bursts)
    ensures ProperBursts(scheme, owner, slot, bursts[1..])
  {
    forall i | 0 <= i < |bursts[1..]| ensures AllProper(scheme, owner, slot, bursts[1..][i]) {
      assert bursts[1..][i] == bursts[i + 1];
    }
  }

  /** The loop ends within `limit` puts, with the caller's bytes stored on top of what the others had
      done by then. */
  ghost predicate StopsWithin(
      scheme: ChunkScheme, key: Key, node: Node, chunk: Chunk, bursts: seq<seq<Chunk>>, limit: nat)
  {
    var o := Retry(scheme, key, node, chunk, bursts);
    && o.Stored? && 1 <= o.puts <= limit && o.puts <= |bursts|
    && StoredWell(scheme, key, After(scheme, node, bursts, o.puts), o.node, chunk.slot, chunk.data)
  }

  lemma AcceptedStops(scheme: ChunkScheme, key: Key, node: Node, chunk: Chunk, bursts: seq<seq<Chunk>>, limit: nat)
    requires bursts != [] && limit >= 1 && Signed(scheme, key, chunk).Some?
    requires PutAck(scheme, Puts(scheme, node, bursts[0]), Signed(scheme, key, chunk).value).accepted
    ensures StopsWithin(scheme, key, node, chunk, bursts, limit)
  {
    assert After(scheme, Puts(scheme, node, bursts[0]), bursts[1..], 0) == Puts(scheme, node, bursts[0]);
  }

  lemma RefusedGoesOn(
      scheme: ChunkScheme, key: Key, node: Node, chunk: Chunk, bursts: seq<seq<Chunk>>, next: Chunk, limit: nat)
    requires bursts != [] && Signed(scheme, key, chunk).Some?
    requires chunk.slot < |Puts(scheme, node, bursts[0]).rows|
    requires
      var here := Puts(scheme, node, bursts[0]);
      && PutAck(scheme, here, Signed(scheme, key, chunk).value)
         == Ack(false, Some(MetadataOf(chunk.slot, here.rows[chunk.slot])))
      && here.rows[chunk.slot].version < MAX_U32
      && next == chunk.(version := here.rows[chunk.slot].version + 1)
      && StopsWithin(scheme, key, here, next, bursts[1..], limit)
    ensures StopsWithin(scheme, key, node, chunk, bursts, limit + 1)
  {
    var here := Puts(scheme, node, bursts[0]);
    var rest := Retry(scheme, key, here, next, bursts[1..]);
    assert Retry(scheme, key, node, chunk, bursts) == OneMore(rest);
    assert After(scheme, node, bursts, rest.puts + 1) == After(scheme, here, bursts[1..], rest.puts);
  }

  /** After the others' first burst the slot is still healthy, and a refusal names its version. */
  lemma FirstPut(scheme: ChunkScheme, key: Key, node: Node, chunk: Chunk, bursts: seq<seq<Chunk>>)
    requires bursts != []
    requires Healthy(scheme, node, chunk.slot) && CanSign(scheme, key, chunk.slot, chunk.data)
    requires ProperBursts(scheme, node.rows[chunk.slot].pubkh, chunk.slot, bursts)
    ensures
      var here := Puts(scheme, node, bursts[0]);
      && Healthy(scheme, here, chunk.slot)
      && ProperBursts(scheme, here.rows[chunk.slot].pubkh, chunk.slot, bursts[1..])
      && Signed(scheme, key, chunk).Some?
      && var ack := PutAck(scheme, here, Signed(scheme, key, chunk).value);
         !ack.accepted ==> ack == Ack(false, Some(MetadataOf(chunk.slot, here.rows[chunk.slot])))
  {
    assert AllProper(scheme, node.rows[chunk.slot].pubkh, chunk.slot, bursts[0]);
    ProperWritesKeepHealth(scheme, node, bursts[0], chunk.slot);
    ProperTail(scheme, node.rows[chunk.slot].pubkh, chunk.slot, bursts);
  }

  /** Starting from a version newer than the stored one, each refusal needs a fresh write by others. */
  lemma {:induction false} FreshRetryStops(
      scheme: ChunkScheme, key: Key, node: Node, chunk: Chunk, bursts: seq<seq<Chunk>>)
    requires Healthy(scheme, node, chunk.slot) && CanSign(scheme, key, chunk.slot, chunk.data)
    requires ProperBursts(scheme, node.rows[chunk.slot].pubkh, chunk.slot, bursts)
    requires IsEmpty(node.rows[chunk.slot]) || chunk.version > node.rows[chunk.slot].version
    requires |bursts| > LandedAll(scheme, node, bursts, chunk.slot)
    ensures StopsWithin(scheme, key, node, chunk, bursts, LandedAll(scheme, node, bursts, chunk.slot) + 1)
    decreases |bursts|
  {
    FirstPut(scheme, key, node, chunk, bursts);
    InterleavingSafety(scheme, node, bursts[0], chunk.slot);
    var here, total := Puts(scheme, node, bursts[0]), LandedAll(scheme, node, bursts, chunk.slot);
    if PutAck(scheme, here, Signed(scheme, key, chunk).value).accepted {
      AcceptedStops(scheme, key, node, chunk, bursts, total + 1);
    } else {
      var next := chunk.(version := here.rows[chunk.slot].version + 1);
      FreshRetryStops(scheme, key, here, next, bursts[1..]);
      StopsEarlier(scheme, key, here, next, bursts[1..], LandedAll(scheme, here, bursts[1..], chunk.slot) + 1, total);
      RefusedGoesOn(scheme, key, node, chunk, bursts, next, total);
    }
  }

  lemma StopsEarlier(
      scheme: ChunkScheme, key: Key, node: Node, chunk: Chunk, bursts: seq<seq<Chunk>>, limit: nat, more: nat)
    requires StopsWithin(scheme, key, node, chunk, bursts, limit) && limit <= more
    ensures StopsWithin(scheme, key, node, chunk, bursts, more)
  {
  }

  /** Main result.  Whatever version the loop starts from, if `k` writes by others land on the slot
      after its first put, it stops after at most k + 2 puts with the caller's bytes stored. */
  lemma RetryStops(scheme: ChunkScheme, key: Key, node: Node, chunk: Chunk, bursts: seq<seq<Chunk>>, k: nat)
    requires bursts != []
    requires Healthy(scheme, node, chunk.slot) && CanSign(scheme, key, chunk.slot, chunk.data)
    requires ProperBursts(scheme, node.rows[chunk.slot].pubkh, chunk.slot, bursts)
    requires k == LandedAll(scheme, Puts(scheme, node, bursts[0]), bursts[1..], chunk.slot)
    requires |bursts| >= k + 2
    ensures StopsWithin(scheme, key, node, chunk, bursts, k + 2)
  {
    FirstPut(scheme, key, node, chunk, bursts);
    var here := Puts(scheme, node, bursts[0]);
    if PutAck(scheme, here, Signed(scheme, key, chunk).value).accepted {
      AcceptedStops(scheme, key, node, chunk, bursts, k + 2);
    } else {
      var next := chunk.(version := here.rows[chunk.slot].version + 1);
      FreshRetryStops(scheme, key, here, next, bursts[1..]);
      RefusedGoesOn(scheme, key, node, chunk, bursts, next, k + 1);
    }
  }

  /** The version stored is the caller's own if the first put was accepted, and otherwise one above the
      version the last refusal showed: the slot's own just before the last burst. */
  lemma {:induction false} StoredVersion(
      scheme: ChunkScheme, key: Key, node: Node, chunk: Chunk, bursts: seq<seq<Chunk>>)
    requires Retry(scheme, key, node, chunk, bursts).Stored? && chunk.slot < |node.rows|
    ensures
      var o := Retry(scheme, key, node, chunk, bursts);
      && 1 <= o.puts <= |bursts| && chunk.slot < |o.node.rows|
      && var before := After(scheme, node, bursts, o.puts - 1);
         && chunk.slot < |before.rows|
         && o.node.rows[chunk.slot].version
            == if o.puts == 1 then chunk.version else before.rows[chunk.slot].version + 1
    decreases |bursts|
  {
    var here := Puts(scheme, node, bursts[0]);
    PutsKeepTable(scheme, node, bursts[0]);
    var ack := PutAck(scheme, here, Signed(scheme, key, chunk).value);
    if !ack.accepted {
      var next := chunk.(version := ack.metadata.value.version + 1);
      StoredVersion(scheme, key, here, next, bursts[1..]);
      var rest := Retry(scheme, key, here, next, bursts[1..]);
      assert Retry(scheme, key, node, chunk, bursts) == OneMore(rest);
      assert After(scheme, node, bursts, rest.puts) == After(scheme, here, bursts[1..], rest.puts - 1);
    }
  }

  lemma {:induction false} VersionsNeverFall(
      scheme: ChunkScheme, node: Node, bursts: seq<seq<Chunk>>, n: nat, slot: u32)
    requires n <= |bursts| && slot < |node.rows| && HashMatches(scheme, node.rows[slot])
    ensures slot < |After(scheme, node, bursts, n).rows|
    ensures node.rows[slot].version <= After(scheme, node, bursts, n).rows[slot].version
    decreases n
  {
    if n > 0 {
      InterleavingSafety(scheme, node, bursts[0], slot);
      VersionsNeverFall(scheme, Puts(scheme, node, bursts[0]), bursts[1..], n - 1, slot);
    }
  }

  lemma {:induction false} PutsKeepTable(scheme: ChunkScheme, node: Node, chunks: seq<Chunk>)
    ensures |Puts(scheme, node, chunks).rows| == |node.rows| && Puts(scheme, node, chunks).maxSlots == node.maxSlots
    decreases |chunks|
  {
    if chunks != [] {
      PutsKeepTable(scheme, Put(scheme, node, chunks[0]), chunks[1..]);
    }
  }

  // ---------------------------------------------------------------- when it does not stop

  /** The slot holds something that does not verify. */
  predicate Stuck(scheme: ChunkScheme, node: Node, slot: u32) {
    && slot < |node.rows| && slot < node.maxSlots
    && !IsEmpty(node.rows[slot]) && !Verifies(scheme, slot, node.rows[slot])
  }

  lemma {:induction false} StuckStays(scheme: ChunkScheme, node: Node, chunks: seq<Chunk>, slot: u32)
    requires Stuck(scheme, node, slot)
    ensures Stuck(scheme, Puts(scheme, node, chunks), slot)
    ensures Puts(scheme, node, chunks).rows[slot] == node.rows[slot]
    decreases |chunks|
  {
    if chunks != [] {
      StuckStays(scheme, Put(scheme, node, chunks[0]), chunks[1..], slot);
    }
  }

  /** On such a slot no write by anyone is ever accepted, and because the refusal carries metadata the
      client's loop goes on for as long as one cares to watch. */
  lemma {:induction false} StuckForever(
      scheme: ChunkScheme, key: Key, node: Node, chunk: Chunk, bursts: seq<seq<Chunk>>)
    requires Stuck(scheme, node, chunk.slot) && node.rows[chunk.slot].version < MAX_U32
    requires CanSign(scheme, key, chunk.slot, chunk.data)
    ensures
      var o := Retry(scheme, key, node, chunk, bursts);
      o.Pending? && o.puts == |bursts| && Stuck(scheme, o.node, chunk.slot)
      && o.node.rows[chunk.slot] == node.rows[chunk.slot]
    decreases |bursts|
  {
    if bursts != [] {
      StuckStays(scheme, node, bursts[0], chunk.slot);
      var here := Puts(scheme, node, bursts[0]);
      StuckForever(scheme, key, here, chunk.(version := here.rows[chunk.slot].version + 1), bursts[1..]);
    }
  }

  /** How a slot gets there: the node accepts a write whose signature does not verify. */
  lemma BadSignatureSticks(scheme: ChunkScheme, node: Node, chunk: Chunk)
    requires PutAck(scheme, node, chunk).accepted
    requires
      var owner := node.rows[chunk.slot].pubkh;
      scheme.verify(owner, chunk.slot, chunk.version, scheme.hash(chunk.data), chunk.sig) != Some(true)
    requires chunk.version > 0 || scheme.hash(chunk.data) != ZERO_HASH
    ensures Stuck(scheme, Put(scheme, node, chunk), chunk.slot)
  {
  }

  // ---------------------------------------------------------------- the objects

  datatype Signer = Signer(address: Address, numSlots: nat)

  function InitialRows(signers: seq<Signer>): seq<Row> {
    if signers == [] then []
    else InitialRows(signers[..|signers| - 1]) + Copies(signers[|signers| - 1].address, signers[|signers| - 1].numSlots)
  }

  function Copies(address: Address, n: nat): (r: seq<Row>)
    ensures |r| == n
    ensures forall i | 0 <= i < n :: r[i] == Row(0, address, ZERO_HASH, [], [])
  {
    seq(n, i => Row(0, address, ZERO_HASH, [], []))
  }

  class LocalStackerDBClient {
    const scheme: ChunkScheme
    var maxSlots: u32
    var rows: seq<Row>

    ghost function Value(): Node
      reads this
    {
      Node(maxSlots, rows)
    }

    /** Numbers the slots of the signers, one after the other. */
    constructor (scheme: ChunkScheme, maxSlots: u32, signers: seq<Signer>)
      ensures this.scheme == scheme
      ensures Value() == Node(maxSlots, InitialRows(signers))
    {
      this.scheme, this.maxSlots := scheme, maxSlots;
      this.rows := [];
      new;
      for i := 0 to |signers|
        invariant rows == InitialRows(signers[..i]) && this.maxSlots == maxSlots
      {
        assert signers[..i + 1][..i] == signers[..i];
        ghost var base := rows;
        var signer := signers[i];
        for j := 0 to signer.numSlots
          invariant rows == base + Copies(signer.address, j) && this.maxSlots == maxSlots
        {
          assert Copies(signer.address, j + 1)
              == Copies(signer.address, j) + [Row(0, signer.address, ZERO_HASH, [], [])];
          rows := rows + [Row(0, signer.address, ZERO_HASH, [], [])];
        }
      }
      assert signers[..|signers|] == signers;
    }

    method PutChunk(chunk: Chunk) returns (ack: Ack)
      modifies this`rows
      ensures ack == PutAck(scheme, old(Value()), chunk)
      ensures Value() == Put(scheme, old(Value()), chunk)
    {
      if chunk.slot >= maxSlots || chunk.slot >= |rows| {
        return Ack(false, None);
      }
      var row := rows[chunk.slot];
      if !IsEmpty(row) && !Verifies(scheme, chunk.slot, row) {
        return Ack(false, Some(MetadataOf(chunk.slot, row)));
      }
      if !IsEmpty(row) && chunk.version <= row.version {
        return Ack(false, Some(MetadataOf(chunk.slot, row)));
      }
      rows := rows[chunk.slot := Row(chunk.version, row.pubkh, scheme.hash(chunk.data), chunk.data, chunk.sig)];
      return Ack(true, None);
    }
  }

  /** Other writers get their turn. */
  method Interfere(db: LocalStackerDBClient, chunks: seq<Chunk>)
    modifies db`rows
    ensures db.Value() == Puts(db.scheme, old(db.Value()), chunks)
  {
    for i := 0 to |chunks|
      invariant Puts(db.scheme, old(db.Value()), chunks) == Puts(db.scheme, db.Value(), chunks[i..])
      invariant db.maxSlots == old(db.maxSlots)
    {
      assert chunks[i..][1..] == chunks[i + 1..];
      var _ := db.PutChunk(chunks[i]);
    }
  }

  datatype WriteResult = Done | PutError | SignError | OverflowError | StillTrying

  /** The client's loop: sign, put, and on a refusal that names a version try the next one. */
  method PutWithRetry(db: LocalStackerDBClient, key: Key, chunk: Chunk, bursts: seq<seq<Chunk>>)
    returns (r: WriteResult, puts: nat)
    modifies db`rows
    ensures
      var o := Retry(db.scheme, key, old(db.Value()), chunk, bursts);
      match r
      case Done => o == Stored(db.Value(), puts)
      case PutError => o == Refused(db.Value(), puts)
      case StillTrying => o == Pending(db.Value(), puts)
      case SignError => o == SignFailed(db.Value())
      case OverflowError => o == VersionOverflow(db.Value())
  {
    var version: u32 := chunk.version;
    puts := 0;
    for i := 0 to |bursts|
      invariant puts == i
      invariant Retry(db.scheme, key, old(db.Value()), chunk, bursts)
             == Later(i, Retry(db.scheme, key, db.Value(), chunk.(version := version), bursts[i..]))
      invariant db.maxSlots == old(db.maxSlots)
    {
      LaterStep(db.scheme, key, db.Value(), chunk.(version := version), bursts[i..], i);
      assert bursts[i..][1..] == bursts[i + 1..];
      var signed := Signed(db.scheme, key, chunk.(version := version));
      if signed.None? {
        return SignError, puts;
      }
      Interfere(db, bursts[i]);
      var ack := db.PutChunk(signed.value);
      puts := puts + 1;
      if ack.accepted {
        return Done, puts;
      }
      if ack.metadata.None? {
        return PutError, puts;
      }
      if ack.metadata.value.version == MAX_U32 {
        return OverflowError, puts;
      }
      version := ack.metadata.value.version + 1;
    }
    return StillTrying, puts;
  }

  ghost function Later(n: nat, o: Outcome): Outcome {
    match o
    case Stored(node, p) => Stored(node, p + n)
    case Refused(node, p) => Refused(node, p + n)
    case Pending(node, p) => Pending(node, p + n)
    case _ => o
  }

  lemma LaterStep(scheme: ChunkScheme, key: Key, node: Node, chunk: Chunk, bursts: seq<seq<Chunk>>, n: nat)
    requires bursts != []
    ensures
      var now := Later(n, Retry(scheme, key, node, chunk, bursts));
      match Signed(scheme, key, chunk)
      case None => now == SignFailed(node)
      case Some(signed) =>
        var here := Puts(scheme, node, bursts[0]);
        var ack := PutAck(scheme, here, signed);
        now ==
        if ack.accepted then Stored(Put(scheme, here, signed), n + 1)
        else if ack.metadata.None? then Refused(here, n + 1)
        else if ack.metadata.value.version == MAX_U32 then VersionOverflow(here)
        else Later(n + 1, Retry(scheme, key, here, chunk.(version := ack.metadata.value.version + 1), bursts[1..]))
  {
  }
}
