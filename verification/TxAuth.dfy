/** Signing and verifying one spending condition: the rolling sighash and the folds that replay it
    (src/tx/auth.rs). */
module TxAuth {
  import opened Prelude
  import opened Bytes
  import opened TxTypes
  import opened TxCodec

  // ---------------------------------------------------------------- one link of the chain

  function Presign(scheme: Scheme, cur: Txid, flag: AuthFlag, fee: u64, nonce: u64): Txid {
    scheme.hash(cur + [flag.Byte()] + ToBigEndian(fee, 8) + ToBigEndian(nonce, 8))
  }

  function Postsign(scheme: Scheme, presign: Txid, compressed: bool, sig: Signature): Txid {
    scheme.hash(presign + [EncodingOf(compressed).Byte()] + sig)
  }

  /** Signs the next link and says what the following key must sign. */
  function NextSignature(scheme: Scheme, cur: Txid, flag: AuthFlag, fee: u64, nonce: u64, k: PrivateKey)
    : Result<(Signature, Txid), Error>
  {
    var presign := Presign(scheme, cur, flag, fee, nonce);
    match scheme.sign(k, presign)
    case None => Err(SigningError)
    case Some(sig) => Ok((sig, Postsign(scheme, presign, scheme.PublicKeyOf(k).compressed, sig)))
  }

  /** Recovers the key of the next link, under the recorded encoding, and the sighash after it. */
  function NextVerification(
      scheme: Scheme, cur: Txid, flag: AuthFlag, fee: u64, nonce: u64, encoding: KeyEncoding, sig: Signature)
    : Result<(PublicKey, Txid), Error>
  {
    var presign := Presign(scheme, cur, flag, fee, nonce);
    match scheme.recover(presign, sig)
    case None => Err(VerifyingError)
    case Some(point) =>
      var key := PublicKey(point, encoding.Compressed?);
      Ok((key, Postsign(scheme, presign, key.compressed, sig)))
  }

  /** Verifying a fresh link recovers the signer's point; it reaches the signer's sighash when the
      recorded encoding is the key's own. */
  lemma LinkAgrees(
      scheme: Scheme, cur: Txid, flag: AuthFlag, fee: u64, nonce: u64, k: PrivateKey, encoding: KeyEncoding)
    requires scheme.Lawful()
    requires NextSignature(scheme, cur, flag, fee, nonce, k).Ok?
    ensures
      var (sig, next) := NextSignature(scheme, cur, flag, fee, nonce, k).value;
      var back := NextVerification(scheme, cur, flag, fee, nonce, encoding, sig);
      && sig != EMPTY_SIGNATURE
      && back.Ok?
      && back.value.0 == PublicKey(scheme.pointOf(k.secret), encoding.Compressed?)
      && (encoding == EncodingOf(k.compressPublic) ==> back.value == (scheme.PublicKeyOf(k), next))
  {
    var presign := Presign(scheme, cur, flag, fee, nonce);
    SignaturesAreNotEmpty(scheme, k, presign);
    assert scheme.recover(presign, scheme.sign(k, presign).value) == Some(scheme.pointOf(k.secret));
  }

  // ---------------------------------------------------------------- replaying recorded fields

  /** What the verifier's loop has gathered after some fields. */
  datatype Gathered = Gathered(keys: seq<PublicKey>, sighash: Txid, numSigs: nat, uncompressed: bool)

  /** The parameters of a replay.  Sequential multisig rolls the sighash; order-independent multisig
      checks every signature against the sighash it started from. */
  datatype Replay = Replay(scheme: Scheme, rolling: bool, flag: AuthFlag, fee: u64, nonce: u64) {
    function Field(acc: Gathered, f: AuthField): Result<Gathered, Error> {
      match f
      case PublicKeyField(key) =>
        Ok(acc.(keys := acc.keys + [key], uncompressed := acc.uncompressed || !key.compressed))
      case SignatureField(encoding, sig) =>
        var (key, next) :- NextVerification(scheme, acc.sighash, flag, fee, nonce, encoding, sig);
        if acc.numSigs + 1 > MAX_U16 then Err(VerifyingError)
        else Ok(Gathered(acc.keys + [key], if rolling then next else acc.sighash, acc.numSigs + 1,
                         acc.uncompressed || encoding.Uncompressed?))
    }

    function Fields(init: Txid, fields: seq<AuthField>): Result<Gathered, Error> {
      if fields == [] then Ok(Gathered([], init, 0, false))
      else
        var acc :- Fields(init, fields[..|fields| - 1]);
        Field(acc, fields[|fields| - 1])
    }
  }

  function ReplayOf(scheme: Scheme, c: SpendingCondition, flag: AuthFlag): Replay {
    Replay(scheme, !c.OrderIndependentMultisig?, flag, c.txFee, c.nonce)
  }

  /** Replays whatever a condition has recorded so far, complete or not. */
  function ReplayCondition(scheme: Scheme, c: SpendingCondition, init: Txid, flag: AuthFlag): Result<Gathered, Error> {
    if c.Singlesig? then
      if c.signature == EMPTY_SIGNATURE then Ok(Gathered([], init, 0, false))
      else
        var (key, next) :- NextVerification(scheme, init, flag, c.txFee, c.nonce, c.keyEncoding, c.signature);
        Ok(Gathered([key], next, 1, !key.compressed))
    else ReplayOf(scheme, c, flag).Fields(init, c.fields)
  }

  // ---------------------------------------------------------------- verification

  predicate AddressMatches(scheme: Scheme, c: SpendingCondition, keys: seq<PublicKey>) {
    scheme.addressHash(c.AddressMode(), c.SignaturesRequired(), keys) == Some(c.signer)
  }

  /** The checks after a multisig verifier's loop. */
  predicate MultisigAccepts(scheme: Scheme, c: SpendingCondition, g: Gathered)
    requires !c.Singlesig?
  {
    && (if c.Multisig? then g.numSigs == c.required else g.numSigs >= c.required)
    && !(g.uncompressed && c.multiMode.P2WSH?)
    && AddressMatches(scheme, c, g.keys)
  }

  function VerifyCondition(scheme: Scheme, c: SpendingCondition, init: Txid, flag: AuthFlag): Result<Txid, Error> {
    if c.Singlesig? then
      var (key, next) :- NextVerification(scheme, init, flag, c.txFee, c.nonce, c.keyEncoding, c.signature);
      if AddressMatches(scheme, c, [key]) then Ok(next) else Err(VerifyingError)
    else
      var g :- ReplayOf(scheme, c, flag).Fields(init, c.fields);
      if MultisigAccepts(scheme, c, g) then Ok(g.sighash) else Err(VerifyingError)
  }

  function VerifyBegin(scheme: Scheme, tx: Transaction): Txid {
    scheme.hash(EncodeTransaction(tx.(auth := tx.auth.InitialSighashAuth())))
  }

  function VerifyOrigin(scheme: Scheme, tx: Transaction): Result<Txid, Error> {
    VerifyCondition(scheme, tx.auth.origin, VerifyBegin(scheme, tx), AuthStandard)
  }

  function Verify(scheme: Scheme, tx: Transaction): Result<Txid, Error> {
    var mid :- VerifyOrigin(scheme, tx);
    match tx.auth
    case Standard(_) => Ok(mid)
    case Sponsored(_, sponsor) => VerifyCondition(scheme, sponsor, mid, AuthSponsored)
  }

  // ---------------------------------------------------------------- the verifier's loops

  lemma {:induction false} ReplayFailureSticks(r: Replay, init: Txid, fields: seq<AuthField>, n: nat)
    requires n <= |fields|
    requires r.Fields(init, fields[..n]).Err?
    ensures r.Fields(init, fields) == Err(VerifyingError)
    decreases |fields|
  {
    if n < |fields| {
      var most := fields[..|fields| - 1];
      assert most[..n] == fields[..n];
      ReplayFailureSticks(r, init, most, n);
    } else {
      assert fields[..n] == fields;
      ReplayErrorIsVerifying(r, init, fields);
    }
  }

  lemma {:induction false} ReplayErrorIsVerifying(r: Replay, init: Txid, fields: seq<AuthField>)
    ensures r.Fields(init, fields).Err? ==> r.Fields(init, fields) == Err(VerifyingError)
  {
    if fields != [] {
      ReplayErrorIsVerifying(r, init, fields[..|fields| - 1]);
    }
  }

  /** The sequential multisig verifier: the sighash rolls over every signature. */
  method VerifyMultisig(
      scheme: Scheme, c: SpendingCondition, init: Txid, flag: AuthFlag) returns (r: Result<Txid, Error>)
    requires c.Multisig?
    ensures r == VerifyCondition(scheme, c, init, flag)
  {
    ghost var replay := ReplayOf(scheme, c, flag);
    var pubkeys: seq<PublicKey> := [];
    var curSighash, numSigs, haveUncompressed := init, 0, false;
    for i := 0 to |c.fields|
      invariant replay.Fields(init, c.fields[..i]) == Ok(Gathered(pubkeys, curSighash, numSigs, haveUncompressed))
    {
      assert c.fields[..i + 1][..i] == c.fields[..i];
      match c.fields[i] {
        case PublicKeyField(key) =>
          haveUncompressed := haveUncompressed || !key.compressed;
          pubkeys := pubkeys + [key];
        case SignatureField(encoding, sig) =>
          haveUncompressed := haveUncompressed || encoding.Uncompressed?;
          var link := NextVerification(scheme, curSighash, flag, c.txFee, c.nonce, encoding, sig);
          if link.Err? || numSigs + 1 > MAX_U16 {
            ReplayFailureSticks(replay, init, c.fields, i + 1);
            return Err(VerifyingError);
          }
          curSighash, numSigs := link.value.1, numSigs + 1;
          pubkeys := pubkeys + [link.value.0];
      }
    }
    assert c.fields[..|c.fields|] == c.fields;
    if numSigs != c.required || (haveUncompressed && c.multiMode.P2WSH?) {
      return Err(VerifyingError);
    }
    if scheme.addressHash(c.AddressMode(), c.required, pubkeys) != Some(c.signer) {
      return Err(VerifyingError);
    }
    return Ok(curSighash);
  }

  /** The order-independent verifier: every signature is checked against the initial sighash. */
  method VerifyOrderIndependent(scheme: Scheme, c: SpendingCondition, init: Txid, flag: AuthFlag)
    returns (r: Result<Txid, Error>)
    requires c.OrderIndependentMultisig?
    ensures r == VerifyCondition(scheme, c, init, flag)
  {
    ghost var replay := ReplayOf(scheme, c, flag);
    var pubkeys: seq<PublicKey> := [];
    var numSigs, haveUncompressed := 0, false;
    for i := 0 to |c.fields|
      invariant replay.Fields(init, c.fields[..i]) == Ok(Gathered(pubkeys, init, numSigs, haveUncompressed))
    {
      assert c.fields[..i + 1][..i] == c.fields[..i];
      match c.fields[i] {
        case PublicKeyField(key) =>
          haveUncompressed := haveUncompressed || !key.compressed;
          pubkeys := pubkeys + [key];
        case SignatureField(encoding, sig) =>
          haveUncompressed := haveUncompressed || encoding.Uncompressed?;
          var link := NextVerification(scheme, init, flag, c.txFee, c.nonce, encoding, sig);
          if link.Err? || numSigs + 1 > MAX_U16 {
            ReplayFailureSticks(replay, init, c.fields, i + 1);
            return Err(VerifyingError);
          }
          numSigs := numSigs + 1;
          pubkeys := pubkeys + [link.value.0];
      }
    }
    assert c.fields[..|c.fields|] == c.fields;
    if numSigs < c.required || (haveUncompressed && c.multiMode.P2WSH?) {
      return Err(VerifyingError);
    }
    if scheme.addressHash(c.AddressMode(), c.required, pubkeys) != Some(c.signer) {
      return Err(VerifyingError);
    }
    return Ok(init);
  }

  // ---------------------------------------------------------------- what a replay gathers

  /** A successful replay has one key per field, counts the signatures and notices any
      uncompressed key. */
  lemma {:induction false} ReplayGathers(r: Replay, init: Txid, fields: seq<AuthField>)
    requires r.Fields(init, fields).Ok?
    ensures
      var g := r.Fields(init, fields).value;
      && |g.keys| == |fields|
      && g.numSigs == CountSignatures(fields) <= MAX_U16
      && g.uncompressed == AnyUncompressed(fields)
      && (g.uncompressed <==> exists i | 0 <= i < |g.keys| :: !g.keys[i].compressed)
      && (!r.rolling ==> g.sighash == init)
  {
    if fields != [] {
      var most, last := fields[..|fields| - 1], fields[|fields| - 1];
      ReplayGathers(r, init, most);
      var before, g := r.Fields(init, most).value, r.Fields(init, fields).value;
      assert fields == most + [last];
      assert g.keys == before.keys + [g.keys[|most|]];
      assert g.keys[|most|].compressed == !FieldUncompressed(last);
      assert AnyUncompressed(fields) <==> AnyUncompressed(most) || FieldUncompressed(last) by {
        if AnyUncompressed(most) {
          var i :| 0 <= i < |most| && FieldUncompressed(most[i]);
          assert FieldUncompressed(fields[i]);
        }
        if FieldUncompressed(last) {
          assert FieldUncompressed(fields[|most|]);
        }
      }
      assert (exists i | 0 <= i < |g.keys| :: !g.keys[i].compressed)
        <==> (exists i | 0 <= i < |before.keys| :: !before.keys[i].compressed) || FieldUncompressed(last) by {
        if i :| 0 <= i < |before.keys| && !before.keys[i].compressed {
          assert !g.keys[i].compressed;
        }
      }
    }
  }

  function PlainKeys(fields: seq<AuthField>): seq<PublicKey>
    requires CountSignatures(fields) == 0
  {
    if fields == [] then []
    else PlainKeys(fields[..|fields| - 1]) + [fields[|fields| - 1].key]
  }

  /** Public keys alone never move the sighash, so a replay of them is the same from anywhere. */
  lemma {:induction false} ReplayOfKeysOnly(r: Replay, init: Txid, fields: seq<AuthField>)
    requires CountSignatures(fields) == 0
    ensures r.Fields(init, fields) == Ok(Gathered(PlainKeys(fields), init, 0, AnyUncompressed(fields)))
  {
    if fields != [] {
      ReplayOfKeysOnly(r, init, fields[..|fields| - 1]);
    }
    ReplayGathers(r, init, fields);
  }

  lemma ReplayAppend(r: Replay, init: Txid, fields: seq<AuthField>, f: AuthField)
    requires r.Fields(init, fields).Ok?
    ensures r.Fields(init, fields + [f]) == r.Field(r.Fields(init, fields).value, f)
  {
    assert (fields + [f])[..|fields|] == fields;
  }
}
