/** The verifier's verdict spelled out: a condition is accepted if and only if there is a chain of links
    from the first sighash that recovers the keys of its address (src/tx/auth.rs). */
module TxVerdict {
  import opened Prelude
  import opened Bytes
  import opened TxTypes
  import opened TxAuth
  import opened TxLayout
  import opened TxTexts

  /** How many of the fields are signatures. */
  function SignatureCount(fields: seq<AuthField>): nat {
    |set i | 0 <= i < |fields| && fields[i].SignatureField?|
  }

  lemma {:induction false} CountedOneByOne(fields: seq<AuthField>)
    ensures CountSignatures(fields) == SignatureCount(fields)
  {
    if fields != [] {
      var n := |fields| - 1;
      CountedOneByOne(fields[..n]);
      var all := set i | 0 <= i < |fields| && fields[i].SignatureField?;
      var most := set i | 0 <= i < n && fields[..n][i].SignatureField?;
      assert all == if fields[n].SignatureField? then most + {n} else most;
    }
  }

  /** One recorded field takes the sighash from `cur` to `next` and gives one key: a public key leaves the
      sighash alone, and so does a signature of an order-independent condition. */
  ghost predicate IsFieldStep(
      scheme: Scheme, c: SpendingCondition, flag: byte, f: AuthField, cur: Txid, key: PublicKey, next: Txid)
  {
    match f
    case PublicKeyField(listed) => key == listed && next == cur
    case SignatureField(encoding, sig) =>
      && key.compressed == encoding.Compressed?
      && exists signed: Txid, after: Txid ::
           && IsLink(scheme, cur, flag, c.txFee, c.nonce, EncodingCode(encoding.Compressed?), sig, signed, after)
           && scheme.recover(signed, sig) == Some(key.point)
           && next == if c.OrderIndependentMultisig? then cur else after
  }

  /** `keys` are recovered field by field while the sighash goes through `hashes`. */
  ghost predicate IsChain(
      scheme: Scheme, c: SpendingCondition, flag: byte, fields: seq<AuthField>, init: Txid,
      keys: seq<PublicKey>, hashes: seq<Txid>)
  {
    && |keys| == |fields| && |hashes| == |fields| + 1 && hashes[0] == init
    && forall i | 0 <= i < |fields| :: IsFieldStep(scheme, c, flag, fields[i], hashes[i], keys[i], hashes[i + 1])
  }

  /** When a condition is accepted and at which sighash. */
  ghost predicate Accepts(scheme: Scheme, c: SpendingCondition, init: Txid, flag: byte, end: Txid) {
    if c.Singlesig? then AcceptsOne(scheme, c, init, flag, end) else AcceptsMany(scheme, c, init, flag, end)
  }

  ghost predicate AcceptsOne(scheme: Scheme, c: SpendingCondition, init: Txid, flag: byte, end: Txid)
    requires c.Singlesig?
  {
    var mode := if c.singleMode.P2PKH? then SerializeP2PKH else SerializeP2WPKH;
    exists signed: Txid, point: Point ::
      && IsLink(scheme, init, flag, c.txFee, c.nonce, EncodingCode(c.keyEncoding.Compressed?), c.signature,
                signed, end)
      && scheme.recover(signed, c.signature) == Some(point)
      && scheme.addressHash(mode, 1, [PublicKey(point, c.keyEncoding.Compressed?)]) == Some(c.signer)
  }

  ghost predicate AcceptsMany(scheme: Scheme, c: SpendingCondition, init: Txid, flag: byte, end: Txid)
    requires !c.Singlesig?
  {
    && SignatureCount(c.fields) <= 65535
    && (if c.Multisig? then SignatureCount(c.fields) == c.required else SignatureCount(c.fields) >= c.required)
    && exists keys: seq<PublicKey>, hashes: seq<Txid> ::
         && IsChain(scheme, c, flag, c.fields, init, keys, hashes) && end == hashes[|c.fields|]
         && KeysMatch(scheme, c, keys)
  }

  /** The keys are those of the address, and all compressed where the address is a witness script's. */
  ghost predicate KeysMatch(scheme: Scheme, c: SpendingCondition, keys: seq<PublicKey>)
    requires !c.Singlesig?
  {
    && (c.multiMode.P2WSH? ==> forall i | 0 <= i < |keys| :: keys[i].compressed)
    && scheme.addressHash(if c.multiMode.P2SH? then SerializeP2SH else SerializeP2WSH, c.required, keys)
       == Some(c.signer)
  }

  // ---------------------------------------------------------------- the fold finds exactly the chains

  /** The gathered state after one more field. */
  function Extended(acc: Gathered, f: AuthField, key: PublicKey, next: Txid): Gathered {
    Gathered(acc.keys + [key], next, acc.numSigs + (if f.SignatureField? then 1 else 0),
             acc.uncompressed || !key.compressed)
  }

  lemma SignatureStepIff(
      scheme: Scheme, c: SpendingCondition, flag: AuthFlag, cur: Txid, f: AuthField, key: PublicKey, next: Txid)
    requires f.SignatureField?
    ensures
      var link := NextVerification(scheme, cur, flag, c.txFee, c.nonce, f.encoding, f.sig);
      IsFieldStep(scheme, c, FlagCode(flag.AuthSponsored?), f, cur, key, next) <==>
        link.Ok? && link.value.0 == key && next == (if c.OrderIndependentMultisig? then cur else link.value.1)
  {
    var code, byte: byte := FlagCode(flag.AuthSponsored?), EncodingCode(f.encoding.Compressed?);
    var link := NextVerification(scheme, cur, flag, c.txFee, c.nonce, f.encoding, f.sig);
    if link.Ok? {
      VerifyingCovers(scheme, cur, flag, c.txFee, c.nonce, f.encoding, f.sig, link.value.0, link.value.1);
    }
    if IsFieldStep(scheme, c, code, f, cur, key, next) {
      var signed: Txid, after: Txid :|
        && IsLink(scheme, cur, code, c.txFee, c.nonce, byte, f.sig, signed, after)
        && scheme.recover(signed, f.sig) == Some(key.point)
        && next == if c.OrderIndependentMultisig? then cur else after;
      VerifyingCovers(scheme, cur, flag, c.txFee, c.nonce, f.encoding, f.sig, key, after);
    }
  }

  lemma FieldStepIff(
      scheme: Scheme, c: SpendingCondition, flag: AuthFlag, acc: Gathered, f: AuthField, key: PublicKey, next: Txid)
    requires acc.numSigs < MAX_U16
    ensures IsFieldStep(scheme, c, FlagCode(flag.AuthSponsored?), f, acc.sighash, key, next) <==>
              ReplayOf(scheme, c, flag).Field(acc, f) == Ok(Extended(acc, f, key, next))
  {
    assert (acc.keys + [key])[|acc.keys|] == key;
    if f.PublicKeyField? {
      assert (acc.keys + [f.key])[|acc.keys|] == f.key;
    } else {
      SignatureStepIff(scheme, c, flag, acc.sighash, f, key, next);
      var link := NextVerification(scheme, acc.sighash, flag, c.txFee, c.nonce, f.encoding, f.sig);
      if link.Ok? {
        assert (acc.keys + [link.value.0])[|acc.keys|] == link.value.0;
      }
    }
  }

  /** Whatever chain there is, the fold follows it. */
  lemma {:induction false} ChainIsReplayed(
      scheme: Scheme, c: SpendingCondition, flag: AuthFlag, fields: seq<AuthField>, init: Txid,
      keys: seq<PublicKey>, hashes: seq<Txid>)
    requires IsChain(scheme, c, FlagCode(flag.AuthSponsored?), fields, init, keys, hashes)
    requires CountSignatures(fields) <= MAX_U16
    ensures
      var g := ReplayOf(scheme, c, flag).Fields(init, fields);
      && g.Ok? && g.value.keys == keys && g.value.sighash == hashes[|fields|]
      && g.value.numSigs == CountSignatures(fields)
  {
    if fields != [] {
      var n := |fields| - 1;
      var code := FlagCode(flag.AuthSponsored?);
      assert IsFieldStep(scheme, c, code, fields[n], hashes[n], keys[n], hashes[n + 1]);
      assert IsChain(scheme, c, code, fields[..n], init, keys[..n], hashes[..n + 1]);
      ChainIsReplayed(scheme, c, flag, fields[..n], init, keys[..n], hashes[..n + 1]);
      var acc := ReplayOf(scheme, c, flag).Fields(init, fields[..n]).value;
      assert keys == keys[..n] + [keys[n]];
      StepFollowed(scheme, c, flag, acc, fields[n], keys[n], hashes[n + 1]);
    }
  }

  lemma StepFollowed(
      scheme: Scheme, c: SpendingCondition, flag: AuthFlag, acc: Gathered, f: AuthField, key: PublicKey, next: Txid)
    requires IsFieldStep(scheme, c, FlagCode(flag.AuthSponsored?), f, acc.sighash, key, next)
    requires acc.numSigs + (if f.SignatureField? then 1 else 0) <= MAX_U16
    ensures ReplayOf(scheme, c, flag).Field(acc, f) == Ok(Extended(acc, f, key, next))
  {
    if acc.numSigs < MAX_U16 {
      FieldStepIff(scheme, c, flag, acc, f, key, next);
    }
  }

  /** Whatever the fold gathers, it gathered along a chain. */
  lemma {:induction false} ReplayIsChain(
      scheme: Scheme, c: SpendingCondition, flag: AuthFlag, fields: seq<AuthField>, init: Txid)
    returns (hashes: seq<Txid>)
    requires ReplayOf(scheme, c, flag).Fields(init, fields).Ok?
    ensures
      var g := ReplayOf(scheme, c, flag).Fields(init, fields).value;
      && IsChain(scheme, c, FlagCode(flag.AuthSponsored?), fields, init, g.keys, hashes)
      && hashes[|fields|] == g.sighash
  {
    if fields == [] {
      hashes := [init];
    } else {
      var n := |fields| - 1;
      var code := FlagCode(flag.AuthSponsored?);
      var before := ReplayIsChain(scheme, c, flag, fields[..n], init);
      var r := ReplayOf(scheme, c, flag);
      var acc, g := r.Fields(init, fields[..n]).value, r.Fields(init, fields).value;
      var key := StepTaken(scheme, c, flag, acc, fields[n], g);
      hashes := before + [g.sighash];
      ChainPush(scheme, c, code, fields, init, acc.keys, before, key, g.sighash);
    }
  }

  lemma ChainPush(
      scheme: Scheme, c: SpendingCondition, flag: byte, fields: seq<AuthField>, init: Txid,
      keys: seq<PublicKey>, hashes: seq<Txid>, key: PublicKey, next: Txid)
    requires fields != [] && IsChain(scheme, c, flag, fields[..|fields| - 1], init, keys, hashes)
    requires IsFieldStep(scheme, c, flag, fields[|fields| - 1], hashes[|fields| - 1], key, next)
    ensures IsChain(scheme, c, flag, fields, init, keys + [key], hashes + [next])
  {
    var n := |fields| - 1;
    var allKeys, allHashes := keys + [key], hashes + [next];
    forall i | 0 <= i < |fields|
      ensures IsFieldStep(scheme, c, flag, fields[i], allHashes[i], allKeys[i], allHashes[i + 1])
    {
      if i < n {
        assert IsFieldStep(scheme, c, flag, fields[..n][i], hashes[i], keys[i], hashes[i + 1]);
      }
    }
  }

  lemma StepTaken(scheme: Scheme, c: SpendingCondition, flag: AuthFlag, acc: Gathered, f: AuthField, g: Gathered)
    returns (key: PublicKey)
    requires ReplayOf(scheme, c, flag).Field(acc, f) == Ok(g)
    ensures g.keys == acc.keys + [key]
    ensures IsFieldStep(scheme, c, FlagCode(flag.AuthSponsored?), f, acc.sighash, key, g.sighash)
  {
    key := g.keys[|acc.keys|];
    if f.SignatureField? {
      SignatureStepIff(scheme, c, flag, acc.sighash, f, key, g.sighash);
    }
  }

  // ---------------------------------------------------------------- the verdict

  lemma OneVerifiesIff(scheme: Scheme, c: SpendingCondition, init: Txid, flag: AuthFlag, end: Txid)
    requires c.Singlesig?
    ensures VerifyCondition(scheme, c, init, flag) == Ok(end)
       <==> AcceptsOne(scheme, c, init, FlagCode(flag.AuthSponsored?), end)
  {
    var code, byte: byte := FlagCode(flag.AuthSponsored?), EncodingCode(c.keyEncoding.Compressed?);
    var link := NextVerification(scheme, init, flag, c.txFee, c.nonce, c.keyEncoding, c.signature);
    if link.Ok? {
      VerifyingCovers(scheme, init, flag, c.txFee, c.nonce, c.keyEncoding, c.signature, link.value.0, link.value.1);
    }
    if AcceptsOne(scheme, c, init, code, end) {
      var signed: Txid, point: Point :|
        && IsLink(scheme, init, code, c.txFee, c.nonce, byte, c.signature, signed, end)
        && scheme.recover(signed, c.signature) == Some(point)
        && scheme.addressHash(if c.singleMode.P2PKH? then SerializeP2PKH else SerializeP2WPKH, 1,
                              [PublicKey(point, c.keyEncoding.Compressed?)]) == Some(c.signer);
      var key := PublicKey(point, c.keyEncoding.Compressed?);
      VerifyingCovers(scheme, init, flag, c.txFee, c.nonce, c.keyEncoding, c.signature, key, end);
    }
  }

  lemma ManyVerifyIff(scheme: Scheme, c: SpendingCondition, init: Txid, flag: AuthFlag, end: Txid)
    requires !c.Singlesig?
    ensures VerifyCondition(scheme, c, init, flag) == Ok(end)
       <==> AcceptsMany(scheme, c, init, FlagCode(flag.AuthSponsored?), end)
  {
    var r := ReplayOf(scheme, c, flag);
    CountedOneByOne(c.fields);
    if r.Fields(init, c.fields).Ok? {
      ReplayGathers(r, init, c.fields);
      var hashes := ReplayIsChain(scheme, c, flag, c.fields, init);
      AcceptedKeys(scheme, c, r.Fields(init, c.fields).value);
    }
    if AcceptsMany(scheme, c, init, FlagCode(flag.AuthSponsored?), end) {
      var keys: seq<PublicKey>, hashes: seq<Txid> :|
        && IsChain(scheme, c, FlagCode(flag.AuthSponsored?), c.fields, init, keys, hashes)
        && end == hashes[|c.fields|] && KeysMatch(scheme, c, keys);
      ChainIsReplayed(scheme, c, flag, c.fields, init, keys, hashes);
    }
  }

  lemma AcceptedKeys(scheme: Scheme, c: SpendingCondition, g: Gathered)
    requires !c.Singlesig? && (g.uncompressed <==> exists i | 0 <= i < |g.keys| :: !g.keys[i].compressed)
    ensures MultisigAccepts(scheme, c, g) <==>
              && (if c.Multisig? then g.numSigs == c.required else g.numSigs >= c.required)
              && KeysMatch(scheme, c, g.keys)
  {
  }

  /** A condition verifies if and only if its signatures form a chain from the first sighash that recovers
      the keys of its address, in its number. */
  lemma ConditionVerifiesIff(scheme: Scheme, c: SpendingCondition, init: Txid, flag: AuthFlag, end: Txid)
    ensures VerifyCondition(scheme, c, init, flag) == Ok(end)
       <==> Accepts(scheme, c, init, FlagCode(flag.AuthSponsored?), end)
  {
    if c.Singlesig? {
      OneVerifiesIff(scheme, c, init, flag, end);
    } else {
      ManyVerifyIff(scheme, c, init, flag, end);
    }
  }

  /** A transaction verifies if and only if its origin is accepted from the first sighash under flag 4 and
      its sponsor, if it has one, is accepted from there under flag 5. */
  lemma TransactionVerifiesIff(scheme: Scheme, tx: Transaction, t: seq<byte>, end: Txid)
    requires IsFirstText(t, tx)
    ensures Verify(scheme, tx) == Ok(end) <==>
              match tx.auth
              case Standard(origin) => Accepts(scheme, origin, scheme.hash(t), 4, end)
              case Sponsored(origin, sponsor) =>
                exists mid: Txid ::
                  Accepts(scheme, origin, scheme.hash(t), 4, mid) && Accepts(scheme, sponsor, mid, 5, end)
  {
    var first := VerifyBegin(scheme, tx);
    VerificationBegins(scheme, tx, t);
    match tx.auth
    case Standard(origin) => ConditionVerifiesIff(scheme, origin, first, AuthStandard, end);
    case Sponsored(origin, sponsor) =>
      var mid := VerifyCondition(scheme, origin, first, AuthStandard);
      if mid.Ok? {
        ConditionVerifiesIff(scheme, origin, first, AuthStandard, mid.value);
        ConditionVerifiesIff(scheme, sponsor, mid.value, AuthSponsored, end);
      }
      if other: Txid :| Accepts(scheme, origin, first, 4, other) && Accepts(scheme, sponsor, other, 5, end) {
        ConditionVerifiesIff(scheme, origin, first, AuthStandard, other);
      }
  }
}
