/** Order-independent multisig (src/tx/auth.rs): keys sign in any order, any sufficient set of them
    is enough, and further signatures never hurt. */
module TxOrderIndependent {
  import opened Prelude
  import opened Bytes
  import opened TxTypes
  import opened TxAuth
  import opened TxSigner

  /** The field a key contributes: its signature if it signed, its public key otherwise. */
  function Contribution(scheme: Scheme, presign: Txid, k: PrivateKey, signs: bool): AuthField
    requires scheme.sign(k, presign).Some?
  {
    if signs then SignatureField(EncodingOf(k.compressPublic), scheme.sign(k, presign).value)
    else PublicKeyField(scheme.PublicKeyOf(k))
  }

  function WithFields(c: SpendingCondition, fields: seq<AuthField>): SpendingCondition
    requires !c.Singlesig?
  {
    c.(fields := fields)
  }

  ghost predicate CanSign(scheme: Scheme, presign: Txid, keys: seq<PrivateKey>) {
    forall i | 0 <= i < |keys| :: scheme.sign(keys[i], presign).Some?
  }

  /** The record in which exactly the keys at the positions in `signed` have signed. */
  ghost function Assembled(scheme: Scheme, presign: Txid, keys: seq<PrivateKey>, signed: set<nat>): (r: seq<AuthField>)
    requires CanSign(scheme, presign, keys)
    ensures |r| == |keys|
  {
    if keys == [] then []
    else
      var n := |keys| - 1;
      Assembled(scheme, presign, keys[..n], signed) + [Contribution(scheme, presign, keys[n], n in signed)]
  }

  function PublicKeys(scheme: Scheme, keys: seq<PrivateKey>): seq<PublicKey> {
    if keys == [] then []
    else PublicKeys(scheme, keys[..|keys| - 1]) + [scheme.PublicKeyOf(keys[|keys| - 1])]
  }

  /** The positions in `signed` below `n`. */
  function Below(signed: set<nat>, n: nat): (r: set<nat>)
    ensures forall i: nat :: i in r <==> i in signed && i < n
  {
    set i | i in signed && i < n
  }

  lemma BelowGrows(signed: set<nat>, n: nat)
    ensures |Below(signed, n + 1)| == |Below(signed, n)| + (if n in signed then 1 else 0)
  {
    if n in signed {
      assert Below(signed, n + 1) == Below(signed, n) + {n};
    } else {
      assert Below(signed, n + 1) == Below(signed, n);
    }
  }

  lemma SubsetCount(a: set<nat>, b: set<nat>)
    requires a <= b
    ensures |a| <= |b|
  {
    assert b == a + (b - a);
    assert |b| == |a| + |b - a|;
  }

  /** Whoever signed, the replay recovers every key in its place and stays at the initial sighash. */
  lemma {:induction false} AssembledReplays(
      r: Replay, init: Txid, keys: seq<PrivateKey>, signed: set<nat>)
    requires r.scheme.Lawful() && !r.rolling
    requires CanSign(r.scheme, Presign(r.scheme, init, r.flag, r.fee, r.nonce), keys)
    requires |Below(signed, |keys|)| <= MAX_U16
    ensures
      var fields := Assembled(r.scheme, Presign(r.scheme, init, r.flag, r.fee, r.nonce), keys, signed);
      var g := r.Fields(init, fields);
      && g.Ok? && g.value.keys == PublicKeys(r.scheme, keys) && g.value.sighash == init
      && g.value.numSigs == |Below(signed, |keys|)|
  {
    var presign := Presign(r.scheme, init, r.flag, r.fee, r.nonce);
    if keys == [] {
      assert Below(signed, 0) == {};
    } else {
      var n := |keys| - 1;
      BelowGrows(signed, n);
      AssembledReplays(r, init, keys[..n], signed);
      ReplayAppend(r, init, Assembled(r.scheme, presign, keys[..n], signed),
                   Contribution(r.scheme, presign, keys[n], n in signed));
      assert NextSignature(r.scheme, init, r.flag, r.fee, r.nonce, keys[n]).Ok?;
      LinkAgrees(r.scheme, init, r.flag, r.fee, r.nonce, keys[n], EncodingOf(keys[n].compressPublic));
    }
  }

  /** A set of signers is accepted exactly when it is large enough, countable, and the address is
      that of all the keys. */
  lemma AnySignersSuffice(
      scheme: Scheme, c: SpendingCondition, init: Txid, flag: AuthFlag, keys: seq<PrivateKey>, signed: set<nat>)
    requires scheme.Lawful() && c.OrderIndependentMultisig?
    requires CanSign(scheme, Presign(scheme, init, flag, c.txFee, c.nonce), keys)
    requires |Below(signed, |keys|)| <= MAX_U16
    ensures
      var fields := Assembled(scheme, Presign(scheme, init, flag, c.txFee, c.nonce), keys, signed);
      VerifyCondition(scheme, WithFields(c, fields), init, flag)
      == if |Below(signed, |keys|)| >= c.required && Owned(scheme, c, PublicKeys(scheme, keys)) then Ok(init)
         else Err(VerifyingError)
  {
    var fields := Assembled(scheme, Presign(scheme, init, flag, c.txFee, c.nonce), keys, signed);
    var r := ReplayOf(scheme, c, flag);
    AssembledReplays(r, init, keys, signed);
    ReplayGathers(r, init, fields);
    assert ReplayOf(scheme, WithFields(c, fields), flag) == r;
  }

  /** Acceptance is monotone in the set of signers, up to what a u16 counts. */
  lemma MoreSignersNeverHurt(
      scheme: Scheme, c: SpendingCondition, init: Txid, flag: AuthFlag, keys: seq<PrivateKey>,
      few: set<nat>, many: set<nat>)
    requires scheme.Lawful() && c.OrderIndependentMultisig?
    requires CanSign(scheme, Presign(scheme, init, flag, c.txFee, c.nonce), keys)
    requires few <= many && |Below(many, |keys|)| <= MAX_U16
    ensures
      var presign := Presign(scheme, init, flag, c.txFee, c.nonce);
      VerifyCondition(scheme, WithFields(c, Assembled(scheme, presign, keys, few)), init, flag).Ok? ==>
      VerifyCondition(scheme, WithFields(c, Assembled(scheme, presign, keys, many)), init, flag) == Ok(init)
  {
    SubsetCount(Below(few, |keys|), Below(many, |keys|));
    AnySignersSuffice(scheme, c, init, flag, keys, few);
    AnySignersSuffice(scheme, c, init, flag, keys, many);
  }

  /** One signature too many for a u16 is refused, however right it is. */
  lemma TooManySignersRefused(
      scheme: Scheme, c: SpendingCondition, init: Txid, flag: AuthFlag, keys: seq<PrivateKey>, signed: set<nat>)
    requires scheme.Lawful() && c.OrderIndependentMultisig?
    requires CanSign(scheme, Presign(scheme, init, flag, c.txFee, c.nonce), keys)
    requires |Below(signed, |keys|)| > MAX_U16
    ensures
      var fields := Assembled(scheme, Presign(scheme, init, flag, c.txFee, c.nonce), keys, signed);
      VerifyCondition(scheme, WithFields(c, fields), init, flag).Err?
  {
    var fields := Assembled(scheme, Presign(scheme, init, flag, c.txFee, c.nonce), keys, signed);
    var r := ReplayOf(scheme, WithFields(c, fields), flag);
    if r.Fields(init, fields).Ok? {
      ReplayGathers(r, init, fields);
      AssembledCount(scheme, Presign(scheme, init, flag, c.txFee, c.nonce), keys, signed);
    }
  }

  lemma {:induction false} AssembledCount(scheme: Scheme, presign: Txid, keys: seq<PrivateKey>, signed: set<nat>)
    requires CanSign(scheme, presign, keys)
    ensures CountSignatures(Assembled(scheme, presign, keys, signed)) == |Below(signed, |keys|)|
  {
    if keys == [] {
      assert Below(signed, 0) == {};
    } else {
      var n := |keys| - 1;
      BelowGrows(signed, n);
      AssembledCount(scheme, presign, keys[..n], signed);
      var most := Assembled(scheme, presign, keys[..n], signed);
      CountSignaturesAppend(most, Contribution(scheme, presign, keys[n], n in signed));
    }
  }

  /** Signing order is irrelevant: after any run that left the origin's turn open, the next key
      contributes the field it would have contributed first. */
  lemma SignatureIgnoresHistory(scheme: Scheme, tx: Transaction, ops: seq<Op>, k: PrivateKey)
    requires scheme.Lawful() && Unsigned(tx) && AcceptedWellKeyed(scheme, Run(NewSigner(scheme, tx), [], []), ops)
    requires tx.auth.origin.OrderIndependentMultisig?
    requires Step(scheme, Execute(scheme, Run(NewSigner(scheme, tx), [], []), ops).state, SignOrigin(k)).Ok?
    ensures
      var s := Execute(scheme, Run(NewSigner(scheme, tx), [], []), ops).state;
      var presign := Presign(scheme, VerifyBegin(scheme, tx), AuthStandard, tx.auth.origin.txFee, tx.auth.origin.nonce);
      && scheme.sign(k, presign).Some? && s.tx.auth.origin.OrderIndependentMultisig?
      && Step(scheme, s, SignOrigin(k)).value.tx.auth.origin
         == WithFields(s.tx.auth.origin, s.tx.auth.origin.fields + [Contribution(scheme, presign, k, true)])
      && Step(scheme, s, SignOrigin(k)).value.sighash == VerifyBegin(scheme, tx)
  {
    var start := Run(NewSigner(scheme, tx), [], []);
    NewSignerInStep(scheme, tx);
    RunsStayInStepIff(scheme, start, ops);
    SkeletonKept(scheme, start, ops);
    BeginningNeverMoves(scheme, start, ops);
    var end := Execute(scheme, start, ops);
    var t := end.state.tx;
    ReplayGathers(ReplayOf(scheme, t.auth.origin, AuthStandard), VerifyBegin(scheme, t), t.auth.origin.fields);
    if t.auth.Sponsored? {
      UnsignedReplaysInPlace(scheme, t.auth.sponsor, OriginEnd(scheme, t), OriginEnd(scheme, t), AuthSponsored,
                             end.sponsorKeys, end.state.sighash);
    }
  }

  /** The same for the sponsor, from any start in step: a sponsor key's field depends only on where the
      origin's record ends, which no operation moves once the sponsor's turn has come. */
  lemma SponsorSignatureIgnoresHistory(scheme: Scheme, start: Run, ops: seq<Op>, k: PrivateKey)
    requires scheme.Lawful() && InStep(scheme, start) && AcceptedWellKeyed(scheme, start, ops)
    requires start.state.tx.auth.Sponsored? && start.state.tx.auth.sponsor.OrderIndependentMultisig?
    requires Step(scheme, Execute(scheme, start, ops).state, SignSponsor(k)).Ok?
    ensures
      var s := Execute(scheme, start, ops).state;
      var c := start.state.tx.auth.sponsor;
      var presign := Presign(scheme, OriginEnd(scheme, s.tx), AuthSponsored, c.txFee, c.nonce);
      && scheme.sign(k, presign).Some? && s.tx.auth.Sponsored? && s.tx.auth.sponsor.OrderIndependentMultisig?
      && Step(scheme, s, SignSponsor(k)).value.tx.auth.sponsor
         == WithFields(s.tx.auth.sponsor, s.tx.auth.sponsor.fields + [Contribution(scheme, presign, k, true)])
      && Step(scheme, s, SignSponsor(k)).value.sighash == OriginEnd(scheme, s.tx)
      && (start.state.originDone ==> OriginEnd(scheme, s.tx) == OriginEnd(scheme, start.state.tx))
  {
    RunsStayInStepIff(scheme, start, ops);
    SkeletonKept(scheme, start, ops);
    var end := Execute(scheme, start, ops);
    var t := end.state.tx;
    ReplayGathers(ReplayOf(scheme, t.auth.sponsor, AuthSponsored), OriginEnd(scheme, t), t.auth.sponsor.fields);
    if start.state.originDone {
      OriginFrozen(scheme, start, ops);
      BeginningNeverMoves(scheme, start, ops);
    }
  }
}
