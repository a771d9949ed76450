/** That the signer does sign: exactly when each operation is accepted and what it leaves, and that signing
    with the right keys, in order, ends in a complete transaction that verifies
    (src/tx/transaction.rs). */
module TxHonest {
  import opened Prelude
  import opened Bytes
  import opened TxTypes
  import opened TxAuth
  import opened TxSigner
  import opened TxLayout
  import opened TxVerdict

  // ---------------------------------------------------------------- single steps

  /** The signatures a condition has, and how many it needs. */
  function Have(c: SpendingCondition): nat {
    if c.Singlesig? then (if c.signature == Zeros(65) then 0 else 1) else SignatureCount(c.fields)
  }

  function Need(c: SpendingCondition): nat {
    if c.Singlesig? then 1 else c.required
  }

  lemma FullIff(c: SpendingCondition)
    ensures c.NumSignatures() == Have(c) && c.SignaturesRequired() == Need(c)
    ensures Full(c) <==> Have(c) >= Need(c)
  {
    if !c.Singlesig? {
      CountedOneByOne(c.fields);
    }
  }

  /** A transaction is complete when each condition has what it needs and, under the overlap check, the
      sponsor has begun. */
  lemma CompleteIff(s: State)
    ensures Complete(s) <==>
              && Have(s.tx.auth.origin) >= Need(s.tx.auth.origin)
              && (s.tx.auth.Sponsored? ==>
                    && Have(s.tx.auth.sponsor) >= Need(s.tx.auth.sponsor)
                    && (s.originDone || !s.checkOverlap))
  {
    FullIff(s.tx.auth.origin);
    if s.tx.auth.Sponsored? {
      FullIff(s.tx.auth.sponsor);
    }
  }

  /** `d` is `c` with the signature recorded by a key of this encoding. */
  ghost predicate Recorded(c: SpendingCondition, d: SpendingCondition, compressed: bool, sig: Signature) {
    if c.Singlesig? then d == c.(signature := sig)
    else d == c.(fields := c.fields + [SignatureField(if compressed then Compressed else Uncompressed, sig)])
  }

  /** Signing a condition from `cur` leaves `d` and moves the sighash to `next`: the signature is over the
      flag, the fee and the nonce, and an order-independent condition keeps the sighash. */
  ghost predicate Signs(
      scheme: Scheme, c: SpendingCondition, cur: Txid, flag: byte, k: PrivateKey, d: SpendingCondition, next: Txid)
  {
    exists sig: Signature, signed: Txid, after: Txid ::
      && IsLink(scheme, cur, flag, c.txFee, c.nonce, EncodingCode(k.compressPublic), sig, signed, after)
      && scheme.sign(k, signed) == Some(sig) && Recorded(c, d, k.compressPublic, sig)
      && next == if c.OrderIndependentMultisig? then cur else after
  }

  lemma SigningIff(
      scheme: Scheme, c: SpendingCondition, cur: Txid, flag: AuthFlag, k: PrivateKey, d: SpendingCondition, next: Txid)
    ensures SignAndAppend(scheme, c, cur, flag, k) == Ok((d, next))
       <==> Signs(scheme, c, cur, FlagCode(flag.AuthSponsored?), k, d, next)
  {
    var code, encoding := FlagCode(flag.AuthSponsored?), EncodingCode(k.compressPublic);
    var link := NextSignature(scheme, cur, flag, c.txFee, c.nonce, k);
    if link.Ok? {
      SigningCovers(scheme, cur, flag, c.txFee, c.nonce, k, link.value.0, link.value.1);
    }
    if Signs(scheme, c, cur, code, k, d, next) {
      var sig: Signature, signed: Txid, after: Txid :|
        && IsLink(scheme, cur, code, c.txFee, c.nonce, encoding, sig, signed, after)
        && scheme.sign(k, signed) == Some(sig) && Recorded(c, d, k.compressPublic, sig)
        && next == if c.OrderIndependentMultisig? then cur else after;
      SigningCovers(scheme, cur, flag, c.txFee, c.nonce, k, sig, after);
    }
  }

  /** An origin signature is accepted exactly when the sponsor has not begun, the origin lacks a signature
      and the key can sign; the origin and the sighash change as `Signs` says and nothing else does. */
  lemma OriginSigned(scheme: Scheme, s: State, k: PrivateKey, t: State)
    ensures Step(scheme, s, SignOrigin(k)) == Ok(t) <==>
              && !(s.checkOverlap && s.originDone)
              && !(s.checkOversign && Have(s.tx.auth.origin) >= Need(s.tx.auth.origin))
              && t == s.(tx := s.tx.(auth := s.tx.auth.(origin := t.tx.auth.origin)), sighash := t.sighash)
              && Signs(scheme, s.tx.auth.origin, s.sighash, 4, k, t.tx.auth.origin, t.sighash)
  {
    FullIff(s.tx.auth.origin);
    SigningIff(scheme, s.tx.auth.origin, s.sighash, AuthStandard, k, t.tx.auth.origin, t.sighash);
  }

  /** A sponsor signature likewise, and it ends the origin's turn. */
  lemma SponsorSigned(scheme: Scheme, s: State, k: PrivateKey, t: State)
    ensures Step(scheme, s, SignSponsor(k)) == Ok(t) <==>
              && s.tx.auth.Sponsored? && t.tx.auth.Sponsored? && t.originDone
              && !(s.checkOversign && Have(s.tx.auth.sponsor) >= Need(s.tx.auth.sponsor))
              && t == s.(tx := s.tx.(auth := s.tx.auth.(sponsor := t.tx.auth.sponsor)), sighash := t.sighash,
                         originDone := true)
              && Signs(scheme, s.tx.auth.sponsor, s.sighash, 5, k, t.tx.auth.sponsor, t.sighash)
  {
    if s.tx.auth.Sponsored? && t.tx.auth.Sponsored? {
      FullIff(s.tx.auth.sponsor);
      SigningIff(scheme, s.tx.auth.sponsor, s.sighash, AuthSponsored, k, t.tx.auth.sponsor, t.sighash);
    }
  }

  // ---------------------------------------------------------------- signing according to plan

  /** How many operations of a plan sign. */
  function SignCount(ops: seq<Op>): nat {
    if ops == [] then 0
    else
      var op := ops[|ops| - 1];
      SignCount(ops[..|ops| - 1]) + (if op.SignOrigin? || op.SignSponsor? then 1 else 0)
  }

  function KeyOf(scheme: Scheme, op: Op): PublicKey {
    match op
    case SignOrigin(k) => PublicKey(scheme.pointOf(k.secret), k.compressPublic)
    case AppendOrigin(key) => key
    case SignSponsor(k) => PublicKey(scheme.pointOf(k.secret), k.compressPublic)
    case AppendSponsor(key) => key
  }

  /** The public keys of a plan, in order. */
  function KeysOf(scheme: Scheme, ops: seq<Op>): (r: seq<PublicKey>)
    ensures |r| == |ops|
  {
    seq(|ops|, i requires 0 <= i < |ops| => KeyOf(scheme, ops[i]))
  }

  lemma KeysOfPush(scheme: Scheme, ops: seq<Op>)
    requires ops != []
    ensures KeysOf(scheme, ops) == KeysOf(scheme, ops[..|ops| - 1]) + [KeyOf(scheme, ops[|ops| - 1])]
  {
  }

  /** The key of a signing operation can sign whatever it is given. */
  ghost predicate Able(scheme: Scheme, op: Op) {
    op.SignOrigin? || op.SignSponsor? ==> forall m: Txid :: scheme.sign(op.k, m).Some?
  }

  /** A plan for one condition: signatures by able keys and, under a multisig condition, public keys. */
  ghost predicate OriginPlan(scheme: Scheme, c: SpendingCondition, ops: seq<Op>) {
    forall i | 0 <= i < |ops| :: (ops[i].SignOrigin? || (ops[i].AppendOrigin? && !c.Singlesig?)) && Able(scheme, ops[i])
  }

  ghost predicate SponsorPlan(scheme: Scheme, c: SpendingCondition, ops: seq<Op>) {
    forall i | 0 <= i < |ops| ::
      (ops[i].SignSponsor? || (ops[i].AppendSponsor? && !c.Singlesig?)) && Able(scheme, ops[i])
  }

  ghost predicate Checking(s: State) {
    s.checkOversign && s.checkOverlap
  }

  lemma RecordedCounts(c: SpendingCondition, d: SpendingCondition, compressed: bool, sig: Signature)
    requires Recorded(c, d, compressed, sig) && sig != EMPTY_SIGNATURE && (c.Singlesig? ==> Have(c) == 0)
    ensures d.Singlesig? == c.Singlesig? && Have(d) == Have(c) + 1 && Need(d) == Need(c)
  {
    if !c.Singlesig? {
      CountSignaturesAppend(c.fields, SignatureField(if compressed then Compressed else Uncompressed, sig));
      CountedOneByOne(c.fields);
      CountedOneByOne(d.fields);
    }
  }

  lemma AppendedCounts(c: SpendingCondition, key: PublicKey)
    requires !c.Singlesig?
    ensures
      var d := c.(fields := c.fields + [PublicKeyField(key)]);
      AppendPublicKey(c, key) == Ok(d) && Have(d) == Have(c) && Need(d) == Need(c)
  {
    CountSignaturesAppend(c.fields, PublicKeyField(key));
    CountedOneByOne(c.fields);
    CountedOneByOne(c.fields + [PublicKeyField(key)]);
  }

  lemma SigningCounts(scheme: Scheme, c: SpendingCondition, cur: Txid, flag: AuthFlag, k: PrivateKey)
    requires scheme.Lawful() && Have(c) < Need(c) && forall m: Txid :: scheme.sign(k, m).Some?
    ensures
      var r := SignAndAppend(scheme, c, cur, flag, k);
      r.Ok? && r.value.0.Singlesig? == c.Singlesig? && Have(r.value.0) == Have(c) + 1 && Need(r.value.0) == Need(c)
  {
    var presign := Presign(scheme, cur, flag, c.txFee, c.nonce);
    SignaturesAreNotEmpty(scheme, k, presign);
    var r := SignAndAppend(scheme, c, cur, flag, k);
    RecordedCounts(c, r.value.0, k.compressPublic, scheme.sign(k, presign).value);
  }

  /** How far a plan for the origin has come. */
  ghost predicate OriginAt(start: Run, run: Run, keys: seq<PublicKey>, signed: nat) {
    var auth, was := run.state.tx.auth, start.state.tx.auth;
    && Checking(run.state) && !run.state.originDone && run.state.tx == start.state.tx.(auth := auth)
    && auth == was.(origin := auth.origin) && auth.origin.Singlesig? == was.origin.Singlesig?
    && Have(auth.origin) == signed && Need(auth.origin) == Need(was.origin)
    && run.originKeys == keys && run.sponsorKeys == start.sponsorKeys
  }

  lemma OriginOpRuns(scheme: Scheme, start: Run, run: Run, keys: seq<PublicKey>, signed: nat, op: Op)
    requires scheme.Lawful() && OriginAt(start, run, keys, signed) && Able(scheme, op)
    requires op.SignOrigin? || (op.AppendOrigin? && !run.state.tx.auth.origin.Singlesig?)
    requires op.SignOrigin? ==> signed < Need(start.state.tx.auth.origin)
    ensures OriginAt(start, Advance(scheme, run, op), keys + [KeyOf(scheme, op)],
                     signed + (if op.SignOrigin? then 1 else 0))
  {
    var c := run.state.tx.auth.origin;
    FullIff(c);
    if op.SignOrigin? {
      SigningCounts(scheme, c, run.state.sighash, AuthStandard, op.k);
    } else {
      AppendedCounts(c, op.key);
    }
  }

  lemma {:induction false} OriginPlanRuns(scheme: Scheme, start: Run, ops: seq<Op>)
    requires scheme.Lawful() && OriginPlan(scheme, start.state.tx.auth.origin, ops)
    requires OriginAt(start, start, [], 0) && SignCount(ops) <= Need(start.state.tx.auth.origin)
    ensures OriginAt(start, Execute(scheme, start, ops), KeysOf(scheme, ops), SignCount(ops))
  {
    if ops != [] {
      var most, op := ops[..|ops| - 1], ops[|ops| - 1];
      PlanFront(scheme, start.state.tx.auth.origin, ops);
      OriginPlanRuns(scheme, start, most);
      OriginOpRuns(scheme, start, Execute(scheme, start, most), KeysOf(scheme, most), SignCount(most), op);
      KeysOfPush(scheme, ops);
    }
  }

  lemma PlanFront(scheme: Scheme, c: SpendingCondition, ops: seq<Op>)
    requires ops != []
    ensures OriginPlan(scheme, c, ops) ==>
              && OriginPlan(scheme, c, ops[..|ops| - 1]) && Able(scheme, ops[|ops| - 1])
              && (ops[|ops| - 1].SignOrigin? || (ops[|ops| - 1].AppendOrigin? && !c.Singlesig?))
    ensures SponsorPlan(scheme, c, ops) ==>
              && SponsorPlan(scheme, c, ops[..|ops| - 1]) && Able(scheme, ops[|ops| - 1])
              && (ops[|ops| - 1].SignSponsor? || (ops[|ops| - 1].AppendSponsor? && !c.Singlesig?))
  {
  }

  /** How far a plan for the sponsor has come. */
  ghost predicate SponsorAt(start: Run, run: Run, keys: seq<PublicKey>, signed: nat) {
    var auth, was := run.state.tx.auth, start.state.tx.auth;
    && Checking(run.state) && auth.Sponsored? && was.Sponsored?
    && run.state.originDone == (start.state.originDone || signed > 0)
    && run.state.tx == start.state.tx.(auth := auth)
    && auth.origin == was.origin && auth.sponsor.Singlesig? == was.sponsor.Singlesig?
    && Have(auth.sponsor) == signed && Need(auth.sponsor) == Need(was.sponsor)
    && run.originKeys == start.originKeys && run.sponsorKeys == keys
  }

  lemma SponsorOpRuns(scheme: Scheme, start: Run, run: Run, keys: seq<PublicKey>, signed: nat, op: Op)
    requires scheme.Lawful() && SponsorAt(start, run, keys, signed) && Able(scheme, op)
    requires op.SignSponsor? || (op.AppendSponsor? && !run.state.tx.auth.sponsor.Singlesig?)
    requires op.SignSponsor? ==> signed < Need(start.state.tx.auth.sponsor)
    ensures SponsorAt(start, Advance(scheme, run, op), keys + [KeyOf(scheme, op)],
                      signed + (if op.SignSponsor? then 1 else 0))
  {
    var c := run.state.tx.auth.sponsor;
    FullIff(c);
    if op.SignSponsor? {
      SigningCounts(scheme, c, run.state.sighash, AuthSponsored, op.k);
    } else {
      AppendedCounts(c, op.key);
    }
  }

  lemma {:induction false} SponsorPlanRuns(scheme: Scheme, start: Run, ops: seq<Op>)
    requires scheme.Lawful() && start.state.tx.auth.Sponsored?
    requires SponsorPlan(scheme, start.state.tx.auth.sponsor, ops)
    requires SponsorAt(start, start, [], 0) && SignCount(ops) <= Need(start.state.tx.auth.sponsor)
    ensures SponsorAt(start, Execute(scheme, start, ops), KeysOf(scheme, ops), SignCount(ops))
  {
    if ops != [] {
      var most, op := ops[..|ops| - 1], ops[|ops| - 1];
      PlanFront(scheme, start.state.tx.auth.sponsor, ops);
      SponsorPlanRuns(scheme, start, most);
      SponsorOpRuns(scheme, start, Execute(scheme, start, most), KeysOf(scheme, most), SignCount(most), op);
      KeysOfPush(scheme, ops);
    }
  }

  lemma {:induction false} ExecuteAppend(scheme: Scheme, start: Run, a: seq<Op>, b: seq<Op>)
    ensures Execute(scheme, start, a + b) == Execute(scheme, Execute(scheme, start, a), b)
  {
    if b == [] {
      assert a + b == a;
    } else {
      assert (a + b)[..|a + b| - 1] == a + b[..|b| - 1];
      ExecuteAppend(scheme, start, a, b[..|b| - 1]);
    }
  }

  /** A plan for a whole transaction: the origin's, and the sponsor's if there is one. */
  ghost predicate Plan(scheme: Scheme, auth: Auth, origins: seq<Op>, sponsors: seq<Op>) {
    && OriginPlan(scheme, auth.origin, origins) && SignCount(origins) == Need(auth.origin)
    && (if auth.Standard? then sponsors == []
        else
          && SponsorPlan(scheme, auth.sponsor, sponsors) && SignCount(sponsors) == Need(auth.sponsor)
          && Need(auth.sponsor) > 0)
  }

  lemma PlanCompletes(scheme: Scheme, tx: Transaction, origins: seq<Op>, sponsors: seq<Op>)
    requires scheme.Lawful() && Unsigned(tx) && Plan(scheme, tx.auth, origins, sponsors)
    ensures
      var end := Execute(scheme, Run(NewSigner(scheme, tx), [], []), origins + sponsors);
      && Complete(end.state)
      && end.originKeys == KeysOf(scheme, origins) && end.sponsorKeys == KeysOf(scheme, sponsors)
  {
    var start := Run(NewSigner(scheme, tx), [], []);
    ExecuteAppend(scheme, start, origins, sponsors);
    OriginPlanRuns(scheme, start, origins);
    var mid := Execute(scheme, start, origins);
    if tx.auth.Sponsored? {
      SponsorPlanRuns(scheme, mid, sponsors);
    } else {
      assert Execute(scheme, mid, sponsors) == mid;
    }
    CompleteIff(Execute(scheme, mid, sponsors).state);
  }

  /** A single-signature condition is signed by a key of the encoding it recorded. */
  predicate RightEncoding(c: SpendingCondition, ops: seq<Op>) {
    c.Singlesig? ==>
      forall i | 0 <= i < |ops| :: ops[i].SignOrigin? || ops[i].SignSponsor? ==>
        ops[i].k.compressPublic == c.keyEncoding.Compressed?
  }

  lemma {:induction false} KeyedIsAcceptedWell(scheme: Scheme, start: Run, ops: seq<Op>)
    requires forall i | 0 <= i < |ops| :: WellKeyed(start.state.tx.auth, ops[i])
    ensures AcceptedWellKeyed(scheme, start, ops)
  {
    if ops != [] {
      var most := ops[..|ops| - 1];
      KeyedIsAcceptedWell(scheme, start, most);
      SkeletonKept(scheme, start, most);
      KeyedBySkeleton(start.state.tx.auth, Execute(scheme, start, most).state.tx.auth, ops[|ops| - 1]);
    }
  }

  lemma KeyedBySkeleton(a: Auth, b: Auth, op: Op)
    requires SameSkeleton(a, b)
    ensures WellKeyed(a, op) == WellKeyed(b, op)
  {
    SkeletonEncoding(a.origin, b.origin);
    if a.Sponsored? {
      SkeletonEncoding(a.sponsor, b.sponsor);
    }
  }

  lemma SkeletonEncoding(c: SpendingCondition, d: SpendingCondition)
    requires Skeleton(c) == Skeleton(d)
    ensures c.Singlesig? == d.Singlesig? && (c.Singlesig? ==> c.keyEncoding == d.keyEncoding)
  {
    assert Skeleton(c).Singlesig? == c.Singlesig? && Skeleton(d).Singlesig? == d.Singlesig?;
  }

  /** The keys are those of the condition's address. */
  ghost predicate AddressOf(scheme: Scheme, c: SpendingCondition, keys: seq<PublicKey>) {
    if c.Singlesig? then
      scheme.addressHash(if c.singleMode.P2PKH? then SerializeP2PKH else SerializeP2WPKH, 1, keys) == Some(c.signer)
    else KeysMatch(scheme, c, keys)
  }

  /** Main result.  An unsigned transaction signed according to plan, by keys that can sign, are those of its
      addresses and have the recorded encoding, is complete and verifies, and nothing else of it has
      changed. */
  lemma HonestRunVerifies(scheme: Scheme, tx: Transaction, origins: seq<Op>, sponsors: seq<Op>)
    requires scheme.Lawful() && Unsigned(tx) && Plan(scheme, tx.auth, origins, sponsors)
    requires AddressOf(scheme, tx.auth.origin, KeysOf(scheme, origins)) && RightEncoding(tx.auth.origin, origins)
    requires tx.auth.Sponsored? ==>
      && AddressOf(scheme, tx.auth.sponsor, KeysOf(scheme, sponsors)) && RightEncoding(tx.auth.sponsor, sponsors)
    ensures
      var end := Execute(scheme, Run(NewSigner(scheme, tx), [], []), origins + sponsors);
      && Complete(end.state) && Verify(scheme, end.state.tx) == Ok(end.state.sighash)
      && end.state.tx == tx.(auth := end.state.tx.auth) && SameSkeleton(tx.auth, end.state.tx.auth)
  {
    var start := Run(NewSigner(scheme, tx), [], []);
    PlanCompletes(scheme, tx, origins, sponsors);
    PlanIsKeyed(scheme, tx.auth, origins, sponsors);
    KeyedIsAcceptedWell(scheme, start, origins + sponsors);
    SkeletonKept(scheme, start, origins + sponsors);
    OwnsAddress(scheme, tx.auth.origin, KeysOf(scheme, origins));
    if tx.auth.Sponsored? {
      OwnsAddress(scheme, tx.auth.sponsor, KeysOf(scheme, sponsors));
    }
    SignedRunVerifies(scheme, tx, origins + sponsors);
  }

  lemma OwnsAddress(scheme: Scheme, c: SpendingCondition, keys: seq<PublicKey>)
    requires AddressOf(scheme, c, keys)
    ensures Owned(scheme, c, keys)
  {
  }

  lemma PlanIsKeyed(scheme: Scheme, auth: Auth, origins: seq<Op>, sponsors: seq<Op>)
    requires Plan(scheme, auth, origins, sponsors) && RightEncoding(auth.origin, origins)
    requires auth.Sponsored? ==> RightEncoding(auth.sponsor, sponsors)
    ensures forall i | 0 <= i < |origins + sponsors| :: WellKeyed(auth, (origins + sponsors)[i])
  {
    forall i | 0 <= i < |origins + sponsors| ensures WellKeyed(auth, (origins + sponsors)[i]) {
      if i < |origins| {
        assert origins[i] == (origins + sponsors)[i];
      } else {
        assert sponsors[i - |origins|] == (origins + sponsors)[i];
      }
    }
  }

  /** A sponsor that needs no signature can give none, so with the checks on the transaction is never
      complete. */
  lemma {:induction false} NeedlessSponsorNeverCompletes(scheme: Scheme, start: Run, ops: seq<Op>)
    requires Checking(start.state) && !start.state.originDone
    requires start.state.tx.auth.Sponsored? && Need(start.state.tx.auth.sponsor) == 0
    ensures
      var end := Execute(scheme, start, ops);
      && Checking(end.state) && !end.state.originDone && end.state.tx.auth.Sponsored?
      && Need(end.state.tx.auth.sponsor) == 0 && !Complete(end.state)
  {
    if ops != [] {
      NeedlessSponsorNeverCompletes(scheme, start, ops[..|ops| - 1]);
      FullIff(Execute(scheme, start, ops[..|ops| - 1]).state.tx.auth.sponsor);
    }
  }

  /** Once the origin has signed according to plan, a sponsor of its own choosing takes over and goes on
      from the very sighash the origin's signer had reached. */
  lemma HandOverSucceeds(scheme: Scheme, tx: Transaction, origins: seq<Op>, sponsor: SpendingCondition)
    requires scheme.Lawful() && Unsigned(tx) && tx.auth.Sponsored?
    requires OriginPlan(scheme, tx.auth.origin, origins) && SignCount(origins) == Need(tx.auth.origin)
    requires AddressOf(scheme, tx.auth.origin, KeysOf(scheme, origins)) && RightEncoding(tx.auth.origin, origins)
    ensures
      var end := Execute(scheme, Run(NewSigner(scheme, tx), [], []), origins).state;
      && end.tx.auth.Sponsored?
      && NewSponsorSigner(scheme, end.tx, sponsor)
         == Ok(State(end.tx.(auth := end.tx.auth.(sponsor := sponsor)), end.sighash, true, true, true))
  {
    var start := Run(NewSigner(scheme, tx), [], []);
    var end := Execute(scheme, start, origins);
    NewSignerInStep(scheme, tx);
    forall i | 0 <= i < |origins| ensures WellKeyed(tx.auth, origins[i]) {
      assert origins[i].SignOrigin? || origins[i].AppendOrigin?;
    }
    KeyedIsAcceptedWell(scheme, start, origins);
    RunsStayInStepIff(scheme, start, origins);
    OriginPlanRuns(scheme, start, origins);
    SkeletonKept(scheme, start, origins);
    OwnsAddress(scheme, tx.auth.origin, KeysOf(scheme, origins));
    OwnedBySkeleton(scheme, tx.auth.origin, end.state.tx.auth.origin, end.originKeys);
    TakenOver(scheme, end, sponsor);
  }

  lemma TakenOver(scheme: Scheme, run: Run, sponsor: SpendingCondition)
    requires scheme.Lawful() && InStep(scheme, run) && run.state.tx.auth.Sponsored?
    requires !run.state.originDone && Have(run.state.tx.auth.origin) >= Need(run.state.tx.auth.origin)
    requires Owned(scheme, run.state.tx.auth.origin, run.originKeys)
    ensures
      var tx := run.state.tx;
      NewSponsorSigner(scheme, tx, sponsor)
      == Ok(State(tx.(auth := tx.auth.(sponsor := sponsor)), run.state.sighash, true, true, true))
  {
    var tx, mid := run.state.tx, OriginEnd(scheme, run.state.tx);
    FullIff(tx.auth.origin);
    VerifyReplayed(scheme, tx.auth.origin, VerifyBegin(scheme, tx), AuthStandard, run.originKeys, mid);
    UnsignedReplaysInPlace(scheme, tx.auth.sponsor, mid, mid, AuthSponsored, run.sponsorKeys, run.state.sighash);
    var swapped := tx.(auth := tx.auth.(sponsor := sponsor));
    assert VerifyBegin(scheme, swapped) == VerifyBegin(scheme, tx);
  }
}
