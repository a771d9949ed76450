/** The transaction signer (src/tx/transaction.rs): a state machine that appends signatures and
    public keys while it carries the sighash, and its agreement with the verifier. */
module TxSigner {
  import opened Prelude
  import opened Bytes
  import opened TxTypes
  import opened TxAuth

  // ---------------------------------------------------------------- the steps

  /** Signs `cur` and records the signature; an order-independent condition keeps the sighash. */
  function SignAndAppend(scheme: Scheme, c: SpendingCondition, cur: Txid, flag: AuthFlag, k: PrivateKey)
    : Result<(SpendingCondition, Txid), Error>
  {
    var (sig, next) :- NextSignature(scheme, cur, flag, c.txFee, c.nonce, k);
    var field := SignatureField(EncodingOf(k.compressPublic), sig);
    match c
    case Singlesig(_, _, _, _, _, _) => Ok((c.(signature := sig), next))
    case Multisig(_, _, _, _, _, _) => Ok((c.(fields := c.fields + [field]), next))
    case OrderIndependentMultisig(_, _, _, _, _, _) => Ok((c.(fields := c.fields + [field]), cur))
  }

  function AppendPublicKey(c: SpendingCondition, key: PublicKey): Result<SpendingCondition, Error> {
    if c.Singlesig? then Err(SigningError) else Ok(c.(fields := c.fields + [PublicKeyField(key)]))
  }

  datatype State = State(tx: Transaction, sighash: Txid, originDone: bool, checkOversign: bool, checkOverlap: bool)

  datatype Op =
    | SignOrigin(k: PrivateKey)
    | AppendOrigin(key: PublicKey)
    | SignSponsor(k: PrivateKey)
    | AppendSponsor(key: PublicKey)

  predicate Full(c: SpendingCondition) {
    c.NumSignatures() >= c.SignaturesRequired()
  }

  function Step(scheme: Scheme, s: State, op: Op): Result<State, Error> {
    var auth := s.tx.auth;
    match op
    case SignOrigin(k) =>
      if s.checkOverlap && s.originDone then Err(SigningError)
      else if s.checkOversign && Full(auth.origin) then Err(SigningError)
      else
        var (origin, next) :- SignAndAppend(scheme, auth.origin, s.sighash, AuthStandard, k);
        Ok(s.(tx := s.tx.(auth := auth.(origin := origin)), sighash := next))
    case AppendOrigin(key) =>
      if s.checkOverlap && s.originDone then Err(SigningError)
      else
        var origin :- AppendPublicKey(auth.origin, key);
        Ok(s.(tx := s.tx.(auth := auth.(origin := origin))))
    case SignSponsor(k) =>
      if auth.Standard? then Err(SigningError)
      else if s.checkOversign && Full(auth.sponsor) then Err(SigningError)
      else
        var (sponsor, next) :- SignAndAppend(scheme, auth.sponsor, s.sighash, AuthSponsored, k);
        Ok(s.(tx := s.tx.(auth := auth.(sponsor := sponsor)), sighash := next, originDone := true))
    case AppendSponsor(key) =>
      if auth.Standard? then Err(SigningError)
      else
        var sponsor :- AppendPublicKey(auth.sponsor, key);
        Ok(s.(tx := s.tx.(auth := auth.(sponsor := sponsor))))
  }

  function NewSigner(scheme: Scheme, tx: Transaction): State {
    State(tx, VerifyBegin(scheme, tx), false, true, true)
  }

  /** A sponsor takes over: its condition replaces the recorded one, and signing goes on from the
      sighash the origin's signatures verify to. */
  function NewSponsorSigner(scheme: Scheme, tx: Transaction, sponsor: SpendingCondition): Result<State, Error> {
    if tx.auth.Standard? then Err(IncompatibleSpendingCondition)
    else
      var swapped := tx.(auth := tx.auth.(sponsor := sponsor));
      var mid :- VerifyOrigin(scheme, swapped);
      Ok(State(swapped, mid, true, true, true))
  }

  predicate Complete(s: State) {
    match s.tx.auth
    case Standard(origin) => Full(origin)
    case Sponsored(origin, sponsor) => Full(origin) && Full(sponsor) && (s.originDone || !s.checkOverlap)
  }

  // ---------------------------------------------------------------- whole runs

  /** A state together with the keys supplied to each condition so far, in order. */
  datatype Run = Run(state: State, originKeys: seq<PublicKey>, sponsorKeys: seq<PublicKey>)

  /** A refused operation changes nothing. */
  function Advance(scheme: Scheme, run: Run, op: Op): Run {
    match Step(scheme, run.state, op)
    case Err(_) => run
    case Ok(s) =>
      match op
      case SignOrigin(k) => Run(s, run.originKeys + [scheme.PublicKeyOf(k)], run.sponsorKeys)
      case AppendOrigin(key) => Run(s, run.originKeys + [key], run.sponsorKeys)
      case SignSponsor(k) => Run(s, run.originKeys, run.sponsorKeys + [scheme.PublicKeyOf(k)])
      case AppendSponsor(key) => Run(s, run.originKeys, run.sponsorKeys + [key])
  }

  function Execute(scheme: Scheme, start: Run, ops: seq<Op>): Run {
    if ops == [] then start
    else Advance(scheme, Execute(scheme, start, ops[..|ops| - 1]), ops[|ops| - 1])
  }

  /** A single-signature condition records its key encoding up front; the key that signs it must
      have that encoding for the two sighashes to stay together. */
  predicate EncodingMatches(c: SpendingCondition, k: PrivateKey) {
    c.Singlesig? ==> c.keyEncoding == EncodingOf(k.compressPublic)
  }

  predicate WellKeyed(auth: Auth, op: Op) {
    match op
    case SignOrigin(k) => EncodingMatches(auth.origin, k)
    case SignSponsor(k) => auth.Sponsored? ==> EncodingMatches(auth.sponsor, k)
    case _ => true
  }

  /** An operation that is accepted has the recorded encoding. */
  predicate KeyedAt(scheme: Scheme, run: Run, op: Op) {
    Step(scheme, run.state, op).Ok? ==> WellKeyed(run.state.tx.auth, op)
  }

  /** Every accepted operation of a run has the recorded encoding; refused ones may offer any key. */
  predicate AcceptedWellKeyed(scheme: Scheme, start: Run, ops: seq<Op>) {
    if ops == [] then true
    else
      var most := ops[..|ops| - 1];
      AcceptedWellKeyed(scheme, start, most) && KeyedAt(scheme, Execute(scheme, start, most), ops[|ops| - 1])
  }

  /** Everything of a condition that signing leaves alone. */
  function Skeleton(c: SpendingCondition): SpendingCondition {
    if c.Singlesig? then c.(signature := EMPTY_SIGNATURE) else c.(fields := [])
  }

  ghost predicate SameSkeleton(a: Auth, b: Auth) {
    && a.Standard? == b.Standard?
    && Skeleton(a.origin) == Skeleton(b.origin)
    && (a.Sponsored? ==> Skeleton(a.sponsor) == Skeleton(b.sponsor))
  }

  /** A condition's record replays from `init` to `end`, recovering exactly `keys`; a sequential
      multisig record never holds more signatures than it needs. */
  ghost predicate Replays(
      scheme: Scheme, c: SpendingCondition, init: Txid, flag: AuthFlag, keys: seq<PublicKey>, end: Txid)
  {
    var g := ReplayCondition(scheme, c, init, flag);
    && g.Ok? && g.value.keys == keys && g.value.sighash == end
    && g.value.numSigs == c.NumSignatures()
    && (c.Multisig? ==> c.NumSignatures() <= c.required)
  }

  /** The verifier's view of how far the origin's record carries the sighash. */
  ghost function OriginEnd(scheme: Scheme, tx: Transaction): Txid {
    var g := ReplayCondition(scheme, tx.auth.origin, VerifyBegin(scheme, tx), AuthStandard);
    if g.Ok? then g.value.sighash else VerifyBegin(scheme, tx)
  }

  /** What every step keeps: the signer's sighash is the one the verifier reaches. */
  ghost predicate InStep(scheme: Scheme, run: Run) {
    var tx := run.state.tx;
    var mid := OriginEnd(scheme, tx);
    && run.state.checkOversign && run.state.checkOverlap
    && Replays(scheme, tx.auth.origin, VerifyBegin(scheme, tx), AuthStandard, run.originKeys, mid)
    && (tx.auth.Standard? ==> run.state.sighash == mid && run.sponsorKeys == [] && !run.state.originDone)
    && (tx.auth.Sponsored? ==>
          && Replays(scheme, tx.auth.sponsor, mid, AuthSponsored, run.sponsorKeys, run.state.sighash)
          && (!run.state.originDone ==> tx.auth.sponsor.NumSignatures() == 0))
  }

  lemma SkeletonFixesBeginning(scheme: Scheme, tx: Transaction, auth: Auth)
    requires SameSkeleton(tx.auth, auth)
    ensures VerifyBegin(scheme, tx.(auth := auth)) == VerifyBegin(scheme, tx)
  {
    assert tx.auth.InitialSighashAuth() == auth.InitialSighashAuth() by {
      ClearOfSkeleton(tx.auth.origin);
      ClearOfSkeleton(auth.origin);
    }
  }

  lemma ClearOfSkeleton(c: SpendingCondition)
    ensures Skeleton(c).Clear() == c.Clear()
  {
  }

  /** A condition with no signature yet replays to where it started, from anywhere. */
  lemma UnsignedReplaysInPlace(
      scheme: Scheme, c: SpendingCondition, init: Txid, init': Txid, flag: AuthFlag, keys: seq<PublicKey>, end: Txid)
    requires Replays(scheme, c, init, flag, keys, end)
    requires c.NumSignatures() == 0
    ensures end == init && Replays(scheme, c, init', flag, keys, init')
  {
    if !c.Singlesig? {
      var r := ReplayOf(scheme, c, flag);
      ReplayOfKeysOnly(r, init, c.fields);
      ReplayOfKeysOnly(r, init', c.fields);
    }
  }

  /** Signing one condition: the new record replays to the sighash the signer moves to. */
  lemma SigningKeepsReplay(
      scheme: Scheme, c: SpendingCondition, init: Txid, flag: AuthFlag, keys: seq<PublicKey>, cur: Txid, k: PrivateKey)
    requires scheme.Lawful()
    requires Replays(scheme, c, init, flag, keys, cur)
    requires !Full(c) && EncodingMatches(c, k)
    requires SignAndAppend(scheme, c, cur, flag, k).Ok?
    ensures
      var (c', next) := SignAndAppend(scheme, c, cur, flag, k).value;
      && Skeleton(c') == Skeleton(c)
      && Replays(scheme, c', init, flag, keys + [scheme.PublicKeyOf(k)], next)
  {
    var encoding := EncodingOf(k.compressPublic);
    LinkAgrees(scheme, cur, flag, c.txFee, c.nonce, k, encoding);
    if c.Singlesig? {
      assert keys + [scheme.PublicKeyOf(k)] == [scheme.PublicKeyOf(k)];
    } else {
      var sig := NextSignature(scheme, cur, flag, c.txFee, c.nonce, k).value.0;
      var r := ReplayOf(scheme, c, flag);
      ReplayAppend(r, init, c.fields, SignatureField(encoding, sig));
      CountSignaturesAppend(c.fields, SignatureField(encoding, sig));
    }
  }

  lemma AppendingKeepsReplay(
      scheme: Scheme, c: SpendingCondition, init: Txid, flag: AuthFlag, keys: seq<PublicKey>, end: Txid, key: PublicKey)
    requires Replays(scheme, c, init, flag, keys, end)
    requires AppendPublicKey(c, key).Ok?
    ensures
      var c' := AppendPublicKey(c, key).value;
      && Skeleton(c') == Skeleton(c) && c'.NumSignatures() == c.NumSignatures()
      && Replays(scheme, c', init, flag, keys + [key], end)
  {
    ReplayAppend(ReplayOf(scheme, c, flag), init, c.fields, PublicKeyField(key));
    CountSignaturesAppend(c.fields, PublicKeyField(key));
  }

  lemma OriginStepKeepsInStep(scheme: Scheme, run: Run, op: Op)
    requires scheme.Lawful() && InStep(scheme, run) && WellKeyed(run.state.tx.auth, op)
    requires op.SignOrigin? || op.AppendOrigin?
    ensures InStep(scheme, Advance(scheme, run, op))
  {
    var next := Step(scheme, run.state, op);
    if next.Ok? {
      var tx, tx' := run.state.tx, next.value.tx;
      var init, mid := VerifyBegin(scheme, tx), OriginEnd(scheme, tx);
      if op.SignOrigin? {
        if tx.auth.Sponsored? {
          UnsignedReplaysInPlace(scheme, tx.auth.sponsor, mid, next.value.sighash, AuthSponsored,
                                 run.sponsorKeys, run.state.sighash);
        }
        SigningKeepsReplay(scheme, tx.auth.origin, init, AuthStandard, run.originKeys, mid, op.k);
      } else {
        AppendingKeepsReplay(scheme, tx.auth.origin, init, AuthStandard, run.originKeys, mid, op.key);
      }
      SkeletonFixesBeginning(scheme, tx, tx'.auth);
    }
  }

  lemma SponsorStepKeepsInStep(scheme: Scheme, run: Run, op: Op)
    requires scheme.Lawful() && InStep(scheme, run) && WellKeyed(run.state.tx.auth, op)
    requires op.SignSponsor? || op.AppendSponsor?
    ensures InStep(scheme, Advance(scheme, run, op))
  {
    var next := Step(scheme, run.state, op);
    if next.Ok? {
      var tx, tx' := run.state.tx, next.value.tx;
      var mid := OriginEnd(scheme, tx);
      if op.SignSponsor? {
        SigningKeepsReplay(scheme, tx.auth.sponsor, mid, AuthSponsored, run.sponsorKeys, run.state.sighash, op.k);
      } else {
        AppendingKeepsReplay(scheme, tx.auth.sponsor, mid, AuthSponsored, run.sponsorKeys, run.state.sighash, op.key);
      }
      SkeletonFixesBeginning(scheme, tx, tx'.auth);
    }
  }

  lemma {:induction false} SkeletonKept(scheme: Scheme, start: Run, ops: seq<Op>)
    ensures
      var end := Execute(scheme, start, ops);
      && SameSkeleton(start.state.tx.auth, end.state.tx.auth)
      && end.state.tx == start.state.tx.(auth := end.state.tx.auth)
  {
    if ops != [] {
      var before := Execute(scheme, start, ops[..|ops| - 1]);
      SkeletonKept(scheme, start, ops[..|ops| - 1]);
      AdvanceKeepsSkeleton(scheme, before, ops[|ops| - 1]);
    }
  }

  lemma AdvanceKeepsSkeleton(scheme: Scheme, run: Run, op: Op)
    ensures
      var end := Advance(scheme, run, op);
      && SameSkeleton(run.state.tx.auth, end.state.tx.auth)
      && end.state.tx == run.state.tx.(auth := end.state.tx.auth)
  {
    var auth := run.state.tx.auth;
    match op
    case SignOrigin(k) => SigningKeepsSkeleton(scheme, auth.origin, run.state.sighash, AuthStandard, k);
    case SignSponsor(k) =>
      if auth.Sponsored? {
        SigningKeepsSkeleton(scheme, auth.sponsor, run.state.sighash, AuthSponsored, k);
      }
    case _ =>
  }

  lemma SigningKeepsSkeleton(scheme: Scheme, c: SpendingCondition, cur: Txid, flag: AuthFlag, k: PrivateKey)
    ensures
      var r := SignAndAppend(scheme, c, cur, flag, k);
      r.Ok? ==> Skeleton(r.value.0) == Skeleton(c)
  {
  }

  lemma AdvanceKeepsInStep(scheme: Scheme, run: Run, op: Op)
    requires scheme.Lawful() && InStep(scheme, run) && KeyedAt(scheme, run, op)
    ensures InStep(scheme, Advance(scheme, run, op))
  {
    if Step(scheme, run.state, op).Ok? {
      if op.SignOrigin? || op.AppendOrigin? {
        OriginStepKeepsInStep(scheme, run, op);
      } else {
        SponsorStepKeepsInStep(scheme, run, op);
      }
    }
  }

  /** A single signature by a key of the other encoding: the key it recovers to, which has the recorded
      encoding, is not the one supplied. */
  ghost predicate Mismatched(c: SpendingCondition, keys: seq<PublicKey>) {
    && c.Singlesig? && c.signature != EMPTY_SIGNATURE
    && |keys| == 1 && keys[0].compressed != c.keyEncoding.Compressed?
  }

  ghost predicate Broken(run: Run) {
    var auth := run.state.tx.auth;
    && run.state.checkOversign
    && (Mismatched(auth.origin, run.originKeys) || (auth.Sponsored? && Mismatched(auth.sponsor, run.sponsorKeys)))
  }

  lemma BrokenIsOutOfStep(scheme: Scheme, run: Run)
    requires Broken(run)
    ensures !InStep(scheme, run)
  {
  }

  /** Nothing can replace that signature. */
  lemma StaysBroken(scheme: Scheme, run: Run, op: Op)
    requires Broken(run)
    ensures Broken(Advance(scheme, run, op))
  {
  }

  lemma MismatchBreaks(scheme: Scheme, run: Run, op: Op)
    requires scheme.Lawful() && InStep(scheme, run) && !KeyedAt(scheme, run, op)
    ensures Broken(Advance(scheme, run, op))
  {
    var auth, k := run.state.tx.auth, op.k;
    var c := if op.SignOrigin? then auth.origin else auth.sponsor;
    var flag := if op.SignOrigin? then AuthStandard else AuthSponsored;
    SignaturesAreNotEmpty(scheme, k, Presign(scheme, run.state.sighash, flag, c.txFee, c.nonce));
  }

  /** A run is in step to its end, or a mismatched signature has broken it for good. */
  lemma {:induction false} InStepOrBroken(scheme: Scheme, start: Run, ops: seq<Op>)
    requires scheme.Lawful() && InStep(scheme, start)
    ensures AcceptedWellKeyed(scheme, start, ops) ==> InStep(scheme, Execute(scheme, start, ops))
    ensures !AcceptedWellKeyed(scheme, start, ops) ==> Broken(Execute(scheme, start, ops))
  {
    if ops != [] {
      var most, op := ops[..|ops| - 1], ops[|ops| - 1];
      var before := Execute(scheme, start, most);
      InStepOrBroken(scheme, start, most);
      if !AcceptedWellKeyed(scheme, start, most) {
        StaysBroken(scheme, before, op);
      } else if KeyedAt(scheme, before, op) {
        AdvanceKeepsInStep(scheme, before, op);
      } else {
        MismatchBreaks(scheme, before, op);
      }
    }
  }

  /** From any state in step, a run of signing operations, accepted or refused, ends in step if and only
      if every accepted one had the recorded encoding. */
  lemma RunsStayInStepIff(scheme: Scheme, start: Run, ops: seq<Op>)
    requires scheme.Lawful() && InStep(scheme, start)
    ensures InStep(scheme, Execute(scheme, start, ops)) <==> AcceptedWellKeyed(scheme, start, ops)
  {
    InStepOrBroken(scheme, start, ops);
    if !AcceptedWellKeyed(scheme, start, ops) {
      BrokenIsOutOfStep(scheme, Execute(scheme, start, ops));
    }
  }

  /** No signing step, and no swap of sponsors, moves the sighash the verifier begins from. */
  lemma BeginningNeverMoves(scheme: Scheme, start: Run, ops: seq<Op>)
    ensures VerifyBegin(scheme, Execute(scheme, start, ops).state.tx) == VerifyBegin(scheme, start.state.tx)
    ensures forall sponsor: SpendingCondition | start.state.tx.auth.Sponsored? ::
              VerifyBegin(scheme, start.state.tx.(auth := start.state.tx.auth.(sponsor := sponsor)))
              == VerifyBegin(scheme, start.state.tx)
  {
    SkeletonKept(scheme, start, ops);
    SkeletonFixesBeginning(scheme, start.state.tx, Execute(scheme, start, ops).state.tx.auth);
  }

  // ---------------------------------------------------------------- where runs begin

  predicate Unsigned(tx: Transaction) {
    tx.auth.origin.Unsigned() && (tx.auth.Sponsored? ==> tx.auth.sponsor.Unsigned())
  }

  lemma NewSignerInStep(scheme: Scheme, tx: Transaction)
    requires Unsigned(tx)
    ensures InStep(scheme, Run(NewSigner(scheme, tx), [], []))
  {
  }

  /** A take-over starts from the keys the verified origin was signed by.  It is in step exactly when
      the sponsor's record, empty or not, replays without moving the sighash. */
  lemma NewSponsorInStepIff(scheme: Scheme, tx: Transaction, sponsor: SpendingCondition, keys: seq<PublicKey>)
    requires scheme.Lawful() && NewSponsorSigner(scheme, tx, sponsor).Ok?
    ensures
      var s := NewSponsorSigner(scheme, tx, sponsor).value;
      var g := ReplayCondition(scheme, tx.auth.origin, VerifyBegin(scheme, tx), AuthStandard);
      && s.sighash == OriginEnd(scheme, tx) && g.Ok?
      && (InStep(scheme, Run(s, g.value.keys, keys)) <==>
            Replays(scheme, sponsor, s.sighash, AuthSponsored, keys, s.sighash))
  {
    var swapped := tx.(auth := tx.auth.(sponsor := sponsor));
    assert VerifyBegin(scheme, swapped) == VerifyBegin(scheme, tx);
    var init, c := VerifyBegin(scheme, tx), tx.auth.origin;
    if c.Singlesig? {
      assert scheme.recover(Presign(scheme, init, AuthStandard, c.txFee, c.nonce), EMPTY_SIGNATURE) == None;
    } else {
      ReplayGathers(ReplayOf(scheme, c, AuthStandard), init, c.fields);
    }
  }

  lemma UnsignedReplays(scheme: Scheme, c: SpendingCondition, init: Txid, flag: AuthFlag)
    requires c.Unsigned()
    ensures Replays(scheme, c, init, flag, [], init)
  {
  }

  // ---------------------------------------------------------------- what the verifier then says

  /** The address really is that of these keys, under the mode's compression rule. */
  ghost predicate Owned(scheme: Scheme, c: SpendingCondition, keys: seq<PublicKey>) {
    && AddressMatches(scheme, c, keys)
    && (!c.Singlesig? && c.multiMode.P2WSH? ==> forall i | 0 <= i < |keys| :: keys[i].compressed)
  }

  lemma VerifyReplayed(
      scheme: Scheme, c: SpendingCondition, init: Txid, flag: AuthFlag, keys: seq<PublicKey>, end: Txid)
    requires scheme.Lawful()
    requires Replays(scheme, c, init, flag, keys, end)
    ensures VerifyCondition(scheme, c, init, flag)
         == if Full(c) && Owned(scheme, c, keys) then Ok(end) else Err(VerifyingError)
  {
    if c.Singlesig? {
      assert scheme.recover(Presign(scheme, init, flag, c.txFee, c.nonce), EMPTY_SIGNATURE) == None;
    } else {
      ReplayGathers(ReplayOf(scheme, c, flag), init, c.fields);
    }
  }

  /** In a state in step, verification succeeds exactly when each condition has all its signatures
      and its address is the one of the keys supplied, in order; and the sighash it ends on is the
      signer's own. */
  lemma VerifyInStep(scheme: Scheme, run: Run)
    requires scheme.Lawful() && InStep(scheme, run)
    ensures
      var auth := run.state.tx.auth;
      Verify(scheme, run.state.tx) ==
      if && Full(auth.origin) && Owned(scheme, auth.origin, run.originKeys)
         && (auth.Sponsored? ==> Full(auth.sponsor) && Owned(scheme, auth.sponsor, run.sponsorKeys))
      then Ok(run.state.sighash) else Err(VerifyingError)
  {
    var tx := run.state.tx;
    var mid := OriginEnd(scheme, tx);
    VerifyReplayed(scheme, tx.auth.origin, VerifyBegin(scheme, tx), AuthStandard, run.originKeys, mid);
    if tx.auth.Sponsored? {
      VerifyReplayed(scheme, tx.auth.sponsor, mid, AuthSponsored, run.sponsorKeys, run.state.sighash);
    }
  }

  /** Main result.  Sign an unsigned transaction with any sequence of operations.  If the signer calls
      the result complete and each condition's address is that of the keys given to it, in order, the
      transaction verifies; if it is incomplete for lack of signatures, or an address is not that of
      the keys, it does not. */
  lemma SignedRunVerifies(scheme: Scheme, tx: Transaction, ops: seq<Op>)
    requires scheme.Lawful() && Unsigned(tx) && AcceptedWellKeyed(scheme, Run(NewSigner(scheme, tx), [], []), ops)
    ensures
      var end := Execute(scheme, Run(NewSigner(scheme, tx), [], []), ops);
      var auth := end.state.tx.auth;
      var owned := Owned(scheme, tx.auth.origin, end.originKeys)
                && (tx.auth.Sponsored? ==> Owned(scheme, tx.auth.sponsor, end.sponsorKeys));
      && (Complete(end.state) && owned ==> Verify(scheme, end.state.tx) == Ok(end.state.sighash))
      && (Verify(scheme, end.state.tx).Ok? ==> owned && Full(auth.origin) && (auth.Sponsored? ==> Full(auth.sponsor)))
  {
    var start := Run(NewSigner(scheme, tx), [], []);
    NewSignerInStep(scheme, tx);
    RunsStayInStepIff(scheme, start, ops);
    SkeletonKept(scheme, start, ops);
    var end := Execute(scheme, start, ops);
    VerifyInStep(scheme, end);
    OwnedBySkeleton(scheme, tx.auth.origin, end.state.tx.auth.origin, end.originKeys);
    if tx.auth.Sponsored? {
      OwnedBySkeleton(scheme, tx.auth.sponsor, end.state.tx.auth.sponsor, end.sponsorKeys);
    }
  }

  lemma OwnedBySkeleton(scheme: Scheme, a: SpendingCondition, b: SpendingCondition, keys: seq<PublicKey>)
    requires Skeleton(a) == Skeleton(b)
    ensures Owned(scheme, a, keys) == Owned(scheme, b, keys)
  {
    assert a.AddressMode() == b.AddressMode() && a.SignaturesRequired() == b.SignaturesRequired();
  }

  /** A sponsor may be swapped after the origin signed.  If its record replays in place, as an unsigned
      one does, the hand-over continues to a transaction that verifies under the same criterion. */
  lemma SwappedSponsorVerifies(
      scheme: Scheme, tx: Transaction, sponsor: SpendingCondition, keys: seq<PublicKey>, ops: seq<Op>)
    requires scheme.Lawful() && NewSponsorSigner(scheme, tx, sponsor).Ok?
    requires Replays(scheme, sponsor, OriginEnd(scheme, tx), AuthSponsored, keys, OriginEnd(scheme, tx))
    requires
      var start := Run(NewSponsorSigner(scheme, tx, sponsor).value, OriginKeys(scheme, tx), keys);
      AcceptedWellKeyed(scheme, start, ops)
    ensures
      var start := Run(NewSponsorSigner(scheme, tx, sponsor).value, OriginKeys(scheme, tx), keys);
      var end := Execute(scheme, start, ops);
      && end.state.tx.auth.Sponsored?
      && end.state.tx.auth.origin == tx.auth.origin
      && (Verify(scheme, end.state.tx).Ok? <==>
            Full(end.state.tx.auth.sponsor) && Owned(scheme, sponsor, end.sponsorKeys))
  {
    NewSponsorInStepIff(scheme, tx, sponsor, keys);
    var start := Run(NewSponsorSigner(scheme, tx, sponsor).value, OriginKeys(scheme, tx), keys);
    RunsStayInStepIff(scheme, start, ops);
    SkeletonKept(scheme, start, ops);
    OriginFrozen(scheme, start, ops);
    var end := Execute(scheme, start, ops);
    VerifyInStep(scheme, end);
    var init, mid := VerifyBegin(scheme, tx), OriginEnd(scheme, tx);
    VerifyReplayed(scheme, tx.auth.origin, init, AuthStandard, start.originKeys, mid);
    OwnedBySkeleton(scheme, sponsor, end.state.tx.auth.sponsor, end.sponsorKeys);
  }

  /** The usual case: the new sponsor has not signed. */
  lemma UnsignedSponsorVerifies(scheme: Scheme, tx: Transaction, sponsor: SpendingCondition, ops: seq<Op>)
    requires scheme.Lawful() && NewSponsorSigner(scheme, tx, sponsor).Ok? && sponsor.Unsigned()
    requires
      var start := Run(NewSponsorSigner(scheme, tx, sponsor).value, OriginKeys(scheme, tx), []);
      AcceptedWellKeyed(scheme, start, ops)
    ensures
      var start := Run(NewSponsorSigner(scheme, tx, sponsor).value, OriginKeys(scheme, tx), []);
      var end := Execute(scheme, start, ops);
      && end.state.tx.auth.Sponsored?
      && end.state.tx.auth.origin == tx.auth.origin
      && (Verify(scheme, end.state.tx).Ok? <==>
            Full(end.state.tx.auth.sponsor) && Owned(scheme, sponsor, end.sponsorKeys))
  {
    UnsignedReplays(scheme, sponsor, OriginEnd(scheme, tx), AuthSponsored);
    SwappedSponsorVerifies(scheme, tx, sponsor, [], ops);
  }

  ghost function OriginKeys(scheme: Scheme, tx: Transaction): seq<PublicKey> {
    var g := ReplayCondition(scheme, tx.auth.origin, VerifyBegin(scheme, tx), AuthStandard);
    if g.Ok? then g.value.keys else []
  }

  /** Once the sponsor's turn has come, no operation touches the origin. */
  lemma {:induction false} OriginFrozen(scheme: Scheme, start: Run, ops: seq<Op>)
    requires start.state.originDone && start.state.checkOverlap
    ensures
      var end := Execute(scheme, start, ops);
      && end.state.originDone && end.state.checkOverlap
      && end.state.tx.auth.origin == start.state.tx.auth.origin
      && end.originKeys == start.originKeys
  {
    if ops != [] {
      OriginFrozen(scheme, start, ops[..|ops| - 1]);
    }
  }

  // ---------------------------------------------------------------- the object that does it

  /** Counts the signatures of a condition; more than a u16 can count is a fatal error. */
  method NumSignatures(c: SpendingCondition) returns (n: nat)
    requires c.NumSignatures() <= MAX_U16
    ensures n == c.NumSignatures()
  {
    if c.Singlesig? {
      return if c.signature != EMPTY_SIGNATURE then 1 else 0;
    }
    n := 0;
    for i := 0 to |c.fields|
      invariant n == CountSignatures(c.fields[..i])
    {
      assert c.fields[..i + 1][..i] == c.fields[..i];
      if c.fields[i].SignatureField? {
        n := n + 1;
      }
    }
    assert c.fields[..|c.fields|] == c.fields;
  }

  /** Success, or the error. */
  function Outcome<T>(r: Result<T, Error>): Result<(), Error> {
    match r
    case Ok(_) => Ok(())
    case Err(e) => Err(e)
  }

  /** One operation keeps the signer and the verifier together exactly when it is refused or has the
      recorded encoding. */
  lemma AdvanceAgreesIff(scheme: Scheme, run: Run, op: Op)
    ensures scheme.Lawful() && InStep(scheme, run) ==>
              (InStep(scheme, Advance(scheme, run, op)) <==> KeyedAt(scheme, run, op))
  {
    if scheme.Lawful() && InStep(scheme, run) {
      if KeyedAt(scheme, run, op) {
        AdvanceKeepsInStep(scheme, run, op);
      } else {
        MismatchBreaks(scheme, run, op);
        BrokenIsOutOfStep(scheme, Advance(scheme, run, op));
      }
    }
  }

  class StacksTransactionSigner {
    const scheme: Scheme
    var tx: Transaction
    var sighash: Txid
    var originDone: bool
    var checkOversign: bool
    var checkOverlap: bool
    /** The keys supplied so far. */
    ghost var originKeys: seq<PublicKey>
    ghost var sponsorKeys: seq<PublicKey>

    ghost function Current(): Run
      reads this
    {
      Run(State(tx, sighash, originDone, checkOversign, checkOverlap), originKeys, sponsorKeys)
    }

    /** The signer and the verifier agree. */
    ghost predicate Valid()
      reads this
    {
      scheme.Lawful() && InStep(scheme, Current())
    }

    constructor (scheme: Scheme, tx: Transaction)
      ensures this.scheme == scheme && Current() == Run(NewSigner(scheme, tx), [], [])
      ensures scheme.Lawful() && Unsigned(tx) ==> Valid()
    {
      this.scheme, this.tx, this.sighash := scheme, tx, VerifyBegin(scheme, tx);
      this.originDone, this.checkOversign, this.checkOverlap := false, true, true;
      this.originKeys, this.sponsorKeys := [], [];
      new;
      if Unsigned(tx) {
        NewSignerInStep(scheme, tx);
      }
    }

    method SignOrigin(k: PrivateKey) returns (r: Result<(), Error>)
      requires tx.auth.origin.NumSignatures() <= MAX_U16
      modifies this
      ensures r == Outcome(Step(scheme, old(Current()).state, Op.SignOrigin(k)))
      ensures Current() == Advance(scheme, old(Current()), Op.SignOrigin(k))
      ensures old(Valid()) ==> (Valid() <==> (r.Ok? ==> EncodingMatches(old(tx).auth.origin, k)))
    {
      AdvanceAgreesIff(scheme, Current(), Op.SignOrigin(k));
      if checkOverlap && originDone {
        return Err(SigningError);
      }
      var n := NumSignatures(tx.auth.origin);
      if checkOversign && n >= tx.auth.origin.SignaturesRequired() {
        return Err(SigningError);
      }
      var signed := SignAndAppend(scheme, tx.auth.origin, sighash, AuthStandard, k);
      if signed.Err? {
        return Err(signed.error);
      }
      tx := tx.(auth := tx.auth.(origin := signed.value.0));
      sighash := signed.value.1;
      originKeys := originKeys + [scheme.PublicKeyOf(k)];
      return Ok(());
    }

    method AppendOrigin(key: PublicKey) returns (r: Result<(), Error>)
      modifies this
      ensures r == Outcome(Step(scheme, old(Current()).state, Op.AppendOrigin(key)))
      ensures Current() == Advance(scheme, old(Current()), Op.AppendOrigin(key))
      ensures old(Valid()) ==> Valid()
    {
      AdvanceAgreesIff(scheme, Current(), Op.AppendOrigin(key));
      if checkOverlap && originDone {
        return Err(SigningError);
      }
      var appended := AppendPublicKey(tx.auth.origin, key);
      if appended.Err? {
        return Err(appended.error);
      }
      tx := tx.(auth := tx.auth.(origin := appended.value));
      originKeys := originKeys + [key];
      return Ok(());
    }

    method SignSponsor(k: PrivateKey) returns (r: Result<(), Error>)
      requires tx.auth.Sponsored? ==> tx.auth.sponsor.NumSignatures() <= MAX_U16
      modifies this
      ensures r == Outcome(Step(scheme, old(Current()).state, Op.SignSponsor(k)))
      ensures Current() == Advance(scheme, old(Current()), Op.SignSponsor(k))
      ensures old(Valid()) ==> (Valid() <==> (r.Ok? ==> EncodingMatches(old(tx).auth.sponsor, k)))
    {
      AdvanceAgreesIff(scheme, Current(), Op.SignSponsor(k));
      if tx.auth.Standard? {
        return Err(SigningError);
      }
      var n := NumSignatures(tx.auth.sponsor);
      if checkOversign && n >= tx.auth.sponsor.SignaturesRequired() {
        return Err(SigningError);
      }
      var signed := SignAndAppend(scheme, tx.auth.sponsor, sighash, AuthSponsored, k);
      if signed.Err? {
        return Err(signed.error);
      }
      tx := tx.(auth := tx.auth.(sponsor := signed.value.0));
      sighash := signed.value.1;
      originDone := true;
      sponsorKeys := sponsorKeys + [scheme.PublicKeyOf(k)];
      return Ok(());
    }

    method AppendSponsor(key: PublicKey) returns (r: Result<(), Error>)
      modifies this
      ensures r == Outcome(Step(scheme, old(Current()).state, Op.AppendSponsor(key)))
      ensures Current() == Advance(scheme, old(Current()), Op.AppendSponsor(key))
      ensures old(Valid()) ==> Valid()
    {
      AdvanceAgreesIff(scheme, Current(), Op.AppendSponsor(key));
      if tx.auth.Standard? {
        return Err(SigningError);
      }
      var appended := AppendPublicKey(tx.auth.sponsor, key);
      if appended.Err? {
        return Err(appended.error);
      }
      tx := tx.(auth := tx.auth.(sponsor := appended.value));
      sponsorKeys := sponsorKeys + [key];
      return Ok(());
    }

    /** Hands out the transaction once it is complete; what it hands out verifies exactly when the
        addresses are those of the keys supplied. */
    method GetTx() returns (r: Option<Transaction>)
      requires tx.auth.origin.NumSignatures() <= MAX_U16
      requires tx.auth.Sponsored? ==> tx.auth.sponsor.NumSignatures() <= MAX_U16
      ensures r == if Complete(Current().state) then Some(tx) else None
      ensures Valid() && r.Some? ==>
        (Verify(scheme, r.value).Ok? <==>
           && Owned(scheme, tx.auth.origin, originKeys)
           && (tx.auth.Sponsored? ==> Owned(scheme, tx.auth.sponsor, sponsorKeys)))
    {
      if Valid() {
        VerifyInStep(scheme, Current());
      }
      var n := NumSignatures(tx.auth.origin);
      var done := n >= tx.auth.origin.SignaturesRequired();
      if tx.auth.Sponsored? {
        var m := NumSignatures(tx.auth.sponsor);
        done := done && m >= tx.auth.sponsor.SignaturesRequired() && (originDone || !checkOverlap);
      }
      return if done then Some(tx) else None;
    }
  }
}
