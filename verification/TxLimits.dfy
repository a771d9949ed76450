/** Around the signer: what the first sighash commits to, when a single-signature record and its
    signer part ways, and a concrete scheme showing that the assumptions can be met. */
module TxLimits {
  import opened Prelude
  import opened Bytes
  import opened TxTypes
  import opened TxCodec
  import opened TxAuth
  import opened TxSigner
  import opened TxTexts

  // ---------------------------------------------------------------- what the first sighash commits to

  function AnyPoint(): Point -> bool {
    (p: Point) => true
  }

  lemma SinglesigTailInjective(c: SpendingCondition, d: SpendingCondition, r: seq<byte>, t: seq<byte>)
    requires c.Singlesig? && d.Singlesig? && c.singleMode == d.singleMode
    requires EncodeSinglesigTail(c.signer, c.nonce, c.txFee, c.keyEncoding, c.signature) + r
          == EncodeSinglesigTail(d.signer, d.nonce, d.txFee, d.keyEncoding, d.signature) + t
    ensures c == d && r == t
  {
    // under P2PKH the decoder refuses nothing
    SinglesigOnTheWire(c.(singleMode := P2PKH), r);
    SinglesigOnTheWire(d.(singleMode := P2PKH), t);
  }

  lemma MultisigTailInjective(c: SpendingCondition, d: SpendingCondition, r: seq<byte>, t: seq<byte>)
    requires !c.Singlesig? && !d.Singlesig?
    requires c.Multisig? == d.Multisig? && c.multiMode == d.multiMode
    requires |c.fields| < 0x1_0000_0000 && |d.fields| < 0x1_0000_0000
    requires EncodeMultisigTail(c.signer, c.nonce, c.txFee, c.fields, c.required) + r
          == EncodeMultisigTail(d.signer, d.nonce, d.txFee, d.fields, d.required) + t
    ensures c == d && r == t
  {
    var a, b := |EncodeVec(c.fields, EncodeField)|, |EncodeVec(d.fields, EncodeField)|;
    var w := Wire(AnyPoint(), a + b);
    MultisigPartsRoundTrip(w, c, r);
    MultisigPartsRoundTrip(w, d, t);
  }

  lemma ModeByteInjective(c: SpendingCondition, d: SpendingCondition)
    requires EncodeCondition(c)[0] == EncodeCondition(d)[0]
    ensures c.Singlesig? == d.Singlesig? && c.Multisig? == d.Multisig?
    ensures if c.Singlesig? then c.singleMode == d.singleMode else c.multiMode == d.multiMode
  {
  }

  function Tail(c: SpendingCondition): (t: seq<byte>)
    ensures EncodeCondition(c) == [EncodeCondition(c)[0]] + t
  {
    if c.Singlesig? then EncodeSinglesigTail(c.signer, c.nonce, c.txFee, c.keyEncoding, c.signature)
    else EncodeMultisigTail(c.signer, c.nonce, c.txFee, c.fields, c.required)
  }

  lemma Uncons(a: byte, x: seq<byte>, b: byte, y: seq<byte>, r: seq<byte>, t: seq<byte>)
    requires [a] + x + r == [b] + y + t
    ensures a == b && x + r == y + t
  {
    assert ([a] + x + r)[0] == a && ([b] + y + t)[0] == b;
    assert ([a] + x + r)[1..] == x + r;
    assert ([b] + y + t)[1..] == y + t;
  }

  /** The encoding of conditions is injective and prefix-free, even for incomplete ones that the
      decoder would refuse. */
  lemma ConditionPrefixFree(c: SpendingCondition, d: SpendingCondition, r: seq<byte>, t: seq<byte>)
    requires !c.Singlesig? ==> |c.fields| < 0x1_0000_0000
    requires !d.Singlesig? ==> |d.fields| < 0x1_0000_0000
    requires EncodeCondition(c) + r == EncodeCondition(d) + t
    ensures c == d && r == t
  {
    Uncons(EncodeCondition(c)[0], Tail(c), EncodeCondition(d)[0], Tail(d), r, t);
    ModeByteInjective(c, d);
    if c.Singlesig? {
      SinglesigTailInjective(c, d, r, t);
    } else {
      MultisigTailInjective(c, d, r, t);
    }
  }

  ghost function Preimage(tx: Transaction): seq<byte> {
    EncodeTransaction(tx.(auth := tx.auth.InitialSighashAuth()))
  }

  /** What two origins have in common when everything but fees, nonces, signatures and public keys does:
      the kind of condition, its hash mode and signer, and the key encoding or the required count. */
  predicate SameAccount(c: SpendingCondition, d: SpendingCondition) {
    && c.signer == d.signer
    && if c.Singlesig? then d.Singlesig? && c.singleMode == d.singleMode && c.keyEncoding == d.keyEncoding
       else
         && !d.Singlesig? && c.Multisig? == d.Multisig?
         && c.multiMode == d.multiMode && c.required == d.required
  }

  /** The bytes behind the first sighash determine everything the signers must agree on, and nothing else:
      version, chain, body, whether there is a sponsor, and the origin's account. */
  lemma FirstSighashCommits(a: Transaction, b: Transaction)
    ensures Preimage(a) == Preimage(b) <==>
              && a.version == b.version && a.chainId == b.chainId && a.body == b.body
              && a.auth.Standard? == b.auth.Standard?
              && SameAccount(a.auth.origin, b.auth.origin)
  {
    if Preimage(a) == Preimage(b) {
      PowersOf256();
      var x, y := a.auth.InitialSighashAuth(), b.auth.InitialSighashAuth();
      SplitHeader(a.version, ToBigEndian(a.chainId, 4), EncodeAuth(x), a.body,
                  b.version, ToBigEndian(b.chainId, 4), EncodeAuth(y), b.body);
      BigEndianInjective(a.chainId, b.chainId, 4);
      AuthPrefixFree(x, y, a.body, b.body);
    }
  }

  lemma SplitHeader(
      v: byte, c: seq<byte>, a: seq<byte>, r: seq<byte>, w: byte, d: seq<byte>, b: seq<byte>, t: seq<byte>)
    requires |c| == |d| && [v] + c + a + r == [w] + d + b + t
    ensures v == w && c == d && a + r == b + t
  {
    assert [v] + c + a + r == [v] + c + (a + r);
    assert [w] + d + b + t == [w] + d + (b + t);
    Uncons(v, c, w, d, a + r, b + t);
    assert (c + (a + r))[..|c|] == c && (d + (b + t))[..|d|] == d;
    assert (c + (a + r))[|c|..] == a + r && (d + (b + t))[|d|..] == b + t;
  }

  lemma AuthPrefixFree(x: Auth, y: Auth, r: seq<byte>, t: seq<byte>)
    requires CountsFit(x) && CountsFit(y)
    requires EncodeAuth(x) + r == EncodeAuth(y) + t
    ensures x == y && r == t
  {
    var ox, oy, sx, sy := EncodeCondition(x.origin), EncodeCondition(y.origin), SponsorBytes(x), SponsorBytes(y);
    AuthLayout(x);
    AuthLayout(y);
    SplitAuth(FlagByte(x), ox, sx, r, FlagByte(y), oy, sy, t);
    ConditionPrefixFree(x.origin, y.origin, sx + r, sy + t);
    SponsorPrefixFree(x, y, r, t);
  }

  lemma SponsorPrefixFree(x: Auth, y: Auth, r: seq<byte>, t: seq<byte>)
    requires CountsFit(x) && CountsFit(y) && x.Standard? == y.Standard?
    requires SponsorBytes(x) + r == SponsorBytes(y) + t
    ensures x.Sponsored? ==> x.sponsor == y.sponsor
    ensures r == t
  {
    if x.Sponsored? {
      ConditionPrefixFree(x.sponsor, y.sponsor, r, t);
    } else {
      assert SponsorBytes(x) + r == r && SponsorBytes(y) + t == t;
    }
  }

  lemma SplitAuth(f: byte, o: seq<byte>, s: seq<byte>, r: seq<byte>, g: byte, p: seq<byte>, u: seq<byte>, t: seq<byte>)
    requires [f] + o + s + r == [g] + p + u + t
    ensures f == g && o + (s + r) == p + (u + t)
  {
    assert [f] + o + s + r == [f] + o + (s + r);
    assert [g] + p + u + t == [g] + p + (u + t);
    Uncons(f, o, g, p, s + r, u + t);
  }

  function FlagByte(a: Auth): byte {
    if a.Standard? then 0x04 else 0x05
  }

  function SponsorBytes(a: Auth): seq<byte> {
    if a.Standard? then [] else EncodeCondition(a.sponsor)
  }

  lemma AuthLayout(a: Auth)
    ensures EncodeAuth(a) == [FlagByte(a)] + EncodeCondition(a.origin) + SponsorBytes(a)
  {
    if a.Standard? {
      AppendNothing([FlagByte(a)] + EncodeCondition(a.origin));
    }
  }

  lemma AppendNothing(s: seq<byte>)
    ensures s + [] == s
  {
  }

  // ---------------------------------------------------------------- verified transactions on the wire

  lemma VerifiedIsAdmissible(scheme: Scheme, c: SpendingCondition, init: Txid, flag: AuthFlag)
    requires VerifyCondition(scheme, c, init, flag).Ok?
    requires c.Singlesig? && c.singleMode.P2WPKH? ==> c.keyEncoding.Compressed?
    ensures Admissible(c)
  {
    if !c.Singlesig? {
      ReplayGathers(ReplayOf(scheme, c, flag), init, c.fields);
    }
  }

  /** Whatever verifies can be sent, if it fits: the receiver decodes the same authorization, reads
      nothing beyond it, and so verifies the same transaction. */
  lemma VerifiedSurvivesTheWire(scheme: Scheme, maxMessage: nat, tx: Transaction, rest: seq<byte>)
    requires Verify(scheme, tx).Ok?
    requires AuthRepresentable(Wire(scheme.validPoint, maxMessage), tx.auth)
    requires forall c | c == tx.auth.origin || (tx.auth.Sponsored? && c == tx.auth.sponsor) ::
               c.Singlesig? && c.singleMode.P2WPKH? ==> c.keyEncoding.Compressed?
    ensures
      var w := Wire(scheme.validPoint, maxMessage);
      DecodeAuth(w, EncodeAuth(tx.auth) + rest) == if AuthFits(w, tx.auth) then Got(tx.auth, rest) else Fail
  {
    VerifiedIsAdmissible(scheme, tx.auth.origin, VerifyBegin(scheme, tx), AuthStandard);
    if tx.auth.Sponsored? {
      VerifiedIsAdmissible(scheme, tx.auth.sponsor, VerifyOrigin(scheme, tx).value, AuthSponsored);
    }
    AuthOnTheWire(Wire(scheme.validPoint, maxMessage), tx.auth, rest);
  }

  // ---------------------------------------------------------------- single signatures and key encodings

  /** After signing a single-signature condition the verifier reaches the signer's sighash if and
      only if the key has the encoding the condition recorded (as far as the hash tells the two
      encodings apart). */
  lemma SinglesigAgreesExactly(scheme: Scheme, c: SpendingCondition, init: Txid, flag: AuthFlag, k: PrivateKey)
    requires scheme.Lawful() && c.Singlesig?
    requires SignAndAppend(scheme, c, init, flag, k).Ok?
    requires
      var presign := Presign(scheme, init, flag, c.txFee, c.nonce);
      var sig := NextSignature(scheme, init, flag, c.txFee, c.nonce, k).value.0;
      Postsign(scheme, presign, true, sig) != Postsign(scheme, presign, false, sig)
    ensures
      var (c', next) := SignAndAppend(scheme, c, init, flag, k).value;
      var g := ReplayCondition(scheme, c', init, flag);
      g.Ok? && (g.value.sighash == next <==> EncodingMatches(c, k))
  {
    LinkAgrees(scheme, init, flag, c.txFee, c.nonce, k, c.keyEncoding);
  }

  // ---------------------------------------------------------------- a concrete scheme

  function Fit32(s: seq<byte>): (r: seq<byte>)
    ensures |r| == 32
  {
    if |s| == 32 then s else Zeros(32)
  }

  function Repeat32(b: byte): (r: Txid)
    ensures forall i | 0 <= i < 32 :: r[i] == b
  {
    seq(32, _ => b)
  }

  /** Keeps the leading sighash of a presign string and the encoding byte of a postsign string. */
  function ToyHash(x: seq<byte>): Txid {
    if |x| == 49 then x[..32] else if |x| == 98 then Repeat32(x[32]) else Zeros(32)
  }

  function ToyPoint(secret: seq<byte>): Point {
    Fit32(secret) + [0]
  }

  function ToySign(k: PrivateKey, m: Txid): Option<Signature> {
    Some([1] + m + Fit32(k.secret))
  }

  function ToyRecover(m: Txid, sig: Signature): Option<Point> {
    if sig[0] == 1 && sig[1..33] == m then Some(sig[33..] + [0]) else None
  }

  function ToyAddress(mode: AddressHashMode, required: nat, keys: seq<PublicKey>): Option<Hash160> {
    Some(ZERO_HASH160)
  }

  function ToyScheme(): Scheme {
    Scheme(ToyHash, ToyPoint, ToySign, ToyRecover, ToyAddress, AnyPoint())
  }

  /** The assumptions on schemes can be met. */
  lemma ToySchemeIsLawful()
    ensures ToyScheme().Lawful()
  {
    var scheme := ToyScheme();
    forall k: PrivateKey, m: Txid
      ensures scheme.sign(k, m).Some? ==> scheme.recover(m, scheme.sign(k, m).value) == Some(scheme.pointOf(k.secret))
    {
      var sig: Signature := [1] + m + Fit32(k.secret);
      assert sig[1..33] == m;
      assert sig[33..] == Fit32(k.secret);
    }
  }

  /** The unsigned transaction and the keys of the counterexample: the origin's condition records a
      compressed key, but an uncompressed one signs. */
  function MismatchTx(): Transaction {
    Transaction(0, 0, Sponsored(SENTINEL_SPONSOR, SENTINEL_SPONSOR), [])
  }

  const OFF_KEY := PrivateKey([], false)
  const OWN_KEY := PrivateKey([], true)

  function ToySignature(m: Txid): Signature {
    [1] + m + Fit32([])
  }

  lemma ToyRecovers(m: Txid, n: Txid)
    ensures ToySignature(m) != EMPTY_SIGNATURE
    ensures ToyRecover(n, ToySignature(m)).Some? <==> m == n
  {
    assert ToySignature(m)[0] == 1;
    assert ToySignature(m)[1..33] == m;
  }

  lemma ToyPostsign(presign: Txid, compressed: bool, m: Txid)
    ensures Postsign(ToyScheme(), presign, compressed, ToySignature(m)) == Repeat32(if compressed then 0 else 1)
  {
    assert (presign + [EncodingOf(compressed).Byte()] + ToySignature(m))[32] == EncodingOf(compressed).Byte();
  }

  lemma ToyPresign(cur: Txid, flag: AuthFlag)
    ensures Presign(ToyScheme(), cur, flag, 0, 0) == cur
  {
    assert (cur + [flag.Byte()] + ToBigEndian(0, 8) + ToBigEndian(0, 8))[..32] == cur;
  }

  lemma MismatchedRun()
    ensures
      var scheme := ToyScheme();
      var h := VerifyBegin(scheme, MismatchTx());
      var start := Run(NewSigner(scheme, MismatchTx()), [], []);
      var end := Execute(scheme, start, [SignOrigin(OFF_KEY), SignSponsor(OWN_KEY)]);
      && end.state.originDone && end.state.tx.auth
         == Sponsored(SENTINEL_SPONSOR.(signature := ToySignature(h)),
                      SENTINEL_SPONSOR.(signature := ToySignature(Repeat32(1))))
      && VerifyBegin(scheme, end.state.tx) == h
  {
    var scheme := ToyScheme();
    var start := Run(NewSigner(scheme, MismatchTx()), [], []);
    var ops := [SignOrigin(OFF_KEY), SignSponsor(OWN_KEY)];
    var h := VerifyBegin(scheme, MismatchTx());
    ToyPresign(h, AuthStandard);
    ToyPostsign(h, false, h);
    var one := Advance(scheme, start, SignOrigin(OFF_KEY));
    assert one.state.sighash == Repeat32(1);
    ToyPresign(Repeat32(1), AuthSponsored);
    assert ops[..1] == [SignOrigin(OFF_KEY)] && ops[..1][..0] == [];
    assert Execute(scheme, start, ops[..1]) == one;
    assert Execute(scheme, start, ops) == Advance(scheme, one, SignSponsor(OWN_KEY));
    BeginningNeverMoves(scheme, start, ops);
  }

  /** With a mismatched origin key, a complete run with all addresses right fails to verify: the
      sponsor signed a sighash the verifier never reaches. */
  lemma MismatchedKeyBreaksSponsor()
    ensures
      var scheme := ToyScheme();
      var start := Run(NewSigner(scheme, MismatchTx()), [], []);
      var end := Execute(scheme, start, [SignOrigin(OFF_KEY), SignSponsor(OWN_KEY)]);
      && scheme.Lawful() && Complete(end.state) && end.state.tx.auth.Sponsored?
      && Owned(scheme, end.state.tx.auth.origin, end.originKeys)
      && Owned(scheme, end.state.tx.auth.sponsor, end.sponsorKeys)
      && Verify(scheme, end.state.tx).Err?
  {
    ToySchemeIsLawful();
    MismatchedRun();
    var scheme := ToyScheme();
    var h := VerifyBegin(scheme, MismatchTx());
    ToyRecovers(h, h);
    ToyRecovers(Repeat32(1), Repeat32(0));
    assert Repeat32(1)[0] != Repeat32(0)[0];
    ToyPresign(h, AuthStandard);
    ToyPostsign(h, true, h);
    ToyPresign(Repeat32(0), AuthSponsored);
  }
}
