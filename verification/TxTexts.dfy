/** The serialized forms of conditions, authorizations and transactions by position, with every byte
    code as a number, and the text behind the first sighash (src/tx/auth.rs, src/tx/transaction.rs). */
module TxTexts {
  import opened Prelude
  import opened Bytes
  import opened TxTypes
  import opened TxCodec
  import opened TxAuth
  import opened TxLayout

  // ---------------------------------------------------------------- auth fields

  /** A public key is 34 bytes, a signature 66; the first says which, and how the key is encoded. */
  predicate IsFieldText(t: seq<byte>, f: AuthField) {
    match f
    case PublicKeyField(key) => |t| == 34 && t[0] == (if key.compressed then 0 else 1) && t[1..] == key.point
    case SignatureField(encoding, sig) =>
      |t| == 66 && t[0] == (if encoding.Compressed? then 2 else 3) && t[1..] == sig
  }

  /** The texts of the fields, one after the other, and nothing else. */
  predicate AreFieldTexts(t: seq<byte>, fields: seq<AuthField>) {
    if fields == [] then t == []
    else
      var n := if fields[0].PublicKeyField? then 34 else 66;
      |t| >= n && IsFieldText(t[..n], fields[0]) && AreFieldTexts(t[n..], fields[1..])
  }

  lemma FieldTextIff(t: seq<byte>, f: AuthField)
    ensures IsFieldText(t, f) <==> t == EncodeField(f)
  {
    if IsFieldText(t, f) {
      assert t == [t[0]] + t[1..];
    }
    assert EncodeField(f) == [EncodeField(f)[0]] + EncodeField(f)[1..];
  }

  lemma {:induction false} FieldTextsIff(t: seq<byte>, fields: seq<AuthField>)
    ensures AreFieldTexts(t, fields) <==> t == EncodeItems(fields, EncodeField)
  {
    if fields != [] {
      var n := if fields[0].PublicKeyField? then 34 else 66;
      var head, rest := EncodeField(fields[0]), EncodeItems(fields[1..], EncodeField);
      assert (head + rest)[..n] == head && (head + rest)[n..] == rest;
      if |t| >= n {
        FieldTextIff(t[..n], fields[0]);
        FieldTextsIff(t[n..], fields[1..]);
        assert t == t[..n] + t[n..];
      }
    }
  }

  // ---------------------------------------------------------------- conditions

  /** The hash-mode byte: which kind of condition, and which kind of address. */
  function ModeCode(c: SpendingCondition): byte {
    match c
    case Singlesig(mode, _, _, _, _, _) => if mode.P2PKH? then 0 else 2
    case Multisig(mode, _, _, _, _, _) => if mode.P2SH? then 1 else 3
    case OrderIndependentMultisig(mode, _, _, _, _, _) => if mode.P2SH? then 5 else 7
  }

  /** The kind of address a hash-mode byte stands for. */
  function AddressOfCode(mode: byte): Option<AddressHashMode> {
    if mode == 0 then Some(SerializeP2PKH)
    else if mode == 2 then Some(SerializeP2WPKH)
    else if mode == 1 || mode == 5 then Some(SerializeP2SH)
    else if mode == 3 || mode == 7 then Some(SerializeP2WSH)
    else None
  }

  /** The first byte on the wire decides the address mode, and no two kinds share a byte. */
  lemma AddressModeIsModeByte(c: SpendingCondition)
    ensures EncodeCondition(c)[0] == ModeCode(c)
    ensures AddressOfCode(EncodeCondition(c)[0]) == Some(c.AddressMode())
  {
  }

  /** Mode, signer, nonce and fee, and then what the kind of condition needs. */
  ghost predicate IsConditionText(t: seq<byte>, c: SpendingCondition) {
    && |t| >= 43 && t[0] == ModeCode(c) && t[1..21] == c.signer
    && FromBigEndian(t[21..29]) == c.nonce && FromBigEndian(t[29..37]) == c.txFee
    && if c.Singlesig? then |t| == 103 && t[37] == EncodingCode(c.keyEncoding.Compressed?) && t[38..] == c.signature
       else
         && FromBigEndian(t[37..41]) == |c.fields| && FromBigEndian(t[|t| - 2..]) == c.required
         && AreFieldTexts(t[41..|t| - 2], c.fields)
  }

  /** The positions of the parts of a condition that are there for every kind. */
  lemma HeaderAt(mode: byte, signer: Hash160, nonce: u64, fee: u64, rest: seq<byte>, t: seq<byte>)
    ensures t == [mode] + signer + ToBigEndian(nonce, 8) + ToBigEndian(fee, 8) + rest <==>
              && |t| >= 37 && t[0] == mode && t[1..21] == signer
              && FromBigEndian(t[21..29]) == nonce && FromBigEndian(t[29..37]) == fee && t[37..] == rest
  {
    PowersOf256();
    var whole := [mode] + signer + ToBigEndian(nonce, 8) + ToBigEndian(fee, 8) + rest;
    assert whole[1..21] == signer && whole[21..29] == ToBigEndian(nonce, 8);
    assert whole[29..37] == ToBigEndian(fee, 8) && whole[37..] == rest;
    if |t| >= 37 {
      ReadsAsIff(t[21..29], nonce);
      ReadsAsIff(t[29..37], fee);
      assert t == [t[0]] + t[1..21] + t[21..29] + t[29..37] + t[37..];
    }
  }

  lemma SinglesigRestAt(encoding: byte, sig: Signature, rest: seq<byte>)
    ensures rest == [encoding] + sig <==> |rest| == 66 && rest[0] == encoding && rest[1..] == sig
  {
    if |rest| == 66 {
      assert rest == [rest[0]] + rest[1..];
    }
  }

  lemma MultisigRestAt(fields: seq<AuthField>, required: u16, rest: seq<byte>)
    requires |fields| < 0x1_0000_0000
    ensures rest == EncodeVec(fields, EncodeField) + ToBigEndian(required, 2) <==>
              && |rest| >= 6 && FromBigEndian(rest[..4]) == |fields| && FromBigEndian(rest[|rest| - 2..]) == required
              && AreFieldTexts(rest[4..|rest| - 2], fields)
  {
    PowersOf256();
    var items := EncodeItems(fields, EncodeField);
    ThreePartsAt(ToBigEndian(|fields|, 4), items, ToBigEndian(required, 2), rest);
    if |rest| >= 6 {
      ReadsAsIff(rest[..4], |fields|);
      ReadsAsIff(rest[|rest| - 2..], required);
      FieldTextsIff(rest[4..|rest| - 2], fields);
    }
  }

  lemma ThreePartsAt(a: seq<byte>, b: seq<byte>, c: seq<byte>, t: seq<byte>)
    requires |a| == 4 && |c| == 2
    ensures t == a + b + c <==> |t| >= 6 && t[..4] == a && t[4..|t| - 2] == b && t[|t| - 2..] == c
  {
    var whole := a + b + c;
    assert whole[..4] == a && whole[4..|whole| - 2] == b && whole[|whole| - 2..] == c;
    if |t| >= 6 {
      assert t == t[..4] + t[4..|t| - 2] + t[|t| - 2..];
    }
  }

  /** What follows the fee. */
  function AfterFee(c: SpendingCondition): seq<byte> {
    if c.Singlesig? then [EncodingCode(c.keyEncoding.Compressed?)] + c.signature
    else EncodeVec(c.fields, EncodeField) + ToBigEndian(c.required, 2)
  }

  lemma EncodedInOrder(c: SpendingCondition)
    ensures EncodeCondition(c)
         == [ModeCode(c)] + c.signer + ToBigEndian(c.nonce, 8) + ToBigEndian(c.txFee, 8) + AfterFee(c)
  {
    if c.Singlesig? {
      JoinTail([ModeCode(c)], c.signer, ToBigEndian(c.nonce, 8), ToBigEndian(c.txFee, 8),
               [EncodingCode(c.keyEncoding.Compressed?)], c.signature);
    } else {
      JoinTail([ModeCode(c)], c.signer, ToBigEndian(c.nonce, 8), ToBigEndian(c.txFee, 8),
               EncodeVec(c.fields, EncodeField), ToBigEndian(c.required, 2));
    }
  }

  lemma JoinTail(a: seq<byte>, b: seq<byte>, c: seq<byte>, d: seq<byte>, e: seq<byte>, f: seq<byte>)
    ensures a + (b + c + d + e + f) == a + b + c + d + (e + f)
  {
  }

  lemma AfterFeeAt(t: seq<byte>, c: SpendingCondition)
    requires |t| >= 37 && (!c.Singlesig? ==> |c.fields| < 0x1_0000_0000)
    ensures t[37..] == AfterFee(c) <==>
              if c.Singlesig? then
                |t| == 103 && t[37] == EncodingCode(c.keyEncoding.Compressed?) && t[38..] == c.signature
              else
                && |t| >= 43 && FromBigEndian(t[37..41]) == |c.fields| && FromBigEndian(t[|t| - 2..]) == c.required
                && AreFieldTexts(t[41..|t| - 2], c.fields)
  {
    var r := t[37..];
    if c.Singlesig? {
      SinglesigRestAt(EncodingCode(c.keyEncoding.Compressed?), c.signature, r);
      assert |t| >= 38 ==> r[1..] == t[38..];
    } else {
      MultisigRestAt(c.fields, c.required, r);
      if |t| >= 43 {
        assert r[..4] == t[37..41] && r[|r| - 2..] == t[|t| - 2..] && r[4..|r| - 2] == t[41..|t| - 2];
      }
    }
  }

  /** The encoding of a condition is the one text that lies as described. */
  lemma ConditionTextIff(t: seq<byte>, c: SpendingCondition)
    requires !c.Singlesig? ==> |c.fields| < 0x1_0000_0000
    ensures IsConditionText(t, c) <==> t == EncodeCondition(c)
  {
    EncodedInOrder(c);
    HeaderAt(ModeCode(c), c.signer, c.nonce, c.txFee, AfterFee(c), t);
    if |t| >= 37 {
      AfterFeeAt(t, c);
    }
  }

  // ---------------------------------------------------------------- authorizations and transactions

  ghost predicate CountsFit(a: Auth) {
    && (!a.origin.Singlesig? ==> |a.origin.fields| < 0x1_0000_0000)
    && (a.Sponsored? && !a.sponsor.Singlesig? ==> |a.sponsor.fields| < 0x1_0000_0000)
  }

  /** An authorization is 4 and the origin, or 5, the origin and the sponsor. */
  ghost predicate IsAuthText(t: seq<byte>, a: Auth) {
    match a
    case Standard(origin) => |t| >= 1 && t[0] == 4 && IsConditionText(t[1..], origin)
    case Sponsored(origin, sponsor) =>
      exists o: seq<byte>, s: seq<byte> :: IsConditionText(o, origin) && IsConditionText(s, sponsor) && t == [5] + o + s
  }

  lemma AuthTextIff(t: seq<byte>, a: Auth)
    requires CountsFit(a)
    ensures IsAuthText(t, a) <==> t == EncodeAuth(a)
  {
    match a
    case Standard(origin) =>
      ConditionTextIff(EncodeCondition(origin), origin);
      assert ([4] + EncodeCondition(origin))[1..] == EncodeCondition(origin);
      if |t| >= 1 {
        ConditionTextIff(t[1..], origin);
        assert t == [t[0]] + t[1..];
      }
    case Sponsored(origin, sponsor) =>
      ConditionTextIff(EncodeCondition(origin), origin);
      ConditionTextIff(EncodeCondition(sponsor), sponsor);
      if o: seq<byte>, s: seq<byte> :| IsConditionText(o, origin) && IsConditionText(s, sponsor) && t == [5] + o + s {
        ConditionTextIff(o, origin);
        ConditionTextIff(s, sponsor);
      }
  }

  /** A transaction is its version, its chain, its authorization and the rest. */
  ghost predicate IsTransactionText(t: seq<byte>, tx: Transaction) {
    && |t| >= 5 + |tx.body| && t[0] == tx.version && FromBigEndian(t[1..5]) == tx.chainId
    && IsAuthText(t[5..|t| - |tx.body|], tx.auth) && t[|t| - |tx.body|..] == tx.body
  }

  lemma FourPartsAt(v: byte, chain: seq<byte>, a: seq<byte>, body: seq<byte>, t: seq<byte>)
    requires |chain| == 4
    ensures t == [v] + chain + a + body <==>
              && |t| >= 5 + |body| && t[0] == v && t[1..5] == chain
              && t[5..|t| - |body|] == a && t[|t| - |body|..] == body
  {
    var whole := [v] + chain + a + body;
    assert whole[1..5] == chain && whole[5..|whole| - |body|] == a && whole[|whole| - |body|..] == body;
    if |t| >= 5 + |body| {
      assert t == [t[0]] + t[1..5] + t[5..|t| - |body|] + t[|t| - |body|..];
    }
  }

  lemma TransactionTextIff(t: seq<byte>, tx: Transaction)
    requires CountsFit(tx.auth)
    ensures IsTransactionText(t, tx) <==> t == EncodeTransaction(tx)
  {
    PowersOf256();
    FourPartsAt(tx.version, ToBigEndian(tx.chainId, 4), EncodeAuth(tx.auth), tx.body, t);
    if |t| >= 5 + |tx.body| {
      ReadsAsIff(t[1..5], tx.chainId);
      AuthTextIff(t[5..|t| - |tx.body|], tx.auth);
    }
  }

  // ---------------------------------------------------------------- the text of the first sighash

  /** What every signer commits to first: the fee, nonce and signatures of the origin are written as zeros
      or left out, and 103 zeros stand for a sponsor nobody knows yet. */
  ghost predicate IsFirstText(t: seq<byte>, tx: Transaction) {
    var o := tx.auth.origin;
    var n := if o.Singlesig? then 109 else 49;
    && |t| >= n
    && t[0] == tx.version && FromBigEndian(t[1..5]) == tx.chainId && t[5] == FlagCode(tx.auth.Sponsored?)
    && t[6] == ModeCode(o) && t[7..27] == o.signer && t[27..43] == Zeros(16)
    && (if o.Singlesig? then t[43] == EncodingCode(o.keyEncoding.Compressed?) && t[44..109] == Zeros(65)
        else t[43..47] == Zeros(4) && FromBigEndian(t[47..49]) == o.required)
    && if tx.auth.Standard? then t[n..] == tx.body
       else |t| >= n + 103 && t[n..n + 103] == Zeros(103) && t[n + 103..] == tx.body
  }

  lemma {:induction false} ZeroIsZeros(n: nat)
    ensures ToBigEndian(0, n) == Zeros(n)
  {
    if n > 0 {
      ZeroIsZeros(n - 1);
    }
  }

  lemma SentinelIsZeros()
    ensures EncodeCondition(SENTINEL_SPONSOR) == Zeros(103)
  {
    ZeroIsZeros(8);
  }

  /** The origin without its fee, nonce and signatures. */
  ghost predicate IsBareText(t: seq<byte>, o: SpendingCondition) {
    && |t| == (if o.Singlesig? then 103 else 43)
    && t[0] == ModeCode(o) && t[1..21] == o.signer && t[21..37] == Zeros(16)
    && if o.Singlesig? then t[37] == EncodingCode(o.keyEncoding.Compressed?) && t[38..] == Zeros(65)
       else t[37..41] == Zeros(4) && FromBigEndian(t[41..]) == o.required
  }

  lemma ReadsZeroIff(t: seq<byte>)
    requires |t| == 16
    ensures FromBigEndian(t[..8]) == 0 && FromBigEndian(t[8..]) == 0 <==> t == Zeros(16)
  {
    PowersOf256();
    ZeroIsZeros(8);
    ReadsAsIff(t[..8], 0);
    ReadsAsIff(t[8..], 0);
    assert t == t[..8] + t[8..];
    assert Zeros(16)[..8] == Zeros(8) && Zeros(16)[8..] == Zeros(8) && Zeros(16) == Zeros(8) + Zeros(8);
  }

  lemma ReadsNoneIff(t: seq<byte>)
    requires |t| == 4
    ensures FromBigEndian(t) == 0 <==> t == Zeros(4)
  {
    PowersOf256();
    ZeroIsZeros(4);
    ReadsAsIff(t, 0);
  }

  lemma BareTextIff(t: seq<byte>, o: SpendingCondition)
    ensures IsBareText(t, o) <==> t == EncodeCondition(o.Clear())
  {
    ConditionTextIff(t, o.Clear());
    if |t| >= 43 {
      ReadsZeroIff(t[21..37]);
      assert t[21..37][..8] == t[21..29] && t[21..37][8..] == t[29..37];
      ReadsNoneIff(t[37..41]);
      assert |t| == 43 ==> t[|t| - 2..] == t[41..];
    }
  }

  /** Version, chain and flag, the bare origin, the sponsor's place, and the body. */
  lemma FirstTextInOrder(tx: Transaction) returns (sponsor: seq<byte>)
    ensures sponsor == if tx.auth.Standard? then [] else Zeros(103)
    ensures EncodeTransaction(tx.(auth := tx.auth.InitialSighashAuth()))
         == [tx.version] + ToBigEndian(tx.chainId, 4) + [FlagCode(tx.auth.Sponsored?)]
            + EncodeCondition(tx.auth.origin.Clear()) + sponsor + tx.body
  {
    SentinelIsZeros();
    sponsor := if tx.auth.Standard? then [] else Zeros(103);
    var head, origin := [tx.version] + ToBigEndian(tx.chainId, 4), EncodeCondition(tx.auth.origin.Clear());
    assert EncodeAuth(tx.auth.InitialSighashAuth()) == [FlagCode(tx.auth.Sponsored?)] + origin + sponsor;
    JoinAuth(head, [FlagCode(tx.auth.Sponsored?)], origin, sponsor, tx.body);
  }

  lemma JoinAuth(a: seq<byte>, b: seq<byte>, c: seq<byte>, d: seq<byte>, e: seq<byte>)
    ensures a + (b + c + d) + e == a + b + c + d + e
  {
  }

  lemma PartsAt(v: byte, chain: seq<byte>, flag: byte, o: seq<byte>, s: seq<byte>, body: seq<byte>, t: seq<byte>)
    requires |chain| == 4
    ensures t == [v] + chain + [flag] + o + s + body <==>
              && |t| >= 6 + |o| + |s| && t[0] == v && t[1..5] == chain && t[5] == flag
              && t[6..6 + |o|] == o && t[6 + |o|..6 + |o| + |s|] == s && t[6 + |o| + |s|..] == body
  {
    var front := [v] + chain + [flag];
    PiecesAt(front, o, s, body, t);
    if |t| >= 6 + |o| + |s| {
      FrontAt(v, chain, flag, t[..6]);
      assert t[..6][1..5] == t[1..5];
    }
  }

  lemma FrontAt(v: byte, chain: seq<byte>, flag: byte, t: seq<byte>)
    requires |chain| == 4 && |t| == 6
    ensures t == [v] + chain + [flag] <==> t[0] == v && t[1..5] == chain && t[5] == flag
  {
    assert ([v] + chain + [flag])[1..5] == chain;
    assert t == [t[0]] + t[1..5] + [t[5]];
  }

  lemma PiecesAt(a: seq<byte>, b: seq<byte>, c: seq<byte>, d: seq<byte>, t: seq<byte>)
    ensures t == a + b + c + d <==>
              && |t| >= |a| + |b| + |c| && t[..|a|] == a && t[|a|..|a| + |b|] == b
              && t[|a| + |b|..|a| + |b| + |c|] == c && t[|a| + |b| + |c|..] == d
  {
    var l, m, n := |a|, |a| + |b|, |a| + |b| + |c|;
    var whole := a + b + c + d;
    assert whole[..l] == a && whole[l..m] == b && whole[m..n] == c && whole[n..] == d;
    if |t| >= n {
      assert t == t[..l] + t[l..m] + t[m..n] + t[n..];
    }
  }

  lemma BareTextAt(t: seq<byte>, o: SpendingCondition, n: nat)
    requires n == (if o.Singlesig? then 109 else 49) && |t| >= n
    ensures IsBareText(t[6..n], o) <==>
              && t[6] == ModeCode(o) && t[7..27] == o.signer && t[27..43] == Zeros(16)
              && if o.Singlesig? then t[43] == EncodingCode(o.keyEncoding.Compressed?) && t[44..109] == Zeros(65)
                 else t[43..47] == Zeros(4) && FromBigEndian(t[47..49]) == o.required
  {
    Within(t, 6, n, 1, 21);
    Within(t, 6, n, 21, 37);
    if o.Singlesig? {
      Within(t, 6, n, 38, 103);
    } else {
      Within(t, 6, n, 37, 41);
      Within(t, 6, n, 41, 43);
    }
  }

  lemma Within(t: seq<byte>, from: nat, to: nat, i: nat, j: nat)
    requires i <= j && from + j <= to <= |t|
    ensures t[from..to][i..j] == t[from + i..from + j]
    ensures from + j == to ==> t[from..to][i..] == t[from + i..to]
  {
    var a, b := t[from..to][i..j], t[from + i..from + j];
    forall k | 0 <= k < j - i ensures a[k] == b[k] {
      assert t[from..to][i + k] == t[from + i + k];
    }
    assert a == b;
    assert from + j == to ==> t[from..to][i..] == a;
  }

  /** That text, and no other, is what the first sighash is the hash of. */
  lemma FirstTextIff(t: seq<byte>, tx: Transaction)
    ensures IsFirstText(t, tx) <==> t == EncodeTransaction(tx.(auth := tx.auth.InitialSighashAuth()))
  {
    var origin, chain := EncodeCondition(tx.auth.origin.Clear()), ToBigEndian(tx.chainId, 4);
    var sponsor := FirstTextInOrder(tx);
    var n := if tx.auth.origin.Singlesig? then 109 else 49;
    BareTextIff(origin, tx.auth.origin);
    PartsAt(tx.version, chain, FlagCode(tx.auth.Sponsored?), origin, sponsor, tx.body, t);
    if |t| >= n {
      PowersOf256();
      ReadsAsIff(t[1..5], tx.chainId);
      BareTextAt(t, tx.auth.origin, n);
      BareTextIff(t[6..n], tx.auth.origin);
    }
  }

  lemma VerificationBegins(scheme: Scheme, tx: Transaction, t: seq<byte>)
    requires IsFirstText(t, tx)
    ensures VerifyBegin(scheme, tx) == scheme.hash(t)
  {
    FirstTextIff(t, tx);
  }

  /** Field by field, what the first sighash is taken of. */
  lemma InitialAuthIs(auth: Auth)
    ensures
      var o, first := auth.origin, auth.InitialSighashAuth();
      && first.Standard? == auth.Standard?
      && first.origin.Singlesig? == o.Singlesig? && first.origin.Multisig? == o.Multisig?
      && first.origin.signer == o.signer && first.origin.txFee == 0 && first.origin.nonce == 0
      && (if o.Singlesig? then
            && first.origin.singleMode == o.singleMode && first.origin.keyEncoding == o.keyEncoding
            && first.origin.signature == Zeros(65)
          else
            && first.origin.multiMode == o.multiMode && first.origin.required == o.required
            && first.origin.fields == [])
      && (auth.Sponsored? ==> first.sponsor == Singlesig(P2PKH, Zeros(20), 0, 0, Compressed, Zeros(65)))
  {
  }
}
