/** Transactions, their authorization structures and the cryptographic operations they rely on. */
module TxTypes {
  import opened Prelude
  import opened Bytes

  type Txid = s: seq<byte> | |s| == 32 witness Zeros(32)
  type Point = s: seq<byte> | |s| == 33 witness Zeros(33)
  type Signature = s: seq<byte> | |s| == 65 witness Zeros(65)

  const EMPTY_SIGNATURE: Signature := Zeros(65)
  const ZERO_HASH160: Hash160 := Zeros(20)

  datatype KeyEncoding = Compressed | Uncompressed {
    function Byte(): byte {
      if Compressed? then 0x00 else 0x01
    }
  }

  function EncodingOf(compressed: bool): KeyEncoding {
    if compressed then Compressed else Uncompressed
  }

  datatype PublicKey = PublicKey(point: Point, compressed: bool)
  datatype PrivateKey = PrivateKey(secret: seq<byte>, compressPublic: bool)

  datatype AuthFlag = AuthStandard | AuthSponsored {
    function Byte(): byte {
      if AuthStandard? then 0x04 else 0x05
    }
  }

  datatype AuthField =
    | PublicKeyField(key: PublicKey)
    | SignatureField(encoding: KeyEncoding, sig: Signature)

  datatype SinglesigHashMode = P2PKH | P2WPKH
  /** Shared by the two multisig conditions, whose mode bytes differ. */
  datatype MultisigHashMode = P2SH | P2WSH

  datatype AddressHashMode = SerializeP2PKH | SerializeP2SH | SerializeP2WPKH | SerializeP2WSH

  datatype SpendingCondition =
    | Singlesig(singleMode: SinglesigHashMode, signer: Hash160, nonce: u64, txFee: u64,
                keyEncoding: KeyEncoding, signature: Signature)
    | Multisig(multiMode: MultisigHashMode, signer: Hash160, nonce: u64, txFee: u64,
               fields: seq<AuthField>, required: u16)
    | OrderIndependentMultisig(multiMode: MultisigHashMode, signer: Hash160, nonce: u64, txFee: u64,
                               fields: seq<AuthField>, required: u16)
  {
    function AddressMode(): AddressHashMode {
      match this
      case Singlesig(m, _, _, _, _, _) => if m.P2PKH? then SerializeP2PKH else SerializeP2WPKH
      case _ => if multiMode.P2SH? then SerializeP2SH else SerializeP2WSH
    }

    function SignaturesRequired(): u16 {
      if Singlesig? then 1 else required
    }

    /** The number of signatures recorded so far. */
    function NumSignatures(): nat {
      if Singlesig? then (if signature != EMPTY_SIGNATURE then 1 else 0) else CountSignatures(fields)
    }

    /** Zeroes the fee and the nonce and drops every signature and public key. */
    function Clear(): SpendingCondition {
      if Singlesig? then this.(txFee := 0, nonce := 0, signature := EMPTY_SIGNATURE)
      else this.(txFee := 0, nonce := 0, fields := [])
    }

    predicate Unsigned() {
      if Singlesig? then signature == EMPTY_SIGNATURE else fields == []
    }
  }

  function CountSignatures(fields: seq<AuthField>): nat {
    if fields == [] then 0
    else CountSignatures(fields[..|fields| - 1]) + (if fields[|fields| - 1].SignatureField? then 1 else 0)
  }

  predicate AnyUncompressed(fields: seq<AuthField>) {
    exists i | 0 <= i < |fields| :: FieldUncompressed(fields[i])
  }

  predicate FieldUncompressed(f: AuthField) {
    match f
    case PublicKeyField(key) => !key.compressed
    case SignatureField(encoding, _) => encoding.Uncompressed?
  }

  /** The sponsor an origin commits to: all it knows is that there will be one. */
  const SENTINEL_SPONSOR: SpendingCondition :=
    Singlesig(P2PKH, ZERO_HASH160, 0, 0, Compressed, EMPTY_SIGNATURE)

  datatype Auth =
    | Standard(origin: SpendingCondition)
    | Sponsored(origin: SpendingCondition, sponsor: SpendingCondition)
  {
    function InitialSighashAuth(): Auth {
      match this
      case Standard(o) => Standard(o.Clear())
      case Sponsored(o, _) => Sponsored(o.Clear(), SENTINEL_SPONSOR)
    }
  }

  /** `body` is the serialized remainder of the transaction: anchor mode, post-conditions, payload. */
  datatype Transaction = Transaction(version: byte, chainId: u32, auth: Auth, body: seq<byte>)

  datatype Error = SigningError | VerifyingError | IncompatibleSpendingCondition

  /** The cryptographic operations, left open: a hash, a recoverable signature scheme, and the
      address derivation, each of which may refuse its input. */
  datatype Scheme = Scheme(
    hash: seq<byte> -> Txid,
    pointOf: seq<byte> -> Point,
    sign: (PrivateKey, Txid) -> Option<Signature>,
    recover: (Txid, Signature) -> Option<Point>,
    addressHash: (AddressHashMode, nat, seq<PublicKey>) -> Option<Hash160>,
    validPoint: Point -> bool)
  {
    function PublicKeyOf(k: PrivateKey): PublicKey {
      PublicKey(pointOf(k.secret), k.compressPublic)
    }

    /** Recovery undoes signing, and the all-zero placeholder is nobody's signature. */
    ghost predicate Lawful() {
      && (forall k: PrivateKey, m: Txid {:trigger sign(k, m)} ::
            sign(k, m).Some? ==> recover(m, sign(k, m).value) == Some(pointOf(k.secret)))
      && (forall m: Txid {:trigger recover(m, EMPTY_SIGNATURE)} :: recover(m, EMPTY_SIGNATURE) == None)
    }
  }

  /** A signature a lawful scheme produces is never the placeholder. */
  lemma SignaturesAreNotEmpty(scheme: Scheme, k: PrivateKey, m: Txid)
    requires scheme.Lawful()
    requires scheme.sign(k, m).Some?
    ensures scheme.sign(k, m).value != EMPTY_SIGNATURE
  {
    assert scheme.recover(m, scheme.sign(k, m).value) == Some(scheme.pointOf(k.secret));
    assert scheme.recover(m, EMPTY_SIGNATURE) == None;
  }

  lemma CountSignaturesAppend(fields: seq<AuthField>, f: AuthField)
    ensures CountSignatures(fields + [f]) == CountSignatures(fields) + (if f.SignatureField? then 1 else 0)
  {
    assert (fields + [f])[..|fields|] == fields;
  }
}
