/** The transaction decoder refuses whatever is not an encoding: anything it accepts is byte for byte the
    encoding of what it returns, and obeys every rule (src/tx/auth.rs). */
module TxSound {
  import opened Prelude
  import opened Bytes
  import opened TxTypes
  import opened TxCodec
  import opened TxVerdict

  lemma ByteSound(s: seq<byte>)
    requires ReadUint(1, s).Got?
    ensures ReadUint(1, s).value < 256 && s == [ReadUint(1, s).value] + ReadUint(1, s).rest
  {
    ReadUintSound(1, s);
    assert FromBigEndian(s[..1]) == s[0] by {
      assert s[..1][..0] == [];
    }
    assert s == [s[0]] + s[1..];
  }

  /** The points of a field the curve accepts. */
  function FieldChecker(valid: Point -> bool): AuthField -> bool {
    (f: AuthField) => f.PublicKeyField? ==> valid(f.key.point)
  }

  lemma FieldSound(valid: Point -> bool, s: seq<byte>)
    requires DecodeField(valid, s).Got?
    ensures
      var r := DecodeField(valid, s);
      s == EncodeField(r.value) + r.rest && (r.value.PublicKeyField? ==> valid(r.value.key.point))
  {
    ByteSound(s);
    var id := ReadUint(1, s);
    var body := ReadBytes(if id.value <= 0x01 then 33 else 65, id.rest);
    assert [id.value] + body.value + body.rest == [id.value] + (body.value + body.rest);
  }

  lemma FieldsSound(w: Wire, s: seq<byte>)
    requires DecodeVecWithin(w.maxMessage, 0xFFFF_FFFF, FieldDecoder(w.validPoint), s).Got?
    ensures
      var r := DecodeVecWithin(w.maxMessage, 0xFFFF_FFFF, FieldDecoder(w.validPoint), s);
      && |r.value| < 0x1_0000_0000 && s == EncodeVec(r.value, EncodeField) + r.rest && FieldsFit(w, r.value)
      && forall i | 0 <= i < |r.value| :: r.value[i].PublicKeyField? ==> w.validPoint(r.value[i].key.point)
  {
    var decode, check := FieldDecoder(w.validPoint), FieldChecker(w.validPoint);
    forall t: seq<byte> ensures SoundAt(decode, EncodeField, check, t) {
      if decode(t).Got? {
        FieldSound(w.validPoint, t);
      }
    }
    VecWithinSound(w.maxMessage, 0xFFFF_FFFF, decode, EncodeField, check, s);
    var r := DecodeVecWithin(w.maxMessage, 0xFFFF_FFFF, decode, s);
    forall i | 0 <= i < |r.value| ensures r.value[i].PublicKeyField? ==> w.validPoint(r.value[i].key.point) {
      assert check(r.value[i]);
    }
  }

  /** The fixed front of every condition: signer, nonce and fee. */
  lemma FrontSound(s: seq<byte>)
    requires ReadBytes(20, s).Got? && ReadU64(ReadBytes(20, s).rest).Got?
    requires ReadU64(ReadU64(ReadBytes(20, s).rest).rest).Got?
    ensures
      var signer := ReadBytes(20, s);
      var nonce := ReadU64(signer.rest);
      var fee := ReadU64(nonce.rest);
      s == signer.value + ToBigEndian(nonce.value, 8) + ToBigEndian(fee.value, 8) + fee.rest
  {
    var signer := ReadBytes(20, s);
    var nonce := ReadU64(signer.rest);
    var fee := ReadU64(nonce.rest);
    ReadUintSound(8, signer.rest);
    ReadUintSound(8, nonce.rest);
    assert signer.value + ToBigEndian(nonce.value, 8) + ToBigEndian(fee.value, 8) + fee.rest
        == signer.value + (ToBigEndian(nonce.value, 8) + (ToBigEndian(fee.value, 8) + fee.rest));
  }

  lemma SinglesigSound(mode: SinglesigHashMode, s: seq<byte>)
    requires DecodeSinglesig(mode, s).Got?
    ensures
      var r := DecodeSinglesig(mode, s);
      var c := r.value;
      && c.Singlesig? && c.singleMode == mode && Admissible(c)
      && s == EncodeSinglesigTail(c.signer, c.nonce, c.txFee, c.keyEncoding, c.signature) + r.rest
  {
    FrontSound(s);
    var fee := ReadU64(ReadU64(ReadBytes(20, s).rest).rest);
    EndSound(fee.rest);
    var r := DecodeSinglesig(mode, s);
    var c := r.value;
    var front := c.signer + ToBigEndian(c.nonce, 8) + ToBigEndian(c.txFee, 8);
    assert s == front + ([c.keyEncoding.Byte()] + (c.signature + r.rest));
    Join(front, [c.keyEncoding.Byte()], c.signature, r.rest);
  }

  /** The key encoding and the signature. */
  lemma EndSound(s: seq<byte>)
    requires ReadUint(1, s).Got? && ReadUint(1, s).value <= 0x01 && ReadBytes(65, ReadUint(1, s).rest).Got?
    ensures
      var sig := ReadBytes(65, ReadUint(1, s).rest);
      s == [EncodingOf(ReadUint(1, s).value == 0x00).Byte()] + (sig.value + sig.rest)
  {
    ByteSound(s);
  }

  lemma PartsSound(w: Wire, s: seq<byte>)
    requires DecodeMultisigParts(w, s).Got?
    ensures
      var r := DecodeMultisigParts(w, s);
      var p := r.value;
      && s == EncodeMultisigTail(p.signer, p.nonce, p.fee, p.fields, p.required) + r.rest
      && |p.fields| < 0x1_0000_0000 && FieldsFit(w, p.fields)
      && forall i | 0 <= i < |p.fields| :: p.fields[i].PublicKeyField? ==> w.validPoint(p.fields[i].key.point)
  {
    FrontSound(s);
    var fee := ReadU64(ReadU64(ReadBytes(20, s).rest).rest);
    FieldsSound(w, fee.rest);
    var fields := DecodeVecWithin(w.maxMessage, 0xFFFF_FFFF, FieldDecoder(w.validPoint), fee.rest);
    ReadUintSound(2, fields.rest);
    var r := DecodeMultisigParts(w, s);
    var front := r.value.signer + ToBigEndian(r.value.nonce, 8) + ToBigEndian(r.value.fee, 8);
    Join(front, EncodeVec(r.value.fields, EncodeField), ToBigEndian(r.value.required, 2), r.rest);
  }

  lemma Join(a: seq<byte>, b: seq<byte>, c: seq<byte>, d: seq<byte>)
    ensures a + (b + (c + d)) == a + b + c + d
  {
  }

  /** Every rule of the decoder. */
  ghost predicate Received(w: Wire, c: SpendingCondition) {
    Representable(w, c) && Admissible(c) && Fits(w, c)
  }

  lemma MultisigSound(w: Wire, orderIndependent: bool, mode: MultisigHashMode, s: seq<byte>)
    requires DecodeMultisig(w, orderIndependent, mode, s).Got?
    ensures
      var r := DecodeMultisig(w, orderIndependent, mode, s);
      var c := r.value;
      && (if orderIndependent then c.OrderIndependentMultisig? else c.Multisig?) && c.multiMode == mode
      && Received(w, c) && s == EncodeMultisigTail(c.signer, c.nonce, c.txFee, c.fields, c.required) + r.rest
  {
    PartsSound(w, s);
  }

  /** Whatever decodes to a condition is that condition's encoding and the rest. */
  lemma ConditionSound(w: Wire, s: seq<byte>)
    requires DecodeCondition(w, s).Got?
    ensures
      var r := DecodeCondition(w, s);
      s == EncodeCondition(r.value) + r.rest && Received(w, r.value)
  {
    ByteSound(s);
    var mode: byte, s1 := ReadUint(1, s).value, ReadUint(1, s).rest;
    ModeRead(w, s, mode, s1);
    var r := DecodeCondition(w, s);
    TailReceived(w, mode, s1, r.value, r.rest);
    UnderMode(mode, s1, EncodeCondition(r.value), r.rest);
  }

  lemma UnderMode(mode: byte, s1: seq<byte>, wire: seq<byte>, rest: seq<byte>)
    requires exists tail: seq<byte> :: wire == [mode] + tail && s1 == tail + rest
    ensures [mode] + s1 == wire + rest
  {
    var tail: seq<byte> :| wire == [mode] + tail && s1 == tail + rest;
    assert [mode] + tail + rest == [mode] + (tail + rest);
  }

  lemma TailReceived(w: Wire, mode: byte, s1: seq<byte>, c: SpendingCondition, rest: seq<byte>)
    requires DecodeConditionTail(w, mode, s1) == Got(c, rest)
    ensures Received(w, c) && exists tail: seq<byte> :: EncodeCondition(c) == [mode] + tail && s1 == tail + rest
  {
    TailSound(w, mode, s1);
  }

  lemma TailSound(w: Wire, mode: byte, s: seq<byte>)
    requires DecodeConditionTail(w, mode, s).Got?
    ensures
      var r := DecodeConditionTail(w, mode, s);
      && Received(w, r.value)
      && exists tail: seq<byte> :: EncodeCondition(r.value) == [mode] + tail && s == tail + r.rest
  {
    if mode == 0x00 || mode == 0x02 {
      SinglesigSound(if mode == 0x00 then P2PKH else P2WPKH, s);
      var c := DecodeConditionTail(w, mode, s).value;
      assert EncodeCondition(c)
          == [mode] + EncodeSinglesigTail(c.signer, c.nonce, c.txFee, c.keyEncoding, c.signature);
    } else {
      MultisigSound(w, mode == 0x05 || mode == 0x07, if mode == 0x01 || mode == 0x05 then P2SH else P2WSH, s);
      var c := DecodeConditionTail(w, mode, s).value;
      MultisigLayout(c, mode, EncodeMultisigTail(c.signer, c.nonce, c.txFee, c.fields, c.required));
    }
  }

  // ---------------------------------------------------------------- the rules, spelled out

  predicate CompressedField(f: AuthField) {
    match f
    case PublicKeyField(key) => key.compressed
    case SignatureField(encoding, _) => encoding.Compressed?
  }

  /** What the receiver demands of a condition: compressed keys under the witness modes, points on the curve,
      as many signatures as required, or at least as many if order does not matter, and no more bytes of
      fields than it reads. */
  ghost predicate Obeys(w: Wire, c: SpendingCondition) {
    if c.Singlesig? then c.singleMode.P2WPKH? ==> c.keyEncoding.Compressed?
    else
      && |c.fields| < 0x1_0000_0000
      && (forall i | 0 <= i < |c.fields| :: c.fields[i].PublicKeyField? ==> w.validPoint(c.fields[i].key.point))
      && (c.multiMode.P2WSH? ==> forall i | 0 <= i < |c.fields| :: CompressedField(c.fields[i]))
      && SignatureCount(c.fields) <= 65535
      && (if c.Multisig? then SignatureCount(c.fields) == c.required else SignatureCount(c.fields) >= c.required)
      && 4 + 34 * |c.fields| + 32 * SignatureCount(c.fields) <= w.maxMessage
  }

  lemma {:induction false} CountFront(f: AuthField, fields: seq<AuthField>)
    ensures CountSignatures([f] + fields) == CountSignatures(fields) + (if f.SignatureField? then 1 else 0)
  {
    var all := [f] + fields;
    if fields == [] {
      assert all[..0] == [];
    } else {
      var n := |fields| - 1;
      assert all[..n + 1] == [f] + fields[..n];
      CountFront(f, fields[..n]);
    }
  }

  /** A public key takes 34 bytes and a signature 66. */
  lemma {:induction false} FieldsLength(fields: seq<AuthField>)
    ensures |EncodeItems(fields, EncodeField)| == 34 * |fields| + 32 * CountSignatures(fields)
  {
    if fields != [] {
      FieldsLength(fields[1..]);
      CountFront(fields[0], fields[1..]);
      assert fields == [fields[0]] + fields[1..];
    }
  }

  lemma ObeysIff(w: Wire, c: SpendingCondition)
    ensures Obeys(w, c) <==> Received(w, c)
  {
    if !c.Singlesig? {
      CountedOneByOne(c.fields);
      FieldsLength(c.fields);
      assert forall i | 0 <= i < |c.fields| :: CompressedField(c.fields[i]) == !FieldUncompressed(c.fields[i]);
    }
  }

  /** The decoder accepts a byte string if and only if it is the encoding of an authorization that obeys
      every rule, followed by what is left unread. */
  lemma AuthDecodesIff(w: Wire, s: seq<byte>, a: Auth, rest: seq<byte>)
    ensures DecodeAuth(w, s) == Got(a, rest) <==>
              && s == EncodeAuth(a) + rest
              && Obeys(w, a.origin) && (a.Sponsored? ==> Obeys(w, a.sponsor))
  {
    ReceivedDecodesIff(w, s, a, rest);
    ObeysIff(w, a.origin);
    if a.Sponsored? {
      ObeysIff(w, a.sponsor);
    }
  }

  lemma ReceivedDecodesIff(w: Wire, s: seq<byte>, a: Auth, rest: seq<byte>)
    ensures DecodeAuth(w, s) == Got(a, rest) <==>
              s == EncodeAuth(a) + rest && AuthRepresentable(w, a) && AuthAdmissible(a) && AuthFits(w, a)
  {
    if DecodeAuth(w, s) == Got(a, rest) {
      ByteSound(s);
      var flag := ReadUint(1, s);
      ConditionSound(w, flag.rest);
      var o := DecodeCondition(w, flag.rest);
      if a.Sponsored? {
        ConditionSound(w, o.rest);
        Join([0x05], EncodeCondition(a.origin), EncodeCondition(a.sponsor), rest);
      } else {
        assert [0x04] + (EncodeCondition(a.origin) + rest) == [0x04] + EncodeCondition(a.origin) + rest;
      }
    } else if AuthRepresentable(w, a) {
      AuthOnTheWire(w, a, rest);
    }
  }
}
