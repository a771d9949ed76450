/** The wire format of transaction authorizations (src/tx/auth.rs). */
module TxCodec {
  import opened Prelude
  import opened Bytes
  import opened TxTypes

  // ---------------------------------------------------------------- serialization

  function SingleModeByte(m: SinglesigHashMode): byte {
    if m.P2PKH? then 0x00 else 0x02
  }

  function MultiModeByte(m: MultisigHashMode): byte {
    if m.P2SH? then 0x01 else 0x03
  }

  function OrderIndependentModeByte(m: MultisigHashMode): byte {
    if m.P2SH? then 0x05 else 0x07
  }

  function EncodeField(f: AuthField): seq<byte> {
    match f
    case PublicKeyField(key) => [if key.compressed then 0x00 else 0x01] + key.point
    case SignatureField(encoding, sig) => [if encoding.Compressed? then 0x02 else 0x03] + sig
  }

  function EncodeCondition(c: SpendingCondition): seq<byte> {
    match c
    case Singlesig(mode, signer, nonce, fee, encoding, signature) =>
      [SingleModeByte(mode)] + EncodeSinglesigTail(signer, nonce, fee, encoding, signature)
    case Multisig(mode, signer, nonce, fee, fields, required) =>
      [MultiModeByte(mode)] + EncodeMultisigTail(signer, nonce, fee, fields, required)
    case OrderIndependentMultisig(mode, signer, nonce, fee, fields, required) =>
      [OrderIndependentModeByte(mode)] + EncodeMultisigTail(signer, nonce, fee, fields, required)
  }

  function EncodeSinglesigTail(
      signer: Hash160, nonce: u64, fee: u64, encoding: KeyEncoding, signature: Signature): seq<byte> {
    signer + ToBigEndian(nonce, 8) + ToBigEndian(fee, 8) + [encoding.Byte()] + signature
  }

  function EncodeMultisigTail(signer: Hash160, nonce: u64, fee: u64, fields: seq<AuthField>, required: u16): seq<byte> {
    signer + ToBigEndian(nonce, 8) + ToBigEndian(fee, 8) + EncodeVec(fields, EncodeField) + ToBigEndian(required, 2)
  }

  function EncodeAuth(a: Auth): seq<byte> {
    match a
    case Standard(o) => [AuthStandard.Byte()] + EncodeCondition(o)
    case Sponsored(o, s) => [AuthSponsored.Byte()] + EncodeCondition(o) + EncodeCondition(s)
  }

  function EncodeTransaction(tx: Transaction): seq<byte> {
    [tx.version] + ToBigEndian(tx.chainId, 4) + EncodeAuth(tx.auth) + tx.body
  }

  // ---------------------------------------------------------------- deserialization

  /** What a decoder is given from outside: which points are on the curve, and how many bytes it may
      read for the auth fields of a condition. */
  datatype Wire = Wire(validPoint: Point -> bool, maxMessage: nat)

  function DecodeField(valid: Point -> bool, s: seq<byte>): Parsed<AuthField> {
    var (id, s1) :- ReadUint(1, s);
    if id == 0x00 || id == 0x01 then
      var (point, s2) :- ReadBytes(33, s1);
      if valid(point) then Got(PublicKeyField(PublicKey(point, id == 0x00)), s2) else Fail
    else if id == 0x02 || id == 0x03 then
      var (sig, s2) :- ReadBytes(65, s1);
      Got(SignatureField(EncodingOf(id == 0x02), sig), s2)
    else Fail
  }

  function FieldDecoder(valid: Point -> bool): seq<byte> -> Parsed<AuthField> {
    (s: seq<byte>) => DecodeField(valid, s)
  }

  /** The first byte selects the kind of condition and its hash mode. */
  function DecodeCondition(w: Wire, s: seq<byte>): Parsed<SpendingCondition> {
    var (mode, s1) :- ReadUint(1, s);
    DecodeConditionTail(w, mode, s1)
  }

  function DecodeConditionTail(w: Wire, mode: nat, s1: seq<byte>): Parsed<SpendingCondition> {
    if mode == 0x00 || mode == 0x02 then
      DecodeSinglesig(if mode == 0x00 then P2PKH else P2WPKH, s1)
    else if mode == 0x01 || mode == 0x03 then
      DecodeMultisig(w, false, if mode == 0x01 then P2SH else P2WSH, s1)
    else if mode == 0x05 || mode == 0x07 then
      DecodeMultisig(w, true, if mode == 0x05 then P2SH else P2WSH, s1)
    else Fail
  }

  function DecodeSinglesig(mode: SinglesigHashMode, s: seq<byte>): Parsed<SpendingCondition> {
    var (signer, s1) :- ReadBytes(20, s);
    var (nonce, s2) :- ReadU64(s1);
    var (fee, s3) :- ReadU64(s2);
    var (enc, s4) :- ReadUint(1, s3);
    if enc > 0x01 then Fail
    else
      var encoding := EncodingOf(enc == 0x00);
      var (signature, s5) :- ReadBytes(65, s4);
      if mode.P2WPKH? && encoding.Uncompressed? then Fail
      else Got(Singlesig(mode, signer, nonce, fee, encoding, signature), s5)
  }

  datatype MultisigParts = MultisigParts(signer: Hash160, nonce: u64, fee: u64, fields: seq<AuthField>, required: u16)

  function DecodeMultisigParts(w: Wire, s: seq<byte>): Parsed<MultisigParts> {
    var (signer, s1) :- ReadBytes(20, s);
    var (nonce, s2) :- ReadU64(s1);
    var (fee, s3) :- ReadU64(s2);
    var (fields, s4) :- DecodeVecWithin(w.maxMessage, 0xFFFF_FFFF, FieldDecoder(w.validPoint), s3);
    var (required, s5) :- ReadU16(s4);
    Got(MultisigParts(signer, nonce, fee, fields, required), s5)
  }

  /** Both multisig kinds: exactly the required number of signatures, or at least it when order
      does not matter; and compressed keys only under P2WSH. */
  predicate PartsAllowed(orderIndependent: bool, mode: MultisigHashMode, p: MultisigParts) {
    var n := CountSignatures(p.fields);
    && n <= MAX_U16
    && (if orderIndependent then n >= p.required else n == p.required)
    && (mode.P2WSH? ==> !AnyUncompressed(p.fields))
  }

  function DecodeMultisig(w: Wire, orderIndependent: bool, mode: MultisigHashMode, s: seq<byte>)
    : Parsed<SpendingCondition>
  {
    var (p, rest) :- DecodeMultisigParts(w, s);
    if !PartsAllowed(orderIndependent, mode, p) then Fail
    else if orderIndependent then
      Got(OrderIndependentMultisig(mode, p.signer, p.nonce, p.fee, p.fields, p.required), rest)
    else Got(Multisig(mode, p.signer, p.nonce, p.fee, p.fields, p.required), rest)
  }

  function DecodeAuth(w: Wire, s: seq<byte>): Parsed<Auth> {
    var (flag, s1) :- ReadUint(1, s);
    if flag == 0x04 then
      var (o, s2) :- DecodeCondition(w, s1);
      Got(Standard(o), s2)
    else if flag == 0x05 then
      var (o, s2) :- DecodeCondition(w, s1);
      var (p, s3) :- DecodeCondition(w, s2);
      Got(Sponsored(o, p), s3)
    else Fail
  }

  function ReadU64(s: seq<byte>): (r: Parsed<u64>)
    ensures r == ReadUint(8, s)
  {
    PowersOf256();
    var (b, rest) :- ReadBytes(8, s);
    BigEndianBound(b);
    Got(FromBigEndian(b), rest)
  }

  function ReadU16(s: seq<byte>): (r: Parsed<u16>)
    ensures r == ReadUint(2, s)
  {
    PowersOf256();
    var (b, rest) :- ReadBytes(2, s);
    BigEndianBound(b);
    Got(FromBigEndian(b), rest)
  }

  // ---------------------------------------------------------------- which values survive the wire

  /** What the wire can carry at all: a 32-bit field count and public keys the curve accepts. */
  ghost predicate Representable(w: Wire, c: SpendingCondition) {
    !c.Singlesig? ==>
      && |c.fields| < 0x1_0000_0000
      && forall i | 0 <= i < |c.fields| :: c.fields[i].PublicKeyField? ==> w.validPoint(c.fields[i].key.point)
  }

  /** The signature-count and compressed-key rules the decoder enforces. */
  ghost predicate Admissible(c: SpendingCondition) {
    match c
    case Singlesig(mode, _, _, _, encoding, _) => mode.P2WPKH? ==> encoding.Compressed?
    case Multisig(mode, _, _, _, fields, required) =>
      CountSignatures(fields) == required && (mode.P2WSH? ==> !AnyUncompressed(fields))
    case OrderIndependentMultisig(mode, _, _, _, fields, required) =>
      required <= CountSignatures(fields) <= MAX_U16 && (mode.P2WSH? ==> !AnyUncompressed(fields))
  }

  lemma OneByte(b: byte, rest: seq<byte>)
    ensures ReadUint(1, [b] + rest) == Got(b, rest)
  {
    ReadBytesRoundTrip([b], rest);
    assert [b][..0] == [];
    assert FromBigEndian([b]) == 256 * FromBigEndian([]) + b;
  }

  lemma FieldRoundTrip(valid: Point -> bool, f: AuthField, rest: seq<byte>)
    requires f.PublicKeyField? ==> valid(f.key.point)
    ensures DecodeField(valid, EncodeField(f) + rest) == Got(f, rest)
  {
    match f
    case PublicKeyField(key) =>
      var id: byte := if key.compressed then 0x00 else 0x01;
      assert EncodeField(f) + rest == [id] + (key.point + rest);
      OneByte(id, key.point + rest);
      ReadBytesRoundTrip(key.point, rest);
    case SignatureField(encoding, sig) =>
      var id: byte := if encoding.Compressed? then 0x02 else 0x03;
      assert EncodeField(f) + rest == [id] + (sig + rest);
      OneByte(id, sig + rest);
      ReadBytesRoundTrip(sig, rest);
  }

  lemma FieldStreams(valid: Point -> bool)
    ensures Streams(FieldDecoder(valid))
  {
    forall s: seq<byte>, more: seq<byte> ensures StreamsAt(FieldDecoder(valid), s, more) {
      if DecodeField(valid, s).Got? {
        ReadBytesStreams(1, s, more);
        var id := ReadUint(1, s);
        ReadBytesStreams(if id.value <= 0x01 then 33 else 65, id.rest, more);
      }
    }
  }

  /** The auth fields fit the message. */
  predicate FieldsFit(w: Wire, fields: seq<AuthField>) {
    |EncodeVec(fields, EncodeField)| <= w.maxMessage
  }

  lemma FieldsRoundTrip(w: Wire, fields: seq<AuthField>, rest: seq<byte>)
    requires |fields| < 0x1_0000_0000
    requires forall i | 0 <= i < |fields| :: fields[i].PublicKeyField? ==> w.validPoint(fields[i].key.point)
    ensures DecodeVecWithin(w.maxMessage, 0xFFFF_FFFF, FieldDecoder(w.validPoint),
                            EncodeVec(fields, EncodeField) + rest)
         == if FieldsFit(w, fields) then Got(fields, rest) else Fail
  {
    var decode := FieldDecoder(w.validPoint);
    forall i: nat, r: seq<byte> | i < |fields|
      ensures decode(EncodeField(fields[i]) + r) == Got(fields[i], r)
    {
      FieldRoundTrip(w.validPoint, fields[i], r);
    }
    FieldStreams(w.validPoint);
    VecWithinRoundTrip(fields, w.maxMessage, 0xFFFF_FFFF, EncodeField, decode, rest);
  }

  lemma SinglesigOnTheWire(c: SpendingCondition, rest: seq<byte>)
    requires c.Singlesig?
    ensures DecodeSinglesig(c.singleMode,
                            EncodeSinglesigTail(c.signer, c.nonce, c.txFee, c.keyEncoding, c.signature) + rest)
         == if Admissible(c) then Got(c, rest) else Fail
  {
    PowersOf256();
    var w5 := c.signature + rest;
    var w4 := [c.keyEncoding.Byte()] + w5;
    var w3 := ToBigEndian(c.txFee, 8) + w4;
    var w2 := ToBigEndian(c.nonce, 8) + w3;
    assert EncodeSinglesigTail(c.signer, c.nonce, c.txFee, c.keyEncoding, c.signature) + rest == c.signer + w2;
    ReadBytesRoundTrip(c.signer, w2);
    ReadUintRoundTrip(c.nonce, 8, w3);
    ReadUintRoundTrip(c.txFee, 8, w4);
    OneByte(c.keyEncoding.Byte(), w5);
    ReadBytesRoundTrip(c.signature, rest);
  }

  lemma MultisigPartsRoundTrip(w: Wire, c: SpendingCondition, rest: seq<byte>)
    requires !c.Singlesig? && Representable(w, c)
    ensures DecodeMultisigParts(w, EncodeMultisigTail(c.signer, c.nonce, c.txFee, c.fields, c.required) + rest)
         == if FieldsFit(w, c.fields) then Got(MultisigParts(c.signer, c.nonce, c.txFee, c.fields, c.required), rest)
            else Fail
  {
    var fields, required := EncodeVec(c.fields, EncodeField), ToBigEndian(c.required, 2);
    FieldsRoundTrip(w, c.fields, required + rest);
    RequiredRoundTrip(c.required, rest);
    MultisigHeader(c.signer, c.nonce, c.txFee, fields, required, rest);
  }

  lemma RequiredRoundTrip(required: u16, rest: seq<byte>)
    ensures ReadU16(ToBigEndian(required, 2) + rest) == Got(required, rest)
  {
    PowersOf256();
    ReadUintRoundTrip(required, 2, rest);
  }

  /** The fixed front of a multisig condition: signer, nonce and fee. */
  lemma MultisigHeader(signer: Hash160, nonce: u64, fee: u64, fields: seq<byte>, required: seq<byte>, rest: seq<byte>)
    ensures
      var s := signer + ToBigEndian(nonce, 8) + ToBigEndian(fee, 8) + fields + required + rest;
      var s3 := fields + (required + rest);
      && ReadBytes(20, s).Got? && ReadBytes(20, s).value == signer
      && ReadU64(ReadBytes(20, s).rest).Got? && ReadU64(ReadBytes(20, s).rest).value == nonce
      && ReadU64(ReadU64(ReadBytes(20, s).rest).rest) == Got(fee, s3)
  {
    PowersOf256();
    var s3 := fields + (required + rest);
    var s2 := ToBigEndian(fee, 8) + s3;
    var s1 := ToBigEndian(nonce, 8) + s2;
    assert signer + ToBigEndian(nonce, 8) + ToBigEndian(fee, 8) + fields + required + rest == signer + s1;
    ReadBytesRoundTrip(signer, s1);
    ReadUintRoundTrip(nonce, 8, s2);
    ReadUintRoundTrip(fee, 8, s3);
  }

  lemma Dispatch(w: Wire, mode: byte, tail: seq<byte>, rest: seq<byte>)
    ensures DecodeCondition(w, [mode] + tail + rest) == DecodeConditionTail(w, mode, tail + rest)
  {
    assert [mode] + tail + rest == [mode] + (tail + rest);
    OneByte(mode, tail + rest);
    ModeRead(w, [mode] + tail + rest, mode, tail + rest);
  }

  lemma ModeRead(w: Wire, s: seq<byte>, mode: byte, s1: seq<byte>)
    requires ReadUint(1, s) == Got(mode, s1)
    ensures DecodeCondition(w, s) == DecodeConditionTail(w, mode, s1)
  {
  }

  /** A condition's fields fit the message. */
  predicate Fits(w: Wire, c: SpendingCondition) {
    !c.Singlesig? ==> FieldsFit(w, c.fields)
  }

  /** A condition decodes to itself exactly when it obeys the decoder's rules and fits, and is refused
      otherwise; the first byte alone selects its kind. */
  lemma ConditionOnTheWire(w: Wire, c: SpendingCondition, rest: seq<byte>)
    requires Representable(w, c)
    ensures DecodeCondition(w, EncodeCondition(c) + rest) == if Admissible(c) && Fits(w, c) then Got(c, rest) else Fail
  {
    if c.Singlesig? {
      SinglesigConditionOnTheWire(w, c, rest);
    } else {
      MultisigConditionOnTheWire(w, c, rest);
    }
  }

  lemma SinglesigConditionOnTheWire(w: Wire, c: SpendingCondition, rest: seq<byte>)
    requires c.Singlesig?
    ensures DecodeCondition(w, EncodeCondition(c) + rest) == if Admissible(c) then Got(c, rest) else Fail
  {
    var mode := SingleModeByte(c.singleMode);
    var tail := EncodeSinglesigTail(c.signer, c.nonce, c.txFee, c.keyEncoding, c.signature);
    SinglesigOnTheWire(c, rest);
    Dispatch(w, mode, tail, rest);
  }

  lemma MultisigConditionOnTheWire(w: Wire, c: SpendingCondition, rest: seq<byte>)
    requires !c.Singlesig? && Representable(w, c)
    ensures DecodeCondition(w, EncodeCondition(c) + rest) == if Admissible(c) && Fits(w, c) then Got(c, rest) else Fail
  {
    var tail := EncodeMultisigTail(c.signer, c.nonce, c.txFee, c.fields, c.required);
    var mode := if c.Multisig? then MultiModeByte(c.multiMode) else OrderIndependentModeByte(c.multiMode);
    MultisigTailOnTheWire(w, c, mode, tail, rest);
    MultisigLayout(c, mode, tail);
    Dispatch(w, mode, tail, rest);
  }

  lemma MultisigLayout(c: SpendingCondition, mode: byte, tail: seq<byte>)
    requires !c.Singlesig?
    requires mode == if c.Multisig? then MultiModeByte(c.multiMode) else OrderIndependentModeByte(c.multiMode)
    requires tail == EncodeMultisigTail(c.signer, c.nonce, c.txFee, c.fields, c.required)
    ensures EncodeCondition(c) == [mode] + tail
  {
  }

  lemma MultisigTailOnTheWire(w: Wire, c: SpendingCondition, mode: byte, tail: seq<byte>, rest: seq<byte>)
    requires !c.Singlesig? && Representable(w, c)
    requires mode == if c.Multisig? then MultiModeByte(c.multiMode) else OrderIndependentModeByte(c.multiMode)
    requires tail == EncodeMultisigTail(c.signer, c.nonce, c.txFee, c.fields, c.required)
    ensures DecodeConditionTail(w, mode, tail + rest) == if Admissible(c) && Fits(w, c) then Got(c, rest) else Fail
  {
    MultisigPartsRoundTrip(w, c, rest);
    MultisigDispatch(w, c, mode, tail + rest, rest);
  }

  lemma MultisigDispatch(w: Wire, c: SpendingCondition, mode: byte, s: seq<byte>, rest: seq<byte>)
    requires !c.Singlesig?
    requires mode == if c.Multisig? then MultiModeByte(c.multiMode) else OrderIndependentModeByte(c.multiMode)
    requires DecodeMultisigParts(w, s)
          == if Fits(w, c) then Got(MultisigParts(c.signer, c.nonce, c.txFee, c.fields, c.required), rest) else Fail
    ensures DecodeConditionTail(w, mode, s) == if Admissible(c) && Fits(w, c) then Got(c, rest) else Fail
  {
    MultisigFromParts(w, c, s, rest);
    ModeByteSelects(w, c, mode, s);
  }

  lemma ModeByteSelects(w: Wire, c: SpendingCondition, mode: byte, s: seq<byte>)
    requires !c.Singlesig?
    requires mode == if c.Multisig? then MultiModeByte(c.multiMode) else OrderIndependentModeByte(c.multiMode)
    ensures DecodeConditionTail(w, mode, s) == DecodeMultisig(w, c.OrderIndependentMultisig?, c.multiMode, s)
  {
  }

  lemma MultisigFromParts(w: Wire, c: SpendingCondition, s: seq<byte>, rest: seq<byte>)
    requires !c.Singlesig?
    requires DecodeMultisigParts(w, s)
          == if Fits(w, c) then Got(MultisigParts(c.signer, c.nonce, c.txFee, c.fields, c.required), rest) else Fail
    ensures DecodeMultisig(w, c.OrderIndependentMultisig?, c.multiMode, s)
         == if Admissible(c) && Fits(w, c) then Got(c, rest) else Fail
  {
  }

  ghost predicate AuthRepresentable(w: Wire, a: Auth) {
    Representable(w, a.origin) && (a.Sponsored? ==> Representable(w, a.sponsor))
  }

  predicate AuthFits(w: Wire, a: Auth) {
    Fits(w, a.origin) && (a.Sponsored? ==> Fits(w, a.sponsor))
  }

  ghost predicate AuthAdmissible(a: Auth) {
    Admissible(a.origin) && (a.Sponsored? ==> Admissible(a.sponsor))
  }

  /** Decoding an encoded authorization followed by any bytes gives back that authorization and
      exactly those bytes, or refuses it, according to the decoder's rules. */
  lemma AuthOnTheWire(w: Wire, a: Auth, rest: seq<byte>)
    requires AuthRepresentable(w, a)
    ensures DecodeAuth(w, EncodeAuth(a) + rest) == if AuthAdmissible(a) && AuthFits(w, a) then Got(a, rest) else Fail
  {
    match a
    case Standard(o) =>
      ConditionOnTheWire(w, o, rest);
      StandardDispatch(w, EncodeCondition(o), rest);
    case Sponsored(o, p) =>
      ConditionOnTheWire(w, o, EncodeCondition(p) + rest);
      ConditionOnTheWire(w, p, rest);
      SponsoredDispatch(w, EncodeCondition(o), EncodeCondition(p), rest);
  }

  lemma StandardDispatch(w: Wire, origin: seq<byte>, rest: seq<byte>)
    ensures DecodeAuth(w, [0x04] + origin + rest)
         == match DecodeCondition(w, origin + rest) case Fail => Fail case Got(o, r) => Got(Standard(o), r)
  {
    assert [0x04] + origin + rest == [0x04] + (origin + rest);
    OneByte(0x04, origin + rest);
  }

  lemma SponsoredDispatch(w: Wire, origin: seq<byte>, sponsor: seq<byte>, rest: seq<byte>)
    requires DecodeCondition(w, origin + (sponsor + rest)).Got? ==>
               DecodeCondition(w, origin + (sponsor + rest)).rest == sponsor + rest
    ensures DecodeAuth(w, [0x05] + origin + sponsor + rest)
         == match DecodeCondition(w, origin + (sponsor + rest))
            case Fail => Fail
            case Got(o, _) =>
              (match DecodeCondition(w, sponsor + rest) case Fail => Fail case Got(p, r) => Got(Sponsored(o, p), r))
  {
    assert [0x05] + origin + sponsor + rest == [0x05] + (origin + (sponsor + rest));
    OneByte(0x05, origin + (sponsor + rest));
  }
}
