/** What signatures cover and how conditions lie on the wire, byte by byte and field by field: positions
    and numbers are written out here, so that nothing rests on an encoder agreeing with itself
    (src/tx/auth.rs). */
module TxLayout {
  import opened Prelude
  import opened Bytes
  import opened TxTypes
  import opened TxCodec
  import opened TxAuth

  // ---------------------------------------------------------------- the bytes under a signature

  /** The 49 bytes a signature covers: a sighash, an auth flag, a fee and a nonce. */
  ghost predicate IsPresignText(p: seq<byte>, cur: Txid, flag: byte, fee: u64, nonce: u64) {
    && |p| == 49 && p[..32] == cur && p[32] == flag
    && FromBigEndian(p[33..41]) == fee && FromBigEndian(p[41..]) == nonce
  }

  /** The 98 bytes behind the sighash after it: what was signed, a key encoding and the signature. */
  ghost predicate IsPostsignText(q: seq<byte>, presign: Txid, encoding: byte, sig: Signature) {
    |q| == 98 && q[..32] == presign && q[32] == encoding && q[33..] == sig
  }

  ghost function PresignText(cur: Txid, flag: byte, fee: u64, nonce: u64): (p: seq<byte>)
    ensures IsPresignText(p, cur, flag, fee, nonce)
  {
    PowersOf256();
    BigEndianRoundTrip(fee, 8);
    BigEndianRoundTrip(nonce, 8);
    var p := cur + [flag] + ToBigEndian(fee, 8) + ToBigEndian(nonce, 8);
    assert p[..32] == cur && p[33..41] == ToBigEndian(fee, 8) && p[41..] == ToBigEndian(nonce, 8);
    p
  }

  /** There is no other such text. */
  lemma PresignTextIsUnique(p: seq<byte>, cur: Txid, flag: byte, fee: u64, nonce: u64)
    requires IsPresignText(p, cur, flag, fee, nonce)
    ensures p == cur + [flag] + ToBigEndian(fee, 8) + ToBigEndian(nonce, 8)
  {
    BigEndianOfRead(p[33..41]);
    BigEndianOfRead(p[41..]);
    assert p == p[..32] + [p[32]] + p[33..41] + p[41..];
  }

  /** Every one of those parts is signed: the texts of two links are the same only if all four are. */
  lemma PresignTextsDiffer(
      p: seq<byte>, cur: Txid, flag: byte, fee: u64, nonce: u64,
      q: seq<byte>, cur': Txid, flag': byte, fee': u64, nonce': u64)
    requires IsPresignText(p, cur, flag, fee, nonce) && IsPresignText(q, cur', flag', fee', nonce')
    ensures p == q <==> cur == cur' && flag == flag' && fee == fee' && nonce == nonce'
  {
    PresignTextIsUnique(p, cur, flag, fee, nonce);
    PresignTextIsUnique(q, cur', flag', fee', nonce');
  }

  /** The flag is 4 for an origin and 5 for a sponsor, whichever kind the transaction is. */
  function FlagCode(sponsor: bool): byte {
    if sponsor then 5 else 4
  }

  function EncodingCode(compressed: bool): byte {
    if compressed then 0 else 1
  }

  lemma PresignCovers(scheme: Scheme, cur: Txid, flag: AuthFlag, fee: u64, nonce: u64, p: seq<byte>)
    requires IsPresignText(p, cur, FlagCode(flag.AuthSponsored?), fee, nonce)
    ensures Presign(scheme, cur, flag, fee, nonce) == scheme.hash(p)
  {
    PresignTextIsUnique(p, cur, FlagCode(flag.AuthSponsored?), fee, nonce);
  }

  lemma PostsignCovers(scheme: Scheme, presign: Txid, compressed: bool, sig: Signature, q: seq<byte>)
    requires IsPostsignText(q, presign, EncodingCode(compressed), sig)
    ensures Postsign(scheme, presign, compressed, sig) == scheme.hash(q)
  {
    assert q == q[..32] + [q[32]] + q[33..];
  }

  ghost function PostsignText(presign: Txid, encoding: byte, sig: Signature): (q: seq<byte>)
    ensures IsPostsignText(q, presign, encoding, sig)
  {
    var q := presign + [encoding] + sig;
    assert q[..32] == presign && q[33..] == sig;
    q
  }

  lemma PostsignTextsDiffer(
      p: seq<byte>, presign: Txid, encoding: byte, sig: Signature,
      q: seq<byte>, presign': Txid, encoding': byte, sig': Signature)
    requires IsPostsignText(p, presign, encoding, sig) && IsPostsignText(q, presign', encoding', sig')
    ensures p == q <==> presign == presign' && encoding == encoding' && sig == sig'
  {
    assert p == p[..32] + [p[32]] + p[33..] && q == q[..32] + [q[32]] + q[33..];
  }

  // ---------------------------------------------------------------- one link, both ways

  /** From `cur`, the signature `sig` made under `encoding` leads to the sighash `next`, having signed
      `signed`. */
  ghost predicate IsLink(
      scheme: Scheme, cur: Txid, flag: byte, fee: u64, nonce: u64, encoding: byte, sig: Signature,
      signed: Txid, next: Txid)
  {
    && (exists p: seq<byte> :: IsPresignText(p, cur, flag, fee, nonce) && scheme.hash(p) == signed)
    && (exists q: seq<byte> :: IsPostsignText(q, signed, encoding, sig) && scheme.hash(q) == next)
  }

  lemma LinkIsHashed(
      scheme: Scheme, cur: Txid, flag: AuthFlag, fee: u64, nonce: u64, compressed: bool, sig: Signature,
      signed: Txid, next: Txid)
    ensures IsLink(scheme, cur, FlagCode(flag.AuthSponsored?), fee, nonce, EncodingCode(compressed), sig, signed, next)
       <==> signed == Presign(scheme, cur, flag, fee, nonce) && next == Postsign(scheme, signed, compressed, sig)
  {
    var code, encoding: byte := FlagCode(flag.AuthSponsored?), EncodingCode(compressed);
    PresignCovers(scheme, cur, flag, fee, nonce, PresignText(cur, code, fee, nonce));
    PostsignCovers(scheme, signed, compressed, sig, PostsignText(signed, encoding, sig));
    if IsLink(scheme, cur, code, fee, nonce, encoding, sig, signed, next) {
      var p :| IsPresignText(p, cur, code, fee, nonce) && scheme.hash(p) == signed;
      PresignCovers(scheme, cur, flag, fee, nonce, p);
      var q :| IsPostsignText(q, signed, encoding, sig) && scheme.hash(q) == next;
      PostsignCovers(scheme, signed, compressed, sig, q);
    }
  }

  /** What a key signs: the hash of the 49 bytes, and the next sighash is that of the 98. */
  lemma SigningCovers(
      scheme: Scheme, cur: Txid, flag: AuthFlag, fee: u64, nonce: u64, k: PrivateKey, sig: Signature, next: Txid)
    ensures NextSignature(scheme, cur, flag, fee, nonce, k) == Ok((sig, next)) <==>
              exists signed: Txid ::
                && IsLink(scheme, cur, FlagCode(flag.AuthSponsored?), fee, nonce,
                          EncodingCode(k.compressPublic), sig, signed, next)
                && scheme.sign(k, signed) == Some(sig)
  {
    var code, encoding: byte := FlagCode(flag.AuthSponsored?), EncodingCode(k.compressPublic);
    LinkIsHashed(scheme, cur, flag, fee, nonce, k.compressPublic, sig, Presign(scheme, cur, flag, fee, nonce), next);
    if signed: Txid :|
        IsLink(scheme, cur, code, fee, nonce, encoding, sig, signed, next) && scheme.sign(k, signed) == Some(sig) {
      LinkIsHashed(scheme, cur, flag, fee, nonce, k.compressPublic, sig, signed, next);
    }
  }

  /** What a verifier recovers a key from: the same bytes, with the encoding that was recorded. */
  lemma VerifyingCovers(
      scheme: Scheme, cur: Txid, flag: AuthFlag, fee: u64, nonce: u64, encoding: KeyEncoding, sig: Signature,
      key: PublicKey, next: Txid)
    ensures NextVerification(scheme, cur, flag, fee, nonce, encoding, sig) == Ok((key, next)) <==>
              && key.compressed == encoding.Compressed?
              && exists signed: Txid ::
                   && IsLink(scheme, cur, FlagCode(flag.AuthSponsored?), fee, nonce,
                             EncodingCode(encoding.Compressed?), sig, signed, next)
                   && scheme.recover(signed, sig) == Some(key.point)
  {
    var code, byte: byte, compressed := FlagCode(flag.AuthSponsored?), encoding.Byte(), encoding.Compressed?;
    LinkIsHashed(scheme, cur, flag, fee, nonce, compressed, sig, Presign(scheme, cur, flag, fee, nonce), next);
    if signed: Txid :|
        IsLink(scheme, cur, code, fee, nonce, byte, sig, signed, next)
        && scheme.recover(signed, sig) == Some(key.point) {
      LinkIsHashed(scheme, cur, flag, fee, nonce, compressed, sig, signed, next);
    }
  }
}
