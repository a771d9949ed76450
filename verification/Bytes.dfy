/** Byte strings, big-endian integers and length-prefixed vectors: the wire format shared by the
    transaction codec and the wrbpod codecs.  A reader consumes a prefix of its input and returns
    what is left, so that "trailing bytes stay unread" is part of every round trip. */
module Bytes {

  type byte = b: int | 0 <= b < 256

  type u16 = n: nat | n < 0x1_0000
  type u32 = n: nat | n < 0x1_0000_0000
  type u64 = n: nat | n < 0x1_0000_0000_0000_0000
  type u128 = n: nat | n < 0x1_0000_0000_0000_0000_0000_0000_0000_0000
  const MAX_U16: nat := 0xFFFF
  const MAX_U32: nat := 0xFFFF_FFFF

  type Hash160 = s: seq<byte> | |s| == 20 witness Zeros(20)
  type Hash32 = s: seq<byte> | |s| == 32 witness Zeros(32)
  /** The hash part of an address; it identifies the key that may write a slot. */
  type Address = seq<byte>

  /** The outcome of reading a value off the front of a byte string. */
  datatype Parsed<+T> = Fail | Got(value: T, rest: seq<byte>) {
    predicate IsFailure() {
      Fail?
    }

    function PropagateFailure<U>(): Parsed<U>
      requires Fail?
    {
      Fail
    }

    function Extract(): (T, seq<byte>)
      requires Got?
    {
      (value, rest)
    }
  }

  function Zeros(n: nat): (r: seq<byte>)
    ensures |r| == n
    ensures forall i | 0 <= i < n :: r[i] == 0
  {
    seq(n, _ => 0)
  }

  function Pow256(width: nat): (r: nat)
    ensures r > 0
  {
    if width == 0 then 1 else 256 * Pow256(width - 1)
  }

  /** `n` as `width` big-endian bytes; higher digits are dropped, as in a truncating cast. */
  function ToBigEndian(n: nat, width: nat): (r: seq<byte>)
    ensures |r| == width
  {
    if width == 0 then [] else ToBigEndian(n / 256, width - 1) + [n % 256]
  }

  function FromBigEndian(s: seq<byte>): nat {
    if s == [] then 0 else 256 * FromBigEndian(s[..|s| - 1]) + s[|s| - 1]
  }

  lemma {:induction false} BigEndianRoundTrip(n: nat, width: nat)
    requires n < Pow256(width)
    ensures FromBigEndian(ToBigEndian(n, width)) == n
  {
    if width > 0 {
      var s := ToBigEndian(n, width);
      var high := ToBigEndian(n / 256, width - 1);
      BigEndianRoundTrip(n / 256, width - 1);
      assert s[..width - 1] == high && s[width - 1] == n % 256;
    }
  }

  /** A byte string reads as a number exactly when it is its encoding. */
  lemma ReadsAsIff(b: seq<byte>, n: nat)
    requires n < Pow256(|b|)
    ensures FromBigEndian(b) == n <==> b == ToBigEndian(n, |b|)
  {
    BigEndianRoundTrip(n, |b|);
    BigEndianOfRead(b);
  }

  lemma {:induction false} BigEndianBound(s: seq<byte>)
    ensures FromBigEndian(s) < Pow256(|s|)
  {
    if s != [] {
      BigEndianBound(s[..|s| - 1]);
    }
  }

  /** Every byte string is the encoding of the number it reads as. */
  lemma {:induction false} BigEndianOfRead(s: seq<byte>)
    ensures ToBigEndian(FromBigEndian(s), |s|) == s
  {
    if s != [] {
      BigEndianOfRead(s[..|s| - 1]);
    }
  }

  lemma {:induction false} BigEndianInjective(m: nat, n: nat, width: nat)
    requires m < Pow256(width) && n < Pow256(width)
    requires ToBigEndian(m, width) == ToBigEndian(n, width)
    ensures m == n
  {
    BigEndianRoundTrip(m, width);
    BigEndianRoundTrip(n, width);
  }

  lemma PowersOf256()
    ensures Pow256(1) == 0x100
    ensures Pow256(2) == 0x1_0000
    ensures Pow256(4) == 0x1_0000_0000
    ensures Pow256(8) == 0x1_0000_0000_0000_0000
    ensures Pow256(16) == 0x1_0000_0000_0000_0000_0000_0000_0000_0000
  {
    assert Pow256(3) == 256 * Pow256(2);
    assert Pow256(5) == 256 * Pow256(4);
    assert Pow256(6) == 256 * Pow256(5);
    assert Pow256(7) == 256 * Pow256(6);
    assert Pow256(8) == 256 * Pow256(7);
    assert Pow256(9) == 256 * Pow256(8);
    assert Pow256(10) == 256 * Pow256(9);
    assert Pow256(11) == 256 * Pow256(10);
    assert Pow256(12) == 256 * Pow256(11);
    assert Pow256(13) == 256 * Pow256(12);
    assert Pow256(14) == 256 * Pow256(13);
    assert Pow256(15) == 256 * Pow256(14);
  }

  function ReadBytes(width: nat, s: seq<byte>): (r: Parsed<seq<byte>>)
    ensures r.Got? ==> |r.value| == width && r.value + r.rest == s
  {
    if |s| < width then Fail else Got(s[..width], s[width..])
  }

  function ReadUint(width: nat, s: seq<byte>): Parsed<nat> {
    var (b, rest) :- ReadBytes(width, s);
    Got(FromBigEndian(b), rest)
  }

  lemma ReadBytesRoundTrip(b: seq<byte>, rest: seq<byte>)
    ensures ReadBytes(|b|, b + rest) == Got(b, rest)
  {
    assert (b + rest)[..|b|] == b;
    assert (b + rest)[|b|..] == rest;
  }

  lemma ReadUintRoundTrip(n: nat, width: nat, rest: seq<byte>)
    requires n < Pow256(width)
    ensures ReadUint(width, ToBigEndian(n, width) + rest) == Got(n, rest)
  {
    ReadBytesRoundTrip(ToBigEndian(n, width), rest);
    BigEndianRoundTrip(n, width);
  }

  /** The items of a vector, one after the other. */
  function EncodeItems<T>(items: seq<T>, encode: T -> seq<byte>): seq<byte> {
    if items == [] then [] else encode(items[0]) + EncodeItems(items[1..], encode)
  }

  function DecodeItems<T>(n: nat, decode: seq<byte> -> Parsed<T>, s: seq<byte>): Parsed<seq<T>> {
    if n == 0 then Got([], s)
    else
      var (x, s1) :- decode(s);
      var (xs, s2) :- DecodeItems(n - 1, decode, s1);
      Got([x] + xs, s2)
  }

  /** A vector is its 4-byte item count followed by its items. */
  function EncodeVec<T>(items: seq<T>, encode: T -> seq<byte>): seq<byte> {
    ToBigEndian(|items|, 4) + EncodeItems(items, encode)
  }

  /** Reads a vector of at most `maxItems` items. */
  function DecodeVec<T>(maxItems: nat, decode: seq<byte> -> Parsed<T>, s: seq<byte>): Parsed<seq<T>> {
    var (n, s1) :- ReadUint(4, s);
    if n > maxItems then Fail else DecodeItems(n, decode, s1)
  }

  /** `decode` reads back every item of `items` and stops at its end. */
  ghost predicate ReadsBack<T(!new)>(items: seq<T>, encode: T -> seq<byte>, decode: seq<byte> -> Parsed<T>) {
    forall i: nat, rest: seq<byte> | i < |items| :: decode(encode(items[i]) + rest) == Got(items[i], rest)
  }

  lemma {:induction false} ItemsRoundTrip<T(!new)>(
      items: seq<T>, encode: T -> seq<byte>, decode: seq<byte> -> Parsed<T>, rest: seq<byte>)
    requires ReadsBack(items, encode, decode)
    ensures DecodeItems(|items|, decode, EncodeItems(items, encode) + rest) == Got(items, rest)
  {
    if items == [] {
      assert EncodeItems(items, encode) + rest == rest;
    } else {
      var tail := items[1..];
      assert ReadsBack(tail, encode, decode) by {
        forall i: nat, r: seq<byte> | i < |tail|
          ensures decode(encode(tail[i]) + r) == Got(tail[i], r)
        {
          assert tail[i] == items[i + 1];
        }
      }
      ItemsRoundTrip(tail, encode, decode, rest);
      var wire := EncodeItems(tail, encode) + rest;
      assert EncodeItems(items, encode) + rest == encode(items[0]) + wire;
      assert decode(encode(items[0]) + wire) == Got(items[0], wire);
      assert [items[0]] + tail == items;
    }
  }

  lemma VecRoundTrip<T(!new)>(
      items: seq<T>, maxItems: nat, encode: T -> seq<byte>, decode: seq<byte> -> Parsed<T>, rest: seq<byte>)
    requires ReadsBack(items, encode, decode)
    requires |items| <= maxItems && |items| < 0x1_0000_0000
    ensures DecodeVec(maxItems, decode, EncodeVec(items, encode) + rest) == Got(items, rest)
  {
    PowersOf256();
    var wire := EncodeItems(items, encode) + rest;
    assert EncodeVec(items, encode) + rest == ToBigEndian(|items|, 4) + wire;
    ReadUintRoundTrip(|items|, 4, wire);
    ItemsRoundTrip(items, encode, decode, rest);
  }

  // ---------------------------------------------------------------- reading within a byte limit

  /** More bytes after those it read do not change what `decode` reads. */
  ghost predicate Streams<T(!new)>(decode: seq<byte> -> Parsed<T>) {
    forall s: seq<byte>, more: seq<byte> :: StreamsAt(decode, s, more)
  }

  ghost predicate StreamsAt<T>(decode: seq<byte> -> Parsed<T>, s: seq<byte>, more: seq<byte>) {
    decode(s).Got? ==> decode(s + more) == Got(decode(s).value, decode(s).rest + more)
  }

  lemma ReadBytesStreams(width: nat, s: seq<byte>, more: seq<byte>)
    requires ReadBytes(width, s).Got?
    ensures ReadBytes(width, s + more) == Got(ReadBytes(width, s).value, ReadBytes(width, s).rest + more)
  {
    assert (s + more)[..width] == s[..width];
    assert (s + more)[width..] == s[width..] + more;
  }

  lemma {:induction false} ItemsStream<T(!new)>(n: nat, decode: seq<byte> -> Parsed<T>, s: seq<byte>, more: seq<byte>)
    requires Streams(decode) && DecodeItems(n, decode, s).Got?
    ensures
      DecodeItems(n, decode, s + more) == Got(DecodeItems(n, decode, s).value, DecodeItems(n, decode, s).rest + more)
  {
    if n > 0 {
      assert StreamsAt(decode, s, more);
      ItemsStream(n - 1, decode, decode(s).rest, more);
    }
  }

  lemma VecStreams<T(!new)>(maxItems: nat, decode: seq<byte> -> Parsed<T>, s: seq<byte>, more: seq<byte>)
    requires Streams(decode) && DecodeVec(maxItems, decode, s).Got?
    ensures DecodeVec(maxItems, decode, s + more)
         == Got(DecodeVec(maxItems, decode, s).value, DecodeVec(maxItems, decode, s).rest + more)
  {
    ReadBytesStreams(4, s, more);
    var start := ReadUint(4, s);
    ItemsStream(start.value, decode, start.rest, more);
  }

  /** Reads a vector from no more than the first `maxLen` bytes. */
  function DecodeVecWithin<T>(
      maxLen: nat, maxItems: nat, decode: seq<byte> -> Parsed<T>, s: seq<byte>): Parsed<seq<T>> {
    var cap := if |s| < maxLen then |s| else maxLen;
    var (items, rest) :- DecodeVec(maxItems, decode, s[..cap]);
    Got(items, rest + s[cap..])
  }

  /** A vector comes back exactly when it fits the limit. */
  lemma VecWithinRoundTrip<T(!new)>(
      items: seq<T>, maxLen: nat, maxItems: nat,
      encode: T -> seq<byte>, decode: seq<byte> -> Parsed<T>, rest: seq<byte>)
    requires ReadsBack(items, encode, decode) && Streams(decode)
    requires |items| <= maxItems && |items| < 0x1_0000_0000
    ensures DecodeVecWithin(maxLen, maxItems, decode, EncodeVec(items, encode) + rest)
         == if |EncodeVec(items, encode)| <= maxLen then Got(items, rest) else Fail
  {
    var wire := EncodeVec(items, encode);
    if |wire| <= maxLen {
      VecFits(items, wire, maxLen, maxItems, encode, decode, rest);
    } else {
      VecCutShort(items, wire, maxLen, maxItems, encode, decode);
      assert (wire + rest)[..maxLen] == wire[..maxLen];
    }
  }

  lemma VecFits<T(!new)>(
      items: seq<T>, wire: seq<byte>, maxLen: nat, maxItems: nat,
      encode: T -> seq<byte>, decode: seq<byte> -> Parsed<T>, rest: seq<byte>)
    requires ReadsBack(items, encode, decode)
    requires |items| <= maxItems && |items| < 0x1_0000_0000
    requires wire == EncodeVec(items, encode) && |wire| <= maxLen
    ensures DecodeVecWithin(maxLen, maxItems, decode, wire + rest) == Got(items, rest)
  {
    var s := wire + rest;
    var cap := if |s| < maxLen then |s| else maxLen;
    var some := rest[..cap - |wire|];
    assert s[..cap] == wire + some;
    VecRoundTrip(items, maxItems, encode, decode, some);
    assert some + s[cap..] == rest;
  }

  /** Nothing can be read off a proper front part of a vector. */
  lemma VecCutShort<T(!new)>(
      items: seq<T>, wire: seq<byte>, maxLen: nat, maxItems: nat,
      encode: T -> seq<byte>, decode: seq<byte> -> Parsed<T>)
    requires ReadsBack(items, encode, decode) && Streams(decode)
    requires |items| <= maxItems && |items| < 0x1_0000_0000
    requires wire == EncodeVec(items, encode) && maxLen < |wire|
    ensures DecodeVec(maxItems, decode, wire[..maxLen]).Fail?
  {
    VecRoundTrip(items, maxItems, encode, decode, []);
    assert wire + [] == wire && wire[..maxLen] + wire[maxLen..] == wire;
    if DecodeVec(maxItems, decode, wire[..maxLen]).Got? {
      VecStreams(maxItems, decode, wire[..maxLen], wire[maxLen..]);
    }
  }

  // ---------------------------------------------------------------- whatever is read was written so

  /** Everything `decode` reads is the encoding of what it reads, and passes `ok`. */
  ghost predicate Sound<T(!new)>(decode: seq<byte> -> Parsed<T>, encode: T -> seq<byte>, ok: T -> bool) {
    forall s: seq<byte> :: SoundAt(decode, encode, ok, s)
  }

  ghost predicate SoundAt<T>(decode: seq<byte> -> Parsed<T>, encode: T -> seq<byte>, ok: T -> bool, s: seq<byte>) {
    decode(s).Got? ==> s == encode(decode(s).value) + decode(s).rest && ok(decode(s).value)
  }

  lemma ReadUintSound(width: nat, s: seq<byte>)
    requires ReadUint(width, s).Got?
    ensures s == ToBigEndian(ReadUint(width, s).value, width) + ReadUint(width, s).rest
    ensures ReadUint(width, s).value < Pow256(width)
  {
    BigEndianOfRead(s[..width]);
    BigEndianBound(s[..width]);
    assert s == s[..width] + s[width..];
  }

  lemma {:induction false} ItemsSound<T(!new)>(
      n: nat, decode: seq<byte> -> Parsed<T>, encode: T -> seq<byte>, ok: T -> bool, s: seq<byte>)
    requires Sound(decode, encode, ok) && DecodeItems(n, decode, s).Got?
    ensures
      var r := DecodeItems(n, decode, s);
      && |r.value| == n && s == EncodeItems(r.value, encode) + r.rest
      && forall i | 0 <= i < n :: ok(r.value[i])
  {
    if n == 0 {
      assert s == [] + s;
    } else {
      assert SoundAt(decode, encode, ok, s);
      var first := decode(s);
      ItemsSound(n - 1, decode, encode, ok, first.rest);
      var later, r := DecodeItems(n - 1, decode, first.rest), DecodeItems(n, decode, s);
      assert r.value == [first.value] + later.value && r.value[1..] == later.value;
      assert EncodeItems(r.value, encode) + r.rest
          == encode(first.value) + (EncodeItems(later.value, encode) + later.rest);
    }
  }

  lemma VecSound<T(!new)>(
      maxItems: nat, decode: seq<byte> -> Parsed<T>, encode: T -> seq<byte>, ok: T -> bool, s: seq<byte>)
    requires Sound(decode, encode, ok) && DecodeVec(maxItems, decode, s).Got?
    ensures
      var r := DecodeVec(maxItems, decode, s);
      && |r.value| <= maxItems && |r.value| < 0x1_0000_0000 && s == EncodeVec(r.value, encode) + r.rest
      && forall i | 0 <= i < |r.value| :: ok(r.value[i])
  {
    var count, rest := ReadUint(4, s).value, ReadUint(4, s).rest;
    CountSound(s, count, rest);
    ItemsSound(count, decode, encode, ok, rest);
    var r := DecodeItems(count, decode, rest);
    AfterCount(ToBigEndian(count, 4), EncodeItems(r.value, encode), r.rest);
  }

  lemma CountSound(s: seq<byte>, count: nat, rest: seq<byte>)
    requires ReadUint(4, s) == Got(count, rest)
    ensures count < 0x1_0000_0000 && s == ToBigEndian(count, 4) + rest
  {
    PowersOf256();
    ReadUintSound(4, s);
  }

  lemma AfterCount(count: seq<byte>, items: seq<byte>, rest: seq<byte>)
    ensures count + (items + rest) == count + items + rest
  {
  }

  lemma VecWithinSound<T(!new)>(
      maxLen: nat, maxItems: nat, decode: seq<byte> -> Parsed<T>, encode: T -> seq<byte>, ok: T -> bool, s: seq<byte>)
    requires Sound(decode, encode, ok) && DecodeVecWithin(maxLen, maxItems, decode, s).Got?
    ensures
      var r := DecodeVecWithin(maxLen, maxItems, decode, s);
      && |r.value| <= maxItems && |r.value| < 0x1_0000_0000
      && s == EncodeVec(r.value, encode) + r.rest && |EncodeVec(r.value, encode)| <= maxLen
      && forall i | 0 <= i < |r.value| :: ok(r.value[i])
  {
    var cap := if |s| < maxLen then |s| else maxLen;
    VecSound(maxItems, decode, encode, ok, s[..cap]);
    assert s == s[..cap] + s[cap..];
  }

  /** A byte string is its 4-byte length followed by its bytes. */
  function EncodeBytes(b: seq<byte>): seq<byte> {
    ToBigEndian(|b|, 4) + b
  }

  function DecodeBytes(s: seq<byte>): Parsed<seq<byte>> {
    var (n, s1) :- ReadUint(4, s);
    ReadBytes(n, s1)
  }

  lemma BytesRoundTrip(b: seq<byte>, rest: seq<byte>)
    requires |b| < 0x1_0000_0000
    ensures DecodeBytes(EncodeBytes(b) + rest) == Got(b, rest)
  {
    PowersOf256();
    assert EncodeBytes(b) + rest == ToBigEndian(|b|, 4) + (b + rest);
    ReadUintRoundTrip(|b|, 4, b + rest);
    ReadBytesRoundTrip(b, rest);
  }
}
