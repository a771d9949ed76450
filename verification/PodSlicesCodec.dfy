/** The wire format of the slice store (src/storage/mod.rs). */
module PodSlicesCodec {
  import opened Bytes
  import opened PodSlices

  // ---------------------------------------------------------------- index order

  function Least(ids: set<u128>): (r: u128)
    requires ids != {}
    ensures r in ids
    ensures forall id | id in ids :: r <= id
  {
    LeastExists(ids);
    var least: u128 :| IsLeast(least, ids);
    least
  }

  predicate IsLeast(least: u128, ids: set<u128>) {
    least in ids && forall id | id in ids :: least <= id
  }

  lemma {:induction false} LeastExists(ids: set<u128>)
    requires ids != {}
    ensures exists least: u128 :: IsLeast(least, ids)
  {
    var x :| x in ids;
    var rest := ids - {x};
    if rest == {} {
      forall id | id in ids ensures x <= id {
        assert id != x ==> id in rest;
      }
      assert IsLeast(x, ids);
    } else {
      LeastExists(rest);
      var y: u128 :| IsLeast(y, rest);
      forall id | id in ids ensures (if x < y then x else y) <= id {
        assert id == x || id in rest;
      }
      assert IsLeast(if x < y then x else y, ids);
    }
  }

  /** The ids of an index in the order an ordered map yields them. */
  function SortedIds(ids: set<u128>): (r: seq<u128>) {
    if ids == {} then [] else [Least(ids)] + SortedIds(ids - {Least(ids)})
  }

  lemma {:induction false} SortedIdsEnumerate(ids: set<u128>)
    ensures |SortedIds(ids)| == |ids|
    ensures forall id :: id in SortedIds(ids) <==> id in ids
    ensures forall i, j | 0 <= i < j < |SortedIds(ids)| :: SortedIds(ids)[i] < SortedIds(ids)[j]
  {
    if ids != {} {
      var least, tail := Least(ids), SortedIds(ids - {Least(ids)});
      SortedIdsEnumerate(ids - {least});
      assert SortedIds(ids) == [least] + tail;
      forall i, j | 0 <= i < j <= |tail| ensures SortedIds(ids)[i] < SortedIds(ids)[j] {
        assert tail[j - 1] in tail;
        assert tail[j - 1] in ids - {least};
      }
    }
  }

  datatype Entry = Entry(id: u128, idx: nat)

  /** The index as a list of entries, in id order. */
  function Entries(index: map<u128, nat>): seq<Entry> {
    EntriesOf(index, SortedIds(index.Keys))
  }

  function EntriesOf(index: map<u128, nat>, ids: seq<u128>): (r: seq<Entry>)
    ensures |r| == |ids|
    ensures forall i | 0 <= i < |ids| :: r[i].id == ids[i] && (ids[i] in index ==> r[i].idx == index[ids[i]])
  {
    if ids == [] then []
    else [Entry(ids[0], if ids[0] in index then index[ids[0]] else 0)] + EntriesOf(index, ids[1..])
  }

  // ---------------------------------------------------------------- serialization

  function EncodeEntry(e: Entry): seq<byte> {
    ToBigEndian(e.id, 16) + ToBigEndian(e.idx, 8)
  }

  function EncodeStore(st: Store): seq<byte> {
    [st.version] + ToBigEndian(|st.index|, 8)
    + EncodeItems(Entries(st.index), EncodeEntry)
    + EncodeItems(st.slices, EncodeBytes)
  }

  // ---------------------------------------------------------------- deserialization

  function ReadId(s: seq<byte>): (r: Parsed<u128>)
    ensures r == ReadUint(16, s)
  {
    PowersOf256();
    var (b, rest) :- ReadBytes(16, s);
    BigEndianBound(b);
    Got(FromBigEndian(b), rest)
  }

  /** Reads `n` index entries on top of `index`; slots must lie below `count` and ids be new. */
  function DecodeEntries(n: nat, count: nat, s: seq<byte>, index: map<u128, nat>): Parsed<map<u128, nat>> {
    if n == 0 then Got(index, s)
    else
      var (id, s1) :- ReadId(s);
      var (idx, s2) :- ReadUint(8, s1);
      if idx >= count || id in index then Fail
      else DecodeEntries(n - 1, count, s2, index[id := idx])
  }

  function DecodeStore(maxSize: u32, s: seq<byte>): Parsed<Store> {
    var (version, s1) :- ReadBytes(1, s);
    var (count, s2) :- ReadUint(8, s1);
    var (index, s3) :- DecodeEntries(count, count, s2, map[]);
    var (slices, s4) :- DecodeItems(count, DecodeBytes, s3);
    Got(Store(version[0], slices, index, false, INITIAL_SIZE + 24 * count + TotalLength(slices), maxSize), s4)
  }

  /** The index loop of the decoder. */
  method ReadIndex(count: nat, s: seq<byte>) returns (r: Parsed<map<u128, nat>>)
    ensures r == DecodeEntries(count, count, s, map[])
  {
    var rest := s;
    var index: map<u128, nat> := map[];
    for i := 0 to count
      invariant DecodeEntries(count, count, s, map[]) == DecodeEntries(count - i, count, rest, index)
    {
      var id := ReadId(rest);
      if id.Fail? {
        return Fail;
      }
      var idx := ReadUint(8, id.rest);
      if idx.Fail? || idx.value >= count || id.value in index {
        return Fail;
      }
      index, rest := index[id.value := idx.value], idx.rest;
    }
    return Got(index, rest);
  }

  /** The slice loop of the decoder, which also adds up the bytes it reads. */
  method ReadSlices(count: nat, s: seq<byte>) returns (r: Parsed<seq<seq<byte>>>, size: nat)
    ensures r == DecodeItems(count, DecodeBytes, s)
    ensures r.Got? ==> size == TotalLength(r.value)
  {
    var rest := s;
    var slices: seq<seq<byte>> := [];
    size := 0;
    PrependNothing(DecodeItems(count, DecodeBytes, s));
    for i := 0 to count
      invariant DecodeItems(count, DecodeBytes, s) == Prepend(slices, DecodeItems(count - i, DecodeBytes, rest))
      invariant size == TotalLength(slices)
    {
      var slice := DecodeBytes(rest);
      PrependStep(slices, count - i, rest);
      if slice.Fail? {
        return Fail, 0;
      }
      size := size + 4 + |slice.value|;
      assert (slices + [slice.value])[..|slices|] == slices;
      slices, rest := slices + [slice.value], slice.rest;
    }
    assert slices + [] == slices;
    return Got(slices, rest), size;
  }

  /** The decoder as the source runs it, counting bytes as it goes. */
  method ReadStore(maxSize: u32, s: seq<byte>) returns (r: Parsed<Store>)
    ensures r == DecodeStore(maxSize, s)
  {
    var version := ReadBytes(1, s);
    if version.Fail? {
      return Fail;
    }
    var count := ReadUint(8, version.rest);
    if count.Fail? {
      return Fail;
    }
    var index := ReadIndex(count.value, count.rest);
    if index.Fail? {
      return Fail;
    }
    var slices, size := ReadSlices(count.value, index.rest);
    if slices.Fail? {
      return Fail;
    }
    var encodedSize := 1 + 8 + (16 + 8) * count.value + size;
    return Got(Store(version.value[0], slices.value, index.value, false, encodedSize, maxSize), slices.rest);
  }

  ghost function Prepend<T>(xs: seq<T>, p: Parsed<seq<T>>): Parsed<seq<T>> {
    match p case Fail => Fail case Got(ys, rest) => Got(xs + ys, rest)
  }

  lemma PrependNothing<T>(p: Parsed<seq<T>>)
    ensures Prepend([], p) == p
  {
    if p.Got? {
      assert [] + p.value == p.value;
    }
  }

  lemma PrependStep(xs: seq<seq<byte>>, n: nat, s: seq<byte>)
    requires n > 0
    ensures Prepend(xs, DecodeItems(n, DecodeBytes, s))
         == (match DecodeBytes(s)
             case Fail => Fail
             case Got(x, s1) => Prepend(xs + [x], DecodeItems(n - 1, DecodeBytes, s1)))
  {
    match DecodeBytes(s)
    case Fail =>
    case Got(x, s1) =>
      match DecodeItems(n - 1, DecodeBytes, s1)
      case Fail =>
      case Got(ys, s2) => assert xs + ([x] + ys) == xs + [x] + ys;
  }

  // ---------------------------------------------------------------- sizes

  lemma {:induction false} EntriesLength(es: seq<Entry>)
    ensures |EncodeItems(es, EncodeEntry)| == 24 * |es|
  {
    if es != [] {
      EntriesLength(es[1..]);
    }
  }

  lemma {:induction false} TotalLengthFront(slices: seq<seq<byte>>)
    requires slices != []
    ensures TotalLength(slices) == 4 + |slices[0]| + TotalLength(slices[1..])
  {
    var n := |slices| - 1;
    if n > 0 {
      assert slices[1..][..n - 1] == slices[..n][1..];
      TotalLengthFront(slices[..n]);
    }
  }

  lemma {:induction false} SlicesLength(slices: seq<seq<byte>>)
    ensures |EncodeItems(slices, EncodeBytes)| == TotalLength(slices)
  {
    if slices != [] {
      TotalLengthFront(slices);
      SlicesLength(slices[1..]);
    }
  }

  /** The size the store reports as true is the length of its encoding. */
  lemma EncodedLength(st: Store)
    ensures |EncodeStore(st)| == TrueSize(st)
  {
    SortedEntriesGiveIndex(st.index);
    EntriesLength(Entries(st.index));
    SlicesLength(st.slices);
  }

  // ---------------------------------------------------------------- round trip

  ghost function ToMap(es: seq<Entry>): map<u128, nat> {
    if es == [] then map[] else ToMap(es[..|es| - 1])[es[|es| - 1].id := es[|es| - 1].idx]
  }

  ghost predicate DistinctIds(es: seq<Entry>) {
    forall i, j | 0 <= i < j < |es| :: es[i].id != es[j].id
  }

  lemma {:induction false} ToMapLooksUp(es: seq<Entry>)
    requires DistinctIds(es)
    ensures forall i | 0 <= i < |es| :: es[i].id in ToMap(es) && ToMap(es)[es[i].id] == es[i].idx
    ensures forall id | id in ToMap(es) :: exists i | 0 <= i < |es| :: es[i].id == id
  {
    if es != [] {
      var n := |es| - 1;
      ToMapLooksUp(es[..n]);
      forall id | id in ToMap(es)
        ensures exists i | 0 <= i < |es| :: es[i].id == id
      {
        if id != es[n].id {
          assert id in ToMap(es[..n]);
          var i :| 0 <= i < n && es[..n][i].id == id;
          assert es[i].id == id;
        }
      }
    }
  }

  lemma SortedEntriesGiveIndex(index: map<u128, nat>)
    ensures
      var es := Entries(index);
      && |es| == |index| && DistinctIds(es) && ToMap(es) == index
      && forall i | 0 <= i < |es| :: es[i].id in index && es[i].idx == index[es[i].id]
  {
    SortedIdsEnumerate(index.Keys);
    EntriesGiveIndex(index, SortedIds(index.Keys));
  }

  lemma EntriesGiveIndex(index: map<u128, nat>, ids: seq<u128>)
    requires forall id :: id in ids <==> id in index
    requires forall i, j | 0 <= i < j < |ids| :: ids[i] != ids[j]
    ensures
      var es := EntriesOf(index, ids);
      && DistinctIds(es) && ToMap(es) == index
      && forall i | 0 <= i < |es| :: es[i].id in index && es[i].idx == index[es[i].id]
  {
    var es := EntriesOf(index, ids);
    forall i | 0 <= i < |es| ensures es[i].id in index && es[i].idx == index[es[i].id] {
      assert ids[i] in ids;
    }
    ToMapLooksUp(es);
    forall id | id in index
      ensures id in ToMap(es) && ToMap(es)[id] == index[id]
    {
      assert id in ids;
      var i :| 0 <= i < |ids| && ids[i] == id;
      assert es[i].id == id;
    }
    forall id | id in ToMap(es)
      ensures id in index
    {
      var i :| 0 <= i < |es| && es[i].id == id;
    }
    SameMap(ToMap(es), index);
  }

  lemma SameMap(a: map<u128, nat>, b: map<u128, nat>)
    requires forall id | id in a :: id in b
    requires forall id | id in b :: id in a && a[id] == b[id]
    ensures a == b
  {
  }

  /** Reading the entries back one by one rebuilds the map they spell. */
  lemma {:induction false} EntriesRoundTrip(es: seq<Entry>, k: nat, count: nat, rest: seq<byte>)
    requires k <= |es| && DistinctIds(es)
    requires count < 0x1_0000_0000_0000_0000
    requires forall i | 0 <= i < |es| :: es[i].idx < count
    ensures DecodeEntries(|es| - k, count, EncodeItems(es[k..], EncodeEntry) + rest, ToMap(es[..k]))
         == Got(ToMap(es), rest)
    decreases |es| - k
  {
    if k == |es| {
      assert es[..k] == es;
      assert EncodeItems(es[k..], EncodeEntry) + rest == rest;
    } else {
      PowersOf256();
      var e := es[k];
      var tail := EncodeItems(es[k + 1..], EncodeEntry) + rest;
      assert es[k..][1..] == es[k + 1..];
      assert EncodeItems(es[k..], EncodeEntry) + rest == ToBigEndian(e.id, 16) + (ToBigEndian(e.idx, 8) + tail);
      ReadUintRoundTrip(e.id, 16, ToBigEndian(e.idx, 8) + tail);
      ReadUintRoundTrip(e.idx, 8, tail);
      assert e.id !in ToMap(es[..k]) by {
        ToMapLooksUp(es[..k]);
      }
      assert es[..k + 1][..k] == es[..k];
      EntriesRoundTrip(es, k + 1, count, rest);
    }
  }

  lemma SlicesRoundTrip(slices: seq<seq<byte>>, rest: seq<byte>)
    requires forall i | 0 <= i < |slices| :: |slices[i]| < 0x1_0000_0000
    ensures DecodeItems(|slices|, DecodeBytes, EncodeItems(slices, EncodeBytes) + rest) == Got(slices, rest)
  {
    forall i: nat, r: seq<byte> | i < |slices|
      ensures DecodeBytes(EncodeBytes(slices[i]) + r) == Got(slices[i], r)
    {
      BytesRoundTrip(slices[i], r);
    }
    ItemsRoundTrip(slices, EncodeBytes, DecodeBytes, rest);
  }

  /** A valid store is small enough for all its length fields. */
  lemma SizesFit(st: Store)
    requires Valid(st)
    ensures |st.slices| < 0x1_0000_0000
    ensures forall i | 0 <= i < |st.slices| :: |st.slices[i]| < 0x1_0000_0000
  {
    forall i | 0 <= i < |st.slices|
      ensures |st.slices[i]| < 0x1_0000_0000 && |st.slices| < 0x1_0000_0000
    {
      TotalLengthBounds(st.slices, i);
    }
    if st.slices != [] {
      TotalLengthBounds(st.slices, 0);
    }
  }

  lemma IndexRoundTrip(st: Store, rest: seq<byte>)
    requires Valid(st)
    ensures DecodeEntries(|st.index|, |st.index|, EncodeItems(Entries(st.index), EncodeEntry) + rest, map[])
         == Got(st.index, rest)
  {
    SizesFit(st);
    var es := Entries(st.index);
    SortedEntriesGiveIndex(st.index);
    EntriesRoundTrip(es, 0, |st.index|, rest);
    assert es[0..] == es && es[..0] == [];
  }

  lemma StoreSlicesRoundTrip(st: Store, rest: seq<byte>)
    requires Valid(st)
    ensures DecodeItems(|st.index|, DecodeBytes, EncodeItems(st.slices, EncodeBytes) + rest) == Got(st.slices, rest)
    ensures |st.index| < 0x1_0000_0000_0000_0000
  {
    SizesFit(st);
    SlicesRoundTrip(st.slices, rest);
  }

  lemma Header(w: seq<byte>, version: byte, count: nat, e: seq<byte>, x: seq<byte>, rest: seq<byte>)
    requires count < 0x1_0000_0000_0000_0000
    requires w == [version] + ToBigEndian(count, 8) + e + x
    ensures ReadBytes(1, w + rest) == Got([version], ToBigEndian(count, 8) + (e + (x + rest)))
    ensures ReadUint(8, ToBigEndian(count, 8) + (e + (x + rest))) == Got(count, e + (x + rest))
  {
    PowersOf256();
    var c := ToBigEndian(count, 8);
    assert w + rest == [version] + (c + (e + (x + rest)));
    ReadBytesRoundTrip([version], c + (e + (x + rest)));
    ReadUintRoundTrip(count, 8, e + (x + rest));
  }

  lemma StoreFromParts(
      s: seq<byte>, s1: seq<byte>, s2: seq<byte>, s3: seq<byte>, rest: seq<byte>, count: nat, out: Store)
    requires ReadBytes(1, s) == Got([out.version], s1)
    requires ReadUint(8, s1) == Got(count, s2)
    requires DecodeEntries(count, count, s2, map[]) == Got(out.index, s3)
    requires DecodeItems(count, DecodeBytes, s3) == Got(out.slices, rest)
    requires !out.dirty && out.encodedSize == INITIAL_SIZE + 24 * count + TotalLength(out.slices)
    ensures DecodeStore(out.maxSize, s) == Got(out, rest)
  {
  }

  lemma StoreAssembled(w: seq<byte>, e: seq<byte>, x: seq<byte>, rest: seq<byte>, count: nat, out: Store)
    requires count < 0x1_0000_0000_0000_0000
    requires DecodeEntries(count, count, e + (x + rest), map[]) == Got(out.index, x + rest)
    requires DecodeItems(count, DecodeBytes, x + rest) == Got(out.slices, rest)
    requires w == [out.version] + ToBigEndian(count, 8) + e + x
    requires !out.dirty && out.encodedSize == INITIAL_SIZE + 24 * count + TotalLength(out.slices)
    ensures DecodeStore(out.maxSize, w + rest) == Got(out, rest)
  {
    Header(w, out.version, count, e, x, rest);
    StoreFromParts(w + rest, ToBigEndian(count, 8) + (e + (x + rest)), e + (x + rest), x + rest, rest, count, out);
  }

  /** The two variable-length parts of an encoded store, and what reading them gives. */
  lemma StoreParts(st: Store, rest: seq<byte>) returns (e: seq<byte>, x: seq<byte>)
    requires Valid(st)
    ensures EncodeStore(st) == [st.version] + ToBigEndian(|st.index|, 8) + e + x
    ensures DecodeEntries(|st.index|, |st.index|, e + (x + rest), map[]) == Got(st.index, x + rest)
    ensures DecodeItems(|st.index|, DecodeBytes, x + rest) == Got(st.slices, rest)
    ensures |st.index| < 0x1_0000_0000_0000_0000
  {
    e, x := EncodeItems(Entries(st.index), EncodeEntry), EncodeItems(st.slices, EncodeBytes);
    IndexRoundTrip(st, x + rest);
    StoreSlicesRoundTrip(st, rest);
  }

  /** Decoding an encoded store gives back its version, slices and index and leaves trailing bytes
      unread; the accounted size becomes the exact length. */
  lemma StoreRoundTrip(st: Store, maxSize: u32, rest: seq<byte>)
    requires Valid(st)
    ensures DecodeStore(maxSize, EncodeStore(st) + rest)
         == Got(st.(dirty := false, encodedSize := |EncodeStore(st)|, maxSize := maxSize), rest)
  {
    var e, x := StoreParts(st, rest);
    EncodedLength(st);
    var out := st.(dirty := false, encodedSize := |EncodeStore(st)|, maxSize := maxSize);
    StoreAssembled(EncodeStore(st), e, x, rest, |st.index|, out);
  }

  /** A reload keeps the meaning and never loses capacity. */
  lemma ReloadKeepsMeaningAndCapacity(st: Store, rest: seq<byte>)
    requires Valid(st)
    ensures
      var back := DecodeStore(st.maxSize, EncodeStore(st) + rest);
      && back.Got? && Valid(back.value)
      && Contents(back.value) == Contents(st)
      && back.value.encodedSize == TrueSize(back.value) == TrueSize(st)
      && forall id: u128, n: nat :: CanFit(st, id, n) ==> CanFit(back.value, id, n)
  {
    StoreRoundTrip(st, st.maxSize, rest);
    EncodedLength(st);
  }
}
