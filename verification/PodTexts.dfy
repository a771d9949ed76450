/** The stored form of a slice store by position, and exactly which byte strings its decoder accepts
    (src/storage/mod.rs). */
module PodTexts {
  import opened Prelude
  import opened Bytes
  import opened PodSlices
  import opened PodSlicesCodec

  // ---------------------------------------------------------------- the parts

  /** 24 bytes an id: the id and its position, in sixteen and eight bytes. */
  predicate AreEntryTexts(t: seq<byte>, ids: seq<u128>, index: map<u128, nat>)
    requires forall i | 0 <= i < |ids| :: ids[i] in index
  {
    if ids == [] then t == []
    else
      && |t| >= 24 && FromBigEndian(t[..16]) == ids[0] && FromBigEndian(t[16..24]) == index[ids[0]]
      && AreEntryTexts(t[24..], ids[1..], index)
  }

  /** Each slice after its length in four bytes. */
  predicate AreSliceTexts(t: seq<byte>, slices: seq<seq<byte>>) {
    if slices == [] then t == []
    else
      var end := 4 + |slices[0]|;
      && |t| >= end && FromBigEndian(t[..4]) == |slices[0]| && t[4..end] == slices[0]
      && AreSliceTexts(t[end..], slices[1..])
  }

  /** The version, the number of ids, their entries, and the slices. */
  ghost predicate IsStoreText(
      t: seq<byte>, version: byte, ids: seq<u128>, index: map<u128, nat>, slices: seq<seq<byte>>)
    requires forall i | 0 <= i < |ids| :: ids[i] in index
  {
    var end := 9 + 24 * |ids|;
    && |t| >= end && t[0] == version && FromBigEndian(t[1..9]) == |ids|
    && AreEntryTexts(t[9..end], ids, index) && AreSliceTexts(t[end..], slices)
  }

  /** `ids` are the ids of the index, each once. */
  ghost predicate ListsIndex(ids: seq<u128>, index: map<u128, nat>) {
    && (forall i, j | 0 <= i < j < |ids| :: ids[i] != ids[j])
    && (forall i | 0 <= i < |ids| :: ids[i] in index)
    && (forall id | id in index :: id in ids)
  }

  lemma {:induction false} EntryTextsIff(t: seq<byte>, ids: seq<u128>, index: map<u128, nat>)
    requires forall i | 0 <= i < |ids| :: ids[i] in index && index[ids[i]] < 0x1_0000_0000_0000_0000
    ensures AreEntryTexts(t, ids, index) <==> t == EncodeItems(EntriesOf(index, ids), EncodeEntry)
  {
    PowersOf256();
    if ids != [] {
      var head, tail := EncodeEntry(Entry(ids[0], index[ids[0]])), EncodeItems(EntriesOf(index, ids[1..]), EncodeEntry);
      assert EntriesOf(index, ids)[1..] == EntriesOf(index, ids[1..]);
      assert EncodeItems(EntriesOf(index, ids), EncodeEntry) == head + tail;
      if |t| >= 24 {
        ReadsAsIff(t[..16], ids[0]);
        ReadsAsIff(t[16..24], index[ids[0]]);
        EntryTextsIff(t[24..], ids[1..], index);
        EntrySplits(t, ToBigEndian(ids[0], 16), ToBigEndian(index[ids[0]], 8), tail);
      }
    }
  }

  lemma EntrySplits(t: seq<byte>, a: seq<byte>, b: seq<byte>, tail: seq<byte>)
    requires |a| == 16 && |b| == 8 && |t| >= 24
    ensures t == a + b + tail <==> t[..16] == a && t[16..24] == b && t[24..] == tail
  {
    assert (a + b + tail)[..16] == a && (a + b + tail)[16..24] == b && (a + b + tail)[24..] == tail;
    assert t == t[..16] + t[16..24] + t[24..];
  }

  lemma {:induction false} SliceTextsIff(t: seq<byte>, slices: seq<seq<byte>>)
    requires forall i | 0 <= i < |slices| :: |slices[i]| < 0x1_0000_0000
    ensures AreSliceTexts(t, slices) <==> t == EncodeItems(slices, EncodeBytes)
  {
    PowersOf256();
    if slices != [] {
      var end, tail := 4 + |slices[0]|, EncodeItems(slices[1..], EncodeBytes);
      if |t| >= end {
        ReadsAsIff(t[..4], |slices[0]|);
        SliceTextsIff(t[end..], slices[1..]);
        SliceSplits(t, ToBigEndian(|slices[0]|, 4), slices[0], tail);
      }
    }
  }

  lemma SliceSplits(t: seq<byte>, a: seq<byte>, b: seq<byte>, tail: seq<byte>)
    requires |a| == 4 && |t| >= 4 + |b|
    ensures t == a + b + tail <==> t[..4] == a && t[4..4 + |b|] == b && t[4 + |b|..] == tail
  {
    var n := 4 + |b|;
    assert (a + b + tail)[..4] == a && (a + b + tail)[4..n] == b && (a + b + tail)[n..] == tail;
    assert t == t[..4] + t[4..n] + t[n..];
  }

  /** A slice's own length field bounds it. */
  lemma {:induction false} SliceTextsAreShort(t: seq<byte>, slices: seq<seq<byte>>)
    requires AreSliceTexts(t, slices)
    ensures forall i | 0 <= i < |slices| :: |slices[i]| < 0x1_0000_0000
    ensures |t| == TotalLength(slices)
  {
    PowersOf256();
    if slices != [] {
      BigEndianBound(t[..4]);
      SliceTextsAreShort(t[4 + |slices[0]|..], slices[1..]);
      TotalLengthFront(slices);
      forall i | 0 <= i < |slices| ensures |slices[i]| < 0x1_0000_0000 {
        assert i > 0 ==> slices[i] == slices[1..][i - 1];
      }
    }
  }

  // ---------------------------------------------------------------- the store

  lemma StoreSplits(t: seq<byte>, version: byte, count: seq<byte>, e: seq<byte>, x: seq<byte>)
    requires |count| == 8
    ensures t == [version] + count + e + x <==>
              && |t| >= 9 + |e| && t[0] == version && t[1..9] == count && t[9..9 + |e|] == e && t[9 + |e|..] == x
  {
    var n := 9 + |e|;
    var whole := [version] + count + e + x;
    assert whole[1..9] == count && whole[9..n] == e && whole[n..] == x;
    if |t| >= n {
      assert t == [t[0]] + t[1..9] + t[9..n] + t[n..];
    }
  }

  lemma StoreSplitsAt(t: seq<byte>, version: byte, count: seq<byte>, e: seq<byte>, x: seq<byte>, end: nat)
    requires |count| == 8 && end == 9 + |e|
    ensures t == [version] + count + e + x <==>
              && |t| >= end && t[0] == version && t[1..9] == count && t[9..end] == e && t[end..] == x
  {
    StoreSplits(t, version, count, e, x);
  }

  lemma TextInOrder(
      t: seq<byte>, version: byte, ids: seq<u128>, index: map<u128, nat>, slices: seq<seq<byte>>)
    requires forall i | 0 <= i < |ids| :: ids[i] in index && index[ids[i]] < 0x1_0000_0000_0000_0000
    requires |ids| < 0x1_0000_0000_0000_0000
    requires forall i | 0 <= i < |slices| :: |slices[i]| < 0x1_0000_0000
    ensures IsStoreText(t, version, ids, index, slices)
       <==> t == [version] + ToBigEndian(|ids|, 8) + EncodeItems(EntriesOf(index, ids), EncodeEntry)
                 + EncodeItems(slices, EncodeBytes)
  {
    var e, x, end := EncodeItems(EntriesOf(index, ids), EncodeEntry), EncodeItems(slices, EncodeBytes), 9 + 24 * |ids|;
    EntriesLength(EntriesOf(index, ids));
    if |t| >= end {
      PartsReadIff(t, end, ids, index, slices);
    }
    TextFromParts(t, version, ids, index, slices, e, x, end);
  }

  lemma TextFromParts(
      t: seq<byte>, version: byte, ids: seq<u128>, index: map<u128, nat>, slices: seq<seq<byte>>,
      e: seq<byte>, x: seq<byte>, end: nat)
    requires forall i | 0 <= i < |ids| :: ids[i] in index
    requires end == 9 + 24 * |ids| && |e| == 24 * |ids|
    requires |t| >= end ==>
               && (FromBigEndian(t[1..9]) == |ids| <==> t[1..9] == ToBigEndian(|ids|, 8))
               && (AreEntryTexts(t[9..end], ids, index) <==> t[9..end] == e)
               && (AreSliceTexts(t[end..], slices) <==> t[end..] == x)
    ensures IsStoreText(t, version, ids, index, slices) <==> t == [version] + ToBigEndian(|ids|, 8) + e + x
  {
    StoreSplitsAt(t, version, ToBigEndian(|ids|, 8), e, x, end);
  }

  lemma PartsReadIff(t: seq<byte>, end: nat, ids: seq<u128>, index: map<u128, nat>, slices: seq<seq<byte>>)
    requires forall i | 0 <= i < |ids| :: ids[i] in index && index[ids[i]] < 0x1_0000_0000_0000_0000
    requires |ids| < 0x1_0000_0000_0000_0000
    requires forall i | 0 <= i < |slices| :: |slices[i]| < 0x1_0000_0000
    requires 9 <= end <= |t|
    ensures FromBigEndian(t[1..9]) == |ids| <==> t[1..9] == ToBigEndian(|ids|, 8)
    ensures AreEntryTexts(t[9..end], ids, index) <==> t[9..end] == EncodeItems(EntriesOf(index, ids), EncodeEntry)
    ensures AreSliceTexts(t[end..], slices) <==> t[end..] == EncodeItems(slices, EncodeBytes)
  {
    PowersOf256();
    ReadsAsIff(t[1..9], |ids|);
    EntryTextsIff(t[9..end], ids, index);
    SliceTextsIff(t[end..], slices);
  }

  lemma {:induction false} AscendingIsSorted(ids: seq<u128>, keys: set<u128>)
    requires forall i, j | 0 <= i < j < |ids| :: ids[i] < ids[j]
    requires forall id :: id in ids <==> id in keys
    ensures ids == SortedIds(keys)
  {
    if ids == [] {
      assert keys == {};
    } else {
      assert ids[0] in keys;
      var least := Least(keys);
      assert least in ids;
      assert ids[0] == least;
      forall id ensures id in ids[1..] <==> id in keys - {least} {
        if id in ids && id != least {
          var i :| 0 <= i < |ids| && ids[i] == id;
          assert ids[1..][i - 1] == id;
        }
      }
      AscendingIsSorted(ids[1..], keys - {least});
      assert ids == [ids[0]] + ids[1..];
    }
  }

  /** A valid store is stored as the one text that lists its ids in ascending order. */
  lemma StoreTextIff(t: seq<byte>, st: Store, ids: seq<u128>)
    requires Valid(st) && ListsIndex(ids, st.index) && forall i, j | 0 <= i < j < |ids| :: ids[i] < ids[j]
    ensures IsStoreText(t, st.version, ids, st.index, st.slices) <==> t == EncodeStore(st)
  {
    SizesFit(st);
    forall id ensures id in ids <==> id in st.index.Keys {
    }
    AscendingIsSorted(ids, st.index.Keys);
    SortedIdsEnumerate(st.index.Keys);
    forall i | 0 <= i < |ids| ensures st.index[ids[i]] < 0x1_0000_0000_0000_0000 {
      assert st.index[ids[i]] < |st.slices|;
    }
    TextInOrder(t, st.version, ids, st.index, st.slices);
  }

  // ---------------------------------------------------------------- what the decoder accepts

  /** `ids` were read on top of `index`, which gave `out`. */
  ghost predicate ReadOnTop(ids: seq<u128>, index: map<u128, nat>, out: map<u128, nat>, count: nat) {
    && (forall i, j | 0 <= i < j < |ids| :: ids[i] != ids[j])
    && (forall i | 0 <= i < |ids| :: ids[i] in out && ids[i] !in index && out[ids[i]] < count)
    && (forall id | id in index :: id in out && out[id] == index[id])
    && (forall id | id in out :: id in index || id in ids)
  }

  lemma {:induction false} EntriesSound(n: nat, count: nat, s: seq<byte>, index: map<u128, nat>)
    returns (ids: seq<u128>)
    requires DecodeEntries(n, count, s, index).Got?
    ensures
      var r := DecodeEntries(n, count, s, index);
      && |ids| == n && ReadOnTop(ids, index, r.value, count)
      && s == EncodeItems(EntriesOf(r.value, ids), EncodeEntry) + r.rest
  {
    if n == 0 {
      ids := [];
      assert s == [] + s;
    } else {
      var id, idx := ReadId(s), ReadUint(8, ReadId(s).rest);
      ReadUintSound(16, s);
      ReadUintSound(8, id.rest);
      var grown := index[id.value := idx.value];
      var later := EntriesSound(n - 1, count, idx.rest, grown);
      ids := [id.value] + later;
      var r := DecodeEntries(n, count, s, index);
      OnTopGrows(id.value, idx.value, later, index, r.value, count);
      EntryJoins(r.value, ids, r.rest);
      JoinEntry(ToBigEndian(id.value, 16), ToBigEndian(idx.value, 8),
                EncodeItems(EntriesOf(r.value, later), EncodeEntry), r.rest);
    }
  }

  lemma OnTopGrows(
      id: u128, idx: nat, later: seq<u128>, index: map<u128, nat>, out: map<u128, nat>, count: nat)
    requires ReadOnTop(later, index[id := idx], out, count) && id !in index && idx < count
    ensures ReadOnTop([id] + later, index, out, count) && out[id] == idx
  {
    assert id in index[id := idx];
    var ids := [id] + later;
    forall i, j | 0 <= i < j < |ids| ensures ids[i] != ids[j] {
      assert ids[j] == later[j - 1] && (i > 0 ==> ids[i] == later[i - 1]);
    }
    forall x | x in out ensures x in index || x in ids {
      assert x in index[id := idx] || x in later;
    }
  }

  lemma EntryJoins(index: map<u128, nat>, ids: seq<u128>, rest: seq<byte>)
    requires ids != [] && ids[0] in index
    ensures EncodeItems(EntriesOf(index, ids), EncodeEntry)
         == ToBigEndian(ids[0], 16) + ToBigEndian(index[ids[0]], 8)
            + EncodeItems(EntriesOf(index, ids[1..]), EncodeEntry)
  {
    assert EntriesOf(index, ids)[1..] == EntriesOf(index, ids[1..]);
  }

  lemma JoinEntry(a: seq<byte>, b: seq<byte>, c: seq<byte>, rest: seq<byte>)
    ensures a + (b + (c + rest)) == a + b + c + rest
  {
  }

  function AnySlice(): seq<byte> -> bool {
    (b: seq<byte>) => |b| < 0x1_0000_0000
  }

  lemma BytesSound(t: seq<byte>)
    ensures SoundAt(DecodeBytes, EncodeBytes, AnySlice(), t)
  {
    if DecodeBytes(t).Got? {
      PowersOf256();
      ReadUintSound(4, t);
      var r := DecodeBytes(t);
      assert EncodeBytes(r.value) + r.rest == ToBigEndian(|r.value|, 4) + (r.value + r.rest);
    }
  }

  lemma SlicesSound(n: nat, s: seq<byte>)
    requires DecodeItems(n, DecodeBytes, s).Got?
    ensures
      var r := DecodeItems(n, DecodeBytes, s);
      && |r.value| == n && s == EncodeItems(r.value, EncodeBytes) + r.rest
      && forall i | 0 <= i < n :: |r.value[i]| < 0x1_0000_0000
  {
    forall t: seq<byte> ensures SoundAt(DecodeBytes, EncodeBytes, AnySlice(), t) {
      BytesSound(t);
    }
    ItemsSound(n, DecodeBytes, EncodeBytes, AnySlice(), s);
    var r := DecodeItems(n, DecodeBytes, s);
    forall i | 0 <= i < n ensures |r.value[i]| < 0x1_0000_0000 {
      assert AnySlice()(r.value[i]);
    }
  }

  /** What a byte string must hold to be read as this store: its ids in any order, each once, with positions
      among its slices, which need not be distinct.  The size recorded is that of the text. */
  ghost predicate Reads(maxSize: u32, t: seq<byte>, ids: seq<u128>, st: Store) {
    && ListsIndex(ids, st.index) && |ids| == |st.slices| && |ids| < 0x1_0000_0000_0000_0000
    && (forall id | id in st.index :: st.index[id] < |ids|)
    && IsStoreText(t, st.version, ids, st.index, st.slices)
    && !st.dirty && st.encodedSize == |t| && st.maxSize == maxSize
  }

  lemma ReadsInOrder(maxSize: u32, t: seq<byte>, ids: seq<u128>, st: Store)
    requires Reads(maxSize, t, ids, st)
    ensures |t| == INITIAL_SIZE + 24 * |ids| + TotalLength(st.slices)
    ensures forall i | 0 <= i < |st.slices| :: |st.slices[i]| < 0x1_0000_0000
    ensures t == [st.version] + ToBigEndian(|ids|, 8) + EncodeItems(EntriesOf(st.index, ids), EncodeEntry)
                 + EncodeItems(st.slices, EncodeBytes)
  {
    SliceTextsAreShort(t[9 + 24 * |ids|..], st.slices);
    TextInOrder(t, st.version, ids, st.index, st.slices);
  }

  lemma ReadStoreDecodes(maxSize: u32, t: seq<byte>, ids: seq<u128>, st: Store, rest: seq<byte>)
    requires Reads(maxSize, t, ids, st)
    ensures DecodeStore(maxSize, t + rest) == Got(st, rest)
  {
    ReadsInOrder(maxSize, t, ids, st);
    var es := EntriesOf(st.index, ids);
    forall id ensures id in ids <==> id in st.index {
    }
    EntriesGiveIndex(st.index, ids);
    var x := EncodeItems(st.slices, EncodeBytes);
    EntriesRoundTrip(es, 0, |ids|, x + rest);
    assert es[0..] == es && es[..0] == [];
    SlicesRoundTrip(st.slices, rest);
    StoreAssembled(t, EncodeItems(es, EncodeEntry), x, rest, |ids|, st);
  }

  /** The pieces a store is read from, one reader after the other. */
  lemma DecodedPieces(maxSize: u32, s: seq<byte>) returns (s1: seq<byte>, count: nat, s2: seq<byte>, s3: seq<byte>)
    requires DecodeStore(maxSize, s).Got?
    ensures
      var r := DecodeStore(maxSize, s);
      var st := r.value;
      && s == [st.version] + s1 && ReadUint(8, s1) == Got(count, s2)
      && DecodeEntries(count, count, s2, map[]) == Got(st.index, s3)
      && DecodeItems(count, DecodeBytes, s3) == Got(st.slices, r.rest)
      && !st.dirty && st.encodedSize == INITIAL_SIZE + 24 * count + TotalLength(st.slices) && st.maxSize == maxSize
  {
    s1 := ReadBytes(1, s).rest;
    count, s2 := ReadUint(8, s1).value, ReadUint(8, s1).rest;
    s3 := DecodeEntries(count, count, s2, map[]).rest;
    assert s == [s[0]] + s1;
  }

  /** The parts of a decoded store, one after the other. */
  lemma DecodedParts(maxSize: u32, s: seq<byte>) returns (e: seq<byte>, x: seq<byte>, ids: seq<u128>)
    requires DecodeStore(maxSize, s).Got?
    ensures
      var r := DecodeStore(maxSize, s);
      var st := r.value;
      && s == [st.version] + ToBigEndian(|ids|, 8) + e + x + r.rest
      && |ids| == |st.slices| && |ids| < 0x1_0000_0000_0000_0000 && ReadOnTop(ids, map[], st.index, |ids|)
      && e == EncodeItems(EntriesOf(st.index, ids), EncodeEntry) && x == EncodeItems(st.slices, EncodeBytes)
      && (forall i | 0 <= i < |st.slices| :: |st.slices[i]| < 0x1_0000_0000)
      && !st.dirty && st.encodedSize == INITIAL_SIZE + 24 * |ids| + TotalLength(st.slices) && st.maxSize == maxSize
  {
    var s1, count, s2, s3 := DecodedPieces(maxSize, s);
    var r := DecodeStore(maxSize, s);
    CountRead(s1, count, s2);
    ids := EntriesSound(count, count, s2, map[]);
    SlicesSound(count, s3);
    e, x := EncodeItems(EntriesOf(r.value.index, ids), EncodeEntry), EncodeItems(r.value.slices, EncodeBytes);
    JoinStore([r.value.version], ToBigEndian(|ids|, 8), e, x, r.rest);
  }

  lemma CountRead(s: seq<byte>, count: nat, rest: seq<byte>)
    requires ReadUint(8, s) == Got(count, rest)
    ensures count < 0x1_0000_0000_0000_0000 && s == ToBigEndian(count, 8) + rest
  {
    PowersOf256();
    ReadUintSound(8, s);
  }

  lemma DecodedStoreReads(maxSize: u32, s: seq<byte>) returns (t: seq<byte>, ids: seq<u128>)
    requires DecodeStore(maxSize, s).Got?
    ensures
      var r := DecodeStore(maxSize, s);
      Reads(maxSize, t, ids, r.value) && s == t + r.rest
  {
    var e, x;
    e, x, ids := DecodedParts(maxSize, s);
    var st := DecodeStore(maxSize, s).value;
    t := [st.version] + ToBigEndian(|ids|, 8) + e + x;
    PartsAreRead(maxSize, t, ids, st);
  }

  lemma PartsAreRead(maxSize: u32, t: seq<byte>, ids: seq<u128>, st: Store)
    requires |ids| == |st.slices| && |ids| < 0x1_0000_0000_0000_0000 && ReadOnTop(ids, map[], st.index, |ids|)
    requires t == [st.version] + ToBigEndian(|ids|, 8) + EncodeItems(EntriesOf(st.index, ids), EncodeEntry)
                  + EncodeItems(st.slices, EncodeBytes)
    requires forall i | 0 <= i < |st.slices| :: |st.slices[i]| < 0x1_0000_0000
    requires
      !st.dirty && st.encodedSize == INITIAL_SIZE + 24 * |ids| + TotalLength(st.slices) && st.maxSize == maxSize
    ensures Reads(maxSize, t, ids, st)
  {
    TextInOrder(t, st.version, ids, st.index, st.slices);
    SliceTextsAreShort(t[9 + 24 * |ids|..], st.slices);
    forall id | id in st.index ensures st.index[id] < |ids| {
      assert id in ids;
    }
  }

  lemma JoinStore(a: seq<byte>, b: seq<byte>, c: seq<byte>, d: seq<byte>, rest: seq<byte>)
    ensures a + (b + (c + (d + rest))) == a + b + c + d + rest
  {
  }

  /** The decoder reads a store off a byte string, and leaves the rest, if and only if the string starts
      with a text of that store. */
  lemma StoreDecodesIff(maxSize: u32, s: seq<byte>, st: Store, rest: seq<byte>)
    ensures DecodeStore(maxSize, s) == Got(st, rest) <==>
              exists t: seq<byte>, ids: seq<u128> :: Reads(maxSize, t, ids, st) && s == t + rest
  {
    if DecodeStore(maxSize, s) == Got(st, rest) {
      var t, ids := DecodedStoreReads(maxSize, s);
    }
    if t: seq<byte>, ids: seq<u128> :| Reads(maxSize, t, ids, st) && s == t + rest {
      ReadStoreDecodes(maxSize, t, ids, st, rest);
    }
  }
}
