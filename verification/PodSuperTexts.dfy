/** The stored form of a superblock by position, and exactly which byte strings its decoder accepts
    (src/storage/mod.rs). */
module PodSuperTexts {
  import opened Prelude
  import opened Bytes
  import opened PodSuperblock
  import opened PodSuperblockCodec
  import Store = PodTexts
  import Slices = PodSlices
  import SlicesCodec = PodSlicesCodec

  // ---------------------------------------------------------------- the parts

  /** Five bytes a slot: 1 if it is filled and 0 if not, and its id. */
  predicate AreSlotTexts(t: seq<byte>, slots: seq<Slot>) {
    if slots == [] then t == []
    else
      && |t| >= 5 && t[0] == (if slots[0].Filled? then 1 else 0) && FromBigEndian(t[1..5]) == slots[0].id
      && AreSlotTexts(t[5..], slots[1..])
  }

  /** Four bytes a number. */
  predicate AreNumberTexts(t: seq<byte>, ns: seq<u32>) {
    if ns == [] then t == []
    else |t| >= 4 && FromBigEndian(t[..4]) == ns[0] && AreNumberTexts(t[4..], ns[1..])
  }

  /** An app: its version, its code hash, how many slots it has, and their ids. */
  predicate IsAppText(t: seq<byte>, a: AppState) {
    && |t| == 25 + 4 * |a.slots| && t[0] == a.version && t[1..21] == a.codeHash
    && FromBigEndian(t[21..25]) == |a.slots| && AreNumberTexts(t[25..], a.slots)
  }

  predicate AreAppTexts(t: seq<byte>, states: seq<AppState>) {
    if states == [] then t == []
    else
      var n := 25 + 4 * |states[0].slots|;
      |t| >= n && IsAppText(t[..n], states[0]) && AreAppTexts(t[n..], states[1..])
  }

  /** The version; the slots and the names, each list after its length; the apps' states. */
  predicate IsSuperblockText(
      t: seq<byte>, version: byte, slots: seq<Slot>, names: seq<Name>, states: seq<AppState>)
  {
    var a := 5 + 5 * |slots|;
    var b := a + 4 + Slices.TotalLength(names);
    && |t| >= b && t[0] == version
    && FromBigEndian(t[1..5]) == |slots| && AreSlotTexts(t[5..a], slots)
    && FromBigEndian(t[a..a + 4]) == |names| && Store.AreSliceTexts(t[a + 4..b], names)
    && AreAppTexts(t[b..], states)
  }

  lemma HeadSplits(t: seq<byte>, a: seq<byte>, tail: seq<byte>)
    requires |t| >= |a|
    ensures t == a + tail <==> t[..|a|] == a && t[|a|..] == tail
  {
    assert (a + tail)[..|a|] == a && (a + tail)[|a|..] == tail;
    assert t == t[..|a|] + t[|a|..];
  }

  lemma {:induction false} SlotTextsIff(t: seq<byte>, slots: seq<Slot>)
    ensures AreSlotTexts(t, slots) <==> t == EncodeItems(slots, EncodeSlot)
    ensures |EncodeItems(slots, EncodeSlot)| == 5 * |slots|
    decreases |slots|
  {
    PowersOf256();
    if slots != [] {
      SlotTextsIff(if |t| >= 5 then t[5..] else [], slots[1..]);
      if |t| >= 5 {
        ReadsAsIff(t[1..5], slots[0].id);
        HeadSplits(t, EncodeSlot(slots[0]), EncodeItems(slots[1..], EncodeSlot));
        assert t[..5] == [t[0]] + t[1..5];
      }
    }
  }

  lemma {:induction false} NumberTextsIff(t: seq<byte>, ns: seq<u32>)
    ensures AreNumberTexts(t, ns) <==> t == EncodeItems(ns, EncodeU32)
    ensures |EncodeItems(ns, EncodeU32)| == 4 * |ns|
    decreases |ns|
  {
    PowersOf256();
    if ns != [] {
      NumberTextsIff(if |t| >= 4 then t[4..] else [], ns[1..]);
      if |t| >= 4 {
        ReadsAsIff(t[..4], ns[0]);
        HeadSplits(t, EncodeU32(ns[0]), EncodeItems(ns[1..], EncodeU32));
      }
    }
  }

  lemma AppTextIff(t: seq<byte>, a: AppState)
    requires |a.slots| < 0x1_0000_0000
    ensures IsAppText(t, a) <==> t == EncodeApp(a)
    ensures |EncodeApp(a)| == 25 + 4 * |a.slots|
  {
    PowersOf256();
    var ns := EncodeItems(a.slots, EncodeU32);
    NumberTextsIff(if |t| >= 25 then t[25..] else [], a.slots);
    assert EncodeApp(a) == [a.version] + a.codeHash + ToBigEndian(|a.slots|, 4) + ns;
    if |t| >= 25 {
      ReadsAsIff(t[21..25], |a.slots|);
      FourSplit(t, a.version, a.codeHash, ToBigEndian(|a.slots|, 4), ns);
    }
  }

  lemma FourSplit(t: seq<byte>, v: byte, b: seq<byte>, c: seq<byte>, d: seq<byte>)
    requires |t| >= 1 + |b| + |c|
    ensures t == [v] + b + c + d <==>
              && t[0] == v && t[1..1 + |b|] == b && t[1 + |b|..1 + |b| + |c|] == c && t[1 + |b| + |c|..] == d
  {
    var m, n := 1 + |b|, 1 + |b| + |c|;
    var whole := [v] + b + c + d;
    assert whole[1..m] == b && whole[m..n] == c && whole[n..] == d;
    assert t == [t[0]] + t[1..m] + t[m..n] + t[n..];
  }

  lemma {:induction false} AppTextsIff(t: seq<byte>, states: seq<AppState>)
    requires forall i | 0 <= i < |states| :: |states[i].slots| < 0x1_0000_0000
    ensures AreAppTexts(t, states) <==> t == EncodeItems(states, EncodeApp)
  {
    if states != [] {
      var n := 25 + 4 * |states[0].slots|;
      AppTextIff(if |t| >= n then t[..n] else [], states[0]);
      if |t| >= n {
        AppTextsIff(t[n..], states[1..]);
        HeadSplits(t, EncodeApp(states[0]), EncodeItems(states[1..], EncodeApp));
      }
    }
  }

  // ---------------------------------------------------------------- the superblock

  /** The encoded form, from its parts. */
  function Joined(version: byte, slots: seq<Slot>, names: seq<Name>, states: seq<AppState>): seq<byte> {
    [version] + EncodeVec(slots, EncodeSlot) + EncodeVec(names, EncodeBytes) + EncodeItems(states, EncodeApp)
  }

  /** The lengths fit their fields. */
  predicate LengthsFit(slots: seq<Slot>, names: seq<Name>, states: seq<AppState>) {
    && |slots| < 0x1_0000_0000 && |names| < 0x1_0000_0000
    && (forall i | 0 <= i < |names| :: |names[i]| < 0x1_0000_0000)
    && forall i | 0 <= i < |states| :: |states[i].slots| < 0x1_0000_0000
  }

  lemma VecAt(t: seq<byte>, count: nat, items: seq<byte>, from: nat, mid: nat, to: nat)
    requires count < 0x1_0000_0000 && mid == from + 4 && to == mid + |items| && to <= |t|
    ensures t[from..to] == ToBigEndian(count, 4) + items <==>
              FromBigEndian(t[from..mid]) == count && t[mid..to] == items
  {
    PowersOf256();
    ReadsAsIff(t[from..mid], count);
    HeadSplits(t[from..to], ToBigEndian(count, 4), items);
    assert t[from..to][..4] == t[from..mid] && t[from..to][4..] == t[mid..to];
  }

  lemma SlotsPartIff(t: seq<byte>, slots: seq<Slot>, a: nat)
    requires |slots| < 0x1_0000_0000 && a == 5 + 5 * |slots| && a <= |t|
    ensures t[1..a] == EncodeVec(slots, EncodeSlot) <==>
              FromBigEndian(t[1..5]) == |slots| && AreSlotTexts(t[5..a], slots)
    ensures |EncodeVec(slots, EncodeSlot)| == a - 1
  {
    SlotTextsIff(t[5..a], slots);
    VecAt(t, |slots|, EncodeItems(slots, EncodeSlot), 1, 5, a);
  }

  lemma NamesPartIff(t: seq<byte>, names: seq<Name>, a: nat, b: nat)
    requires |names| < 0x1_0000_0000 && forall i | 0 <= i < |names| :: |names[i]| < 0x1_0000_0000
    requires b == a + 4 + Slices.TotalLength(names) && b <= |t|
    ensures t[a..b] == EncodeVec(names, EncodeBytes) <==>
              FromBigEndian(t[a..a + 4]) == |names| && Store.AreSliceTexts(t[a + 4..b], names)
    ensures |EncodeVec(names, EncodeBytes)| == b - a
  {
    SlicesCodec.SlicesLength(names);
    Store.SliceTextsIff(t[a + 4..b], names);
    VecAt(t, |names|, EncodeItems(names, EncodeBytes), a, a + 4, b);
  }

  lemma LongEnough(
      t: seq<byte>, version: byte, slots: seq<Slot>, names: seq<Name>, states: seq<AppState>, a: nat, b: nat)
    requires LengthsFit(slots, names, states)
    requires a == 5 + 5 * |slots| && b == a + 4 + Slices.TotalLength(names) && |t| >= b
    ensures t == Joined(version, slots, names, states) <==>
              && t[0] == version && t[1..a] == EncodeVec(slots, EncodeSlot)
              && t[a..b] == EncodeVec(names, EncodeBytes) && t[b..] == EncodeItems(states, EncodeApp)
  {
    SlotsPartIff(t, slots, a);
    NamesPartIff(t, names, a, b);
    var x, y := EncodeVec(slots, EncodeSlot), EncodeVec(names, EncodeBytes);
    FourSplitAt(t, version, x, y, EncodeItems(states, EncodeApp), a, b);
  }

  lemma FourSplitAt(t: seq<byte>, v: byte, x: seq<byte>, y: seq<byte>, z: seq<byte>, a: nat, b: nat)
    requires a == 1 + |x| && b == a + |y| && |t| >= b
    ensures t == [v] + x + y + z <==> t[0] == v && t[1..a] == x && t[a..b] == y && t[b..] == z
  {
    FourSplit(t, v, x, y, z);
  }

  lemma JoinedIsLong(version: byte, slots: seq<Slot>, names: seq<Name>, states: seq<AppState>)
    ensures |Joined(version, slots, names, states)| >= 9 + 5 * |slots| + Slices.TotalLength(names)
  {
    SlotTextsIff([], slots);
    SlicesCodec.SlicesLength(names);
  }

  lemma PartsRead(
      t: seq<byte>, version: byte, slots: seq<Slot>, names: seq<Name>, states: seq<AppState>, a: nat, b: nat)
    requires LengthsFit(slots, names, states)
    requires a == 5 + 5 * |slots| && b == a + 4 + Slices.TotalLength(names) && |t| >= b
    ensures IsSuperblockText(t, version, slots, names, states) <==>
              && t[0] == version && t[1..a] == EncodeVec(slots, EncodeSlot)
              && t[a..b] == EncodeVec(names, EncodeBytes) && t[b..] == EncodeItems(states, EncodeApp)
  {
    SlotsPartIff(t, slots, a);
    NamesPartIff(t, names, a, b);
    AppTextsIff(t[b..], states);
  }

  lemma TextIsJoined(
      t: seq<byte>, version: byte, slots: seq<Slot>, names: seq<Name>, states: seq<AppState>)
    requires LengthsFit(slots, names, states)
    ensures IsSuperblockText(t, version, slots, names, states) <==> t == Joined(version, slots, names, states)
  {
    var a := 5 + 5 * |slots|;
    var b := a + 4 + Slices.TotalLength(names);
    JoinedIsLong(version, slots, names, states);
    if |t| >= b {
      LongEnough(t, version, slots, names, states, a, b);
      PartsRead(t, version, slots, names, states, a, b);
    }
  }

  /** The stored form of a superblock is the one text that lists its apps in the given order. */
  lemma SuperblockTextIff(t: seq<byte>, sb: Superblock, names: seq<Name>)
    requires Representable(sb) && Lists(names, sb.apps)
    ensures t == EncodeSuperblock(sb, names)
       <==> IsSuperblockText(t, sb.version, sb.slotIds, names, States(names, sb.apps))
  {
    TextIsJoined(t, sb.version, sb.slotIds, names, States(names, sb.apps));
  }

  // ---------------------------------------------------------------- what the decoder accepts

  function AnySlot(): Slot -> bool {
    (x: Slot) => true
  }

  function AnyNumber(): u32 -> bool {
    (n: u32) => true
  }

  function ShortApp(): AppState -> bool {
    (a: AppState) => |a.slots| < 0x1_0000_0000
  }

  lemma SlotSound(s: seq<byte>)
    ensures SoundAt(DecodeSlot, EncodeSlot, AnySlot(), s)
  {
    if DecodeSlot(s).Got? {
      ReadUintSound(4, ReadBytes(1, s).rest);
      var r := DecodeSlot(s);
      var tag: byte := if r.value.Filled? then 1 else 0;
      assert s == [tag] + (ToBigEndian(r.value.id, 4) + r.rest);
    }
  }

  lemma NumberSound(s: seq<byte>)
    ensures SoundAt(ReadU32, EncodeU32, AnyNumber(), s)
  {
    if ReadU32(s).Got? {
      ReadUintSound(4, s);
    }
  }

  lemma AppSound(s: seq<byte>)
    ensures SoundAt(DecodeApp, EncodeApp, ShortApp(), s)
  {
    if DecodeApp(s).Got? {
      var s1 := ReadBytes(1, s).rest;
      var s2 := ReadBytes(20, s1).rest;
      forall t: seq<byte> ensures SoundAt(ReadU32, EncodeU32, AnyNumber(), t) {
        NumberSound(t);
      }
      VecSound(0xFFFF_FFFF, ReadU32, EncodeU32, AnyNumber(), s2);
      var r := DecodeApp(s);
      AppJoins([r.value.version], r.value.codeHash, EncodeVec(r.value.slots, EncodeU32), r.rest);
    }
  }

  lemma AppJoins(a: seq<byte>, b: seq<byte>, c: seq<byte>, rest: seq<byte>)
    ensures a + (b + (c + rest)) == a + b + c + rest
  {
  }

  lemma SlotsSound(s: seq<byte>)
    requires DecodeVec(MAX_SLOTS, DecodeSlot, s).Got?
    ensures
      var r := DecodeVec(MAX_SLOTS, DecodeSlot, s);
      |r.value| <= MAX_SLOTS && s == EncodeVec(r.value, EncodeSlot) + r.rest
  {
    forall t: seq<byte> ensures SoundAt(DecodeSlot, EncodeSlot, AnySlot(), t) {
      SlotSound(t);
    }
    VecSound(MAX_SLOTS, DecodeSlot, EncodeSlot, AnySlot(), s);
  }

  lemma NamesSound(s: seq<byte>)
    requires DecodeVec(0xFFFF_FFFF, DecodeBytes, s).Got?
    ensures
      var r := DecodeVec(0xFFFF_FFFF, DecodeBytes, s);
      && |r.value| < 0x1_0000_0000 && s == EncodeVec(r.value, EncodeBytes) + r.rest
      && forall i | 0 <= i < |r.value| :: |r.value[i]| < 0x1_0000_0000
  {
    forall t: seq<byte> ensures SoundAt(DecodeBytes, EncodeBytes, Store.AnySlice(), t) {
      Store.BytesSound(t);
    }
    VecSound(0xFFFF_FFFF, DecodeBytes, EncodeBytes, Store.AnySlice(), s);
    var r := DecodeVec(0xFFFF_FFFF, DecodeBytes, s);
    forall i | 0 <= i < |r.value| ensures |r.value[i]| < 0x1_0000_0000 {
      assert Store.AnySlice()(r.value[i]);
    }
  }

  lemma StatesSound(n: nat, s: seq<byte>)
    requires DecodeStates(n, s).Got?
    ensures
      var r := DecodeStates(n, s);
      && |r.value| == n && s == EncodeItems(r.value, EncodeApp) + r.rest
      && forall i | 0 <= i < n :: |r.value[i].slots| < 0x1_0000_0000
  {
    forall t: seq<byte> ensures SoundAt(DecodeApp, EncodeApp, ShortApp(), t) {
      AppSound(t);
    }
    ItemsSound(n, DecodeApp, EncodeApp, ShortApp(), s);
    var r := DecodeStates(n, s);
    forall i | 0 <= i < n ensures |r.value[i].slots| < 0x1_0000_0000 {
      assert ShortApp()(r.value[i]);
    }
  }

  /** What a byte string must hold to be read as this superblock: at most 4096 slots, ASCII names and a
      state for each; of the states listed under one name the last one counts. */
  ghost predicate Reads(t: seq<byte>, names: seq<Name>, states: seq<AppState>, sb: Superblock) {
    && |names| == |states| && LengthsFit(sb.slotIds, names, states)
    && |sb.slotIds| <= 4096 && (forall i, j | 0 <= i < |names| && 0 <= j < |names[i]| :: names[i][j] < 128)
    && IsSuperblockText(t, sb.version, sb.slotIds, names, states)
    && (forall i | 0 <= i < |names| :: names[i] in sb.apps)
    && (forall name | name in sb.apps :: name in names)
    && forall i | 0 <= i < |names| && names[i] !in names[i + 1..] :: sb.apps[names[i]] == states[i]
  }

  lemma {:induction false} ZipHolds(names: seq<Name>, states: seq<AppState>)
    requires |names| == |states|
    ensures forall i | 0 <= i < |names| :: names[i] in Zip(names, states)
    ensures forall name | name in Zip(names, states) :: name in names
  {
    if names != [] {
      ZipHolds(names[..|names| - 1], states[..|names| - 1]);
    }
  }

  lemma {:induction false} ZipIsLast(names: seq<Name>, states: seq<AppState>, i: nat)
    requires |names| == |states| && i < |names| && names[i] !in names[i + 1..]
    ensures names[i] in Zip(names, states) && Zip(names, states)[names[i]] == states[i]
  {
    var n := |names| - 1;
    if i < n {
      assert names[i + 1..] == names[..n][i + 1..] + [names[n]];
      ZipIsLast(names[..n], states[..n], i);
    }
  }

  /** Every name has a last place in the list. */
  lemma {:induction false} LastPlace(names: seq<Name>, name: Name) returns (i: nat)
    requires name in names
    ensures i < |names| && names[i] == name && name !in names[i + 1..]
  {
    var n := |names| - 1;
    if names[n] == name {
      i := n;
    } else {
      i := LastPlace(names[..n], name);
      assert names[i + 1..] == names[..n][i + 1..] + [names[n]];
    }
  }

  lemma ReadsZip(t: seq<byte>, names: seq<Name>, states: seq<AppState>, sb: Superblock)
    requires Reads(t, names, states, sb)
    ensures sb.apps == Zip(names, states)
  {
    var zip := Zip(names, states);
    ZipHolds(names, states);
    forall name | name in sb.apps ensures name in zip && zip[name] == sb.apps[name] {
      var i := LastPlace(names, name);
      ZipIsLast(names, states, i);
    }
    forall name | name in zip ensures name in sb.apps {
      var i := LastPlace(names, name);
    }
  }

  lemma ReadDecodes(t: seq<byte>, names: seq<Name>, states: seq<AppState>, sb: Superblock, rest: seq<byte>)
    requires Reads(t, names, states, sb)
    ensures DecodeSuperblock(t + rest) == Got(sb, rest)
  {
    var a, b, c := EncodeVec(sb.slotIds, EncodeSlot), EncodeVec(names, EncodeBytes), EncodeItems(states, EncodeApp);
    TextIsJoined(t, sb.version, sb.slotIds, names, states);
    Layout(sb.version, a, b, c, rest);
    SlotsRoundTrip(sb.slotIds, b + (c + rest));
    NamesRoundTrip(names, c + rest);
    StatesRoundTrip(states, rest);
    ReadsZip(t, names, states, sb);
    assert AllAscii(names) by {
      forall i | 0 <= i < |names| ensures Ascii(names[i]) {
      }
    }
    SuperblockFromParts(t + rest, a + (b + (c + rest)), b + (c + rest), c + rest, names, states, sb, rest);
  }

  /** The pieces a superblock is read from, one reader after the other. */
  lemma DecodedPieces(s: seq<byte>)
    returns (s1: seq<byte>, s2: seq<byte>, s3: seq<byte>, names: seq<Name>, states: seq<AppState>)
    requires DecodeSuperblock(s).Got?
    ensures
      var r := DecodeSuperblock(s);
      && s == [r.value.version] + s1 && DecodeVec(MAX_SLOTS, DecodeSlot, s1) == Got(r.value.slotIds, s2)
      && DecodeVec(0xFFFF_FFFF, DecodeBytes, s2) == Got(names, s3) && AllAscii(names)
      && DecodeStates(|names|, s3) == Got(states, r.rest) && |states| == |names|
      && r.value.apps == Zip(names, states)
  {
    s1 := ReadBytes(1, s).rest;
    s2 := DecodeVec(MAX_SLOTS, DecodeSlot, s1).rest;
    var named := DecodeVec(0xFFFF_FFFF, DecodeBytes, s2);
    names, s3 := named.value, named.rest;
    states := DecodeStates(|names|, s3).value;
    assert s == [s[0]] + s1;
  }

  lemma DecodedReads(s: seq<byte>) returns (t: seq<byte>, names: seq<Name>, states: seq<AppState>)
    requires DecodeSuperblock(s).Got?
    ensures
      var r := DecodeSuperblock(s);
      Reads(t, names, states, r.value) && s == t + r.rest
  {
    var s1, s2, s3;
    s1, s2, s3, names, states := DecodedPieces(s);
    SlotsSound(s1);
    NamesSound(s2);
    StatesSound(|names|, s3);
    var r := DecodeSuperblock(s);
    var sb := r.value;
    t := Joined(sb.version, sb.slotIds, names, states);
    Store.JoinStore([sb.version], EncodeVec(sb.slotIds, EncodeSlot), EncodeVec(names, EncodeBytes),
                    EncodeItems(states, EncodeApp), r.rest);
    ZippedReads(t, names, states, sb);
  }

  lemma ZippedReads(t: seq<byte>, names: seq<Name>, states: seq<AppState>, sb: Superblock)
    requires |names| == |states| && LengthsFit(sb.slotIds, names, states)
    requires |sb.slotIds| <= MAX_SLOTS && AllAscii(names) && sb.apps == Zip(names, states)
    requires t == Joined(sb.version, sb.slotIds, names, states)
    ensures Reads(t, names, states, sb)
  {
    TextIsJoined(t, sb.version, sb.slotIds, names, states);
    ZipHolds(names, states);
    forall i | 0 <= i < |names| && names[i] !in names[i + 1..] ensures sb.apps[names[i]] == states[i] {
      ZipIsLast(names, states, i);
    }
    forall i, j | 0 <= i < |names| && 0 <= j < |names[i]| ensures names[i][j] < 128 {
      assert Ascii(names[i]);
    }
  }

  /** The decoder reads a superblock off a byte string, and leaves the rest, if and only if the string starts
      with a text of that superblock. */
  lemma SuperblockDecodesIff(s: seq<byte>, sb: Superblock, rest: seq<byte>)
    ensures DecodeSuperblock(s) == Got(sb, rest) <==>
              exists t: seq<byte>, names: seq<Name>, states: seq<AppState> ::
                Reads(t, names, states, sb) && s == t + rest
  {
    if DecodeSuperblock(s) == Got(sb, rest) {
      var t, names, states := DecodedReads(s);
    }
    if t: seq<byte>, names: seq<Name>, states: seq<AppState> :| Reads(t, names, states, sb) && s == t + rest {
      ReadDecodes(t, names, states, sb, rest);
    }
  }
}
