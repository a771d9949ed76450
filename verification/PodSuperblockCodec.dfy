/** The wire format of the superblock (src/storage/mod.rs). */
module PodSuperblockCodec {
  import opened Bytes
  import opened PodSuperblock

  const MAX_SLOTS: nat := 4096

  function EncodeSlot(s: Slot): seq<byte> {
    [if s.Filled? then 1 else 0] + ToBigEndian(s.id, 4)
  }

  function EncodeU32(n: u32): seq<byte> {
    ToBigEndian(n, 4)
  }

  function EncodeApp(a: AppState): seq<byte> {
    [a.version] + a.codeHash + EncodeVec(a.slots, EncodeU32)
  }

  /** `names` lists the apps, each once, in whatever order the map yields them. */
  ghost predicate Lists(names: seq<Name>, apps: map<Name, AppState>) {
    && |names| == |apps|
    && (forall name :: name in names <==> name in apps)
    && (forall i, j | 0 <= i < j < |names| :: names[i] != names[j])
  }

  function States(names: seq<Name>, apps: map<Name, AppState>): (r: seq<AppState>)
    requires forall name | name in names :: name in apps
    ensures |r| == |names|
    ensures forall i | 0 <= i < |names| :: r[i] == apps[names[i]]
  {
    if names == [] then [] else [apps[names[0]]] + States(names[1..], apps)
  }

  function EncodeSuperblock(sb: Superblock, names: seq<Name>): seq<byte>
    requires forall name | name in names :: name in sb.apps
  {
    [sb.version] + EncodeVec(sb.slotIds, EncodeSlot) + EncodeVec(names, EncodeBytes)
    + EncodeItems(States(names, sb.apps), EncodeApp)
  }

  function ReadU32(s: seq<byte>): (r: Parsed<u32>)
    ensures r == ReadUint(4, s)
  {
    PowersOf256();
    var (b, rest) :- ReadBytes(4, s);
    BigEndianBound(b);
    Got(FromBigEndian(b), rest)
  }

  function DecodeSlot(s: seq<byte>): Parsed<Slot> {
    var (tag, s1) :- ReadBytes(1, s);
    if tag[0] > 1 then Fail
    else
      var (id, s2) :- ReadU32(s1);
      Got(if tag[0] == 1 then Filled(id) else Free(id), s2)
  }

  function DecodeApp(s: seq<byte>): Parsed<AppState> {
    var (version, s1) :- ReadBytes(1, s);
    var (codeHash, s2) :- ReadBytes(20, s1);
    var (slots, s3) :- DecodeVec(0xFFFF_FFFF, ReadU32, s2);
    Got(AppState(version[0], codeHash, slots), s3)
  }

  predicate Ascii(name: Name) {
    forall i | 0 <= i < |name| :: name[i] < 128
  }

  predicate AllAscii(names: seq<Name>) {
    forall i | 0 <= i < |names| :: Ascii(names[i])
  }

  /** Inserts the states under their names, in order. */
  function Zip(names: seq<Name>, states: seq<AppState>): map<Name, AppState>
    requires |names| == |states|
  {
    if names == [] then map[]
    else Zip(names[..|names| - 1], states[..|states| - 1])[names[|names| - 1] := states[|states| - 1]]
  }

  function DecodeSuperblock(s: seq<byte>): Parsed<Superblock> {
    var (version, s1) :- ReadBytes(1, s);
    var (slotIds, s2) :- DecodeVec(MAX_SLOTS, DecodeSlot, s1);
    var (names, s3) :- DecodeVec(0xFFFF_FFFF, DecodeBytes, s2);
    if !AllAscii(names) then Fail
    else
      var (states, s4) :- DecodeStates(|names|, s3);
      Got(Superblock(version[0], slotIds, Zip(names, states)), s4)
  }

  function DecodeStates(n: nat, s: seq<byte>): (r: Parsed<seq<AppState>>)
    ensures r == DecodeItems(n, DecodeApp, s)
    ensures r.Got? ==> |r.value| == n
  {
    if n == 0 then Got([], s)
    else
      var (a, s1) :- DecodeApp(s);
      var (rest, s2) :- DecodeStates(n - 1, s1);
      Got([a] + rest, s2)
  }

  // ---------------------------------------------------------------- round trip

  lemma SlotRoundTrip(x: Slot, rest: seq<byte>)
    ensures DecodeSlot(EncodeSlot(x) + rest) == Got(x, rest)
  {
    PowersOf256();
    var tag: byte := if x.Filled? then 1 else 0;
    assert EncodeSlot(x) + rest == [tag] + (ToBigEndian(x.id, 4) + rest);
    ReadBytesRoundTrip([tag], ToBigEndian(x.id, 4) + rest);
    ReadUintRoundTrip(x.id, 4, rest);
  }

  lemma SlotsRoundTrip(slots: seq<Slot>, rest: seq<byte>)
    requires |slots| <= MAX_SLOTS
    ensures DecodeVec(MAX_SLOTS, DecodeSlot, EncodeVec(slots, EncodeSlot) + rest) == Got(slots, rest)
  {
    forall i: nat, r: seq<byte> | i < |slots|
      ensures DecodeSlot(EncodeSlot(slots[i]) + r) == Got(slots[i], r)
    {
      SlotRoundTrip(slots[i], r);
    }
    VecRoundTrip(slots, MAX_SLOTS, EncodeSlot, DecodeSlot, rest);
  }

  lemma TooManySlots(slots: seq<Slot>, rest: seq<byte>)
    requires MAX_SLOTS < |slots| < 0x1_0000_0000
    ensures DecodeVec(MAX_SLOTS, DecodeSlot, EncodeVec(slots, EncodeSlot) + rest) == Fail
  {
    PowersOf256();
    var wire := EncodeItems(slots, EncodeSlot) + rest;
    assert EncodeVec(slots, EncodeSlot) + rest == ToBigEndian(|slots|, 4) + wire;
    ReadUintRoundTrip(|slots|, 4, wire);
  }

  lemma NamesRoundTrip(names: seq<Name>, rest: seq<byte>)
    requires |names| < 0x1_0000_0000 && forall i | 0 <= i < |names| :: |names[i]| < 0x1_0000_0000
    ensures DecodeVec(0xFFFF_FFFF, DecodeBytes, EncodeVec(names, EncodeBytes) + rest) == Got(names, rest)
  {
    forall i: nat, r: seq<byte> | i < |names|
      ensures DecodeBytes(EncodeBytes(names[i]) + r) == Got(names[i], r)
    {
      BytesRoundTrip(names[i], r);
    }
    VecRoundTrip(names, 0xFFFF_FFFF, EncodeBytes, DecodeBytes, rest);
  }

  lemma AppRoundTrip(a: AppState, rest: seq<byte>)
    requires |a.slots| < 0x1_0000_0000
    ensures DecodeApp(EncodeApp(a) + rest) == Got(a, rest)
  {
    PowersOf256();
    forall i: nat, r: seq<byte> | i < |a.slots|
      ensures ReadU32(EncodeU32(a.slots[i]) + r) == Got(a.slots[i], r)
    {
      ReadUintRoundTrip(a.slots[i], 4, r);
    }
    VecRoundTrip(a.slots, 0xFFFF_FFFF, EncodeU32, ReadU32, rest);
    AppFromParts(EncodeApp(a), EncodeVec(a.slots, EncodeU32), a, rest);
  }

  lemma AppFromParts(w: seq<byte>, x: seq<byte>, a: AppState, rest: seq<byte>)
    requires w == [a.version] + a.codeHash + x
    requires DecodeVec(0xFFFF_FFFF, ReadU32, x + rest) == Got(a.slots, rest)
    ensures DecodeApp(w + rest) == Got(a, rest)
  {
    assert w + rest == [a.version] + (a.codeHash + (x + rest));
    ReadBytesRoundTrip([a.version], a.codeHash + (x + rest));
    ReadBytesRoundTrip(a.codeHash, x + rest);
  }

  lemma StatesRoundTrip(states: seq<AppState>, rest: seq<byte>)
    requires forall i | 0 <= i < |states| :: |states[i].slots| < 0x1_0000_0000
    ensures DecodeStates(|states|, EncodeItems(states, EncodeApp) + rest) == Got(states, rest)
  {
    forall i: nat, r: seq<byte> | i < |states|
      ensures DecodeApp(EncodeApp(states[i]) + r) == Got(states[i], r)
    {
      AppRoundTrip(states[i], r);
    }
    ItemsRoundTrip(states, EncodeApp, DecodeApp, rest);
  }

  lemma {:induction false} ZipLooksUp(names: seq<Name>, states: seq<AppState>)
    requires |names| == |states|
    requires forall i, j | 0 <= i < j < |names| :: names[i] != names[j]
    ensures forall i | 0 <= i < |names| :: names[i] in Zip(names, states) && Zip(names, states)[names[i]] == states[i]
    ensures forall name | name in Zip(names, states) :: name in names
  {
    if names != [] {
      var n := |names| - 1;
      ZipLooksUp(names[..n], states[..n]);
    }
  }

  lemma ZipOfStates(names: seq<Name>, apps: map<Name, AppState>)
    requires Lists(names, apps)
    ensures Zip(names, States(names, apps)) == apps
  {
    var zip := Zip(names, States(names, apps));
    ZipLooksUp(names, States(names, apps));
    forall name | name in apps
      ensures name in zip && zip[name] == apps[name]
    {
      assert name in names;
      var i :| 0 <= i < |names| && names[i] == name;
      assert names[i] in zip;
    }
  }

  /** What the length fields can carry. */
  ghost predicate Representable(sb: Superblock) {
    && |sb.slotIds| < 0x1_0000_0000
    && |sb.apps| < 0x1_0000_0000
    && forall name | name in sb.apps :: |name| < 0x1_0000_0000 && |sb.apps[name].slots| < 0x1_0000_0000
  }

  lemma SuperblockFromParts(
      s: seq<byte>, s1: seq<byte>, s2: seq<byte>, s3: seq<byte>, names: seq<Name>, states: seq<AppState>,
      out: Superblock, rest: seq<byte>)
    requires ReadBytes(1, s) == Got([out.version], s1)
    requires DecodeVec(MAX_SLOTS, DecodeSlot, s1) == Got(out.slotIds, s2)
    requires DecodeVec(0xFFFF_FFFF, DecodeBytes, s2) == Got(names, s3)
    requires DecodeStates(|names|, s3) == Got(states, rest)
    requires out.apps == Zip(names, states)
    ensures DecodeSuperblock(s) == if AllAscii(names) then Got(out, rest) else Fail
  {
  }

  lemma Layout(v: byte, a: seq<byte>, b: seq<byte>, c: seq<byte>, rest: seq<byte>)
    ensures ReadBytes(1, [v] + a + b + c + rest) == Got([v], a + (b + (c + rest)))
  {
    assert [v] + a + b + c + rest == [v] + (a + (b + (c + rest)));
    ReadBytesRoundTrip([v], a + (b + (c + rest)));
  }

  /** A superblock comes back whole, with trailing bytes unread, exactly when it has at most 4096
      slots and ASCII app names; otherwise it is refused.  The order of the apps does not matter. */
  lemma SuperblockOnTheWire(sb: Superblock, names: seq<Name>, rest: seq<byte>)
    requires Representable(sb) && Lists(names, sb.apps)
    ensures DecodeSuperblock(EncodeSuperblock(sb, names) + rest)
         == if |sb.slotIds| <= MAX_SLOTS && AllAscii(names) then Got(sb, rest) else Fail
  {
    var states := States(names, sb.apps);
    var a, b, c := EncodeVec(sb.slotIds, EncodeSlot), EncodeVec(names, EncodeBytes), EncodeItems(states, EncodeApp);
    Layout(sb.version, a, b, c, rest);
    if |sb.slotIds| <= MAX_SLOTS {
      SlotsRoundTrip(sb.slotIds, b + (c + rest));
      NamesRoundTrip(names, c + rest);
      StatesRoundTrip(states, rest);
      ZipOfStates(names, sb.apps);
      SuperblockFromParts(EncodeSuperblock(sb, names) + rest, a + (b + (c + rest)), b + (c + rest), c + rest,
                          names, states, sb, rest);
    } else {
      TooManySlots(sb.slotIds, b + (c + rest));
    }
  }
}
