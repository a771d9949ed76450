/** The versioned key-value store behind a wrb page.  One table holds (tip, height, key) -> hash and
    a side table holds hash -> value.  A page load writes one height above the last one; the app's
    initialisation writes under the boot tip and renames those rows to the genesis tip.

    Queries that take the first row SQLite offers are relations here: whatever row is offered is
    allowed, and the lemmas show that every reachable table leaves only one choice. */
module KvStore {
  import opened Prelude
  import opened Bytes

  type Tip = seq<byte>
  type Key = string
  type Value = string
  type Hash = string
  type Items = seq<(Key, Value)>

  datatype Row = Row(tip: Tip, height: nat, key: Key)

  datatype Db = Db(rows: map<Row, Hash>, side: map<Hash, Value>)

  /** Heights are stored as signed 64-bit integers. */
  const MAX_HEIGHT: nat := 0x7fff_ffff_ffff_ffff

  function Ones(n: nat): (r: Tip)
    ensures |r| == n
    ensures forall i | 0 <= i < n :: r[i] == 255
  {
    seq(n, _ => 255)
  }

  const BOOT: Tip := Ones(32)
  const GENESIS: Tip := Zeros(32)
  const BOOT_KEY: Key := "genesis"
  const BOOT_HASH: Hash := "ffffffffffffffffffffffffffffffffffffffffffffffffffffffffffffffff"

  function MakeTip(height: nat): (r: Tip)
    ensures |r| == 32
  {
    ToBigEndian(height, 8) + Zeros(24)
  }

  /** The tip of a height is the height in eight bytes, and then zeros. */
  lemma TipIsHeight(height: nat, t: Tip)
    requires height <= MAX_HEIGHT + 1
    ensures t == MakeTip(height) <==>
              |t| == 32 && FromBigEndian(t[..8]) == height && forall i | 8 <= i < 32 :: t[i] == 0
  {
    PowersOf256();
    var tip := MakeTip(height);
    assert tip[..8] == ToBigEndian(height, 8) && tip[8..] == Zeros(24);
    ReadsAsIff(tip[..8], height);
    if |t| == 32 && forall i | 8 <= i < 32 :: t[i] == 0 {
      ReadsAsIff(t[..8], height);
      assert t == t[..8] + t[8..] && t[8..] == Zeros(24);
    }
  }

  lemma TipIsNotBoot(height: nat)
    ensures MakeTip(height) != BOOT
  {
    assert MakeTip(height)[8] == 0;
  }

  lemma TipsDiffer(g: nat, h: nat)
    requires g <= MAX_HEIGHT + 1 && h <= MAX_HEIGHT + 1 && MakeTip(g) == MakeTip(h)
    ensures g == h
  {
    assert MakeTip(g)[..8] == ToBigEndian(g, 8) && MakeTip(h)[..8] == ToBigEndian(h, 8);
    PowersOf256();
    BigEndianInjective(g, h, 8);
  }

  lemma {:induction false} ZeroBytes(width: nat)
    ensures ToBigEndian(0, width) == Zeros(width)
  {
    if width > 0 {
      ZeroBytes(width - 1);
    }
  }

  lemma TipOfZero()
    ensures MakeTip(0) == GENESIS
  {
    ZeroBytes(8);
  }

  // ---------------------------------------------------------------- the store's operations

  /** No two values share a hash, and none hashes to the sentinel. */
  ghost predicate Ideal(hash: Value -> Hash) {
    && (forall v, w :: hash(v) == hash(w) ==> v == w)
    && forall v :: hash(v) != BOOT_HASH
  }

  /** A database just created: the sentinel row, whose hash has no value. */
  function SetUp(): Db {
    Db(map[Row(BOOT, 0, BOOT_KEY) := BOOT_HASH], map[])
  }

  /** A height that the store may read for a tip. */
  ghost predicate HasHeight(db: Db, tip: Tip, h: nat) {
    exists key :: Row(tip, h, key) in db.rows
  }

  /** Tips are compared byte by byte, as their hexadecimal texts are. */
  predicate TipLeq(a: Tip, b: Tip) {
    a == [] || (b != [] && (a[0] < b[0] || (a[0] == b[0] && TipLeq(a[1..], b[1..]))))
  }

  /** `r` may come no later than `q` by falling height and then by tip. */
  predicate NoLater(r: Row, q: Row) {
    r.height > q.height || (r.height == q.height && TipLeq(r.tip, q.tip))
  }

  /** The tip of the one row asked for, the first by falling height and then by tip; the boot tip if that
      row has it, or if there is none. */
  ghost predicate IsTip(db: Db, tip: Tip) {
    if db.rows == map[] then tip == BOOT
    else exists r | r in db.rows :: r.tip == tip && forall q | q in db.rows :: NoLater(r, q)
  }

  lemma {:induction false} TipLeqTotal(a: Tip, b: Tip)
    ensures TipLeq(a, b) || TipLeq(b, a)
    ensures TipLeq(a, b) && TipLeq(b, a) ==> a == b
    ensures TipLeq(a, a)
  {
    if a != [] && b != [] && a[0] == b[0] {
      TipLeqTotal(a[1..], b[1..]);
      assert a == [a[0]] + a[1..] && b == [b[0]] + b[1..];
    }
    if a != [] {
      TipLeqTotal(a[1..], a[1..]);
    }
  }

  lemma {:induction false} TipLeqTransitive(a: Tip, b: Tip, c: Tip)
    requires TipLeq(a, b) && TipLeq(b, c)
    ensures TipLeq(a, c)
  {
    if a != [] && a[0] == b[0] && b[0] == c[0] {
      TipLeqTransitive(a[1..], b[1..], c[1..]);
    }
  }

  lemma NoLaterOrders(a: Row, b: Row, c: Row)
    ensures NoLater(a, b) || NoLater(b, a)
    ensures NoLater(a, b) && NoLater(b, c) ==> NoLater(a, c)
  {
    TipLeqTotal(a.tip, b.tip);
    if NoLater(a, b) && NoLater(b, c) && a.height == c.height {
      TipLeqTransitive(a.tip, b.tip, c.tip);
    }
  }

  /** So there is only one. */
  lemma TipIsUnique(db: Db, s: Tip, t: Tip)
    requires IsTip(db, s) && IsTip(db, t)
    ensures s == t
  {
    if db.rows != map[] {
      var a :| a in db.rows && a.tip == s && forall q | q in db.rows :: NoLater(a, q);
      var b :| b in db.rows && b.tip == t && forall q | q in db.rows :: NoLater(b, q);
      assert NoLater(a, b) && NoLater(b, a);
      TipLeqTotal(s, t);
    }
  }

  /** A row that may come first among those of `key` at or below `height`. */
  ghost predicate IsLatest(db: Db, height: nat, key: Key, r: Row) {
    && r in db.rows && r.key == key && r.height <= height
    && forall q | q in db.rows && q.key == key && q.height <= height :: q.height <= r.height
  }

  function SideGet(db: Db, hash: Hash): Option<Value> {
    if hash in db.side then Some(db.side[hash]) else None
  }

  /** What a read of `key` at `height` may give. */
  ghost predicate Reads(db: Db, height: nat, key: Key, v: Option<Value>) {
    || (exists r :: IsLatest(db, height, key, r) && v == SideGet(db, db.rows[r]))
    || (v == None && forall r | r in db.rows && r.key == key :: height < r.height)
  }

  /** An open transaction: the table as it sees it, and where its writes go. */
  datatype Session = Session(work: Db, chainTip: Tip, tipHeight: nat, nextTip: Tip)

  /** The height the tip's own lookup gives, which a tip other than genesis needs to be positive. */
  ghost predicate TiplessHeight(db: Db, tip: Tip, h: nat) {
    if tip == BOOT then h == 0
    else HasHeight(db, tip, h) && (tip != GENESIS ==> h > 0)
  }

  /** How a transaction may begin on top of `current`. */
  ghost predicate Begins(db: Db, current: Tip, next: Tip, s: Session) {
    && s.work == db && s.chainTip == current && s.nextTip == next
    && exists g: nat ::
         && TiplessHeight(db, current, g)
         && if current == BOOT then s.tipHeight == 0
            else 0 < s.tipHeight <= g + 1 && HasHeight(db, current, s.tipHeight - 1)
  }

  /** How a page load may begin. */
  ghost predicate LoadBegins(db: Db, s: Session) {
    exists tip, h: nat :: IsTip(db, tip) && HasHeight(db, tip, h) && Begins(db, tip, MakeTip(h + 1), s)
  }

  /** How the app's initialisation begins. */
  ghost predicate InitBegins(db: Db, s: Session) {
    Begins(db, BOOT, GENESIS, s)
  }

  /** One drained write: its row and its value. */
  function Insert(hash: Value -> Hash, db: Db, tip: Tip, height: nat, item: (Key, Value)): Db {
    Db(db.rows[Row(tip, height, item.0) := hash(item.1)], db.side[hash(item.1) := item.1])
  }

  function Inserts(hash: Value -> Hash, db: Db, tip: Tip, height: nat, items: Items): Db {
    if items == [] then db
    else
      var n := |items| - 1;
      Insert(hash, Inserts(hash, db, tip, height, items[..n]), tip, height, items[n])
  }

  /** A height that draining the buffer may compute for its rows. */
  ghost predicate NextHeight(db: Db, tip: Tip, h: nat) {
    || (h > 0 && HasHeight(db, tip, h - 1))
    || (h == 1 && forall g: nat :: !HasHeight(db, tip, g))
  }

  /** How writing a batch may change an open transaction; heights past the column's range abort. */
  ghost predicate Puts(hash: Value -> Hash, s: Session, items: Items, t: Session) {
    exists h: nat ::
      && NextHeight(s.work, s.chainTip, h)
      && var (tip, height) := if s.chainTip == BOOT then (BOOT, h - 1) else (s.nextTip, h);
         && (items != [] ==> height <= MAX_HEIGHT)
         && t == s.(work := Inserts(hash, s.work, tip, height, items))
  }

  function Target(s: Session): Tip {
    if s.chainTip == BOOT then BOOT else s.nextTip
  }

  /** Renaming would give two rows the same primary key. */
  ghost predicate Clashes(db: Db, from: Tip, to: Tip) {
    from != to && exists r | r in db.rows :: r.tip == from && r.(tip := to) in db.rows
  }

  function Renamed(db: Db, from: Tip, to: Tip): Db {
    if from == to then db
    else
      db.(rows :=
        map r | r in set q | q in db.rows :: if q.tip == from then q.(tip := to) else q ::
          if r.tip == to && r.(tip := from) in db.rows then db.rows[r.(tip := from)]
          else if r in db.rows then db.rows[r] else BOOT_HASH)
  }

  /** A commit renames the transaction's rows to `final`; a clash rolls everything back. */
  ghost function Commit(db: Db, s: Session, final: Tip): Db {
    if Clashes(s.work, Target(s), final) then db else Renamed(s.work, Target(s), final)
  }

  // ---------------------------------------------------------------- what a run should mean

  /** What was written at each height; `None` is the sentinel without a value. */
  type Batch = map<Key, Option<Value>>
  type History = seq<Batch>

  function Written(items: Items): Batch {
    if items == [] then map[]
    else
      var n := |items| - 1;
      Written(items[..n])[items[n].0 := Some(items[n].1)]
  }

  function Lookup(hist: History, height: nat, key: Key): Option<Value> {
    if hist == [] then None
    else
      var n := |hist| - 1;
      if n <= height && key in hist[n] then hist[n][key] else Lookup(hist[..n], height, key)
  }

  /** The history once `batch` was committed by a page load: a load that wrote nothing leaves no trace. */
  function Extend(hist: History, batch: Batch): History {
    if batch == map[] then hist else hist + [batch]
  }

  function HashOf(hash: Value -> Hash, entry: Option<Value>): Hash {
    match entry
    case None => BOOT_HASH
    case Some(v) => hash(v)
  }

  /** The batch that holds the row's key, if the row is one that `hist` and `boot` call for. */
  function Home(hist: History, boot: Batch, r: Row): Option<Batch> {
    if r.tip == BOOT then (if r.height == 0 then Some(boot) else None)
    else if r.height < |hist| && r.tip == MakeTip(r.height) then Some(hist[r.height])
    else None
  }

  /** The table holds exactly the rows of `hist`, each under the tip of its height, and the rows of
      `boot` under the boot tip. */
  ghost predicate Filed(hash: Value -> Hash, db: Db, hist: History, boot: Batch) {
    forall r: Row :: RowFiled(hash, db, hist, boot, r)
  }

  ghost predicate RowFiled(hash: Value -> Hash, db: Db, hist: History, boot: Batch, r: Row) {
    var home := Home(hist, boot, r);
    && (r in db.rows <==> home.Some? && r.key in home.value)
    && (r in db.rows ==> db.rows[r] == HashOf(hash, home.value[r.key]))
  }

  /** The side table is content addressed. */
  ghost predicate Addressed(hash: Value -> Hash, db: Db) {
    forall x | x in db.side :: x == hash(db.side[x])
  }

  /** Every row's value is at hand, save the sentinel's. */
  ghost predicate Backed(db: Db) {
    forall r | r in db.rows && db.rows[r] != BOOT_HASH :: db.rows[r] in db.side
  }

  ghost predicate Dense(hist: History) {
    && |hist| <= MAX_HEIGHT + 1
    && forall h | 0 <= h < |hist| :: hist[h] != map[]
  }

  /** The invariant of every database state, inside and outside a transaction. */
  ghost predicate Holds(hash: Value -> Hash, db: Db, hist: History, boot: Batch) {
    Dense(hist) && Filed(hash, db, hist, boot) && Addressed(hash, db) && Backed(db)
  }

  // ---------------------------------------------------------------- reads

  lemma SideGives(hash: Value -> Hash, db: Db, r: Row, entry: Option<Value>)
    requires Ideal(hash) && Addressed(hash, db) && Backed(db)
    requires r in db.rows && db.rows[r] == HashOf(hash, entry)
    ensures SideGet(db, db.rows[r]) == entry
  {
    match entry
    case None =>
      assert forall x | x in db.side :: hash(db.side[x]) != BOOT_HASH;
    case Some(v) =>
      assert hash(v) in db.side;
      assert hash(db.side[hash(v)]) == hash(v);
  }

  /** `h` is the last height at or below `height` that holds `key`. */
  ghost predicate LastAt(hist: History, height: nat, key: Key, h: nat) {
    && h < |hist| && h <= height && key in hist[h]
    && forall g | h < g < |hist| && g <= height :: key !in hist[g]
  }

  lemma {:induction false} LookupFinds(hist: History, height: nat, key: Key)
    ensures forall h: nat | LastAt(hist, height, key, h) :: Lookup(hist, height, key) == hist[h][key]
    ensures (forall h | 0 <= h < |hist| && h <= height :: key !in hist[h]) ==> Lookup(hist, height, key) == None
  {
    if hist != [] {
      var n := |hist| - 1;
      LookupFinds(hist[..n], height, key);
      forall h: nat | LastAt(hist, height, key, h)
        ensures Lookup(hist, height, key) == hist[h][key]
      {
        if h < n {
          assert LastAt(hist[..n], height, key, h);
        }
      }
    }
  }

  /** Outside the boot rows, every read is determined and gives what was written last at or below
      its height. */
  lemma ReadsAreLookups(
      hash: Value -> Hash, db: Db, hist: History, boot: Batch, height: nat, key: Key, v: Option<Value>)
    requires Ideal(hash) && Holds(hash, db, hist, boot) && key !in boot
    ensures Reads(db, height, key, v) <==> v == Lookup(hist, height, key)
  {
    LookupFinds(hist, height, key);
    forall r | r in db.rows && r.key == key
      ensures r.height < |hist| && r == Row(MakeTip(r.height), r.height, key) && key in hist[r.height]
    {
      assert RowFiled(hash, db, hist, boot, r);
    }
    forall r | IsLatest(db, height, key, r)
      ensures SideGet(db, db.rows[r]) == Lookup(hist, height, key)
    {
      LatestIsLast(hash, db, hist, boot, height, key, r);
      assert RowFiled(hash, db, hist, boot, r);
      SideGives(hash, db, r, hist[r.height][key]);
    }
    if h: nat :| LastAt(hist, height, key, h) {
      var r := Row(MakeTip(h), h, key);
      LastIsLatest(hash, db, hist, boot, height, key, h);
      assert IsLatest(db, height, key, r);
    } else {
      NoLast(hist, height, key);
    }
  }

  lemma LatestIsLast(hash: Value -> Hash, db: Db, hist: History, boot: Batch, height: nat, key: Key, r: Row)
    requires Filed(hash, db, hist, boot) && key !in boot && IsLatest(db, height, key, r)
    ensures LastAt(hist, height, key, r.height)
  {
    assert RowFiled(hash, db, hist, boot, r);
    forall g | r.height < g < |hist| && g <= height
      ensures key !in hist[g]
    {
      TipIsNotBoot(g);
      assert RowFiled(hash, db, hist, boot, Row(MakeTip(g), g, key));
    }
  }

  lemma LastIsLatest(hash: Value -> Hash, db: Db, hist: History, boot: Batch, height: nat, key: Key, h: nat)
    requires Filed(hash, db, hist, boot) && key !in boot && LastAt(hist, height, key, h)
    ensures IsLatest(db, height, key, Row(MakeTip(h), h, key))
  {
    TipIsNotBoot(h);
    assert RowFiled(hash, db, hist, boot, Row(MakeTip(h), h, key));
    forall q | q in db.rows && q.key == key && q.height <= height
      ensures q.height <= h
    {
      assert RowFiled(hash, db, hist, boot, q);
    }
  }

  lemma NoLast(hist: History, height: nat, key: Key)
    requires forall h: nat :: !LastAt(hist, height, key, h)
    ensures forall h | 0 <= h < |hist| && h <= height :: key !in hist[h]
  {
    forall h | 0 <= h < |hist| && h <= height
      ensures key !in hist[h]
    {
      if key in hist[h] {
        var _ := LastFrom(hist, height, key, h);
      }
    }
  }

  lemma {:induction false} LastFrom(hist: History, height: nat, key: Key, h: nat) returns (top: nat)
    requires h < |hist| && h <= height && key in hist[h]
    ensures LastAt(hist, height, key, top)
    decreases |hist| - h
  {
    if g :| h < g < |hist| && g <= height && key in hist[g] {
      top := LastFrom(hist, height, key, g);
    } else {
      top := h;
    }
  }
}
